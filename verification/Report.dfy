// Verification results (src/result.rs).
module Report {
  import opened Wrappers
  import opened Receipts

  datatype Status = Valid | Invalid

  // An error as it is listed in a result; the originals are rendered strings.
  datatype ReportError =
    | Plain(error: VerifyError)
    | AtEnvelope(index: nat, error: VerifyError)
    | MalformedSignatureBundle
    | NotTrusted(trust: TrustStatus)
    | Wrapper

  datatype TrustStatus = Trusted | Untrusted | Revoked | WrongEpoch

  datatype DigestValidation = DigestValidation(allHashesMatch: bool, chainIntegrity: bool, orderingValid: bool)

  datatype ChainValidation = ChainValidation(length: nat, firstLogicalTime: nat, lastLogicalTime: nat)

  datatype PolicyConsistency = PolicyConsistency(stablePolicy: bool, transitionsDetected: bool)

  datatype SignatureValidation = SignatureValidation(present: bool, valid: bool, keyIdConsistent: bool)

  // The value of a result object.
  datatype Report = Report(
    status: Status,
    digests: DigestValidation,
    chain: Option<ChainValidation>,
    uniformContext: Option<bool>,
    policy: Option<PolicyConsistency>,
    uniformSchema: Option<bool>,
    signature: Option<SignatureValidation>,
    trust: Option<TrustStatus>,
    errors: seq<ReportError>)

  // A rejection is explained and an acceptance is clean.
  predicate Consistent(r: Report) {
    r.status.Valid? <==> r.errors == []
  }

  function ValidReport(): Report {
    Report(Valid, DigestValidation(true, true, true), None, None, None, None, None, None, [])
  }

  function InvalidReport(error: ReportError): Report {
    Report(Invalid, DigestValidation(false, false, false), None, None, None, None, None, None, [error])
  }

  // The report with this list of errors, and the status that goes with it.
  function Settled(r: Report, errors: seq<ReportError>): Report {
    r.(status := if errors == [] then Valid else Invalid, errors := errors)
  }

  class VerificationResult {
    var status: Status
    var digests: DigestValidation
    var chain: Option<ChainValidation>
    var uniformContext: Option<bool>
    var policy: Option<PolicyConsistency>
    var uniformSchema: Option<bool>
    var signature: Option<SignatureValidation>
    var trust: Option<TrustStatus>
    var errors: seq<ReportError>

    function Value(): Report
      reads this
    {
      Report(status, digests, chain, uniformContext, policy, uniformSchema, signature, trust, errors)
    }

    constructor ValidSingle()
      ensures Value() == ValidReport()
    {
      status, errors := Valid, [];
      digests := DigestValidation(true, true, true);
      chain, uniformContext, policy, uniformSchema, signature, trust := None, None, None, None, None, None;
    }

    constructor Rejected(error: ReportError)
      ensures Value() == InvalidReport(error)
    {
      status, errors := Invalid, [error];
      digests := DigestValidation(false, false, false);
      chain, uniformContext, policy, uniformSchema, signature, trust := None, None, None, None, None, None;
    }

    // The only way an error gets in: the status goes down with it.
    method AddError(error: ReportError)
      modifies this`status, this`errors
      ensures Value() == Settled(old(Value()), old(errors) + [error])
      ensures old(Consistent(Value())) ==> Consistent(Value())
    {
      status := Invalid;
      errors := errors + [error];
    }
  }
}
