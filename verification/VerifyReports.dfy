// What the reports of src/verify.rs say, field by field and error by error.
module VerifyReports {
  import opened Wrappers
  import opened Json
  import opened Limits
  import opened Receipts
  import opened Report
  import opened Chain
  import opened Ingestion
  import opened Verify

  // ---------- The errors of one envelope ----------

  // x describes something that is wrong with the envelope by itself.
  predicate EnvelopeFault(p: Platform, e: Envelope, x: VerifyError) {
    var c := e.content;
    var algorithm, canonicalization := p.digestAlgorithm(c.envelopeVersion), p.canonicalization(c.envelopeVersion);
    match x
    case UnsupportedVersion(version) => version == c.envelopeVersion && version != 1
    case DigestAlgorithmMismatch(declared, expected) =>
      c.digestAlgorithm == Some(declared) && expected == algorithm && declared != expected
    case CanonicalizationMismatch(declared, expected) =>
      && (c.digestAlgorithm.Some? ==> c.digestAlgorithm.value == algorithm)
      && c.canonicalization == Some(declared) && expected == canonicalization && declared != expected
    case Canon => p.commit(c).None?
    case EventHashMismatch(expected, computed) =>
      expected == e.eventHash && p.commit(c) == Some(computed) && expected != computed
    case _ => false
  }

  // x reports such a fault, with the envelope's position if it has one.
  predicate FaultAt(p: Platform, e: Envelope, at: Option<nat>, x: ReportError) {
    match x
    case Plain(error) => at.None? && EnvelopeFault(p, e, error)
    case AtEnvelope(i, error) => at == Some(i) && EnvelopeFault(p, e, error)
    case _ => false
  }

  lemma CheckNotedCount(errors: seq<ReportError>, at: Option<nat>, check: Check<VerifyError>, x: ReportError)
    ensures multiset(CheckNoted(errors, at, check))[x]
         == multiset(errors)[x] + Once(check.Fail? && x == Tagged(at, check.error))
  {
  }

  // Every fault of the envelope is reported once.
  lemma EnvelopeErrorCount(p: Platform, at: Option<nat>, e: Envelope, errors: seq<ReportError>, x: ReportError)
    ensures multiset(EnvelopeNoted(p, at, e, errors))[x] == multiset(errors)[x] + Once(FaultAt(p, e, at, x))
  {
    var version, algorithms, hash := VerifyEnvelopeVersion(e), VerifyAlgorithms(p, e), VerifyEventHash(p, e);
    var first := CheckNoted(errors, at, version);
    CheckNotedCount(errors, at, version, x);
    CheckNotedCount(first, at, algorithms, x);
    CheckNotedCount(CheckNoted(first, at, algorithms), at, hash, x);
    FaultsAdd(p, e, at, x);
  }

  lemma FaultsAdd(p: Platform, e: Envelope, at: Option<nat>, x: ReportError)
    ensures var version, algorithms, hash := VerifyEnvelopeVersion(e), VerifyAlgorithms(p, e), VerifyEventHash(p, e);
            Once(FaultAt(p, e, at, x))
            == Once(version.Fail? && x == Tagged(at, version.error))
               + Once(algorithms.Fail? && x == Tagged(at, algorithms.error))
               + Once(hash.Fail? && x == Tagged(at, hash.error))
  {
  }

  // Version, then algorithms, then hash.
  function Stage(x: VerifyError): nat {
    match x
    case UnsupportedVersion(_) => 0
    case DigestAlgorithmMismatch(_, _) => 1
    case CanonicalizationMismatch(_, _) => 1
    case _ => 2
  }

  function Place(x: ReportError): (nat, nat) {
    match x
    case Plain(error) => (0, Stage(error))
    case AtEnvelope(i, error) => (i, Stage(error))
    case _ => (0, 3)
  }

  predicate Sooner(a: (nat, nat), b: (nat, nat)) {
    a.0 < b.0 || (a.0 == b.0 && a.1 < b.1)
  }

  // By envelope, and for each envelope by stage; all before `bound`.
  predicate InPlace(errors: seq<ReportError>, bound: (nat, nat)) {
    && (forall i, j :: 0 <= i < j < |errors| ==> Sooner(Place(errors[i]), Place(errors[j])))
    && (forall x :: x in errors ==> Sooner(Place(x), bound))
  }

  lemma CheckNotedInPlace(errors: seq<ReportError>, at: Option<nat>, check: Check<VerifyError>, stage: nat)
    requires var i := if at.Some? then at.value else 0;
             InPlace(errors, (i, stage)) && (check.Fail? ==> Stage(check.error) == stage)
    ensures InPlace(CheckNoted(errors, at, check), (if at.Some? then at.value else 0, stage + 1))
  {
    assert forall k :: 0 <= k < |errors| ==> errors[k] in errors;
  }

  lemma EnvelopeErrorsInPlace(p: Platform, at: Option<nat>, e: Envelope, errors: seq<ReportError>)
    requires InPlace(errors, (if at.Some? then at.value else 0, 0))
    ensures InPlace(EnvelopeNoted(p, at, e, errors), (if at.Some? then at.value else 0, 3))
  {
    var first := CheckNoted(errors, at, VerifyEnvelopeVersion(e));
    CheckNotedInPlace(errors, at, VerifyEnvelopeVersion(e), 0);
    CheckNotedInPlace(first, at, VerifyAlgorithms(p, e), 1);
    CheckNotedInPlace(CheckNoted(first, at, VerifyAlgorithms(p, e)), at, VerifyEventHash(p, e), 2);
  }

  // ---------- Single receipts ----------

  // The report of a text that is not ingested.
  predicate IsRejection(r: Report, error: ReportError) {
    && r.status.Invalid? && r.errors == [error] && r.digests == DigestValidation(false, false, false)
    && r.chain.None? && r.uniformContext.None? && r.policy.None? && r.uniformSchema.None?
    && r.signature.None? && r.trust.None?
  }

  // The report of one receipt, whatever the text.
  lemma ReceiptReport(p: Platform, raw: string, limits: VerifierLimits)
    ensures var r := VerifyReceiptWith(p, raw, limits);
            match IngestEnvelope(p, raw, limits)
            case Err(error) => IsRejection(r, Plain(error))
            case Ok(e) =>
              && (r.status.Valid? <==> r.errors == [])
              && r.digests == DigestValidation(p.commit(e.content) == Some(e.eventHash), true, true)
              && r.chain.None? && r.uniformContext.None? && r.policy.None? && r.uniformSchema.None?
              && r.signature.None? && r.trust.None?
              && (forall x :: multiset(r.errors)[x] == Once(FaultAt(p, e, None, x)))
              && InPlace(r.errors, (0, 3))
  {
    if IngestEnvelope(p, raw, limits).Ok? {
      var e := IngestEnvelope(p, raw, limits).value;
      forall x ensures multiset(EnvelopeNoted(p, None, e, []))[x] == Once(FaultAt(p, e, None, x)) {
        EnvelopeErrorCount(p, None, e, [], x);
      }
      EnvelopeErrorsInPlace(p, None, e, []);
    }
  }

  // ---------- Chains ----------

  // The digest flags of a chain's report.
  ghost predicate DigestsReported(p: Platform, envelopes: seq<Envelope>, d: DigestValidation) {
    && (d.allHashesMatch <==> forall e :: e in envelopes ==> p.commit(e.content) == Some(e.eventHash))
    && (d.chainIntegrity <==> Linked(envelopes))
    && (d.orderingValid <==> Increasing(envelopes))
  }

  // The uniformity flags of a chain's report.
  ghost predicate UniformityReported(envelopes: seq<Envelope>, r: Report) {
    && r.uniformContext.Some? && r.policy.Some? && r.uniformSchema.Some?
    && (r.uniformContext.value <==> forall e, f :: e in envelopes && f in envelopes ==>
          e.content.contextDigest == f.content.contextDigest)
    && (r.policy.value.stablePolicy <==> forall e, f :: e in envelopes && f in envelopes ==>
          e.content.policyDigest == f.content.policyDigest)
    && (r.policy.value.transitionsDetected <==> !r.policy.value.stablePolicy)
    && (r.uniformSchema.value <==> forall e, f :: e in envelopes && f in envelopes ==>
          e.content.schemaDigest == f.content.schemaDigest)
  }

  // Every flag, length and time that is reported for a chain.
  lemma ChainReportFields(p: Platform, envelopes: seq<Envelope>)
    ensures var r, n := ChainReport(p, envelopes), |envelopes|;
            && (r.status.Valid? <==> r.errors == []) && r.signature.None? && r.trust.None?
            && (n == 0 ==>
                  && r.errors == [] && r.digests == DigestValidation(true, true, true)
                  && r.chain == Some(ChainValidation(0, 0, 0))
                  && r.uniformContext.None? && r.policy.None? && r.uniformSchema.None?)
            && (n > 0 ==>
                  && DigestsReported(p, envelopes, r.digests) && UniformityReported(envelopes, r)
                  && r.chain == Some(ChainValidation(n, envelopes[0].content.logicalTime,
                                                     envelopes[n - 1].content.logicalTime)))
  {
    if envelopes != [] {
      DigestsMeaning(p, envelopes, ChainReport(p, envelopes));
      UniformityMeaning(envelopes, ChainReport(p, envelopes));
    }
  }

  lemma DigestsMeaning(p: Platform, envelopes: seq<Envelope>, r: Report)
    requires r.digests == DigestValidation(HashesMatch(p, envelopes), Linked(envelopes), Increasing(envelopes))
    ensures DigestsReported(p, envelopes, r.digests)
  {
    HashesMatchMeaning(p, envelopes);
  }

  lemma UniformityMeaning(envelopes: seq<Envelope>, r: Report)
    requires r.uniformContext == Some(Uniform(envelopes, ContextOf))
    requires r.policy == Some(PolicyConsistency(Uniform(envelopes, PolicyOf), !Uniform(envelopes, PolicyOf)))
    requires r.uniformSchema == Some(Uniform(envelopes, SchemaOf))
    ensures UniformityReported(envelopes, r)
  {
    UniformMeaning(envelopes, ContextOf);
    UniformMeaning(envelopes, PolicyOf);
    UniformMeaning(envelopes, SchemaOf);
  }

  lemma HashesMatchMeaning(p: Platform, envelopes: seq<Envelope>)
    ensures HashesMatch(p, envelopes) <==> forall e :: e in envelopes ==> p.commit(e.content) == Some(e.eventHash)
  {
  }

  lemma UniformMeaning(envelopes: seq<Envelope>, field: Envelope -> Text)
    ensures Uniform(envelopes, field) <==> forall e, f :: e in envelopes && f in envelopes ==> field(e) == field(f)
  {
    forall i, j | 0 <= i < |envelopes| && 0 <= j < |envelopes|
      ensures envelopes[i] in envelopes && envelopes[j] in envelopes
    {
    }
  }

  // How often x reports a fault of one of the first n envelopes.
  function FaultsUpTo(p: Platform, envelopes: seq<Envelope>, n: nat, x: ReportError): nat
    requires n <= |envelopes|
  {
    if n == 0 then 0 else FaultsUpTo(p, envelopes, n - 1, x) + Once(FaultAt(p, envelopes[n - 1], Some(n - 1), x))
  }

  ghost predicate CountsAgree(p: Platform, envelopes: seq<Envelope>, n: nat, x: ReportError) {
    n <= |envelopes| ==> multiset(PerEnvelopeErrors(p, envelopes, n))[x] == FaultsUpTo(p, envelopes, n, x)
  }

  lemma PerEnvelopeErrorCount(p: Platform, envelopes: seq<Envelope>, n: nat, x: ReportError)
    requires n <= |envelopes|
    ensures multiset(PerEnvelopeErrors(p, envelopes, n))[x] == FaultsUpTo(p, envelopes, n, x)
  {
    assert CountsAgree(p, envelopes, 0, x);
    forall i: nat | CountsAgree(p, envelopes, i, x) ensures CountsAgree(p, envelopes, i + 1, x) {
      if i < |envelopes| {
        NextEnvelopeCount(p, envelopes, i, x);
      }
    }
    FromZero((i: nat) => CountsAgree(p, envelopes, i, x), n);
  }

  lemma NextEnvelopeCount(p: Platform, envelopes: seq<Envelope>, i: nat, x: ReportError)
    requires i < |envelopes|
    ensures multiset(PerEnvelopeErrors(p, envelopes, i + 1))[x]
         == multiset(PerEnvelopeErrors(p, envelopes, i))[x] + Once(FaultAt(p, envelopes[i], Some(i), x))
  {
    EnvelopeErrorCount(p, Some(i), envelopes[i], PerEnvelopeErrors(p, envelopes, i), x);
  }

  lemma {:induction false} EachFaultOnce(p: Platform, envelopes: seq<Envelope>, n: nat, x: ReportError)
    requires n <= |envelopes|
    ensures FaultsUpTo(p, envelopes, n, x) == Once(FaultBefore(p, envelopes, n, x))
  {
    if n > 0 {
      EachFaultOnce(p, envelopes, n - 1, x);
      NextFault(p, envelopes, n - 1, x);
    }
  }

  // x reports a fault of one of the first n envelopes.
  predicate FaultBefore(p: Platform, envelopes: seq<Envelope>, n: nat, x: ReportError)
    requires n <= |envelopes|
  {
    x.AtEnvelope? && x.index < n && EnvelopeFault(p, envelopes[x.index], x.error)
  }

  lemma NextFault(p: Platform, envelopes: seq<Envelope>, i: nat, x: ReportError)
    requires i < |envelopes|
    ensures Once(FaultBefore(p, envelopes, i + 1, x))
         == Once(FaultBefore(p, envelopes, i, x)) + Once(FaultAt(p, envelopes[i], Some(i), x))
  {
  }

  ghost predicate FirstInPlace(p: Platform, envelopes: seq<Envelope>, n: nat) {
    n <= |envelopes| ==> InPlace(PerEnvelopeErrors(p, envelopes, n), (n, 0))
  }

  lemma PerEnvelopeErrorsInPlace(p: Platform, envelopes: seq<Envelope>, n: nat)
    requires n <= |envelopes|
    ensures InPlace(PerEnvelopeErrors(p, envelopes, n), (n, 0))
  {
    assert FirstInPlace(p, envelopes, 0);
    forall i: nat | FirstInPlace(p, envelopes, i) ensures FirstInPlace(p, envelopes, i + 1) {
      if i < |envelopes| {
        NextEnvelopeInPlace(p, envelopes, i);
      }
    }
    FromZero((i: nat) => FirstInPlace(p, envelopes, i), n);
  }

  lemma NextEnvelopeInPlace(p: Platform, envelopes: seq<Envelope>, i: nat)
    requires i < |envelopes| && InPlace(PerEnvelopeErrors(p, envelopes, i), (i, 0))
    ensures InPlace(PerEnvelopeErrors(p, envelopes, i + 1), (i + 1, 0))
  {
    EnvelopeErrorsInPlace(p, Some(i), envelopes[i], PerEnvelopeErrors(p, envelopes, i));
    NextPlace(PerEnvelopeErrors(p, envelopes, i + 1), i);
  }

  lemma NextPlace(errors: seq<ReportError>, i: nat)
    requires InPlace(errors, (i, 3))
    ensures InPlace(errors, (i + 1, 0))
  {
  }

  lemma {:induction false} AppendedAll(errors: seq<ReportError>, more: seq<VerifyError>, n: nat)
    requires n <= |more|
    ensures Appended(errors, more, n) == errors + Mapped(more[..n], x => Plain(x))
  {
    if n > 0 {
      AppendedAll(errors, more, n - 1);
      assert Mapped(more[..n], x => Plain(x)) == Mapped(more[..n - 1], x => Plain(x)) + [Plain(more[n - 1])];
    }
  }

  // A chain's errors: first each fault of each envelope, once, by position and
  // stage; then the violations of the chain in their order.
  lemma ChainReportErrors(p: Platform, envelopes: seq<Envelope>) returns (own: seq<ReportError>)
    ensures ChainReport(p, envelopes).errors == own + Mapped(ChainErrors(envelopes), x => Plain(x))
    ensures forall x :: multiset(own)[x] == Once(FaultBefore(p, envelopes, |envelopes|, x))
    ensures InPlace(own, (|envelopes|, 0))
  {
    var n, chain := |envelopes|, ChainErrors(envelopes);
    own := PerEnvelopeErrors(p, envelopes, n);
    AppendedAll(own, chain, |chain|);
    assert chain[..|chain|] == chain;
    PerEnvelopeErrorsInPlace(p, envelopes, n);
    forall x ensures multiset(own)[x] == Once(FaultBefore(p, envelopes, n, x)) {
      PerEnvelopeErrorCount(p, envelopes, n, x);
      EachFaultOnce(p, envelopes, n, x);
    }
  }

  // A text that is not ingested as a chain is rejected with its one error.
  lemma ChainTextReport(p: Platform, raw: string, limits: VerifierLimits)
    ensures match IngestChain(p, raw, limits)
            case Err(error) => IsRejection(VerifyReceiptChainWith(p, raw, limits), Plain(error))
            case Ok(envelopes) => VerifyReceiptChainWith(p, raw, limits) == ChainReport(p, envelopes)
  {
  }

  // ---------- Signed receipts ----------

  // The error the signature step or the trust step adds, if any.
  function SignatureError(s: Signatures, e: Envelope, sigBytes: string, trusted: bool): Option<ReportError> {
    var bundle := s.parse(sigBytes);
    if bundle.None? then Some(MalformedSignatureBundle)
    else
      match s.verify(e, bundle.value)
      case Fail(error) => Some(Plain(error))
      case Pass =>
        var trust := s.trust(bundle.value);
        if trusted && trust != Trusted then Some(NotTrusted(trust)) else None
  }

  // The report of a signed receipt is that of the receipt with the signature and
  // trust fields filled in and at most one more error.
  lemma SignedReport(p: Platform, s: Signatures, raw: string, sigBytes: string, trusted: bool)
    ensures var r, receipt := VerifySigned(p, s, raw, sigBytes, trusted), VerifyReceipt(p, raw);
            match IngestEnvelope(p, raw, DEFAULT_LIMITS)
            case Err(error) => IsRejection(r, Plain(error))
            case Ok(e) =>
              var bundle, added := s.parse(sigBytes), SignatureError(s, e, sigBytes, trusted);
              var verified := bundle.Some? && s.verify(e, bundle.value).Pass?;
              && r == receipt.(status := r.status, errors := r.errors, signature := r.signature, trust := r.trust)
              && (r.status.Valid? <==> r.errors == [])
              && r.signature == Some(SignatureValidation(true, verified,
                                                         bundle.Some? && s.keyIdConsistent(bundle.value)))
              && r.trust == (if trusted && verified then Some(s.trust(bundle.value)) else None)
              && r.errors == Noted(receipt.errors, added.Some?, if added.Some? then added.value else Wrapper)
  {
  }
}
