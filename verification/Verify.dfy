// The verification facade (src/verify.rs): ingestion, per-envelope checks and
// chain checks composed into one result.
module Verify {
  import opened Wrappers
  import opened Json
  import opened Limits
  import opened Receipts
  import opened Report
  import opened Chain
  import opened Ingestion

  // ---------- What each entry point reports ----------

  // An error as reported, with the envelope's position in a chain.
  function Tagged(at: Option<nat>, error: VerifyError): ReportError {
    if at.Some? then AtEnvelope(at.value, error) else Plain(error)
  }

  function CheckNoted(errors: seq<ReportError>, at: Option<nat>, check: Check<VerifyError>): seq<ReportError> {
    if check.Fail? then errors + [Tagged(at, check.error)] else errors
  }

  // The list of errors after the three checks of an envelope.
  function EnvelopeNoted(p: Platform, at: Option<nat>, e: Envelope, errors: seq<ReportError>): seq<ReportError> {
    var version := CheckNoted(errors, at, VerifyEnvelopeVersion(e));
    var algorithms := CheckNoted(version, at, VerifyAlgorithms(p, e));
    CheckNoted(algorithms, at, VerifyEventHash(p, e))
  }

  function SingleReport(p: Platform, e: Envelope): Report {
    var hashOk := VerifyEventHash(p, e).Pass?;
    Settled(ValidReport().(digests := DigestValidation(hashOk, true, true)), EnvelopeNoted(p, None, e, []))
  }

  function VerifyReceiptWith(p: Platform, raw: string, limits: VerifierLimits): Report {
    match IngestEnvelope(p, raw, limits)
    case Ok(e) => SingleReport(p, e)
    case Err(error) => InvalidReport(Plain(error))
  }

  function VerifyReceipt(p: Platform, raw: string): Report {
    VerifyReceiptWith(p, raw, DEFAULT_LIMITS)
  }

  // The errors of the first n envelopes, each with its position.
  function PerEnvelopeErrors(p: Platform, envelopes: seq<Envelope>, n: nat): seq<ReportError>
    requires n <= |envelopes|
  {
    if n == 0 then []
    else EnvelopeNoted(p, Some(n - 1), envelopes[n - 1], PerEnvelopeErrors(p, envelopes, n - 1))
  }

  // A list of errors after the first n of another have been added.
  function Appended(errors: seq<ReportError>, more: seq<VerifyError>, n: nat): seq<ReportError>
    requires n <= |more|
  {
    if n == 0 then errors else Appended(errors, more, n - 1) + [Plain(more[n - 1])]
  }

  ghost function ChainReport(p: Platform, envelopes: seq<Envelope>): Report {
    if envelopes == [] then ValidReport().(chain := Some(ChainValidation(0, 0, 0)))
    else
      var own, chain := PerEnvelopeErrors(p, envelopes, |envelopes|), ChainErrors(envelopes);
      Summarized(p, envelopes, Settled(ValidReport(), Appended(own, chain, |chain|)))
  }

  // The per-category fields of a chain's report.
  ghost function Summarized(p: Platform, envelopes: seq<Envelope>, r: Report): Report
    requires envelopes != []
  {
    var n := |envelopes|;
    r.(digests := DigestValidation(HashesMatch(p, envelopes), Linked(envelopes), Increasing(envelopes)),
       chain := Some(ChainValidation(n, envelopes[0].content.logicalTime, envelopes[n - 1].content.logicalTime)),
       uniformContext := Some(Uniform(envelopes, ContextOf)),
       policy := Some(PolicyConsistency(Uniform(envelopes, PolicyOf), !Uniform(envelopes, PolicyOf))),
       uniformSchema := Some(Uniform(envelopes, SchemaOf)))
  }

  ghost function VerifyReceiptChainWith(p: Platform, raw: string, limits: VerifierLimits): Report {
    match IngestChain(p, raw, limits)
    case Ok(envelopes) => ChainReport(p, envelopes)
    case Err(error) => InvalidReport(Plain(error))
  }

  // ---------- Signed receipts; signatures and trust are opaque ----------

  datatype SignatureBundle = SignatureBundle(keyId: Text, publicKey: Text, signature: Text, timestamp: Text)

  datatype Signatures = Signatures(
    parse: string -> Option<SignatureBundle>,
    verify: (Envelope, SignatureBundle) -> Check<VerifyError>,
    keyIdConsistent: SignatureBundle -> bool,
    trust: SignatureBundle -> TrustStatus)

  // The report after the signature bundle has been checked.
  function WithSignature(s: Signatures, e: Envelope, sigBytes: string, r: Report): Report {
    match s.parse(sigBytes)
    case None =>
      Settled(r, r.errors + [MalformedSignatureBundle]).(
        signature := Some(SignatureValidation(true, false, false)))
    case Some(bundle) =>
      var consistent := s.keyIdConsistent(bundle);
      match s.verify(e, bundle)
      case Pass => r.(signature := Some(SignatureValidation(true, true, consistent)))
      case Fail(error) =>
        Settled(r, r.errors + [Plain(error)]).(signature := Some(SignatureValidation(true, false, consistent)))
  }

  predicate SignatureHolds(s: Signatures, e: Envelope, sigBytes: string) {
    s.parse(sigBytes).Some? && s.verify(e, s.parse(sigBytes).value).Pass?
  }

  // Trust is evaluated only when the bundle parsed and its signature verified.
  function WithTrust(s: Signatures, e: Envelope, sigBytes: string, r: Report): Report {
    if !SignatureHolds(s, e, sigBytes) then r
    else
      var trust := s.trust(s.parse(sigBytes).value);
      (if trust != Trusted then Settled(r, r.errors + [NotTrusted(trust)]) else r).(trust := Some(trust))
  }

  function VerifySigned(p: Platform, s: Signatures, raw: string, sigBytes: string, trusted: bool): Report {
    match IngestEnvelope(p, raw, DEFAULT_LIMITS)
    case Err(error) => InvalidReport(Plain(error))
    case Ok(e) =>
      var signed := WithSignature(s, e, sigBytes, SingleReport(p, e));
      if trusted then WithTrust(s, e, sigBytes, signed) else signed
  }

  // ---------- The entry points ----------

  method VerifySingleEnvelope(p: Platform, e: Envelope) returns (result: VerificationResult)
    ensures fresh(result) && result.Value() == SingleReport(p, e)
  {
    result := new VerificationResult.ValidSingle();
    var version := VerifyEnvelopeVersion(e);
    if version.Fail? {
      result.AddError(Plain(version.error));
    }
    var algorithms := VerifyAlgorithms(p, e);
    if algorithms.Fail? {
      result.AddError(Plain(algorithms.error));
    }
    var hash := VerifyEventHash(p, e);
    if hash.Fail? {
      result.digests := result.digests.(allHashesMatch := false);
      result.AddError(Plain(hash.error));
    }
  }

  method VerifyReceiptWithLimits(p: Platform, raw: string, limits: VerifierLimits) returns (result: VerificationResult)
    ensures fresh(result) && result.Value() == VerifyReceiptWith(p, raw, limits)
  {
    var ingested := IngestEnvelopeWithLimits(p, raw, limits);
    if ingested.Ok? {
      result := VerifySingleEnvelope(p, ingested.value);
    } else {
      result := new VerificationResult.Rejected(Plain(ingested.error));
    }
  }

  method CheckPerEnvelope(p: Platform, envelopes: seq<Envelope>, result: VerificationResult) returns (allMatch: bool)
    requires result.Value() == ValidReport()
    modifies result`status, result`errors
    ensures result.Value() == Settled(ValidReport(), PerEnvelopeErrors(p, envelopes, |envelopes|))
    ensures allMatch <==> HashesMatch(p, envelopes)
  {
    allMatch := true;
    for i := 0 to |envelopes|
      invariant result.Value() == Settled(ValidReport(), PerEnvelopeErrors(p, envelopes, i))
      invariant allMatch <==> HashesMatchSoFar(p, envelopes, i)
    {
      var matches := CheckEnvelope(p, i, envelopes[i], result);
      allMatch := allMatch && matches;
    }
    HashesMatchSoFarIsGlobal(p, envelopes, |envelopes|);
    assert envelopes[..|envelopes|] == envelopes;
  }

  predicate HashesMatchSoFar(p: Platform, envelopes: seq<Envelope>, n: nat)
    requires n <= |envelopes|
  {
    n == 0 || (HashesMatchSoFar(p, envelopes, n - 1) && VerifyEventHash(p, envelopes[n - 1]).Pass?)
  }

  lemma {:induction false} HashesMatchSoFarIsGlobal(p: Platform, envelopes: seq<Envelope>, n: nat)
    requires n <= |envelopes|
    ensures HashesMatchSoFar(p, envelopes, n) <==> HashesMatch(p, envelopes[..n])
  {
    if n > 0 {
      HashesMatchSoFarIsGlobal(p, envelopes, n - 1);
      assert envelopes[..n] == envelopes[..n - 1] + [envelopes[n - 1]];
    }
  }

  method CheckEnvelope(p: Platform, i: nat, e: Envelope, result: VerificationResult) returns (matches: bool)
    requires Consistent(result.Value())
    modifies result`status, result`errors
    ensures result.Value() == Settled(old(result.Value()), EnvelopeNoted(p, Some(i), e, old(result.errors)))
    ensures matches <==> VerifyEventHash(p, e).Pass?
  {
    var version := VerifyEnvelopeVersion(e);
    if version.Fail? {
      result.AddError(AtEnvelope(i, version.error));
    }
    var algorithms := VerifyAlgorithms(p, e);
    if algorithms.Fail? {
      result.AddError(AtEnvelope(i, algorithms.error));
    }
    var hash := VerifyEventHash(p, e);
    if hash.Fail? {
      result.AddError(AtEnvelope(i, hash.error));
    }
    matches := hash.Pass?;
  }

  method VerifyChainEnvelopes(p: Platform, envelopes: seq<Envelope>) returns (result: VerificationResult)
    ensures fresh(result) && result.Value() == ChainReport(p, envelopes)
  {
    result := new VerificationResult.ValidSingle();
    if envelopes == [] {
      result.chain := Some(ChainValidation(0, 0, 0));
      return;
    }
    var allMatch := CheckPerEnvelope(p, envelopes, result);
    var detail := CheckChainDetail(envelopes);
    AddErrors(result, detail.errors);
    Summarize(p, envelopes, allMatch, detail, result);
  }

  method Summarize(ghost p: Platform, envelopes: seq<Envelope>, allMatch: bool, detail: ChainDetail,
                   result: VerificationResult)
    requires envelopes != []
    requires allMatch <==> HashesMatch(p, envelopes)
    requires detail.linkageOk <==> Linked(envelopes)
    requires detail.orderingOk <==> Increasing(envelopes)
    requires detail.contextUniform <==> Uniform(envelopes, ContextOf)
    requires detail.policyStable <==> Uniform(envelopes, PolicyOf)
    requires detail.schemaUniform <==> Uniform(envelopes, SchemaOf)
    modifies result
    ensures result.Value() == Summarized(p, envelopes, old(result.Value()))
  {
    var first, last := envelopes[0], envelopes[|envelopes| - 1];
    result.digests := DigestValidation(allMatch, detail.linkageOk, detail.orderingOk);
    result.chain := Some(ChainValidation(|envelopes|, first.content.logicalTime, last.content.logicalTime));
    result.uniformContext := Some(detail.contextUniform);
    result.policy := Some(PolicyConsistency(detail.policyStable, !detail.policyStable));
    result.uniformSchema := Some(detail.schemaUniform);
  }

  method AddErrors(result: VerificationResult, errors: seq<VerifyError>)
    requires Consistent(result.Value())
    modifies result`status, result`errors
    ensures result.Value() == Settled(old(result.Value()), Appended(old(result.errors), errors, |errors|))
  {
    for i := 0 to |errors|
      invariant result.Value() == Settled(old(result.Value()), Appended(old(result.errors), errors, i))
    {
      result.AddError(Plain(errors[i]));
    }
  }

  method VerifyReceiptChainWithLimits(p: Platform, raw: string, limits: VerifierLimits)
    returns (result: VerificationResult)
    ensures fresh(result) && result.Value() == VerifyReceiptChainWith(p, raw, limits)
  {
    var ingested := IngestChainWithLimits(p, raw, limits);
    if ingested.Ok? {
      result := VerifyChainEnvelopes(p, ingested.value);
    } else {
      result := new VerificationResult.Rejected(Plain(ingested.error));
    }
  }

  method VerifySignatureBundle(s: Signatures, e: Envelope, sigBytes: string, result: VerificationResult)
    returns (bundle: Option<SignatureBundle>)
    modifies result
    ensures result.Value() == WithSignature(s, e, sigBytes, old(result.Value()))
    ensures bundle == if SignatureHolds(s, e, sigBytes) then s.parse(sigBytes) else None
  {
    bundle := s.parse(sigBytes);
    if bundle.None? {
      result.AddError(MalformedSignatureBundle);
      result.signature := Some(SignatureValidation(true, false, false));
      return;
    }
    var consistent := s.keyIdConsistent(bundle.value);
    var verified := s.verify(e, bundle.value);
    if verified.Fail? {
      result.AddError(Plain(verified.error));
      result.signature := Some(SignatureValidation(true, false, consistent));
      return None;
    }
    result.signature := Some(SignatureValidation(true, true, consistent));
  }

  method VerifySignedReceipt(p: Platform, s: Signatures, raw: string, sigBytes: string)
    returns (result: VerificationResult)
    ensures fresh(result) && result.Value() == VerifySigned(p, s, raw, sigBytes, false)
  {
    var ingested := IngestEnvelopeWithLimits(p, raw, DEFAULT_LIMITS);
    if ingested.Err? {
      result := new VerificationResult.Rejected(Plain(ingested.error));
      return;
    }
    result := VerifySingleEnvelope(p, ingested.value);
    var _ := VerifySignatureBundle(s, ingested.value, sigBytes, result);
  }

  method VerifySignedReceiptWithTrust(p: Platform, s: Signatures, raw: string, sigBytes: string)
    returns (result: VerificationResult)
    ensures fresh(result) && result.Value() == VerifySigned(p, s, raw, sigBytes, true)
  {
    var ingested := IngestEnvelopeWithLimits(p, raw, DEFAULT_LIMITS);
    if ingested.Err? {
      result := new VerificationResult.Rejected(Plain(ingested.error));
      return;
    }
    result := VerifySingleEnvelope(p, ingested.value);
    var bundle := VerifySignatureBundle(s, ingested.value, sigBytes, result);
    if bundle.Some? {
      var trust := s.trust(bundle.value);
      if trust != Trusted {
        result.AddError(NotTrusted(trust));
      }
      result.trust := Some(trust);
    }
  }

  // ---------- Every rejection is explained, every acceptance is clean ----------

  lemma ReceiptsAreExplained(p: Platform, raw: string, limits: VerifierLimits)
    ensures Consistent(VerifyReceiptWith(p, raw, limits))
    ensures Consistent(VerifyReceiptChainWith(p, raw, limits))
  {
  }

  lemma SignedAreExplained(p: Platform, s: Signatures, raw: string, sigBytes: string, trusted: bool)
    ensures Consistent(VerifySigned(p, s, raw, sigBytes, trusted))
  {
  }

  // Supported version, declared algorithms (if any) those of the version, and
  // the event hash the commitment to everything else.
  predicate EnvelopeOk(p: Platform, e: Envelope) {
    var c := e.content;
    && c.envelopeVersion == 1
    && (c.digestAlgorithm.Some? ==> c.digestAlgorithm.value == p.digestAlgorithm(1))
    && (c.canonicalization.Some? ==> c.canonicalization.value == p.canonicalization(1))
    && p.commit(c) == Some(e.eventHash)
  }

  lemma ReceiptVerdict(p: Platform, raw: string, limits: VerifierLimits)
    ensures VerifyReceiptWith(p, raw, limits).status.Valid? <==>
              && IngestEnvelope(p, raw, limits).Ok?
              && EnvelopeOk(p, IngestEnvelope(p, raw, limits).value)
  {
  }

  // A signature, and trust in its key, can only be required on top of the receipt.
  lemma SignedVerdict(p: Platform, s: Signatures, raw: string, sigBytes: string, trusted: bool)
    ensures VerifySigned(p, s, raw, sigBytes, trusted).status.Valid? <==>
              && VerifyReceipt(p, raw).status.Valid?
              && SignatureHolds(s, IngestEnvelope(p, raw, DEFAULT_LIMITS).value, sigBytes)
              && (trusted ==> s.trust(s.parse(sigBytes).value) == Trusted)
  {
  }

  lemma EnvelopeErrorsAreExact(p: Platform, at: Option<nat>, e: Envelope, errors: seq<ReportError>)
    ensures errors <= EnvelopeNoted(p, at, e, errors)
    ensures EnvelopeNoted(p, at, e, errors) == errors <==> EnvelopeOk(p, e)
  {
  }

  predicate AllOk(p: Platform, envelopes: seq<Envelope>, n: nat)
    requires n <= |envelopes|
  {
    n == 0 || (AllOk(p, envelopes, n - 1) && EnvelopeOk(p, envelopes[n - 1]))
  }

  lemma {:induction false} AllOkMeansEach(p: Platform, envelopes: seq<Envelope>, n: nat)
    requires n <= |envelopes|
    ensures AllOk(p, envelopes, n) <==> forall i :: 0 <= i < n ==> EnvelopeOk(p, envelopes[i])
  {
    if n > 0 {
      AllOkMeansEach(p, envelopes, n - 1);
    }
  }

  lemma {:induction false} PerEnvelopeErrorsAreExact(p: Platform, envelopes: seq<Envelope>, n: nat)
    requires n <= |envelopes|
    ensures PerEnvelopeErrors(p, envelopes, n) == [] <==> AllOk(p, envelopes, n)
  {
    if n > 0 {
      var before := PerEnvelopeErrors(p, envelopes, n - 1);
      PerEnvelopeErrorsAreExact(p, envelopes, n - 1);
      EnvelopeErrorsAreExact(p, Some(n - 1), envelopes[n - 1], before);
    }
  }

  lemma NothingAppended(errors: seq<ReportError>, more: seq<VerifyError>, n: nat)
    requires n <= |more|
    ensures Appended(errors, more, n) == [] <==> errors == [] && n == 0
  {
  }

  lemma ChainVerdict(p: Platform, envelopes: seq<Envelope>)
    ensures ChainReport(p, envelopes).status.Valid? <==>
              && Accepted(envelopes)
              && forall i :: 0 <= i < |envelopes| ==> EnvelopeOk(p, envelopes[i])
  {
    PerEnvelopeErrorsAreExact(p, envelopes, |envelopes|);
    AllOkMeansEach(p, envelopes, |envelopes|);
    ErrorsAreExact(envelopes);
    if envelopes != [] {
      var own, chain := PerEnvelopeErrors(p, envelopes, |envelopes|), ChainErrors(envelopes);
      NothingAppended(own, chain, |chain|);
    }
  }

  // ---------- A chain is verified at least as strictly as its receipts ----------

  // Exactly when the canonical text of an array is a valid chain: it fits the
  // limits as a whole, every element is a valid receipt by itself, and the
  // chain invariants hold between them.
  lemma ChainVersusReceipts(p: Platform, vs: seq<Value>, limits: VerifierLimits)
    requires RoundTrips(p) && WellFormed(p, Array(vs))
    ensures VerifyReceiptChainWith(p, CanonText(p, Array(vs)), limits).status.Valid? <==>
              && |CanonText(p, Array(vs))| <= limits.maxBytes
              && Structure(Array(vs), limits).Pass?
              && |vs| <= limits.maxChainLength
              && (forall i :: 0 <= i < |vs| ==> VerifyReceiptWith(p, CanonText(p, vs[i]), limits).status.Valid?)
              && ReadElements(p, vs).Ok? && Accepted(ReadElements(p, vs).value)
  {
    var raw := CanonText(p, Array(vs));
    if |raw| <= limits.maxBytes && Structure(Array(vs), limits).Pass? {
      CanonicalIsRead(p, Array(vs), limits);
      forall i | 0 <= i < |vs|
        ensures IngestEnvelope(p, CanonText(p, vs[i]), limits) == ReadEnvelope(p, vs[i])
      {
        ElementIsRead(p, vs, i, limits);
      }
      if ReadElements(p, vs).Ok? {
        var envelopes := ReadElements(p, vs).value;
        ChainVerdict(p, envelopes);
        forall i | 0 <= i < |vs|
          ensures |envelopes| == |vs|
          ensures VerifyReceiptWith(p, CanonText(p, vs[i]), limits).status.Valid? <==> EnvelopeOk(p, envelopes[i])
        {
          ElementsReadSingly(p, vs, i);
          ReceiptVerdict(p, CanonText(p, vs[i]), limits);
        }
        assert vs == [] ==> envelopes == [];
      }
    }
  }

  lemma ElementIsRead(p: Platform, vs: seq<Value>, i: nat, limits: VerifierLimits)
    requires RoundTrips(p) && WellFormed(p, Array(vs)) && i < |vs|
    requires |CanonText(p, Array(vs))| <= limits.maxBytes && Structure(Array(vs), limits).Pass?
    ensures IngestEnvelope(p, CanonText(p, vs[i]), limits) == ReadEnvelope(p, vs[i])
  {
    WellFormedElement(p, vs, i);
    ElementTextFits(p, vs, i);
    AcceptedInsideArray(vs, i, limits);
    CanonicalIsRead(p, vs[i], limits);
  }

  // Whatever text is accepted as a chain, each of its elements is accepted as
  // a receipt.
  lemma ChainIsAtLeastAsStrict(p: Platform, raw: string, limits: VerifierLimits)
    requires RoundTrips(p) && VerifyReceiptChainWith(p, raw, limits).status.Valid?
    ensures exists vs :: p.parse(raw) == Some(Array(vs)) && raw == CanonText(p, Array(vs))
              && forall i :: 0 <= i < |vs| ==> VerifyReceiptWith(p, CanonText(p, vs[i]), limits).status.Valid?
  {
    DocumentIsCanonical(p, raw, limits);
    var vs := ReadDocument(p, raw, limits).value.elements;
    ChainVersusReceipts(p, vs, limits);
    assert p.parse(raw) == Some(Array(vs));
  }

  lemma ValidChainMatches(p: Platform, envelopes: seq<Envelope>)
    requires ChainReport(p, envelopes).status.Valid?
    ensures HashesMatch(p, envelopes) && Linked(envelopes)
  {
    ChainVerdict(p, envelopes);
    forall e | e in envelopes ensures VerifyEventHash(p, e).Pass? {
      var i :| 0 <= i < |envelopes| && envelopes[i] == e;
      assert EnvelopeOk(p, envelopes[i]);
    }
  }

  // Two valid chains with the same head are the same sequence of envelopes.
  lemma HeadCommitsChain(p: Platform, raw: string, raw': string, limits: VerifierLimits)
    requires Injective(p)
    requires VerifyReceiptChainWith(p, raw, limits).status.Valid?
    requires VerifyReceiptChainWith(p, raw', limits).status.Valid?
    requires var a, b := IngestChain(p, raw, limits).value, IngestChain(p, raw', limits).value;
             a != [] && b != [] && a[|a| - 1].eventHash == b[|b| - 1].eventHash
    ensures IngestChain(p, raw, limits) == IngestChain(p, raw', limits)
  {
    var a, b := IngestChain(p, raw, limits).value, IngestChain(p, raw', limits).value;
    ValidChainMatches(p, a);
    ValidChainMatches(p, b);
    HeadCommitment(p, a, b);
  }
}
