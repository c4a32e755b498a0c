// Fail-closed ingestion of raw JSON text (src/ingestion.rs, src/canon.rs).
module Ingestion {
  import opened Wrappers
  import opened Json
  import opened Limits
  import opened Receipts

  const STRUCTURAL_INTEGER_FIELDS := ["envelope_version", "logical_time"]

  // Canonical admission: the text must be byte for byte its canonical form.
  function AdmitCanonicalBytes(p: Platform, raw: string): Check<VerifyError> {
    match p.strict(raw)
    case SyntaxError => Fail(MalformedJson)
    case Inadmissible => Fail(NonCanonical)
    case Admitted(v) => if CanonText(p, v) == raw then Pass else Fail(NonCanonical)
  }

  function RejectStructuralFloats(v: Value, fields: seq<string>): Check<VerifyError> {
    if fields == [] then Pass
    else
      var field := Get(v, fields[0]);
      if field.Some? && field.value.Num? && field.value.number.Float?
      then Fail(FloatInStructuralField(fields[0]))
      else RejectStructuralFloats(v, fields[1..])
  }

  // Schema profile, structural floats, typed deserialization.
  function ReadEnvelope(p: Platform, v: Value): Result<Envelope, VerifyError> {
    if !p.schemaOk(v) then Err(SchemaViolation)
    else
      match RejectStructuralFloats(v, STRUCTURAL_INTEGER_FIELDS)
      case Fail(e) => Err(e)
      case Pass =>
        match p.typed(v)
        case None => Err(MalformedJson)
        case Some(e) => Ok(e)
  }

  // Everything before the schema checks: limits, admission, parse.
  function ReadDocument(p: Platform, raw: string, limits: VerifierLimits): Result<Value, VerifyError> {
    match CheckByteLimit(raw, limits)
    case Fail(violation) => Err(LimitExceeded(violation))
    case Pass =>
      match AdmitCanonicalBytes(p, raw)
      case Fail(e) => Err(e)
      case Pass =>
        match p.parse(raw)
        case None => Err(MalformedJson)
        case Some(v) =>
          match Structure(v, limits)
          case Fail(violation) => Err(LimitExceeded(violation))
          case Pass => Ok(v)
  }

  function IngestEnvelope(p: Platform, raw: string, limits: VerifierLimits): Result<Envelope, VerifyError> {
    match ReadDocument(p, raw, limits)
    case Err(e) => Err(e)
    case Ok(v) => ReadEnvelope(p, v)
  }

  function ReadElements(p: Platform, vs: seq<Value>): Result<seq<Envelope>, VerifyError> {
    if vs == [] then Ok([])
    else
      match ReadEnvelope(p, vs[0])
      case Err(e) => Err(e)
      case Ok(first) =>
        match ReadElements(p, vs[1..])
        case Err(e) => Err(e)
        case Ok(rest) => Ok([first] + rest)
  }

  function IngestChain(p: Platform, raw: string, limits: VerifierLimits): Result<seq<Envelope>, VerifyError> {
    match ReadDocument(p, raw, limits)
    case Err(e) => Err(e)
    case Ok(v) =>
      if !v.Array? then Err(MalformedJson)
      else if v.elements == [] then Ok([])
      else
        match CheckChainLength(|v.elements|, limits)
        case Fail(violation) => Err(LimitExceeded(violation))
        case Pass => ReadElements(p, v.elements)
  }

  // ---------- The pipelines ----------

  method ReadDocumentWithLimits(p: Platform, raw: string, limits: VerifierLimits)
    returns (document: Result<Value, VerifyError>)
    ensures document == ReadDocument(p, raw, limits)
  {
    var size := CheckByteLimit(raw, limits);
    if size.Fail? {
      return Err(LimitExceeded(size.error));
    }
    var admitted := AdmitCanonicalBytes(p, raw);
    if admitted.Fail? {
      return Err(admitted.error);
    }
    var parsed := p.parse(raw);
    if parsed.None? {
      return Err(MalformedJson);
    }
    var structure := CheckStructure(parsed.value, limits);
    document := if structure.Fail? then Err(LimitExceeded(structure.error)) else Ok(parsed.value);
  }

  method IngestEnvelopeWithLimits(p: Platform, raw: string, limits: VerifierLimits)
    returns (envelope: Result<Envelope, VerifyError>)
    ensures envelope == IngestEnvelope(p, raw, limits)
  {
    var document := ReadDocumentWithLimits(p, raw, limits);
    envelope := match document case Err(e) => Err(e) case Ok(v) => ReadEnvelope(p, v);
  }

  method IngestChainWithLimits(p: Platform, raw: string, limits: VerifierLimits)
    returns (chain: Result<seq<Envelope>, VerifyError>)
    ensures chain == IngestChain(p, raw, limits)
  {
    var document := ReadDocumentWithLimits(p, raw, limits);
    if document.Err? {
      return Err(document.error);
    }
    if !document.value.Array? {
      return Err(MalformedJson);
    }
    var elements := document.value.elements;
    if elements == [] {
      return Ok([]);
    }
    var length := CheckChainLength(|elements|, limits);
    if length.Fail? {
      return Err(LimitExceeded(length.error));
    }
    var envelopes: seq<Envelope> := [];
    AfterNothing(ReadElements(p, elements));
    assert elements[0..] == elements;
    for i := 0 to |elements|
      invariant ReadElements(p, elements) == After(envelopes, ReadElements(p, elements[i..]))
    {
      AfterStep(p, elements, i, envelopes);
      var envelope := ReadEnvelope(p, elements[i]);
      if envelope.Err? {
        return Err(envelope.error);
      }
      envelopes := envelopes + [envelope.value];
    }
    assert ReadElements(p, elements[|elements|..]) == Ok([]);
    assert envelopes + [] == envelopes;
    chain := Ok(envelopes);
  }

  function After(read: seq<Envelope>, rest: Result<seq<Envelope>, VerifyError>): Result<seq<Envelope>, VerifyError> {
    match rest
    case Err(e) => Err(e)
    case Ok(more) => Ok(read + more)
  }

  lemma AfterNothing(rest: Result<seq<Envelope>, VerifyError>)
    ensures After([], rest) == rest
  {
    if rest.Ok? {
      assert [] + rest.value == rest.value;
    }
  }

  lemma AfterStep(p: Platform, vs: seq<Value>, i: nat, read: seq<Envelope>)
    requires i < |vs|
    ensures After(read, ReadElements(p, vs[i..]))
         == match ReadEnvelope(p, vs[i])
            case Err(e) => Err(e)
            case Ok(e) => After(read + [e], ReadElements(p, vs[i + 1..]))
  {
    var rest := vs[i..];
    assert rest[0] == vs[i] && rest[1..] == vs[i + 1..];
    if ReadEnvelope(p, vs[i]).Ok? && ReadElements(p, rest[1..]).Ok? {
      var e, more := ReadEnvelope(p, vs[i]).value, ReadElements(p, rest[1..]).value;
      assert read + ([e] + more) == read + [e] + more;
    }
  }

  // ---------- What a successful ingestion means ----------

  // Accepted text is the canonical text of the parsed value.
  lemma DocumentIsCanonical(p: Platform, raw: string, limits: VerifierLimits)
    requires RoundTrips(p) && ReadDocument(p, raw, limits).Ok?
    ensures var v := ReadDocument(p, raw, limits).value;
            p.parse(raw) == Some(v) && WellFormed(p, v) && raw == CanonText(p, v)
  {
  }

  // Canonical text within the limits is read back.
  lemma CanonicalIsRead(p: Platform, v: Value, limits: VerifierLimits)
    requires RoundTrips(p) && WellFormed(p, v)
    requires |CanonText(p, v)| <= limits.maxBytes && Structure(v, limits).Pass?
    ensures ReadDocument(p, CanonText(p, v), limits) == Ok(v)
  {
  }

  // None of the fields holds a floating-point number.
  predicate IntegersOnly(v: Value, fields: seq<string>) {
    forall field :: field in fields ==>
      var read := Get(v, field);
      read.Some? && read.value.Num? ==> !read.value.number.Float?
  }

  lemma {:induction false} FloatsAreRejected(v: Value, fields: seq<string>)
    ensures RejectStructuralFloats(v, fields).Pass? <==> IntegersOnly(v, fields)
  {
    if fields != [] {
      FloatsAreRejected(v, fields[1..]);
      assert forall field :: field in fields <==> field == fields[0] || field in fields[1..];
    }
  }

  // Exactly which texts are ingested as one envelope.
  lemma IngestionIsExact(p: Platform, v: Value, limits: VerifierLimits)
    requires RoundTrips(p) && WellFormed(p, v)
    ensures IngestEnvelope(p, CanonText(p, v), limits).Ok? <==>
              && |CanonText(p, v)| <= limits.maxBytes
              && Height(v) <= limits.maxDepth && NodeCount(v) <= limits.maxNodeCount && WidthsOk(v, limits)
              && p.schemaOk(v) && IntegersOnly(v, STRUCTURAL_INTEGER_FIELDS) && p.typed(v).Some?
    ensures IngestEnvelope(p, CanonText(p, v), limits).Ok? ==>
              p.typed(v) == Some(IngestEnvelope(p, CanonText(p, v), limits).value)
  {
    CheckStructureIsExact(v, limits);
    FloatsAreRejected(v, STRUCTURAL_INTEGER_FIELDS);
  }

  // The same under the default limits.
  lemma DefaultIngestion(p: Platform, v: Value)
    requires RoundTrips(p) && WellFormed(p, v)
    ensures IngestEnvelope(p, CanonText(p, v), DEFAULT_LIMITS).Ok? <==>
              && |CanonText(p, v)| <= 1_048_576 && Height(v) <= 64 && NodeCount(v) <= 50_000
              && WidthsOk(v, VerifierLimits(1_048_576, 64, 50_000, 256, 10_000, 10_000))
              && p.schemaOk(v) && IntegersOnly(v, ["envelope_version", "logical_time"]) && p.typed(v).Some?
  {
    IngestionIsExact(p, v, DEFAULT_LIMITS);
  }

  // Text that is not its own canonical form is never ingested.
  lemma OnlyCanonicalTextIsIngested(p: Platform, raw: string, limits: VerifierLimits)
    requires RoundTrips(p) && (IngestEnvelope(p, raw, limits).Ok? || IngestChain(p, raw, limits).Ok?)
    ensures p.parse(raw).Some? && WellFormed(p, p.parse(raw).value) && raw == CanonText(p, p.parse(raw).value)
  {
  }

  lemma {:induction false} ElementsReadSingly(p: Platform, vs: seq<Value>, i: nat)
    requires i < |vs| && ReadElements(p, vs).Ok?
    ensures |ReadElements(p, vs).value| == |vs|
    ensures ReadEnvelope(p, vs[i]) == Ok(ReadElements(p, vs).value[i])
  {
    if |vs| > 1 {
      ElementsReadSingly(p, vs[1..], if i > 0 then i - 1 else 0);
    }
  }

  // ---------- Why a text is rejected ----------

  // Strictly parsed text that is its own canonical text.
  predicate Canonical(p: Platform, raw: string) {
    p.strict(raw).Admitted? && CanonText(p, p.strict(raw).value) == raw
  }

  // Text the strict parser cannot read is malformed; text it can read but that is
  // inadmissible, or not its own canonical text, is not canonical.
  predicate NotAdmitted(p: Platform, raw: string, e: VerifyError) {
    match p.strict(raw)
    case SyntaxError => e == MalformedJson
    case Inadmissible => e == NonCanonical
    case Admitted(v) => e == NonCanonical && CanonText(p, v) != raw
  }

  // The first stage a text fails at, before any schema check, and its error.
  predicate DocumentFails(p: Platform, raw: string, limits: VerifierLimits, e: VerifyError) {
    if |raw| > limits.maxBytes then e == LimitExceeded(InputTooLarge(|raw|, limits.maxBytes))
    else if !Canonical(p, raw) then NotAdmitted(p, raw, e)
    else if p.parse(raw).None? then e == MalformedJson
    else Structure(p.parse(raw).value, limits).Fail? && e == LimitExceeded(Structure(p.parse(raw).value, limits).error)
  }

  // Every text is either read or rejected with the error of the first stage it
  // fails at.
  lemma DocumentErrorIsExact(p: Platform, raw: string, limits: VerifierLimits, e: VerifyError)
    ensures ReadDocument(p, raw, limits) == Err(e) <==> DocumentFails(p, raw, limits, e)
    ensures ReadDocument(p, raw, limits).Ok? ==>
              Canonical(p, raw) && p.parse(raw) == Some(ReadDocument(p, raw, limits).value)
  {
  }

  predicate IsFloat(v: Value, field: string) {
    var read := Get(v, field);
    read.Some? && read.value.Num? && read.value.number.Float?
  }

  // Which error an element is rejected with, and what is read otherwise.
  lemma EnvelopeErrorIsExact(p: Platform, v: Value, e: VerifyError)
    ensures ReadEnvelope(p, v) == Err(e) <==>
              if !p.schemaOk(v) then e == SchemaViolation
              else if IsFloat(v, "envelope_version") then e == FloatInStructuralField("envelope_version")
              else if IsFloat(v, "logical_time") then e == FloatInStructuralField("logical_time")
              else p.typed(v).None? && e == MalformedJson
    ensures ReadEnvelope(p, v).Ok? ==> p.typed(v) == Some(ReadEnvelope(p, v).value)
  {
    var fields := STRUCTURAL_INTEGER_FIELDS;
    assert fields[1..] == ["logical_time"] && fields[1..][1..] == [];
    assert RejectStructuralFloats(v, fields[1..])
        == if IsFloat(v, "logical_time") then Fail(FloatInStructuralField("logical_time")) else Pass;
  }

  // Element i is the first that is rejected, with this error.
  predicate FailsAt(p: Platform, vs: seq<Value>, i: nat, e: VerifyError) {
    i < |vs| && ReadEnvelope(p, vs[i]) == Err(e) && forall j :: 0 <= j < i ==> ReadEnvelope(p, vs[j]).Ok?
  }

  // A list of elements is rejected with the error of the first that is.
  lemma {:induction false} FirstElementError(p: Platform, vs: seq<Value>, e: VerifyError)
    ensures ReadElements(p, vs) == Err(e) <==> exists i :: FailsAt(p, vs, i, e)
  {
    if vs != [] {
      var rest := vs[1..];
      FirstElementError(p, rest, e);
      if i: nat :| FailsAt(p, rest, i, e) {
        assert ReadEnvelope(p, vs[0]).Ok? ==> FailsAt(p, vs, i + 1, e) by {
          assert forall j :: 0 < j <= i ==> vs[j] == rest[j - 1];
        }
      }
      if i: nat :| FailsAt(p, vs, i, e) {
        assert i > 0 ==> FailsAt(p, rest, i - 1, e) by {
          assert forall j :: 0 <= j < i ==> vs[j + 1] == rest[j];
        }
      }
      assert ReadEnvelope(p, vs[0]) == Err(e) ==> FailsAt(p, vs, 0, e);
    }
  }

  // Which error a chain text is rejected with.
  lemma ChainErrorIsExact(p: Platform, raw: string, limits: VerifierLimits, e: VerifyError)
    ensures IngestChain(p, raw, limits) == Err(e) <==>
              || DocumentFails(p, raw, limits, e)
              || (ReadDocument(p, raw, limits).Ok? && ElementsFail(p, p.parse(raw).value, limits, e))
  {
    DocumentErrorIsExact(p, raw, limits, e);
    if ReadDocument(p, raw, limits).Ok? && p.parse(raw).value.Array? {
      FirstElementError(p, p.parse(raw).value.elements, e);
    }
  }

  ghost predicate ElementsFail(p: Platform, v: Value, limits: VerifierLimits, e: VerifyError) {
    if !v.Array? then e == MalformedJson
    else if |v.elements| > limits.maxChainLength then
      e == LimitExceeded(ChainTooLong(|v.elements|, limits.maxChainLength))
    else exists i :: FailsAt(p, v.elements, i, e)
  }
}
