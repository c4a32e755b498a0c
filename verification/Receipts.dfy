// Receipt envelopes, their per-envelope checks (src/envelope.rs), the error
// kinds of src/error.rs, and the libraries the verifier calls.
module Receipts {
  import opened Wrappers
  import opened Json
  import opened Limits

  datatype Envelope = Envelope(content: Content, eventHash: Text)

  datatype VerifyError =
    | EventHashMismatch(expected: Text, computed: Text)
    | UnsupportedVersion(version: nat)
    | ChainLinkageBroken(index: nat, expectedParent: Option<Text>, parent: Option<Text>)
    | LogicalTimeNotMonotonic(index: nat, previous: nat, current: nat)
    | Canon
    | SchemaViolation
    | DuplicateEventHash(index: nat, digest: Text)
    | ContextInconsistent(index: nat, expected: Text, found: Text)
    | PolicyInconsistent(index: nat, expected: Text, found: Text)
    | SchemaInconsistent(index: nat, expected: Text, found: Text)
    | FloatInStructuralField(field: string)
    | NonCanonical
    | MalformedJson
    | DigestAlgorithmMismatch(declared: Text, expected: Text)
    | CanonicalizationMismatch(declared: Text, expected: Text)
    | SignatureInvalid
    | LimitExceeded(violation: LimitViolation)

  // A member of a receipt's committed support set.
  datatype SupportMember =
    | TypedReceiptDependency(eventHash: Text, role: Option<Text>, targetSchema: Text)
    | DependedOnReceipt(eventHash: Text)
    | EvidenceDigest(id: Text, digest: Text)
    | CitedLink(id: Text, url: Text)
    | SelectorValue(key: Text)

  // What the strict raw-byte JCS library makes of untrusted bytes.
  datatype StrictParse = Admitted(value: Value) | SyntaxError | Inadmissible

  // The libraries whose sources are not part of this repository, as
  // functions. Raw texts are sequences of UTF-8 code units.
  datatype Platform = Platform(
    strict: string -> StrictParse,                       // vr-jcs, raw-byte API
    parse: string -> Option<Value>,                      // serde_json
    leaf: Value -> string,                               // RFC 8785 text of a scalar
    quote: string -> string,                             // RFC 8785 text of a member name
    keyBefore: (string, string) -> bool,                 // RFC 8785 member order
    mapBefore: (string, string) -> bool,                 // iteration order of a parsed object
    leafOk: Value -> bool,                               // scalars I-JSON admits
    schemaOk: Value -> bool,                             // envelope schema profile
    typed: Value -> Option<Envelope>,                    // typed deserialization
    commit: Content -> Option<Text>,                     // BLAKE3(JCS(envelope without event_hash))
    digestAlgorithm: nat -> Text,                        // identity triple of a version
    canonicalization: nat -> Text,
    supportSet: Value -> Option<seq<SupportMember>>,     // typed support set
    manifestDigest: Value -> Option<Text>,               // BLAKE3(JCS(value)) in hex
    ascending: set<Text> -> seq<Text>)                   // iteration order of a string set

  // ---------- Envelope checks ----------

  const SUPPORTED_VERSION: nat := 1

  function VerifyEnvelopeVersion(e: Envelope): Check<VerifyError> {
    if e.content.envelopeVersion == SUPPORTED_VERSION then Pass
    else Fail(UnsupportedVersion(e.content.envelopeVersion))
  }

  function VerifyAlgorithms(p: Platform, e: Envelope): Check<VerifyError> {
    var c := e.content;
    var algorithm := p.digestAlgorithm(c.envelopeVersion);
    var canonicalization := p.canonicalization(c.envelopeVersion);
    if c.digestAlgorithm.Some? && c.digestAlgorithm.value != algorithm then
      Fail(DigestAlgorithmMismatch(c.digestAlgorithm.value, algorithm))
    else if c.canonicalization.Some? && c.canonicalization.value != canonicalization then
      Fail(CanonicalizationMismatch(c.canonicalization.value, canonicalization))
    else Pass
  }

  function VerifyEventHash(p: Platform, e: Envelope): Check<VerifyError> {
    match p.commit(e.content)
    case None => Fail(Canon)
    case Some(h) => if h == e.eventHash then Pass else Fail(EventHashMismatch(e.eventHash, h))
  }

  // ---------- Canonical text ----------

  // RFC 8785 text: no whitespace, array order kept, object members sorted.
  function CanonText(p: Platform, v: Value): string
    decreases NodeCount(v), 0
  {
    NodeCountOfTree(v);
    match v
    case Array(elements) => "[" + Joined(CanonTexts(p, elements)) + "]"
    case Object(members) => "{" + Joined(Sorted(p, Keyed(members, CanonTexts(p, Children(v))))) + "}"
    case _ => p.leaf(v)
  }

  function CanonTexts(p: Platform, vs: seq<Value>): (texts: seq<string>)
    ensures |texts| == |vs|
    decreases NodeCountAll(vs), 1
  {
    if vs == [] then [] else [CanonText(p, vs[0])] + CanonTexts(p, vs[1..])
  }

  function Joined(texts: seq<string>): string {
    if texts == [] then ""
    else if |texts| == 1 then texts[0]
    else texts[0] + "," + Joined(texts[1..])
  }

  function Keyed(members: seq<Member>, texts: seq<string>): seq<(string, string)>
    requires |members| == |texts|
  {
    seq(|members|, i requires 0 <= i < |members| => (members[i].key, texts[i]))
  }

  // The member texts in the order of their names.
  function Sorted(p: Platform, members: seq<(string, string)>): seq<string> {
    Rendered(p, InsertAll(p, members))
  }

  function InsertAll(p: Platform, members: seq<(string, string)>): seq<(string, string)> {
    if members == [] then [] else Insert(p, members[0], InsertAll(p, members[1..]))
  }

  function Insert(p: Platform, m: (string, string), sorted: seq<(string, string)>): seq<(string, string)> {
    if sorted == [] || p.keyBefore(m.0, sorted[0].0) then [m] + sorted
    else [sorted[0]] + Insert(p, m, sorted[1..])
  }

  function Rendered(p: Platform, members: seq<(string, string)>): seq<string> {
    if members == [] then []
    else [p.quote(members[0].0) + ":" + members[0].1] + Rendered(p, members[1..])
  }

  // An element's canonical text is no longer than that of its array.
  lemma {:induction false} ElementTextFits(p: Platform, vs: seq<Value>, i: nat)
    requires i < |vs|
    ensures |CanonText(p, vs[i])| <= |CanonText(p, Array(vs))|
  {
    TextInside(p, vs, i);
  }

  lemma {:induction false} TextInside(p: Platform, vs: seq<Value>, i: nat)
    requires i < |vs|
    ensures |CanonText(p, vs[i])| <= |Joined(CanonTexts(p, vs))|
  {
    if i > 0 {
      TextInside(p, vs[1..], i - 1);
    }
  }

  // ---------- Assumptions about the libraries ----------

  // A value the strict parser can produce: admissible scalars, and object
  // members distinct and in iteration order.
  ghost predicate WellFormed(p: Platform, v: Value)
    decreases NodeCount(v), 0
  {
    NodeCountOfTree(v);
    && (v.Object? ==> forall i, j :: 0 <= i < j < |v.members| ==> p.mapBefore(v.members[i].key, v.members[j].key))
    && (v.Array? || v.Object? || p.leafOk(v))
    && AllWellFormed(p, Children(v))
  }

  ghost predicate AllWellFormed(p: Platform, vs: seq<Value>)
    decreases NodeCountAll(vs), 1
  {
    vs == [] || (WellFormed(p, vs[0]) && AllWellFormed(p, vs[1..]))
  }

  lemma {:induction false} WellFormedElement(p: Platform, vs: seq<Value>, i: nat)
    requires i < |vs| && AllWellFormed(p, vs)
    ensures WellFormed(p, vs[i])
  {
    if i > 0 {
      WellFormedElement(p, vs[1..], i - 1);
    }
  }

  // Parsing canonical text gives back the value, with either parser.
  ghost predicate RoundTrips(p: Platform) {
    && (forall raw: string :: p.strict(raw).Admitted? ==> WellFormed(p, p.strict(raw).value))
    && (forall v: Value :: WellFormed(p, v) ==>
          && p.strict(CanonText(p, v)) == Admitted(v)
          && p.parse(CanonText(p, v)) == Some(v))
  }

  // Deserialization copies the two fields that the pack verifiers also read
  // from the untyped value.
  ghost predicate ReadsFields(p: Platform) {
    forall v: Value :: p.typed(v).Some? ==>
      && GetText(v, "event_hash") == Some(p.typed(v).value.eventHash)
      && Get(v, "payload") == Some(p.typed(v).value.content.payload)
  }

  // The event hash is collision-free.
  ghost predicate Injective(p: Platform) {
    forall c: Content, d: Content :: p.commit(c).Some? && p.commit(c) == p.commit(d) ==> c == d
  }

  // The event hash of a content is a fresh symbol built from that content.
  ghost predicate FreeTerm(p: Platform) {
    forall c: Content :: p.commit(c).Some? ==> p.commit(c) == Some(HashOf(c))
  }

  // A string set is iterated by listing each element once.
  ghost predicate ListsSets(p: Platform) {
    forall s: set<Text>, t: Text :: multiset(p.ascending(s))[t] == Once(t in s)
  }

  lemma FreeTermIsInjective(p: Platform)
    requires FreeTerm(p)
    ensures Injective(p)
  {
    forall c: Content, d: Content | p.commit(c).Some? && p.commit(c) == p.commit(d) ensures c == d {
      assert HashOf(c).content == HashOf(d).content;
    }
  }
}
