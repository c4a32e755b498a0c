// JSON values and the receipt contents that are hashed.
//
// Text is symbolic: a string is either ordinary characters or the hex digest
// of some receipt content. Embedding a digest in a payload is then an ordinary
// (well-founded) sub-term, whatever hash function is used.
module Json {
  import opened Wrappers

  datatype Text = Chars(chars: string) | HashOf(content: Content)

  // serde_json numbers: unsigned, negative or floating point.
  datatype Number = PosInt(n: nat) | NegInt(i: int) | Float(r: real)

  datatype Value =
    | Null
    | Bool(b: bool)
    | Num(number: Number)
    | Str(text: Text)
    | Array(elements: seq<Value>)
    | Object(members: seq<Member>)

  // Object members are listed in the map's iteration order.
  datatype Member = Member(key: string, value: Value)

  // Every field of a receipt envelope except `event_hash`: what the event
  // hash commits to.
  datatype Content = Content(
    envelopeVersion: nat,
    receiptType: Text,
    contextDigest: Text,
    schemaDigest: Text,
    policyDigest: Text,
    logicalTime: nat,
    parentId: Option<Text>,
    boundaryOrigin: Option<Text>,
    digestAlgorithm: Option<Text>,
    canonicalization: Option<Text>,
    eventHashProfile: Option<Text>,
    payload: Value)

  // ---------- Reading fields ----------

  function Lookup(members: seq<Member>, key: string): Option<Value> {
    if members == [] then None
    else if members[0].key == key then Some(members[0].value)
    else Lookup(members[1..], key)
  }

  function Get(v: Value, key: string): Option<Value> {
    if v.Object? then Lookup(v.members, key) else None
  }

  function AsText(v: Option<Value>): Option<Text> {
    if v.Some? && v.value.Str? then Some(v.value.text) else None
  }

  function AsArray(v: Option<Value>): Option<seq<Value>> {
    if v.Some? && v.value.Array? then Some(v.value.elements) else None
  }

  function AsUnsigned(v: Option<Value>): Option<nat> {
    if v.Some? && v.value.Num? && v.value.number.PosInt? then Some(v.value.number.n) else None
  }

  function GetText(v: Value, key: string): Option<Text> {
    AsText(Get(v, key))
  }

  function Without(members: seq<Member>, key: string): seq<Member> {
    if members == [] then []
    else if members[0].key == key then Without(members[1..], key)
    else [members[0]] + Without(members[1..], key)
  }

  // ---------- Tree shape ----------

  // The values directly inside an array or an object, in iteration order.
  function Children(v: Value): (cs: seq<Value>)
    ensures forall i :: 0 <= i < |cs| ==> cs[i] < v
  {
    match v
    case Array(elements) => elements
    case Object(members) => seq(|members|, i requires 0 <= i < |members| => members[i].value)
    case _ => []
  }

  function NodeCount(v: Value): (n: nat)
    ensures n >= 1
    decreases v, 1, 0
  {
    1 + NodeCountWithin(v, Children(v))
  }

  function NodeCountWithin(parent: Value, vs: seq<Value>): nat
    requires forall i :: 0 <= i < |vs| ==> vs[i] < parent
    decreases parent, 0, |vs|
  {
    if vs == [] then 0 else NodeCount(vs[0]) + NodeCountWithin(parent, vs[1..])
  }

  function NodeCountAll(vs: seq<Value>): nat {
    if vs == [] then 0 else NodeCount(vs[0]) + NodeCountAll(vs[1..])
  }

  lemma {:induction false} NodeCountWithinIsAll(parent: Value, vs: seq<Value>)
    requires forall i :: 0 <= i < |vs| ==> vs[i] < parent
    ensures NodeCountWithin(parent, vs) == NodeCountAll(vs)
  {
    if vs != [] {
      NodeCountWithinIsAll(parent, vs[1..]);
    }
  }

  lemma NodeCountOfTree(v: Value)
    ensures NodeCount(v) == 1 + NodeCountAll(Children(v))
  {
    NodeCountWithinIsAll(v, Children(v));
  }
}
