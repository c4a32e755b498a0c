// Receipts on which every assumption about the libraries is met, a bundle whose
// root receipt is hidden by a copy, and a chain.
module RootExample {
  import opened Wrappers
  import opened Json
  import opened Limits
  import opened Receipts
  import opened Chain
  import opened Ingestion
  import opened Verify
  import opened DependencyGraph
  import opened ClosureBundle
  import opened ClosureTheorems
  import opened ContentAddressing
  import opened ExampleLibrary

  // ---------- The documents ----------

  // The manifest lists nothing and states any root at all. The support set of
  // the root receipt is either READABLE or not.
  datatype Example = Example(stated: string, supportSet: Value) {
    predicate Fits() {
      supportSet == READABLE || supportSet == UNREADABLE
    }

    function Body(): seq<Member> {
      [Member("receipt_closure", Array([])), Member("root_event_hash", Str(Chars(stated)))]
    }

    function Digest(): Text {
      HashOf(Committing(Object(Body())))
    }

    function Manifest(): Value {
      Object(Body() + [Member("manifest_digest", Str(Digest()))])
    }

    function Payload(): Value {
      Object([
        Member("closure_manifest_digest", Str(Digest())),
        Member("payload_kind", Str(PACK_KIND)),
        Member("support_set", supportSet)])
    }

    function RootHash(): Text {
      HashOf(Committing(Payload()))
    }

    function Root(): Value {
      Object([Member("event_hash", Str(RootHash())), Member("payload", Payload())])
    }

    function Envelope(): Envelope {
      Receipts.Envelope(Committing(Payload()), RootHash())
    }

    // The copy has the root's hash and nothing else.
    function Copy(): Value {
      Object([Member("event_hash", Str(RootHash()))])
    }
  }

  // One dependency, untyped and not supplied.
  const DEPENDENCY: SupportMember := DependedOnReceipt(Chars("elsewhere"))

  const READABLE: Value := Array([Str(Chars("elsewhere"))])

  const UNREADABLE: Value := Null

  function Committing(payload: Value): Content {
    var empty := Chars("");
    Content(1, empty, empty, empty, empty, 0, None, None, None, None, None, payload)
  }

  // ---------- The libraries ----------

  ghost function Draft(x: Example): Platform {
    Platform(
      (_: string) => SyntaxError,
      (_: string) => None,
      (v: Value) => Leaf(x.Digest(), x.RootHash(), v),
      (name: string) => Quote(name),
      (a: string, b: string) => Before(a, b),
      (a: string, b: string) => Before(a, b),
      (v: Value) => LeafOk(x.Digest(), x.RootHash(), v),
      (_: Value) => true,
      (v: Value) => if v == x.Root() then Some(x.Envelope()) else None,
      (c: Content) => Some(HashOf(c)),
      (_: nat) => Chars(""),
      (_: nat) => Chars(""),
      (v: Value) => if v == READABLE then Some([DEPENDENCY]) else None,
      (v: Value) => Some(HashOf(Committing(v))),
      Listing)
  }

  ghost function Library(x: Example): Platform {
    Parsing(Draft(x))
  }

  ghost function Listing(s: set<Text>): seq<Text> {
    if s == {} then []
    else
      var t :| t in s;
      [t] + Listing(s - {t})
  }

  lemma {:induction false} ListingLists(s: set<Text>, t: Text)
    ensures multiset(Listing(s))[t] == Once(t in s)
  {
    if s != {} {
      var first := Listing(s)[0];
      ListingLists(s - {first}, t);
      assert Listing(s) == [first] + Listing(s - {first});
    }
  }

  lemma LibraryPrints(x: Example)
    ensures Prints(Library(x), x.Digest(), x.RootHash())
  {
  }

  lemma LibraryRoundTrips(x: Example)
    ensures RoundTrips(Library(x))
  {
    assert Prints(Draft(x), x.Digest(), x.RootHash());
    PrinterIsDecodable(Draft(x), x.Digest(), x.RootHash());
    ParsingRoundTrips(Draft(x));
  }

  lemma SetsAreListed(x: Example)
    ensures ListsSets(Library(x))
  {
    forall s: set<Text>, t: Text ensures multiset(Library(x).ascending(s))[t] == Once(t in s) {
      ListingLists(s, t);
    }
  }

  lemma RootFields(x: Example)
    ensures GetText(x.Root(), "event_hash") == Some(x.RootHash()) && Get(x.Root(), "payload") == Some(x.Payload())
    ensures ReadPayloadKind(x.Root()) == Some(PACK_KIND) && CommittedDigest(x.Root()) == Some(x.Digest())
    ensures ReadPayload(x.Root(), "support_set") == Some(x.supportSet)
  {
    var root, payload := x.Root().members, x.Payload().members;
    var kind, last := Member("payload_kind", Str(PACK_KIND)), Member("support_set", x.supportSet);
    assert root[1..] == [Member("payload", x.Payload())];
    assert Lookup([Member("payload", x.Payload())], "payload") == Some(x.Payload());
    assert payload[1..] == [kind, last] && payload[1..][1..] == [last];
    assert Lookup([last], "support_set") == Some(x.supportSet);
    assert Lookup([kind, last], "support_set") == Some(x.supportSet);
    assert Lookup([kind, last], "payload_kind") == Some(kind.value);
  }

  // All assumptions can be met together.
  lemma AssumptionsAreMet(x: Example)
    ensures var p := Library(x);
            && RoundTrips(p) && ReadsFields(p) && ReadsHashes(p) && ListsSets(p)
            && FreeTerm(p) && Injective(p) && DigestIsFresh(p)
  {
    RootFields(x);
    FreeTermIsInjective(Library(x));
    SetsAreListed(x);
    LibraryRoundTrips(x);
  }

  // ---------- The documents are admissible and small ----------

  ghost predicate Good(p: Platform, v: Value, n: nat) {
    WellFormed(p, v) && Short(v) && NodeCount(v) <= n
  }

  ghost predicate AllGood(p: Platform, vs: seq<Value>, n: nat) {
    AllWellFormed(p, vs) && AllShort(vs) && NodeCountAll(vs) <= n
  }

  lemma GoodList(p: Platform, v: Value, vs: seq<Value>, m: nat, n: nat)
    requires Good(p, v, m) && AllGood(p, vs, n)
    ensures AllGood(p, [v] + vs, m + n)
  {
    assert ([v] + vs)[1..] == vs;
  }

  lemma GoodAbove(p: Platform, v: Value, n: nat)
    requires AllGood(p, Children(v), n)
    requires v.Array? || v.Object?
    requires v.Object? ==> forall i, j :: 0 <= i < j < |v.members| ==> p.mapBefore(v.members[i].key, v.members[j].key)
    requires v.Object? ==> forall i :: 0 <= i < |v.members| ==> |v.members[i].key| <= 30
    ensures Good(p, v, n + 1)
  {
    NodeCountOfTree(v);
  }

  lemma GoodLeaf(x: Example, v: Value)
    requires v.Null? || (v.Str? && v.text.Chars? && |v.text.chars| <= 30)
          || v == Str(x.Digest()) || v == Str(x.RootHash())
    ensures Good(Library(x), v, 1)
  {
    NodeCountOfTree(v);
  }

  lemma GoodSupportSet(x: Example)
    requires x.Fits()
    ensures Good(Library(x), x.supportSet, 2)
  {
    var p, leaf := Library(x), Str(Chars("elsewhere"));
    GoodLeaf(x, leaf);
    GoodLeaf(x, Null);
    GoodList(p, leaf, [], 1, 0);
    GoodAbove(p, READABLE, 1);
  }

  lemma GoodPayload(x: Example)
    requires x.Fits()
    ensures Good(Library(x), x.Payload(), 5)
  {
    var p, digest, kind := Library(x), Str(x.Digest()), Str(PACK_KIND);
    GoodSupportSet(x);
    GoodLeaf(x, digest);
    GoodLeaf(x, kind);
    GoodList(p, x.supportSet, [], 2, 0);
    GoodList(p, kind, [x.supportSet], 1, 2);
    GoodList(p, digest, [kind, x.supportSet], 1, 3);
    assert Children(x.Payload()) == [digest, kind, x.supportSet];
    NamesInOrder();
    GoodAbove(p, x.Payload(), 4);
  }

  lemma NamesInOrder()
    ensures Before("closure_manifest_digest", "payload_kind") && Before("closure_manifest_digest", "support_set")
    ensures Before("payload_kind", "support_set")
  {
  }

  lemma GoodRoot(x: Example)
    requires x.Fits()
    ensures Good(Library(x), x.Root(), 7) && Good(Library(x), x.Copy(), 2)
  {
    var p, hash := Library(x), Str(x.RootHash());
    GoodPayload(x);
    GoodLeaf(x, hash);
    GoodList(p, x.Payload(), [], 5, 0);
    GoodList(p, hash, [x.Payload()], 1, 5);
    GoodList(p, hash, [], 1, 0);
    assert Children(x.Root()) == [hash, x.Payload()] && Children(x.Copy()) == [hash];
    assert Before("event_hash", "payload");
    GoodAbove(p, x.Root(), 6);
    GoodAbove(p, x.Copy(), 1);
  }

  // ---------- The root verifies ----------

  lemma NoStructuralFloats(x: Example)
    ensures IntegersOnly(x.Root(), STRUCTURAL_INTEGER_FIELDS)
  {
    var root := x.Root().members;
    assert root[1..] == [Member("payload", x.Payload())] && root[1..][1..] == [];
    forall field | field in STRUCTURAL_INTEGER_FIELDS ensures Get(x.Root(), field) == None {
      assert field == "envelope_version" || field == "logical_time";
      assert Lookup([Member("payload", x.Payload())], field) == None;
    }
  }

  lemma RootIsIngested(x: Example)
    requires x.Fits()
    ensures IngestEnvelope(Library(x), CanonText(Library(x), x.Root()), DEFAULT_LIMITS) == Ok(x.Envelope())
    ensures Library(x).parse(CanonText(Library(x), x.Root())) == Some(x.Root())
  {
    var p := Library(x);
    GoodRoot(x);
    LibraryPrints(x);
    LibraryRoundTrips(x);
    NoStructuralFloats(x);
    SmallTreeFits(p, x.Digest(), x.RootHash(), x.Root());
    CheckStructureIsExact(x.Root(), DEFAULT_LIMITS);
    IngestionIsExact(p, x.Root(), DEFAULT_LIMITS);
  }

  lemma RootVerifies(x: Example)
    requires x.Fits()
    ensures VerifyReceipt(Library(x), CanonText(Library(x), x.Root())).status.Valid?
  {
    RootIsIngested(x);
    ReceiptVerdict(Library(x), CanonText(Library(x), x.Root()), DEFAULT_LIMITS);
  }

  // ---------- The bundle ----------

  ghost function RootAlone(x: Example): Bundle {
    Bundle(EXPECTED_FORMAT, CanonText(Library(x), x.Root()), x.Manifest(), [])
  }

  ghost function CopyText(x: Example): string {
    CanonText(Library(x), x.Copy())
  }

  lemma ManifestIsAccepted(x: Example)
    ensures ManifestHolds(Library(x), x.Manifest(), Some(x.Digest()))
    ensures CommittedClosure(x.Manifest()) == {} && GetText(x.Manifest(), "root_event_hash") == Some(Chars(x.stated))
  {
    NamesDiffer();
    var body, last, members := x.Body(), Member("manifest_digest", Str(x.Digest())), x.Manifest().members;
    assert members[1..] == [body[1], last] && members[1..][1..] == [last];
    assert Without([last], "manifest_digest") == [];
    assert Without([body[1], last], "manifest_digest") == [body[1]];
    assert Without(members, "manifest_digest") == body;
    assert Lookup([last], "manifest_digest") == Some(Str(x.Digest()));
    assert Lookup([body[1], last], "manifest_digest") == Some(Str(x.Digest()));
    assert Lookup([last], "dependency_count") == None;
    assert Lookup([body[1], last], "dependency_count") == None;
    assert Lookup([body[1], last], "root_event_hash") == Some(body[1].value);
  }

  lemma NamesDiffer()
    ensures "receipt_closure" != "root_event_hash" && "root_event_hash" != "manifest_digest"
    ensures "manifest_digest" != "receipt_closure"
  {
  }

  lemma CopyIsBare(x: Example)
    requires x.Fits()
    ensures Names(Library(x), CopyText(x), x.RootHash())
    ensures NodeOf(Library(x), CopyText(x)).value.1.supportSet == []
  {
    GoodRoot(x);
    LibraryRoundTrips(x);
    assert x.Copy().members[1..] == [];
    assert |"event_hash"| == 10 && |"payload"| == 7;
    assert Lookup([], "payload") == None;
    assert Get(x.Copy(), "payload") == None;
  }

  lemma RootIsComplete(x: Example)
    requires x.Fits()
    ensures LoneRoot(Library(x), RootAlone(x), x.Root(), x.RootHash())
  {
    RootFields(x);
    RootIsIngested(x);
    RootVerifies(x);
    ManifestIsAccepted(x);
  }

  lemma DependencyIsOut(x: Example)
    requires x.supportSet == READABLE
    ensures RootIsOut(Library(x), RootAlone(x), x.Root(), x.RootHash(), DEPENDENCY)
  {
    RootFields(x);
    RootIsComplete(x);
  }

  // Alone the root is rejected for its untyped dependency. Beside the copy it is
  // accepted, whatever root the manifest states.
  lemma HiddenRootIsAccepted(x: Example)
    requires x.supportSet == READABLE
    ensures RootIsOut(Library(x), RootAlone(x), x.Root(), x.RootHash(), DEPENDENCY)
    ensures VerifyBundle(Library(x), Some(RootAlone(x))).status.Invalid?
    ensures VerifyBundle(Library(x), Some(RootAlone(x).(receipts := [CopyText(x)]))).status.Valid?
    ensures GetText(RootAlone(x).manifest, "root_event_hash") == Some(Chars(x.stated))
  {
    SetsAreListed(x);
    DependencyIsOut(x);
    ManifestIsAccepted(x);
    CopyIsBare(x);
    ReplacedRootIsAccepted(Library(x), RootAlone(x), x.Root(), x.RootHash(), CopyText(x), DEPENDENCY);
  }

  // With a support set that cannot be read the root is accepted alone.
  lemma MalformedRootIsAccepted(x: Example)
    requires x.supportSet == UNREADABLE
    ensures !SupportSetReads(Library(x), x.Root())
    ensures VerifyBundle(Library(x), Some(RootAlone(x))).status.Valid?
  {
    SetsAreListed(x);
    RootFields(x);
    RootIsComplete(x);
    UnreadableSupportSetIsAccepted(Library(x), RootAlone(x), x.Root(), x.RootHash());
  }

  // ---------- The chain ----------

  // The root receipt alone is a VALID chain, so the chain theorems speak of
  // chains that exist.
  lemma ChainIsAccepted(x: Example)
    requires x.Fits()
    ensures var raw := CanonText(Library(x), Array([x.Root()]));
            && VerifyReceiptChainWith(Library(x), raw, DEFAULT_LIMITS).status.Valid?
            && IngestChain(Library(x), raw, DEFAULT_LIMITS) == Ok([x.Envelope()])
  {
    var p, vs := Library(x), [x.Root()];
    GoodRoot(x);
    GoodList(p, x.Root(), [], 7, 0);
    GoodAbove(p, Array(vs), 7);
    LibraryPrints(x);
    LibraryRoundTrips(x);
    SmallTreeFits(p, x.Digest(), x.RootHash(), Array(vs));
    RootVerifies(x);
    RootIsRead(x);
    CanonicalIsRead(p, Array(vs), DEFAULT_LIMITS);
    ChainVersusReceipts(p, vs, DEFAULT_LIMITS);
  }

  lemma RootIsRead(x: Example)
    requires x.Fits()
    ensures ReadElements(Library(x), [x.Root()]) == Ok([x.Envelope()]) && Accepted([x.Envelope()])
  {
    NoStructuralFloats(x);
    FloatsAreRejected(x.Root(), STRUCTURAL_INTEGER_FIELDS);
    assert [x.Root()][1..] == [] && ReadElements(Library(x), []) == Ok([]);
    assert ReadEnvelope(Library(x), x.Root()) == Ok(x.Envelope());
    assert [x.Envelope()] + [] == [x.Envelope()];
  }
}
