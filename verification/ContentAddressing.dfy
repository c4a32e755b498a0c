// What event hashes commit to, across a whole bundle: cycles cannot be built,
// and a root pins the graph below it.
module ContentAddressing {
  import opened Wrappers
  import opened Json
  import opened Limits
  import opened Receipts
  import opened Report
  import opened Ingestion
  import opened Verify
  import opened DependencyGraph
  import opened WalkTheorems
  import opened ClosureBundle
  import opened ClosureTheorems

  // ---------- A verifying receipt is determined by its event hash ----------

  // The envelope behind a text that verifies.
  function EnvelopeOf(p: Platform, raw: string): Envelope
    requires VerifyReceipt(p, raw).status.Valid?
  {
    IngestEnvelope(p, raw, DEFAULT_LIMITS).value
  }

  // A verifying node is keyed by the hash of its content, and the content
  // holds its kind and support set.
  lemma ValidNode(p: Platform, raw: string, h: Text, node: Node)
    requires ReadsFields(p) && NodeOf(p, raw) == Some((h, node)) && node.verifyStatus.Valid?
    ensures var content := EnvelopeOf(p, raw).content;
            && p.commit(content) == Some(h)
            && node == ContentNode(p, content)
  {
  }

  // The node of a verifying receipt with this content.
  function ContentNode(p: Platform, content: Content): Node {
    var kind := AsText(Get(content.payload, "payload_kind"));
    Node(if kind.Some? then kind.value else Chars(""), PayloadSupport(p, content.payload), Valid, [])
  }

  function PayloadSupport(p: Platform, payload: Value): seq<SupportMember> {
    var supportSet := Get(payload, "support_set");
    var members := if supportSet.Some? then p.supportSet(supportSet.value) else None;
    if members.Some? then members.value else []
  }

  // The content a verifying node of the graph was built from.
  lemma ValidEntry(p: Platform, b: Bundle, h: Text) returns (content: Content)
    requires ReadsFields(p) && h in GraphOf(p, b) && GraphOf(p, b)[h].verifyStatus.Valid?
    ensures p.commit(content) == Some(h) && GraphOf(p, b)[h] == ContentNode(p, content)
  {
    GraphEntry(p, b, h);
    var raw :| raw in Texts(b) && NodeOf(p, raw) == Some((h, GraphOf(p, b)[h]));
    ValidNode(p, raw, h, GraphOf(p, b)[h]);
    content := EnvelopeOf(p, raw).content;
  }

  // Verifying receipts with the same hash are interchangeable, so when all
  // texts verify their order never matters.
  lemma VerifyingTextsAgree(p: Platform, raws: seq<string>)
    requires Injective(p) && ReadsFields(p)
    requires forall raw :: raw in raws && NodeOf(p, raw).Some? ==> VerifyReceipt(p, raw).status.Valid?
    ensures Agreeing(p, raws)
  {
    forall raw, raw', k | raw in raws && raw' in raws && Names(p, raw, k) && Names(p, raw', k)
      ensures NodeOf(p, raw) == NodeOf(p, raw')
    {
      ValidNode(p, raw, k, NodeOf(p, raw).value.1);
      ValidNode(p, raw', k, NodeOf(p, raw').value.1);
    }
  }

  // ---------- A root pins the graph below it ----------

  // Two graphs whose root nodes verify and whose dependencies all resolve
  // agree on everything reachable from the common root.
  lemma {:induction false} SameBelow(p: Platform, b: Bundle, b': Bundle, h: Text, n: nat, u: Text)
    requires Injective(p) && ReadsFields(p)
    requires NodeVerifies(p, b, h) && NodeVerifies(p, b', h)
    requires AllResolved(GraphOf(p, b), h) && AllResolved(GraphOf(p, b'), h)
    requires PathOf(GraphOf(p, b), ResolvedOnly, n, h, u)
    ensures NodeVerifies(p, b, u) && NodeVerifies(p, b', u)
    ensures Reaches(GraphOf(p, b'), ResolvedOnly, h, u)
    ensures Find(GraphOf(p, b), u) == Find(GraphOf(p, b'), u)
  {
    var index, index' := GraphOf(p, b), GraphOf(p, b');
    if n == 0 {
      ReachesSelf(index', ResolvedOnly, h);
    } else {
      var w :| PathOf(index, ResolvedOnly, n - 1, h, w) && Edge(index, ResolvedOnly, w, u);
      SameBelow(p, b, b', h, n - 1, w);
      ResolvedIsTyped(index, w, u);
      SharedEdge(index, index', h, w, u);
      ResolvedTarget(index, w, u);
      ResolvedTarget(index', w, u);
      ReachesStep(index', ResolvedOnly, h, w, u);
    }
    var content := ValidEntry(p, b, u);
    var content' := ValidEntry(p, b', u);
    assert content == content';
  }

  // The graph holds a verifying node for this hash.
  ghost predicate NodeVerifies(p: Platform, b: Bundle, h: Text) {
    h in GraphOf(p, b) && GraphOf(p, b)[h].verifyStatus.Valid?
  }

  // The same node has the same edges, and they resolve on both sides.
  lemma SharedEdge(index: Index, index': Index, h: Text, w: Text, u: Text)
    requires AllResolved(index', h) && Reaches(index', ResolvedOnly, h, w)
    requires Find(index, w) == Find(index', w) && Edge(index, AllTyped, w, u)
    ensures Edge(index', ResolvedOnly, w, u)
  {
    var m :| m in index[w].supportSet && Carries(index, AllTyped, m, u);
    assert w in index' && index'[w] == index[w];
    assert Carries(index', AllTyped, m, u);
    TypedEdgeResolves(index', h, w, u);
  }

  // The whole walk below a verifying root is determined by the root's hash.
  lemma RootPinsWalk(p: Platform, b: Bundle, b': Bundle, h: Text)
    requires Injective(p) && ReadsFields(p)
    requires NodeVerifies(p, b, h) && NodeVerifies(p, b', h)
    requires AllResolved(GraphOf(p, b), h) && AllResolved(GraphOf(p, b'), h)
    ensures WalkFrom(GraphOf(p, b'), h) == WalkFrom(GraphOf(p, b), h)
  {
    var index, index' := GraphOf(p, b), GraphOf(p, b');
    var found := WalkFrom(index, h).reachable;
    ReachableIsExact(index, h);
    forall u | u in found ensures Find(index, u) == Find(index', u) {
      var n: nat :| PathOf(index, ResolvedOnly, n, h, u);
      SameBelow(p, b, b', h, n, u);
    }
    forall u, v | u in found && Edge(index, AllTyped, u, v) ensures Find(index, v) == Find(index', v) {
      TypedEdgeResolves(index, h, u, v);
      ReachesStep(index, ResolvedOnly, h, u, v);
    }
    WalkIsLocal(index, index', h);
  }

  // The root's entry in the graph is the last text with the root's hash, so
  // the root node verifies exactly when that text does.
  lemma RootNodeIsLastCopy(p: Platform, b: Bundle, h: Text, i: nat)
    requires i < |Texts(b)| && Names(p, Texts(b)[i], h)
    requires forall j :: i < j < |Texts(b)| ==> !Names(p, Texts(b)[j], h)
    ensures NodeVerifies(p, b, h) <==> VerifyReceipt(p, Texts(b)[i]).status.Valid?
  {
    LastInsertionWins(p, b, i, h);
  }

  // raws[i] is the last of the texts that names k.
  ghost predicate LastNaming(p: Platform, raws: seq<string>, i: nat, k: Text) {
    i < |raws| && Names(p, raws[i], k) && forall j :: i < j < |raws| ==> !Names(p, raws[j], k)
  }

  // No supplied text names the root's hash, or the last one that does verifies.
  ghost predicate LastCopyVerifies(p: Platform, receipts: seq<string>, h: Text) {
    forall i: nat :: LastNaming(p, receipts, i, h) ==> VerifyReceipt(p, receipts[i]).status.Valid?
  }

  lemma {:induction false} SomeLastNaming(p: Platform, raws: seq<string>, k: Text) returns (i: nat)
    requires exists raw :: raw in raws && Names(p, raw, k)
    ensures LastNaming(p, raws, i, k)
  {
    var last := |raws| - 1;
    if Names(p, raws[last], k) {
      i := last;
    } else {
      assert raws == raws[..last] + [raws[last]];
      i := SomeLastNaming(p, raws[..last], k);
    }
  }

  // The graph's node for the root's hash is the last copy's, or the root's own
  // when no text names the hash.
  lemma NodeAtRoot(p: Platform, b: Bundle, root: Value, h: Text) returns (raw: string)
    requires HasRoot(p, b, root, h)
    ensures Names(p, raw, h) && Find(GraphOf(p, b), h) == Some(NodeOf(p, raw).value.1)
    ensures (raw == b.rootCanonical && forall copy :: copy in b.receipts ==> !Names(p, copy, h))
         || exists i: nat :: LastNaming(p, b.receipts, i, h) && b.receipts[i] == raw
  {
    assert Names(p, Texts(b)[0], h);
    if exists copy :: copy in b.receipts && Names(p, copy, h) {
      var i := SomeLastNaming(p, b.receipts, h);
      raw := b.receipts[i];
      assert forall j :: 0 < j < |Texts(b)| ==> Texts(b)[j] == b.receipts[j - 1];
      LastInsertionWins(p, b, i + 1, h);
    } else {
      raw := b.rootCanonical;
      assert forall j :: 0 < j < |Texts(b)| ==> Texts(b)[j] == b.receipts[j - 1];
      LastInsertionWins(p, b, 0, h);
    }
  }

  // Exactly when a verifying root receipt keeps its own node in the graph, which
  // is exactly when the node at its hash verifies.
  lemma RootKeepsItsNode(p: Platform, b: Bundle, root: Value, h: Text)
    requires Injective(p) && ReadsFields(p)
    requires HasRoot(p, b, root, h) && VerifyReceipt(p, b.rootCanonical).status.Valid?
    ensures Find(GraphOf(p, b), h) == Some(NodeOf(p, b.rootCanonical).value.1) <==> LastCopyVerifies(p, b.receipts, h)
    ensures NodeVerifies(p, b, h) <==> LastCopyVerifies(p, b.receipts, h)
  {
    var raw := NodeAtRoot(p, b, root, h);
    if VerifyReceipt(p, raw).status.Valid? {
      ValidNode(p, raw, h, NodeOf(p, raw).value.1);
      ValidNode(p, b.rootCanonical, h, NodeOf(p, b.rootCanonical).value.1);
    }
    forall i: nat, j: nat | LastNaming(p, b.receipts, i, h) && LastNaming(p, b.receipts, j, h) ensures i == j {
    }
  }

  // A valid bundle vouches for the root receipt's own dependencies when no
  // supplied text names the root's hash, or the last one that does verifies.
  lemma ValidRootStands(p: Platform, b: Bundle, root: Value, h: Text)
    requires ListsSets(p) && HasRoot(p, b, root, h)
    requires VerifyBundle(p, Some(b)).status.Valid?
    requires || (forall raw :: raw in b.receipts ==> !Names(p, raw, h))
             || (Injective(p) && ReadsFields(p) && LastCopyVerifies(p, b.receipts, h))
    ensures NodeVerifies(p, b, h)
    ensures forall m :: m in ReadSupportSet(p, root) && CheckOf(GraphOf(p, b), m).Some? ==> EdgeHolds(GraphOf(p, b), m)
  {
    VerdictIsExact(p, b, root, h);
    var raw := NodeAtRoot(p, b, root, h);
    if raw != b.rootCanonical {
      RootKeepsItsNode(p, b, root, h);
    }
    var index := GraphOf(p, b);
    ReachesSelf(index, ResolvedOnly, h);
    forall m | m in ReadSupportSet(p, root) && CheckOf(index, m).Some? ensures EdgeHolds(index, m) {
      assert HasDependency(index, h, m);
    }
  }

  // Once a supplied text names the root's hash, the root receipt's own support
  // set has no part in the graph: any other root with that hash gives the same.
  lemma CopyHidesRoot(p: Platform, b: Bundle, rootCanonical: string, h: Text)
    requires Names(p, b.rootCanonical, h) && Names(p, rootCanonical, h)
    requires exists raw :: raw in b.receipts && Names(p, raw, h)
    ensures GraphOf(p, b.(rootCanonical := rootCanonical)) == GraphOf(p, b)
  {
    var b' := b.(rootCanonical := rootCanonical);
    RootIsFirst(p, b);
    RootIsFirst(p, b');
    var index, index' := Inserted(p, map[], b.rootCanonical), Inserted(p, map[], rootCanonical);
    forall k ensures Find(GraphOf(p, b), k) == Find(GraphOf(p, b'), k) {
      if k == h {
        NamedForgets(p, index, index', b.receipts, k);
      } else {
        FindAfterInsertion(p, index, index', b.receipts, k);
      }
    }
    SameIndex(GraphOf(p, b'), GraphOf(p, b));
  }

  // A root receipt that verifies as a pack and commits its manifest and an empty
  // closure, supplied alone.
  ghost predicate LoneRoot(p: Platform, b: Bundle, root: Value, h: Text) {
    && HasRoot(p, b, root, h) && b.receipts == []
    && VerifyReceipt(p, b.rootCanonical).status.Valid? && ReadPayloadKind(root) == Some(PACK_KIND)
    && ManifestHolds(p, b.manifest, CommittedDigest(root)) && CommittedClosure(b.manifest) == {}
  }

  // The same with a dependency m that is out.
  ghost predicate RootIsOut(p: Platform, b: Bundle, root: Value, h: Text, m: SupportMember) {
    && LoneRoot(p, b, root, h)
    && m in ReadSupportSet(p, root) && CheckOf(GraphOf(p, b), m).Some? && !EdgeHolds(GraphOf(p, b), m)
  }

  // The condition is needed. A bundle whose root receipt has a dependency that is
  // out is INVALID by itself, but VALID beside one text that names the root's
  // hash with an empty support set, whether or not that text verifies.
  lemma ReplacedRootIsAccepted(p: Platform, b: Bundle, root: Value, h: Text, copy: string, m: SupportMember)
    requires ListsSets(p) && RootIsOut(p, b, root, h, m)
    requires Names(p, copy, h) && NodeOf(p, copy).value.1.supportSet == []
    ensures VerifyBundle(p, Some(b)).status.Invalid?
    ensures VerifyBundle(p, Some(b.(receipts := [copy]))).status.Valid?
  {
    OutRootIsRejected(p, b, root, h, m);
    var b' := b.(receipts := [copy]);
    assert Texts(b')[1] == copy;
    LastInsertionWins(p, b', 1, h);
    BareRootIsAccepted(p, b', root, h);
  }

  lemma OutRootIsRejected(p: Platform, b: Bundle, root: Value, h: Text, m: SupportMember)
    requires ListsSets(p) && RootIsOut(p, b, root, h, m)
    ensures VerifyBundle(p, Some(b)).status.Invalid?
  {
    if VerifyBundle(p, Some(b)).status.Valid? {
      ValidRootStands(p, b, root, h);
      assert false;
    }
  }

  // A pack whose node in the graph has no support set needs nothing else.
  lemma BareRootIsAccepted(p: Platform, b: Bundle, root: Value, h: Text)
    requires ListsSets(p) && LoneRoot(p, b.(receipts := []), root, h)
    requires forall raw :: raw in b.receipts ==> p.parse(raw).Some?
    requires h in GraphOf(p, b) && GraphOf(p, b)[h].supportSet == []
    ensures VerifyBundle(p, Some(b)).status.Valid?
  {
    NothingBelow(GraphOf(p, b), h);
    VerdictIsExact(p, b, root, h);
  }

  // A support set that cannot be read is no reason to reject a bundle: a lone root
  // whose support set is malformed is VALID.
  lemma UnreadableSupportSetIsAccepted(p: Platform, b: Bundle, root: Value, h: Text)
    requires ListsSets(p) && LoneRoot(p, b, root, h) && !SupportSetReads(p, root)
    ensures VerifyBundle(p, Some(b)).status.Valid?
  {
    UnsharedRoot(p, b, root, h);
    assert b == b.(receipts := []);
    BareRootIsAccepted(p, b, root, h);
  }

  lemma UnsharedRoot(p: Platform, b: Bundle, root: Value, h: Text)
    requires HasRoot(p, b, root, h) && b.receipts == []
    ensures Find(GraphOf(p, b), h) == Some(NodeOf(p, b.rootCanonical).value.1)
    ensures NodeOf(p, b.rootCanonical).value.1.supportSet == ReadSupportSet(p, root)
  {
    var raw := NodeAtRoot(p, b, root, h);
  }

  // A node with no support set is a whole graph by itself.
  lemma NothingBelow(index: Index, h: Text)
    requires h in index && index[h].supportSet == []
    ensures forall t :: Reaches(index, ResolvedOnly, h, t) <==> t == h
    ensures AllResolved(index, h) && !Cyclic(index, AllTyped, h)
  {
    ReachesSelf(index, ResolvedOnly, h);
    forall graph, t | Reaches(index, graph, h, t) ensures t == h {
      var n: nat :| PathOf(index, graph, n, h, t);
      NoWayOut(index, graph, h, n, t);
    }
  }

  lemma {:induction false} NoWayOut(index: Index, graph: Graph, u: Text, n: nat, t: Text)
    requires u in index && index[u].supportSet == [] && PathOf(index, graph, n, u, t)
    ensures t == u
  {
    if n > 0 {
      var w :| PathOf(index, graph, n - 1, u, w) && Edge(index, graph, w, t);
      NoWayOut(index, graph, u, n - 1, w);
      assert false;
    }
  }

  // Two valid bundles with the same root hash, whose root nodes verify, have
  // the same closure, the same edge checks in the same order, and commit the
  // same set of receipts.
  lemma RootCommitsClosure(p: Platform, b: Bundle, b': Bundle, root: Value, root': Value, h: Text)
    requires Injective(p) && ReadsFields(p) && ListsSets(p)
    requires HasRoot(p, b, root, h) && HasRoot(p, b', root', h)
    requires NodeVerifies(p, b, h) && NodeVerifies(p, b', h)
    requires VerifyBundle(p, Some(b)).status.Valid? && VerifyBundle(p, Some(b')).status.Valid?
    ensures WalkFrom(GraphOf(p, b'), h) == WalkFrom(GraphOf(p, b), h)
    ensures VerifyBundle(p, Some(b')).edgeChecks == VerifyBundle(p, Some(b)).edgeChecks
    ensures CommittedClosure(b'.manifest) == CommittedClosure(b.manifest)
  {
    VerdictIsExact(p, b, root, h);
    VerdictIsExact(p, b', root', h);
    RootPinsWalk(p, b, b', h);
    ReachableIsExact(GraphOf(p, b), h);
    ReachableIsExact(GraphOf(p, b'), h);
  }

  // ---------- Hashes cannot be embedded in what they hash ----------

  // How many hash symbols are nested in a text or a value.
  function TextSize(t: Text): nat {
    match t
    case Chars(_) => 0
    case HashOf(content) => 1 + ValueSize(content.payload)
  }

  function ValueSize(v: Value): nat
    decreases v, 1, 0
  {
    if v.Str? then TextSize(v.text) else ValueSizeWithin(v, Children(v))
  }

  function ValueSizeWithin(parent: Value, vs: seq<Value>): nat
    requires forall i :: 0 <= i < |vs| ==> vs[i] < parent
    decreases parent, 0, |vs|
  {
    if vs == [] then 0 else ValueSize(vs[0]) + ValueSizeWithin(parent, vs[1..])
  }

  // t is one of the strings in v.
  ghost predicate Occurs(t: Text, v: Value)
    decreases v, 1, 0
  {
    v == Str(t) || OccursWithin(t, v, Children(v))
  }

  ghost predicate OccursWithin(t: Text, parent: Value, vs: seq<Value>)
    requires forall i :: 0 <= i < |vs| ==> vs[i] < parent
    decreases parent, 0, |vs|
  {
    vs != [] && (Occurs(t, vs[0]) || OccursWithin(t, parent, vs[1..]))
  }

  lemma {:induction false} OccursIsNoLarger(t: Text, v: Value)
    requires Occurs(t, v)
    ensures TextSize(t) <= ValueSize(v)
    decreases v, 1, 0
  {
    if v != Str(t) {
      OccursWithinIsNoLarger(t, v, Children(v));
    }
  }

  lemma {:induction false} OccursWithinIsNoLarger(t: Text, parent: Value, vs: seq<Value>)
    requires forall i :: 0 <= i < |vs| ==> vs[i] < parent
    requires OccursWithin(t, parent, vs)
    ensures TextSize(t) <= ValueSizeWithin(parent, vs)
    decreases parent, 0, |vs|
  {
    if Occurs(t, vs[0]) {
      OccursIsNoLarger(t, vs[0]);
    } else {
      OccursWithinIsNoLarger(t, parent, vs[1..]);
    }
  }

  // The dependency hashes of a deserialized support set are strings of the value.
  ghost predicate ReadsHashes(p: Platform) {
    forall v: Value, m: SupportMember ::
      p.supportSet(v).Some? && m in p.supportSet(v).value && m.TypedReceiptDependency? ==> Occurs(m.eventHash, v)
  }

  lemma {:induction false} OccursInMember(t: Text, v: Value, key: string)
    requires v.Object? && Lookup(v.members, key).Some? && Occurs(t, Lookup(v.members, key).value)
    ensures Occurs(t, v)
  {
    var i := MemberIndex(v.members, key);
    assert Children(v)[i] == Lookup(v.members, key).value;
    OccursInChild(t, v, Children(v), i);
  }

  lemma {:induction false} MemberIndex(members: seq<Member>, key: string) returns (i: nat)
    requires Lookup(members, key).Some?
    ensures i < |members| && members[i].value == Lookup(members, key).value
  {
    if members[0].key == key {
      i := 0;
    } else {
      i := MemberIndex(members[1..], key);
      i := i + 1;
    }
  }

  lemma {:induction false} OccursInChild(t: Text, parent: Value, vs: seq<Value>, i: nat)
    requires forall j :: 0 <= j < |vs| ==> vs[j] < parent
    requires i < |vs| && Occurs(t, vs[i])
    ensures OccursWithin(t, parent, vs)
  {
    if i > 0 {
      OccursInChild(t, parent, vs[1..], i - 1);
    }
  }

  // A verifying receipt is strictly larger than the hashes it depends on.
  lemma EdgeShrinks(p: Platform, b: Bundle, u: Text, v: Text)
    requires FreeTerm(p) && ReadsFields(p) && ReadsHashes(p)
    requires NodeVerifies(p, b, u) && Edge(GraphOf(p, b), AllTyped, u, v)
    ensures TextSize(v) < TextSize(u)
  {
    var content := ValidEntry(p, b, u);
    assert u == HashOf(content);
    var m :| m in GraphOf(p, b)[u].supportSet && Carries(GraphOf(p, b), AllTyped, m, v);
    assert m in PayloadSupport(p, content.payload);
    var supportSet := Get(content.payload, "support_set").value;
    assert Occurs(v, supportSet);
    OccursInMember(v, content.payload, "support_set");
    OccursIsNoLarger(v, content.payload);
  }

  lemma {:induction false} PathShrinks(p: Platform, b: Bundle, v: Text, n: nat, u: Text)
    requires FreeTerm(p) && ReadsFields(p) && ReadsHashes(p)
    requires NodeVerifies(p, b, v) && PathOf(GraphOf(p, b), ResolvedOnly, n, v, u)
    ensures NodeVerifies(p, b, u) && TextSize(u) <= TextSize(v)
  {
    var index := GraphOf(p, b);
    if n > 0 {
      var w :| PathOf(index, ResolvedOnly, n - 1, v, w) && Edge(index, ResolvedOnly, w, u);
      PathShrinks(p, b, v, n - 1, w);
      ResolvedIsTyped(index, w, u);
      EdgeShrinks(p, b, w, u);
      ResolvedTarget(index, w, u);
    }
  }

  // A typed edge between receipts of a bundle is never closed into a cycle by
  // resolved edges unless its target does not verify.
  lemma NoCycleBelowVerifying(p: Platform, b: Bundle, u: Text, v: Text)
    requires FreeTerm(p) && ReadsFields(p) && ReadsHashes(p)
    requires NodeVerifies(p, b, v) && Edge(GraphOf(p, b), AllTyped, u, v)
    ensures !Reaches(GraphOf(p, b), ResolvedOnly, v, u)
  {
    if Reaches(GraphOf(p, b), ResolvedOnly, v, u) {
      var n: nat :| PathOf(GraphOf(p, b), ResolvedOnly, n, v, u);
      PathShrinks(p, b, v, n, u);
      EdgeShrinks(p, b, u, v);
      assert false;
    }
  }

  // Everything reachable from a verifying node verifies.
  lemma ReachableVerifies(p: Platform, b: Bundle, h: Text, u: Text)
    requires Reaches(GraphOf(p, b), ResolvedOnly, h, u)
    ensures u == h || NodeVerifies(p, b, u)
  {
  }

  // Every node below a verifying root is keyed by a hash that covers its own
  // kind and support set.
  lemma ReachableHashesCover(p: Platform, b: Bundle, h: Text, u: Text) returns (content: Content)
    requires FreeTerm(p) && ReadsFields(p)
    requires NodeVerifies(p, b, h) && Reaches(GraphOf(p, b), ResolvedOnly, h, u)
    ensures u == HashOf(content) && GraphOf(p, b)[u] == ContentNode(p, content)
  {
    ReachableVerifies(p, b, h, u);
    content := ValidEntry(p, b, u);
  }

  // On every bundle, whatever it contains, the flag is exact: it is set iff a
  // reachable cycle is closed by a typed edge, which is so iff some reachable
  // receipt has a typed edge back to the root's hash.
  lemma FlagIsExactOnBundles(p: Platform, b: Bundle, h: Text)
    requires FreeTerm(p) && ReadsFields(p) && ReadsHashes(p)
    ensures WalkFrom(GraphOf(p, b), h).cycleDetected <==> ClosedByTypedEdge(GraphOf(p, b), h)
    ensures ClosedByTypedEdge(GraphOf(p, b), h) <==>
              exists u :: Reaches(GraphOf(p, b), ResolvedOnly, h, u) && Edge(GraphOf(p, b), AllTyped, u, h)
  {
    var index := GraphOf(p, b);
    CycleDetection(index, h);
    if ClosedByTypedEdge(index, h) {
      var u, v :| Reaches(index, ResolvedOnly, h, v) && OnCycle(index, ResolvedOnly, AllTyped, h, u, v);
      ReachableVerifies(p, b, h, v);
      if v != h {
        NoCycleBelowVerifying(p, b, u, v);
      }
      assert Reaches(index, ResolvedOnly, h, u) && Edge(index, AllTyped, u, h);
    }
    if u :| Reaches(index, ResolvedOnly, h, u) && Edge(index, AllTyped, u, h) {
      BackEdgeToRootIsFlagged(index, h, u);
    }
  }

  // Below a root node that verifies there is no cycle, not even one closed by
  // an edge that does not resolve, and the walk never reports one.
  lemma VerifyingRootHasNoCycle(p: Platform, b: Bundle, h: Text)
    requires FreeTerm(p) && ReadsFields(p) && ReadsHashes(p)
    requires NodeVerifies(p, b, h)
    ensures !ClosedByTypedEdge(GraphOf(p, b), h)
    ensures !WalkFrom(GraphOf(p, b), h).cycleDetected
  {
    FlagIsExactOnBundles(p, b, h);
    if u :| Reaches(GraphOf(p, b), ResolvedOnly, h, u) && Edge(GraphOf(p, b), AllTyped, u, h) {
      NoCycleBelowVerifying(p, b, u, h);
    }
  }

  // w is on a typed path of n edges from u to v, before its end, and does not verify.
  ghost predicate UnverifiedOn(p: Platform, b: Bundle, u: Text, n: nat, v: Text, k: nat, w: Text) {
    && k < n && !NodeVerifies(p, b, w)
    && PathOf(GraphOf(p, b), AllTyped, k, u, w) && PathOf(GraphOf(p, b), AllTyped, n - k, w, v)
  }

  lemma {:induction false} TypedPathShrinks(p: Platform, b: Bundle, u: Text, n: nat, v: Text)
    requires FreeTerm(p) && ReadsFields(p) && ReadsHashes(p)
    requires PathOf(GraphOf(p, b), AllTyped, n, u, v)
    ensures TextSize(v) + n <= TextSize(u) || exists k, w :: UnverifiedOn(p, b, u, n, v, k, w)
  {
    var index := GraphOf(p, b);
    if n > 0 {
      var before: nat := n - 1;
      var x :| PathOf(index, AllTyped, before, u, x) && Edge(index, AllTyped, x, v);
      TypedPathShrinks(p, b, u, before, x);
      if k, w :| UnverifiedOn(p, b, u, before, x, k, w) {
        assert UnverifiedOn(p, b, u, n, v, k, w);
      } else if NodeVerifies(p, b, x) {
        EdgeShrinks(p, b, x, v);
      } else {
        assert PathOf(index, AllTyped, 0, v, v) && PathOf(index, AllTyped, 0, x, x);
        assert PathOf(index, AllTyped, 1, x, v);
        assert UnverifiedOn(p, b, u, n, v, before, x);
      }
    }
  }

  // A cycle of verifying receipts cannot be built, whether or not its edges
  // resolve: every typed cycle passes through a receipt that does not verify.
  lemma CycleHasUnverified(p: Platform, b: Bundle, u: Text, n: nat)
    requires FreeTerm(p) && ReadsFields(p) && ReadsHashes(p)
    requires n > 0 && PathOf(GraphOf(p, b), AllTyped, n, u, u)
    ensures exists k, w :: UnverifiedOn(p, b, u, n, u, k, w)
  {
    TypedPathShrinks(p, b, u, n, u);
  }

  // The graphs on which the flag depends on support-set order are no bundle's.
  lemma NoBundleIsATriangle(p: Platform, b: Bundle, first: Text, second: Text)
    requires FreeTerm(p) && ReadsFields(p)
    ensures GraphOf(p, b) != Triangle(first, second)
  {
    if GraphOf(p, b) == Triangle(first, second) {
      var content := ValidEntry(p, b, R);
      assert false;
    }
  }

  // ---------- The documented root rule cannot be met ----------

  // The manifest digest is no string of the manifest it digests, nor nested
  // in one.
  ghost predicate DigestIsFresh(p: Platform) {
    forall v: Value :: p.manifestDigest(v).Some? ==> ValueSize(v) < TextSize(p.manifestDigest(v).value)
  }

  lemma TextOfMember(v: Value, key: string)
    requires GetText(v, key).Some?
    ensures TextSize(GetText(v, key).value) <= ValueSize(v)
  {
    OccursInMember(GetText(v, key).value, v, key);
    OccursIsNoLarger(GetText(v, key).value, v);
  }

  lemma DigestCoversStatedRoot(p: Platform, manifest: Value, committed: Option<Text>)
    requires DigestIsFresh(p) && ManifestHolds(p, manifest, committed)
    requires GetText(manifest, "root_event_hash").Some?
    ensures TextSize(GetText(manifest, "root_event_hash").value) < TextSize(committed.value)
  {
    LookupElsewhere(manifest.members, "manifest_digest", "root_event_hash");
    TextOfMember(Object(Without(manifest.members, "manifest_digest")), "root_event_hash");
  }

  lemma RootCoversDigest(p: Platform, raw: string, root: Value, h: Text)
    requires FreeTerm(p) && ReadsFields(p) && p.parse(raw) == Some(root) && ReadEventHash(root) == Some(h)
    requires VerifyReceipt(p, raw).status.Valid? && CommittedDigest(root).Some?
    ensures TextSize(CommittedDigest(root).value) < TextSize(h)
  {
    var content := EnvelopeOf(p, raw).content;
    ValidNode(p, raw, h, NodeOf(p, raw).value.1);
    assert Get(root, "payload") == Some(content.payload);
    TextOfMember(content.payload, "closure_manifest_digest");
  }

  // A verifying root's hash covers the manifest digest it commits, which covers
  // whatever the manifest states as `root_event_hash`. So that is never the
  // root's hash: the rule that the two be equal, which the code does not check,
  // would reject every bundle.
  lemma StatedRootNeverMatches(p: Platform, b: Bundle, root: Value, h: Text)
    requires FreeTerm(p) && ReadsFields(p) && DigestIsFresh(p) && ListsSets(p)
    requires HasRoot(p, b, root, h) && VerifyBundle(p, Some(b)).status.Valid?
    ensures GetText(b.manifest, "root_event_hash") != Some(h)
  {
    VerdictIsExact(p, b, root, h);
    RootCoversDigest(p, b.rootCanonical, root, h);
    if GetText(b.manifest, "root_event_hash").Some? {
      DigestCoversStatedRoot(p, b.manifest, CommittedDigest(root));
    }
  }
}
