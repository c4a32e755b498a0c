// What the walk of src/closure_bundle.rs computes, in terms of paths.
module WalkTheorems {
  import opened Wrappers
  import opened Json
  import opened Receipts
  import opened Report
  import opened DependencyGraph
  import opened Walk

  // ---------- Soundness: only reachable nodes, only real cycles ----------

  // Everything found so far is reachable, and the stack leads to node h.
  ghost predicate Sound(index: Index, root: Text, h: Text, s: State) {
    && s.onStack <= s.reachable
    && (forall x :: x in s.reachable ==> Reaches(index, ResolvedOnly, root, x))
    && (forall x :: x in s.onStack ==> Reaches(index, ResolvedOnly, x, h))
    && (s.cycleDetected ==> ClosedByTypedEdge(index, root))
  }

  lemma {:induction false} VisitIsSound(index: Index, root: Text, h: Text, s: State)
    requires Sound(index, root, h, s) && Reaches(index, ResolvedOnly, root, h)
    ensures Sound(index, root, h, Visit(index, h, s))
    decreases index.Keys - s.reachable, 0
  {
    if h !in s.reachable {
      ReachesSelf(index, ResolvedOnly, h);
      if h in index {
        MembersAreSound(index, root, h, index[h].supportSet, Enter(h, s));
      }
    }
  }

  lemma {:induction false} MembersAreSound(index: Index, root: Text, h: Text, ms: seq<SupportMember>, s: State)
    requires Sound(index, root, h, s) && h in s.onStack && h in index
    requires forall m :: m in ms ==> m in index[h].supportSet
    ensures Sound(index, root, h, VisitMembers(index, ms, s))
    decreases index.Keys - s.reachable, 1 + |ms|
  {
    if ms != [] {
      var m := ms[0];
      var next := VisitMember(index, m, s);
      if m.TypedReceiptDependency? {
        assert Carries(index, AllTyped, m, m.eventHash);
        if m.eventHash in s.onStack {
          assert OnCycle(index, ResolvedOnly, AllTyped, root, h, m.eventHash);
        } else if CheckOf(index, m).value.status == Resolved {
          assert Carries(index, ResolvedOnly, m, m.eventHash);
          StackExtends(index, root, h, m.eventHash, Record(index, m, s));
          VisitIsSound(index, root, m.eventHash, Record(index, m, s));
        }
      }
      assert next.onStack == s.onStack;
      assert index.Keys - next.reachable <= index.Keys - s.reachable;
      MembersAreSound(index, root, h, ms[1..], next);
    }
  }

  lemma StackExtends(index: Index, root: Text, h: Text, t: Text, s: State)
    requires Sound(index, root, h, s) && h in s.reachable && Edge(index, ResolvedOnly, h, t)
    ensures Sound(index, root, t, s) && Reaches(index, ResolvedOnly, root, t)
  {
    ReachesStep(index, ResolvedOnly, root, h, t);
    forall x | x in s.onStack ensures Reaches(index, ResolvedOnly, x, t) {
      ReachesStep(index, ResolvedOnly, x, h, t);
    }
  }

  // ---------- Completeness: every reachable node, every resolved cycle ----------

  // Nodes that have been left: their resolved successors have been found.
  function Finished(s: State): set<Text> {
    s.reachable - s.onStack
  }

  // The finished nodes in an order in which every resolved edge leads backward.
  ghost predicate Topological(index: Index, order: seq<Text>) {
    forall i, v :: 0 <= i < |order| && Edge(index, ResolvedOnly, order[i], v) ==> v in order[..i]
  }

  ghost predicate Ordered(index: Index, order: seq<Text>, s: State) {
    && Topological(index, order)
    && (forall x :: x in order <==> x in Finished(s))
  }

  ghost predicate Closed(index: Index, s: State) {
    && s.onStack <= s.reachable
    && (forall u, v :: u in Finished(s) && Edge(index, ResolvedOnly, u, v) ==> v in s.reachable)
  }

  // Every resolved target of the members has been found.
  ghost predicate TargetsFound(index: Index, ms: seq<SupportMember>, found: set<Text>) {
    forall m, v :: m in ms && Carries(index, ResolvedOnly, m, v) ==> v in found
  }

  lemma {:induction false} VisitSettles(index: Index, h: Text, s: State)
    requires Closed(index, s)
    ensures Closed(index, Visit(index, h, s))
    decreases index.Keys - s.reachable, 0
  {
    if h !in s.reachable {
      var entered := Enter(h, s);
      assert Finished(entered) == Finished(s);
      if h in index {
        MembersSettle(index, index[h].supportSet, entered);
      }
    }
  }

  lemma {:induction false} MembersSettle(index: Index, ms: seq<SupportMember>, s: State)
    requires Closed(index, s)
    ensures Closed(index, VisitMembers(index, ms, s))
    ensures TargetsFound(index, ms, VisitMembers(index, ms, s).reachable)
    decreases index.Keys - s.reachable, 1 + |ms|
  {
    if ms != [] {
      var next := VisitMember(index, ms[0], s);
      if ms[0].TypedReceiptDependency? && CheckOf(index, ms[0]).value.status == Resolved {
        VisitSettles(index, ms[0].eventHash, Record(index, ms[0], s));
      }
      assert Closed(index, next);
      assert index.Keys - next.reachable <= index.Keys - s.reachable;
      MembersSettle(index, ms[1..], next);
    }
  }

  // As long as no cycle is flagged, leaving order is topological.
  lemma {:induction false} VisitOrders(index: Index, h: Text, s: State, order: seq<Text>) returns (order': seq<Text>)
    requires s.onStack <= s.reachable && Ordered(index, order, s)
    requires !Visit(index, h, s).cycleDetected
    ensures Ordered(index, order', Visit(index, h, s))
    decreases index.Keys - s.reachable, 0
  {
    order' := order;
    if h !in s.reachable {
      var entered := Enter(h, s);
      assert Finished(entered) == Finished(s);
      if h in index {
        order' := MembersOrder(index, index[h].supportSet, entered, order);
      }
      AppendKeepsOrder(index, order', h);
      order' := order' + [h];
    }
  }

  lemma AppendKeepsOrder(index: Index, order: seq<Text>, h: Text)
    requires Topological(index, order)
    requires forall v :: Edge(index, ResolvedOnly, h, v) ==> v in order
    ensures Topological(index, order + [h])
  {
    var longer := order + [h];
    forall i, v | 0 <= i < |longer| && Edge(index, ResolvedOnly, longer[i], v) ensures v in longer[..i] {
      if i < |order| {
        assert longer[..i] == order[..i];
      } else {
        assert longer[..i] == order;
      }
    }
  }

  lemma {:induction false} MembersOrder(index: Index, ms: seq<SupportMember>, s: State, order: seq<Text>)
    returns (order': seq<Text>)
    requires s.onStack <= s.reachable && Ordered(index, order, s)
    requires !VisitMembers(index, ms, s).cycleDetected
    ensures Ordered(index, order', VisitMembers(index, ms, s))
    ensures TargetsFound(index, ms, Finished(VisitMembers(index, ms, s)))
    decreases index.Keys - s.reachable, 1 + |ms|
  {
    order' := order;
    if ms != [] {
      var next := VisitMember(index, ms[0], s);
      assert !next.cycleDetected;
      if ms[0].TypedReceiptDependency? && CheckOf(index, ms[0]).value.status == Resolved {
        assert ms[0].eventHash !in s.onStack;
        order' := VisitOrders(index, ms[0].eventHash, Record(index, ms[0], s), order');
      }
      assert Ordered(index, order', next);
      assert index.Keys - next.reachable <= index.Keys - s.reachable;
      order' := MembersOrder(index, ms[1..], next, order');
    }
  }

  // No path leads from a node of a topological order back to it.
  lemma {:induction false} OrderDescends(index: Index, order: seq<Text>, i: nat, n: nat, v: Text)
    requires Topological(index, order) && i < |order| && n > 0
    requires PathOf(index, ResolvedOnly, n, order[i], v)
    ensures v in order[..i]
  {
    var w :| PathOf(index, ResolvedOnly, n - 1, order[i], w) && Edge(index, ResolvedOnly, w, v);
    if n > 1 {
      OrderDescends(index, order, i, n - 1, w);
      var j :| 0 <= j < i && order[j] == w;
      assert v in order[..j];
    }
  }

  lemma {:induction false} OrderHasNoCycle(index: Index, order: seq<Text>, i: nat, n: nat)
    requires Topological(index, order) && i < |order| && n > 0
    ensures !PathOf(index, ResolvedOnly, n, order[i], order[i])
    decreases i
  {
    if PathOf(index, ResolvedOnly, n, order[i], order[i]) {
      OrderDescends(index, order, i, n, order[i]);
      var j :| 0 <= j < i && order[j] == order[i];
      OrderHasNoCycle(index, order, j, n);
    }
  }

  // ---------- The main results ----------

  function WalkFrom(index: Index, root: Text): State {
    Visit(index, root, EMPTY)
  }

  // The walk finds exactly the nodes reachable by resolved edges, and leaves
  // the stack empty, on every graph.
  lemma ReachableIsExact(index: Index, root: Text)
    ensures forall v :: v in WalkFrom(index, root).reachable <==> Reaches(index, ResolvedOnly, root, v)
    ensures WalkFrom(index, root).onStack == {}
  {
    var r := WalkFrom(index, root);
    ReachesSelf(index, ResolvedOnly, root);
    VisitIsSound(index, root, root, EMPTY);
    VisitSettles(index, root, EMPTY);
    assert Finished(r) == r.reachable;
    forall v | Reaches(index, ResolvedOnly, root, v) ensures v in r.reachable {
      var n: nat :| PathOf(index, ResolvedOnly, n, root, v);
      PathStaysInside(index, r, root, n, v);
    }
  }

  lemma {:induction false} PathStaysInside(index: Index, s: State, u: Text, n: nat, v: Text)
    requires Closed(index, s) && s.onStack == {} && u in s.reachable
    requires PathOf(index, ResolvedOnly, n, u, v)
    ensures v in s.reachable
  {
    if n > 0 {
      var w :| PathOf(index, ResolvedOnly, n - 1, u, w) && Edge(index, ResolvedOnly, w, v);
      PathStaysInside(index, s, u, n - 1, w);
      assert w in Finished(s);
    }
  }

  // Cycle detection: every cycle of resolved edges is flagged, and the flag is
  // set only for a cycle closed by a typed edge.
  lemma CycleDetection(index: Index, root: Text)
    ensures Cyclic(index, ResolvedOnly, root) ==> WalkFrom(index, root).cycleDetected
    ensures WalkFrom(index, root).cycleDetected ==> ClosedByTypedEdge(index, root)
  {
    var r := WalkFrom(index, root);
    ReachableIsExact(index, root);
    ReachesSelf(index, ResolvedOnly, root);
    VisitIsSound(index, root, root, EMPTY);
    if Cyclic(index, ResolvedOnly, root) && !r.cycleDetected {
      var order := VisitOrders(index, root, EMPTY, []);
      var u, v :| OnCycle(index, ResolvedOnly, ResolvedOnly, root, u, v);
      assert u in order;
      var i :| 0 <= i < |order| && order[i] == u;
      var n := CycleLength(index, u, v);
      OrderHasNoCycle(index, order, i, n);
      assert false;
    }
  }

  lemma CycleLength(index: Index, u: Text, v: Text) returns (n: nat)
    requires Edge(index, ResolvedOnly, u, v) && Reaches(index, ResolvedOnly, v, u)
    ensures n > 0 && PathOf(index, ResolvedOnly, n, u, u)
  {
    var k: nat :| PathOf(index, ResolvedOnly, k, v, u);
    PrependEdge(index, u, v, k, u);
    n := k + 1;
  }

  lemma {:induction false} PrependEdge(index: Index, u: Text, v: Text, n: nat, w: Text)
    requires Edge(index, ResolvedOnly, u, v) && PathOf(index, ResolvedOnly, n, v, w)
    ensures PathOf(index, ResolvedOnly, n + 1, u, w)
  {
    if n == 0 {
      assert PathOf(index, ResolvedOnly, 0, u, u);
    } else {
      var x :| PathOf(index, ResolvedOnly, n - 1, v, x) && Edge(index, ResolvedOnly, x, w);
      PrependEdge(index, u, v, n - 1, x);
    }
  }

  // ---------- Edge checks: one per dependency member of each reachable node ----------

  function MemberChecks(index: Index, ms: seq<SupportMember>): seq<EdgeCheck> {
    if ms == [] then []
    else
      var first := CheckOf(index, ms[0]);
      (if first.Some? then [first.value] else []) + MemberChecks(index, ms[1..])
  }

  lemma MemberChecksCons(index: Index, ms: seq<SupportMember>)
    requires ms != []
    ensures MemberChecks(index, ms) == MemberChecks(index, [ms[0]]) + MemberChecks(index, ms[1..])
  {
  }

  function NodeChecks(index: Index, u: Text): seq<EdgeCheck> {
    if u in index then MemberChecks(index, index[u].supportSet) else []
  }

  function ChecksOf(index: Index, nodes: seq<Text>): seq<EdgeCheck> {
    if nodes == [] then [] else NodeChecks(index, nodes[0]) + ChecksOf(index, nodes[1..])
  }

  lemma {:induction false} ChecksOfConcat(index: Index, a: seq<Text>, b: seq<Text>)
    ensures ChecksOf(index, a + b) == ChecksOf(index, a) + ChecksOf(index, b)
  {
    if a == [] {
      assert a + b == b;
    } else {
      assert (a + b)[1..] == a[1..] + b;
      ChecksOfConcat(index, a[1..], b);
    }
  }

  // `nodes` lists the set once.
  ghost predicate Lists(nodes: seq<Text>, these: set<Text>) {
    && (forall x :: x in nodes <==> x in these)
    && (forall i, j :: 0 <= i < j < |nodes| ==> nodes[i] != nodes[j])
  }

  lemma ListsConcat(a: seq<Text>, b: seq<Text>, these: set<Text>, those: set<Text>)
    requires Lists(a, these) && Lists(b, those) && these !! those
    ensures Lists(a + b, these + those)
  {
    var c := a + b;
    forall i, j | 0 <= i < j < |c| ensures c[i] != c[j] {
      if i < |a| <= j {
        assert c[i] in a && c[j] in b;
      }
    }
  }

  // From s to r the walk recorded `own`, found these nodes, and recorded
  // their checks.
  ghost predicate Records(index: Index, s: State, r: State, own: seq<EdgeCheck>, found: seq<Text>) {
    && Lists(found, r.reachable - s.reachable)
    && multiset(r.edgeChecks) == multiset(s.edgeChecks) + multiset(own) + multiset(ChecksOf(index, found))
  }

  lemma RecordsCompose(index: Index, s: State, mid: State, r: State, own: seq<EdgeCheck>, more: seq<EdgeCheck>,
                       found: seq<Text>, rest: seq<Text>)
    requires s.reachable <= mid.reachable <= r.reachable
    requires Records(index, s, mid, own, found) && Records(index, mid, r, more, rest)
    ensures Records(index, s, r, own + more, found + rest)
  {
    ListsConcat(found, rest, mid.reachable - s.reachable, r.reachable - mid.reachable);
    assert (mid.reachable - s.reachable) + (r.reachable - mid.reachable) == r.reachable - s.reachable;
    ChecksOfConcat(index, found, rest);
  }

  lemma {:induction false} VisitRecords(index: Index, h: Text, s: State) returns (found: seq<Text>)
    ensures Records(index, s, Visit(index, h, s), [], found)
    decreases index.Keys - s.reachable, 0
  {
    found := [];
    if h !in s.reachable {
      var r := Visit(index, h, s);
      var entered := Enter(h, s);
      if h in index {
        found := MembersRecord(index, index[h].supportSet, entered);
      }
      ListsConcat([h], found, {h}, r.reachable - entered.reachable);
      assert {h} + (r.reachable - entered.reachable) == r.reachable - s.reachable;
      ChecksOfConcat(index, [h], found);
      assert ChecksOf(index, [h]) == NodeChecks(index, h);
      found := [h] + found;
    }
  }

  lemma {:induction false} MembersRecord(index: Index, ms: seq<SupportMember>, s: State) returns (found: seq<Text>)
    ensures Records(index, s, VisitMembers(index, ms, s), MemberChecks(index, ms), found)
    decreases index.Keys - s.reachable, 2 + |ms|
  {
    found := [];
    if ms != [] {
      var next := VisitMember(index, ms[0], s);
      found := MemberRecords(index, ms[0], s);
      assert index.Keys - next.reachable <= index.Keys - s.reachable;
      var rest := MembersRecord(index, ms[1..], next);
      var own := MemberChecks(index, [ms[0]]);
      RecordsCompose(index, s, next, VisitMembers(index, ms, s), own, MemberChecks(index, ms[1..]), found, rest);
      MemberChecksCons(index, ms);
      found := found + rest;
    }
  }

  lemma {:induction false} MemberRecords(index: Index, m: SupportMember, s: State) returns (found: seq<Text>)
    ensures Records(index, s, VisitMember(index, m, s), MemberChecks(index, [m]), found)
    decreases index.Keys - s.reachable, 1
  {
    found := [];
    if m.TypedReceiptDependency? && m.eventHash !in s.onStack && CheckOf(index, m).value.status == Resolved {
      found := VisitRecords(index, m.eventHash, Record(index, m, s));
    }
  }

  // The checks are, up to order, those of the reachable nodes' dependency
  // members: each reachable node is expanded exactly once.
  lemma EdgeChecksAreExact(index: Index, root: Text) returns (nodes: seq<Text>)
    ensures Lists(nodes, WalkFrom(index, root).reachable)
    ensures multiset(WalkFrom(index, root).edgeChecks) == multiset(ChecksOf(index, nodes))
  {
    nodes := VisitRecords(index, root, EMPTY);
    assert WalkFrom(index, root).reachable - {} == WalkFrom(index, root).reachable;
  }

  lemma {:induction false} MemberChecksMembers(index: Index, ms: seq<SupportMember>, c: EdgeCheck)
    ensures c in MemberChecks(index, ms) <==> exists m :: m in ms && CheckOf(index, m) == Some(c)
  {
    if ms != [] {
      MemberChecksMembers(index, ms[1..], c);
      assert forall m :: m in ms <==> m == ms[0] || m in ms[1..];
    }
  }

  lemma {:induction false} ChecksOfMembers(index: Index, nodes: seq<Text>, c: EdgeCheck)
    ensures c in ChecksOf(index, nodes) <==>
              exists u, m :: u in nodes && HasDependency(index, u, m) && CheckOf(index, m) == Some(c)
  {
    if nodes != [] {
      var u := nodes[0];
      ChecksOfMembers(index, nodes[1..], c);
      if u in index {
        MemberChecksMembers(index, index[u].supportSet, c);
      }
      if c in NodeChecks(index, u) {
        var m :| m in index[u].supportSet && CheckOf(index, m) == Some(c);
        assert HasDependency(index, u, m);
      }
      forall w, m | w in nodes && HasDependency(index, w, m) && CheckOf(index, m) == Some(c)
        ensures c in ChecksOf(index, nodes)
      {
        assert w == u || w in nodes[1..];
      }
    }
  }

  lemma EdgeCheckMembers(index: Index, root: Text, c: EdgeCheck)
    ensures c in WalkFrom(index, root).edgeChecks <==>
              exists u, m :: Reaches(index, ResolvedOnly, root, u) && HasDependency(index, u, m)
                && CheckOf(index, m) == Some(c)
  {
    ReachableIsExact(index, root);
    var nodes := EdgeChecksAreExact(index, root);
    ChecksOfMembers(index, nodes, c);
    assert c in multiset(WalkFrom(index, root).edgeChecks) <==> c in multiset(ChecksOf(index, nodes));
  }

  predicate NoEdgeOut(checks: seq<EdgeCheck>) {
    forall c :: c in checks ==> c.status == Resolved
  }

  // No recorded edge is out iff all dependency edges of the reachable graph resolve.
  lemma ChecksTellAllResolved(index: Index, root: Text)
    ensures NoEdgeOut(WalkFrom(index, root).edgeChecks) <==> AllResolved(index, root)
  {
    var checks := WalkFrom(index, root).edgeChecks;
    if NoEdgeOut(checks) {
      forall u, m | Reaches(index, ResolvedOnly, root, u) && HasDependency(index, u, m)
        ensures EdgeHolds(index, m)
      {
        EdgeCheckMembers(index, root, CheckOf(index, m).value);
        StatusMeaning(index, m);
      }
    }
    if AllResolved(index, root) {
      forall c | c in checks ensures c.status == Resolved {
        EdgeCheckMembers(index, root, c);
        var u, m :| Reaches(index, ResolvedOnly, root, u) && HasDependency(index, u, m) && CheckOf(index, m) == Some(c);
        StatusMeaning(index, m);
      }
    }
  }

  // ---------- The flag is exact when every dependency holds ----------

  lemma {:induction false} TypedPathResolves(index: Index, root: Text, u: Text, n: nat, v: Text)
    requires AllResolved(index, root) && Reaches(index, ResolvedOnly, root, u)
    requires PathOf(index, AllTyped, n, u, v)
    ensures Reaches(index, ResolvedOnly, u, v) && Reaches(index, ResolvedOnly, root, v)
  {
    if n == 0 {
      ReachesSelf(index, ResolvedOnly, u);
    } else {
      var w :| PathOf(index, AllTyped, n - 1, u, w) && Edge(index, AllTyped, w, v);
      TypedPathResolves(index, root, u, n - 1, w);
      TypedEdgeResolves(index, root, w, v);
      ReachesStep(index, ResolvedOnly, u, w, v);
      ReachesStep(index, ResolvedOnly, root, w, v);
    }
  }

  lemma TypedEdgeResolves(index: Index, root: Text, u: Text, v: Text)
    requires AllResolved(index, root) && Reaches(index, ResolvedOnly, root, u)
    requires Edge(index, AllTyped, u, v)
    ensures Edge(index, ResolvedOnly, u, v)
  {
    var m :| m in index[u].supportSet && Carries(index, AllTyped, m, v);
    assert HasDependency(index, u, m);
    assert Carries(index, ResolvedOnly, m, v);
  }

  lemma {:induction false} ResolvedPathIsTyped(index: Index, n: nat, u: Text, v: Text)
    requires PathOf(index, ResolvedOnly, n, u, v)
    ensures PathOf(index, AllTyped, n, u, v)
  {
    if n > 0 {
      var w :| PathOf(index, ResolvedOnly, n - 1, u, w) && Edge(index, ResolvedOnly, w, v);
      ResolvedPathIsTyped(index, n - 1, u, w);
      ResolvedIsTyped(index, w, v);
    }
  }

  lemma ResolvedReachIsTyped(index: Index, u: Text, v: Text)
    requires Reaches(index, ResolvedOnly, u, v)
    ensures Reaches(index, AllTyped, u, v)
  {
    var n: nat :| PathOf(index, ResolvedOnly, n, u, v);
    ResolvedPathIsTyped(index, n, u, v);
  }

  // When every reachable dependency holds, the flag says whether the typed
  // graph below the root has a cycle.
  lemma CycleFlagIsExact(index: Index, root: Text)
    requires AllResolved(index, root)
    ensures WalkFrom(index, root).cycleDetected <==> Cyclic(index, AllTyped, root)
  {
    CycleDetection(index, root);
    ReachesSelf(index, ResolvedOnly, root);
    if WalkFrom(index, root).cycleDetected {
      assert ClosedByTypedEdge(index, root);
      var u, v :| Reaches(index, ResolvedOnly, root, v) && OnCycle(index, ResolvedOnly, AllTyped, root, u, v);
      ResolvedReachIsTyped(index, root, u);
      ResolvedReachIsTyped(index, v, u);
      assert OnCycle(index, AllTyped, AllTyped, root, u, v);
    }
    if Cyclic(index, AllTyped, root) {
      var u, v :| OnCycle(index, AllTyped, AllTyped, root, u, v);
      var n: nat :| PathOf(index, AllTyped, n, root, u);
      TypedPathResolves(index, root, root, n, u);
      TypedEdgeResolves(index, root, u, v);
      ReachesStep(index, ResolvedOnly, root, u, v);
      var k: nat :| PathOf(index, AllTyped, k, v, u);
      TypedPathResolves(index, root, v, k, u);
      assert OnCycle(index, ResolvedOnly, ResolvedOnly, root, u, v);
    }
  }

  // ---------- Edges back to the root are always flagged ----------

  // The root is open, and every node left so far that has a typed edge back to
  // it, resolved or not, has been reported.
  ghost predicate BackEdgesFlagged(index: Index, root: Text, s: State) {
    && root in s.onStack && s.onStack <= s.reachable
    && forall u :: u in Finished(s) && Edge(index, AllTyped, u, root) ==> s.cycleDetected
  }

  lemma {:induction false} VisitFlags(index: Index, root: Text, h: Text, s: State)
    requires BackEdgesFlagged(index, root, s)
    ensures BackEdgesFlagged(index, root, Visit(index, h, s))
    decreases index.Keys - s.reachable, 0
  {
    if h !in s.reachable {
      assert Finished(Enter(h, s)) == Finished(s);
      if h in index {
        MembersFlag(index, root, index[h].supportSet, Enter(h, s));
      }
    }
  }

  lemma {:induction false} MembersFlag(index: Index, root: Text, ms: seq<SupportMember>, s: State)
    requires BackEdgesFlagged(index, root, s)
    ensures BackEdgesFlagged(index, root, VisitMembers(index, ms, s))
    ensures (exists m :: m in ms && Carries(index, AllTyped, m, root)) ==> VisitMembers(index, ms, s).cycleDetected
    decreases index.Keys - s.reachable, 1 + |ms|
  {
    if ms != [] {
      var next := VisitMember(index, ms[0], s);
      if && ms[0].TypedReceiptDependency? && ms[0].eventHash !in s.onStack
         && CheckOf(index, ms[0]).value.status == Resolved {
        VisitFlags(index, root, ms[0].eventHash, Record(index, ms[0], s));
      }
      assert BackEdgesFlagged(index, root, next);
      assert index.Keys - next.reachable <= index.Keys - s.reachable;
      MembersFlag(index, root, ms[1..], next);
    }
  }

  // On every graph, a typed edge back to the root is flagged, whether or not it
  // resolves.
  lemma BackEdgeToRootIsFlagged(index: Index, root: Text, u: Text)
    requires Reaches(index, ResolvedOnly, root, u) && Edge(index, AllTyped, u, root)
    ensures WalkFrom(index, root).cycleDetected
  {
    ReachableIsExact(index, root);
    var start := Enter(root, EMPTY);
    if root in index {
      MembersFlag(index, root, index[root].supportSet, start);
      assert u == root || u in Finished(VisitMembers(index, index[root].supportSet, start));
    }
  }

  // ---------- On arbitrary graphs the flag depends on support-set order ----------

  // Graphs as a test can hand them to the walk, with keys that are no hashes;
  // content addressing rules such cycles out of every bundle.
  //
  // Three verifying model receipts: r depends on u and v, in either order; v
  // depends on u, and u names v under the wrong schema.
  function Triangle(first: Text, second: Text): Index {
    map[Chars("r") := ModelNode([OnModel(first), OnModel(second)]),
        Chars("u") := ModelNode([TypedReceiptDependency(Chars("v"), None, PROVIDER_KIND)]),
        Chars("v") := ModelNode([OnModel(Chars("u"))])]
  }

  function ModelNode(supportSet: seq<SupportMember>): Node {
    Node(MODEL_KIND, supportSet, Valid, [])
  }

  function OnModel(h: Text): SupportMember {
    TypedReceiptDependency(h, None, MODEL_KIND)
  }

  const R := Chars("r")
  const U := Chars("u")
  const V := Chars("v")
  const CLOSING := TypedReceiptDependency(V, None, PROVIDER_KIND)

  lemma NamesDiffer()
    ensures R != U && U != V && R != V && MODEL_KIND != PROVIDER_KIND
  {
  }

  lemma StartingAtU()
    ensures !WalkFrom(Triangle(U, V), R).cycleDetected
  {
    NamesDiffer();
    var index := Triangle(U, V);
    var start := Enter(R, EMPTY);
    var atU := Record(index, OnModel(U), start);
    SingleMember(index, CLOSING, Enter(U, atU));
    assert index[U].supportSet == [CLOSING];
    assert VisitMember(index, CLOSING, Enter(U, atU)) == Record(index, CLOSING, Enter(U, atU));
    var afterU := VisitMember(index, OnModel(U), start);
    assert afterU == Visit(index, U, atU);
    assert afterU.reachable == {R, U} && afterU.onStack == {R} && !afterU.cycleDetected;
    var atV := Record(index, OnModel(V), afterU);
    SingleMember(index, OnModel(U), Enter(V, atV));
    assert index[V].supportSet == [OnModel(U)];
    assert VisitMember(index, OnModel(U), Enter(V, atV)) == Record(index, OnModel(U), Enter(V, atV));
    assert VisitMember(index, OnModel(V), afterU) == Visit(index, V, atV);
    TwoMembers(index, OnModel(U), OnModel(V), start);
  }

  lemma StartingAtV()
    ensures WalkFrom(Triangle(V, U), R).cycleDetected
  {
    NamesDiffer();
    var index := Triangle(V, U);
    var start := Enter(R, EMPTY);
    var inV := Enter(V, Record(index, OnModel(V), start));
    var inU := Enter(U, Record(index, OnModel(U), inV));
    SingleMember(index, CLOSING, inU);
    SingleMember(index, OnModel(U), inV);
    assert VisitMember(index, CLOSING, inU).cycleDetected;
    assert VisitMember(index, OnModel(U), inV).cycleDetected;
    TwoMembers(index, OnModel(V), OnModel(U), start);
  }

  // The cycle u -> v -> u, which avoids the root, is closed by an edge that does
  // not resolve. Starting with v it is flagged, starting with u it is not.
  lemma FlagDependsOnOrder()
    ensures ClosedByTypedEdge(Triangle(U, V), R) && !WalkFrom(Triangle(U, V), R).cycleDetected
    ensures ClosedByTypedEdge(Triangle(V, U), R) && WalkFrom(Triangle(V, U), R).cycleDetected
  {
    StartingAtU();
    StartingAtV();
    CycleDetection(Triangle(V, U), R);
    NamesDiffer();
    var index := Triangle(U, V);
    assert Carries(index, ResolvedOnly, OnModel(U), U) && Carries(index, AllTyped, CLOSING, V);
    assert Carries(index, ResolvedOnly, OnModel(V), V);
    ReachesSelf(index, ResolvedOnly, R);
    ReachesStep(index, ResolvedOnly, R, R, U);
    ReachesStep(index, ResolvedOnly, R, R, V);
    ReachesSelf(index, ResolvedOnly, V);
    ReachesStep(index, ResolvedOnly, V, V, U);
    assert OnCycle(index, ResolvedOnly, AllTyped, R, U, V);
  }

  lemma SingleMember(index: Index, m: SupportMember, s: State)
    ensures VisitMembers(index, [m], s) == VisitMember(index, m, s)
  {
  }

  lemma TwoMembers(index: Index, m: SupportMember, m': SupportMember, s: State)
    ensures VisitMembers(index, [m, m'], s) == VisitMember(index, m', VisitMember(index, m, s))
  {
    assert [m, m'][1..] == [m'];
    SingleMember(index, m', VisitMember(index, m, s));
  }

  // ---------- Locality ----------

  // Two indexes give the same answer for every key the walk of `index` looks up.
  ghost predicate AgreeOnWalk(index: Index, other: Index, found: set<Text>) {
    && (forall u :: u in found ==> Find(index, u) == Find(other, u))
    && (forall u, v :: u in found && Edge(index, AllTyped, u, v) ==> Find(index, v) == Find(other, v))
  }

  lemma {:induction false} VisitAgrees(index: Index, other: Index, found: set<Text>, h: Text, s: State)
    requires AgreeOnWalk(index, other, found) && Visit(index, h, s).reachable <= found
    ensures Visit(other, h, s) == Visit(index, h, s)
    decreases index.Keys - s.reachable, 0
  {
    if h !in s.reachable {
      assert Find(index, h) == Find(other, h);
      if h in index {
        MembersAgree(index, other, found, h, index[h].supportSet, Enter(h, s));
      }
    }
  }

  lemma {:induction false} MembersAgree(index: Index, other: Index, found: set<Text>, h: Text,
                                        ms: seq<SupportMember>, s: State)
    requires AgreeOnWalk(index, other, found) && VisitMembers(index, ms, s).reachable <= found
    requires h in index && h in found && forall m :: m in ms ==> m in index[h].supportSet
    ensures VisitMembers(other, ms, s) == VisitMembers(index, ms, s)
    decreases index.Keys - s.reachable, 1 + |ms|
  {
    if ms != [] {
      var m := ms[0];
      var next := VisitMember(index, m, s);
      if CheckOf(index, m).Some? {
        if m.TypedReceiptDependency? {
          assert Carries(index, AllTyped, m, m.eventHash);
        }
        assert CheckOf(index, m) == CheckOf(other, m);
        if m.TypedReceiptDependency? && CheckOf(index, m).value.status == Resolved && m.eventHash !in s.onStack {
          VisitAgrees(index, other, found, m.eventHash, Record(index, m, s));
        }
      }
      assert index.Keys - next.reachable <= index.Keys - s.reachable;
      MembersAgree(index, other, found, h, ms[1..], next);
    }
  }

  // The walk depends only on the entries it looks up.
  lemma WalkIsLocal(index: Index, other: Index, root: Text)
    requires AgreeOnWalk(index, other, WalkFrom(index, root).reachable)
    ensures WalkFrom(other, root) == WalkFrom(index, root)
  {
    VisitAgrees(index, other, WalkFrom(index, root).reachable, root, EMPTY);
  }
}
