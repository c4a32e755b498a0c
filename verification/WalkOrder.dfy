// The order in which the walk of src/closure_bundle.rs records its checks.
module WalkOrder {
  import opened Wrappers
  import opened Json
  import opened Receipts
  import opened DependencyGraph
  import opened Walk
  import opened WalkTheorems

  // ---------- Trails ----------

  // One dependency member of one node: its position in the node's support set.
  datatype Step = Step(node: Text, position: nat)

  predicate IsStep(index: Index, x: Step) {
    && x.node in index && x.position < |index[x.node].supportSet|
    && CheckOf(index, index[x.node].supportSet[x.position]).Some?
  }

  function MemberOf(index: Index, x: Step): SupportMember
    requires IsStep(index, x)
  {
    index[x.node].supportSet[x.position]
  }

  function StepCheck(index: Index, x: Step): EdgeCheck
    requires IsStep(index, x)
  {
    CheckOf(index, MemberOf(index, x)).value
  }

  // The step's edge resolves to v.
  predicate Opens(index: Index, x: Step, v: Text) {
    IsStep(index, x) && Carries(index, ResolvedOnly, MemberOf(index, x), v)
  }

  // The first step whose edge resolves to v is step i.
  ghost predicate FirstOpens(index: Index, t: seq<Step>, i: nat, v: Text) {
    i < |t| && Opens(index, t[i], v) && forall j :: 0 <= j < i ==> !Opens(index, t[j], v)
  }

  predicate Started(t: seq<Step>, n: nat, u: Text)
    requires n <= |t|
  {
    exists j :: 0 <= j < n && t[j].node == u
  }

  // Step i is the first of its node.
  predicate Enters(t: seq<Step>, i: nat) {
    i < |t| && !Started(t, i, t[i].node)
  }

  // The same node's steps i and j are not in the order of its members.
  predicate OutOfOrder(t: seq<Step>, i: nat, j: nat) {
    i < j < |t| && t[i].node == t[j].node && t[i].position >= t[j].position
  }

  // The steps of two nodes alternate.
  predicate Alternate(t: seq<Step>, a: nat, b: nat, c: nat, d: nat) {
    a < b < c < d < |t| && t[a].node == t[c].node && t[b].node == t[d].node && t[a].node != t[b].node
  }

  // The members of a node are taken in support-set order.
  ghost predicate InMemberOrder(t: seq<Step>) {
    forall i, j :: !OutOfOrder(t, i, j)
  }

  // A node is entered by the step right after the first edge that resolves to it.
  ghost predicate EnteredAtOnce(index: Index, root: Text, t: seq<Step>) {
    forall i: nat :: Enters(t, i) && t[i].node != root ==> i > 0 && FirstOpens(index, t, i - 1, t[i].node)
  }

  // A node is resumed only when every node entered since is done.
  ghost predicate Nested(t: seq<Step>) {
    forall a, b, c, d :: !Alternate(t, a, b, c, d)
  }

  // The steps of all nodes that can be reached, each once, depth first.
  ghost predicate Trail(index: Index, root: Text, t: seq<Step>) {
    && (forall x :: x in t <==> IsStep(index, x) && Reaches(index, ResolvedOnly, root, x.node))
    && InMemberOrder(t) && EnteredAtOnce(index, root, t) && Nested(t)
  }

  // ---------- There is only one trail ----------

  // Each step stands in one place.
  lemma StepStandsOnce(t: seq<Step>, i: nat, j: nat)
    requires InMemberOrder(t) && i < |t| && j < |t| && t[i] == t[j]
    ensures i == j
  {
    assert !OutOfOrder(t, i, j) && !OutOfOrder(t, j, i);
  }

  // Where the next step of t stands in t', which agrees with t so far.
  lemma StandsLater(t: seq<Step>, t': seq<Step>, n: nat) returns (m: nat)
    requires n < |t| && n <= |t'| && t[..n] == t'[..n] && InMemberOrder(t) && t[n] in t'
    ensures n <= m < |t'| && t'[m] == t[n]
  {
    m :| 0 <= m < |t'| && t'[m] == t[n];
    if m < n {
      assert t[..n][m] == t'[..n][m];
      StepStandsOnce(t, m, n);
    }
  }

  // Two trails that agree up to n, and whose next steps are at one node, agree there.
  lemma SamePosition(t: seq<Step>, t': seq<Step>, n: nat)
    requires InMemberOrder(t) && InMemberOrder(t')
    requires n < |t| && n < |t'| && t[..n] == t'[..n] && t[n].node == t'[n].node && t[n] in t'
    ensures t'[n].position <= t[n].position
  {
    var m := StandsLater(t, t', n);
    assert !OutOfOrder(t', n, m);
  }

  // The next step of a trail enters the node that the step before it opens, if
  // that is the first edge to it and the node has steps.
  lemma NextEnters(index: Index, root: Text, t: seq<Step>, n: nat, v: Text, x: Step)
    requires EnteredAtOnce(index, root, t) && 0 < n <= |t| && v != root
    requires FirstOpens(index, t, n - 1, v) && x in t && x.node == v
    ensures n < |t| && t[n].node == v && !Started(t, n, v)
  {
    var k: nat :| k < |t| && t[k] == x;
    var i := LeastStep(t, k);
    assert Enters(t, i);
    assert FirstOpens(index, t, i - 1, v);
    assert i - 1 == n - 1;
  }

  lemma {:induction false} LeastStep(t: seq<Step>, n: nat) returns (i: nat)
    requires n < |t|
    ensures i <= n && t[i].node == t[n].node && Enters(t, i)
    decreases n
  {
    if j :| 0 <= j < n && t[j].node == t[n].node {
      i := LeastStep(t, j);
    } else {
      i := n;
    }
  }

  lemma SameOpening(index: Index, t: seq<Step>, t': seq<Step>, n: nat, i: nat, v: Text)
    requires n <= |t| && n <= |t'| && t[..n] == t'[..n] && i < n && FirstOpens(index, t, i, v)
    ensures FirstOpens(index, t', i, v)
  {
    forall j | 0 <= j <= i ensures t'[j] == t[j] {
      assert t[..n][j] == t'[..n][j];
    }
  }

  // A node entered by one trail at n is entered there by the other.
  lemma EnteredByBoth(index: Index, root: Text, t: seq<Step>, t': seq<Step>, n: nat)
    requires EnteredAtOnce(index, root, t) && EnteredAtOnce(index, root, t')
    requires n < |t| && n < |t'| && t[..n] == t'[..n] && Enters(t, n) && t[n] in t'
    ensures t'[n].node == t[n].node
  {
    var u := t[n].node;
    if u == root {
      RootIsFirst(index, root, t);
      assert n == 0;
      RootIsFirst(index, root, t');
    } else {
      SameOpening(index, t, t', n, n - 1, u);
      NextEnters(index, root, t', n, u, t[n]);
    }
  }

  lemma RootIsFirst(index: Index, root: Text, t: seq<Step>)
    requires EnteredAtOnce(index, root, t) && t != []
    ensures t[0].node == root
  {
    assert Enters(t, 0);
  }

  // Of two nodes that have steps before n and after, only the one with the later
  // last step can go on.
  lemma ResumedByBoth(t: seq<Step>, t': seq<Step>, n: nat)
    requires InMemberOrder(t) && InMemberOrder(t') && Nested(t) && Nested(t')
    requires n < |t| && n < |t'| && t[..n] == t'[..n] && t[n] in t' && t'[n] in t
    requires Started(t, n, t[n].node) && Started(t', n, t'[n].node)
    ensures t'[n].node == t[n].node
  {
    var mu := StandsLater(t, t', n);
    var mw := StandsLater(t', t, n);
    var i: nat :| i < n && t[i].node == t[n].node;
    var j: nat :| j < n && t'[j].node == t'[n].node;
    assert t[..n][i] == t'[..n][i] && t[..n][j] == t'[..n][j];
    assert !Alternate(t, i, j, n, mw) && !Alternate(t', j, i, n, mu);
  }

  lemma SameNext(index: Index, root: Text, t: seq<Step>, t': seq<Step>, n: nat)
    requires Trail(index, root, t) && Trail(index, root, t')
    requires n < |t| && n < |t'| && t[..n] == t'[..n]
    ensures t[n] == t'[n]
  {
    assert t[n] in t' && t'[n] in t;
    if !Started(t, n, t[n].node) {
      EnteredByBoth(index, root, t, t', n);
    } else if !Started(t', n, t'[n].node) {
      EnteredByBoth(index, root, t', t, n);
    } else {
      ResumedByBoth(t, t', n);
    }
    SamePosition(t, t', n);
    SamePosition(t', t, n);
  }

  predicate Agree(t: seq<Step>, t': seq<Step>, n: nat) {
    n <= |t| && n <= |t'| && forall i :: 0 <= i < n ==> t[i] == t'[i]
  }

  lemma AgreeingPrefix(t: seq<Step>, t': seq<Step>, n: nat)
    requires Agree(t, t', n)
    ensures t[..n] == t'[..n]
  {
  }

  // Where the two agree up to k they also agree at k.
  predicate AgreesNext(t: seq<Step>, t': seq<Step>, k: nat) {
    Agree(t, t', k) && k < |t| && k < |t'| ==> t[k] == t'[k]
  }

  lemma {:induction false} AgreeThroughout(t: seq<Step>, t': seq<Step>, n: nat)
    requires n <= |t| && n <= |t'| && forall k: nat :: AgreesNext(t, t', k)
    ensures Agree(t, t', n)
  {
    if n > 0 {
      AgreeThroughout(t, t', n - 1);
      assert AgreesNext(t, t', n - 1);
    }
  }

  lemma SameUpTo(index: Index, root: Text, t: seq<Step>, t': seq<Step>, n: nat)
    requires Trail(index, root, t) && Trail(index, root, t') && n <= |t| && n <= |t'|
    ensures t[..n] == t'[..n]
  {
    forall k: nat ensures AgreesNext(t, t', k) {
      if Agree(t, t', k) && k < |t| && k < |t'| {
        AgreeingPrefix(t, t', k);
        SameNext(index, root, t, t', k);
      }
    }
    AgreeThroughout(t, t', n);
    AgreeingPrefix(t, t', n);
  }

  lemma NoShorter(index: Index, root: Text, t: seq<Step>, t': seq<Step>)
    requires Trail(index, root, t) && Trail(index, root, t')
    ensures |t'| <= |t|
  {
    if |t| < |t'| {
      SameUpTo(index, root, t, t', |t|);
      assert t'[|t|] in t;
      var m := StandsLater(t', t, |t|);
    }
  }

  // The rules of a trail leave no choice.
  lemma TrailIsUnique(index: Index, root: Text, t: seq<Step>, t': seq<Step>)
    requires Trail(index, root, t) && Trail(index, root, t')
    ensures t == t'
  {
    NoShorter(index, root, t, t');
    NoShorter(index, root, t', t);
    SameUpTo(index, root, t, t', |t|);
  }

  // Between two steps of a node stand only steps of that node and of nodes first
  // opened since the earlier of them.
  lemma BetweenIsBelow(index: Index, root: Text, t: seq<Step>, i: nat, k: nat, j: nat)
    requires Trail(index, root, t) && i < k < j < |t|
    requires t[i].node == t[j].node && t[k].node != t[i].node && t[k].node != root
    ensures exists f: nat :: i <= f < k && FirstOpens(index, t, f, t[k].node)
  {
    var first := LeastStep(t, k);
    assert !Alternate(t, first, i, k, j);
    assert first > 0 && FirstOpens(index, t, first - 1, t[k].node);
  }

  // ---------- The walk follows the trail ----------

  // The nodes on the way from the root to u, by the edges that first opened them.
  ghost predicate Above(index: Index, root: Text, t: seq<Step>, n: nat, u: Text, v: Text)
    decreases n
  {
    u == v || (u != root && exists j: nat :: OpenedFrom(index, t, n, j, u) && Above(index, root, t, j, t[j].node, v))
  }

  ghost predicate OpenedFrom(index: Index, t: seq<Step>, n: nat, j: nat, u: Text) {
    j < n && FirstOpens(index, t, j, u)
  }

  // Step i is a typed edge back to a node on the way to its own.
  ghost predicate BackStep(index: Index, root: Text, t: seq<Step>, i: nat) {
    && i < |t| && IsStep(index, t[i])
    && MemberOf(index, t[i]).TypedReceiptDependency?
    && Above(index, root, t, i, t[i].node, MemberOf(index, t[i]).eventHash)
  }

  lemma {:induction false} AboveSamePrefix(index: Index, root: Text, t: seq<Step>, t': seq<Step>, n: nat, u: Text,
                                           v: Text)
    requires n <= |t| && n <= |t'| && t[..n] == t'[..n]
    ensures Above(index, root, t, n, u, v) <==> Above(index, root, t', n, u, v)
    decreases n
  {
    forall j: nat | j < n
      ensures OpenedFrom(index, t, n, j, u) <==> OpenedFrom(index, t', n, j, u)
      ensures t[j] == t'[j]
      ensures Above(index, root, t, j, t[j].node, v) <==> Above(index, root, t', j, t'[j].node, v)
    {
      SamePrefix(t, t', n, j);
      AboveSamePrefix(index, root, t, t', j, t[j].node, v);
    }
  }

  lemma SamePrefix(t: seq<Step>, t': seq<Step>, n: nat, j: nat)
    requires j <= n <= |t| && n <= |t'| && t[..n] == t'[..n]
    ensures t[..j] == t'[..j] && forall i :: 0 <= i < j ==> t[i] == t'[i]
    ensures j < n ==> t[j] == t'[j]
  {
    assert t[..j] == t[..n][..j] && t'[..j] == t'[..n][..j];
    forall i | 0 <= i < n ensures t[i] == t'[i] {
      assert t[..n][i] == t'[..n][i];
    }
  }

  // u's place in the walk is known: it is the root or has been opened.
  ghost predicate Placed(index: Index, root: Text, t: seq<Step>, u: Text) {
    u == root || exists j: nat :: FirstOpens(index, t, j, u)
  }

  lemma AboveOpened(index: Index, root: Text, t: seq<Step>, n: nat, j: nat, u: Text, v: Text)
    requires OpenedFrom(index, t, n, j, u) && u != root
    ensures Above(index, root, t, n, u, v) <==> u == v || Above(index, root, t, j, t[j].node, v)
  {
    forall i: nat | OpenedFrom(index, t, n, i, u) ensures i == j {
    }
  }

  lemma AboveLater(index: Index, root: Text, t: seq<Step>, t': seq<Step>, u: Text, v: Text)
    requires t <= t' && Placed(index, root, t, u)
    ensures Above(index, root, t', |t'|, u, v) <==> Above(index, root, t, |t|, u, v)
    ensures Placed(index, root, t', u)
  {
    if u != root {
      var j: nat :| FirstOpens(index, t, j, u);
      assert FirstOpens(index, t', j, u);
      AboveOpened(index, root, t, |t|, j, u, v);
      AboveOpened(index, root, t', |t'|, j, u, v);
      AboveSamePrefix(index, root, t, t', j, t[j].node, v);
    }
  }

  lemma BackStepStays(index: Index, root: Text, t: seq<Step>, t': seq<Step>, i: nat)
    requires t <= t' && i < |t|
    ensures BackStep(index, root, t', i) <==> BackStep(index, root, t, i)
  {
    if IsStep(index, t[i]) && MemberOf(index, t[i]).TypedReceiptDependency? {
      AboveSamePrefix(index, root, t, t', i, t[i].node, MemberOf(index, t[i]).eventHash);
    }
  }

  // Every recorded check is that of a step of a node that has been found.
  ghost predicate Recorded(index: Index, t: seq<Step>, s: State) {
    && |t| == |s.edgeChecks|
    && forall i :: 0 <= i < |t| ==> Entry(index, t[i], s.edgeChecks[i], s.reachable)
  }

  predicate Entry(index: Index, x: Step, c: EdgeCheck, found: set<Text>) {
    IsStep(index, x) && c == StepCheck(index, x) && x.node in found
  }

  ghost predicate WellOrdered(index: Index, root: Text, t: seq<Step>) {
    InMemberOrder(t) && EnteredAtOnce(index, root, t) && Nested(t)
  }

  // Every node opened has been found.
  ghost predicate OpenedWithin(index: Index, t: seq<Step>, found: set<Text>) {
    forall x, v :: x in t && Opens(index, x, v) ==> v in found
  }

  // All steps of these nodes have been taken.
  ghost predicate Complete(index: Index, t: seq<Step>, nodes: set<Text>) {
    forall x :: IsStep(index, x) && x.node in nodes ==> x in t
  }

  // Exactly the steps of u before position k have been taken.
  ghost predicate UpTo(index: Index, t: seq<Step>, u: Text, k: nat) {
    && (forall x :: x in t && x.node == u ==> x.position < k)
    && (forall x :: IsStep(index, x) && x.node == u && x.position < k ==> x in t)
  }

  predicate Straddles(t: seq<Step>, a: nat, b: nat, c: nat, u: Text) {
    a < b < c < |t| && t[a].node == t[c].node && t[b].node == u && t[a].node != u
  }

  // No other node has steps both before and after one of u's.
  ghost predicate Clear(t: seq<Step>, u: Text) {
    forall a, b, c :: !Straddles(t, a, b, c, u)
  }

  // u may take its next step now.
  ghost predicate Ready(index: Index, root: Text, t: seq<Step>, u: Text) {
    u == root || Started(t, |t|, u) || (|t| > 0 && FirstOpens(index, t, |t| - 1, u))
  }

  // The steps added are at node h or at nodes not found before.
  ghost predicate Adds(t: seq<Step>, t': seq<Step>, h: Text, found: set<Text>) {
    t <= t' && forall i: nat :: |t| <= i < |t'| ==> t'[i].node == h || t'[i].node !in found
  }

  // The stack is the way to h, and the flag says whether an edge led back to the
  // way to its own node.
  ghost predicate Tracked(index: Index, root: Text, h: Text, t: seq<Step>, s: State) {
    && root in s.onStack && Placed(index, root, t, h)
    && (forall v :: v in s.onStack <==> Above(index, root, t, |t|, h, v))
    && Flagged(index, root, t, s)
  }

  ghost predicate Flagged(index: Index, root: Text, t: seq<Step>, s: State) {
    s.cycleDetected <==> exists i :: BackStep(index, root, t, i)
  }

  // What holds while the members of h from k on are still to be taken.
  ghost predicate Inside(index: Index, root: Text, h: Text, k: nat, s: State, t: seq<Step>) {
    && h in index && k <= |index[h].supportSet| && h in s.onStack && s.onStack <= s.reachable
    && Recorded(index, t, s) && WellOrdered(index, root, t) && OpenedWithin(index, t, s.reachable)
    && Clear(t, h) && UpTo(index, t, h, k) && Ready(index, root, t, h)
    && Tracked(index, root, h, t, s)
  }

  lemma AppendInMemberOrder(t: seq<Step>, x: Step)
    requires InMemberOrder(t) && forall y :: y in t && y.node == x.node ==> y.position < x.position
    ensures InMemberOrder(t + [x])
  {
    var longer := t + [x];
    forall i: nat, j: nat ensures !OutOfOrder(longer, i, j) {
      assert !OutOfOrder(t, i, j);
      assert i < |t| ==> longer[i] in t;
    }
  }

  lemma AppendEntered(index: Index, root: Text, t: seq<Step>, x: Step)
    requires EnteredAtOnce(index, root, t) && Ready(index, root, t, x.node)
    ensures EnteredAtOnce(index, root, t + [x]) && Ready(index, root, t + [x], x.node)
  {
    var longer := t + [x];
    forall i: nat | Enters(longer, i) && longer[i].node != root
      ensures i > 0 && FirstOpens(index, longer, i - 1, longer[i].node)
    {
      EntersBefore(t, x, i);
      assert FirstOpens(index, t, i - 1, longer[i].node);
    }
    assert longer[|t|].node == x.node;
  }

  lemma EntersBefore(t: seq<Step>, x: Step, i: nat)
    requires Enters(t + [x], i)
    ensures if i < |t| then Enters(t, i) && (t + [x])[i] == t[i] else i == |t| && !Started(t, |t|, x.node)
  {
    var longer := t + [x];
    assert forall j :: 0 <= j < |t| ==> longer[j] == t[j];
  }

  lemma AppendNested(t: seq<Step>, x: Step)
    requires Nested(t) && Clear(t, x.node)
    ensures Nested(t + [x]) && Clear(t + [x], x.node)
  {
    var longer := t + [x];
    forall a: nat, b: nat, c: nat, d: nat ensures !Alternate(longer, a, b, c, d) {
      assert !Alternate(t, a, b, c, d);
      assert !Straddles(t, a, b, c, x.node);
    }
    forall a: nat, b: nat, c: nat ensures !Straddles(longer, a, b, c, x.node) {
      assert !Straddles(t, a, b, c, x.node);
    }
  }

  // New nodes cannot straddle an old one.
  lemma ClearStays(t: seq<Step>, t': seq<Step>, h: Text, found: set<Text>)
    requires Clear(t, h) && t <= t' && h in found
    requires forall x :: x in t ==> x.node in found
    requires forall i: nat :: |t| <= i < |t'| ==> t'[i].node !in found
    ensures Clear(t', h)
  {
    forall a: nat, b: nat, c: nat ensures !Straddles(t', a, b, c, h) {
      assert !Straddles(t, a, b, c, h);
      assert forall i :: 0 <= i < |t| ==> t[i] in t;
    }
  }

  lemma NodesFound(index: Index, t: seq<Step>, s: State)
    requires Recorded(index, t, s)
    ensures forall x :: x in t ==> IsStep(index, x) && x.node in s.reachable
  {
    forall x | x in t ensures IsStep(index, x) && x.node in s.reachable {
      var i: nat :| i < |t| && t[i] == x;
      assert Entry(index, t[i], s.edgeChecks[i], s.reachable);
    }
  }

  // The state after the check of a member has been recorded and the stack consulted.
  function Noticed(index: Index, m: SupportMember, s: State): State
    requires CheckOf(index, m).Some?
  {
    var checked := Record(index, m, s);
    if m.TypedReceiptDependency? && m.eventHash in s.onStack then checked.(cycleDetected := true) else checked
  }

  lemma TakeRecorded(index: Index, t: seq<Step>, x: Step, s: State)
    requires Recorded(index, t, s) && IsStep(index, x) && x.node in s.reachable
    ensures Recorded(index, t + [x], Noticed(index, MemberOf(index, x), s))
  {
    var longer, after := t + [x], Noticed(index, MemberOf(index, x), s);
    forall i | 0 <= i < |longer| ensures Entry(index, longer[i], after.edgeChecks[i], s.reachable) {
      if i < |t| {
        assert Entry(index, t[i], s.edgeChecks[i], s.reachable);
      }
    }
  }

  lemma TakeUpTo(index: Index, t: seq<Step>, x: Step)
    requires UpTo(index, t, x.node, x.position)
    ensures UpTo(index, t + [x], x.node, x.position + 1)
  {
    forall y | IsStep(index, y) && y.node == x.node && y.position < x.position + 1 ensures y in t + [x] {
      assert y == x || y.position < x.position;
    }
  }

  lemma TakeFlagged(index: Index, root: Text, t: seq<Step>, x: Step, s: State)
    requires IsStep(index, x) && Tracked(index, root, x.node, t, s)
    ensures Flagged(index, root, t + [x], Noticed(index, MemberOf(index, x), s))
  {
    var longer, m := t + [x], MemberOf(index, x);
    forall i: nat | i < |t| ensures BackStep(index, root, longer, i) <==> BackStep(index, root, t, i) {
      BackStepStays(index, root, t, longer, i);
    }
    assert BackStep(index, root, longer, |t|) <==> m.TypedReceiptDependency? && m.eventHash in s.onStack by {
      assert longer[..|t|] == t[..|t|];
      if m.TypedReceiptDependency? {
        AboveSamePrefix(index, root, t, longer, |t|, x.node, m.eventHash);
      }
    }
    var after := Noticed(index, m, s);
    if after.cycleDetected {
      if s.cycleDetected {
        var i: nat :| BackStep(index, root, t, i);
        assert BackStep(index, root, longer, i);
      } else {
        assert BackStep(index, root, longer, |t|);
      }
    }
    if i: nat :| BackStep(index, root, longer, i) {
      assert i < |t| ==> BackStep(index, root, t, i);
    }
  }

  lemma TrackedLater(index: Index, root: Text, h: Text, t: seq<Step>, t': seq<Step>, s: State, r: State)
    requires Tracked(index, root, h, t, s) && t <= t' && r.onStack == s.onStack && Flagged(index, root, t', r)
    ensures Tracked(index, root, h, t', r)
  {
    forall v ensures Above(index, root, t', |t'|, h, v) <==> Above(index, root, t, |t|, h, v) {
      AboveLater(index, root, t, t', h, v);
    }
    AboveLater(index, root, t, t', h, h);
  }

  // Taking the step leaves everything in place but what the step opens.
  lemma TakeStep(index: Index, root: Text, h: Text, k: nat, s: State, t: seq<Step>)
    requires Inside(index, root, h, k, s, t) && IsStep(index, Step(h, k))
    ensures var x := Step(h, k);
            var longer, after := t + [x], Noticed(index, MemberOf(index, x), s);
            && Recorded(index, longer, after) && WellOrdered(index, root, longer) && Clear(longer, h)
            && UpTo(index, longer, h, k + 1) && Ready(index, root, longer, h)
            && Tracked(index, root, h, longer, after)
  {
    var x := Step(h, k);
    TakeRecorded(index, t, x, s);
    TakeUpTo(index, t, x);
    TakeFlagged(index, root, t, x, s);
    TrackedLater(index, root, h, t, t + [x], s, Noticed(index, MemberOf(index, x), s));
    AppendInMemberOrder(t, x);
    AppendEntered(index, root, t, x);
    AppendNested(t, x);
  }

  // What the walk needs to know before it visits v.
  ghost predicate Outside(index: Index, root: Text, v: Text, s: State, t: seq<Step>) {
    && s.onStack <= s.reachable
    && Recorded(index, t, s) && WellOrdered(index, root, t) && OpenedWithin(index, t, s.reachable + {v})
    && Flagged(index, root, t, s)
    && (v !in s.reachable ==>
          Ready(index, root, t, v) && Tracked(index, root, v, t, s.(onStack := s.onStack + {v})))
  }

  // A node opened for the first time is ready, and the stack with it is the way to it.
  lemma StepOpens(index: Index, root: Text, h: Text, k: nat, s: State, t: seq<Step>, v: Text)
    requires Inside(index, root, h, k, s, t) && Opens(index, Step(h, k), v) && v !in s.onStack
    ensures Outside(index, root, v, Noticed(index, MemberOf(index, Step(h, k)), s), t + [Step(h, k)])
  {
    var x := Step(h, k);
    TakeStep(index, root, h, k, s, t);
    OpenedMore(index, t, x, v, s.reachable);
    if v !in s.reachable {
      NewlyOpened(index, t, x, v, s.reachable);
      ChildTracked(index, root, t, x, v, s, Noticed(index, MemberOf(index, x), s));
    }
  }

  lemma OpenedMore(index: Index, t: seq<Step>, x: Step, v: Text, found: set<Text>)
    requires OpenedWithin(index, t, found) && Opens(index, x, v)
    ensures OpenedWithin(index, t + [x], found + {v})
  {
    assert forall y :: y in t + [x] ==> y in t || y == x;
  }

  lemma ChildTracked(index: Index, root: Text, t: seq<Step>, x: Step, v: Text, s: State, after: State)
    requires Tracked(index, root, x.node, t, s) && FirstOpens(index, t + [x], |t|, v) && v !in s.onStack
    requires after.onStack == s.onStack && Flagged(index, root, t + [x], after)
    ensures Tracked(index, root, v, t + [x], after.(onStack := after.onStack + {v}))
  {
    var longer := t + [x];
    forall w ensures w in s.onStack + {v} <==> Above(index, root, longer, |longer|, v, w) {
      AboveChild(index, root, t, longer, v, w);
    }
    FlagIgnoresStack(index, root, longer, after, after.(onStack := after.onStack + {v}));
  }

  lemma FlagIgnoresStack(index: Index, root: Text, t: seq<Step>, s: State, r: State)
    requires Flagged(index, root, t, s) && r.cycleDetected == s.cycleDetected
    ensures Flagged(index, root, t, r)
  {
  }

  lemma NewlyOpened(index: Index, t: seq<Step>, x: Step, v: Text, found: set<Text>)
    requires OpenedWithin(index, t, found) && Opens(index, x, v) && v !in found
    ensures FirstOpens(index, t + [x], |t|, v) && (t + [x])[|t|] == x
  {
    assert forall j :: 0 <= j < |t| ==> (t + [x])[j] in t;
  }

  lemma AboveChild(index: Index, root: Text, t: seq<Step>, longer: seq<Step>, v: Text, w: Text)
    requires |longer| == |t| + 1 && longer[..|t|] == t && v != root && FirstOpens(index, longer, |t|, v)
    ensures Above(index, root, longer, |longer|, v, w) <==>
              v == w || Above(index, root, t, |t|, longer[|t|].node, w)
  {
    assert longer[..|t|] == t[..|t|];
    AboveSamePrefix(index, root, t, longer, |t|, longer[|t|].node, w);
    AboveOpened(index, root, longer, |longer|, |t|, v, w);
  }

  // What a visit has done: every node it found has all its steps, and no step of
  // another node was added.
  ghost predicate Visited(index: Index, root: Text, s: State, r: State, t: seq<Step>, t': seq<Step>) {
    && Recorded(index, t', r) && WellOrdered(index, root, t') && OpenedWithin(index, t', r.reachable)
    && Flagged(index, root, t', r) && Complete(index, t', r.reachable - s.reachable)
    && t <= t' && forall i: nat :: |t| <= i < |t'| ==> t'[i].node !in s.reachable
  }

  lemma {:induction false} TraceVisit(index: Index, root: Text, v: Text, s: State, t: seq<Step>)
    returns (t': seq<Step>)
    requires Outside(index, root, v, s, t)
    ensures Visited(index, root, s, Visit(index, v, s), t, t')
    decreases index.Keys - s.reachable, 0, 0
  {
    t' := t;
    if v !in s.reachable {
      if v in index {
        EnterNode(index, root, v, s, t);
        t' := TraceMembers(index, root, v, 0, Enter(v, s), t);
        assert index[v].supportSet[0..] == index[v].supportSet;
        LeaveNode(index, root, v, s, VisitMembers(index, index[v].supportSet, Enter(v, s)), t, t');
      } else {
        RecordedMore(index, t, s, Visit(index, v, s));
      }
    }
  }

  lemma RecordedMore(index: Index, t: seq<Step>, s: State, r: State)
    requires Recorded(index, t, s) && r.edgeChecks == s.edgeChecks && s.reachable <= r.reachable
    ensures Recorded(index, t, r)
  {
    assert forall i :: 0 <= i < |t| ==> Entry(index, t[i], s.edgeChecks[i], s.reachable);
  }

  lemma EnterNode(index: Index, root: Text, v: Text, s: State, t: seq<Step>)
    requires Outside(index, root, v, s, t) && v !in s.reachable && v in index
    ensures Inside(index, root, v, 0, Enter(v, s), t)
  {
    NodesFound(index, t, s);
    RecordedMore(index, t, s, Enter(v, s));
    forall a: nat, b: nat, c: nat ensures !Straddles(t, a, b, c, v) {
      assert b < |t| ==> t[b] in t;
    }
  }

  lemma LeaveNode(index: Index, root: Text, v: Text, s: State, walked: State, t: seq<Step>, t': seq<Step>)
    requires v in index && v !in s.reachable && Grows(Enter(v, s), walked)
    requires Inside(index, root, v, |index[v].supportSet|, walked, t')
    requires Adds(t, t', v, Enter(v, s).reachable)
    requires Complete(index, t', walked.reachable - Enter(v, s).reachable)
    ensures Visited(index, root, s, walked.(onStack := walked.onStack - {v}), t, t')
  {
    var r := walked.(onStack := walked.onStack - {v});
    RecordedMore(index, t', walked, r);
    forall x | IsStep(index, x) && x.node in r.reachable - s.reachable ensures x in t' {
      assert x.node == v || x.node in walked.reachable - Enter(v, s).reachable;
    }
  }

  lemma {:induction false} TraceMembers(index: Index, root: Text, h: Text, k: nat, s: State, t: seq<Step>)
    returns (t': seq<Step>)
    requires Inside(index, root, h, k, s, t)
    ensures var r := VisitMembers(index, index[h].supportSet[k..], s);
            && Inside(index, root, h, |index[h].supportSet|, r, t') && Adds(t, t', h, s.reachable)
            && Complete(index, t', r.reachable - s.reachable)
    decreases index.Keys - s.reachable, 2 + |index[h].supportSet| - k
  {
    var members := index[h].supportSet;
    t' := t;
    if k < |members| {
      var next := VisitMember(index, members[k], s);
      assert members[k..][0] == members[k] && members[k..][1..] == members[k + 1..];
      assert index.Keys - next.reachable <= index.Keys - s.reachable;
      var mid := TraceMember(index, root, h, k, s, t);
      t' := TraceMembers(index, root, h, k + 1, next, mid);
      Compose(index, h, s.reachable, next.reachable, VisitMembers(index, members[k..], s).reachable, t, mid, t');
    }
  }

  lemma Compose(index: Index, h: Text, a: set<Text>, b: set<Text>, c: set<Text>, t: seq<Step>, mid: seq<Step>,
                t': seq<Step>)
    requires a <= b <= c && Adds(t, mid, h, a) && Adds(mid, t', h, b)
    requires Complete(index, mid, b - a) && Complete(index, t', c - b)
    ensures Adds(t, t', h, a) && Complete(index, t', c - a)
  {
    assert forall x :: x in mid ==> x in t';
    assert forall i :: 0 <= i < |mid| ==> t'[i] == mid[i];
  }

  lemma {:induction false} TraceMember(index: Index, root: Text, h: Text, k: nat, s: State, t: seq<Step>)
    returns (t': seq<Step>)
    requires Inside(index, root, h, k, s, t) && k < |index[h].supportSet|
    ensures var r := VisitMember(index, index[h].supportSet[k], s);
            && Inside(index, root, h, k + 1, r, t') && Adds(t, t', h, s.reachable)
            && Complete(index, t', r.reachable - s.reachable)
    decreases index.Keys - s.reachable, 1
  {
    var m := index[h].supportSet[k];
    if CheckOf(index, m).None? {
      t' := t;
      SkipMember(index, root, h, k, s, t);
    } else if m.TypedReceiptDependency? && m.eventHash !in s.onStack && CheckOf(index, m).value.status == Resolved {
      t' := TraceResolved(index, root, h, k, s, t);
    } else {
      t' := t + [Step(h, k)];
      StayAtMember(index, root, h, k, s, t);
    }
  }

  lemma SkipMember(index: Index, root: Text, h: Text, k: nat, s: State, t: seq<Step>)
    requires Inside(index, root, h, k, s, t) && k < |index[h].supportSet| && !IsStep(index, Step(h, k))
    ensures Inside(index, root, h, k + 1, s, t)
  {
    forall x | IsStep(index, x) && x.node == h && x.position < k + 1 ensures x in t {
      assert x.position == k ==> x == Step(h, k);
    }
  }

  lemma StayAtMember(index: Index, root: Text, h: Text, k: nat, s: State, t: seq<Step>)
    requires Inside(index, root, h, k, s, t) && IsStep(index, Step(h, k))
    requires forall v :: Opens(index, Step(h, k), v) ==> v in s.onStack
    ensures Inside(index, root, h, k + 1, Noticed(index, MemberOf(index, Step(h, k)), s), t + [Step(h, k)])
  {
    TakeStep(index, root, h, k, s, t);
    assert forall y :: y in t + [Step(h, k)] ==> y in t || y == Step(h, k);
  }

  // The member's edge resolves to a node that is not open: the walk goes there.
  lemma {:induction false} TraceResolved(index: Index, root: Text, h: Text, k: nat, s: State, t: seq<Step>)
    returns (t': seq<Step>)
    requires Inside(index, root, h, k, s, t) && IsStep(index, Step(h, k))
    requires var m := MemberOf(index, Step(h, k));
             m.TypedReceiptDependency? && m.eventHash !in s.onStack && CheckOf(index, m).value.status == Resolved
    ensures var m := MemberOf(index, Step(h, k));
            var r := Visit(index, m.eventHash, Record(index, m, s));
            && Inside(index, root, h, k + 1, r, t') && Adds(t, t', h, s.reachable)
            && Complete(index, t', r.reachable - s.reachable)
    decreases index.Keys - s.reachable, 0, 1
  {
    var m, x := MemberOf(index, Step(h, k)), Step(h, k);
    var checked := Record(index, m, s);
    TakeStep(index, root, h, k, s, t);
    StepOpens(index, root, h, k, s, t, m.eventHash);
    t' := TraceVisit(index, root, m.eventHash, checked, t + [x]);
    AfterVisit(index, root, h, k, checked, t + [x], Visit(index, m.eventHash, checked), t');
    AddsAfter(t, x, t', s.reachable);
  }

  lemma AddsAfter(t: seq<Step>, x: Step, t': seq<Step>, found: set<Text>)
    requires t + [x] <= t' && forall i: nat :: |t| + 1 <= i < |t'| ==> t'[i].node !in found
    ensures Adds(t, t', x.node, found)
  {
    assert t'[|t|] == (t + [x])[|t|];
    assert forall i :: 0 <= i < |t| ==> t'[i] == (t + [x])[i];
  }

  lemma AfterVisit(index: Index, root: Text, h: Text, k: nat, s: State, t: seq<Step>, r: State, t': seq<Step>)
    requires h in index && k < |index[h].supportSet| && h in s.onStack && s.onStack <= s.reachable && Grows(s, r)
    requires Recorded(index, t, s) && Clear(t, h) && UpTo(index, t, h, k + 1) && Started(t, |t|, h)
    requires Tracked(index, root, h, t, s)
    requires Visited(index, root, s, r, t, t')
    ensures Inside(index, root, h, k + 1, r, t')
  {
    NodesFound(index, t, s);
    ClearStays(t, t', h, s.reachable);
    TrackedLater(index, root, h, t, t', s, r);
    forall x | x in t' && x.node == h ensures x in t {
      var i: nat :| i < |t'| && t'[i] == x;
      assert i < |t|;
      assert t[i] == x;
    }
    assert forall x :: x in t ==> x in t';
    var j: nat :| j < |t| && t[j].node == h;
    assert t'[j].node == h;
  }

  // ---------- The main results ----------

  // On every graph the recorded checks are, entry by entry, those of the trail,
  // and the flag is set iff an edge of the trail leads back to the way to it.
  lemma WalkFollowsTrail(index: Index, root: Text) returns (t: seq<Step>)
    ensures Trail(index, root, t)
    ensures |WalkFrom(index, root).edgeChecks| == |t|
    ensures forall i :: 0 <= i < |t| ==> WalkFrom(index, root).edgeChecks[i] == StepCheck(index, t[i])
    ensures WalkFrom(index, root).cycleDetected <==> exists i :: BackStep(index, root, t, i)
  {
    var r := WalkFrom(index, root);
    t := TraceVisit(index, root, root, EMPTY, []);
    ReachableIsExact(index, root);
    NodesFound(index, t, r);
    forall i | 0 <= i < |t| ensures r.edgeChecks[i] == StepCheck(index, t[i]) {
      assert Entry(index, t[i], r.edgeChecks[i], r.reachable);
    }
    assert r.reachable - EMPTY.reachable == r.reachable;
  }
}
