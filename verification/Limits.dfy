// Resource limits (src/limits.rs): a depth-first walk of a JSON tree with one
// shared, mutable node counter and early exit.
module Limits {
  import opened Wrappers
  import opened Json

  datatype VerifierLimits = VerifierLimits(
    maxBytes: nat,
    maxDepth: nat,
    maxNodeCount: nat,
    maxObjectSize: nat,
    maxArraySize: nat,
    maxChainLength: nat)

  const DEFAULT_LIMITS := VerifierLimits(1_048_576, 64, 50_000, 256, 10_000, 10_000)

  datatype LimitViolation =
    | InputTooLarge(actual: nat, limit: nat)
    | DepthExceeded(actual: nat, limit: nat)
    | NodeCountExceeded(actual: nat, limit: nat)
    | ObjectTooLarge(actual: nat, limit: nat)
    | ArrayTooLarge(actual: nat, limit: nat)
    | ChainTooLong(actual: nat, limit: nat)

  function CheckByteLimit(raw: string, limits: VerifierLimits): Check<LimitViolation> {
    if |raw| > limits.maxBytes then Fail(InputTooLarge(|raw|, limits.maxBytes)) else Pass
  }

  function CheckChainLength(length: nat, limits: VerifierLimits): Check<LimitViolation> {
    if length > limits.maxChainLength then Fail(ChainTooLong(length, limits.maxChainLength)) else Pass
  }

  function CheckWidth(v: Value, limits: VerifierLimits): Check<LimitViolation> {
    match v
    case Object(members) =>
      if |members| > limits.maxObjectSize then Fail(ObjectTooLarge(|members|, limits.maxObjectSize)) else Pass
    case Array(elements) =>
      if |elements| > limits.maxArraySize then Fail(ArrayTooLarge(|elements|, limits.maxArraySize)) else Pass
    case _ => Pass
  }

  // ---------- What the walk computes ----------

  // One node of the tree, met at a nesting depth.
  datatype TreeNode = TreeNode(depth: nat, value: Value)

  // Every node of the tree with its depth, parents before children and
  // children in iteration order.
  function Preorder(v: Value, depth: nat): (nodes: seq<TreeNode>)
    ensures |nodes| == NodeCount(v)
    decreases NodeCount(v), 0
  {
    NodeCountOfTree(v);
    [TreeNode(depth, v)] + PreorderAll(Children(v), depth + 1)
  }

  function PreorderAll(vs: seq<Value>, depth: nat): (nodes: seq<TreeNode>)
    ensures |nodes| == NodeCountAll(vs)
    decreases NodeCountAll(vs), 1
  {
    if vs == [] then [] else Preorder(vs[0], depth) + PreorderAll(vs[1..], depth)
  }

  // What is wrong with a node that is visited when `before` nodes have been counted.
  function ViolationOf(node: TreeNode, before: nat, limits: VerifierLimits): Check<LimitViolation> {
    if node.depth > limits.maxDepth then Fail(DepthExceeded(node.depth, limits.maxDepth))
    else if before + 1 > limits.maxNodeCount then Fail(NodeCountExceeded(before + 1, limits.maxNodeCount))
    else CheckWidth(node.value, limits)
  }

  // Whether a node is added to the counter: it is unless it is too deep.
  function Counted(node: TreeNode, limits: VerifierLimits): nat {
    if node.depth > limits.maxDepth then 0 else 1
  }

  // A plain left-to-right scan that stops at the first violation, and the
  // number of nodes counted when it stops.
  function Scan(nodes: seq<TreeNode>, count: nat, limits: VerifierLimits): (nat, Check<LimitViolation>) {
    if nodes == [] then (count, Pass)
    else
      var violation := ViolationOf(nodes[0], count, limits);
      if violation.Fail? then (count + Counted(nodes[0], limits), violation)
      else Scan(nodes[1..], count + 1, limits)
  }

  lemma {:induction false} ScanConcat(a: seq<TreeNode>, b: seq<TreeNode>, count: nat, limits: VerifierLimits)
    ensures Scan(a + b, count, limits)
         == var first := Scan(a, count, limits);
            if first.1.Fail? then first else Scan(b, first.0, limits)
  {
    if a == [] {
      assert a + b == b;
    } else {
      assert (a + b)[1..] == a[1..] + b;
      ScanConcat(a[1..], b, count + 1, limits);
    }
  }

  // The scan in terms of positions: it fails exactly at the least position
  // with a violation, and counts one node per position passed.
  lemma {:induction false} ScanFindsFirst(nodes: seq<TreeNode>, count: nat, limits: VerifierLimits)
    ensures var (counted, outcome) := Scan(nodes, count, limits);
            match outcome
            case Pass =>
              && counted == count + |nodes|
              && forall i :: 0 <= i < |nodes| ==> ViolationOf(nodes[i], count + i, limits).Pass?
            case Fail(_) =>
              exists i :: 0 <= i < |nodes|
                && ViolationOf(nodes[i], count + i, limits) == outcome
                && counted == count + i + Counted(nodes[i], limits)
                && forall j :: 0 <= j < i ==> ViolationOf(nodes[j], count + j, limits).Pass?
  {
    if nodes != [] && ViolationOf(nodes[0], count, limits).Pass? {
      ScanFindsFirst(nodes[1..], count + 1, limits);
      var tail := nodes[1..];
      assert forall i :: 0 <= i < |tail| ==> tail[i] == nodes[i + 1];
      var (counted, outcome) := Scan(tail, count + 1, limits);
      if outcome.Fail? {
        var i :| 0 <= i < |tail|
          && ViolationOf(tail[i], count + 1 + i, limits) == outcome
          && counted == count + 1 + i + Counted(tail[i], limits)
          && forall j :: 0 <= j < i ==> ViolationOf(tail[j], count + 1 + j, limits).Pass?;
        forall j | 0 <= j < i + 1 ensures ViolationOf(nodes[j], count + j, limits).Pass? {
          if j > 0 {
            assert nodes[j] == tail[j - 1];
          }
        }
        assert nodes[i + 1] == tail[i];
      } else {
        forall i | 0 <= i < |nodes| ensures ViolationOf(nodes[i], count + i, limits).Pass? {
          if i > 0 {
            assert nodes[i] == tail[i - 1];
            assert ViolationOf(tail[i - 1], count + 1 + (i - 1), limits).Pass?;
          }
        }
      }
    } else if nodes != [] {
      assert ViolationOf(nodes[0], count + 0, limits) == Scan(nodes, count, limits).1;
    }
  }

  lemma ScanAtNode(v: Value, depth: nat, count: nat, limits: VerifierLimits)
    ensures Scan(Preorder(v, depth), count, limits)
         == var violation := ViolationOf(TreeNode(depth, v), count, limits);
            if violation.Fail? then (count + Counted(TreeNode(depth, v), limits), violation)
            else Below(v, 0, depth, count + 1, limits)
  {
    NodeCountOfTree(v);
    assert Children(v)[0..] == Children(v);
    assert Preorder(v, depth)[1..] == PreorderAll(Children(v), depth + 1);
  }

  // The scan of the children of `v` from position `i` on.
  ghost function Below(v: Value, i: nat, depth: nat, count: nat, limits: VerifierLimits): (nat, Check<LimitViolation>)
    requires i <= |Children(v)|
  {
    Scan(PreorderAll(Children(v)[i..], depth + 1), count, limits)
  }

  lemma BelowStep(v: Value, i: nat, depth: nat, count: nat, limits: VerifierLimits)
    requires i < |Children(v)|
    ensures NodeCount(Children(v)[i]) < NodeCount(v)
    ensures Below(v, i, depth, count, limits)
         == var first := Scan(Preorder(Children(v)[i], depth + 1), count, limits);
            if first.1.Fail? then first else Below(v, i + 1, depth, first.0, limits)
  {
    var rest := Children(v)[i..];
    assert rest[0] == Children(v)[i] && rest[1..] == Children(v)[i + 1..];
    NodeCountOfTree(v);
    ChildIsSmaller(Children(v), i);
    ScanConcat(Preorder(rest[0], depth + 1), PreorderAll(rest[1..], depth + 1), count, limits);
  }

  lemma BelowNone(v: Value, depth: nat, count: nat, limits: VerifierLimits)
    ensures Below(v, |Children(v)|, depth, count, limits) == (count, Pass)
  {
  }

  lemma {:induction false} ChildIsSmaller(vs: seq<Value>, i: nat)
    requires i < |vs|
    ensures NodeCount(vs[i]) <= NodeCountAll(vs)
  {
    if i > 0 {
      ChildIsSmaller(vs[1..], i - 1);
    }
  }

  // ---------- The walk itself ----------

  class WalkState {
    var nodeCount: nat
    const limits: VerifierLimits

    constructor (limits: VerifierLimits)
      ensures nodeCount == 0 && this.limits == limits
    {
      this.nodeCount := 0;
      this.limits := limits;
    }

    // Visits `v` and everything below it. The result and the counter are
    // those of the scan of the preorder listing.
    method Walk(v: Value, depth: nat) returns (outcome: Check<LimitViolation>)
      modifies this
      ensures (nodeCount, outcome) == Scan(Preorder(v, depth), old(nodeCount), limits)
      decreases NodeCount(v), 1
    {
      ScanAtNode(v, depth, nodeCount, limits);
      if depth > limits.maxDepth {
        return Fail(DepthExceeded(depth, limits.maxDepth));
      }
      nodeCount := nodeCount + 1;
      if nodeCount > limits.maxNodeCount {
        return Fail(NodeCountExceeded(nodeCount, limits.maxNodeCount));
      }
      match v
      case Object(members) =>
        if |members| > limits.maxObjectSize {
          return Fail(ObjectTooLarge(|members|, limits.maxObjectSize));
        }
        outcome := WalkChildren(v, depth);
      case Array(elements) =>
        if |elements| > limits.maxArraySize {
          return Fail(ArrayTooLarge(|elements|, limits.maxArraySize));
        }
        outcome := WalkChildren(v, depth);
      case _ =>
        BelowNone(v, depth, nodeCount, limits);
        outcome := Pass;
    }

    // The loop over the values of an object or the elements of an array,
    // stopping at the first failing child.
    method WalkChildren(v: Value, depth: nat) returns (outcome: Check<LimitViolation>)
      modifies this
      ensures (nodeCount, outcome) == Below(v, 0, depth, old(nodeCount), limits)
      decreases NodeCount(v), 0
    {
      var children := Children(v);
      for i := 0 to |children|
        invariant Below(v, i, depth, nodeCount, limits) == Below(v, 0, depth, old(nodeCount), limits)
      {
        BelowStep(v, i, depth, nodeCount, limits);
        outcome := Walk(children[i], depth + 1);
        if outcome.Fail? {
          return;
        }
      }
      BelowNone(v, depth, nodeCount, limits);
      outcome := Pass;
    }
  }

  method CheckStructure(v: Value, limits: VerifierLimits) returns (outcome: Check<LimitViolation>)
    ensures outcome == Structure(v, limits)
  {
    var state := new WalkState(limits);
    outcome := state.Walk(v, 0);
  }

  function Structure(v: Value, limits: VerifierLimits): Check<LimitViolation> {
    Scan(Preorder(v, 0), 0, limits).1
  }

  // ---------- Acceptance, in terms of the tree alone ----------

  // The number of edges on the longest path down from `v`.
  function Height(v: Value): nat
    decreases NodeCount(v), 0
  {
    NodeCountOfTree(v);
    HeightAbove(Children(v))
  }

  // The height of a node with these children.
  function HeightAbove(vs: seq<Value>): nat
    decreases NodeCountAll(vs), 1
  {
    if vs == [] then 0
    else
      var first, rest := 1 + Height(vs[0]), HeightAbove(vs[1..]);
      if first > rest then first else rest
  }

  // A node's own number of entries is within the limit for its kind.
  predicate WidthFits(v: Value, limits: VerifierLimits) {
    && (v.Object? ==> |v.members| <= limits.maxObjectSize)
    && (v.Array? ==> |v.elements| <= limits.maxArraySize)
  }

  // No object or array of the tree has too many entries.
  predicate WidthsOk(v: Value, limits: VerifierLimits)
    decreases NodeCount(v), 0
  {
    NodeCountOfTree(v);
    WidthFits(v, limits) && AllWidthsOk(Children(v), limits)
  }

  predicate AllWidthsOk(vs: seq<Value>, limits: VerifierLimits)
    decreases NodeCountAll(vs), 1
  {
    vs == [] || (WidthsOk(vs[0], limits) && AllWidthsOk(vs[1..], limits))
  }

  // The walk accepts a tree met at `depth` with `count` nodes already counted
  // iff its height, node count and widths fit in what is left; the counter
  // then has grown by exactly the node count.
  lemma {:induction false} AcceptanceIsExact(v: Value, depth: nat, count: nat, limits: VerifierLimits)
    ensures var (counted, outcome) := Scan(Preorder(v, depth), count, limits);
            && (outcome.Pass? <==>
                 && depth + Height(v) <= limits.maxDepth
                 && count + NodeCount(v) <= limits.maxNodeCount
                 && WidthsOk(v, limits))
            && (outcome.Pass? ==> counted == count + NodeCount(v))
    decreases NodeCount(v), 0
  {
    NodeCountOfTree(v);
    var nodes := Preorder(v, depth);
    assert nodes[0] == TreeNode(depth, v) && nodes[1..] == PreorderAll(Children(v), depth + 1);
    if depth <= limits.maxDepth && count + 1 <= limits.maxNodeCount {
      AcceptanceIsExactAll(Children(v), depth, count + 1, limits);
    }
  }

  lemma {:induction false} AcceptanceIsExactAll(vs: seq<Value>, depth: nat, count: nat, limits: VerifierLimits)
    requires depth <= limits.maxDepth && count <= limits.maxNodeCount
    ensures var (counted, outcome) := Scan(PreorderAll(vs, depth + 1), count, limits);
            && (outcome.Pass? <==>
                 && depth + HeightAbove(vs) <= limits.maxDepth
                 && count + NodeCountAll(vs) <= limits.maxNodeCount
                 && AllWidthsOk(vs, limits))
            && (outcome.Pass? ==> counted == count + NodeCountAll(vs))
    decreases NodeCountAll(vs), 1
  {
    if vs != [] {
      AcceptanceIsExact(vs[0], depth + 1, count, limits);
      ScanConcat(Preorder(vs[0], depth + 1), PreorderAll(vs[1..], depth + 1), count, limits);
      var (counted, outcome) := Scan(Preorder(vs[0], depth + 1), count, limits);
      if outcome.Pass? {
        AcceptanceIsExactAll(vs[1..], depth, counted, limits);
      }
    }
  }

  // The reported `actual` of a depth or node-count violation is one over the
  // limit, and the counter never passes one over the limit.
  lemma {:induction false} ViolationsAreTight(v: Value, depth: nat, count: nat, limits: VerifierLimits)
    requires depth <= limits.maxDepth + 1 && count <= limits.maxNodeCount
    ensures Tight(Scan(Preorder(v, depth), count, limits), limits)
    decreases NodeCount(v), 0
  {
    NodeCountOfTree(v);
    var nodes := Preorder(v, depth);
    assert nodes[0] == TreeNode(depth, v) && nodes[1..] == PreorderAll(Children(v), depth + 1);
    if depth <= limits.maxDepth && count + 1 <= limits.maxNodeCount {
      ViolationsAreTightAll(Children(v), depth + 1, count + 1, limits);
    }
  }

  lemma {:induction false} ViolationsAreTightAll(vs: seq<Value>, depth: nat, count: nat, limits: VerifierLimits)
    requires depth <= limits.maxDepth + 1 && count <= limits.maxNodeCount
    ensures Tight(Scan(PreorderAll(vs, depth), count, limits), limits)
    decreases NodeCountAll(vs), 1
  {
    if vs != [] {
      ViolationsAreTight(vs[0], depth, count, limits);
      ScanConcat(Preorder(vs[0], depth), PreorderAll(vs[1..], depth), count, limits);
      var (counted, outcome) := Scan(Preorder(vs[0], depth), count, limits);
      if outcome.Pass? {
        ViolationsAreTightAll(vs[1..], depth, counted, limits);
      }
    }
  }

  predicate Tight(scanned: (nat, Check<LimitViolation>), limits: VerifierLimits) {
    match scanned.1
    case Pass => scanned.0 <= limits.maxNodeCount
    case Fail(DepthExceeded(actual, _)) => actual == limits.maxDepth + 1 && scanned.0 <= limits.maxNodeCount
    case Fail(NodeCountExceeded(actual, _)) => actual == limits.maxNodeCount + 1 && scanned.0 == actual
    case Fail(_) => scanned.0 <= limits.maxNodeCount
  }

  // `check_structure` on a whole document: which documents pass, and what the
  // first violation looks like otherwise.
  lemma CheckStructureIsExact(v: Value, limits: VerifierLimits)
    ensures Structure(v, limits).Pass? <==>
              && Height(v) <= limits.maxDepth
              && NodeCount(v) <= limits.maxNodeCount
              && WidthsOk(v, limits)
    ensures Tight(Scan(Preorder(v, 0), 0, limits), limits)
  {
    AcceptanceIsExact(v, 0, 0, limits);
    ViolationsAreTight(v, 0, 0, limits);
  }

  // ---------- The violation reported ----------

  // The node, met after `before` others, violates no limit.
  predicate Faultless(node: TreeNode, before: nat, limits: VerifierLimits) {
    node.depth <= limits.maxDepth && before < limits.maxNodeCount && WidthFits(node.value, limits)
  }

  // The violation names what is wrong with the node, with the value measured and
  // the limit of that kind: depth first, then the count, then the width.
  predicate Reports(violation: LimitViolation, node: TreeNode, before: nat, limits: VerifierLimits) {
    match violation
    case DepthExceeded(actual, limit) => actual == node.depth && limit == limits.maxDepth && actual > limit
    case NodeCountExceeded(actual, limit) =>
      && node.depth <= limits.maxDepth
      && actual == before + 1 && limit == limits.maxNodeCount && actual > limit
    case ObjectTooLarge(actual, limit) =>
      && node.depth <= limits.maxDepth && before < limits.maxNodeCount
      && node.value.Object? && actual == |node.value.members| && limit == limits.maxObjectSize && actual > limit
    case ArrayTooLarge(actual, limit) =>
      && node.depth <= limits.maxDepth && before < limits.maxNodeCount
      && node.value.Array? && actual == |node.value.elements| && limit == limits.maxArraySize && actual > limit
    case _ => false
  }

  lemma ViolationMeaning(node: TreeNode, before: nat, limits: VerifierLimits)
    ensures match ViolationOf(node, before, limits)
            case Pass => Faultless(node, before, limits)
            case Fail(violation) => Reports(violation, node, before, limits) && !Faultless(node, before, limits)
  {
  }

  // Node i is the first at fault, and the violation reports it.
  predicate FirstFault(nodes: seq<TreeNode>, i: nat, violation: LimitViolation, limits: VerifierLimits) {
    && i < |nodes| && Reports(violation, nodes[i], i, limits)
    && forall j :: 0 <= j < i ==> Faultless(nodes[j], j, limits)
  }

  lemma {:induction false} ScanReports(nodes: seq<TreeNode>, limits: VerifierLimits)
    ensures match Scan(nodes, 0, limits).1
            case Pass => forall i :: 0 <= i < |nodes| ==> Faultless(nodes[i], i, limits)
            case Fail(violation) => exists i :: FirstFault(nodes, i, violation, limits)
  {
    ScanFindsFirst(nodes, 0, limits);
    forall i | 0 <= i < |nodes| && ViolationOf(nodes[i], 0 + i, limits).Pass? ensures Faultless(nodes[i], i, limits) {
      ViolationMeaning(nodes[i], i, limits);
    }
    var outcome := Scan(nodes, 0, limits).1;
    if outcome.Fail? {
      var i: nat :| i < |nodes| && ViolationOf(nodes[i], 0 + i, limits) == outcome
        && forall j :: 0 <= j < i ==> ViolationOf(nodes[j], 0 + j, limits).Pass?;
      ViolationMeaning(nodes[i], i, limits);
      assert FirstFault(nodes, i, outcome.error, limits);
    }
  }

  // The violation returned for a document is that of the first node with any.
  lemma FirstViolationIsReported(v: Value, limits: VerifierLimits)
    ensures match Structure(v, limits)
            case Pass => forall i :: 0 <= i < NodeCount(v) ==> Faultless(Preorder(v, 0)[i], i, limits)
            case Fail(violation) => exists i :: FirstFault(Preorder(v, 0), i, violation, limits)
  {
    ScanReports(Preorder(v, 0), limits);
  }

  // Elements of an accepted array are accepted on their own.
  lemma {:induction false} AcceptedInsideArray(vs: seq<Value>, i: nat, limits: VerifierLimits)
    requires i < |vs|
    requires Structure(Array(vs), limits).Pass?
    ensures Structure(vs[i], limits).Pass?
  {
    CheckStructureIsExact(Array(vs), limits);
    NodeCountOfTree(Array(vs));
    ChildIsSmaller(vs, i);
    ChildFits(vs, i, limits);
    CheckStructureIsExact(vs[i], limits);
  }

  lemma {:induction false} ChildFits(vs: seq<Value>, i: nat, limits: VerifierLimits)
    requires i < |vs|
    ensures Height(vs[i]) < HeightAbove(vs)
    ensures AllWidthsOk(vs, limits) ==> WidthsOk(vs[i], limits)
  {
    if i > 0 {
      ChildFits(vs[1..], i - 1, limits);
    }
  }
}
