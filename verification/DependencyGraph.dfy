// The receipt graph of a closure bundle (src/closure_bundle.rs): nodes keyed by
// event hash, edge classification, and the paths the theorems speak of.
module DependencyGraph {
  import opened Wrappers
  import opened Json
  import opened Receipts
  import opened Report

  // A receipt resolved into the graph.
  datatype Node = Node(
    payloadKind: Text,
    supportSet: seq<SupportMember>,
    verifyStatus: Status,
    verifyDetail: seq<ReportError>)

  type Index = map<Text, Node>

  datatype EdgeStatus = Resolved | Missing | Failed | SchemaMismatch | UntypedEdge

  datatype EdgeDetail =
    | NotSupplied
    | DoesNotVerify(errors: seq<ReportError>)
    | KindDiffers(targetSchema: Text, payloadKind: Text)
    | NotLayered(payloadKind: Text)
    | Untyped

  datatype EdgeCheck = EdgeCheck(
    eventHash: Text,
    role: Option<Text>,
    targetSchema: Option<Text>,
    status: EdgeStatus,
    detail: Option<EdgeDetail>)

  const PROVIDER_KIND := Chars("provider.v0")
  const MODEL_KIND := Chars("model.v0")
  const PACK_KIND := Chars("pack.v0")

  predicate IsLayeredKind(kind: Text) {
    kind == PROVIDER_KIND || kind == MODEL_KIND || kind == PACK_KIND
  }

  function Find(index: Index, h: Text): Option<Node> {
    if h in index then Some(index[h]) else None
  }

  function ClassifyEdge(target: Option<Node>, targetSchema: Text): (EdgeStatus, Option<EdgeDetail>) {
    match target
    case None => (Missing, Some(NotSupplied))
    case Some(n) =>
      if n.verifyStatus != Valid then (Failed, Some(DoesNotVerify(n.verifyDetail)))
      else if n.payloadKind != targetSchema then (SchemaMismatch, Some(KindDiffers(targetSchema, n.payloadKind)))
      else if !IsLayeredKind(n.payloadKind) then (SchemaMismatch, Some(NotLayered(n.payloadKind)))
      else (Resolved, None)
  }

  // The check recorded for one support-set member, if it is a dependency.
  function CheckOf(index: Index, m: SupportMember): Option<EdgeCheck> {
    match m
    case TypedReceiptDependency(h, role, schema) =>
      var (status, detail) := ClassifyEdge(Find(index, h), schema);
      Some(EdgeCheck(h, role, Some(schema), status, detail))
    case DependedOnReceipt(h) => Some(EdgeCheck(h, None, None, UntypedEdge, Some(Untyped)))
    case _ => None
  }

  // ---------- Edges and paths ----------

  // Two graphs over the same nodes: all typed edges, or the resolved ones.
  datatype Graph = AllTyped | ResolvedOnly

  predicate Carries(index: Index, graph: Graph, m: SupportMember, v: Text) {
    && m.TypedReceiptDependency?
    && m.eventHash == v
    && (graph == ResolvedOnly ==> CheckOf(index, m).value.status == Resolved)
  }

  ghost predicate Edge(index: Index, graph: Graph, u: Text, v: Text) {
    u in index && exists m :: m in index[u].supportSet && Carries(index, graph, m, v)
  }

  // There is a path of exactly n edges from u to v.
  ghost predicate PathOf(index: Index, graph: Graph, n: nat, u: Text, v: Text) {
    if n == 0 then u == v
    else exists w :: PathOf(index, graph, n - 1, u, w) && Edge(index, graph, w, v)
  }

  ghost predicate Reaches(index: Index, graph: Graph, u: Text, v: Text) {
    exists n: nat :: PathOf(index, graph, n, u, v)
  }

  // Some node reachable from root lies on a cycle of one or more edges.
  ghost predicate Cyclic(index: Index, graph: Graph, root: Text) {
    exists u, v :: OnCycle(index, graph, graph, root, u, v)
  }

  // A reachable cycle over resolved edges, except that its last edge u -> v
  // need only be typed.
  ghost predicate ClosedByTypedEdge(index: Index, root: Text) {
    exists u, v :: Reaches(index, ResolvedOnly, root, v) && OnCycle(index, ResolvedOnly, AllTyped, root, u, v)
  }

  ghost predicate OnCycle(index: Index, graph: Graph, closing: Graph, root: Text, u: Text, v: Text) {
    Reaches(index, graph, root, u) && Edge(index, closing, u, v) && Reaches(index, graph, v, u)
  }

  // m is a dependency member, typed or not, of node u.
  predicate HasDependency(index: Index, u: Text, m: SupportMember) {
    u in index && m in index[u].supportSet && CheckOf(index, m).Some?
  }

  // What a dependency must be to hold: typed, supplied, verifying, of the
  // kind the edge asks for, and of a layered kind.
  predicate EdgeHolds(index: Index, m: SupportMember) {
    && m.TypedReceiptDependency?
    && m.eventHash in index
    && var target := index[m.eventHash];
       target.verifyStatus.Valid? && target.payloadKind == m.targetSchema
       && m.targetSchema in {Chars("provider.v0"), Chars("model.v0"), Chars("pack.v0")}
  }

  // The recorded status says exactly what is wrong with the edge.
  lemma StatusMeaning(index: Index, m: SupportMember)
    requires CheckOf(index, m).Some?
    ensures var status := CheckOf(index, m).value.status;
            && (status == Resolved <==> EdgeHolds(index, m))
            && (status == UntypedEdge <==> m.DependedOnReceipt?)
            && (status == Missing <==> m.TypedReceiptDependency? && m.eventHash !in index)
            && (status == Failed <==> m.TypedReceiptDependency? && m.eventHash in index
                                      && index[m.eventHash].verifyStatus.Invalid?)
  {
  }

  // What is recorded besides the status: the edge as committed, and what the
  // target shows.
  lemma CheckMeaning(index: Index, m: SupportMember)
    ensures CheckOf(index, m).Some? <==> m.TypedReceiptDependency? || m.DependedOnReceipt?
    ensures m.DependedOnReceipt? ==>
              CheckOf(index, m) == Some(EdgeCheck(m.eventHash, None, None, UntypedEdge, Some(Untyped)))
    ensures m.TypedReceiptDependency? ==>
              var c := CheckOf(index, m).value;
              && c.eventHash == m.eventHash && c.role == m.role && c.targetSchema == Some(m.targetSchema)
              && match c.status
                 case Resolved => c.detail == None
                 case Missing => c.detail == Some(NotSupplied)
                 case Failed => c.detail == Some(DoesNotVerify(index[m.eventHash].verifyDetail))
                 case SchemaMismatch =>
                   var kind := index[m.eventHash].payloadKind;
                   var differs := KindDiffers(m.targetSchema, kind);
                   c.detail == Some(if kind != m.targetSchema then differs else NotLayered(kind))
                 case UntypedEdge => false
  {
  }

  // Every dependency edge of every node reachable from root holds.
  ghost predicate AllResolved(index: Index, root: Text) {
    forall u, m :: Reaches(index, ResolvedOnly, root, u) && HasDependency(index, u, m) ==> EdgeHolds(index, m)
  }

  lemma ReachesSelf(index: Index, graph: Graph, u: Text)
    ensures Reaches(index, graph, u, u)
  {
    assert PathOf(index, graph, 0, u, u);
  }

  lemma ReachesStep(index: Index, graph: Graph, u: Text, w: Text, v: Text)
    requires Reaches(index, graph, u, w) && Edge(index, graph, w, v)
    ensures Reaches(index, graph, u, v)
  {
    var n: nat :| PathOf(index, graph, n, u, w);
    assert PathOf(index, graph, n + 1, u, v);
  }

  lemma ResolvedIsTyped(index: Index, u: Text, v: Text)
    requires Edge(index, ResolvedOnly, u, v)
    ensures Edge(index, AllTyped, u, v)
  {
  }

  // A resolved edge leads to a supplied, verifying node of a layered kind.
  lemma ResolvedTarget(index: Index, u: Text, v: Text)
    requires Edge(index, ResolvedOnly, u, v)
    ensures v in index && index[v].verifyStatus.Valid? && IsLayeredKind(index[v].payloadKind)
  {
  }
}
