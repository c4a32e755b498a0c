// The transitive walk of src/closure_bundle.rs: a recursive depth-first search
// that updates three collections and a flag in place.
module Walk {
  import opened Wrappers
  import opened Json
  import opened Receipts
  import opened DependencyGraph

  // The state the walk updates.
  datatype State = State(
    reachable: set<Text>,
    onStack: set<Text>,
    edgeChecks: seq<EdgeCheck>,
    cycleDetected: bool)

  const EMPTY := State({}, {}, [], false)

  // What every part of the walk keeps: nothing is forgotten, checks are only
  // appended, and a node stays on the stack exactly while it is open.
  predicate Grows(s: State, r: State) {
    && s.reachable <= r.reachable
    && s.edgeChecks <= r.edgeChecks
    && (s.cycleDetected ==> r.cycleDetected)
    && (s.onStack <= s.reachable ==> r.onStack == s.onStack)
  }

  // A functional depth-first search in committed support-set order.
  function Visit(index: Index, h: Text, s: State): (r: State)
    ensures Grows(s, r) && h in r.reachable
    decreases index.Keys - s.reachable, 0
  {
    if h in s.reachable then s
    else
      var entered := Enter(h, s);
      var walked := if h in index then VisitMembers(index, index[h].supportSet, entered) else entered;
      walked.(onStack := walked.onStack - {h})
  }

  function Enter(h: Text, s: State): State {
    s.(reachable := s.reachable + {h}, onStack := s.onStack + {h})
  }

  function VisitMembers(index: Index, ms: seq<SupportMember>, s: State): (r: State)
    ensures Grows(s, r)
    decreases index.Keys - s.reachable, 2 + |ms|
  {
    if ms == [] then s
    else
      var next := VisitMember(index, ms[0], s);
      assert index.Keys - next.reachable <= index.Keys - s.reachable;
      VisitMembers(index, ms[1..], next)
  }

  function VisitMember(index: Index, m: SupportMember, s: State): (r: State)
    ensures Grows(s, r)
    decreases index.Keys - s.reachable, 1
  {
    if CheckOf(index, m).None? then s
    else
      var checked := Record(index, m, s);
      if !m.TypedReceiptDependency? then checked
      else if m.eventHash in s.onStack then checked.(cycleDetected := true)
      else if CheckOf(index, m).value.status == Resolved then Visit(index, m.eventHash, checked)
      else checked
  }

  function Record(index: Index, m: SupportMember, s: State): State
    requires CheckOf(index, m).Some?
  {
    s.(edgeChecks := s.edgeChecks + [CheckOf(index, m).value])
  }

  class Walker {
    const index: Index
    var reachable: set<Text>
    var onStack: set<Text>
    var edgeChecks: seq<EdgeCheck>
    var cycleDetected: bool

    function Current(): State
      reads this
    {
      State(reachable, onStack, edgeChecks, cycleDetected)
    }

    constructor (index: Index)
      ensures this.index == index && Current() == EMPTY
    {
      this.index := index;
      reachable, onStack, edgeChecks, cycleDetected := {}, {}, [], false;
    }

    method Walk(nodeHash: Text)
      modifies this
      ensures Current() == Visit(index, nodeHash, old(Current()))
      decreases index.Keys - reachable
    {
      if nodeHash in reachable {
        return;
      }
      reachable := reachable + {nodeHash};
      onStack := onStack + {nodeHash};
      ghost var entered := Current();
      if nodeHash in index {
        var members := index[nodeHash].supportSet;
        for i := 0 to |members|
          invariant entered.reachable <= reachable
          invariant VisitMembers(index, members[i..], Current()) == VisitMembers(index, members, entered)
        {
          ghost var before := Current();
          ghost var rest := members[i..];
          assert rest[0] == members[i] && rest[1..] == members[i + 1..];
          match members[i] {
            case TypedReceiptDependency(eventHash, role, targetSchema) =>
              var (status, detail) := ClassifyEdge(Find(index, eventHash), targetSchema);
              edgeChecks := edgeChecks + [EdgeCheck(eventHash, role, Some(targetSchema), status, detail)];
              if eventHash in onStack {
                cycleDetected := true;
              } else if status == Resolved {
                Walk(eventHash);
              }
            case DependedOnReceipt(eventHash) =>
              edgeChecks := edgeChecks + [EdgeCheck(eventHash, None, None, UntypedEdge, Some(Untyped))];
            case _ =>
          }
          assert Current() == VisitMember(index, members[i], before);
        }
        assert members[|members|..] == [];
      }
      onStack := onStack - {nodeHash};
    }
  }
}
