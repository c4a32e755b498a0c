// The order in which src/chain.rs lists the violations of a chain.
module ChainOrder {
  import opened Wrappers
  import opened Json
  import opened Receipts
  import opened Chain

  // The category of a violation, its index, and its place among those of one envelope.
  type Rank = (nat, nat, nat)

  // The head's link, context, policy, schema, then envelope by envelope: repeated
  // hash, broken link, time.
  function RankOf(x: VerifyError): Rank {
    match x
    case ChainLinkageBroken(i, _, _) => if i == 0 then (0, 0, 0) else (4, i, 1)
    case ContextInconsistent(i, _, _) => (1, i, 0)
    case PolicyInconsistent(i, _, _) => (2, i, 0)
    case SchemaInconsistent(i, _, _) => (3, i, 0)
    case DuplicateEventHash(i, _) => (4, i, 0)
    case LogicalTimeNotMonotonic(i, _, _) => (4, i, 2)
    case _ => (5, 0, 0)
  }

  predicate Earlier(a: Rank, b: Rank) {
    a.0 < b.0 || (a.0 == b.0 && (a.1 < b.1 || (a.1 == b.1 && a.2 < b.2)))
  }

  predicate Ordered(errors: seq<VerifyError>) {
    forall i, j :: 0 <= i < j < |errors| ==> Earlier(RankOf(errors[i]), RankOf(errors[j]))
  }

  predicate OrderedBelow(errors: seq<VerifyError>, bound: Rank) {
    Ordered(errors) && forall x :: x in errors ==> Earlier(RankOf(x), bound)
  }

  lemma NotedInOrder(errors: seq<VerifyError>, due: bool, x: VerifyError, below: Rank, bound: Rank)
    requires OrderedBelow(errors, below) && (below == RankOf(x) || Earlier(below, RankOf(x)))
    requires Earlier(RankOf(x), bound)
    ensures OrderedBelow(Noted(errors, due, x), bound)
  {
    assert forall i :: 0 <= i < |errors| ==> errors[i] in errors;
  }

  lemma {:induction false} UniformNotedInOrder(envelopes: seq<Envelope>, n: nat, field: Envelope -> Text,
      makeErr: (nat, Text, Text) -> VerifyError, errors: seq<VerifyError>, category: nat)
    requires 1 <= n <= |envelopes| && OrderedBelow(errors, (category, 1, 0))
    requires forall i: nat, a, b :: RankOf(makeErr(i, a, b)) == (category, i, 0)
    ensures OrderedBelow(UniformNoted(envelopes, n, field, makeErr, errors), (category, n, 0))
  {
    if n > 1 {
      UniformNotedInOrder(envelopes, n - 1, field, makeErr, errors, category);
      var x := makeErr(n - 1, field(envelopes[0]), field(envelopes[n - 1]));
      var before := UniformNoted(envelopes, n - 1, field, makeErr, errors);
      NotedInOrder(before, field(envelopes[n - 1]) != field(envelopes[0]), x, (category, n - 1, 0), (category, n, 0));
    }
  }

  lemma {:induction false} NeighboursNotedInOrder(envelopes: seq<Envelope>, n: nat, errors: seq<VerifyError>)
    requires 1 <= n <= |envelopes| && OrderedBelow(errors, (4, 1, 0))
    ensures OrderedBelow(NeighboursNoted(envelopes, n, errors), (4, n, 0))
  {
    if n > 1 {
      NeighboursNotedInOrder(envelopes, n - 1, errors);
      NeighbourNotedInOrder(envelopes, n - 1, NeighboursNoted(envelopes, n - 1, errors));
    }
  }

  lemma NeighbourNotedInOrder(envelopes: seq<Envelope>, i: nat, errors: seq<VerifyError>)
    requires 1 <= i < |envelopes| && OrderedBelow(errors, (4, i, 0))
    ensures OrderedBelow(NeighbourNoted(envelopes, i, errors), (4, i + 1, 0))
  {
    var prev, curr := envelopes[i - 1], envelopes[i];
    var expected, parent := Some(prev.eventHash), curr.content.parentId;
    var previous, current := prev.content.logicalTime, curr.content.logicalTime;
    var duplicate, broken := DuplicateEventHash(i, curr.eventHash), ChainLinkageBroken(i, expected, parent);
    var repeated := Noted(errors, curr.eventHash in Hashes(envelopes, i), duplicate);
    var linked := Noted(repeated, parent != expected, broken);
    NotedInOrder(errors, curr.eventHash in Hashes(envelopes, i), duplicate, (4, i, 0), (4, i, 1));
    NotedInOrder(repeated, parent != expected, broken, (4, i, 1), (4, i, 2));
    NotedInOrder(linked, current <= previous, LogicalTimeNotMonotonic(i, previous, current), (4, i, 2), (4, i + 1, 0));
  }

  lemma Raise(errors: seq<VerifyError>, bound: Rank, higher: Rank)
    requires OrderedBelow(errors, bound) && Earlier(bound, higher)
    ensures OrderedBelow(errors, higher)
  {
  }

  // The violations are listed category by category and in each by index. As each
  // is listed once, this leaves no choice.
  lemma ErrorsAreOrdered(envelopes: seq<Envelope>)
    ensures Ordered(ChainErrors(envelopes))
  {
    if envelopes != [] {
      var n := |envelopes|;
      var head := HeadNoted(envelopes, []);
      var context := UniformNoted(envelopes, n, ContextOf, ContextError, head);
      var policy := UniformNoted(envelopes, n, PolicyOf, PolicyError, context);
      var schema := UniformNoted(envelopes, n, SchemaOf, SchemaError, policy);
      assert OrderedBelow(head, (1, 1, 0));
      UniformNotedInOrder(envelopes, n, ContextOf, ContextError, head, 1);
      Raise(context, (1, n, 0), (2, 1, 0));
      UniformNotedInOrder(envelopes, n, PolicyOf, PolicyError, context, 2);
      Raise(policy, (2, n, 0), (3, 1, 0));
      UniformNotedInOrder(envelopes, n, SchemaOf, SchemaError, policy, 3);
      Raise(schema, (3, n, 0), (4, 1, 0));
      NeighboursNotedInOrder(envelopes, n, schema);
    }
  }

  // The violation `verify_chain` returns is the one of least rank.
  lemma FirstErrorIsLeast(envelopes: seq<Envelope>, x: VerifyError)
    requires Violates(envelopes, x)
    ensures var errors := ChainErrors(envelopes);
            && errors != [] && Violates(envelopes, errors[0])
            && (x == errors[0] || Earlier(RankOf(errors[0]), RankOf(x)))
  {
    var errors := ChainErrors(envelopes);
    OneErrorPerViolation(envelopes, x);
    assert x in multiset(errors);
    var i :| 0 <= i < |errors| && errors[i] == x;
    OneErrorPerViolation(envelopes, errors[0]);
    assert errors[0] in multiset(errors);
    ErrorsAreOrdered(envelopes);
  }
}
