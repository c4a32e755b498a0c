// Chain-level verification (src/chain.rs): every violation is collected.
module Chain {
  import opened Wrappers
  import opened Json
  import opened Receipts

  datatype ChainDetail = ChainDetail(
    linkageOk: bool,
    orderingOk: bool,
    contextUniform: bool,
    policyStable: bool,
    schemaUniform: bool,
    errors: seq<VerifyError>)

  // ---------- The violations, index by index ----------

  // Each function takes the list of errors so far and hands it back longer.

  function HeadNoted(envelopes: seq<Envelope>, errors: seq<VerifyError>): seq<VerifyError>
    requires envelopes != []
  {
    var parent := envelopes[0].content.parentId;
    Noted(errors, parent.Some?, ChainLinkageBroken(0, None, parent))
  }

  // One entry for each of the first n envelopes whose field differs from the first's.
  function UniformNoted(envelopes: seq<Envelope>, n: nat, field: Envelope -> Text,
                        makeErr: (nat, Text, Text) -> VerifyError, errors: seq<VerifyError>): seq<VerifyError>
    requires 1 <= n <= |envelopes|
  {
    if n == 1 then errors
    else
      var expected, found := field(envelopes[0]), field(envelopes[n - 1]);
      Noted(UniformNoted(envelopes, n - 1, field, makeErr, errors), found != expected, makeErr(n - 1, expected, found))
  }

  // The event hashes of the first n envelopes.
  function Hashes(envelopes: seq<Envelope>, n: nat): set<Text>
    requires n <= |envelopes|
  {
    if n == 0 then {} else Hashes(envelopes, n - 1) + {envelopes[n - 1].eventHash}
  }

  lemma {:induction false} HashesMeaning(envelopes: seq<Envelope>, n: nat, h: Text)
    requires n <= |envelopes|
    ensures h in Hashes(envelopes, n) <==> exists k :: 0 <= k < n && envelopes[k].eventHash == h
  {
    if n > 0 {
      HashesMeaning(envelopes, n - 1, h);
    }
  }

  // The errors of envelope i: repeated hash, broken link, time not increasing.
  function NeighbourNoted(envelopes: seq<Envelope>, i: nat, errors: seq<VerifyError>): seq<VerifyError>
    requires 1 <= i < |envelopes|
  {
    var prev, curr := envelopes[i - 1], envelopes[i];
    var expected, parent := Some(prev.eventHash), curr.content.parentId;
    var previous, current := prev.content.logicalTime, curr.content.logicalTime;
    var repeated := Noted(errors, curr.eventHash in Hashes(envelopes, i), DuplicateEventHash(i, curr.eventHash));
    var linked := Noted(repeated, parent != expected, ChainLinkageBroken(i, expected, parent));
    Noted(linked, current <= previous, LogicalTimeNotMonotonic(i, previous, current))
  }

  function NeighboursNoted(envelopes: seq<Envelope>, n: nat, errors: seq<VerifyError>): seq<VerifyError>
    requires 1 <= n <= |envelopes|
  {
    if n == 1 then errors else NeighbourNoted(envelopes, n - 1, NeighboursNoted(envelopes, n - 1, errors))
  }

  function ContextOf(e: Envelope): Text { e.content.contextDigest }
  function PolicyOf(e: Envelope): Text { e.content.policyDigest }
  function SchemaOf(e: Envelope): Text { e.content.schemaDigest }

  function ContextError(i: nat, expected: Text, found: Text): VerifyError { ContextInconsistent(i, expected, found) }
  function PolicyError(i: nat, expected: Text, found: Text): VerifyError { PolicyInconsistent(i, expected, found) }
  function SchemaError(i: nat, expected: Text, found: Text): VerifyError { SchemaInconsistent(i, expected, found) }

  function ChainErrors(envelopes: seq<Envelope>): seq<VerifyError> {
    if envelopes == [] then []
    else
      var n := |envelopes|;
      var context := UniformNoted(envelopes, n, ContextOf, ContextError, HeadNoted(envelopes, []));
      var policy := UniformNoted(envelopes, n, PolicyOf, PolicyError, context);
      var schema := UniformNoted(envelopes, n, SchemaOf, SchemaError, policy);
      NeighboursNoted(envelopes, n, schema)
  }

  // ---------- The same invariants, over all pairs ----------

  ghost predicate Linked(envelopes: seq<Envelope>) {
    && (envelopes != [] ==> envelopes[0].content.parentId == None)
    && (forall i :: 1 <= i < |envelopes| ==> envelopes[i].content.parentId == Some(envelopes[i - 1].eventHash))
    && (forall i, j :: 0 <= i < j < |envelopes| ==> envelopes[i].eventHash != envelopes[j].eventHash)
  }

  ghost predicate Increasing(envelopes: seq<Envelope>) {
    forall i, j :: 0 <= i < j < |envelopes| ==> envelopes[i].content.logicalTime < envelopes[j].content.logicalTime
  }

  ghost predicate Uniform(envelopes: seq<Envelope>, field: Envelope -> Text) {
    forall i, j :: 0 <= i < |envelopes| && 0 <= j < |envelopes| ==> field(envelopes[i]) == field(envelopes[j])
  }

  ghost predicate Accepted(envelopes: seq<Envelope>) {
    && Linked(envelopes)
    && Increasing(envelopes)
    && Uniform(envelopes, ContextOf)
    && Uniform(envelopes, PolicyOf)
    && Uniform(envelopes, SchemaOf)
  }

  // ---------- The checks ----------

  // `errors` is the caller's list, handed back longer.
  method CheckUniform(envelopes: seq<Envelope>, field: Envelope -> Text,
                      makeErr: (nat, Text, Text) -> VerifyError, errors: seq<VerifyError>)
    returns (uniform: bool, errors': seq<VerifyError>)
    requires envelopes != []
    ensures uniform <==> Uniform(envelopes, field)
    ensures errors' == UniformNoted(envelopes, |envelopes|, field, makeErr, errors)
  {
    var expected := field(envelopes[0]);
    uniform, errors' := true, errors;
    for i := 1 to |envelopes|
      invariant uniform <==> forall k :: 0 <= k < i ==> field(envelopes[k]) == expected
      invariant errors' == UniformNoted(envelopes, i, field, makeErr, errors)
    {
      var found := field(envelopes[i]);
      if found != expected {
        errors' := errors' + [makeErr(i, expected, found)];
        uniform := false;
      }
    }
  }

  method CheckChainDetail(envelopes: seq<Envelope>) returns (detail: ChainDetail)
    ensures detail.errors == ChainErrors(envelopes)
    ensures detail.linkageOk <==> Linked(envelopes)
    ensures detail.orderingOk <==> Increasing(envelopes)
    ensures detail.contextUniform <==> Uniform(envelopes, ContextOf)
    ensures detail.policyStable <==> Uniform(envelopes, PolicyOf)
    ensures detail.schemaUniform <==> Uniform(envelopes, SchemaOf)
  {
    var errors: seq<VerifyError> := [];
    var linkageOk, orderingOk := true, true;
    if envelopes == [] {
      return ChainDetail(linkageOk, orderingOk, true, true, true, errors);
    }
    var first := envelopes[0];
    if first.content.parentId.Some? {
      errors := errors + [ChainLinkageBroken(0, None, first.content.parentId)];
      linkageOk := false;
    }
    assert errors == HeadNoted(envelopes, []);
    var contextUniform, policyStable, schemaUniform;
    contextUniform, errors := CheckUniform(envelopes, ContextOf, ContextError, errors);
    policyStable, errors := CheckUniform(envelopes, PolicyOf, PolicyError, errors);
    schemaUniform, errors := CheckUniform(envelopes, SchemaOf, SchemaError, errors);
    linkageOk, orderingOk, errors := CheckNeighbours(envelopes, linkageOk, errors);
    SoFarIsGlobal(envelopes);
    detail := ChainDetail(linkageOk, orderingOk, contextUniform, policyStable, schemaUniform, errors);
  }

  // The loop over neighbours, with the set of hashes seen so far.
  method CheckNeighbours(envelopes: seq<Envelope>, headOk: bool, errors: seq<VerifyError>)
    returns (linkageOk: bool, orderingOk: bool, errors': seq<VerifyError>)
    requires envelopes != []
    requires headOk <==> envelopes[0].content.parentId == None
    ensures linkageOk <==> LinkedSoFar(envelopes, |envelopes|)
    ensures orderingOk <==> IncreasingSoFar(envelopes, |envelopes|)
    ensures errors' == NeighboursNoted(envelopes, |envelopes|, errors)
  {
    linkageOk, orderingOk, errors' := headOk, true, errors;
    var seen := {envelopes[0].eventHash};
    for i := 1 to |envelopes|
      invariant seen == Hashes(envelopes, i)
      invariant errors' == NeighboursNoted(envelopes, i, errors)
      invariant linkageOk <==> LinkedSoFar(envelopes, i)
      invariant orderingOk <==> IncreasingSoFar(envelopes, i)
    {
      var prev, curr := envelopes[i - 1], envelopes[i];
      if curr.eventHash in seen {
        errors' := errors' + [DuplicateEventHash(i, curr.eventHash)];
        linkageOk := false;
      }
      seen := seen + {curr.eventHash};
      var expectedParent := Some(prev.eventHash);
      if curr.content.parentId != expectedParent {
        errors' := errors' + [ChainLinkageBroken(i, expectedParent, curr.content.parentId)];
        linkageOk := false;
      }
      if curr.content.logicalTime <= prev.content.logicalTime {
        errors' := errors' + [LogicalTimeNotMonotonic(i, prev.content.logicalTime, curr.content.logicalTime)];
        orderingOk := false;
      }
    }
  }

  method VerifyChain(envelopes: seq<Envelope>) returns (outcome: Check<VerifyError>)
    ensures outcome.Pass? <==> Accepted(envelopes)
    ensures outcome.Fail? ==> ChainErrors(envelopes) != [] && outcome.error == ChainErrors(envelopes)[0]
  {
    var detail := CheckChainDetail(envelopes);
    ErrorsAreExact(envelopes);
    outcome := if detail.errors != [] then Fail(detail.errors[0]) else Pass;
  }

  // Envelope i links to the one before it and repeats no earlier hash.
  predicate LinksAt(envelopes: seq<Envelope>, i: nat)
    requires 1 <= i < |envelopes|
  {
    && envelopes[i].eventHash !in Hashes(envelopes, i)
    && envelopes[i].content.parentId == Some(envelopes[i - 1].eventHash)
  }

  predicate LaterAt(envelopes: seq<Envelope>, i: nat)
    requires 1 <= i < |envelopes|
  {
    envelopes[i - 1].content.logicalTime < envelopes[i].content.logicalTime
  }

  // The global predicates on the first n envelopes, one envelope at a time.
  predicate LinkedSoFar(envelopes: seq<Envelope>, n: nat)
    requires 1 <= n <= |envelopes|
  {
    if n == 1 then envelopes[0].content.parentId == None
    else LinkedSoFar(envelopes, n - 1) && LinksAt(envelopes, n - 1)
  }

  predicate IncreasingSoFar(envelopes: seq<Envelope>, n: nat)
    requires 1 <= n <= |envelopes|
  {
    n == 1 || (IncreasingSoFar(envelopes, n - 1) && LaterAt(envelopes, n - 1))
  }

  lemma {:induction false} LinkedSoFarIsGlobal(envelopes: seq<Envelope>, n: nat)
    requires 1 <= n <= |envelopes|
    ensures LinkedSoFar(envelopes, n) <==> Linked(envelopes[..n])
  {
    if n > 1 {
      LinkedSoFarIsGlobal(envelopes, n - 1);
      var short, long := envelopes[..n - 1], envelopes[..n];
      assert long[..n - 1] == short;
      LinkedStep(short, long);
      HashesMeaning(long, n - 1, long[n - 1].eventHash);
      HashesMeaning(envelopes, n - 1, long[n - 1].eventHash);
    }
  }

  lemma {:induction false} IncreasingSoFarIsGlobal(envelopes: seq<Envelope>, n: nat)
    requires 1 <= n <= |envelopes|
    ensures IncreasingSoFar(envelopes, n) <==> Increasing(envelopes[..n])
  {
    if n > 1 {
      IncreasingSoFarIsGlobal(envelopes, n - 1);
      var short, long := envelopes[..n - 1], envelopes[..n];
      assert long[..n - 1] == short;
      IncreasingStep(short, long);
    }
  }

  lemma SoFarIsGlobal(envelopes: seq<Envelope>)
    requires envelopes != []
    ensures LinkedSoFar(envelopes, |envelopes|) <==> Linked(envelopes)
    ensures IncreasingSoFar(envelopes, |envelopes|) <==> Increasing(envelopes)
  {
    assert envelopes[..|envelopes|] == envelopes;
    LinkedSoFarIsGlobal(envelopes, |envelopes|);
    IncreasingSoFarIsGlobal(envelopes, |envelopes|);
  }

  lemma LinkedStep(short: seq<Envelope>, long: seq<Envelope>)
    requires short != [] && |long| == |short| + 1 && long[..|short|] == short
    ensures Linked(long) <==>
              && Linked(short)
              && long[|short|].eventHash !in Hashes(long, |short|)
              && long[|short|].content.parentId == Some(short[|short| - 1].eventHash)
  {
    var n := |short|;
    assert forall k :: 0 <= k < n ==> long[k] == short[k];
    HashesMeaning(long, n, long[n].eventHash);
    if Linked(long) {
      assert long[n].content.parentId == Some(long[n - 1].eventHash);
    }
  }

  lemma IncreasingStep(short: seq<Envelope>, long: seq<Envelope>)
    requires short != [] && |long| == |short| + 1 && long[..|short|] == short
    ensures Increasing(long) <==>
              && Increasing(short)
              && short[|short| - 1].content.logicalTime < long[|short|].content.logicalTime
  {
  }

  // ---------- No error iff accepted ----------

  lemma {:induction false} UniformNotedIsExact(envelopes: seq<Envelope>, n: nat, field: Envelope -> Text,
      makeErr: (nat, Text, Text) -> VerifyError, errors: seq<VerifyError>)
    requires 1 <= n <= |envelopes|
    ensures UniformNoted(envelopes, n, field, makeErr, errors) == [] <==>
              errors == [] && forall k :: 0 <= k < n ==> field(envelopes[k]) == field(envelopes[0])
  {
    if n > 1 {
      UniformNotedIsExact(envelopes, n - 1, field, makeErr, errors);
    }
  }

  lemma {:induction false} NeighboursNotedIsExact(envelopes: seq<Envelope>, n: nat, errors: seq<VerifyError>)
    requires 1 <= n <= |envelopes| && envelopes[0].content.parentId == None
    ensures NeighboursNoted(envelopes, n, errors) == [] <==>
              errors == [] && LinkedSoFar(envelopes, n) && IncreasingSoFar(envelopes, n)
  {
    if n > 1 {
      NeighboursNotedIsExact(envelopes, n - 1, errors);
    }
  }

  lemma {:induction false} NeighboursNotedGrows(envelopes: seq<Envelope>, n: nat, errors: seq<VerifyError>)
    requires 1 <= n <= |envelopes|
    ensures errors <= NeighboursNoted(envelopes, n, errors)
  {
    if n > 1 {
      NeighboursNotedGrows(envelopes, n - 1, errors);
    }
  }

  lemma ErrorsAreExact(envelopes: seq<Envelope>)
    ensures ChainErrors(envelopes) == [] <==> Accepted(envelopes)
  {
    if envelopes != [] {
      var n := |envelopes|;
      var head := HeadNoted(envelopes, []);
      var context := UniformNoted(envelopes, n, ContextOf, ContextError, head);
      var policy := UniformNoted(envelopes, n, PolicyOf, PolicyError, context);
      var schema := UniformNoted(envelopes, n, SchemaOf, SchemaError, policy);
      UniformNotedIsExact(envelopes, n, ContextOf, ContextError, head);
      UniformNotedIsExact(envelopes, n, PolicyOf, PolicyError, context);
      UniformNotedIsExact(envelopes, n, SchemaOf, SchemaError, policy);
      NeighboursNotedGrows(envelopes, n, schema);
      if envelopes[0].content.parentId == None {
        NeighboursNotedIsExact(envelopes, n, schema);
        SoFarIsGlobal(envelopes);
      }
    }
  }

  // ---------- One error per violation ----------

  // x describes a violation that is really there.
  predicate Violates(envelopes: seq<Envelope>, x: VerifyError) {
    var n := |envelopes|;
    match x
    case ContextInconsistent(i, expected, found) =>
      1 <= i < n && Differ(envelopes[0].content.contextDigest, envelopes[i].content.contextDigest, expected, found)
    case PolicyInconsistent(i, expected, found) =>
      1 <= i < n && Differ(envelopes[0].content.policyDigest, envelopes[i].content.policyDigest, expected, found)
    case SchemaInconsistent(i, expected, found) =>
      1 <= i < n && Differ(envelopes[0].content.schemaDigest, envelopes[i].content.schemaDigest, expected, found)
    case DuplicateEventHash(i, digest) =>
      1 <= i < n && digest == envelopes[i].eventHash && exists k :: 0 <= k < i && envelopes[k].eventHash == digest
    case ChainLinkageBroken(i, expected, parent) =>
      && i < n && parent == envelopes[i].content.parentId && parent != expected
      && expected == (if i == 0 then None else Some(envelopes[i - 1].eventHash))
    case LogicalTimeNotMonotonic(i, previous, current) =>
      && 1 <= i < n && current <= previous
      && previous == envelopes[i - 1].content.logicalTime && current == envelopes[i].content.logicalTime
    case _ => false
  }

  predicate Differ(first: Text, own: Text, expected: Text, found: Text) {
    expected == first && found == own && found != expected
  }

  lemma {:induction false} UniformNotedCount(envelopes: seq<Envelope>, n: nat, field: Envelope -> Text,
      makeErr: (nat, Text, Text) -> VerifyError, errors: seq<VerifyError>, x: VerifyError, k: nat)
    requires 1 <= n <= |envelopes|
    requires forall i, a, b :: makeErr(i, a, b) == x ==> i == k
    ensures multiset(UniformNoted(envelopes, n, field, makeErr, errors))[x]
         == multiset(errors)[x] + Once(1 <= k < n && field(envelopes[k]) != field(envelopes[0])
                                       && x == makeErr(k, field(envelopes[0]), field(envelopes[k])))
  {
    if n > 1 {
      UniformNotedCount(envelopes, n - 1, field, makeErr, errors, x, k);
    }
  }

  // Violations found by the loop over neighbours.
  predicate PairViolation(x: VerifyError) {
    || x.DuplicateEventHash? || x.LogicalTimeNotMonotonic? || (x.ChainLinkageBroken? && x.index > 0)
  }

  // How often x is found at envelope i.
  function FoundAt(envelopes: seq<Envelope>, i: nat, x: VerifyError): nat
    requires 1 <= i < |envelopes|
  {
    var prev, curr := envelopes[i - 1], envelopes[i];
    var expected, parent := Some(prev.eventHash), curr.content.parentId;
    var previous, current := prev.content.logicalTime, curr.content.logicalTime;
    Once(curr.eventHash in Hashes(envelopes, i) && x == DuplicateEventHash(i, curr.eventHash))
    + Once(parent != expected && x == ChainLinkageBroken(i, expected, parent))
    + Once(current <= previous && x == LogicalTimeNotMonotonic(i, previous, current))
  }

  function FoundUpTo(envelopes: seq<Envelope>, n: nat, x: VerifyError): nat
    requires 1 <= n <= |envelopes|
  {
    if n == 1 then 0 else FoundUpTo(envelopes, n - 1, x) + FoundAt(envelopes, n - 1, x)
  }

  lemma {:induction false} NeighboursNotedCount(envelopes: seq<Envelope>, n: nat, errors: seq<VerifyError>,
                                                x: VerifyError)
    requires 1 <= n <= |envelopes|
    ensures multiset(NeighboursNoted(envelopes, n, errors))[x] == multiset(errors)[x] + FoundUpTo(envelopes, n, x)
  {
    if n > 1 {
      NeighboursNotedCount(envelopes, n - 1, errors, x);
      NeighbourNotedCount(envelopes, n - 1, NeighboursNoted(envelopes, n - 1, errors), x);
    }
  }

  lemma NeighbourNotedCount(envelopes: seq<Envelope>, i: nat, errors: seq<VerifyError>, x: VerifyError)
    requires 1 <= i < |envelopes|
    ensures multiset(NeighbourNoted(envelopes, i, errors))[x] == multiset(errors)[x] + FoundAt(envelopes, i, x)
  {
  }

  // A violation is found at its own index only, and there exactly once.
  lemma FoundAtIndex(envelopes: seq<Envelope>, i: nat, x: VerifyError)
    requires 1 <= i < |envelopes|
    ensures FoundAt(envelopes, i, x) == Once(PairViolation(x) && x.index == i && Violates(envelopes, x))
  {
    HashesMeaning(envelopes, i, envelopes[i].eventHash);
  }

  lemma {:induction false} FoundOnce(envelopes: seq<Envelope>, n: nat, x: VerifyError)
    requires 1 <= n <= |envelopes|
    ensures FoundUpTo(envelopes, n, x) == Once(PairViolation(x) && x.index < n && Violates(envelopes, x))
  {
    if n > 1 {
      FoundOnce(envelopes, n - 1, x);
      FoundAtIndex(envelopes, n - 1, x);
    }
  }

  lemma HeadNotedCount(envelopes: seq<Envelope>, x: VerifyError)
    requires envelopes != []
    ensures multiset(HeadNoted(envelopes, []))[x]
         == Once(x.ChainLinkageBroken? && x.index == 0 && Violates(envelopes, x))
  {
  }

  // The list of errors holds exactly one entry for every violation, and no other.
  lemma OneErrorPerViolation(envelopes: seq<Envelope>, x: VerifyError)
    ensures multiset(ChainErrors(envelopes))[x] == Once(Violates(envelopes, x))
  {
    if envelopes != [] {
      var n := |envelopes|;
      var head := HeadNoted(envelopes, []);
      var context := UniformNoted(envelopes, n, ContextOf, ContextError, head);
      var policy := UniformNoted(envelopes, n, PolicyOf, PolicyError, context);
      var schema := UniformNoted(envelopes, n, SchemaOf, SchemaError, policy);
      HeadNotedCount(envelopes, x);
      ContextCount(envelopes, head, x);
      PolicyCount(envelopes, context, x);
      SchemaCount(envelopes, policy, x);
      NeighboursNotedCount(envelopes, n, schema, x);
      FoundOnce(envelopes, n, x);
    }
  }

  lemma ContextCount(envelopes: seq<Envelope>, errors: seq<VerifyError>, x: VerifyError)
    requires envelopes != []
    ensures multiset(UniformNoted(envelopes, |envelopes|, ContextOf, ContextError, errors))[x]
         == multiset(errors)[x] + Once(x.ContextInconsistent? && Violates(envelopes, x))
  {
    var k := if x.ContextInconsistent? then x.index else 0;
    UniformNotedCount(envelopes, |envelopes|, ContextOf, ContextError, errors, x, k);
  }

  lemma PolicyCount(envelopes: seq<Envelope>, errors: seq<VerifyError>, x: VerifyError)
    requires envelopes != []
    ensures multiset(UniformNoted(envelopes, |envelopes|, PolicyOf, PolicyError, errors))[x]
         == multiset(errors)[x] + Once(x.PolicyInconsistent? && Violates(envelopes, x))
  {
    var k := if x.PolicyInconsistent? then x.index else 0;
    UniformNotedCount(envelopes, |envelopes|, PolicyOf, PolicyError, errors, x, k);
  }

  lemma SchemaCount(envelopes: seq<Envelope>, errors: seq<VerifyError>, x: VerifyError)
    requires envelopes != []
    ensures multiset(UniformNoted(envelopes, |envelopes|, SchemaOf, SchemaError, errors))[x]
         == multiset(errors)[x] + Once(x.SchemaInconsistent? && Violates(envelopes, x))
  {
    var k := if x.SchemaInconsistent? then x.index else 0;
    UniformNotedCount(envelopes, |envelopes|, SchemaOf, SchemaError, errors, x, k);
  }

  // ---------- Which chains are accepted ----------

  // What an envelope needs, beside an accepted prefix, to be appended.
  ghost predicate Extends(envelopes: seq<Envelope>, e: Envelope) {
    if envelopes == [] then e.content.parentId == None
    else
      var last := envelopes[|envelopes| - 1];
      && e.content.parentId == Some(last.eventHash)
      && last.content.logicalTime < e.content.logicalTime
      && ContextOf(e) == ContextOf(last) && PolicyOf(e) == PolicyOf(last) && SchemaOf(e) == SchemaOf(last)
      && forall k :: 0 <= k < |envelopes| ==> envelopes[k].eventHash != e.eventHash
  }

  lemma UniformStep(short: seq<Envelope>, e: Envelope, field: Envelope -> Text)
    requires short != []
    ensures Uniform(short + [e], field) <==> Uniform(short, field) && field(e) == field(short[|short| - 1])
  {
    var long := short + [e];
    assert forall k :: 0 <= k < |short| ==> long[k] == short[k];
    if Uniform(long, field) {
      assert field(long[|short|]) == field(long[|short| - 1]);
    }
  }

  // Appending is accepted iff the prefix is and the local conditions hold; in
  // particular acceptance is closed under prefixes.
  lemma AcceptedStep(envelopes: seq<Envelope>, e: Envelope)
    ensures Accepted(envelopes + [e]) <==> Accepted(envelopes) && Extends(envelopes, e)
  {
    if envelopes != [] {
      LinkedStep(envelopes, envelopes + [e]);
      HashesMeaning(envelopes + [e], |envelopes|, e.eventHash);
      assert forall k :: 0 <= k < |envelopes| ==> (envelopes + [e])[k] == envelopes[k];
      IncreasingStep(envelopes, envelopes + [e]);
      UniformStep(envelopes, e, ContextOf);
      UniformStep(envelopes, e, PolicyOf);
      UniformStep(envelopes, e, SchemaOf);
    }
  }

  lemma AcceptedPrefix(envelopes: seq<Envelope>, n: nat)
    requires n <= |envelopes| && Accepted(envelopes)
    ensures Accepted(envelopes[..n])
  {
  }

  ghost function Elements(a: seq<Envelope>): set<Envelope> {
    set e | e in a
  }

  lemma ElementsEmpty(a: seq<Envelope>)
    ensures Elements(a) == {} <==> a == []
  {
    if a != [] {
      assert a[0] in Elements(a);
    }
  }

  // A collection of envelopes has at most one accepted order.
  lemma {:induction false} OrderIsUnique(a: seq<Envelope>, b: seq<Envelope>)
    requires Accepted(a) && Accepted(b) && Elements(a) == Elements(b)
    ensures a == b
  {
    ElementsEmpty(a);
    ElementsEmpty(b);
    if a != [] {
      var m, n := |a| - 1, |b| - 1;
      SameLast(a, b);
      SameRest(a, b);
      AcceptedPrefix(a, m);
      AcceptedPrefix(b, n);
      OrderIsUnique(a[..m], b[..n]);
      assert a == a[..m] + [a[m]] && b == b[..n] + [b[n]];
    }
  }

  lemma SameLast(a: seq<Envelope>, b: seq<Envelope>)
    requires a != [] && b != [] && Increasing(a) && Increasing(b) && Elements(a) == Elements(b)
    ensures a[|a| - 1] == b[|b| - 1]
  {
    var m, n := |a| - 1, |b| - 1;
    assert a[m] in Elements(a) && b[n] in Elements(b);
    var i :| 0 <= i < |b| && b[i] == a[m];
    var j :| 0 <= j < |a| && a[j] == b[n];
    assert b[i].content.logicalTime <= b[n].content.logicalTime;
    assert a[j].content.logicalTime <= a[m].content.logicalTime;
  }

  lemma SameRest(a: seq<Envelope>, b: seq<Envelope>)
    requires a != [] && b != [] && Increasing(a) && Increasing(b) && Elements(a) == Elements(b)
    requires a[|a| - 1] == b[|b| - 1]
    ensures Elements(a[..|a| - 1]) == Elements(b[..|b| - 1])
  {
    var a', b' := a[..|a| - 1], b[..|b| - 1];
    forall e ensures e in a' <==> e in b' {
      InInit(a, e);
      InInit(b, e);
      assert e in Elements(a) <==> e in Elements(b);
    }
  }

  lemma InInit(a: seq<Envelope>, e: Envelope)
    requires a != [] && Increasing(a)
    ensures e in a[..|a| - 1] <==> e in a && e != a[|a| - 1]
  {
  }

  // ---------- The head commits to the whole chain ----------

  ghost predicate HashesMatch(p: Platform, envelopes: seq<Envelope>) {
    forall e :: e in envelopes ==> VerifyEventHash(p, e).Pass?
  }

  lemma {:induction false} HeadCommitment(p: Platform, a: seq<Envelope>, b: seq<Envelope>)
    requires Injective(p)
    requires a != [] && b != []
    requires HashesMatch(p, a) && HashesMatch(p, b) && Linked(a) && Linked(b)
    requires a[|a| - 1].eventHash == b[|b| - 1].eventHash
    ensures a == b
  {
    var m, n := |a| - 1, |b| - 1;
    assert a[m] in a && b[n] in b;
    assert a[m].content == b[n].content;
    assert a[m] == b[n];
    assert m > 0 ==> a[m].content.parentId == Some(a[m - 1].eventHash);
    assert n > 0 ==> b[n].content.parentId == Some(b[n - 1].eventHash);
    if m > 0 {
      LinkedInit(a);
      LinkedInit(b);
      HeadCommitment(p, a[..m], b[..n]);
      assert a == a[..m] + [a[m]] && b == b[..n] + [b[n]];
    }
  }

  lemma LinkedInit(a: seq<Envelope>)
    requires |a| > 1 && Linked(a)
    ensures Linked(a[..|a| - 1])
  {
  }
}
