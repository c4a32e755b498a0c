// What the verdict on a closure bundle means, and what it does not depend on.
module ClosureTheorems {
  import opened Wrappers
  import opened Json
  import opened Receipts
  import opened Verify
  import opened DependencyGraph
  import opened Walk
  import opened WalkTheorems
  import opened ClosureBundle

  // ---------- Verdict ----------

  lemma EdgeErrorsAreExact(checks: seq<EdgeCheck>)
    ensures EdgeErrors(checks) == [] <==> NoEdgeOut(checks)
  {
    NothingCollected(checks, EdgeError);
  }

  lemma {:induction false} MalformedErrorsAreExact(p: Platform, raws: seq<string>)
    ensures MalformedErrors(p, raws) == [] <==> forall raw :: raw in raws ==> p.parse(raw).Some?
  {
    if raws != [] {
      MalformedErrorsAreExact(p, raws[1..]);
      assert forall raw :: raw in raws <==> raw == raws[0] || raw in raws[1..];
    }
  }

  lemma CompletenessErrorsAreExact(p: Platform, committed: set<Text>, dependencies: set<Text>)
    requires ListsSets(p)
    ensures CompletenessErrors(p, committed, dependencies) == [] <==> committed == dependencies
  {
    if t :| t in dependencies - committed {
      ListedOnce(p, dependencies - committed, t);
    } else if t :| t in committed - dependencies {
      ListedOnce(p, committed - dependencies, t);
    }
  }

  lemma ListedOnce(p: Platform, s: set<Text>, t: Text)
    requires ListsSets(p)
    ensures t in p.ascending(s) <==> t in s
    ensures multiset(p.ascending(s))[t] == Once(t in s)
  {
    assert t in p.ascending(s) <==> multiset(p.ascending(s))[t] > 0;
  }

  lemma EarlyErrorsAreExact(p: Platform, b: Bundle, root: Value)
    ensures EarlyErrors(p, b, root) == [] <==>
              && VerifyReceipt(p, b.rootCanonical).status.Valid?
              && ReadPayloadKind(root) == Some(PACK_KIND)
              && ManifestHolds(p, b.manifest, CommittedDigest(root))
              && forall raw :: raw in b.receipts ==> p.parse(raw).Some?
  {
    ReportsAreClean(p, b.rootCanonical);
    ManifestErrorsAreExact(p, b.manifest, CommittedDigest(root));
    MalformedErrorsAreExact(p, b.receipts);
    var errors := VerifyReceipt(p, b.rootCanonical).errors;
    assert RootErrors(errors) == [] <==> errors == [];
  }

  lemma AllErrorsAreExact(p: Platform, b: Bundle, root: Value, rootHash: Option<Text>, walked: State)
    requires ListsSets(p)
    ensures AllErrors(p, b, root, rootHash, walked) == [] <==>
              && EarlyErrors(p, b, root) == []
              && rootHash.Some?
              && NoEdgeOut(walked.edgeChecks)
              && !walked.cycleDetected
              && CommittedClosure(b.manifest) == Dependencies(rootHash, walked)
  {
    EdgeErrorsAreExact(walked.edgeChecks);
    CompletenessErrorsAreExact(p, CommittedClosure(b.manifest), Dependencies(rootHash, walked));
  }

  // Every rejection is explained and every acceptance is clean.
  lemma ClosureIsExplained(p: Platform, input: Option<Bundle>)
    requires ListsSets(p)
    ensures VerifyBundle(p, input).status.Valid? <==> VerifyBundle(p, input).errors == []
  {
    if input.Some? && input.value.format == EXPECTED_FORMAT && p.parse(input.value.rootCanonical).Some? {
      var b := input.value;
      var root := p.parse(b.rootCanonical).value;
      var rootHash := ReadEventHash(root);
      AllErrorsAreExact(p, b, root, rootHash, Walked(GraphOf(p, b), rootHash));
      EarlyErrorsAreExact(p, b, root);
    }
  }

  // The root value and its event hash, for a bundle that has them.
  predicate HasRoot(p: Platform, b: Bundle, root: Value, h: Text) {
    b.format == EXPECTED_FORMAT && p.parse(b.rootCanonical) == Some(root) && ReadEventHash(root) == Some(h)
  }

  // VALID, in terms of paths in the graph of supplied receipts.
  lemma VerdictIsExact(p: Platform, b: Bundle, root: Value, h: Text)
    requires ListsSets(p) && HasRoot(p, b, root, h)
    ensures VerifyBundle(p, Some(b)).status.Valid? <==>
              && VerifyReceipt(p, b.rootCanonical).status.Valid?
              && ReadPayloadKind(root) == Some(PACK_KIND)
              && ManifestHolds(p, b.manifest, CommittedDigest(root))
              && (forall raw :: raw in b.receipts ==> p.parse(raw).Some?)
              && AllResolved(GraphOf(p, b), h)
              && !Cyclic(GraphOf(p, b), AllTyped, h)
              && (forall t ::
                    t in CommittedClosure(b.manifest) <==> t != h && Reaches(GraphOf(p, b), ResolvedOnly, h, t))
  {
    var index := GraphOf(p, b);
    var walked := WalkFrom(index, h);
    ClosureIsExplained(p, Some(b));
    AllErrorsAreExact(p, b, root, Some(h), walked);
    EarlyErrorsAreExact(p, b, root);
    ChecksTellAllResolved(index, h);
    if AllResolved(index, h) {
      CycleFlagIsExact(index, h);
    }
    ReachableIsExact(index, h);
    assert CommittedClosure(b.manifest) == Dependencies(Some(h), walked) <==>
      forall t :: t in CommittedClosure(b.manifest) <==> t != h && Reaches(index, ResolvedOnly, h, t);
  }

  // A bundle without a readable root hash is never accepted.
  lemma NoRootHashIsRejected(p: Platform, b: Bundle)
    requires ListsSets(p)
    requires p.parse(b.rootCanonical).None? || ReadEventHash(p.parse(b.rootCanonical).value).None?
    ensures VerifyBundle(p, Some(b)).status.Invalid?
  {
  }

  // ---------- What the manifest checks leave open ----------

  lemma {:induction false} LookupElsewhere(members: seq<Member>, dropped: string, key: string)
    requires key != dropped
    ensures Lookup(Without(members, dropped), key) == Lookup(members, key)
  {
    if members != [] {
      LookupElsewhere(members[1..], dropped, key);
    }
  }

  // The manifest's members besides its claims about its digest and its root.
  function Substance(members: seq<Member>): seq<Member> {
    Without(Without(members, "manifest_digest"), "root_event_hash")
  }

  lemma SameSubstance(members: seq<Member>, members': seq<Member>, key: string)
    requires Substance(members) == Substance(members') && key != "manifest_digest" && key != "root_event_hash"
    ensures Lookup(members, key) == Lookup(members', key)
  {
    LookupElsewhere(members, "manifest_digest", key);
    LookupElsewhere(members', "manifest_digest", key);
    LookupElsewhere(Without(members, "manifest_digest"), "root_event_hash", key);
    LookupElsewhere(Without(members', "manifest_digest"), "root_event_hash", key);
  }

  // The errors of the manifest's digest checks, and those listed before and after.
  function DigestErrors(p: Platform, manifest: Value, committed: Option<Text>): seq<BundleError>
    requires manifest.Object?
  {
    var recomputed := p.manifestDigest(Object(Without(manifest.members, "manifest_digest")));
    DriftErrors(recomputed, GetText(manifest, "manifest_digest")) + RootDigestErrors(recomputed, committed)
  }

  function BeforeDigests(p: Platform, b: Bundle, root: Value): seq<BundleError> {
    RootErrors(VerifyReceipt(p, b.rootCanonical).errors) + KindErrors(ReadPayloadKind(root))
  }

  function AfterDigests(p: Platform, b: Bundle, root: Value, rootHash: Option<Text>, walked: State): seq<BundleError> {
    CountErrors(AsUnsigned(Get(b.manifest, "dependency_count")), AsArray(Get(b.manifest, "receipt_closure")))
    + MalformedErrors(p, b.receipts)
    + (if rootHash.None? then [NoRootEventHash] else [])
    + EdgeErrors(walked.edgeChecks)
    + (if walked.cycleDetected then [CycleDetected] else [])
    + CompletenessErrors(p, CommittedClosure(b.manifest), Dependencies(rootHash, walked))
  }

  lemma Regroup<T>(a: seq<T>, b: seq<T>, c: seq<T>, d: seq<T>, e: seq<T>, f: seq<T>, g: seq<T>, h: seq<T>)
    ensures a + (b + c) + d + e + f + g + h == a + b + (c + d + e + f + g + h)
  {
    var front := a + b;
    assert a + (b + c) == front + c;
    assert front + c + d == front + (c + d);
    assert front + (c + d) + e == front + (c + d + e);
    assert front + (c + d + e) + f == front + (c + d + e + f);
    assert front + (c + d + e + f) + g == front + (c + d + e + f + g);
    assert front + (c + d + e + f + g) + h == front + (c + d + e + f + g + h);
  }

  lemma ErrorsAroundDigests(p: Platform, b: Bundle, root: Value, rootHash: Option<Text>, walked: State)
    requires b.manifest.Object?
    ensures AllErrors(p, b, root, rootHash, walked)
         == BeforeDigests(p, b, root) + DigestErrors(p, b.manifest, CommittedDigest(root))
            + AfterDigests(p, b, root, rootHash, walked)
  {
    Regroup(BeforeDigests(p, b, root), DigestErrors(p, b.manifest, CommittedDigest(root)),
            CountErrors(AsUnsigned(Get(b.manifest, "dependency_count")), AsArray(Get(b.manifest, "receipt_closure"))),
            MalformedErrors(p, b.receipts), if rootHash.None? then [NoRootEventHash] else [],
            EdgeErrors(walked.edgeChecks), if walked.cycleDetected then [CycleDetected] else [],
            CompletenessErrors(p, CommittedClosure(b.manifest), Dependencies(rootHash, walked)));
  }

  // The stated `root_event_hash` is never compared with anything. A manifest that
  // states another one, and therefore may have another digest, gives a result
  // that differs in the outcome of the digest checks only.
  lemma StatedRootIsIgnored(p: Platform, b: Bundle, root: Value, manifest: Value)
    requires b.format == EXPECTED_FORMAT && p.parse(b.rootCanonical) == Some(root)
    requires b.manifest.Object? && manifest.Object? && Substance(manifest.members) == Substance(b.manifest.members)
    ensures var r, r' := VerifyBundle(p, Some(b)), VerifyBundle(p, Some(b.(manifest := manifest)));
            var c := CommittedDigest(root);
            && r' == r.(status := r'.status, manifestDigestOk := r'.manifestDigestOk, errors := r'.errors)
            && exists before, after ::
                 && r.errors == before + DigestErrors(p, b.manifest, c) + after
                 && r'.errors == before + DigestErrors(p, manifest, c) + after
  {
    SameSubstance(manifest.members, b.manifest.members, "receipt_closure");
    SameSubstance(manifest.members, b.manifest.members, "dependency_count");
    var rootHash := ReadEventHash(root);
    var walked := Walked(GraphOf(p, b), rootHash);
    ErrorsAroundDigests(p, b, root, rootHash, walked);
    ErrorsAroundDigests(p, b.(manifest := manifest), root, rootHash, walked);
    assert AfterDigests(p, b.(manifest := manifest), root, rootHash, walked)
        == AfterDigests(p, b, root, rootHash, walked);
  }

  // Every entry is a string, and none is listed twice.
  predicate ListsTextsOnce(vs: seq<Value>) {
    && (forall v :: v in vs ==> v.Str?)
    && (forall i, j :: 0 <= i < j < |vs| ==> vs[i] != vs[j])
  }

  lemma {:induction false} SizeOfTexts(vs: seq<Value>)
    ensures |TextsIn(vs)| <= |vs|
    ensures |TextsIn(vs)| == |vs| <==> ListsTextsOnce(vs)
  {
    if vs != [] {
      var first, rest := vs[0], vs[1..];
      SizeOfTexts(rest);
      assert forall v :: v in vs <==> v == first || v in rest;
      if first.Str? {
        assert TextsIn(vs) == TextsIn(rest) + {first.text};
        assert first.text in TextsIn(rest) <==> first in rest;
        assert ListsTextsOnce(vs) <==> ListsTextsOnce(rest) && first !in rest;
      } else {
        assert TextsIn(vs) == TextsIn(rest);
        assert first in vs;
      }
    }
  }

  // A VALID bundle's stated dependency count is the size of its closure iff the
  // manifest lists strings only and none twice; without a list the closure is
  // empty and any count is accepted.
  lemma StatedCount(p: Platform, b: Bundle, count: nat)
    requires VerifyBundle(p, Some(b)).status.Valid?
    requires AsUnsigned(Get(b.manifest, "dependency_count")) == Some(count)
    ensures var listed, size := AsArray(Get(b.manifest, "receipt_closure")), VerifyBundle(p, Some(b)).closureSize;
            && (listed.Some? ==> size <= count && (size == count <==> ListsTextsOnce(listed.value)))
            && (listed.None? ==> size == 0)
  {
    var listed := AsArray(Get(b.manifest, "receipt_closure"));
    if listed.Some? {
      SizeOfTexts(listed.value);
    }
  }

  // ---------- The graph, key by key ----------

  // A key of the result is an old key or comes from one of the texts.
  lemma {:induction false} InsertedKeys(p: Platform, index: Index, raws: seq<string>, k: Text)
    ensures var result := InsertedAll(p, index, raws);
            k in result ==>
              || Find(result, k) == Find(index, k)
              || exists raw :: raw in raws && NodeOf(p, raw) == Some((k, result[k]))
    decreases |raws|
  {
    if raws != [] {
      InsertedKeys(p, Inserted(p, index, raws[0]), raws[1..], k);
      assert forall raw :: raw in raws[1..] ==> raw in raws;
      assert raws[0] in raws;
    }
  }

  // The key of each text ends up in the graph, and keys no text has are left alone.
  lemma {:induction false} InsertedAllFind(p: Platform, index: Index, raws: seq<string>, k: Text)
    ensures (exists raw :: raw in raws && Names(p, raw, k)) ==> k in InsertedAll(p, index, raws)
    ensures k in index ==> k in InsertedAll(p, index, raws)
    ensures (forall raw :: raw in raws ==> !Names(p, raw, k)) ==> Find(InsertedAll(p, index, raws), k) == Find(index, k)
    decreases |raws|
  {
    if raws != [] {
      var next := Inserted(p, index, raws[0]);
      InsertedAllFind(p, next, raws[1..], k);
      assert forall raw :: raw in raws <==> raw == raws[0] || raw in raws[1..];
      assert !Names(p, raws[0], k) ==> Find(next, k) == Find(index, k);
    }
  }

  // The text's event hash reads as k.
  predicate Names(p: Platform, raw: string, k: Text) {
    NodeOf(p, raw).Some? && NodeOf(p, raw).value.0 == k
  }

  lemma GraphEntry(p: Platform, b: Bundle, k: Text)
    requires k in GraphOf(p, b)
    ensures exists raw :: raw in Texts(b) && NodeOf(p, raw) == Some((k, GraphOf(p, b)[k]))
  {
    InsertedKeys(p, map[], Texts(b), k);
  }

  function Texts(b: Bundle): seq<string> {
    [b.rootCanonical] + b.receipts
  }

  lemma {:induction false} InsertedAllConcat(p: Platform, index: Index, first: seq<string>, second: seq<string>)
    ensures InsertedAll(p, index, first + second) == InsertedAll(p, InsertedAll(p, index, first), second)
    decreases |first|
  {
    if first == [] {
      assert first + second == second;
    } else {
      assert (first + second)[1..] == first[1..] + second;
      InsertedAllConcat(p, Inserted(p, index, first[0]), first[1..], second);
    }
  }

  // The last text that names a key decides its node, the root included.
  lemma LastInsertionWins(p: Platform, b: Bundle, i: nat, k: Text)
    requires i < |Texts(b)| && Names(p, Texts(b)[i], k)
    requires forall j :: i < j < |Texts(b)| ==> !Names(p, Texts(b)[j], k)
    ensures Find(GraphOf(p, b), k) == Some(NodeOf(p, Texts(b)[i]).value.1)
  {
    var texts := Texts(b);
    var before, after := texts[..i + 1], texts[i + 1..];
    assert before + after == texts;
    InsertedAllConcat(p, map[], before, after);
    assert before == texts[..i] + [texts[i]];
    InsertedAllConcat(p, map[], texts[..i], [texts[i]]);
    InsertedAllFind(p, InsertedAll(p, map[], before), after, k);
  }

  // ---------- Transport order ----------

  // Texts with the same event hash contribute the same node.
  ghost predicate Agreeing(p: Platform, raws: seq<string>) {
    forall raw, raw', k :: raw in raws && raw' in raws && Names(p, raw, k) && Names(p, raw', k)
      ==> NodeOf(p, raw) == NodeOf(p, raw')
  }

  // No two supplied receipts have the same readable event hash.
  ghost predicate DistinctHashes(p: Platform, raws: seq<string>) {
    forall i, j, k :: 0 <= i < j < |raws| && Names(p, raws[i], k) ==> !Names(p, raws[j], k)
  }

  lemma DistinctHashesAgree(p: Platform, raws: seq<string>)
    requires DistinctHashes(p, raws)
    ensures Agreeing(p, raws)
  {
    forall raw, raw', k | raw in raws && raw' in raws && Names(p, raw, k) && Names(p, raw', k)
      ensures NodeOf(p, raw) == NodeOf(p, raw')
    {
      var i :| 0 <= i < |raws| && raws[i] == raw;
      var j :| 0 <= j < |raws| && raws[j] == raw';
      assert !(i < j) && !(j < i);
    }
  }

  // Once a text names a key, what the graph held at the key before is forgotten.
  lemma {:induction false} NamedForgets(p: Platform, index: Index, other: Index, raws: seq<string>, k: Text)
    requires exists raw :: raw in raws && Names(p, raw, k)
    ensures Find(InsertedAll(p, index, raws), k) == Find(InsertedAll(p, other, raws), k)
    decreases |raws|
  {
    var next, next' := Inserted(p, index, raws[0]), Inserted(p, other, raws[0]);
    if Names(p, raws[0], k) {
      FindAfterInsertion(p, next, next', raws[1..], k);
    } else {
      assert forall raw :: raw in raws <==> raw == raws[0] || raw in raws[1..];
      NamedForgets(p, next, next', raws[1..], k);
    }
  }

  // Any text that names a key says what the graph holds there.
  lemma AgreeingFind(p: Platform, index: Index, raws: seq<string>, raw: string, k: Text)
    requires Agreeing(p, raws) && raw in raws && Names(p, raw, k)
    ensures Find(InsertedAll(p, index, raws), k) == Some(NodeOf(p, raw).value.1)
  {
    NamedForgets(p, index, map[], raws, k);
    InsertedAllFind(p, map[], raws, k);
    InsertedKeys(p, map[], raws, k);
    var raw' :| raw' in raws && NodeOf(p, raw') == Some((k, InsertedAll(p, map[], raws)[k]));
    assert Names(p, raw', k);
  }

  lemma {:induction false} MalformedErrorsPermute(p: Platform, raws: seq<string>, raws': seq<string>)
    requires multiset(raws) == multiset(raws')
    ensures MalformedErrors(p, raws) == MalformedErrors(p, raws')
  {
    if raws == [] {
      assert |multiset(raws')| == 0;
    } else {
      var j := SamePosition(raws, raws');
      MalformedErrorsPermute(p, raws[1..], raws'[..j] + raws'[j + 1..]);
      MalformedErrorsSplit(p, raws', j);
    }
  }

  // Where the first text of one list stands in a permutation of it; dropping
  // both leaves permutations.
  lemma SamePosition(raws: seq<string>, raws': seq<string>) returns (j: nat)
    requires raws != [] && multiset(raws) == multiset(raws')
    ensures j < |raws'| && raws'[j] == raws[0]
    ensures multiset(raws[1..]) == multiset(raws'[..j] + raws'[j + 1..])
  {
    j := PositionOf(raws', raws[0]);
    DropFirst(raws);
    DropOne(raws', j);
  }

  lemma PositionOf(raws: seq<string>, raw: string) returns (j: nat)
    requires raw in multiset(raws)
    ensures j < |raws| && raws[j] == raw
  {
    j :| 0 <= j < |raws| && raws[j] == raw;
  }

  lemma DropFirst(raws: seq<string>)
    requires raws != []
    ensures multiset(raws[1..]) == multiset(raws) - multiset{raws[0]}
  {
    assert raws == [raws[0]] + raws[1..];
  }

  lemma DropOne(raws: seq<string>, j: nat)
    requires j < |raws|
    ensures multiset(raws[..j] + raws[j + 1..]) == multiset(raws) - multiset{raws[j]}
  {
    assert raws == raws[..j] + [raws[j]] + raws[j + 1..];
  }

  lemma {:induction false} MalformedErrorsSplit(p: Platform, raws: seq<string>, j: nat)
    requires j < |raws|
    ensures MalformedErrors(p, raws) == MalformedErrors(p, [raws[j]]) + MalformedErrors(p, raws[..j] + raws[j + 1..])
  {
    if j == 0 {
      assert raws[..0] + raws[1..] == raws[1..];
    } else {
      var rest := raws[..j] + raws[j + 1..];
      assert rest[1..] == raws[1..][..j - 1] + raws[1..][j..];
      MalformedErrorsSplit(p, raws[1..], j - 1);
    }
  }

  // The order in which the receipts are supplied, repeated ones included, does
  // not matter when they agree with one another; the root always comes first.
  lemma TransportOrderIsIrrelevant(p: Platform, b: Bundle, receipts: seq<string>)
    requires multiset(receipts) == multiset(b.receipts) && Agreeing(p, b.receipts)
    ensures GraphOf(p, b.(receipts := receipts)) == GraphOf(p, b)
    ensures VerifyBundle(p, Some(b.(receipts := receipts))) == VerifyBundle(p, Some(b))
  {
    forall raw ensures raw in receipts <==> raw in b.receipts {
      assert raw in multiset(receipts) <==> raw in multiset(b.receipts);
    }
    SameGraph(p, Inserted(p, map[], b.rootCanonical), b.receipts, receipts);
    RootIsFirst(p, b);
    RootIsFirst(p, b.(receipts := receipts));
    MalformedErrorsPermute(p, receipts, b.receipts);
  }

  lemma RootIsFirst(p: Platform, b: Bundle)
    ensures GraphOf(p, b) == InsertedAll(p, Inserted(p, map[], b.rootCanonical), b.receipts)
  {
  }

  lemma SameGraph(p: Platform, index: Index, raws: seq<string>, raws': seq<string>)
    requires Agreeing(p, raws) && forall raw :: raw in raws' <==> raw in raws
    ensures InsertedAll(p, index, raws') == InsertedAll(p, index, raws)
  {
    forall k ensures Find(InsertedAll(p, index, raws'), k) == Find(InsertedAll(p, index, raws), k) {
      if raw :| raw in raws && Names(p, raw, k) {
        AgreeingFind(p, index, raws, raw, k);
        AgreeingFind(p, index, raws', raw, k);
      } else {
        InsertedAllFind(p, index, raws, k);
        InsertedAllFind(p, index, raws', k);
      }
    }
    SameIndex(InsertedAll(p, index, raws'), InsertedAll(p, index, raws));
  }

  // Every order of the supplied receipts gives the same graph.
  ghost predicate OrderNeverMatters(p: Platform, b: Bundle) {
    forall receipts :: multiset(receipts) == multiset(b.receipts) ==>
      GraphOf(p, b.(receipts := receipts)) == GraphOf(p, b)
  }

  // Agreement is needed: of two texts that differ on a key, the one put last
  // decides it.
  lemma OrderMattersUnlessAgreeing(p: Platform, b: Bundle)
    ensures OrderNeverMatters(p, b) <==> Agreeing(p, b.receipts)
  {
    if Agreeing(p, b.receipts) {
      forall receipts | multiset(receipts) == multiset(b.receipts)
        ensures GraphOf(p, b.(receipts := receipts)) == GraphOf(p, b)
      {
        TransportOrderIsIrrelevant(p, b, receipts);
      }
    }
    if OrderNeverMatters(p, b) {
      forall raw, k | raw in b.receipts && Names(p, raw, k)
        ensures Find(GraphOf(p, b), k) == Some(NodeOf(p, raw).value.1)
      {
        PutLast(p, b, raw, k);
      }
    }
  }

  lemma PutLast(p: Platform, b: Bundle, raw: string, k: Text)
    requires OrderNeverMatters(p, b) && raw in b.receipts && Names(p, raw, k)
    ensures Find(GraphOf(p, b), k) == Some(NodeOf(p, raw).value.1)
  {
    var j :| 0 <= j < |b.receipts| && b.receipts[j] == raw;
    DropOne(b.receipts, j);
    var receipts := b.receipts[..j] + b.receipts[j + 1..] + [raw];
    var b' := b.(receipts := receipts);
    assert multiset(receipts) == multiset(b.receipts);
    assert GraphOf(p, b') == GraphOf(p, b);
    LastInsertionWins(p, b', |Texts(b')| - 1, k);
  }

  lemma SameIndex(index: Index, other: Index)
    requires forall k :: Find(index, k) == Find(other, k)
    ensures index == other
  {
    assert forall k :: k in index <==> Find(index, k).Some?;
    assert forall k :: k in other <==> Find(other, k).Some?;
    assert index.Keys == other.Keys;
    forall k | k in index ensures index[k] == other[k] {
      assert Find(index, k) == Find(other, k);
    }
  }

  // ---------- Locality ----------

  // A supplied receipt that no node of the walk asks for, wherever it stands
  // in the list and whatever it says, leaves the whole result unchanged.
  lemma UnrelatedReceiptIsIgnored(p: Platform, b: Bundle, root: Value, h: Text, i: nat, raw: string)
    requires HasRoot(p, b, root, h) && i <= |b.receipts| && p.parse(raw).Some?
    requires NodeOf(p, raw).Some? ==>
               var k := NodeOf(p, raw).value.0;
               && k != h
               && forall u :: Reaches(GraphOf(p, b), ResolvedOnly, h, u) ==> !Edge(GraphOf(p, b), AllTyped, u, k)
    ensures VerifyBundle(p, Some(b.(receipts := b.receipts[..i] + [raw] + b.receipts[i..]))) == VerifyBundle(p, Some(b))
  {
    var b' := b.(receipts := b.receipts[..i] + [raw] + b.receipts[i..]);
    var index, index' := GraphOf(p, b), GraphOf(p, b');
    var found := WalkFrom(index, h).reachable;
    ReachableIsExact(index, h);
    forall k | !Names(p, raw, k) ensures Find(index, k) == Find(index', k) {
      InsertionElsewhere(p, b, i, raw, k);
    }
    forall u | u in found ensures Find(index, u) == Find(index', u) {
      if Names(p, raw, u) {
        var n: nat :| PathOf(index, ResolvedOnly, n, h, u);
        LastEdge(index, n, h, u);
      }
    }
    WalkIsLocal(index, index', h);
    InsertionParses(p, b.receipts, i, raw);
  }

  lemma LastEdge(index: Index, n: nat, h: Text, u: Text)
    requires PathOf(index, ResolvedOnly, n, h, u) && u != h
    ensures exists w :: Reaches(index, ResolvedOnly, h, w) && Edge(index, AllTyped, w, u)
  {
    var w :| PathOf(index, ResolvedOnly, n - 1, h, w) && Edge(index, ResolvedOnly, w, u);
    ResolvedIsTyped(index, w, u);
    assert Reaches(index, ResolvedOnly, h, w);
  }

  lemma InsertionElsewhere(p: Platform, b: Bundle, i: nat, raw: string, k: Text)
    requires i <= |b.receipts| && !Names(p, raw, k)
    ensures Find(GraphOf(p, b.(receipts := b.receipts[..i] + [raw] + b.receipts[i..])), k) == Find(GraphOf(p, b), k)
  {
    var first := [b.rootCanonical] + b.receipts[..i];
    var rest := b.receipts[i..];
    assert Texts(b) == first + rest;
    assert Texts(b.(receipts := b.receipts[..i] + [raw] + b.receipts[i..])) == first + ([raw] + rest);
    InsertedAllConcat(p, map[], first, rest);
    InsertedAllConcat(p, map[], first, [raw] + rest);
    assert ([raw] + rest)[1..] == rest;
    var index := InsertedAll(p, map[], first);
    FindAfterInsertion(p, index, Inserted(p, index, raw), rest, k);
  }

  lemma {:induction false} FindAfterInsertion(p: Platform, index: Index, other: Index, raws: seq<string>, k: Text)
    requires Find(index, k) == Find(other, k)
    ensures Find(InsertedAll(p, index, raws), k) == Find(InsertedAll(p, other, raws), k)
    decreases |raws|
  {
    if raws != [] {
      FindAfterInsertion(p, Inserted(p, index, raws[0]), Inserted(p, other, raws[0]), raws[1..], k);
    }
  }

  lemma {:induction false} InsertionParses(p: Platform, raws: seq<string>, i: nat, raw: string)
    requires i <= |raws| && p.parse(raw).Some?
    ensures MalformedErrors(p, raws[..i] + [raw] + raws[i..]) == MalformedErrors(p, raws)
  {
    var longer := raws[..i] + [raw] + raws[i..];
    if i == 0 {
      assert longer[1..] == raws;
    } else {
      assert longer[0] == raws[0];
      assert longer[1..] == raws[1..][..i - 1] + [raw] + raws[1..][i - 1..];
      InsertionParses(p, raws[1..], i - 1, raw);
    }
  }
}
