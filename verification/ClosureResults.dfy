// The result for a closure bundle, for every input and field by field.
module ClosureResults {
  import opened Wrappers
  import opened Json
  import opened Receipts
  import opened Verify
  import opened DependencyGraph
  import opened Walk
  import opened WalkOrder
  import opened ClosureBundle
  import opened ClosureTheorems
  import opened ClosureErrors

  // ---------- What is read from a receipt ----------

  // The payload's text under this name.
  predicate PayloadHas(v: Value, name: string, t: Text) {
    Get(v, "payload").Some? && GetText(Get(v, "payload").value, name) == Some(t)
  }

  lemma ReadingsAreExact(v: Value, t: Text)
    ensures ReadEventHash(v) == Some(t) <==> GetText(v, "event_hash") == Some(t)
    ensures ReadPayloadKind(v) == Some(t) <==> PayloadHas(v, "payload_kind", t)
    ensures CommittedDigest(v) == Some(t) <==> PayloadHas(v, "closure_manifest_digest", t)
  {
  }

  // ---------- The verdict on any input ----------

  // Everything a bundle must be to be accepted.
  ghost predicate Acceptable(p: Platform, b: Bundle, root: Value, h: Text, digest: Text) {
    var index := GraphOf(p, b);
    && b.format == Chars("vr-layered-bundle/v1")
    && p.parse(b.rootCanonical) == Some(root) && GetText(root, "event_hash") == Some(h)
    && VerifyReceipt(p, b.rootCanonical).status.Valid?
    && PayloadHas(root, "payload_kind", Chars("pack.v0"))
    && PayloadHas(root, "closure_manifest_digest", digest) && ManifestHolds(p, b.manifest, Some(digest))
    && (forall raw :: raw in b.receipts ==> p.parse(raw).Some?)
    && AllResolved(index, h) && !Cyclic(index, AllTyped, h)
    && (forall t :: t in CommittedClosure(b.manifest) <==> t != h && Reaches(index, ResolvedOnly, h, t))
  }

  // VALID exactly for a bundle of the expected format whose root reads as a pack
  // with a hash and for which all the conditions hold. Nothing else is accepted.
  lemma InputVerdict(p: Platform, input: Option<Bundle>)
    requires ListsSets(p)
    ensures VerifyBundle(p, input).status.Valid? <==>
              input.Some? && exists root, h, digest :: Acceptable(p, input.value, root, h, digest)
  {
    if input.Some? && input.value.format == EXPECTED_FORMAT && p.parse(input.value.rootCanonical).Some? {
      var b, root := input.value, p.parse(input.value.rootCanonical).value;
      if ReadEventHash(root).Some? {
        RootedVerdict(p, b, root, ReadEventHash(root).value);
      } else {
        NoRootHashIsRejected(p, b);
      }
    }
  }

  lemma RootedVerdict(p: Platform, b: Bundle, root: Value, h: Text)
    requires ListsSets(p) && HasRoot(p, b, root, h)
    ensures VerifyBundle(p, Some(b)).status.Valid? <==> exists digest :: Acceptable(p, b, root, h, digest)
  {
    VerdictIsExact(p, b, root, h);
    ReadingsAreExact(root, PACK_KIND);
    forall digest
      ensures CommittedDigest(root) == Some(digest) <==> PayloadHas(root, "closure_manifest_digest", digest)
    {
      ReadingsAreExact(root, digest);
    }
    if VerifyBundle(p, Some(b)).status.Valid? {
      assert Acceptable(p, b, root, h, CommittedDigest(root).value);
    }
  }

  // Nothing was looked at: one error, nothing found, every flag down.
  predicate IsRejection(r: ClosureResult, error: BundleError) {
    && r.status.Invalid? && r.errors == [error] && r.edgeChecks == [] && r.closureSize == 0
    && r.rootEventHash.None? && !r.manifestDigestOk && !r.closureComplete && !r.cycleDetected
    && r.rootResult.status.Invalid?
  }

  // The three inputs that are rejected at once. A root that is not JSON is one of
  // them whatever its verification found.
  lemma EarlyRejections(p: Platform, input: Option<Bundle>)
    ensures input.None? ==> IsRejection(VerifyBundle(p, input), MalformedBundle)
    ensures input.Some? && input.value.format != Chars("vr-layered-bundle/v1") ==>
              IsRejection(VerifyBundle(p, input), UnsupportedFormat(input.value.format))
    ensures input.Some? && input.value.format == Chars("vr-layered-bundle/v1")
              && p.parse(input.value.rootCanonical).None? ==>
              IsRejection(VerifyBundle(p, input), MalformedRoot)
  {
  }

  // ---------- The result, field by field ----------

  // The fields of every other result. The checks and the cycle flag are those of
  // the trail from the root's hash.
  lemma ResultFields(p: Platform, b: Bundle, root: Value) returns (dependencies: set<Text>, t: seq<Step>)
    requires b.format == Chars("vr-layered-bundle/v1") && p.parse(b.rootCanonical) == Some(root)
    ensures var r := VerifyBundle(p, Some(b));
            && r.rootResult == VerifyReceipt(p, b.rootCanonical) && r.rootEventHash == GetText(root, "event_hash")
            && (r.manifestDigestOk <==>
                  exists digest :: PayloadHas(root, "closure_manifest_digest", digest)
                    && ManifestHolds(p, b.manifest, Some(digest)))
            && r.closureSize == |dependencies| && (r.closureComplete <==> CommittedClosure(b.manifest) == dependencies)
    ensures forall h :: h in dependencies <==> Dependency(p, b, root, h)
    ensures ChecksFollow(GraphOf(p, b), GetText(root, "event_hash"), t, VerifyBundle(p, Some(b)))
  {
    var rootHash, index := GetText(root, "event_hash"), GraphOf(p, b);
    dependencies := Dependencies(rootHash, Walked(index, rootHash));
    DependenciesAreReached(p, b, root, rootHash, Walked(index, rootHash));
    if CommittedDigest(root).Some? {
      ReadingsAreExact(root, CommittedDigest(root).value);
    }
    forall digest
      ensures PayloadHas(root, "closure_manifest_digest", digest) ==> CommittedDigest(root) == Some(digest)
    {
      ReadingsAreExact(root, digest);
    }
    t := [];
    if rootHash.Some? {
      t := WalkFollowsTrail(index, rootHash.value);
    }
  }

  ghost predicate ChecksFollow(index: Index, rootHash: Option<Text>, t: seq<Step>, r: ClosureResult) {
    if rootHash.None? then r.edgeChecks == [] && !r.cycleDetected
    else
      && Trail(index, rootHash.value, t) && |r.edgeChecks| == |t|
      && (forall i :: 0 <= i < |t| ==> r.edgeChecks[i] == StepCheck(index, t[i]))
      && (r.cycleDetected <==> exists i :: BackStep(index, rootHash.value, t, i))
  }

  // ---------- The order of the errors ----------

  // The step of the verifier that reports the error.
  function Stage(x: BundleError): nat {
    match x
    case RootNotPack(_) => 1
    case ManifestNotObject => 2
    case ManifestDigestDrift(_, _) => 2
    case ManifestDigestAbsent => 2
    case RootDigestMismatch(_, _) => 3
    case RootCommitsNoDigest => 3
    case DependencyCountMismatch(_, _) => 4
    case ReceiptNotJson => 5
    case NoRootEventHash => 6
    case _ => 7
  }

  predicate ByStage(errors: seq<BundleError>) {
    forall i, j :: 0 <= i < j < |errors| ==> Stage(errors[i]) <= Stage(errors[j])
  }

  predicate StagesWithin(errors: seq<BundleError>, least: nat, most: nat) {
    ByStage(errors) && forall x :: x in errors ==> least <= Stage(x) <= most
  }

  lemma JoinStages(a: seq<BundleError>, b: seq<BundleError>, least: nat, middle: nat, next: nat, most: nat)
    requires StagesWithin(a, least, middle) && StagesWithin(b, next, most)
    requires least <= next && middle <= next && middle <= most
    ensures StagesWithin(a + b, least, most)
  {
    var c := a + b;
    assert forall i :: 0 <= i < |a| ==> c[i] in a;
    assert forall i :: |a| <= i < |c| ==> c[i] == b[i - |a|] && c[i] in b;
  }

  lemma {:induction false} MalformedStage(p: Platform, raws: seq<string>)
    ensures StagesWithin(MalformedErrors(p, raws), 5, 5)
  {
    if raws != [] {
      MalformedStage(p, raws[1..]);
    }
  }

  lemma EarlyStages(p: Platform, b: Bundle, root: Value) returns (middle: seq<BundleError>)
    ensures EarlyErrors(p, b, root) == RootErrors(VerifyReceipt(p, b.rootCanonical).errors) + middle
    ensures StagesWithin(middle, 1, 5)
  {
    var own, kind := RootErrors(VerifyReceipt(p, b.rootCanonical).errors), KindErrors(ReadPayloadKind(root));
    var manifest := ManifestErrors(p, b.manifest, CommittedDigest(root));
    var malformed := MalformedErrors(p, b.receipts);
    middle := kind + manifest + malformed;
    Reassociate(own, kind, manifest, malformed);
    ManifestStages(p, b.manifest, CommittedDigest(root));
    MalformedStage(p, b.receipts);
    JoinStages(kind, manifest, 1, 1, 2, 4);
    JoinStages(kind + manifest, malformed, 1, 4, 5, 5);
  }

  lemma Reassociate<T>(a: seq<T>, b: seq<T>, c: seq<T>, d: seq<T>)
    ensures a + b + c + d == a + (b + c + d)
  {
  }

  lemma ManifestStages(p: Platform, manifest: Value, committed: Option<Text>)
    ensures StagesWithin(ManifestErrors(p, manifest, committed), 2, 4)
  {
    if manifest.Object? {
      var recomputed, stated := Recomputed(p, manifest), GetText(manifest, "manifest_digest");
      var count, listed := AsUnsigned(Get(manifest, "dependency_count")), AsArray(Get(manifest, "receipt_closure"));
      var drift, mismatch := DriftErrors(recomputed, stated), RootDigestErrors(recomputed, committed);
      JoinStages(drift, mismatch, 2, 2, 3, 3);
      JoinStages(drift + mismatch, CountErrors(count, listed), 2, 3, 4, 4);
    }
  }

  // One error for each check that is out, in the order of the checks.
  ghost predicate EdgesInOrder(edges: seq<BundleError>, checks: seq<EdgeCheck>, at: seq<nat>) {
    && |at| == |edges|
    && (forall i, j :: 0 <= i < j < |at| ==> at[i] < at[j])
    && (forall k: nat :: k in at <==> k < |checks| && checks[k].status != Resolved)
    && (forall i :: 0 <= i < |at| ==>
          at[i] < |checks| && edges[i] == EdgeOut(checks[at[i]].eventHash, checks[at[i]].status))
  }

  // First the missing hashes, then the extra ones, each in iteration order.
  predicate DifferencesInOrder(p: Platform, errors: seq<BundleError>, missing: set<Text>, extra: set<Text>) {
    var first, second := p.ascending(missing), p.ascending(extra);
    && |errors| == |first| + |second|
    && (forall i :: 0 <= i < |first| ==> errors[i] == AbsentFromClosure(first[i]))
    && (forall i :: 0 <= i < |second| ==> errors[|first| + i] == NotReachable(second[i]))
  }

  ghost predicate DifferencesListed(p: Platform, b: Bundle, root: Value, errors: seq<BundleError>) {
    exists missing, extra :: DifferencesInOrder(p, errors, missing, extra)
      && (forall h :: h in missing <==> Dependency(p, b, root, h) && h !in CommittedClosure(b.manifest))
      && (forall h :: h in extra <==> h in CommittedClosure(b.manifest) && !Dependency(p, b, root, h))
  }

  lemma CompletenessInOrder(p: Platform, committed: set<Text>, dependencies: set<Text>)
    requires committed != dependencies
    ensures DifferencesInOrder(p, CompletenessErrors(p, committed, dependencies),
                               dependencies - committed, committed - dependencies)
  {
  }

  lemma DifferencesAreListed(p: Platform, b: Bundle, root: Value, dependencies: set<Text>)
    requires var rootHash := GetText(root, "event_hash");
             dependencies == Dependencies(rootHash, Walked(GraphOf(p, b), rootHash))
    ensures var committed := CommittedClosure(b.manifest);
            committed != dependencies ==> DifferencesListed(p, b, root, CompletenessErrors(p, committed, dependencies))
  {
    var rootHash, committed := GetText(root, "event_hash"), CommittedClosure(b.manifest);
    DependenciesAreReached(p, b, root, rootHash, Walked(GraphOf(p, b), rootHash));
    if committed != dependencies {
      CompletenessInOrder(p, committed, dependencies);
    }
  }

  // The errors, split by the steps that report them.
  datatype Split = Split(
    own: seq<BundleError>,
    middle: seq<BundleError>,
    edges: seq<BundleError>,
    cycle: seq<BundleError>,
    differences: seq<BundleError>)

  function Whole(split: Split): seq<BundleError> {
    split.own + split.middle + split.edges + split.cycle + split.differences
  }

  lemma EdgeErrorsInOrder(checks: seq<EdgeCheck>) returns (at: seq<nat>)
    ensures EdgesInOrder(EdgeErrors(checks), checks, at)
  {
    at := CollectedInOrder(checks, EdgeError);
    forall k: nat ensures k in at <==> k < |checks| && checks[k].status != Resolved {
    }
  }

  lemma SplitErrors(p: Platform, b: Bundle, root: Value, rootHash: Option<Text>, walked: State) returns (split: Split)
    ensures AllErrors(p, b, root, rootHash, walked) == Whole(split)
    ensures split.own == RootErrors(VerifyReceipt(p, b.rootCanonical).errors) && StagesWithin(split.middle, 1, 6)
    ensures split.edges == EdgeErrors(walked.edgeChecks)
    ensures split.cycle == if walked.cycleDetected then [CycleDetected] else []
    ensures split.differences == CompletenessErrors(p, CommittedClosure(b.manifest), Dependencies(rootHash, walked))
  {
    var own := RootErrors(VerifyReceipt(p, b.rootCanonical).errors);
    var unread: seq<BundleError> := if rootHash.None? then [NoRootEventHash] else [];
    var cycle: seq<BundleError> := if walked.cycleDetected then [CycleDetected] else [];
    var early := EarlyStages(p, b, root);
    JoinStages(early, unread, 1, 5, 6, 6);
    assert own + early + unread == own + (early + unread);
    split := Split(own, early + unread, EdgeErrors(walked.edgeChecks), cycle,
                   CompletenessErrors(p, CommittedClosure(b.manifest), Dependencies(rootHash, walked)));
  }

  // The errors stand in the order of the verifier's steps: those of the root
  // receipt in their own order, then by stage, then the checks that are out, the
  // cycle, and the differences between the dependencies and the committed closure.
  lemma ErrorsInOrder(p: Platform, b: Bundle, root: Value) returns (split: Split, at: seq<nat>)
    requires b.format == Chars("vr-layered-bundle/v1") && p.parse(b.rootCanonical) == Some(root)
    ensures var r := VerifyBundle(p, Some(b));
            && r.errors == Whole(split)
            && |split.own| == |r.rootResult.errors|
            && (forall i :: 0 <= i < |split.own| ==> split.own[i] == RootEnvelope(r.rootResult.errors[i]))
            && StagesWithin(split.middle, 1, 6)
            && EdgesInOrder(split.edges, r.edgeChecks, at)
            && split.cycle == (if r.cycleDetected then [CycleDetected] else [])
            && (r.closureComplete ==> split.differences == [])
            && (!r.closureComplete ==> DifferencesListed(p, b, root, split.differences))
  {
    var rootHash := GetText(root, "event_hash");
    var walked := Walked(GraphOf(p, b), rootHash);
    var dependencies := Dependencies(rootHash, walked);
    split := SplitErrors(p, b, root, rootHash, walked);
    at := EdgeErrorsInOrder(walked.edgeChecks);
    DifferencesAreListed(p, b, root, dependencies);
  }

  // ---------- What an edge check says about the supplied texts ----------

  // The check of a typed edge in terms of the last of the texts, root first, that
  // carries the hash: it is missing without one, failed with that text's own errors
  // if it does not verify, mismatched unless its kind is the one asked for and a
  // layered one, and resolved otherwise.
  lemma EdgeCheckMeaning(p: Platform, b: Bundle, m: SupportMember)
    requires m.TypedReceiptDependency?
    ensures var h, c := m.eventHash, CheckOf(GraphOf(p, b), m).value;
            && c.eventHash == h && c.role == m.role && c.targetSchema == Some(m.targetSchema)
            && ((forall raw :: raw in Texts(b) ==> !HasHash(p, raw, h)) ==>
                  c.status == Missing && c.detail == Some(NotSupplied))
    ensures forall i: nat :: LastWithHash(p, Texts(b), i, m.eventHash) ==>
              SaysOf(p, Texts(b)[i], m.targetSchema, CheckOf(GraphOf(p, b), m).value)
  {
    var h, index := m.eventHash, GraphOf(p, b);
    CheckMeaning(index, m);
    StatusMeaning(index, m);
    forall raw ensures Names(p, raw, h) <==> HasHash(p, raw, h) {
    }
    InsertedAllFind(p, map[], Texts(b), h);
    forall i: nat | LastWithHash(p, Texts(b), i, h)
      ensures SaysOf(p, Texts(b)[i], m.targetSchema, CheckOf(index, m).value)
    {
      LastInsertionWins(p, b, i, h);
    }
  }

  // The support set of a node is read from the last text with its hash; one that
  // is absent or cannot be read is empty.
  lemma SupportSetMeaning(p: Platform, b: Bundle, i: nat, h: Text)
    requires LastWithHash(p, Texts(b), i, h)
    ensures h in GraphOf(p, b)
    ensures var payload, members := Get(p.parse(Texts(b)[i]).value, "payload"), GraphOf(p, b)[h].supportSet;
            var raw := if payload.Some? then Get(payload.value, "support_set") else None;
            members == if raw.Some? && p.supportSet(raw.value).Some? then p.supportSet(raw.value).value else []
  {
    forall raw ensures Names(p, raw, h) <==> HasHash(p, raw, h) {
    }
    LastInsertionWins(p, b, i, h);
  }

  predicate LastWithHash(p: Platform, raws: seq<string>, i: nat, h: Text) {
    i < |raws| && HasHash(p, raws[i], h) && forall j :: i < j < |raws| ==> !HasHash(p, raws[j], h)
  }

  predicate SaysOf(p: Platform, raw: string, schema: Text, c: EdgeCheck)
    requires p.parse(raw).Some?
  {
    var report, kind := VerifyReceipt(p, raw), KindOf(p.parse(raw).value);
    if report.status.Invalid? then c.status == Failed && c.detail == Some(DoesNotVerify(report.errors))
    else if kind != schema then c.status == SchemaMismatch && c.detail == Some(KindDiffers(schema, kind))
    else if kind !in {Chars("provider.v0"), Chars("model.v0"), Chars("pack.v0")} then
      c.status == SchemaMismatch && c.detail == Some(NotLayered(kind))
    else c.status == Resolved && c.detail == None
  }
}
