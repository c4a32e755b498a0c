// The error list of a closure result, entry by entry.
module ClosureErrors {
  import opened Wrappers
  import opened Json
  import opened Limits
  import opened Receipts
  import opened Report
  import opened Verify
  import opened VerifyReports
  import opened DependencyGraph
  import opened Walk
  import opened WalkTheorems
  import opened ClosureBundle
  import opened ClosureTheorems

  function Recomputed(p: Platform, manifest: Value): Option<Text>
    requires manifest.Object?
  {
    p.manifestDigest(Object(Without(manifest.members, "manifest_digest")))
  }

  // The supplied texts that are not JSON, by position.
  function Unparsable(p: Platform, raws: seq<string>): set<int> {
    set i | 0 <= i < |raws| && p.parse(raws[i]).None?
  }

  // The recorded checks that are out in this way, by position.
  function OutAt(checks: seq<EdgeCheck>, h: Text, status: EdgeStatus): set<int> {
    set i | 0 <= i < |checks| && checks[i].eventHash == h && checks[i].status == status && status != Resolved
  }

  // The manifest is at fault in this way.
  predicate ManifestFault(p: Platform, manifest: Value, committed: Option<Text>, x: BundleError) {
    if !manifest.Object? then x == ManifestNotObject
    else
      var recomputed, listed := Recomputed(p, manifest), AsArray(Get(manifest, "receipt_closure"));
      || DriftFault(recomputed, GetText(manifest, "manifest_digest"), x)
      || RootDigestFault(recomputed, committed, x)
      || CountFault(AsUnsigned(Get(manifest, "dependency_count")), listed, x)
  }

  predicate DriftFault(recomputed: Option<Text>, stated: Option<Text>, x: BundleError) {
    match x
    case ManifestDigestDrift(r, s) => recomputed == Some(r) && stated == Some(s) && r != s
    case ManifestDigestAbsent => recomputed.None? || stated.None?
    case _ => false
  }

  predicate RootDigestFault(recomputed: Option<Text>, committed: Option<Text>, x: BundleError) {
    match x
    case RootDigestMismatch(c, r) => recomputed == Some(r) && committed == Some(c) && r != c
    case RootCommitsNoDigest => committed.None?
    case _ => false
  }

  predicate CountFault(count: Option<nat>, listed: Option<seq<Value>>, x: BundleError) {
    match x
    case DependencyCountMismatch(c, n) => count == Some(c) && listed.Some? && |listed.value| == n && c != n
    case _ => false
  }

  // t is reached from the root, and is not the root.
  ghost predicate Dependency(p: Platform, b: Bundle, root: Value, t: Text) {
    var h := GetText(root, "event_hash");
    h.Some? && t != h.value && Reaches(GraphOf(p, b), ResolvedOnly, h.value, t)
  }

  // How often this fault is there, stated without the list.
  ghost function Faults(p: Platform, b: Bundle, root: Value, x: BundleError): nat {
    var walked, committed := Walked(GraphOf(p, b), GetText(root, "event_hash")), CommittedClosure(b.manifest);
    match x
    case NoRootEventHash => Once(GetText(root, "event_hash").None?)
    case EdgeOut(target, status) => |OutAt(walked.edgeChecks, target, status)|
    case CycleDetected => Once(walked.cycleDetected)
    case AbsentFromClosure(t) => Once(Dependency(p, b, root, t) && t !in committed)
    case NotReachable(t) => Once(t in committed && !Dependency(p, b, root, t))
    case _ => EarlyFaults(p, b, root, x)
  }

  ghost function EarlyFaults(p: Platform, b: Bundle, root: Value, x: BundleError): nat {
    match x
    case RootEnvelope(e) => multiset(VerifyReceipt(p, b.rootCanonical).errors)[e]
    case RootNotPack(kind) => Once(kind == ReadPayloadKind(root) && kind != Some(PACK_KIND))
    case ReceiptNotJson => |Unparsable(p, b.receipts)|
    case _ => Once(ManifestFault(p, b.manifest, CommittedDigest(root), x))
  }

  lemma RootErrorCount(errors: seq<ReportError>, x: BundleError)
    ensures multiset(RootErrors(errors))[x] == if x.RootEnvelope? then multiset(errors)[x.error] else 0
  {
    if x.RootEnvelope? {
      MappedCount(errors, e => RootEnvelope(e), x.error);
    }
  }

  lemma SumOfTwo(a: seq<BundleError>, b: seq<BundleError>, x: BundleError)
    ensures multiset(a + b)[x] == multiset(a)[x] + multiset(b)[x]
  {
  }

  lemma SumOfFour(a: seq<BundleError>, b: seq<BundleError>, c: seq<BundleError>, d: seq<BundleError>, x: BundleError)
    ensures multiset(a + b + c + d)[x] == multiset(a)[x] + multiset(b)[x] + multiset(c)[x] + multiset(d)[x]
  {
  }

  lemma DriftCount(recomputed: Option<Text>, stated: Option<Text>, x: BundleError)
    ensures multiset(DriftErrors(recomputed, stated))[x] == Once(DriftFault(recomputed, stated, x))
  {
  }

  lemma RootDigestCount(recomputed: Option<Text>, committed: Option<Text>, x: BundleError)
    ensures multiset(RootDigestErrors(recomputed, committed))[x] == Once(RootDigestFault(recomputed, committed, x))
  {
  }

  lemma CountCount(count: Option<nat>, listed: Option<seq<Value>>, x: BundleError)
    ensures multiset(CountErrors(count, listed))[x] == Once(CountFault(count, listed, x))
  {
  }

  // A receipt reports no error twice.
  lemma ReceiptErrorsOnce(p: Platform, raw: string, e: ReportError)
    ensures multiset(VerifyReceipt(p, raw).errors)[e] <= 1
  {
    ReceiptReport(p, raw, DEFAULT_LIMITS);
  }

  lemma ManifestErrorCount(p: Platform, manifest: Value, committed: Option<Text>, x: BundleError)
    ensures multiset(ManifestErrors(p, manifest, committed))[x] == Once(ManifestFault(p, manifest, committed, x))
  {
    if manifest.Object? {
      var recomputed, stated := Recomputed(p, manifest), GetText(manifest, "manifest_digest");
      var count, listed := AsUnsigned(Get(manifest, "dependency_count")), AsArray(Get(manifest, "receipt_closure"));
      var drift, mismatch := DriftErrors(recomputed, stated), RootDigestErrors(recomputed, committed);
      DriftCount(recomputed, stated, x);
      RootDigestCount(recomputed, committed, x);
      CountCount(count, listed, x);
      SumOfTwo(drift, mismatch, x);
      SumOfTwo(drift + mismatch, CountErrors(count, listed), x);
    }
  }

  lemma OneMalformedText(p: Platform, raw: string, x: BundleError)
    ensures multiset(MalformedErrors(p, [raw]))[x] == Once(x.ReceiptNotJson? && p.parse(raw).None?)
  {
    assert [raw][1..] == [];
  }

  lemma LastMalformedText(p: Platform, raws: seq<string>, raw: string, x: BundleError)
    ensures multiset(MalformedErrors(p, raws + [raw]))[x]
         == multiset(MalformedErrors(p, raws))[x] + Once(x.ReceiptNotJson? && p.parse(raw).None?)
  {
    var longer, last := raws + [raw], |raws|;
    MalformedErrorsSplit(p, longer, last);
    assert longer[..last] + longer[last + 1..] == raws;
    OneMalformedText(p, raw, x);
    SumOfTwo(MalformedErrors(p, [raw]), MalformedErrors(p, raws), x);
  }

  lemma {:induction false} MalformedErrorCount(p: Platform, raws: seq<string>, x: BundleError)
    ensures multiset(MalformedErrors(p, raws))[x] == if x.ReceiptNotJson? then |Unparsable(p, raws)| else 0
  {
    if raws != [] {
      var last := |raws| - 1;
      assert raws == raws[..last] + [raws[last]];
      MalformedErrorCount(p, raws[..last], x);
      LastMalformedText(p, raws[..last], raws[last], x);
      LastUnparsable(p, raws);
    }
  }

  lemma LastUnparsable(p: Platform, raws: seq<string>)
    requires raws != []
    ensures |Unparsable(p, raws)| == |Unparsable(p, raws[..|raws| - 1])| + Once(p.parse(raws[|raws| - 1]).None?)
  {
    var last := |raws| - 1;
    assert Unparsable(p, raws) == Unparsable(p, raws[..last]) + if p.parse(raws[last]).None? then {last} else {};
  }

  lemma EdgeErrorCount(checks: seq<EdgeCheck>, x: BundleError)
    ensures multiset(EdgeErrors(checks))[x]
         == if x.EdgeOut? then |OutAt(checks, x.eventHash, x.edgeStatus)| else 0
  {
    CollectedCount(checks, EdgeError, x);
    if x.EdgeOut? {
      assert Positions(checks, EdgeError, x) == OutAt(checks, x.eventHash, x.edgeStatus);
    } else {
      assert Positions(checks, EdgeError, x) == {};
    }
  }

  function Differences(committed: set<Text>, dependencies: set<Text>, x: BundleError): nat {
    match x
    case AbsentFromClosure(t) => Once(t in dependencies && t !in committed)
    case NotReachable(t) => Once(t in committed && t !in dependencies)
    case _ => 0
  }

  lemma CompletenessErrorCount(p: Platform, committed: set<Text>, dependencies: set<Text>, x: BundleError)
    requires ListsSets(p)
    ensures multiset(CompletenessErrors(p, committed, dependencies))[x]
         == Differences(committed, dependencies, x)
  {
    var missing, extra := p.ascending(dependencies - committed), p.ascending(committed - dependencies);
    if x.AbsentFromClosure? {
      ListedOnce(p, dependencies - committed, x.eventHash);
      MappedCount(missing, h => AbsentFromClosure(h), x.eventHash);
    } else if x.NotReachable? {
      ListedOnce(p, committed - dependencies, x.eventHash);
      MappedCount(extra, h => NotReachable(h), x.eventHash);
    }
  }

  lemma EarlySum(p: Platform, b: Bundle, root: Value, x: BundleError)
    ensures multiset(EarlyErrors(p, b, root))[x]
         == multiset(RootErrors(VerifyReceipt(p, b.rootCanonical).errors))[x]
            + multiset(KindErrors(ReadPayloadKind(root)))[x]
            + multiset(ManifestErrors(p, b.manifest, CommittedDigest(root)))[x]
            + multiset(MalformedErrors(p, b.receipts))[x]
  {
    SumOfFour(RootErrors(VerifyReceipt(p, b.rootCanonical).errors), KindErrors(ReadPayloadKind(root)),
              ManifestErrors(p, b.manifest, CommittedDigest(root)), MalformedErrors(p, b.receipts), x);
  }

  lemma KindErrorCount(kind: Option<Text>, x: BundleError)
    ensures multiset(KindErrors(kind))[x] == Once(x == RootNotPack(kind) && kind != Some(PACK_KIND))
  {
  }

  lemma EarlyFaultsAdd(p: Platform, b: Bundle, root: Value, x: BundleError)
    ensures EarlyFaults(p, b, root, x)
         == (if x.RootEnvelope? then multiset(VerifyReceipt(p, b.rootCanonical).errors)[x.error] else 0)
            + Once(x == RootNotPack(ReadPayloadKind(root)) && ReadPayloadKind(root) != Some(PACK_KIND))
            + Once(ManifestFault(p, b.manifest, CommittedDigest(root), x))
            + (if x.ReceiptNotJson? then |Unparsable(p, b.receipts)| else 0)
  {
  }

  lemma EarlyErrorCount(p: Platform, b: Bundle, root: Value, x: BundleError)
    ensures multiset(EarlyErrors(p, b, root))[x] == EarlyFaults(p, b, root, x)
  {
    EarlyFaultsAdd(p, b, root, x);
    EarlySum(p, b, root, x);
    RootErrorCount(VerifyReceipt(p, b.rootCanonical).errors, x);
    KindErrorCount(ReadPayloadKind(root), x);
    ManifestErrorCount(p, b.manifest, CommittedDigest(root), x);
    MalformedErrorCount(p, b.receipts, x);
  }

  lemma LateSum(p: Platform, b: Bundle, root: Value, rootHash: Option<Text>, walked: State, x: BundleError)
    ensures multiset(AllErrors(p, b, root, rootHash, walked))[x]
         == multiset(EarlyErrors(p, b, root))[x]
            + Once(rootHash.None? && x.NoRootEventHash?)
            + multiset(EdgeErrors(walked.edgeChecks))[x]
            + Once(walked.cycleDetected && x.CycleDetected?)
            + multiset(CompletenessErrors(p, CommittedClosure(b.manifest), Dependencies(rootHash, walked)))[x]
  {
    var early, edges := EarlyErrors(p, b, root), EdgeErrors(walked.edgeChecks);
    var unread := if rootHash.None? then [NoRootEventHash] else [];
    var cycle := if walked.cycleDetected then [CycleDetected] else [];
    var differences := CompletenessErrors(p, CommittedClosure(b.manifest), Dependencies(rootHash, walked));
    SumOfTwo(early, unread, x);
    SumOfFour(early + unread, edges, cycle, differences, x);
  }

  lemma FaultsAdd(p: Platform, b: Bundle, root: Value, rootHash: Option<Text>, walked: State, x: BundleError)
    requires rootHash == GetText(root, "event_hash") && walked == Walked(GraphOf(p, b), rootHash)
    ensures Faults(p, b, root, x)
         == EarlyFaults(p, b, root, x)
            + Once(rootHash.None? && x.NoRootEventHash?)
            + (if x.EdgeOut? then |OutAt(walked.edgeChecks, x.eventHash, x.edgeStatus)| else 0)
            + Once(walked.cycleDetected && x.CycleDetected?)
            + Differences(CommittedClosure(b.manifest), Dependencies(rootHash, walked), x)
  {
    DependenciesAreReached(p, b, root, rootHash, walked);
  }

  lemma DependenciesAreReached(p: Platform, b: Bundle, root: Value, rootHash: Option<Text>, walked: State)
    requires rootHash == GetText(root, "event_hash") && walked == Walked(GraphOf(p, b), rootHash)
    ensures forall t :: t in Dependencies(rootHash, walked) <==> Dependency(p, b, root, t)
  {
    if rootHash.Some? {
      ReachableIsExact(GraphOf(p, b), rootHash.value);
    }
  }

  // The list holds exactly one entry for every fault: for each error of the root
  // receipt, each failed manifest check, each text that is not JSON, an unreadable
  // root hash, each check that is out, a flagged cycle, each dependency that is not
  // committed and each committed hash that is no dependency. It holds nothing else.
  lemma OneErrorPerFault(p: Platform, b: Bundle, root: Value, x: BundleError)
    requires ListsSets(p) && b.format == Chars("vr-layered-bundle/v1") && p.parse(b.rootCanonical) == Some(root)
    ensures multiset(VerifyBundle(p, Some(b)).errors)[x] == Faults(p, b, root, x)
  {
    var rootHash := ReadEventHash(root);
    var walked := Walked(GraphOf(p, b), rootHash);
    FaultsAdd(p, b, root, rootHash, walked, x);
    LateSum(p, b, root, rootHash, walked, x);
    EarlyErrorCount(p, b, root, x);
    EdgeErrorCount(walked.edgeChecks, x);
    CompletenessErrorCount(p, CommittedClosure(b.manifest), Dependencies(rootHash, walked), x);
  }
}
