// Closure-committed bundles (src/closure_bundle.rs): root receipt, manifest and
// supplied receipts in, one verdict out.
module ClosureBundle {
  import opened Wrappers
  import opened Json
  import opened Limits
  import opened Receipts
  import opened Report
  import opened Verify
  import opened DependencyGraph
  import opened Walk
  import opened WalkTheorems

  const EXPECTED_FORMAT := Chars("vr-layered-bundle/v1")

  // A bundle as deserialized; a missing `receipts` list is the empty one.
  datatype Bundle = Bundle(format: Text, rootCanonical: string, manifest: Value, receipts: seq<string>)

  datatype BundleError =
    | MalformedBundle
    | UnsupportedFormat(format: Text)
    | RootEnvelope(error: ReportError)
    | MalformedRoot
    | RootNotPack(kind: Option<Text>)
    | ManifestNotObject
    | ManifestDigestDrift(recomputed: Text, stated: Text)
    | ManifestDigestAbsent
    | RootDigestMismatch(committed: Text, recomputed: Text)
    | RootCommitsNoDigest
    | DependencyCountMismatch(count: nat, listed: nat)
    | ReceiptNotJson
    | NoRootEventHash
    | EdgeOut(eventHash: Text, edgeStatus: EdgeStatus)
    | CycleDetected
    | AbsentFromClosure(eventHash: Text)
    | NotReachable(eventHash: Text)

  datatype ClosureResult = ClosureResult(
    status: Status,
    rootResult: Report,
    rootEventHash: Option<Text>,
    closureSize: nat,
    manifestDigestOk: bool,
    closureComplete: bool,
    cycleDetected: bool,
    edgeChecks: seq<EdgeCheck>,
    errors: seq<BundleError>)

  function Rejected(error: BundleError): ClosureResult {
    ClosureResult(Invalid, InvalidReport(Wrapper), None, 0, false, false, false, [], [error])
  }

  // ---------- Reading receipts ----------

  function ReadEventHash(v: Value): Option<Text> {
    GetText(v, "event_hash")
  }

  function ReadPayload(v: Value, key: string): Option<Value> {
    var payload := Get(v, "payload");
    if payload.Some? then Get(payload.value, key) else None
  }

  function ReadPayloadKind(v: Value): Option<Text> {
    AsText(ReadPayload(v, "payload_kind"))
  }

  // An absent or unreadable support set is the empty one.
  function ReadSupportSet(p: Platform, v: Value): seq<SupportMember> {
    var supportSet := ReadPayload(v, "support_set");
    var members := if supportSet.Some? then p.supportSet(supportSet.value) else None;
    if members.Some? then members.value else []
  }

  // The text's event hash reads as h.
  predicate HasHash(p: Platform, raw: string, h: Text) {
    p.parse(raw).Some? && GetText(p.parse(raw).value, "event_hash") == Some(h)
  }

  // The kind a receipt reads as; without a readable one, the empty text.
  function KindOf(v: Value): Text {
    var payload := Get(v, "payload");
    var kind := if payload.Some? then GetText(payload.value, "payload_kind") else None;
    if kind.Some? then kind.value else Chars("")
  }

  // The receipt's support set is absent or deserializes.
  predicate SupportSetReads(p: Platform, v: Value) {
    var supportSet := ReadPayload(v, "support_set");
    supportSet.Some? ==> p.supportSet(supportSet.value).Some?
  }

  // The key and the node a receipt text contributes to the graph.
  function NodeOf(p: Platform, raw: string): Option<(Text, Node)> {
    match p.parse(raw)
    case None => None
    case Some(v) =>
      match ReadEventHash(v)
      case None => None
      case Some(h) =>
        var kind := ReadPayloadKind(v);
        var named := if kind.Some? then kind.value else Chars("");
        var report := VerifyReceipt(p, raw);
        Some((h, Node(named, ReadSupportSet(p, v), report.status, report.errors)))
  }

  function Inserted(p: Platform, index: Index, raw: string): Index {
    match NodeOf(p, raw)
    case None => index
    case Some((h, node)) => index[h := node]
  }

  // Receipts are inserted in order; a later one replaces an earlier one.
  function InsertedAll(p: Platform, index: Index, raws: seq<string>): Index
    decreases |raws|
  {
    if raws == [] then index else InsertedAll(p, Inserted(p, index, raws[0]), raws[1..])
  }

  function GraphOf(p: Platform, b: Bundle): Index {
    InsertedAll(p, map[], [b.rootCanonical] + b.receipts)
  }

  function MalformedErrors(p: Platform, raws: seq<string>): seq<BundleError> {
    if raws == [] then []
    else (if p.parse(raws[0]).None? then [ReceiptNotJson] else []) + MalformedErrors(p, raws[1..])
  }

  // ---------- The manifest ----------

  function ManifestErrors(p: Platform, manifest: Value, committedRoot: Option<Text>): seq<BundleError> {
    if !manifest.Object? then [ManifestNotObject]
    else
      var recomputed := p.manifestDigest(Object(Without(manifest.members, "manifest_digest")));
      DriftErrors(recomputed, GetText(manifest, "manifest_digest"))
      + RootDigestErrors(recomputed, committedRoot)
      + CountErrors(AsUnsigned(Get(manifest, "dependency_count")), AsArray(Get(manifest, "receipt_closure")))
  }

  function DriftErrors(recomputed: Option<Text>, stated: Option<Text>): seq<BundleError> {
    if recomputed.None? || stated.None? then [ManifestDigestAbsent]
    else if recomputed != stated then [ManifestDigestDrift(recomputed.value, stated.value)]
    else []
  }

  function RootDigestErrors(recomputed: Option<Text>, committed: Option<Text>): seq<BundleError> {
    if committed.None? then [RootCommitsNoDigest]
    else if recomputed.Some? && recomputed != committed then [RootDigestMismatch(committed.value, recomputed.value)]
    else []
  }

  function CountErrors(count: Option<nat>, listed: Option<seq<Value>>): seq<BundleError> {
    if count.Some? && listed.Some? && count.value != |listed.value|
    then [DependencyCountMismatch(count.value, |listed.value|)]
    else []
  }

  // The manifest states its own digest, the root commits the same digest, and
  // the stated count, if there is one beside a list, is the list's length.
  predicate ManifestHolds(p: Platform, manifest: Value, committedRoot: Option<Text>) {
    && manifest.Object?
    && committedRoot.Some?
    && p.manifestDigest(Object(Without(manifest.members, "manifest_digest"))) == committedRoot
    && GetText(manifest, "manifest_digest") == committedRoot
    && var count, listed := AsUnsigned(Get(manifest, "dependency_count")), AsArray(Get(manifest, "receipt_closure"));
       (count.Some? && listed.Some? ==> count.value == |listed.value|)
  }

  lemma ManifestErrorsAreExact(p: Platform, manifest: Value, committedRoot: Option<Text>)
    ensures ManifestErrors(p, manifest, committedRoot) == [] <==> ManifestHolds(p, manifest, committedRoot)
  {
  }

  function TextsIn(vs: seq<Value>): set<Text> {
    set v | v in vs && v.Str? :: v.text
  }

  // The strings of the manifest's closure list; other entries are skipped.
  function CommittedClosure(manifest: Value): set<Text> {
    var listed := AsArray(Get(manifest, "receipt_closure"));
    if listed.Some? then TextsIn(listed.value) else {}
  }

  // ---------- The verdict ----------

  function RootErrors(errors: seq<ReportError>): seq<BundleError> {
    Mapped(errors, e => RootEnvelope(e))
  }

  function KindErrors(kind: Option<Text>): seq<BundleError> {
    if kind != Some(PACK_KIND) then [RootNotPack(kind)] else []
  }

  function EdgeErrors(checks: seq<EdgeCheck>): seq<BundleError> {
    Collected(checks, EdgeError)
  }

  function EdgeError(c: EdgeCheck): Option<BundleError> {
    if c.status != Resolved then Some(EdgeOut(c.eventHash, c.status)) else None
  }

  function Absents(hashes: seq<Text>): seq<BundleError> {
    Mapped(hashes, h => AbsentFromClosure(h))
  }

  function Extras(hashes: seq<Text>): seq<BundleError> {
    Mapped(hashes, h => NotReachable(h))
  }

  function CompletenessErrors(p: Platform, committed: set<Text>, dependencies: set<Text>): seq<BundleError> {
    if committed == dependencies then []
    else Absents(p.ascending(dependencies - committed)) + Extras(p.ascending(committed - dependencies))
  }

  function CommittedDigest(root: Value): Option<Text> {
    AsText(ReadPayload(root, "closure_manifest_digest"))
  }

  // The errors found before the walk.
  function EarlyErrors(p: Platform, b: Bundle, root: Value): seq<BundleError> {
    RootErrors(VerifyReceipt(p, b.rootCanonical).errors)
    + KindErrors(ReadPayloadKind(root))
    + ManifestErrors(p, b.manifest, CommittedDigest(root))
    + MalformedErrors(p, b.receipts)
  }

  function Walked(index: Index, rootHash: Option<Text>): State {
    if rootHash.Some? then WalkFrom(index, rootHash.value) else EMPTY
  }

  function Dependencies(rootHash: Option<Text>, walked: State): set<Text> {
    if rootHash.Some? then walked.reachable - {rootHash.value} else walked.reachable
  }

  function AllErrors(p: Platform, b: Bundle, root: Value, rootHash: Option<Text>, walked: State): seq<BundleError> {
    EarlyErrors(p, b, root)
    + (if rootHash.None? then [NoRootEventHash] else [])
    + EdgeErrors(walked.edgeChecks)
    + (if walked.cycleDetected then [CycleDetected] else [])
    + CompletenessErrors(p, CommittedClosure(b.manifest), Dependencies(rootHash, walked))
  }

  function Conclude(p: Platform, b: Bundle, root: Value, rootHash: Option<Text>, walked: State): ClosureResult {
    var rootResult := VerifyReceipt(p, b.rootCanonical);
    var manifestOk := ManifestHolds(p, b.manifest, CommittedDigest(root));
    var dependencies := Dependencies(rootHash, walked);
    var complete := CommittedClosure(b.manifest) == dependencies;
    var errors := AllErrors(p, b, root, rootHash, walked);
    var ok := rootResult.status.Valid? && manifestOk && complete && !walked.cycleDetected && errors == [];
    ClosureResult(if ok then Valid else Invalid, rootResult, rootHash, |dependencies|, manifestOk, complete,
                  walked.cycleDetected, walked.edgeChecks, errors)
  }

  // The result for a bundle that is None when its JSON is malformed.
  function VerifyBundle(p: Platform, input: Option<Bundle>): ClosureResult {
    match input
    case None => Rejected(MalformedBundle)
    case Some(b) =>
      if b.format != EXPECTED_FORMAT then Rejected(UnsupportedFormat(b.format))
      else
        match p.parse(b.rootCanonical)
        case None => Rejected(MalformedRoot)
        case Some(root) =>
          var rootHash := ReadEventHash(root);
          Conclude(p, b, root, rootHash, Walked(GraphOf(p, b), rootHash))
  }

  // ---------- The entry point ----------

  // `errors` is the caller's list, handed back longer.
  method CheckManifestDigest(p: Platform, manifest: Value, committedRoot: Option<Text>, errors: seq<BundleError>)
    returns (ok: bool, errors': seq<BundleError>)
    ensures errors' == errors + ManifestErrors(p, manifest, committedRoot)
    ensures ok <==> ManifestHolds(p, manifest, committedRoot)
  {
    ManifestErrorsAreExact(p, manifest, committedRoot);
    if !manifest.Object? {
      return false, errors + [ManifestNotObject];
    }
    var stated := GetText(manifest, "manifest_digest");
    var recomputed := p.manifestDigest(Object(Without(manifest.members, "manifest_digest")));
    var found: seq<BundleError> := [];
    ok := true;
    if recomputed.None? || stated.None? {
      found, ok := found + [ManifestDigestAbsent], false;
    } else if recomputed != stated {
      found, ok := found + [ManifestDigestDrift(recomputed.value, stated.value)], false;
    }
    if recomputed.Some? && committedRoot.Some? {
      if recomputed != committedRoot {
        found, ok := found + [RootDigestMismatch(committedRoot.value, recomputed.value)], false;
      }
    } else if committedRoot.None? {
      found, ok := found + [RootCommitsNoDigest], false;
    }
    var count := AsUnsigned(Get(manifest, "dependency_count"));
    var listed := AsArray(Get(manifest, "receipt_closure"));
    if count.Some? && listed.Some? && count.value != |listed.value| {
      found, ok := found + [DependencyCountMismatch(count.value, |listed.value|)], false;
    }
    errors' := errors + found;
  }

  method InsertNode(p: Platform, index: Index, v: Value, raw: string) returns (index': Index)
    requires p.parse(raw) == Some(v)
    ensures index' == Inserted(p, index, raw)
  {
    var eventHash := ReadEventHash(v);
    if eventHash.None? {
      return index;
    }
    var kind := ReadPayloadKind(v);
    var supportSet := ReadSupportSet(p, v);
    var result := VerifyReceiptWithLimits(p, raw, DEFAULT_LIMITS);
    var node := Node(if kind.Some? then kind.value else Chars(""), supportSet, result.status, result.errors);
    index' := index[eventHash.value := node];
  }

  // Builds the graph from the root and the supplied receipts.
  method BuildIndex(p: Platform, b: Bundle, root: Value) returns (index: Index, errors: seq<BundleError>)
    requires p.parse(b.rootCanonical) == Some(root)
    ensures index == GraphOf(p, b)
    ensures errors == MalformedErrors(p, b.receipts)
  {
    var start := InsertNode(p, map[], root, b.rootCanonical);
    assert ([b.rootCanonical] + b.receipts)[1..] == b.receipts;
    index, errors := InsertSupplied(p, start, b.receipts);
  }

  // The loop over the supplied receipts.
  method InsertSupplied(p: Platform, start: Index, raws: seq<string>) returns (index: Index, errors: seq<BundleError>)
    ensures index == InsertedAll(p, start, raws)
    ensures errors == MalformedErrors(p, raws)
  {
    index, errors := start, [];
    for i := 0 to |raws|
      invariant InsertedAll(p, index, raws[i..]) == InsertedAll(p, start, raws)
      invariant errors + MalformedErrors(p, raws[i..]) == MalformedErrors(p, raws)
    {
      assert raws[i..][0] == raws[i] && raws[i..][1..] == raws[i + 1..];
      var parsed := p.parse(raws[i]);
      if parsed.Some? {
        index := InsertNode(p, index, parsed.value, raws[i]);
      } else {
        errors := errors + [ReceiptNotJson];
      }
    }
  }

  // The errors of the edges that are out.
  method CollectEdgeErrors(checks: seq<EdgeCheck>) returns (errors: seq<BundleError>)
    ensures errors == EdgeErrors(checks)
  {
    errors := [];
    for i := 0 to |checks|
      invariant errors == EdgeErrors(checks[..i])
    {
      assert checks[..i + 1][..i] == checks[..i];
      if checks[i].status != Resolved {
        errors := errors + [EdgeOut(checks[i].eventHash, checks[i].status)];
      }
    }
    assert checks[..|checks|] == checks;
  }

  // Compares the committed closure with the dependencies found.
  method CheckCompleteness(p: Platform, committed: set<Text>, dependencies: set<Text>)
    returns (complete: bool, errors: seq<BundleError>)
    ensures complete <==> committed == dependencies
    ensures errors == CompletenessErrors(p, committed, dependencies)
  {
    complete, errors := committed == dependencies, [];
    if complete {
      return;
    }
    var missing, extra := p.ascending(dependencies - committed), p.ascending(committed - dependencies);
    for i := 0 to |missing|
      invariant errors == Absents(missing[..i])
    {
      errors := errors + [AbsentFromClosure(missing[i])];
    }
    assert missing[..|missing|] == missing;
    for i := 0 to |extra|
      invariant errors == Absents(missing) + Extras(extra[..i])
    {
      errors := errors + [NotReachable(extra[i])];
    }
    assert extra[..|extra|] == extra;
  }

  method VerifyClosureBundle(p: Platform, input: Option<Bundle>) returns (r: ClosureResult)
    ensures r == VerifyBundle(p, input)
  {
    if input.None? {
      return Rejected(MalformedBundle);
    }
    var b := input.value;
    if b.format != EXPECTED_FORMAT {
      return Rejected(UnsupportedFormat(b.format));
    }
    var rootResult := VerifyReceiptWithLimits(p, b.rootCanonical, DEFAULT_LIMITS);
    var parsed := p.parse(b.rootCanonical);
    if parsed.None? {
      return Rejected(MalformedRoot);
    }
    var root := parsed.value;
    var rootHash := ReadEventHash(root);
    var index, manifestOk, errors := CheckBeforeWalk(p, b, root, rootResult);
    var walker := new Walker(index);
    if rootHash.Some? {
      walker.Walk(rootHash.value);
    }
    r := CheckAfterWalk(p, b, root, rootResult.Value(), manifestOk, walker, errors);
  }

  // Steps 1 to 3: root, manifest, graph.
  method CheckBeforeWalk(p: Platform, b: Bundle, root: Value, rootResult: VerificationResult)
    returns (index: Index, manifestOk: bool, errors: seq<BundleError>)
    requires p.parse(b.rootCanonical) == Some(root) && rootResult.Value() == VerifyReceipt(p, b.rootCanonical)
    ensures index == GraphOf(p, b)
    ensures manifestOk <==> ManifestHolds(p, b.manifest, CommittedDigest(root))
    ensures errors == EarlyErrors(p, b, root)
  {
    errors := CheckRoot(p, b, root, rootResult);
    manifestOk, errors := CheckManifestDigest(p, b.manifest, CommittedDigest(root), errors);
    var malformed;
    index, malformed := BuildIndex(p, b, root);
    errors := errors + malformed;
  }

  method CheckRoot(p: Platform, b: Bundle, root: Value, rootResult: VerificationResult)
    returns (errors: seq<BundleError>)
    requires rootResult.Value() == VerifyReceipt(p, b.rootCanonical)
    ensures errors == RootErrors(VerifyReceipt(p, b.rootCanonical).errors) + KindErrors(ReadPayloadKind(root))
  {
    ReportsAreClean(p, b.rootCanonical);
    errors := [];
    if rootResult.status != Valid {
      errors := RootErrors(rootResult.errors);
    }
    assert errors == RootErrors(rootResult.errors);
    var kind := ReadPayloadKind(root);
    if kind != Some(PACK_KIND) {
      errors := errors + [RootNotPack(kind)];
    }
  }

  // Steps 4 and 5: edges, cycle, completeness, verdict.
  method CheckAfterWalk(p: Platform, b: Bundle, root: Value, rootResult: Report, manifestOk: bool, walker: Walker,
                        early: seq<BundleError>)
    returns (r: ClosureResult)
    requires rootResult == VerifyReceipt(p, b.rootCanonical)
    requires manifestOk <==> ManifestHolds(p, b.manifest, CommittedDigest(root))
    requires early == EarlyErrors(p, b, root)
    ensures r == Conclude(p, b, root, ReadEventHash(root), walker.Current())
  {
    var rootHash := ReadEventHash(root);
    var dependencies := walker.reachable;
    if rootHash.Some? {
      dependencies := dependencies - {rootHash.value};
    }
    var complete, errors := CollectErrors(p, b, root, dependencies, walker, early);
    var ok := rootResult.status.Valid? && manifestOk && complete && !walker.cycleDetected && errors == [];
    r := ClosureResult(if ok then Valid else Invalid, rootResult, rootHash, |dependencies|, manifestOk,
                       complete, walker.cycleDetected, walker.edgeChecks, errors);
  }

  method CollectErrors(p: Platform, b: Bundle, root: Value, dependencies: set<Text>, walker: Walker,
                       early: seq<BundleError>)
    returns (complete: bool, errors: seq<BundleError>)
    requires dependencies == Dependencies(ReadEventHash(root), walker.Current())
    requires early == EarlyErrors(p, b, root)
    ensures complete <==> CommittedClosure(b.manifest) == dependencies
    ensures errors == AllErrors(p, b, root, ReadEventHash(root), walker.Current())
  {
    errors := early;
    if ReadEventHash(root).None? {
      errors := errors + [NoRootEventHash];
    }
    var edgeErrors := CollectEdgeErrors(walker.edgeChecks);
    errors := errors + edgeErrors;
    if walker.cycleDetected {
      errors := errors + [CycleDetected];
    }
    var differences;
    complete, differences := CheckCompleteness(p, CommittedClosure(b.manifest), dependencies);
    errors := errors + differences;
  }

  lemma ReportsAreClean(p: Platform, raw: string)
    ensures Consistent(VerifyReceipt(p, raw))
  {
  }
}
