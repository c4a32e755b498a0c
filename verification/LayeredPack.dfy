// Layered packs (src/layered_pack.rs): the direct edges of one root, resolved
// by scanning the supplied list.
module LayeredPack {
  import opened Wrappers
  import opened Json
  import opened Limits
  import opened Receipts
  import opened Report
  import opened Verify
  import opened DependencyGraph
  import opened ClosureBundle
  import opened ClosureTheorems

  const PACK_FORMAT := Chars("vr-layered-pack/v1")

  datatype Pack = Pack(format: Text, rootCanonical: string, receipts: seq<string>)

  datatype PackError =
    | MalformedPack
    | UnsupportedPackFormat(format: Text)
    | RootEnvelopeError(error: ReportError)
    | RootNotReadable
    | RootHasNoPayload
    | RootNotLayered(kind: Text)
    | MalformedSupportSet
    | LineageEdgeOut(eventHash: Text, edgeStatus: EdgeStatus)

  datatype PackResult = PackResult(
    status: Status,
    rootResult: Report,
    rootKind: Option<Text>,
    edgeChecks: seq<EdgeCheck>,
    errors: seq<PackError>)

  // A pack root is a provider or a model, not itself a pack.
  predicate IsRootKind(kind: Text) {
    kind == PROVIDER_KIND || kind == MODEL_KIND
  }

  // Unlike the closure graph, an unreadable support set is an error here.
  function ExtractLayeredPayload(p: Platform, raw: string): Result<(Text, seq<SupportMember>), PackError> {
    match p.parse(raw)
    case None => Err(RootNotReadable)
    case Some(v) =>
      match Get(v, "payload")
      case None => Err(RootHasNoPayload)
      case Some(payload) =>
        var read := GetText(payload, "payload_kind");
        var kind := if read.Some? then read.value else Chars("");
        if !IsRootKind(kind) then Err(RootNotLayered(kind))
        else
          match Get(payload, "support_set")
          case None => Ok((kind, []))
          case Some(supportSet) =>
            match p.supportSet(supportSet)
            case None => Err(MalformedSupportSet)
            case Some(members) => Ok((kind, members))
  }

  // A supplied receipt as the scan sees it: its hash and its node.
  type Supplied = (Text, Node)

  function IndexSupplied(p: Platform, raws: seq<string>): seq<Supplied> {
    if raws == [] then []
    else
      var first := NodeOf(p, raws[0]);
      (if first.Some? then [first.value] else []) + IndexSupplied(p, raws[1..])
  }

  // The first supplied receipt with this hash.
  function FirstMatch(supplied: seq<Supplied>, h: Text): Option<Node> {
    if supplied == [] then None
    else if supplied[0].0 == h then Some(supplied[0].1)
    else FirstMatch(supplied[1..], h)
  }

  function WalkEdge(m: SupportMember, supplied: seq<Supplied>): Option<EdgeCheck> {
    match m
    case TypedReceiptDependency(h, role, schema) =>
      var (status, detail) :=
        match FirstMatch(supplied, h)
        case None => (Missing, Some(NotSupplied))
        case Some(n) =>
          if n.verifyStatus != Valid then (Failed, Some(DoesNotVerify(n.verifyDetail)))
          else if n.payloadKind != schema then (SchemaMismatch, Some(KindDiffers(schema, n.payloadKind)))
          else (Resolved, None);
      Some(EdgeCheck(h, role, Some(schema), status, detail))
    case DependedOnReceipt(h) => Some(EdgeCheck(h, None, None, UntypedEdge, Some(Untyped)))
    case _ => None
  }

  function WalkEdges(members: seq<SupportMember>, supplied: seq<Supplied>): seq<EdgeCheck> {
    Collected(members, m => WalkEdge(m, supplied))
  }

  function OutError(c: EdgeCheck): Option<PackError> {
    if c.status != Resolved then Some(LineageEdgeOut(c.eventHash, c.status)) else None
  }

  function OutErrors(checks: seq<EdgeCheck>): seq<PackError> {
    Collected(checks, OutError)
  }

  function PackRootErrors(errors: seq<ReportError>): seq<PackError> {
    Mapped(errors, e => RootEnvelopeError(e))
  }

  function RejectedPack(error: PackError): PackResult {
    PackResult(Invalid, InvalidReport(Wrapper), None, [], [error])
  }

  function VerifyPack(p: Platform, input: Option<Pack>): PackResult {
    match input
    case None => RejectedPack(MalformedPack)
    case Some(pack) =>
      if pack.format != PACK_FORMAT then RejectedPack(UnsupportedPackFormat(pack.format))
      else
        var rootResult := VerifyReceipt(p, pack.rootCanonical);
        var rootErrors := PackRootErrors(rootResult.errors);
        match ExtractLayeredPayload(p, pack.rootCanonical)
        case Err(e) => PackResult(Invalid, rootResult, None, [], rootErrors + [e])
        case Ok((kind, members)) =>
          var checks := WalkEdges(members, IndexSupplied(p, pack.receipts));
          var errors := rootErrors + OutErrors(checks);
          PackResult(if rootResult.status.Valid? && errors == [] then Valid else Invalid,
                     rootResult, Some(kind), checks, errors)
  }

  method VerifyLayeredPack(p: Platform, input: Option<Pack>) returns (r: PackResult)
    ensures r == VerifyPack(p, input)
  {
    if input.None? {
      return RejectedPack(MalformedPack);
    }
    var pack := input.value;
    if pack.format != PACK_FORMAT {
      return RejectedPack(UnsupportedPackFormat(pack.format));
    }
    var rootResult := VerifyReceiptWithLimits(p, pack.rootCanonical, DEFAULT_LIMITS);
    ReportsAreClean(p, pack.rootCanonical);
    var errors := [];
    if rootResult.status != Valid {
      errors := PackRootErrors(rootResult.errors);
    }
    assert errors == PackRootErrors(VerifyReceipt(p, pack.rootCanonical).errors);
    var extracted := ExtractLayeredPayload(p, pack.rootCanonical);
    if extracted.Err? {
      return PackResult(Invalid, rootResult.Value(), None, [], errors + [extracted.error]);
    }
    var (kind, members) := extracted.value;
    var checks, out, allResolved := WalkAllEdges(members, IndexSupplied(p, pack.receipts));
    errors := errors + out;
    r := PackResult(if rootResult.status.Valid? && errors == [] && allResolved then Valid else Invalid,
                    rootResult.Value(), Some(kind), checks, errors);
  }

  // The loop over the root's support set.
  method WalkAllEdges(members: seq<SupportMember>, supplied: seq<Supplied>)
    returns (checks: seq<EdgeCheck>, errors: seq<PackError>, allResolved: bool)
    ensures checks == WalkEdges(members, supplied)
    ensures errors == OutErrors(checks)
    ensures allResolved <==> errors == []
  {
    checks, errors, allResolved := [], [], true;
    for i := 0 to |members|
      invariant checks == WalkEdges(members[..i], supplied)
      invariant errors == OutErrors(checks)
      invariant allResolved <==> errors == []
    {
      assert members[..i + 1][..i] == members[..i];
      var check := WalkEdge(members[i], supplied);
      if check.Some? {
        assert (checks + [check.value])[..|checks|] == checks;
        if check.value.status != Resolved {
          errors := errors + [LineageEdgeOut(check.value.eventHash, check.value.status)];
          allResolved := false;
        }
        checks := checks + [check.value];
      }
    }
    assert members[..|members|] == members;
  }

  lemma PackIsExplained(p: Platform, input: Option<Pack>)
    ensures VerifyPack(p, input).status.Valid? <==> VerifyPack(p, input).errors == []
  {
  }

  // A dependency that holds against the supplied list: typed, and the first
  // supplied receipt with its hash verifies and has the kind asked for.
  predicate EdgeStands(m: SupportMember, supplied: seq<Supplied>) {
    && m.TypedReceiptDependency?
    && var found := FirstMatch(supplied, m.eventHash);
       found.Some? && found.value.verifyStatus.Valid? && found.value.payloadKind == m.targetSchema
  }

  predicate IsDependency(m: SupportMember) {
    m.TypedReceiptDependency? || m.DependedOnReceipt?
  }

  lemma OutErrorsAreExact(members: seq<SupportMember>, supplied: seq<Supplied>)
    ensures OutErrors(WalkEdges(members, supplied)) == [] <==>
              forall m :: m in members && IsDependency(m) ==> EdgeStands(m, supplied)
  {
    var checks := WalkEdges(members, supplied);
    NothingCollected(checks, OutError);
    forall c ensures c in checks <==> exists m :: m in members && WalkEdge(m, supplied) == Some(c) {
      CollectedMembers(members, m => WalkEdge(m, supplied), c);
    }
    forall m | m in members && IsDependency(m)
      ensures WalkEdge(m, supplied).value in checks
      ensures WalkEdge(m, supplied).value.status == Resolved <==> EdgeStands(m, supplied)
    {
      assert WalkEdge(m, supplied) == Some(WalkEdge(m, supplied).value);
    }
  }

  // ---------- What is read from the root ----------

  // The text has a payload of a provider or model whose support set, empty if it
  // is absent, deserializes to these members.
  predicate ReadsAsRoot(p: Platform, raw: string, kind: Text, members: seq<SupportMember>) {
    && p.parse(raw).Some?
    && var payload := Get(p.parse(raw).value, "payload");
       payload.Some? && GetText(payload.value, "payload_kind") == Some(kind)
       && kind in {Chars("provider.v0"), Chars("model.v0")}
       && var supportSet := Get(payload.value, "support_set");
          (if supportSet.Some? then p.supportSet(supportSet.value) == Some(members) else members == [])
  }

  // The text is no such root, for this reason.
  predicate NoRoot(p: Platform, raw: string, e: PackError) {
    if p.parse(raw).None? then e == RootNotReadable
    else
      var payload := Get(p.parse(raw).value, "payload");
      if payload.None? then e == RootHasNoPayload
      else
        var kind, supportSet := GetText(payload.value, "payload_kind"), Get(payload.value, "support_set");
        if kind == Some(Chars("provider.v0")) || kind == Some(Chars("model.v0")) then
          supportSet.Some? && p.supportSet(supportSet.value).None? && e == MalformedSupportSet
        else e == RootNotLayered(if kind.Some? then kind.value else Chars(""))
  }

  lemma ExtractionIsExact(p: Platform, raw: string)
    ensures match ExtractLayeredPayload(p, raw)
            case Ok((kind, members)) =>
              && ReadsAsRoot(p, raw, kind, members)
              && forall other, ms :: ReadsAsRoot(p, raw, other, ms) ==> other == kind && ms == members
            case Err(e) => NoRoot(p, raw, e) && forall kind, ms :: !ReadsAsRoot(p, raw, kind, ms)
  {
    KindsDiffer();
  }

  // In terms of the functions that compute it.
  lemma ComputedVerdict(p: Platform, pack: Pack)
    ensures VerifyPack(p, Some(pack)).status.Valid? <==>
              && pack.format == PACK_FORMAT
              && VerifyReceipt(p, pack.rootCanonical).status.Valid?
              && ExtractLayeredPayload(p, pack.rootCanonical).Ok?
              && forall m :: m in ExtractLayeredPayload(p, pack.rootCanonical).value.1 && IsDependency(m) ==>
                   EdgeStands(m, IndexSupplied(p, pack.receipts))
  {
    ReportsAreClean(p, pack.rootCanonical);
    if ExtractLayeredPayload(p, pack.rootCanonical).Ok? {
      OutErrorsAreExact(ExtractLayeredPayload(p, pack.rootCanonical).value.1, IndexSupplied(p, pack.receipts));
    }
  }

  // raws[i] is the first of the texts with this hash.
  predicate FirstWithHash(p: Platform, raws: seq<string>, i: nat, h: Text) {
    i < |raws| && HasHash(p, raws[i], h) && forall j :: 0 <= j < i ==> !HasHash(p, raws[j], h)
  }

  // The scan finds the node of the first text with the hash, if there is one.
  lemma {:induction false} FirstMatchMeaning(p: Platform, raws: seq<string>, h: Text) returns (i: nat)
    ensures var found := FirstMatch(IndexSupplied(p, raws), h);
            if i < |raws| then
              && FirstWithHash(p, raws, i, h) && found.Some?
              && found.value.payloadKind == KindOf(p.parse(raws[i]).value)
              && found.value.verifyStatus == VerifyReceipt(p, raws[i]).status
              && found.value.verifyDetail == VerifyReceipt(p, raws[i]).errors
            else found.None? && forall raw :: raw in raws ==> !HasHash(p, raw, h)
  {
    i := 0;
    if raws != [] {
      var rest, first := raws[1..], NodeOf(p, raws[0]);
      if first.Some? {
        assert IndexSupplied(p, raws)[1..] == IndexSupplied(p, rest);
      } else {
        assert IndexSupplied(p, raws) == IndexSupplied(p, rest);
      }
      if !HasHash(p, raws[0], h) {
        i := FirstMatchMeaning(p, rest, h);
        i := i + 1;
        assert forall j :: 0 < j < |raws| ==> raws[j] == rest[j - 1];
        assert forall raw :: raw in raws ==> raw == raws[0] || raw in rest;
      }
    }
  }

  // A dependency that holds: typed, and the first text with its hash verifies and
  // has the kind asked for.
  ghost predicate Stands(p: Platform, raws: seq<string>, m: SupportMember) {
    m.TypedReceiptDependency? && exists i: nat :: StandsOn(p, raws, i, m)
  }

  predicate StandsOn(p: Platform, raws: seq<string>, i: nat, m: SupportMember)
    requires m.TypedReceiptDependency?
  {
    && FirstWithHash(p, raws, i, m.eventHash)
    && VerifyReceipt(p, raws[i]).status.Valid? && KindOf(p.parse(raws[i]).value) == m.targetSchema
  }

  lemma StandingMeaning(p: Platform, raws: seq<string>, m: SupportMember)
    ensures EdgeStands(m, IndexSupplied(p, raws)) <==> Stands(p, raws, m)
  {
    if m.TypedReceiptDependency? {
      var i := FirstMatchMeaning(p, raws, m.eventHash);
      forall j: nat | FirstWithHash(p, raws, j, m.eventHash) ensures j == i {
        assert raws[j] in raws;
      }
      assert i < |raws| && EdgeStands(m, IndexSupplied(p, raws)) ==> StandsOn(p, raws, i, m);
    }
  }

  // VALID in terms of what the root reads as and of the texts that have the hashes
  // it depends on.
  lemma PackVerdict(p: Platform, pack: Pack)
    ensures VerifyPack(p, Some(pack)).status.Valid? <==>
              && pack.format == Chars("vr-layered-pack/v1")
              && VerifyReceipt(p, pack.rootCanonical).status.Valid?
              && exists kind, members :: ReadsAsRoot(p, pack.rootCanonical, kind, members)
                   && forall m :: m in members && IsDependency(m) ==> Stands(p, pack.receipts, m)
  {
    ComputedVerdict(p, pack);
    ExtractionIsExact(p, pack.rootCanonical);
    forall m ensures EdgeStands(m, IndexSupplied(p, pack.receipts)) <==> Stands(p, pack.receipts, m) {
      StandingMeaning(p, pack.receipts, m);
    }
  }

  // ---------- The result, field by field ----------

  predicate IsRejection(r: PackResult, error: PackError) {
    && r.status.Invalid? && r.errors == [error] && r.edgeChecks == [] && r.rootKind.None?
    && r.rootResult.status.Invalid?
  }

  lemma EarlyRejections(p: Platform, input: Option<Pack>)
    ensures input.None? ==> IsRejection(VerifyPack(p, input), MalformedPack)
    ensures input.Some? && input.value.format != Chars("vr-layered-pack/v1") ==>
              IsRejection(VerifyPack(p, input), UnsupportedPackFormat(input.value.format))
  {
  }

  // What the check of a dependency says, in terms of the first text with its hash.
  ghost predicate Reported(p: Platform, raws: seq<string>, m: SupportMember, c: EdgeCheck) {
    if m.DependedOnReceipt? then c == EdgeCheck(m.eventHash, None, None, UntypedEdge, Some(Untyped))
    else
      && m.TypedReceiptDependency?
      && c.eventHash == m.eventHash && c.role == m.role && c.targetSchema == Some(m.targetSchema)
      && ((forall raw :: raw in raws ==> !HasHash(p, raw, m.eventHash)) ==>
            c.status == Missing && c.detail == Some(NotSupplied))
      && (forall i: nat :: FirstWithHash(p, raws, i, m.eventHash) ==> SaysOf(p, raws[i], m.targetSchema, c))
  }

  predicate SaysOf(p: Platform, raw: string, schema: Text, c: EdgeCheck)
    requires p.parse(raw).Some?
  {
    var report, kind := VerifyReceipt(p, raw), KindOf(p.parse(raw).value);
    if report.status.Invalid? then c.status == Failed && c.detail == Some(DoesNotVerify(report.errors))
    else if kind != schema then c.status == SchemaMismatch && c.detail == Some(KindDiffers(schema, kind))
    else c.status == Resolved && c.detail == None
  }

  lemma NodeSays(p: Platform, raw: string, m: SupportMember, supplied: seq<Supplied>, node: Node)
    requires m.TypedReceiptDependency? && p.parse(raw).Some? && FirstMatch(supplied, m.eventHash) == Some(node)
    requires node.payloadKind == KindOf(p.parse(raw).value)
    requires node.verifyStatus == VerifyReceipt(p, raw).status && node.verifyDetail == VerifyReceipt(p, raw).errors
    ensures SaysOf(p, raw, m.targetSchema, WalkEdge(m, supplied).value)
  {
  }

  lemma EdgeMeaning(p: Platform, raws: seq<string>, m: SupportMember)
    ensures WalkEdge(m, IndexSupplied(p, raws)).Some? <==> IsDependency(m)
    ensures IsDependency(m) ==> Reported(p, raws, m, WalkEdge(m, IndexSupplied(p, raws)).value)
  {
    if m.TypedReceiptDependency? {
      var supplied := IndexSupplied(p, raws);
      var i := FirstMatchMeaning(p, raws, m.eventHash);
      forall j: nat | FirstWithHash(p, raws, j, m.eventHash)
        ensures SaysOf(p, raws[j], m.targetSchema, WalkEdge(m, supplied).value)
      {
        assert raws[j] in raws;
        assert j == i;
        NodeSays(p, raws[i], m, supplied, FirstMatch(supplied, m.eventHash).value);
      }
      assert i < |raws| ==> raws[i] in raws;
    }
  }

  // One check for each dependency member, in the order of the support set.
  ghost predicate ChecksInOrder(p: Platform, raws: seq<string>, members: seq<SupportMember>, checks: seq<EdgeCheck>,
                                at: seq<nat>) {
    && |at| == |checks|
    && (forall i, j :: 0 <= i < j < |at| ==> at[i] < at[j])
    && (forall k: nat :: k in at <==> k < |members| && IsDependency(members[k]))
    && (forall i :: 0 <= i < |at| ==> at[i] < |members| && Reported(p, raws, members[at[i]], checks[i]))
  }

  // The fields for a pack of the expected format.
  lemma ResultFields(p: Platform, pack: Pack) returns (at: seq<nat>)
    requires pack.format == Chars("vr-layered-pack/v1")
    ensures var r := VerifyPack(p, Some(pack));
            && r.rootResult == VerifyReceipt(p, pack.rootCanonical) && (r.status.Valid? <==> r.errors == [])
            && (forall e :: NoRoot(p, pack.rootCanonical, e) ==> r.rootKind.None? && r.edgeChecks == [])
            && (forall kind, members :: ReadsAsRoot(p, pack.rootCanonical, kind, members) ==>
                  r.rootKind == Some(kind) && ChecksInOrder(p, pack.receipts, members, r.edgeChecks, at))
  {
    ExtractionIsExact(p, pack.rootCanonical);
    PackIsExplained(p, Some(pack));
    var extracted := ExtractLayeredPayload(p, pack.rootCanonical);
    at := [];
    if extracted.Ok? {
      at := ChecksAreInOrder(p, pack.receipts, extracted.value.1);
    }
  }

  lemma ChecksAreInOrder(p: Platform, raws: seq<string>, members: seq<SupportMember>) returns (at: seq<nat>)
    ensures ChecksInOrder(p, raws, members, WalkEdges(members, IndexSupplied(p, raws)), at)
  {
    var supplied := IndexSupplied(p, raws);
    at := CollectedInOrder(members, m => WalkEdge(m, supplied));
    forall m
      ensures WalkEdge(m, supplied).Some? <==> IsDependency(m)
      ensures IsDependency(m) ==> Reported(p, raws, m, WalkEdge(m, supplied).value)
    {
      EdgeMeaning(p, raws, m);
    }
  }

  // One error for each check that is out, in the order of the checks.
  ghost predicate OutsInOrder(errors: seq<PackError>, checks: seq<EdgeCheck>, at: seq<nat>) {
    && |at| == |errors|
    && (forall i, j :: 0 <= i < j < |at| ==> at[i] < at[j])
    && (forall k: nat :: k in at <==> k < |checks| && checks[k].status != Resolved)
    && (forall i :: 0 <= i < |at| ==>
          at[i] < |checks| && errors[i] == LineageEdgeOut(checks[at[i]].eventHash, checks[at[i]].status))
  }

  lemma OutErrorsInOrder(checks: seq<EdgeCheck>) returns (at: seq<nat>)
    ensures OutsInOrder(OutErrors(checks), checks, at)
  {
    at := CollectedInOrder(checks, OutError);
    forall k: nat ensures k in at <==> k < |checks| && checks[k].status != Resolved {
    }
  }

  // The errors of the root receipt in their own order; then why it is no layered
  // root, or one for each check that is out.
  lemma ErrorsInOrder(p: Platform, pack: Pack)
    returns (own: seq<PackError>, middle: seq<PackError>, outs: seq<PackError>, at: seq<nat>)
    requires pack.format == Chars("vr-layered-pack/v1")
    ensures var r, raw := VerifyPack(p, Some(pack)), pack.rootCanonical;
            && r.errors == own + middle + outs
            && |own| == |r.rootResult.errors|
            && (forall i :: 0 <= i < |own| ==> own[i] == RootEnvelopeError(r.rootResult.errors[i]))
            && OutsInOrder(outs, r.edgeChecks, at)
            && (if exists kind, members :: ReadsAsRoot(p, raw, kind, members) then middle == []
                else |middle| == 1 && NoRoot(p, raw, middle[0]))
  {
    ExtractionIsExact(p, pack.rootCanonical);
    own := PackRootErrors(VerifyReceipt(p, pack.rootCanonical).errors);
    var extracted := ExtractLayeredPayload(p, pack.rootCanonical);
    if extracted.Ok? {
      var checks := WalkEdges(extracted.value.1, IndexSupplied(p, pack.receipts));
      middle, outs := [], OutErrors(checks);
      at := OutErrorsInOrder(checks);
      assert own + middle + outs == own + outs;
    } else {
      middle, outs, at := [extracted.error], [], [];
      assert own + middle + outs == own + middle;
    }
  }

  // ---------- List scan and map index ----------

  // The scan finds the node of some supplied receipt with the hash, if there is one.
  lemma {:induction false} FirstMatchIsSupplied(p: Platform, raws: seq<string>, h: Text)
    ensures var found := FirstMatch(IndexSupplied(p, raws), h);
            && (found.None? ==> forall raw :: raw in raws ==> !Names(p, raw, h))
            && (found.Some? ==> exists raw :: raw in raws && NodeOf(p, raw) == Some((h, found.value)))
  {
    if raws != [] {
      FirstMatchIsSupplied(p, raws[1..], h);
      var first := NodeOf(p, raws[0]);
      if first.Some? {
        assert IndexSupplied(p, raws)[1..] == IndexSupplied(p, raws[1..]);
      } else {
        assert IndexSupplied(p, raws) == IndexSupplied(p, raws[1..]);
      }
      assert forall raw :: raw in raws <==> raw == raws[0] || raw in raws[1..];
    }
  }

  // When receipts with the same hash agree, the first match in the list is the
  // map's entry, which is that of the last.
  lemma FirstMatchIsLookup(p: Platform, index: Index, raws: seq<string>, h: Text)
    requires Agreeing(p, raws) && h !in index
    ensures FirstMatch(IndexSupplied(p, raws), h) == Find(InsertedAll(p, index, raws), h)
  {
    FirstMatchIsSupplied(p, raws, h);
    var found := FirstMatch(IndexSupplied(p, raws), h);
    if found.Some? {
      var raw :| raw in raws && NodeOf(p, raw) == Some((h, found.value));
      AgreeingFind(p, index, raws, raw, h);
    } else {
      InsertedAllFind(p, index, raws, h);
    }
  }

  // Over the same list of agreeing receipts the two verifiers resolve edges
  // alike: what the closure graph resolves the scan resolves, and their whole
  // checks coincide when the edge asks for a layered kind.
  lemma ScanAgreesWithGraph(p: Platform, index: Index, raws: seq<string>, m: SupportMember)
    requires Agreeing(p, raws)
    requires m.TypedReceiptDependency? && m.eventHash !in index
    ensures var scanned := WalkEdge(m, IndexSupplied(p, raws)).value;
            var looked := CheckOf(InsertedAll(p, index, raws), m).value;
            && (looked.status == Resolved ==> scanned.status == Resolved)
            && (IsLayeredKind(m.targetSchema) ==> scanned == looked)
            && (scanned == looked || (scanned.status == Resolved && looked.status == SchemaMismatch
                                      && !IsLayeredKind(m.targetSchema)))
  {
    FirstMatchIsLookup(p, index, raws, m.eventHash);
  }

  // How a supplied provider or model reads as the root of a layered pack.
  lemma RootOfNode(p: Platform, raw: string, u: Text, node: Node)
    requires NodeOf(p, raw) == Some((u, node)) && IsRootKind(node.payloadKind)
    ensures ExtractLayeredPayload(p, raw).Ok? <==> SupportSetReads(p, p.parse(raw).value)
    ensures ExtractLayeredPayload(p, raw).Ok? ==> ExtractLayeredPayload(p, raw).value.1 == node.supportSet
    ensures node.verifyStatus == VerifyReceipt(p, raw).status
  {
    KindsDiffer();
  }

  lemma DependenciesStand(p: Platform, b: Bundle, h: Text, u: Text)
    requires AllResolved(GraphOf(p, b), h) && Agreeing(p, Texts(b))
    requires Reaches(GraphOf(p, b), ResolvedOnly, h, u) && u in GraphOf(p, b)
    ensures forall m :: m in GraphOf(p, b)[u].supportSet && IsDependency(m) ==>
              EdgeStands(m, IndexSupplied(p, Texts(b)))
  {
    var index := GraphOf(p, b);
    forall m | m in index[u].supportSet && IsDependency(m) ensures EdgeStands(m, IndexSupplied(p, Texts(b))) {
      assert HasDependency(index, u, m);
      FirstMatchIsLookup(p, map[], Texts(b), m.eventHash);
    }
  }

  // A provider or model that a VALID bundle reaches is VALID as the root of a
  // layered pack over the same texts iff its support set can be read. Only
  // there do the verifiers differ: the bundle takes an unreadable one as empty.
  lemma ReachedReceiptsArePacks(p: Platform, b: Bundle, root: Value, h: Text, raw: string, u: Text)
    requires ListsSets(p) && HasRoot(p, b, root, h) && VerifyBundle(p, Some(b)).status.Valid?
    requires Agreeing(p, Texts(b)) && raw in Texts(b) && Names(p, raw, u)
    requires Reaches(GraphOf(p, b), ResolvedOnly, h, u) && IsRootKind(NodeOf(p, raw).value.1.payloadKind)
    ensures VerifyPack(p, Some(Pack(PACK_FORMAT, raw, Texts(b)))).status.Valid? <==>
              SupportSetReads(p, p.parse(raw).value)
  {
    VerdictIsExact(p, b, root, h);
    AgreeingFind(p, map[], Texts(b), raw, u);
    ReachedVerifies(p, b, root, h, u);
    RootOfNode(p, raw, u, NodeOf(p, raw).value.1);
    DependenciesStand(p, b, h, u);
    ComputedVerdict(p, Pack(PACK_FORMAT, raw, Texts(b)));
  }

  lemma ReachedVerifies(p: Platform, b: Bundle, root: Value, h: Text, u: Text)
    requires HasRoot(p, b, root, h) && ReadPayloadKind(root) == Some(PACK_KIND) && Agreeing(p, Texts(b))
    requires Reaches(GraphOf(p, b), ResolvedOnly, h, u) && u in GraphOf(p, b)
    requires IsRootKind(GraphOf(p, b)[u].payloadKind)
    ensures GraphOf(p, b)[u].verifyStatus.Valid?
  {
    var index := GraphOf(p, b);
    var n: nat :| PathOf(index, ResolvedOnly, n, h, u);
    if n == 0 {
      AgreeingFind(p, map[], Texts(b), b.rootCanonical, h);
      KindsDiffer();
      assert false;
    } else {
      var w :| PathOf(index, ResolvedOnly, n - 1, h, w) && Edge(index, ResolvedOnly, w, u);
      ResolvedTarget(index, w, u);
    }
  }

  lemma KindsDiffer()
    ensures !IsRootKind(PACK_KIND) && !IsRootKind(Chars(""))
  {
    assert |PROVIDER_KIND.chars| == 11 && |MODEL_KIND.chars| == 8 && |PACK_KIND.chars| == 7;
  }
}
