// Decision packs (src/decision_pack.rs): the support-set walk of a decision.
module DecisionPack {
  import opened Wrappers
  import opened Json
  import opened Limits
  import opened Receipts
  import opened Report
  import opened Verify
  import opened ClosureBundle

  const DECISION_FORMAT := Chars("vr-decision-pack/v1")
  const DECISION_KIND := Chars("decision.v0")

  datatype Verdict = Allow | Deny | Conditional | NoMatch

  datatype DecisionPayload = DecisionPayload(verdict: Verdict, supportSet: seq<SupportMember>)

  datatype Pack = Pack(format: Text, decisionCanonical: string, dependedOn: seq<string>)

  datatype MemberStatus = Verified | Committed | Missing | Failed

  datatype MemberDetail = NotSupplied | DoesNotVerify(errors: seq<ReportError>) | BadDigest | EmptyLink

  datatype MemberCheck = MemberCheck(member: SupportMember, status: MemberStatus, detail: Option<MemberDetail>)

  datatype PackError =
    | MalformedPack
    | UnsupportedPack(format: Text)
    | DecisionEnvelope(error: ReportError)
    | DecisionNotReadable
    | NoPayload
    | NotADecision(kind: Text)
    | MalformedPayload
    | UnreadableReceipt
    | MemberOut(check: MemberCheck)

  datatype PackResult = PackResult(
    status: Status,
    decisionResult: Report,
    verdict: Option<Verdict>,
    memberChecks: seq<MemberCheck>,
    errors: seq<PackError>)

  // The typed decision payload, deserialized by a library.
  type PayloadReader = Value -> Option<DecisionPayload>

  function ExtractDecisionPayload(p: Platform, decision: PayloadReader, raw: string)
    : Result<DecisionPayload, PackError>
  {
    match p.parse(raw)
    case None => Err(DecisionNotReadable)
    case Some(v) =>
      match Get(v, "payload")
      case None => Err(NoPayload)
      case Some(payload) =>
        var read := GetText(payload, "payload_kind");
        var kind := if read.Some? then read.value else Chars("");
        if kind != DECISION_KIND then Err(NotADecision(kind))
        else
          match decision(payload)
          case None => Err(MalformedPayload)
          case Some(d) => Ok(d)
  }

  function ExtractEventHash(p: Platform, raw: string): Option<Text> {
    var v := p.parse(raw);
    if v.Some? then ReadEventHash(v.value) else None
  }

  // ---------- Partitioning the supplied receipts ----------

  datatype Supply = Supply(verified: seq<Text>, failed: seq<(Text, seq<ReportError>)>, unreadable: nat)

  function Partition(p: Platform, raws: seq<string>): Supply {
    if raws == [] then Supply([], [], 0)
    else
      var before := Partition(p, raws[..|raws| - 1]);
      Add(p, before, raws[|raws| - 1])
  }

  function Add(p: Platform, supply: Supply, raw: string): Supply {
    var report, hash := VerifyReceipt(p, raw), ExtractEventHash(p, raw);
    if hash.None? then supply.(unreadable := supply.unreadable + 1)
    else if report.status.Valid? then supply.(verified := supply.verified + [hash.value])
    else supply.(failed := supply.failed + [(hash.value, report.errors)])
  }

  function FirstFailure(failed: seq<(Text, seq<ReportError>)>, h: Text): Option<seq<ReportError>> {
    if failed == [] then None
    else if failed[0].0 == h then Some(failed[0].1)
    else FirstFailure(failed[1..], h)
  }

  // ---------- Walking a member ----------

  predicate IsLowerHex(c: char) {
    '0' <= c <= '9' || 'a' <= c <= 'f'
  }

  // A digest computed by the verifier's own hash is 64 lowercase hex digits.
  predicate IsLowerHex64(t: Text) {
    match t
    case HashOf(_) => true
    case Chars(s) => |s| == 64 && forall i :: 0 <= i < |s| ==> IsLowerHex(s[i])
  }

  // Unicode white space, as `trim` understands it.
  predicate IsSpace(c: char) {
    || '\t' <= c <= '\r' || c == ' ' || c == '\U{85}' || c == '\U{A0}' || c == '\U{1680}'
    || '\U{2000}' <= c <= '\U{200A}' || c == '\U{2028}' || c == '\U{2029}' || c == '\U{202F}'
    || c == '\U{205F}' || c == '\U{3000}'
  }

  predicate IsBlank(t: Text) {
    t.Chars? && forall i :: 0 <= i < |t.chars| ==> IsSpace(t.chars[i])
  }

  const HEX_DIGITS: string := "0123456789abcdef"

  // A digest written out is 64 of the sixteen lowercase digits.
  lemma HexMeaning(s: string)
    ensures IsLowerHex64(Chars(s)) <==> |s| == 64 && forall c :: c in s ==> c in HEX_DIGITS
  {
    forall c ensures IsLowerHex(c) <==> c in HEX_DIGITS {
      DigitMeaning(c);
    }
    assert forall i :: 0 <= i < |s| ==> s[i] in s;
  }

  lemma DigitMeaning(c: char)
    ensures IsLowerHex(c) <==> c in HEX_DIGITS
  {
    if IsLowerHex(c) {
      var i := if c <= '9' then c as int - '0' as int else c as int - 'a' as int + 10;
      assert HEX_DIGITS[i] == c;
    }
  }

  // The 25 code points with the Unicode property White_Space.
  const WHITE_SPACE: set<int> := {
    0x9, 0xA, 0xB, 0xC, 0xD, 0x20, 0x85, 0xA0, 0x1680, 0x2000, 0x2001, 0x2002, 0x2003, 0x2004, 0x2005, 0x2006,
    0x2007, 0x2008, 0x2009, 0x200A, 0x2028, 0x2029, 0x202F, 0x205F, 0x3000}

  lemma BlankMeaning(s: string)
    ensures IsBlank(Chars(s)) <==> forall c :: c in s ==> c as int in WHITE_SPACE
  {
    assert forall i :: 0 <= i < |s| ==> s[i] in s;
  }

  function ReceiptStatus(h: Text, supply: Supply): (MemberStatus, Option<MemberDetail>) {
    var failure := FirstFailure(supply.failed, h);
    if h in supply.verified then (Verified, None)
    else if failure.Some? then (Failed, Some(DoesNotVerify(failure.value)))
    else (Missing, Some(NotSupplied))
  }

  function WalkMember(m: SupportMember, supply: Supply): MemberCheck {
    var (status, detail) :=
      match m
      case TypedReceiptDependency(h, _, _) => ReceiptStatus(h, supply)
      case DependedOnReceipt(h) => ReceiptStatus(h, supply)
      case EvidenceDigest(_, digest) => if IsLowerHex64(digest) then (Committed, None) else (Failed, Some(BadDigest))
      case CitedLink(_, url) => if IsBlank(url) then (Failed, Some(EmptyLink)) else (Committed, None)
      case SelectorValue(_) => (Committed, None);
    MemberCheck(m, status, detail)
  }

  predicate Holds(c: MemberCheck) {
    c.status == Verified || c.status == Committed
  }

  function WalkMembers(ms: seq<SupportMember>, supply: Supply): seq<MemberCheck> {
    Mapped(ms, m => WalkMember(m, supply))
  }

  function OutErrors(checks: seq<MemberCheck>): seq<PackError> {
    Collected(checks, OutError)
  }

  function OutError(c: MemberCheck): Option<PackError> {
    if Holds(c) then None else Some(MemberOut(c))
  }

  function Repeated(error: PackError, n: nat): seq<PackError> {
    seq(n, _ => error)
  }

  function DecisionErrors(errors: seq<ReportError>): seq<PackError> {
    Mapped(errors, e => DecisionEnvelope(e))
  }

  function RejectedPack(error: PackError): PackResult {
    PackResult(Invalid, InvalidReport(Wrapper), None, [], [error])
  }

  function VerifyPack(p: Platform, decision: PayloadReader, input: Option<Pack>): PackResult {
    match input
    case None => RejectedPack(MalformedPack)
    case Some(pack) =>
      if pack.format != DECISION_FORMAT then RejectedPack(UnsupportedPack(pack.format))
      else
        var result := VerifyReceipt(p, pack.decisionCanonical);
        var envelopeErrors := DecisionErrors(result.errors);
        match ExtractDecisionPayload(p, decision, pack.decisionCanonical)
        case Err(e) => PackResult(Invalid, result, None, [], envelopeErrors + [e])
        case Ok(payload) =>
          var supply := Partition(p, pack.dependedOn);
          var checks := WalkMembers(payload.supportSet, supply);
          var errors := envelopeErrors + Repeated(UnreadableReceipt, supply.unreadable) + OutErrors(checks);
          PackResult(if result.status.Valid? && errors == [] then Valid else Invalid,
                     result, Some(payload.verdict), checks, errors)
  }

  // ---------- The entry point ----------

  method VerifyDecisionPack(p: Platform, decision: PayloadReader, input: Option<Pack>) returns (r: PackResult)
    ensures r == VerifyPack(p, decision, input)
  {
    if input.None? {
      return RejectedPack(MalformedPack);
    }
    var pack := input.value;
    if pack.format != DECISION_FORMAT {
      return RejectedPack(UnsupportedPack(pack.format));
    }
    var result := VerifyReceiptWithLimits(p, pack.decisionCanonical, DEFAULT_LIMITS);
    ReportsAreClean(p, pack.decisionCanonical);
    var errors := [];
    if result.status != Valid {
      errors := DecisionErrors(result.errors);
    }
    assert errors == DecisionErrors(VerifyReceipt(p, pack.decisionCanonical).errors);
    var payload := ExtractDecisionPayload(p, decision, pack.decisionCanonical);
    if payload.Err? {
      return PackResult(Invalid, result.Value(), None, [], errors + [payload.error]);
    }
    var supply, unreadable := SortSupplied(p, pack.dependedOn);
    errors := errors + unreadable;
    var checks, out, allHold := WalkSupportSet(payload.value.supportSet, supply);
    errors := errors + out;
    var status := if result.status.Valid? && errors == [] && allHold then Valid else Invalid;
    r := PackResult(status, result.Value(), Some(payload.value.verdict), checks, errors);
  }

  method SortSupplied(p: Platform, raws: seq<string>) returns (supply: Supply, errors: seq<PackError>)
    ensures supply == Partition(p, raws)
    ensures errors == Repeated(UnreadableReceipt, supply.unreadable)
  {
    var verified: seq<Text>, failed: seq<(Text, seq<ReportError>)> := [], [];
    errors := [];
    for i := 0 to |raws|
      invariant Partition(p, raws[..i]) == Supply(verified, failed, |errors|)
      invariant errors == Repeated(UnreadableReceipt, |errors|)
    {
      assert raws[..i + 1][..i] == raws[..i];
      var result := VerifyReceiptWithLimits(p, raws[i], DEFAULT_LIMITS);
      var hash := ExtractEventHash(p, raws[i]);
      if hash.None? {
        errors := errors + [UnreadableReceipt];
      } else if result.status.Valid? {
        verified := verified + [hash.value];
      } else {
        failed := failed + [(hash.value, result.errors)];
      }
    }
    assert raws[..|raws|] == raws;
    supply := Supply(verified, failed, |errors|);
  }

  method WalkSupportSet(ms: seq<SupportMember>, supply: Supply)
    returns (checks: seq<MemberCheck>, errors: seq<PackError>, allHold: bool)
    ensures checks == WalkMembers(ms, supply)
    ensures errors == OutErrors(checks)
    ensures allHold <==> errors == []
  {
    checks, errors, allHold := [], [], true;
    for i := 0 to |ms|
      invariant checks == WalkMembers(ms[..i], supply)
      invariant errors == OutErrors(checks)
      invariant allHold <==> errors == []
    {
      var check := WalkMember(ms[i], supply);
      assert (checks + [check])[..|checks|] == checks;
      if !Holds(check) {
        errors := errors + [MemberOut(check)];
        allHold := false;
      }
      checks := checks + [check];
      assert ms[..i + 1] == ms[..i] + [ms[i]];
    }
    assert ms[..|ms|] == ms;
  }

  lemma PackIsExplained(p: Platform, decision: PayloadReader, input: Option<Pack>)
    ensures VerifyPack(p, decision, input).status.Valid? <==> VerifyPack(p, decision, input).errors == []
  {
  }

  // ---------- Order and monotonicity ----------

  // The partition, one hash at a time: order and repetition do not show.
  lemma {:induction false} SortedMeaning(p: Platform, raws: seq<string>, h: Text)
    ensures var supply := Partition(p, raws);
            && (h in supply.verified <==>
                  exists raw :: raw in raws && HasHash(p, raw, h) && VerifyReceipt(p, raw).status.Valid?)
            && (FirstFailure(supply.failed, h).Some? <==>
                  exists raw :: raw in raws && HasHash(p, raw, h) && !VerifyReceipt(p, raw).status.Valid?)
  {
    if raws != [] {
      var init, last := raws[..|raws| - 1], raws[|raws| - 1];
      SortedMeaning(p, init, h);
      assert forall raw :: raw in raws <==> raw in init || raw == last by {
        assert raws == init + [last];
      }
      FirstFailureAppend(Partition(p, init).failed, (ExtractedOr(p, last, h), VerifyReceipt(p, last).errors), h);
    }
  }

  function ExtractedOr(p: Platform, raw: string, default: Text): Text {
    var h := ExtractEventHash(p, raw);
    if h.Some? then h.value else default
  }

  lemma {:induction false} FirstFailureAppend(failed: seq<(Text, seq<ReportError>)>, f: (Text, seq<ReportError>),
                                              h: Text)
    ensures var before := FirstFailure(failed, h);
            FirstFailure(failed + [f], h) == if before.Some? then before else if f.0 == h then Some(f.1) else None
  {
    if failed == [] {
      assert ([] + [f])[1..] == [];
    } else {
      assert (failed + [f])[1..] == failed[1..] + [f];
      FirstFailureAppend(failed[1..], f, h);
    }
  }

  lemma {:induction false} SortedUnreadable(p: Platform, raws: seq<string>)
    ensures Partition(p, raws).unreadable == 0 <==> forall raw :: raw in raws ==> ExtractEventHash(p, raw).Some?
  {
    if raws != [] {
      var init, last := raws[..|raws| - 1], raws[|raws| - 1];
      SortedUnreadable(p, init);
      assert raws == init + [last];
    }
  }

  // Each member's status depends only on the set of supplied receipts.
  lemma StatusIgnoresOrder(p: Platform, raws: seq<string>, raws': seq<string>, m: SupportMember)
    requires forall raw :: raw in raws <==> raw in raws'
    ensures WalkMember(m, Partition(p, raws)).status == WalkMember(m, Partition(p, raws')).status
  {
    if m.TypedReceiptDependency? || m.DependedOnReceipt? {
      SortedMeaning(p, raws, m.eventHash);
      SortedMeaning(p, raws', m.eventHash);
    }
  }

  lemma OutErrorsAreExact(checks: seq<MemberCheck>)
    ensures OutErrors(checks) == [] <==> forall c :: c in checks ==> Holds(c)
  {
    NothingCollected(checks, OutError);
  }

  // What a member needs from the supplied receipts: a dependency needs one
  // verifying copy, whatever other copies there are.
  ghost predicate Stands(p: Platform, raws: seq<string>, m: SupportMember) {
    match m
    case TypedReceiptDependency(h, _, _) => HasVerifyingCopy(p, raws, h)
    case DependedOnReceipt(h) => HasVerifyingCopy(p, raws, h)
    case EvidenceDigest(_, digest) => IsLowerHex64(digest)
    case CitedLink(_, url) => !IsBlank(url)
    case SelectorValue(_) => true
  }

  ghost predicate HasVerifyingCopy(p: Platform, raws: seq<string>, h: Text) {
    exists raw :: raw in raws && HasHash(p, raw, h) && VerifyReceipt(p, raw).status.Valid?
  }

  lemma StandingMembersHold(p: Platform, raws: seq<string>, m: SupportMember)
    ensures Holds(WalkMember(m, Partition(p, raws))) <==> Stands(p, raws, m)
  {
    if m.TypedReceiptDependency? || m.DependedOnReceipt? {
      SortedMeaning(p, raws, m.eventHash);
    }
  }

  lemma SupportSetStands(p: Platform, raws: seq<string>, ms: seq<SupportMember>)
    ensures OutErrors(WalkMembers(ms, Partition(p, raws))) == [] <==> forall m :: m in ms ==> Stands(p, raws, m)
  {
    var supply := Partition(p, raws);
    var checks := WalkMembers(ms, supply);
    OutErrorsAreExact(checks);
    forall m | m in ms
      ensures WalkMember(m, supply) in checks
      ensures Holds(WalkMember(m, supply)) <==> Stands(p, raws, m)
    {
      var i :| 0 <= i < |ms| && ms[i] == m;
      assert checks[i] == WalkMember(m, supply);
      StandingMembersHold(p, raws, m);
    }
  }

  // ---------- What is read from the decision ----------

  // The text has a payload of the decision kind that deserializes to d.
  predicate DecidesAs(p: Platform, decision: PayloadReader, raw: string, d: DecisionPayload) {
    && p.parse(raw).Some?
    && var payload := Get(p.parse(raw).value, "payload");
       payload.Some? && GetText(payload.value, "payload_kind") == Some(Chars("decision.v0"))
       && decision(payload.value) == Some(d)
  }

  // The text has no such payload, for this reason.
  predicate NoDecision(p: Platform, decision: PayloadReader, raw: string, e: PackError) {
    if p.parse(raw).None? then e == DecisionNotReadable
    else
      var payload := Get(p.parse(raw).value, "payload");
      if payload.None? then e == NoPayload
      else
        var kind := GetText(payload.value, "payload_kind");
        if kind == Some(Chars("decision.v0")) then decision(payload.value).None? && e == MalformedPayload
        else e == NotADecision(if kind.Some? then kind.value else Chars(""))
  }

  lemma ExtractionIsExact(p: Platform, decision: PayloadReader, raw: string)
    ensures match ExtractDecisionPayload(p, decision, raw)
            case Ok(d) => DecidesAs(p, decision, raw, d)
            case Err(e) => NoDecision(p, decision, raw, e) && forall d :: !DecidesAs(p, decision, raw, d)
  {
    assert |DECISION_KIND.chars| == 11;
  }

  // VALID in terms of the decision and of each member.
  lemma PackVerdict(p: Platform, decision: PayloadReader, pack: Pack)
    ensures VerifyPack(p, decision, Some(pack)).status.Valid? <==>
              && pack.format == Chars("vr-decision-pack/v1")
              && VerifyReceipt(p, pack.decisionCanonical).status.Valid?
              && (forall raw :: raw in pack.dependedOn ==> Readable(p, raw))
              && exists d :: DecidesAs(p, decision, pack.decisionCanonical, d)
                   && forall m :: m in d.supportSet ==> Stands(p, pack.dependedOn, m)
  {
    ReportsAreClean(p, pack.decisionCanonical);
    SortedUnreadable(p, pack.dependedOn);
    ExtractionIsExact(p, decision, pack.decisionCanonical);
    if ExtractDecisionPayload(p, decision, pack.decisionCanonical).Ok? {
      var payload := ExtractDecisionPayload(p, decision, pack.decisionCanonical).value;
      SupportSetStands(p, pack.dependedOn, payload.supportSet);
    }
  }

  // The receipt text has a readable event hash.
  predicate Readable(p: Platform, raw: string) {
    p.parse(raw).Some? && GetText(p.parse(raw).value, "event_hash").Some?
  }

  // ---------- The result, field by field ----------

  predicate IsRejection(r: PackResult, error: PackError) {
    && r.status.Invalid? && r.errors == [error] && r.memberChecks == [] && r.verdict.None?
    && r.decisionResult.status.Invalid?
  }

  lemma EarlyRejections(p: Platform, decision: PayloadReader, input: Option<Pack>)
    ensures input.None? ==> IsRejection(VerifyPack(p, decision, input), MalformedPack)
    ensures input.Some? && input.value.format != Chars("vr-decision-pack/v1") ==>
              IsRejection(VerifyPack(p, decision, input), UnsupportedPack(input.value.format))
  {
  }

  // The fields for a pack of the expected format. The verdict is that of the
  // decision, and each member of its support set has one check, in order.
  lemma ResultFields(p: Platform, decision: PayloadReader, pack: Pack)
    requires pack.format == Chars("vr-decision-pack/v1")
    ensures var r := VerifyPack(p, decision, Some(pack));
            && r.decisionResult == VerifyReceipt(p, pack.decisionCanonical)
            && (r.status.Valid? <==> r.errors == [])
            && (forall e :: NoDecision(p, decision, pack.decisionCanonical, e) ==>
                  r.verdict.None? && r.memberChecks == [])
            && (forall d :: DecidesAs(p, decision, pack.decisionCanonical, d) ==>
                  && r.verdict == Some(d.verdict) && |r.memberChecks| == |d.supportSet|
                  && forall i :: 0 <= i < |d.supportSet| ==>
                       MemberReported(p, pack.dependedOn, d.supportSet[i], r.memberChecks[i]))
  {
    ExtractionIsExact(p, decision, pack.decisionCanonical);
    PackIsExplained(p, decision, Some(pack));
    var extracted := ExtractDecisionPayload(p, decision, pack.decisionCanonical);
    if extracted.Ok? {
      forall m ensures MemberReported(p, pack.dependedOn, m, WalkMember(m, Partition(p, pack.dependedOn))) {
        CheckMeaning(p, pack.dependedOn, m);
      }
    }
  }

  // A failing copy of the hash is supplied.
  ghost predicate HasFailingCopy(p: Platform, raws: seq<string>, h: Text) {
    exists raw :: raw in raws && HasHash(p, raw, h) && !VerifyReceipt(p, raw).status.Valid?
  }

  // The check of a member says of a dependency whether a verifying copy, only
  // failing ones or none at all was supplied, and of other members whether they
  // are well formed.
  ghost predicate MemberReported(p: Platform, raws: seq<string>, m: SupportMember, c: MemberCheck) {
    && c.member == m
    && match m
       case TypedReceiptDependency(h, _, _) => DependencyReported(p, raws, h, c)
       case DependedOnReceipt(h) => DependencyReported(p, raws, h, c)
       case EvidenceDigest(_, digest) =>
         if IsLowerHex64(digest) then c.status == Committed && c.detail.None?
         else c.status == Failed && c.detail == Some(BadDigest)
       case CitedLink(_, url) =>
         if IsBlank(url) then c.status == Failed && c.detail == Some(EmptyLink)
         else c.status == Committed && c.detail.None?
       case SelectorValue(_) => c.status == Committed && c.detail.None?
  }

  ghost predicate DependencyReported(p: Platform, raws: seq<string>, h: Text, c: MemberCheck) {
    if HasVerifyingCopy(p, raws, h) then c.status == Verified && c.detail.None?
    else if HasFailingCopy(p, raws, h) then
      c.status == Failed && c.detail.Some? && ExplainsFailure(p, raws, h, c.detail.value)
    else c.status == Missing && c.detail == Some(NotSupplied)
  }

  // The detail quotes the errors of the first failing copy.
  ghost predicate ExplainsFailure(p: Platform, raws: seq<string>, h: Text, detail: MemberDetail) {
    exists i: nat :: FirstFailing(p, raws, i, h) && detail == DoesNotVerify(VerifyReceipt(p, raws[i]).errors)
  }

  // raws[i] is the first failing copy of the hash.
  predicate FirstFailing(p: Platform, raws: seq<string>, i: nat, h: Text) {
    && i < |raws| && FailingCopy(p, raws[i], h)
    && forall j :: 0 <= j < i ==> !FailingCopy(p, raws[j], h)
  }

  predicate FailingCopy(p: Platform, raw: string, h: Text) {
    HasHash(p, raw, h) && !VerifyReceipt(p, raw).status.Valid?
  }

  lemma CheckMeaning(p: Platform, raws: seq<string>, m: SupportMember)
    ensures MemberReported(p, raws, m, WalkMember(m, Partition(p, raws)))
  {
    if m.TypedReceiptDependency? || m.DependedOnReceipt? {
      SortedMeaning(p, raws, m.eventHash);
      if FirstFailure(Partition(p, raws).failed, m.eventHash).Some? {
        var i := FirstFailureMeaning(p, raws, m.eventHash);
      }
    }
  }

  // The first failure recorded for a hash is that of the first failing copy.
  lemma {:induction false} FirstFailureMeaning(p: Platform, raws: seq<string>, h: Text) returns (i: nat)
    requires FirstFailure(Partition(p, raws).failed, h).Some?
    ensures FirstFailing(p, raws, i, h)
    ensures FirstFailure(Partition(p, raws).failed, h) == Some(VerifyReceipt(p, raws[i]).errors)
  {
    var last := |raws| - 1;
    var init, raw := raws[..last], raws[last];
    var entry := (ExtractedOr(p, raw, h), VerifyReceipt(p, raw).errors);
    assert raws == init + [raw];
    FirstFailureAppend(Partition(p, init).failed, entry, h);
    if FirstFailure(Partition(p, init).failed, h).Some? {
      i := FirstFailureMeaning(p, init, h);
    } else {
      SortedMeaning(p, init, h);
      assert forall j :: 0 <= j < last ==> raws[j] == init[j] && init[j] in init;
      i := last;
    }
  }

  // ---------- The errors, in order ----------

  // The supplied texts without a readable event hash, by position.
  function UnreadableAt(p: Platform, raws: seq<string>): set<int> {
    set i | 0 <= i < |raws| && !Readable(p, raws[i])
  }

  lemma {:induction false} UnreadableCount(p: Platform, raws: seq<string>)
    ensures Partition(p, raws).unreadable == |UnreadableAt(p, raws)|
  {
    if raws != [] {
      var last := |raws| - 1;
      UnreadableCount(p, raws[..last]);
      assert UnreadableAt(p, raws) == UnreadableAt(p, raws[..last]) + if Readable(p, raws[last]) then {} else {last};
    }
  }

  // One error for each member that is missing or failed, in the order of the checks.
  ghost predicate OutsInOrder(errors: seq<PackError>, checks: seq<MemberCheck>, at: seq<nat>) {
    && |at| == |errors|
    && (forall i, j :: 0 <= i < j < |at| ==> at[i] < at[j])
    && (forall k: nat :: k in at <==> k < |checks| && (checks[k].status == Missing || checks[k].status == Failed))
    && (forall i :: 0 <= i < |at| ==> at[i] < |checks| && errors[i] == MemberOut(checks[at[i]]))
  }

  lemma OutErrorsInOrder(checks: seq<MemberCheck>) returns (at: seq<nat>)
    ensures OutsInOrder(OutErrors(checks), checks, at)
  {
    at := CollectedInOrder(checks, OutError);
    forall k: nat ensures k in at <==> k < |checks| && !Holds(checks[k]) {
    }
  }

  // The errors of the decision receipt in their own order; then either why it has
  // no decision payload, or one for each unreadable text and one for each member
  // that is out.
  lemma ErrorsInOrder(p: Platform, decision: PayloadReader, pack: Pack)
    returns (own: seq<PackError>, middle: seq<PackError>, outs: seq<PackError>, at: seq<nat>)
    requires pack.format == Chars("vr-decision-pack/v1")
    ensures var r, raw := VerifyPack(p, decision, Some(pack)), pack.decisionCanonical;
            && r.errors == own + middle + outs
            && |own| == |r.decisionResult.errors|
            && (forall i :: 0 <= i < |own| ==> own[i] == DecisionEnvelope(r.decisionResult.errors[i]))
            && OutsInOrder(outs, r.memberChecks, at)
            && (if exists d :: DecidesAs(p, decision, raw, d) then
                  && |middle| == |UnreadableAt(p, pack.dependedOn)|
                  && forall i :: 0 <= i < |middle| ==> middle[i] == UnreadableReceipt
                else |middle| == 1 && NoDecision(p, decision, raw, middle[0]))
  {
    ExtractionIsExact(p, decision, pack.decisionCanonical);
    UnreadableCount(p, pack.dependedOn);
    own := DecisionErrors(VerifyReceipt(p, pack.decisionCanonical).errors);
    var extracted, supply := ExtractDecisionPayload(p, decision, pack.decisionCanonical), Partition(p, pack.dependedOn);
    if extracted.Ok? {
      var checks := WalkMembers(extracted.value.supportSet, supply);
      middle, outs := Repeated(UnreadableReceipt, supply.unreadable), OutErrors(checks);
      at := OutErrorsInOrder(checks);
    } else {
      middle, outs, at := [extracted.error], [], [];
      assert own + middle + outs == own + middle;
    }
  }

  // The verdict depends only on the set of supplied receipts, not on their
  // order or on how often each is supplied.
  lemma VerdictIgnoresOrder(p: Platform, decision: PayloadReader, pack: Pack, raws: seq<string>)
    requires forall raw :: raw in raws <==> raw in pack.dependedOn
    ensures VerifyPack(p, decision, Some(pack.(dependedOn := raws))).status
         == VerifyPack(p, decision, Some(pack)).status
  {
    PackVerdict(p, decision, pack);
    PackVerdict(p, decision, pack.(dependedOn := raws));
    forall m ensures Stands(p, raws, m) <==> Stands(p, pack.dependedOn, m) {
    }
  }

  // More receipts with readable hashes, verifying or not, never spoil a valid pack.
  lemma MoreReceiptsKeepValid(p: Platform, decision: PayloadReader, pack: Pack, raws: seq<string>)
    requires VerifyPack(p, decision, Some(pack)).status.Valid?
    requires forall raw :: raw in pack.dependedOn ==> raw in raws
    requires forall raw :: raw in raws ==> ExtractEventHash(p, raw).Some?
    ensures VerifyPack(p, decision, Some(pack.(dependedOn := raws))).status.Valid?
  {
    PackVerdict(p, decision, pack);
    PackVerdict(p, decision, pack.(dependedOn := raws));
    forall m ensures Stands(p, pack.dependedOn, m) ==> Stands(p, raws, m) {
    }
  }
}
