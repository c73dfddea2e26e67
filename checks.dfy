/** The per-node health checks of the monitor (src/checker.js).

    A check never throws: every outcome, including a failed RPC call, is a
    `CheckResult`.  RPC answers are parameters: `None` stands for a call that
    threw, timed out or answered `null`; times are integer milliseconds. */
module Checks {
  import opened Wrappers

  /** The answer of `getInfo`. */
  datatype ChainInfo = ChainInfo(
    headBlockNum: int,
    headBlockTime: int,
    lastIrreversibleBlockNum: int,
    lastIrreversibleBlockId: string)

  /** The answer of `getPlatformState`. */
  datatype PlatformState = PlatformState(
    totalUserCount: int,
    roundUpdatedAccountCount: int,
    stepNumber: int,
    updating: bool)

  /** One row of the paginated user table; its contents are never inspected. */
  datatype Row = Row(account: string)

  /** The canonical irreversible block of a tick. */
  datatype Block = Block(num: int, id: string)

  /** Which message a failed check carries (the message text is not modelled). */
  datatype Reason =
    | StaleHead
    | IrreversibleTooFarBehind
    | ShortPage(actual: nat, expected: nat, position: int)
    | InvalidIrreversibleId
    | IrreversibleBehind
    | IrreversibleAhead
    | CheckException

  /** The parameter bag of a result: a failure marker or a success payload. */
  datatype Params =
    | NoParams
    | Invalid
    | Less
    | Greater
    | Rejected
    | InfoPayload(info: ChainInfo)
    | PagePayload(state: PlatformState, users: seq<Row>)

  datatype CheckResult = CheckResult(success: bool, reason: Option<Reason>, params: Params) {
    predicate IsSuccessful() { success }
    predicate IsFailed() { !success }
  }

  /** The configuration fixed when the checker is constructed. */
  datatype CheckerConfig = CheckerConfig(
    maxHeadBlockLagTime: int,
    maxIrreversibleBlockLagNumber: int,
    tableLimit: nat,
    testPlatform: string)

  /** The defaults the monitor uses when the environment sets nothing. */
  const DefaultConfig := CheckerConfig(2000, 500, 100, "p.twitter")

  /** The multiplier of the step modifier in the sampling position. */
  const StepStride: int := 0xFFFF_FFFF

  /** A result is either a success without a reason or a failure with one. */
  predicate WellFormed(r: CheckResult) {
    r.success <==> r.reason.None?
  }

  function Succeed(p: Params): (r: CheckResult)
    ensures WellFormed(r) && r.IsSuccessful() && r.params == p
  {
    CheckResult(true, None, p)
  }

  function Fail(why: Reason, p: Params): (r: CheckResult)
    ensures WellFormed(r) && r.IsFailed() && r.reason == Some(why) && r.params == p
  {
    CheckResult(false, Some(why), p)
  }

  /** Compares a node's last irreversible block with the canonical one. */
  function CheckIrreversible(info: ChainInfo, canonical: Block): (r: CheckResult)
    ensures WellFormed(r)
    ensures r.IsSuccessful() <==>
      info.lastIrreversibleBlockNum == canonical.num && info.lastIrreversibleBlockId == canonical.id
    ensures r.IsSuccessful() ==> r.params == NoParams
    ensures r.IsFailed() ==> r.params in {Invalid, Less, Greater}
    ensures r.params == Invalid <==>
      info.lastIrreversibleBlockNum == canonical.num && info.lastIrreversibleBlockId != canonical.id
    ensures r.params == Less <==> info.lastIrreversibleBlockNum < canonical.num
    ensures r.params == Greater <==> info.lastIrreversibleBlockNum > canonical.num
  {
    if info.lastIrreversibleBlockNum == canonical.num then
      if info.lastIrreversibleBlockId == canonical.id then Succeed(NoParams)
      else Fail(InvalidIrreversibleId, Invalid)
    else if info.lastIrreversibleBlockNum < canonical.num then
      Fail(IrreversibleBehind, Less)
    else
      Fail(IrreversibleAhead, Greater)
  }

  /** The freshness check: head-time lag first, then the irreversible gap.
      `startTime` is the clock read before the call; `fetched` is its answer. */
  function CheckInfo(cfg: CheckerConfig, startTime: int, fetched: Option<ChainInfo>): (r: CheckResult)
    ensures WellFormed(r)
    ensures fetched.None? ==> r == Fail(CheckException, NoParams)
    ensures fetched.Some? && startTime - fetched.value.headBlockTime > cfg.maxHeadBlockLagTime ==>
      r.reason == Some(StaleHead)
    ensures (&& fetched.Some?
             && startTime - fetched.value.headBlockTime <= cfg.maxHeadBlockLagTime
             && fetched.value.headBlockNum - fetched.value.lastIrreversibleBlockNum > cfg.maxIrreversibleBlockLagNumber)
      ==> r.reason == Some(IrreversibleTooFarBehind)
    ensures r.IsSuccessful() <==>
      && fetched.Some?
      && startTime - fetched.value.headBlockTime <= cfg.maxHeadBlockLagTime
      && fetched.value.headBlockNum - fetched.value.lastIrreversibleBlockNum <= cfg.maxIrreversibleBlockLagNumber
    ensures r.IsSuccessful() ==> r.params == InfoPayload(fetched.value)
    ensures r.IsFailed() ==> r.params == NoParams
  {
    match fetched
    case None => Fail(CheckException, NoParams)
    case Some(info) =>
      if startTime - info.headBlockTime > cfg.maxHeadBlockLagTime then Fail(StaleHead, NoParams)
      else if info.headBlockNum - info.lastIrreversibleBlockNum > cfg.maxIrreversibleBlockLagNumber then
        Fail(IrreversibleTooFarBehind, NoParams)
      else Succeed(InfoPayload(info))
  }

  /** The width of the range the random offset is drawn from: the updated
      part of the table during a round that has updated more than one page,
      otherwise the part not yet updated, less one page in both cases. */
  function DrawSpan(state: PlatformState, limit: nat): (span: int)
    ensures state.updating && state.roundUpdatedAccountCount > limit ==>
      span == state.roundUpdatedAccountCount - limit
    ensures !(state.updating && state.roundUpdatedAccountCount > limit) ==>
      span == state.totalUserCount - state.roundUpdatedAccountCount - limit
  {
    if state.updating && state.roundUpdatedAccountCount > limit then
      state.roundUpdatedAccountCount - limit
    else
      state.totalUserCount - state.roundUpdatedAccountCount - limit
  }

  /** The values `(Math.random() * span) | 0` can take for a draw in [0, 1):
      truncation toward zero keeps them strictly inside the span, or at 0. */
  predicate DrawnFrom(offset: int, span: int) {
    if span > 0 then 0 <= offset < span else span < offset <= 0 || offset == 0
  }

  /** The offset clamped at zero and rounded down to a whole page. */
  function AlignedOffset(offset: int, limit: nat): (a: nat)
    ensures limit == 0 ==> a == 0
    ensures limit > 0 ==> IsWholePages(a, limit) && a <= Clamp(offset) < a + limit
  {
    if limit == 0 then 0 else PageAlignment(Clamp(offset), limit); Clamp(offset) / limit * limit
  }

  lemma PageAlignment(x: nat, limit: nat)
    requires limit > 0
    ensures var a := x / limit * limit; IsWholePages(a, limit) && 0 <= a <= x < a + limit
  {
    var q, m := x / limit, x % limit;
    assert x == q * limit + m && 0 <= m < limit;
    assert q >= 0;
  }

  /** `a` is a whole number of pages of `limit` rows. */
  ghost predicate IsWholePages(a: int, limit: nat) {
    exists k: nat :: a == k * limit
  }

  function Clamp(offset: int): nat {
    if offset > 0 then offset else 0
  }

  /** How many strides of 0xFFFFFFFF the position is shifted by. */
  function StepMultiplier(state: PlatformState, limit: nat): (m: int)
    ensures state.updating && state.roundUpdatedAccountCount > limit ==> m == state.stepNumber
    ensures state.updating && state.roundUpdatedAccountCount <= limit ==> m == state.stepNumber - 1
    ensures !state.updating ==> m == state.stepNumber - 2
  {
    var stepModifier :=
      if state.updating && state.roundUpdatedAccountCount > limit then state.stepNumber
      else state.stepNumber - 1;
    if state.updating then stepModifier else stepModifier - 1
  }

  /** The table position the consistency check samples from. */
  function SamplingPosition(state: PlatformState, limit: nat, offset: int): (p: int)
    ensures p - 1 - StepStride * StepMultiplier(state, limit) == AlignedOffset(offset, limit)
  {
    AlignedOffset(offset, limit) + StepStride * StepMultiplier(state, limit) + 1
  }

  /** The consistency sampling check.  `offset` is the truncated random draw
      and `page` answers `getUsers` for a requested position. */
  function CheckUsers(
    cfg: CheckerConfig,
    fetched: Option<PlatformState>,
    offset: int,
    page: int -> Option<seq<Row>>): (r: CheckResult)
    ensures WellFormed(r)
    ensures fetched.None? ==> r == Fail(CheckException, Rejected)
    ensures r.IsSuccessful() <==>
      && fetched.Some?
      && page(SamplingPosition(fetched.value, cfg.tableLimit, offset)).Some?
      && |page(SamplingPosition(fetched.value, cfg.tableLimit, offset)).value| == cfg.tableLimit
    ensures r.IsSuccessful() ==>
      r.params == PagePayload(fetched.value, page(SamplingPosition(fetched.value, cfg.tableLimit, offset)).value)
    ensures fetched.Some? && page(SamplingPosition(fetched.value, cfg.tableLimit, offset)).None? ==>
      r == Fail(CheckException, Rejected)
    ensures
      && fetched.Some?
      && page(SamplingPosition(fetched.value, cfg.tableLimit, offset)).Some?
      && |page(SamplingPosition(fetched.value, cfg.tableLimit, offset)).value| != cfg.tableLimit
      ==>
      r == Fail(ShortPage(
        |page(SamplingPosition(fetched.value, cfg.tableLimit, offset)).value|,
        cfg.tableLimit,
        SamplingPosition(fetched.value, cfg.tableLimit, offset)), NoParams)
  {
    match fetched
    case None => Fail(CheckException, Rejected)
    case Some(state) =>
      var position := SamplingPosition(state, cfg.tableLimit, offset);
      match page(position)
      case None => Fail(CheckException, Rejected)
      case Some(users) =>
        if |users| == cfg.tableLimit then Succeed(PagePayload(state, users))
        else Fail(ShortPage(|users|, cfg.tableLimit, position), NoParams)
  }

  /** An offset drawn from a span that is not positive contributes nothing:
      the sample then starts at the stride-shifted position plus one. */
  lemma NonPositiveSpanSamplesFirstPage(state: PlatformState, limit: nat, offset: int)
    requires DrawnFrom(offset, DrawSpan(state, limit)) && DrawSpan(state, limit) <= 0
    ensures SamplingPosition(state, limit, offset) == StepStride * StepMultiplier(state, limit) + 1
  {
  }

  /** A drawn offset never moves the sample past the drawn span. */
  lemma AlignedOffsetWithinSpan(state: PlatformState, limit: nat, offset: int)
    requires DrawnFrom(offset, DrawSpan(state, limit)) && DrawSpan(state, limit) > 0
    ensures AlignedOffset(offset, limit) < DrawSpan(state, limit)
  {
  }

  /** Worked case: a head 3000 ms old against a 2000 ms bound is stale. */
  lemma StaleHeadExample(info: ChainInfo)
    requires info.headBlockTime == 1_000_000
    ensures CheckInfo(DefaultConfig, 1_003_000, Some(info)).reason == Some(StaleHead)
  {
  }

  /** Worked case: a page of 57 rows against a page size of 100 is short. */
  lemma ShortPageExample(state: PlatformState, offset: int)
    ensures var rows := seq(57, _ => Row(""));
      var r := CheckUsers(DefaultConfig, Some(state), offset, _ => Some(rows));
      r.IsFailed() && r.reason.value.ShortPage? && r.reason.value.actual == 57 && r.reason.value.expected == 100
  {
  }
}
