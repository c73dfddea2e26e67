/** One tick of the monitor's control loop (`validationStep` in
    src/index.js): partition the fleet by this tick's check results, count
    failures, agree on the canonical irreversible block, classify the
    surviving nodes against it and decide which weights to write.

    The RPC fan-out is replaced by its results (`users[i]`, `infos[i]` for
    `nodes[i]`), and the configuration store by the map `store` from key to
    weight. */
module Monitor {
  import opened Wrappers
  import opened Checks
  import opened Quorum
  import opened Store

  /** A node is identified by its server key. */
  type NodeId = string

  /** The per-node failure counters. */
  datatype FailRecord = FailRecord(
    irreversibleBlockLess: nat,
    irreversibleBlockGreater: nat,
    invalidTableSize: nat,
    invalidInfo: nat)

  /** `createEmptyFailRecord()`; `createEmptySuccessRecord()` is the count 0. */
  const EmptyFailRecord := FailRecord(0, 0, 0, 0)

  /** The two lag counters the irreversibility phase files. */
  datatype LagRecord = LagRecord(less: nat, greater: nat)

  const EmptyLagRecord := LagRecord(0, 0)

  /** One evaluation of the irreversibility predicate: whether it keeps the
      node, and the record it files (under the per-tick wrapper), if any. */
  datatype LagVerdict = LagVerdict(keep: bool, filed: Option<LagRecord>)

  /** What the weight phase does for a node that is valid this tick. */
  datatype ValidAction =
    | AlreadyFull             // weight already full: nothing
    | Promote                 // no table-size failures on record: write full
    | Recovering(count: nat)  // count the clean tick, write nothing
    | Recovered               // recovery complete: reset both records, write full

  // ---------------------------------------------------------------------
  // Configuration read inside the step

  /** `+(process.env.MAX_IRREVERSIBLE_LAG_STEPS || 3)`: 3 when unset, the
      configured number otherwise (0 included). */
  function LagThreshold(configured: Option<int>): (t: int)
    ensures configured.None? ==> t == 3
    ensures configured.Some? ==> t == configured.value
  {
    configured.GetOr(3)
  }

  /** `(+process.env.MIN_SUCCESS_TABLE_STEP_COUNT || 3)`: 3 when unset or
      configured as 0, so the threshold is never 0. */
  function RecoveryThreshold(configured: Option<int>): (t: int)
    ensures t != 0
    ensures configured.None? || configured == Some(0) ==> t == 3
    ensures configured.Some? && configured.value != 0 ==> t == configured.value
  {
    if configured.None? || configured.value == 0 then 3 else configured.value
  }

  // ---------------------------------------------------------------------
  // First phase: freshness and consistency

  /** A node passes the first phase when both checks succeed. */
  predicate PassesChecks(user: CheckResult, info: CheckResult) {
    user.IsSuccessful() && info.IsSuccessful()
  }

  /** `invalidTableSize += userCheckResult.isFailed` and the same for
      `invalidInfo`: a boolean adds 1 when true. */
  function CountFailedChecks(r: FailRecord, user: CheckResult, info: CheckResult): FailRecord {
    r.(invalidTableSize := r.invalidTableSize + (if user.IsFailed() then 1 else 0),
       invalidInfo := r.invalidInfo + (if info.IsFailed() then 1 else 0))
  }

  /** The failure counters after the first phase. */
  function ChecksFail(r: FailRecord, user: CheckResult, info: CheckResult): (r': FailRecord)
    ensures PassesChecks(user, info) ==> r' == r
    ensures r'.invalidTableSize == r.invalidTableSize + (if user.IsFailed() then 1 else 0)
    ensures r'.invalidInfo == r.invalidInfo + (if info.IsFailed() then 1 else 0)
    ensures r'.irreversibleBlockLess == r.irreversibleBlockLess
    ensures r'.irreversibleBlockGreater == r.irreversibleBlockGreater
  {
    if PassesChecks(user, info) then r else CountFailedChecks(r, user, info)
  }

  /** The success counter after the first phase: reset on any failure. */
  function ChecksSuccess(s: nat, user: CheckResult, info: CheckResult): nat {
    if PassesChecks(user, info) then s else 0
  }

  /** A first-phase result of `CheckInfo`: a success carries the snapshot. */
  predicate InfoShaped(infos: seq<CheckResult>) {
    forall i | 0 <= i < |infos| :: infos[i].IsSuccessful() ==> infos[i].params.InfoPayload?
  }

  /** The indices below `n` that pass (`passing`) or fail (`!passing`) the
      first phase, in order: ramda's `partition` of the results. */
  function Indices(users: seq<CheckResult>, infos: seq<CheckResult>, n: nat, passing: bool): (idx: seq<nat>)
    requires n <= |users| && n <= |infos|
    ensures forall i: nat :: i in idx <==> i < n && PassesChecks(users[i], infos[i]) == passing
    ensures forall k | 0 <= k < |idx| :: idx[k] < n && PassesChecks(users[idx[k]], infos[idx[k]]) == passing
    ensures Increasing(idx)
  {
    if n == 0 then []
    else
      var init := Indices(users, infos, n - 1, passing);
      if PassesChecks(users[n - 1], infos[n - 1]) == passing then init + [n - 1] else init
  }

  /** No node is listed twice. */
  predicate Distinct(nodes: seq<NodeId>) {
    forall i, j | 0 <= i < j < |nodes| :: nodes[i] != nodes[j]
  }

  /** `m` after applying `update` at the node of every index of `idx`, in order. */
  function UpdateAt<V>(m: map<NodeId, V>, nodes: seq<NodeId>, idx: seq<nat>, update: (nat, V) -> V): (m': map<NodeId, V>)
    ensures m'.Keys == m.Keys
  {
    if idx == [] then m
    else
      var m0 := UpdateAt(m, nodes, idx[..|idx| - 1], update);
      var i := idx[|idx| - 1];
      if i < |nodes| && nodes[i] in m0 then m0[nodes[i] := update(i, m0[nodes[i]])] else m0
  }

  /** Over distinct nodes and an increasing index list, each listed node is
      updated exactly once and every other node keeps its value. */
  lemma {:induction false} UpdateAtPointwise<V>(m: map<NodeId, V>, nodes: seq<NodeId>, idx: seq<nat>, update: (nat, V) -> V)
    requires Distinct(nodes) && Increasing(idx)
    requires forall k | 0 <= k < |idx| :: idx[k] < |nodes| && nodes[idx[k]] in m
    ensures forall i | 0 <= i < |nodes| && nodes[i] in m ::
      UpdateAt(m, nodes, idx, update)[nodes[i]] == if i in idx then update(i, m[nodes[i]]) else m[nodes[i]]
  {
    if idx != [] {
      var init := idx[..|idx| - 1];
      var last := idx[|idx| - 1];
      UpdateAtPointwise(m, nodes, init, update);
      forall i | 0 <= i < |nodes| && nodes[i] in m
        ensures UpdateAt(m, nodes, idx, update)[nodes[i]] == if i in idx then update(i, m[nodes[i]]) else m[nodes[i]]
      {
        assert idx == init + [last];
        if i == last {
          assert i !in init by {
            forall a | 0 <= a < |init| ensures init[a] != last { assert idx[a] < idx[|idx| - 1]; }
          }
        } else {
          assert nodes[i] != nodes[last];
        }
      }
    }
  }

  /** The update the first phase applies to the failure record of node `i`. */
  function CountAt(users: seq<CheckResult>, infos: seq<CheckResult>): (nat, FailRecord) -> FailRecord {
    (i: nat, r: FailRecord) => if i < |users| && i < |infos| then CountFailedChecks(r, users[i], infos[i]) else r
  }

  /** The update the first phase applies to the success record of a failing node. */
  function ResetSuccess(i: nat, s: nat): nat { 0 }

  /** Applying the first phase's updates at the failing nodes gives, node by
      node, the records `ChecksFail` and `ChecksSuccess` describe. */
  lemma RecordedPerNode(nodes: seq<NodeId>, users: seq<CheckResult>, infos: seq<CheckResult>,
                        fail: map<NodeId, FailRecord>, success: map<NodeId, nat>)
    requires Distinct(nodes) && |users| == |nodes| && |infos| == |nodes|
    requires forall i | 0 <= i < |nodes| :: nodes[i] in fail && nodes[i] in success
    ensures forall i | 0 <= i < |nodes| ::
      UpdateAt(fail, nodes, Indices(users, infos, |users|, false), CountAt(users, infos))[nodes[i]]
        == ChecksFail(fail[nodes[i]], users[i], infos[i])
    ensures forall i | 0 <= i < |nodes| ::
      UpdateAt(success, nodes, Indices(users, infos, |users|, false), ResetSuccess)[nodes[i]]
        == ChecksSuccess(success[nodes[i]], users[i], infos[i])
  {
    var invalid := Indices(users, infos, |users|, false);
    UpdateAtPointwise(fail, nodes, invalid, CountAt(users, infos));
    UpdateAtPointwise(success, nodes, invalid, ResetSuccess);
  }

  /** Strictly increasing, hence without repetitions. */
  predicate Increasing(idx: seq<nat>) {
    forall a, b | 0 <= a < b < |idx| :: idx[a] < idx[b]
  }

  /** The reports of the nodes at `valid`, in order. */
  function Reports(infos: seq<CheckResult>, valid: seq<nat>): (reports: seq<Report>)
    requires InfoShaped(infos)
    requires forall k | 0 <= k < |valid| :: valid[k] < |infos| && infos[valid[k]].IsSuccessful()
    ensures |reports| == |valid|
    ensures forall k | 0 <= k < |valid| ::
      reports[k] == Report(infos[valid[k]].params.info.lastIrreversibleBlockNum,
                           infos[valid[k]].params.info.lastIrreversibleBlockId)
  {
    seq(|valid|, k requires 0 <= k < |valid| =>
      Report(infos[valid[k]].params.info.lastIrreversibleBlockNum,
             infos[valid[k]].params.info.lastIrreversibleBlockId))
  }

  /** Every node that passed both checks carries its chain snapshot. */
  lemma PassingAreShaped(users: seq<CheckResult>, infos: seq<CheckResult>)
    requires |users| == |infos| && InfoShaped(infos)
    ensures var valid := Indices(users, infos, |users|, true);
      forall k | 0 <= k < |valid| :: valid[k] < |infos| && infos[valid[k]].params.InfoPayload?
  {
  }

  /** The canonical block of the tick, from the nodes that passed both checks. */
  function TickCanonical(users: seq<CheckResult>, infos: seq<CheckResult>): (c: Option<Block>)
    requires |users| == |infos| && InfoShaped(infos)
  {
    Canonical(Reports(infos, Indices(users, infos, |users|, true)))
  }

  /** There is no canonical block exactly when no node passed both checks. */
  lemma NoCanonicalIffNobodyPassed(users: seq<CheckResult>, infos: seq<CheckResult>)
    requires |users| == |infos| && InfoShaped(infos)
    ensures TickCanonical(users, infos).None? <==>
      forall i | 0 <= i < |users| :: !PassesChecks(users[i], infos[i])
  {
    var valid := Indices(users, infos, |users|, true);
    var reports := Reports(infos, valid);
    assert |reports| == |valid|;
    if exists i | 0 <= i < |users| :: PassesChecks(users[i], infos[i]) {
      var i :| 0 <= i < |users| && PassesChecks(users[i], infos[i]);
      assert i in valid;
      assert reports != [];
    }
  }

  // ---------------------------------------------------------------------
  // Irreversibility phase

  /** The predicate of the second `partition`.  An `invalid` id fails
      outright; a lag failure adds its flag to `previous` and fails once a
      counter exceeds `maxLagSteps`, else files the sum and keeps the node;
      a success files an empty record and keeps the node. */
  function LagPredicate(check: CheckResult, previous: LagRecord, maxLagSteps: int): (v: LagVerdict)
    ensures check.IsSuccessful() ==> v == LagVerdict(true, Some(EmptyLagRecord))
    ensures check.IsFailed() && check.params == Invalid ==> v == LagVerdict(false, None)
    ensures check.IsFailed() && check.params == Less ==>
      v.keep == (previous.less + 1 <= maxLagSteps && previous.greater <= maxLagSteps)
    ensures check.IsFailed() && check.params == Greater ==>
      v.keep == (previous.greater + 1 <= maxLagSteps && previous.less <= maxLagSteps)
    ensures v.keep <==> v.filed.Some?
    ensures check.IsFailed() && check.params != Invalid && v.keep ==>
      v.filed == Some(LagRecord(
        previous.less + (if check.params == Less then 1 else 0),
        previous.greater + (if check.params == Greater then 1 else 0)))
  {
    if check.IsFailed() then
      if check.params == Invalid then LagVerdict(false, None)
      else
        var current := LagRecord(
          previous.less + (if check.params == Less then 1 else 0),
          previous.greater + (if check.params == Greater then 1 else 0));
        if current.greater > maxLagSteps || current.less > maxLagSteps then LagVerdict(false, None)
        else LagVerdict(true, Some(current))
    else LagVerdict(true, Some(EmptyLagRecord))
  }

  /** `filter`'s evaluation: nothing is filed under a fresh wrapper yet. */
  function FirstPass(check: CheckResult, maxLagSteps: int): LagVerdict {
    LagPredicate(check, EmptyLagRecord, maxLagSteps)
  }

  /** `reject`'s evaluation: it finds what `filter` filed under the wrapper. */
  function SecondPass(check: CheckResult, maxLagSteps: int): LagVerdict {
    LagPredicate(check, FirstPass(check, maxLagSteps).filed.GetOr(EmptyLagRecord), maxLagSteps)
  }

  /** An id disagreement drops the node in both evaluations. */
  lemma InvalidIdIsDropped(check: CheckResult, maxLagSteps: int)
    requires check.IsFailed() && check.params == Invalid
    ensures !FirstPass(check, maxLagSteps).keep && !SecondPass(check, maxLagSteps).keep
  {
  }

  /** A lag failure keeps the node in the valid list exactly when the
      threshold is at least 1, whatever the node's history: the counters the
      predicate reads start from the empty record on every tick. */
  lemma LagKeptIffThresholdPositive(check: CheckResult, maxLagSteps: int)
    requires check.IsFailed() && check.params in {Less, Greater}
    ensures FirstPass(check, maxLagSteps).keep <==> maxLagSteps >= 1
  {
  }

  /** The two evaluations disagree only for a lag failure with threshold 1:
      then the node lands in both the valid and the invalid list. */
  lemma PassesDisagreeIffThresholdOne(check: CheckResult, maxLagSteps: int)
    ensures FirstPass(check, maxLagSteps).keep != SecondPass(check, maxLagSteps).keep <==>
      check.IsFailed() && check.params in {Less, Greater} && maxLagSteps == 1
  {
  }

  /** The irreversibility check of the node at index `i`. */
  function CheckAt(infos: seq<CheckResult>, i: nat, canonical: Block): CheckResult
    requires i < |infos| && infos[i].params.InfoPayload?
  {
    CheckIrreversible(infos[i].params.info, canonical)
  }

  /** Whether the `filter` keeps (`kept`) or the `reject` collects
      (`!kept`) the node at index `i`. */
  predicate Selected(infos: seq<CheckResult>, i: nat, canonical: Block, maxLagSteps: int, kept: bool)
    requires i < |infos| && infos[i].params.InfoPayload?
  {
    if kept then FirstPass(CheckAt(infos, i, canonical), maxLagSteps).keep
    else !SecondPass(CheckAt(infos, i, canonical), maxLagSteps).keep
  }

  /** The first-phase-valid nodes the `filter` keeps (`kept`) or the
      `reject` collects (`!kept`), in order. */
  function Classified(infos: seq<CheckResult>, valid: seq<nat>, canonical: Block, maxLagSteps: int, kept: bool)
    : (idx: seq<nat>)
    requires forall k | 0 <= k < |valid| :: valid[k] < |infos| && infos[valid[k]].params.InfoPayload?
    ensures forall i: nat :: i in idx <==> i in valid && Selected(infos, i, canonical, maxLagSteps, kept)
    ensures forall k | 0 <= k < |idx| :: idx[k] in valid
  {
    if valid == [] then []
    else
      var init, last := valid[..|valid| - 1], valid[|valid| - 1];
      assert valid == init + [last];
      var rest := Classified(infos, init, canonical, maxLagSteps, kept);
      if Selected(infos, last, canonical, maxLagSteps, kept) then rest + [last] else rest
  }

  /** The classification keeps the order of the valid list. */
  lemma {:induction false} ClassifiedIncreasing(
    infos: seq<CheckResult>, valid: seq<nat>, canonical: Block, maxLagSteps: int, kept: bool)
    requires forall k | 0 <= k < |valid| :: valid[k] < |infos| && infos[valid[k]].params.InfoPayload?
    requires Increasing(valid)
    ensures Increasing(Classified(infos, valid, canonical, maxLagSteps, kept))
  {
    if valid != [] {
      var init, last := valid[..|valid| - 1], valid[|valid| - 1];
      ClassifiedIncreasing(infos, init, canonical, maxLagSteps, kept);
      var rest := Classified(infos, init, canonical, maxLagSteps, kept);
      forall k | 0 <= k < |rest| ensures rest[k] < last {
        var a :| 0 <= a < |init| && init[a] == rest[k];
        assert valid[a] == rest[k];
      }
    }
  }

  /** The selection grows by the next valid node when the pass selects it. */
  lemma ClassifiedStep(
    infos: seq<CheckResult>, valid: seq<nat>, canonical: Block, maxLagSteps: int, kept: bool, k: nat)
    requires forall k | 0 <= k < |valid| :: valid[k] < |infos| && infos[valid[k]].params.InfoPayload?
    requires k < |valid|
    ensures Classified(infos, valid[..k + 1], canonical, maxLagSteps, kept)
      == Classified(infos, valid[..k], canonical, maxLagSteps, kept)
        + if Selected(infos, valid[k], canonical, maxLagSteps, kept) then [valid[k]] else []
  {
    assert valid[..k + 1][..k] == valid[..k];
  }

  /** `failResults.get(wrapper) || createEmptyFailRecord()`. */
  function FiledOr(filed: map<nat, LagRecord>, k: nat): LagRecord {
    if k in filed then filed[k] else EmptyLagRecord
  }

  // ---------------------------------------------------------------------
  // Weight phase

  /** The weight decision for a node that is valid this tick, given the
      weight read from the store and its records. */
  function ValidNodeAction(weight: int, r: FailRecord, s: nat, weights: Weights, minSuccess: int): (a: ValidAction)
    ensures a == AlreadyFull <==> weight == weights.full
    ensures weight != weights.full && r.invalidTableSize == 0 ==> a == Promote
    ensures weight != weights.full && r.invalidTableSize > 0 ==>
      a == if s + 1 <= minSuccess then Recovering(s + 1) else Recovered
  {
    if weight == weights.full then AlreadyFull
    else if r.invalidTableSize > 0 then
      if s + 1 <= minSuccess then Recovering(s + 1) else Recovered
    else Promote
  }

  predicate WritesFull(a: ValidAction) {
    a.Promote? || a.Recovered?
  }

  function SuccessAfter(a: ValidAction, s: nat): nat {
    match a
    case Recovering(k) => k
    case Recovered => 0
    case _ => s
  }

  /** How many consecutive valid ticks, at a weight other than full, a node
      with table-size failures on record needs to be promoted. */
  function TicksToRecover(weight: int, r: FailRecord, s: nat, weights: Weights, minSuccess: int): nat
    requires weight != weights.full && r.invalidTableSize > 0
    decreases if minSuccess > s then minSuccess - s else 0
  {
    match ValidNodeAction(weight, r, s, weights, minSuccess)
    case Recovering(k) => 1 + TicksToRecover(weight, r, k, weights, minSuccess)
    case _ => 1
  }

  /** Recovery hysteresis: from a success count `s`, promotion comes on the
      tick the count first exceeds the threshold, not before. */
  lemma {:induction false} RecoveryTakesThresholdTicks(
    weight: int, r: FailRecord, s: nat, weights: Weights, minSuccess: int)
    requires weight != weights.full && r.invalidTableSize > 0
    ensures TicksToRecover(weight, r, s, weights, minSuccess) ==
      if s >= minSuccess then 1 else minSuccess - s + 1
    decreases if minSuccess > s then minSuccess - s else 0
  {
    if s + 1 <= minSuccess {
      RecoveryTakesThresholdTicks(weight, r, s + 1, weights, minSuccess);
    }
  }

  /** What the monitor was configured with at start-up. */
  datatype Settings = Settings(
    nodes: seq<NodeId>,
    prefix: string,
    weights: Weights,
    maxLagSteps: int,
    minSuccessSteps: int)

  /** The mutable state of the monitor: the store and both record maps. */
  datatype State = State(
    store: map<string, int>,
    fail: map<NodeId, FailRecord>,
    success: map<NodeId, nat>)

  /** The state after a tick, and the weight writes issued during it. */
  datatype Outcome = Outcome(state: State, writes: seq<Write>)

  /** The weight decision for the valid node `n`, read off the state `st`
      the weight phase starts from. */
  function ActionFor(c: Settings, st: State, n: NodeId): ValidAction {
    ValidNodeAction(
      ReadWeight(st.store, c.prefix, n),
      if n in st.fail then st.fail[n] else EmptyFailRecord,
      if n in st.success then st.success[n] else 0,
      c.weights, c.minSuccessSteps)
  }

  /** The full-weight writes for the kept nodes, in list order. */
  function FullWrites(c: Settings, st: State, kept: seq<nat>): seq<Write> {
    if kept == [] then []
    else
      var i := kept[|kept| - 1];
      FullWrites(c, st, kept[..|kept| - 1]) +
        if i < |c.nodes| && WritesFull(ActionFor(c, st, c.nodes[i])) then [SetFull(c.nodes[i])] else []
  }

  /** The zero-weight writes for the dropped nodes, in list order, given the
      store the weights are read from. */
  function ZeroWrites(c: Settings, before: map<string, int>, dropped: seq<nat>): seq<Write> {
    if dropped == [] then []
    else
      var i := dropped[|dropped| - 1];
      ZeroWrites(c, before, dropped[..|dropped| - 1]) +
        if i < |c.nodes| && ReadWeight(before, c.prefix, c.nodes[i]) != c.weights.zero then [SetZero(c.nodes[i])] else []
  }

  /** Each full-weight write names a node of the fleet not at full weight. */
  lemma {:induction false} FullWritesChange(c: Settings, st: State, kept: seq<nat>)
    ensures forall w | w in FullWrites(c, st, kept) ::
      w.SetFull? && w.server in c.nodes && ReadWeight(st.store, c.prefix, w.server) != c.weights.full
  {
    if kept != [] {
      var init := kept[..|kept| - 1];
      FullWritesChange(c, st, init);
      var ws := FullWrites(c, st, kept);
      assert forall w | w in ws :: w in FullWrites(c, st, init) || w == ws[|ws| - 1];
    }
  }

  /** Each zero-weight write names a node of the fleet not at zero weight. */
  lemma {:induction false} ZeroWritesChange(c: Settings, before: map<string, int>, dropped: seq<nat>)
    ensures forall w | w in ZeroWrites(c, before, dropped) ::
      w.SetZero? && w.server in c.nodes && ReadWeight(before, c.prefix, w.server) != c.weights.zero
  {
    if dropped != [] {
      var init := dropped[..|dropped| - 1];
      ZeroWritesChange(c, before, init);
      var ws := ZeroWrites(c, before, dropped);
      assert forall w | w in ws :: w in ZeroWrites(c, before, init) || w == ws[|ws| - 1];
    }
  }

  /** A kept node's last full-weight write: there is one exactly when the
      node is kept and its decision writes full. */
  lemma {:induction false} FullWritesLast(c: Settings, st: State, kept: seq<nat>, i: nat)
    requires Distinct(c.nodes) && i < |c.nodes|
    ensures LastWrite(FullWrites(c, st, kept), c.nodes[i]) ==
      if i in kept && WritesFull(ActionFor(c, st, c.nodes[i])) then Some(SetFull(c.nodes[i])) else None
  {
    if kept != [] {
      var init, j := kept[..|kept| - 1], kept[|kept| - 1];
      assert kept == init + [j];
      FullWritesLast(c, st, init, i);
      var tail := if j < |c.nodes| && WritesFull(ActionFor(c, st, c.nodes[j])) then [SetFull(c.nodes[j])] else [];
      LastWriteAppend(FullWrites(c, st, init), tail, c.nodes[i]);
      if j < |c.nodes| && j != i {
        assert c.nodes[j] != c.nodes[i];
      }
    }
  }

  /** A dropped node's last zero-weight write: there is one exactly when
      the node is dropped and its weight is not zero already. */
  lemma {:induction false} ZeroWritesLast(c: Settings, before: map<string, int>, dropped: seq<nat>, i: nat)
    requires Distinct(c.nodes) && i < |c.nodes|
    ensures LastWrite(ZeroWrites(c, before, dropped), c.nodes[i]) ==
      if i in dropped && ReadWeight(before, c.prefix, c.nodes[i]) != c.weights.zero then Some(SetZero(c.nodes[i])) else None
  {
    if dropped != [] {
      var init, j := dropped[..|dropped| - 1], dropped[|dropped| - 1];
      assert dropped == init + [j];
      ZeroWritesLast(c, before, init, i);
      var tail := if j < |c.nodes| && ReadWeight(before, c.prefix, c.nodes[j]) != c.weights.zero then [SetZero(c.nodes[j])] else [];
      LastWriteAppend(ZeroWrites(c, before, init), tail, c.nodes[i]);
      if j < |c.nodes| && j != i {
        assert c.nodes[j] != c.nodes[i];
      }
    }
  }

  /** The failure-record update the weight phase applies to a kept node. */
  function ClearIfRecovered(c: Settings, st: State): (nat, FailRecord) -> FailRecord {
    (i: nat, r: FailRecord) => if i < |c.nodes| && ActionFor(c, st, c.nodes[i]).Recovered? then EmptyFailRecord else r
  }

  /** The success-record update the weight phase applies to a kept node. */
  function CountSuccess(c: Settings, st: State): (nat, nat) -> nat {
    (i: nat, s: nat) => if i < |c.nodes| then SuccessAfter(ActionFor(c, st, c.nodes[i]), s) else s
  }

  /** The weight phase: the kept nodes' decisions first, then the dropped
      nodes' zeroing, every weight read from the state the phase starts in. */
  function WeightPhase(c: Settings, st: State, kept: seq<nat>, dropped: seq<nat>): Outcome {
    var writes := FullWrites(c, st, kept) + ZeroWrites(c, st.store, dropped);
    Outcome(
      State(
        ApplyWrites(st.store, c.prefix, c.weights, writes),
        UpdateAt(st.fail, c.nodes, kept, ClearIfRecovered(c, st)),
        UpdateAt(st.success, c.nodes, kept, CountSuccess(c, st))),
      writes)
  }

  /** Every write of the weight phase changes the weight it writes: no
      server is set to the weight it already has. */
  lemma WeightPhaseWritesChange(c: Settings, st: State, kept: seq<nat>, dropped: seq<nat>)
    ensures forall w | w in WeightPhase(c, st, kept, dropped).writes ::
      w.server in c.nodes && ReadWeight(st.store, c.prefix, w.server) != Written(c.weights, w)
  {
    var full, zero := FullWrites(c, st, kept), ZeroWrites(c, st.store, dropped);
    FullWritesChange(c, st, kept);
    ZeroWritesChange(c, st.store, dropped);
    assert forall w | w in full + zero :: w in full || w in zero;
  }

  /** The weight a node reads after the weight phase: zero when it is
      dropped and was not zero yet, else full when it is kept and its
      decision writes full, else what it read before. */
  lemma WeightPhaseWeight(c: Settings, st: State, kept: seq<nat>, dropped: seq<nat>, i: nat)
    requires Distinct(c.nodes) && i < |c.nodes|
    ensures
      var before := ReadWeight(st.store, c.prefix, c.nodes[i]);
      ReadWeight(WeightPhase(c, st, kept, dropped).state.store, c.prefix, c.nodes[i]) ==
        if i in dropped && before != c.weights.zero then c.weights.zero
        else if i in kept && WritesFull(ActionFor(c, st, c.nodes[i])) then c.weights.full
        else before
  {
    FullWritesLast(c, st, kept, i);
    ZeroWritesLast(c, st.store, dropped, i);
    LastWriteAppend(FullWrites(c, st, kept), ZeroWrites(c, st.store, dropped), c.nodes[i]);
  }

  /** The records after the weight phase: a kept node's success count
      follows its decision and a recovered node's failure record is
      cleared; nodes not kept keep both records. */
  lemma WeightPhaseRecords(c: Settings, st: State, kept: seq<nat>, dropped: seq<nat>)
    requires Distinct(c.nodes) && Increasing(kept)
    requires forall k | 0 <= k < |kept| :: kept[k] < |c.nodes|
    requires forall i | 0 <= i < |c.nodes| :: c.nodes[i] in st.fail && c.nodes[i] in st.success
    ensures forall i | 0 <= i < |c.nodes| ::
      var n, out := c.nodes[i], WeightPhase(c, st, kept, dropped).state;
      && out.fail[n] == (if i in kept && ActionFor(c, st, n).Recovered? then EmptyFailRecord else st.fail[n])
      && out.success[n] == (if i in kept then SuccessAfter(ActionFor(c, st, n), st.success[n]) else st.success[n])
  {
    UpdateAtPointwise(st.fail, c.nodes, kept, ClearIfRecovered(c, st));
    UpdateAtPointwise(st.success, c.nodes, kept, CountSuccess(c, st));
  }

  /** Extending an index list by one entry updates that entry's node once more. */
  lemma UpdateAtStep<V>(m: map<NodeId, V>, nodes: seq<NodeId>, idx: seq<nat>, k: nat, update: (nat, V) -> V)
    requires k < |idx| && idx[k] < |nodes| && nodes[idx[k]] in m
    ensures var m0 := UpdateAt(m, nodes, idx[..k], update);
      UpdateAt(m, nodes, idx[..k + 1], update) == m0[nodes[idx[k]] := update(idx[k], m0[nodes[idx[k]]])]
  {
    assert idx[..k + 1][..k] == idx[..k];
  }

  /** When the kept nodes' loop reaches entry `k`, that node's records are
      still the ones the phase started with. */
  lemma KeptUntouched(c: Settings, st: State, kept: seq<nat>, k: nat)
    requires Distinct(c.nodes) && Increasing(kept) && k < |kept|
    requires forall j | 0 <= j < |kept| :: kept[j] < |c.nodes|
    requires forall i | 0 <= i < |c.nodes| :: c.nodes[i] in st.fail && c.nodes[i] in st.success
    ensures var n := c.nodes[kept[k]];
      && UpdateAt(st.fail, c.nodes, kept[..k], ClearIfRecovered(c, st))[n] == st.fail[n]
      && UpdateAt(st.success, c.nodes, kept[..k], CountSuccess(c, st))[n] == st.success[n]
  {
    var i := kept[k];
    assert i !in kept[..k] by {
      forall a | 0 <= a < k ensures kept[a] != i { assert kept[a] < kept[k]; }
    }
    UpdateAtPointwise(st.fail, c.nodes, kept[..k], ClearIfRecovered(c, st));
    UpdateAtPointwise(st.success, c.nodes, kept[..k], CountSuccess(c, st));
  }

  /** The full-weight writes grow by the decision for the next kept node. */
  lemma FullWritesStep(c: Settings, st: State, kept: seq<nat>, k: nat)
    requires k < |kept| && kept[k] < |c.nodes|
    ensures var n := c.nodes[kept[k]];
      FullWrites(c, st, kept[..k + 1])
        == FullWrites(c, st, kept[..k]) + if WritesFull(ActionFor(c, st, n)) then [SetFull(n)] else []
  {
    assert kept[..k + 1][..k] == kept[..k];
  }

  /** The zero-weight writes grow by the decision for the next dropped node. */
  lemma ZeroWritesStep(c: Settings, before: map<string, int>, dropped: seq<nat>, k: nat)
    requires k < |dropped| && dropped[k] < |c.nodes|
    ensures var n := c.nodes[dropped[k]];
      ZeroWrites(c, before, dropped[..k + 1])
        == ZeroWrites(c, before, dropped[..k]) + if ReadWeight(before, c.prefix, n) != c.weights.zero then [SetZero(n)] else []
  {
    assert dropped[..k + 1][..k] == dropped[..k];
  }

  // ---------------------------------------------------------------------
  // The whole tick

  /** One `validationStep` from state `st`, given every node's two check
      results: count the first-phase failures, then, when some node passed,
      classify the passing nodes against the canonical block and run the
      weight phase on the kept nodes and on the first- and second-phase
      rejects, in that order. */
  function Tick(c: Settings, st: State, users: seq<CheckResult>, infos: seq<CheckResult>): Outcome
    requires |users| == |c.nodes| && |infos| == |c.nodes| && InfoShaped(infos)
  {
    var checked := Checked(c, st, users, infos);
    match TickCanonical(users, infos)
    case None => Outcome(checked, [])
    case Some(canonical) => Settle(c, checked, users, infos, canonical)
  }

  /** The state after the first phase: the failing nodes' records counted
      and reset. */
  function Checked(c: Settings, st: State, users: seq<CheckResult>, infos: seq<CheckResult>): State
    requires |users| == |c.nodes| && |infos| == |c.nodes|
  {
    var invalid := Indices(users, infos, |users|, false);
    State(
      st.store,
      UpdateAt(st.fail, c.nodes, invalid, CountAt(users, infos)),
      UpdateAt(st.success, c.nodes, invalid, ResetSuccess))
  }

  /** The rest of the tick once a canonical block exists: classify the
      passing nodes against it and run the weight phase. */
  function Settle(c: Settings, checked: State, users: seq<CheckResult>, infos: seq<CheckResult>, canonical: Block): Outcome
    requires |users| == |infos| && InfoShaped(infos)
  {
    var valid := Indices(users, infos, |users|, true);
    PassingAreShaped(users, infos);
    WeightPhase(c, checked,
      Classified(infos, valid, canonical, c.maxLagSteps, true),
      Indices(users, infos, |users|, false) + Classified(infos, valid, canonical, c.maxLagSteps, false))
  }

  /** What every tick lemma assumes: distinct nodes, one result pair per
      node, snapshots on the successful info checks, and records for every
      node. */
  predicate Ready(c: Settings, st: State, users: seq<CheckResult>, infos: seq<CheckResult>) {
    && Distinct(c.nodes)
    && |users| == |c.nodes| && |infos| == |c.nodes| && InfoShaped(infos)
    && forall i | 0 <= i < |c.nodes| :: c.nodes[i] in st.fail && c.nodes[i] in st.success
  }

  /** The first phase, node by node: a failing node's records are counted
      and reset, a passing node's are untouched, and the store is not read
      or written. */
  lemma CheckedPerNode(c: Settings, st: State, users: seq<CheckResult>, infos: seq<CheckResult>)
    requires Ready(c, st, users, infos)
    ensures var checked := Checked(c, st, users, infos);
      && checked.store == st.store
      && (forall i | 0 <= i < |c.nodes| :: c.nodes[i] in checked.fail && c.nodes[i] in checked.success)
      && (forall i | 0 <= i < |c.nodes| ::
            && checked.fail[c.nodes[i]] == ChecksFail(st.fail[c.nodes[i]], users[i], infos[i])
            && checked.success[c.nodes[i]] == ChecksSuccess(st.success[c.nodes[i]], users[i], infos[i]))
  {
    RecordedPerNode(c.nodes, users, infos, st.fail, st.success);
  }

  /** Where the second phase files a node: it is kept when it passed both
      checks and `filter` keeps it, and it is rejected when it failed a
      check or `reject` collects it. */
  lemma SettleLists(users: seq<CheckResult>, infos: seq<CheckResult>, canonical: Block, maxLagSteps: int, i: nat)
    requires |users| == |infos| && InfoShaped(infos) && i < |users|
    requires var valid := Indices(users, infos, |users|, true);
      forall k | 0 <= k < |valid| :: valid[k] < |infos| && infos[valid[k]].params.InfoPayload?
    ensures var valid := Indices(users, infos, |users|, true);
      && (i in Classified(infos, valid, canonical, maxLagSteps, true) <==>
            PassesChecks(users[i], infos[i]) && FirstPass(CheckAt(infos, i, canonical), maxLagSteps).keep)
      && (i in Indices(users, infos, |users|, false) + Classified(infos, valid, canonical, maxLagSteps, false) <==>
            !PassesChecks(users[i], infos[i]) || !SecondPass(CheckAt(infos, i, canonical), maxLagSteps).keep)
      && Increasing(Classified(infos, valid, canonical, maxLagSteps, true))
  {
    ClassifiedIncreasing(infos, Indices(users, infos, |users|, true), canonical, maxLagSteps, true);
  }

  /** The lists the second phase hands to the weight phase are index lists
      into the fleet, the kept one in fleet order. */
  lemma SettleListsBounded(users: seq<CheckResult>, infos: seq<CheckResult>, canonical: Block, maxLagSteps: int)
    requires |users| == |infos| && InfoShaped(infos)
    ensures var valid := Indices(users, infos, |users|, true);
      && (forall k | 0 <= k < |valid| :: valid[k] < |infos| && infos[valid[k]].params.InfoPayload?)
      && var kept := Classified(infos, valid, canonical, maxLagSteps, true);
         var dropped := Indices(users, infos, |users|, false) + Classified(infos, valid, canonical, maxLagSteps, false);
         && Increasing(kept)
         && (forall k | 0 <= k < |kept| :: kept[k] < |users|)
         && (forall k | 0 <= k < |dropped| :: dropped[k] < |users|)
  {
    var valid := Indices(users, infos, |users|, true);
    PassingAreShaped(users, infos);
    ClassifiedIncreasing(infos, valid, canonical, maxLagSteps, true);
    var dropped := Indices(users, infos, |users|, false) + Classified(infos, valid, canonical, maxLagSteps, false);
    forall k | 0 <= k < |dropped| ensures dropped[k] < |users| {
      assert dropped[k] in dropped;
    }
  }

  /** The rest of the tick, node by node: a node is set to zero weight when
      it is rejected and not at zero yet, to full weight when it is kept and
      its decision writes full, and keeps its weight otherwise; only kept
      nodes' records change, as their decision says. */
  lemma SettlePerNode(c: Settings, checked: State, users: seq<CheckResult>, infos: seq<CheckResult>, canonical: Block, i: nat)
    requires Ready(c, checked, users, infos) && i < |c.nodes|
    ensures
      var n, out := c.nodes[i], Settle(c, checked, users, infos, canonical).state;
      var before, a := ReadWeight(checked.store, c.prefix, n), ActionFor(c, checked, n);
      var kept := PassesChecks(users[i], infos[i]) && FirstPass(CheckAt(infos, i, canonical), c.maxLagSteps).keep;
      var rejected := !PassesChecks(users[i], infos[i]) || !SecondPass(CheckAt(infos, i, canonical), c.maxLagSteps).keep;
      && ReadWeight(out.store, c.prefix, n) ==
           (if rejected && before != c.weights.zero then c.weights.zero
            else if kept && WritesFull(a) then c.weights.full
            else before)
      && out.fail[n] == (if kept && a.Recovered? then EmptyFailRecord else checked.fail[n])
      && out.success[n] == (if kept then SuccessAfter(a, checked.success[n]) else checked.success[n])
  {
    var valid := Indices(users, infos, |users|, true);
    PassingAreShaped(users, infos);
    var kept := Classified(infos, valid, canonical, c.maxLagSteps, true);
    var dropped := Indices(users, infos, |users|, false) + Classified(infos, valid, canonical, c.maxLagSteps, false);
    SettleLists(users, infos, canonical, c.maxLagSteps, i);
    WeightPhaseRecords(c, checked, kept, dropped);
    WeightPhaseWeight(c, checked, kept, dropped, i);
  }

  /** A node failing a first-phase check: its failed checks are counted,
      its success count is reset, and, once some node passed, it is set to
      zero weight; when no node passed, no weight changes. */
  lemma TickFailingNode(c: Settings, st: State, users: seq<CheckResult>, infos: seq<CheckResult>, i: nat)
    requires Ready(c, st, users, infos) && i < |c.nodes| && !PassesChecks(users[i], infos[i])
    ensures var n, out := c.nodes[i], Tick(c, st, users, infos).state;
      && out.fail[n] == CountFailedChecks(st.fail[n], users[i], infos[i])
      && out.success[n] == 0
      && ReadWeight(out.store, c.prefix, n) ==
           if TickCanonical(users, infos).Some? then c.weights.zero else ReadWeight(st.store, c.prefix, n)
  {
    CheckedPerNode(c, st, users, infos);
    var top := TickCanonical(users, infos);
    if top.Some? {
      SettlePerNode(c, Checked(c, st, users, infos), users, infos, top.value, i);
    }
  }

  /** A node that passed both checks but whose irreversible block is not
      the canonical one beyond what the lag threshold allows (or whose id
      differs) is set to zero weight, with its records untouched. */
  lemma TickDivergentNode(c: Settings, st: State, users: seq<CheckResult>, infos: seq<CheckResult>, i: nat)
    requires Ready(c, st, users, infos) && i < |c.nodes| && PassesChecks(users[i], infos[i])
    requires TickCanonical(users, infos).Some?
    requires !FirstPass(CheckAt(infos, i, TickCanonical(users, infos).value), c.maxLagSteps).keep
    ensures var n, out := c.nodes[i], Tick(c, st, users, infos).state;
      && out.fail[n] == st.fail[n]
      && out.success[n] == st.success[n]
      && ReadWeight(out.store, c.prefix, n) == c.weights.zero
  {
    CheckedPerNode(c, st, users, infos);
    SettlePerNode(c, Checked(c, st, users, infos), users, infos, TickCanonical(users, infos).value, i);
  }

  /** A node that passed every check of the tick: unless already at full
      weight it is promoted, or, with table-size failures on record, counts
      the clean tick until the count exceeds the recovery threshold, when
      it is promoted and its records are reset. */
  lemma TickHealthyNode(c: Settings, st: State, users: seq<CheckResult>, infos: seq<CheckResult>, i: nat)
    requires Ready(c, st, users, infos) && i < |c.nodes| && PassesChecks(users[i], infos[i])
    requires TickCanonical(users, infos).Some?
    requires var check := CheckAt(infos, i, TickCanonical(users, infos).value);
      FirstPass(check, c.maxLagSteps).keep && SecondPass(check, c.maxLagSteps).keep
    ensures var n, out := c.nodes[i], Tick(c, st, users, infos).state;
      var a := ActionFor(c, st, n);
      && out.fail[n] == (if a.Recovered? then EmptyFailRecord else st.fail[n])
      && out.success[n] == SuccessAfter(a, st.success[n])
      && ReadWeight(out.store, c.prefix, n) ==
           if a.Recovering? then ReadWeight(st.store, c.prefix, n) else c.weights.full
  {
    var checked, n := Checked(c, st, users, infos), c.nodes[i];
    CheckedPerNode(c, st, users, infos);
    var a := ActionFor(c, st, n);
    assert ActionFor(c, checked, n) == a;
    SettlePerNode(c, checked, users, infos, TickCanonical(users, infos).value, i);
  }

  /** With a lag threshold of 1, a node whose irreversible number differs
      from the canonical one is both kept and rejected: a node at zero
      weight that would be promoted is set to full weight, any other is set
      to zero weight. */
  lemma TickDoublyListedNode(c: Settings, st: State, users: seq<CheckResult>, infos: seq<CheckResult>, i: nat)
    requires Ready(c, st, users, infos) && i < |c.nodes| && PassesChecks(users[i], infos[i])
    requires TickCanonical(users, infos).Some? && c.maxLagSteps == 1
    requires var check := CheckAt(infos, i, TickCanonical(users, infos).value);
      check.IsFailed() && check.params in {Less, Greater}
    ensures var n, out := c.nodes[i], Tick(c, st, users, infos).state;
      ReadWeight(out.store, c.prefix, n) ==
        if ReadWeight(st.store, c.prefix, n) == c.weights.zero && WritesFull(ActionFor(c, st, n))
        then c.weights.full
        else c.weights.zero
  {
    var checked := Checked(c, st, users, infos);
    CheckedPerNode(c, st, users, infos);
    assert ActionFor(c, checked, c.nodes[i]) == ActionFor(c, st, c.nodes[i]);
    PassesDisagreeIffThresholdOne(CheckAt(infos, i, TickCanonical(users, infos).value), 1);
    SettlePerNode(c, checked, users, infos, TickCanonical(users, infos).value, i);
  }

  /** Every write of the rest of the tick names a node of the fleet and
      changes its weight. */
  lemma SettleWritesChange(c: Settings, checked: State, users: seq<CheckResult>, infos: seq<CheckResult>, canonical: Block)
    requires |users| == |infos| && InfoShaped(infos)
    ensures forall w | w in Settle(c, checked, users, infos, canonical).writes ::
      w.server in c.nodes && ReadWeight(checked.store, c.prefix, w.server) != Written(c.weights, w)
  {
    var valid := Indices(users, infos, |users|, true);
    PassingAreShaped(users, infos);
    WeightPhaseWritesChange(c, checked,
      Classified(infos, valid, canonical, c.maxLagSteps, true),
      Indices(users, infos, |users|, false) + Classified(infos, valid, canonical, c.maxLagSteps, false));
  }

  /** The writes of a tick: none when no node passed the first phase, and
      otherwise each names a node of the fleet and changes its weight. */
  lemma TickWrites(c: Settings, st: State, users: seq<CheckResult>, infos: seq<CheckResult>)
    requires |users| == |c.nodes| && |infos| == |c.nodes| && InfoShaped(infos)
    ensures var out := Tick(c, st, users, infos);
      && (TickCanonical(users, infos).None? ==> out.writes == [] && out.state.store == st.store)
      && forall w | w in out.writes ::
           w.server in c.nodes && ReadWeight(st.store, c.prefix, w.server) != Written(c.weights, w)
  {
    var top := TickCanonical(users, infos);
    if top.Some? {
      SettleWritesChange(c, Checked(c, st, users, infos), users, infos, top.value);
    }
  }

  // ---------------------------------------------------------------------
  // The monitor

  class Monitor {
    /** The fleet, discovered once at start-up. */
    const nodes: seq<NodeId>
    /** The store prefix under which the servers are listed. */
    const prefix: string
    const weights: Weights
    const maxLagSteps: int
    const minSuccessSteps: int
    /** `failResults` and `successResults`, by node. */
    var fail: map<NodeId, FailRecord>
    var success: map<NodeId, nat>
    /** The configuration store: key to weight. */
    var store: map<string, int>

    ghost predicate Valid()
      reads this
    {
      && Distinct(nodes)
      && (forall n :: n in fail <==> n in nodes)
      && (forall n :: n in success <==> n in nodes)
    }

    /** The start-up configuration, as one value. */
    function Config(): Settings {
      Settings(nodes, prefix, weights, maxLagSteps, minSuccessSteps)
    }

    /** Every node starts with empty records. */
    constructor (nodes: seq<NodeId>, prefix: string, weights: Weights,
                 maxLagSteps: int, minSuccessSteps: int, store: map<string, int>)
      requires Distinct(nodes)
      ensures Valid()
      ensures this.nodes == nodes && this.prefix == prefix && this.weights == weights
      ensures this.maxLagSteps == maxLagSteps && this.minSuccessSteps == minSuccessSteps
      ensures this.store == store
      ensures forall n | n in fail :: fail[n] == EmptyFailRecord
      ensures forall n | n in success :: success[n] == 0
    {
      this.nodes := nodes;
      this.prefix := prefix;
      this.weights := weights;
      this.maxLagSteps := maxLagSteps;
      this.minSuccessSteps := minSuccessSteps;
      this.store := store;
      this.fail := map n | n in nodes :: EmptyFailRecord;
      this.success := map n | n in nodes :: 0;
    }

    /** The first `partition`: indices of the nodes passing both checks,
        and of the others. */
    method Partition(users: seq<CheckResult>, infos: seq<CheckResult>) returns (valid: seq<nat>, invalid: seq<nat>)
      requires |users| == |infos|
      ensures valid == Indices(users, infos, |users|, true)
      ensures invalid == Indices(users, infos, |users|, false)
    {
      valid, invalid := [], [];
      var i := 0;
      while i < |users|
        invariant 0 <= i <= |users|
        invariant valid == Indices(users, infos, i, true)
        invariant invalid == Indices(users, infos, i, false)
      {
        if users[i].IsSuccessful() && infos[i].IsSuccessful() {
          valid := valid + [i];
        } else {
          invalid := invalid + [i];
        }
        i := i + 1;
      }
    }

    /** The `forEach` over the invalid nodes: count the failed checks and
        reset the success record of each, in list order. */
    method RecordCheckFailures(users: seq<CheckResult>, infos: seq<CheckResult>, invalid: seq<nat>)
      requires Valid() && |users| == |nodes| && |infos| == |nodes|
      requires forall k | 0 <= k < |invalid| :: invalid[k] < |nodes|
      modifies this
      ensures Valid()
      ensures fail == UpdateAt(old(fail), nodes, invalid, CountAt(users, infos))
      ensures success == UpdateAt(old(success), nodes, invalid, ResetSuccess)
      ensures store == old(store)
    {
      ghost var fail0, success0 := fail, success;
      var k := 0;
      while k < |invalid|
        invariant 0 <= k <= |invalid|
        invariant fail == UpdateAt(fail0, nodes, invalid[..k], CountAt(users, infos))
        invariant success == UpdateAt(success0, nodes, invalid[..k], ResetSuccess)
        invariant store == old(store)
      {
        var i := invalid[k];
        var n := nodes[i];
        assert invalid[..k + 1][..k] == invalid[..k];
        fail := fail[n := CountFailedChecks(fail[n], users[i], infos[i])];
        success := success[n := 0];
        k := k + 1;
      }
      assert invalid[..k] == invalid;
    }

    /** The second `partition`, evaluated as ramda does it: the predicate
        runs once for `filter` and once more for `reject`, and files its
        records under the per-tick wrapper (here: the position in `valid`),
        never under the node, so the node's own records stay as they are. */
    method ClassifyIrreversible(infos: seq<CheckResult>, valid: seq<nat>, canonical: Block)
      returns (kept: seq<nat>, dropped: seq<nat>)
      requires forall k | 0 <= k < |valid| :: valid[k] < |infos| && infos[valid[k]].params.InfoPayload?
      ensures kept == Classified(infos, valid, canonical, maxLagSteps, true)
      ensures dropped == Classified(infos, valid, canonical, maxLagSteps, false)
    {
      var filed;
      kept, filed := FilterLagging(infos, valid, canonical);
      dropped := RejectLagging(infos, valid, canonical, filed);
    }

    /** The `filter` half: each wrapper starts with nothing filed, and a
        kept node's record is filed under its wrapper. */
    method FilterLagging(infos: seq<CheckResult>, valid: seq<nat>, canonical: Block)
      returns (kept: seq<nat>, filed: map<nat, LagRecord>)
      requires forall k | 0 <= k < |valid| :: valid[k] < |infos| && infos[valid[k]].params.InfoPayload?
      ensures kept == Classified(infos, valid, canonical, maxLagSteps, true)
      ensures forall j: nat :: j in filed <==>
        j < |valid| && FirstPass(CheckAt(infos, valid[j], canonical), maxLagSteps).filed.Some?
      ensures forall j | j in filed ::
        j < |valid| && filed[j] == FirstPass(CheckAt(infos, valid[j], canonical), maxLagSteps).filed.value
    {
      filed := map[];
      kept := [];
      var k := 0;
      while k < |valid|
        invariant 0 <= k <= |valid|
        invariant kept == Classified(infos, valid[..k], canonical, maxLagSteps, true)
        invariant forall j: nat :: j in filed <==>
          j < k && FirstPass(CheckAt(infos, valid[j], canonical), maxLagSteps).filed.Some?
        invariant forall j | j in filed ::
          j < k && filed[j] == FirstPass(CheckAt(infos, valid[j], canonical), maxLagSteps).filed.value
      {
        var verdict := LagPredicate(CheckAt(infos, valid[k], canonical), FiledOr(filed, k), maxLagSteps);
        if verdict.filed.Some? {
          filed := filed[k := verdict.filed.value];
        }
        ClassifiedStep(infos, valid, canonical, maxLagSteps, true, k);
        if verdict.keep {
          kept := kept + [valid[k]];
        }
        k := k + 1;
      }
      assert valid[..k] == valid;
    }

    /** The `reject` half: each wrapper finds what `filter` filed under it. */
    method RejectLagging(infos: seq<CheckResult>, valid: seq<nat>, canonical: Block, filed: map<nat, LagRecord>)
      returns (dropped: seq<nat>)
      requires forall k | 0 <= k < |valid| :: valid[k] < |infos| && infos[valid[k]].params.InfoPayload?
      requires forall j: nat :: j in filed <==>
        j < |valid| && FirstPass(CheckAt(infos, valid[j], canonical), maxLagSteps).filed.Some?
      requires forall j | j in filed ::
        j < |valid| && filed[j] == FirstPass(CheckAt(infos, valid[j], canonical), maxLagSteps).filed.value
      ensures dropped == Classified(infos, valid, canonical, maxLagSteps, false)
    {
      var records: map<nat, LagRecord> := filed;
      dropped := [];
      var k := 0;
      while k < |valid|
        invariant 0 <= k <= |valid|
        invariant dropped == Classified(infos, valid[..k], canonical, maxLagSteps, false)
        invariant forall j: nat | k <= j < |valid| :: FiledOr(records, j) == FiledOr(filed, j)
      {
        var verdict := LagPredicate(CheckAt(infos, valid[k], canonical), FiledOr(records, k), maxLagSteps);
        if verdict.filed.Some? {
          records := records[k := verdict.filed.value];
        }
        ClassifiedStep(infos, valid, canonical, maxLagSteps, false, k);
        if !verdict.keep {
          dropped := dropped + [valid[k]];
        }
        k := k + 1;
      }
      assert valid[..k] == valid;
    }

    /** The callback for a kept node: a node not at full weight is
        promoted at once when it has no table-size failures on record, and
        otherwise counts the clean tick, being promoted (with both records
        reset) once the count exceeds the threshold. */
    method PromoteValid(before: map<string, int>, n: NodeId) returns (w: seq<Write>)
      requires n in fail && n in success
      modifies this
      ensures var a := ValidNodeAction(ReadWeight(before, prefix, n), old(fail[n]), old(success[n]), weights, minSuccessSteps);
        && w == (if WritesFull(a) then [SetFull(n)] else [])
        && fail == old(fail)[n := if a.Recovered? then EmptyFailRecord else old(fail[n])]
        && success == old(success)[n := SuccessAfter(a, old(success[n]))]
        && store == ApplyWrites(old(store), prefix, weights, w)
    {
      w := [];
      var weight := ReadWeight(before, prefix, n);
      if weight != weights.full {
        if fail[n].invalidTableSize > 0 {
          var count := success[n] + 1;
          if count <= minSuccessSteps {
            success := success[n := count];
            return;
          }
          fail := fail[n := EmptyFailRecord];
          success := success[n := 0];
        }
        w := [SetFull(n)];
        store := store[WeightKey(prefix, n) := weights.full];
      }
    }

    /** The callback for a dropped node: set zero weight unless the node
        has it already. */
    method DemoteDropped(before: map<string, int>, n: NodeId) returns (w: seq<Write>)
      modifies this`store
      ensures w == if ReadWeight(before, prefix, n) != weights.zero then [SetZero(n)] else []
      ensures store == ApplyWrites(old(store), prefix, weights, w)
    {
      w := [];
      if ReadWeight(before, prefix, n) != weights.zero {
        w := [SetZero(n)];
        store := store[WeightKey(prefix, n) := weights.zero];
      }
    }

    /** The callbacks of the kept nodes, in list order, each reading its
        weight from `before`. */
    method PromoteAll(before: map<string, int>, kept: seq<nat>) returns (writes: seq<Write>)
      requires Valid() && Increasing(kept)
      requires forall k | 0 <= k < |kept| :: kept[k] < |nodes|
      modifies this
      ensures Valid()
      ensures var st := State(before, old(fail), old(success));
        && writes == FullWrites(Config(), st, kept)
        && store == ApplyWrites(old(store), prefix, weights, writes)
        && fail == UpdateAt(old(fail), nodes, kept, ClearIfRecovered(Config(), st))
        && success == UpdateAt(old(success), nodes, kept, CountSuccess(Config(), st))
    {
      ghost var st := State(before, fail, success);
      ghost var store0 := store;
      writes := [];
      var k := 0;
      while k < |kept|
        invariant 0 <= k <= |kept|
        invariant writes == FullWrites(Config(), st, kept[..k])
        invariant store == ApplyWrites(store0, prefix, weights, writes)
        invariant fail == UpdateAt(st.fail, nodes, kept[..k], ClearIfRecovered(Config(), st))
        invariant success == UpdateAt(st.success, nodes, kept[..k], CountSuccess(Config(), st))
      {
        var n := nodes[kept[k]];
        KeptUntouched(Config(), st, kept, k);
        UpdateAtStep(st.fail, nodes, kept, k, ClearIfRecovered(Config(), st));
        UpdateAtStep(st.success, nodes, kept, k, CountSuccess(Config(), st));
        FullWritesStep(Config(), st, kept, k);
        var w := PromoteValid(before, n);
        ApplyWritesAppend(store0, prefix, weights, writes, w);
        writes := writes + w;
        k := k + 1;
      }
      assert kept[..k] == kept;
    }

    /** The callbacks of the dropped nodes, in list order, each reading its
        weight from `before`. */
    method DemoteAll(before: map<string, int>, dropped: seq<nat>) returns (writes: seq<Write>)
      requires forall k | 0 <= k < |dropped| :: dropped[k] < |nodes|
      modifies this`store
      ensures writes == ZeroWrites(Config(), before, dropped)
      ensures store == ApplyWrites(old(store), prefix, weights, writes)
    {
      ghost var store0 := store;
      writes := [];
      var k := 0;
      while k < |dropped|
        invariant 0 <= k <= |dropped|
        invariant writes == ZeroWrites(Config(), before, dropped[..k])
        invariant store == ApplyWrites(store0, prefix, weights, writes)
      {
        var n := nodes[dropped[k]];
        ZeroWritesStep(Config(), before, dropped, k);
        var w := DemoteDropped(before, n);
        ApplyWritesAppend(store0, prefix, weights, writes, w);
        writes := writes + w;
        k := k + 1;
      }
      assert dropped[..k] == dropped;
    }

    /** The final `Promise.all`: the callbacks of the kept nodes, then those
        of the dropped nodes, all reading the weights the store held when
        the phase began. */
    method WriteWeights(kept: seq<nat>, dropped: seq<nat>) returns (writes: seq<Write>)
      requires Valid() && Increasing(kept)
      requires forall k | 0 <= k < |kept| :: kept[k] < |nodes|
      requires forall k | 0 <= k < |dropped| :: dropped[k] < |nodes|
      modifies this
      ensures Valid()
      ensures var out := WeightPhase(Config(), old(State(store, fail, success)), kept, dropped);
        writes == out.writes && State(store, fail, success) == out.state
    {
      var before := store;
      var promoted := PromoteAll(before, kept);
      var demoted := DemoteAll(before, dropped);
      ApplyWritesAppend(before, prefix, weights, promoted, demoted);
      writes := promoted + demoted;
    }

    /** `validationStep` after the first phase: agree on the canonical
        block (stop when no node passed), classify the passing nodes
        against it and write the weights. */
    method SettleWeights(users: seq<CheckResult>, infos: seq<CheckResult>, valid: seq<nat>, invalid: seq<nat>)
      returns (writes: seq<Write>)
      requires Valid() && |users| == |nodes| && |infos| == |nodes| && InfoShaped(infos)
      requires valid == Indices(users, infos, |users|, true)
      requires invalid == Indices(users, infos, |users|, false)
      modifies this
      ensures Valid()
      ensures Outcome(State(store, fail, success), writes) ==
        match TickCanonical(users, infos)
        case None => Outcome(old(State(store, fail, success)), [])
        case Some(canonical) => Settle(Config(), old(State(store, fail, success)), users, infos, canonical)
    {
      var top := TickCanonical(users, infos);
      if top.None? {
        return [];
      }
      SettleListsBounded(users, infos, top.value, maxLagSteps);
      var kept, dropped := ClassifyIrreversible(infos, valid, top.value);
      writes := WriteWeights(kept, invalid + dropped);
    }

    /** `validationStep`, given every node's two check results. */
    method Step(users: seq<CheckResult>, infos: seq<CheckResult>) returns (writes: seq<Write>)
      requires Valid() && |users| == |nodes| && |infos| == |nodes| && InfoShaped(infos)
      modifies this
      ensures Valid()
      ensures Outcome(State(store, fail, success), writes) == Tick(Config(), old(State(store, fail, success)), users, infos)
    {
      ghost var st := State(store, fail, success);
      var valid, invalid := Partition(users, infos);
      RecordCheckFailures(users, infos, invalid);
      assert State(store, fail, success) == Checked(Config(), st, users, infos);
      writes := SettleWeights(users, infos, valid, invalid);
    }
  }
}
