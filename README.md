# snax-cdn-monitor decision engine, in Dafny

snax-cdn-monitor watches a fleet of SNAX RPC nodes that sit behind a
load balancer. The balancer reads its per-server weights from an etcd
store. On every tick the monitor does the following:

- It runs two checks on each node:
  - freshness (`checkInfo`);
  - table consistency (`checkUsers`).
- It counts the failures per node.
- From the nodes that passed both checks, it agrees on a canonical last
  irreversible block.
- It classifies those nodes against the canonical block (`checkIrreversible`).
- It writes the zero weight or the full weight for each node. A node with
  table-size failures on record must first pass a number of clean ticks
  before it is promoted back to full weight.

This project models that decision engine. The network is removed:

- RPC answers are inputs.
- The clock and the random draw are inputs.
- The etcd store is a map from key to weight.

The project has five modules:

- `Checks` (`checks.dfy`): the three per-node checks of `src/checker.js`
  and the `CheckResult` they return.
- `Quorum` (`quorum.dfy`): the two counting helpers of `src/index.js` and
  the choice of the canonical block.
- `Store` (`store.dfy`): the server discovery grouping of `src/etcd.js`,
  the weight key, and the effect of `setZeroWeight`/`setFullWeight` on
  the store.
- `Monitor` (`monitor.dfy`): `validationStep`, in two forms.
  - A specification. The function `Tick` maps a state (store, failure
    records, success records) and the tick's check results to the new
    state and the weight writes.
  - The class `Monitor`. It holds the records and the store as fields.
    Its `Step` method runs the phases imperatively, with the source's
    loops and branches, and is proved equal to `Tick`.
  - Per-node lemmas (`Tick…Node`) state what a tick does to each kind of
    node.
- `Wrappers` (`wrappers.dfy`): an `Option` type.

The record of the irreversibility phase is keyed by a per-tick wrapper
object, not by the node, and the model reproduces this (`index.js`
lines 128-156). Two consequences follow, and both are proved:

- The lag counters the phase reads always start from zero, so they
  never accumulate across ticks.
- With a lag threshold of 1, ramda's `partition` files a node whose
  irreversible number differs from the canonical one in both the kept and
  the rejected list. Its predicate runs once for `filter` and once for
  `reject`.

The counter names `irreversibleBlockLess`/`irreversibleBlockGreater` and
the threshold `MAX_IRREVERSIBLE_LAG_STEPS` (src/index.js) suggest lag
failures meant to accumulate across ticks. The code does not do that: the
record is looked up under a wrapper object built fresh each tick, so the
lookup always misses. The model follows the code. A node whose
irreversible number differs from the canonical one is kept by `filter`
whenever the threshold is at least 1
(`Monitor.LagKeptIffThresholdPositive`). With a threshold of 2 or more it
is then promoted like a healthy node (`Monitor.TickHealthyNode`); with a
threshold of 1 see `Monitor.TickDoublyListedNode`.

## Model

| member | source | states |
|---|---|---|
| Checks.Succeed | src/checker.js:1-14 | a successful result has no reason, and `isFailed` is its negation |
| Checks.Fail | src/checker.js:1-14 | a failed result carries its reason and parameters, and is failed and not successful |
| Checks.CheckIrreversible | src/checker.js:30-55 | success iff the number and the id both equal the canonical ones; equal numbers with another id give `invalid`; a smaller number gives `less` and a larger one `greater`; every failure carries exactly one of these three markers |
| Checks.CheckInfo | src/checker.js:57-93 | a thrown call fails with no parameters; staleness (`now - headTime > bound`) is tested first and equality passes; then the irreversible gap; success iff both bounds hold, and a success carries the fetched snapshot |
| Checks.AlignedOffset | src/checker.js:124-126 | the offset clamped at 0 and rounded down to a whole number of pages; it is 0 when the page size is 0 |
| Checks.DrawSpan | src/checker.js:99-123 | the range the random offset is drawn from: the updated part of the table less one page while a round has updated more than a page, otherwise the part not yet updated less one page |
| Checks.StepMultiplier | src/checker.js:97-127 | the stride multiplier is `step_number` when updating past one page, `step_number - 1` when updating otherwise, and `step_number - 2` when not updating |
| Checks.SamplingPosition | src/checker.js:124-128 | the position is the aligned offset plus `0xFFFFFFFF` times the multiplier, plus 1 |
| Checks.CheckUsers | src/checker.js:95-150 | a missing state or page fails with the `rejected` marker; success iff the page at the sampling position has exactly `TABLE_LIMIT` rows, carrying state and rows; a short or long page fails with its length, the limit and the position and no params |
| Checks.NonPositiveSpanSamplesFirstPage | src/checker.js:101-128 | an offset drawn from a span that is not positive is clamped away, so the sample starts at the shifted position plus one |
| Checks.AlignedOffsetWithinSpan | src/checker.js:101-126 | an offset drawn from a positive span stays inside the span after alignment |
| Checks.StaleHeadExample | src/checker.js:67-74 | a head 3000 ms old against the default 2000 ms bound fails as stale |
| Checks.ShortPageExample | src/checker.js:134-143 | a 57-row page against the default limit of 100 fails as short, reporting 57 and 100 |
| Quorum.CountBy | src/index.js:23-27 | `countBy(identity)`: exactly the elements of the list are keys, each mapped to its multiplicity |
| Quorum.MaxScore | src/index.js:23-27 | `reduce(max, 0)`: an upper bound of all scores that is attained, or 0 for no keys |
| Quorum.ArgMax | src/index.js:29-35 | the head after sorting by descending score is a key of maximal score |
| Quorum.MaxSameCount | src/index.js:23-27 | `getMaxNumberOfTheSameValues`: the largest multiplicity of any element, attained by some element; 0 exactly for the empty list |
| Quorum.MostFrequent | src/index.js:29-35 | `getValueWhichHasMaxOccurencies`: an element of the list of maximal multiplicity; none for the empty list |
| Quorum.MostFrequentHasMaxSameCount | src/index.js:23-35 | the value the second helper returns occurs exactly as often as the first helper's result |
| Quorum.IdsOf | src/index.js:102-110 | the ids reported with one block number, never more than the reports |
| Quorum.IdsOfCounts | src/index.js:102-110 | an id occurs among the ids of a number exactly as often as that (number, id) pair was reported |
| Quorum.GroupIds | src/index.js:102-110 | the grouping of reports holds exactly the reported numbers, each mapped to its ids in report order |
| Quorum.GroupedNumbers | src/index.js:102-110 | every report's number is grouped and its id is among that number's ids |
| Quorum.Canonical | src/index.js:102-126 | none iff no node passed; otherwise a reported pair whose number has a maximal max-same-id count and whose id is a most frequent id of that number |
| Quorum.CanonicalIsMostReported | src/index.js:112-126 | no (number, id) pair was reported more often than the canonical block |
| Quorum.StrictMajorityIsCanonical | src/index.js:112-126 | a pair reported strictly more often than every other pair is the canonical block |
| Quorum.CanonicalExample | src/index.js:102-126 | for reports (100,A), (100,A), (100,B), (99,Z) the canonical block is (100,A) |
| Store.Split | src/etcd.js:36-39 | `split("/")` gives at least one segment, none containing a slash |
| Store.JoinSplit | src/etcd.js:36-39 | joining the segments with slashes gives the key back |
| Store.SplitJoin | src/etcd.js:44-48 | slash-free segments joined with slashes split back into the same segments |
| Store.FieldOf | src/etcd.js:36-39 | the field of a key has no slash and is the whole key or the part after its last slash |
| Store.ServerOf | src/etcd.js:44-48 | the group of a key is its second-to-last segment, or "undefined" when it has a single segment |
| Store.SlashlessKeyIsUndefined | src/etcd.js:44-50 | a key without a slash falls into the group "undefined" |
| Store.LastValueFound | src/etcd.js:34-42 | a field has a value exactly when some entry stores it |
| Store.LastValueIsLastEntry | src/etcd.js:34-42 | the value found is that of the last entry storing that server's field |
| Store.GroupEntries | src/etcd.js:32-49 | the groups are exactly the servers some entry names; each field maps to the value of its last entry |
| Store.GetServers | src/etcd.js:27-54 | the servers are the listed groups other than "undefined"; each field holds the value of its last entry, and every field comes from some entry |
| Store.KeyExamples | src/etcd.js:32-50 | "p/s1/url" files field "url" of server "s1"; "top" falls into "undefined" |
| Store.WeightKey | src/etcd.js:56-58 | the weight key has exactly the length of prefix, server key and "/weight" |
| Store.WeightKeyRoundTrip | src/etcd.js:56-64 | the weight key decodes back to its server key |
| Store.WeightKeyInjective | src/etcd.js:56-64 | distinct servers never share a weight key |
| Store.WeightsOrDefault | src/etcd.js:15-25 | the zero and full weights default to 0 and 100 and otherwise take the configured values |
| Store.ReadWeight | src/etcd.js:56-58 | `+(await getWeight(node))`: the weight stored under the server's weight key, and 0 when the key is missing (`+null`) |
| Store.ApplyWrite | src/etcd.js:60-72 | `setZeroWeight`/`setFullWeight` make the server read the zero or full weight; no other server's weight and no other key change |
| Store.ApplyWrites | src/etcd.js:60-72 | after a batch of writes, each server reads the weight of its last write, and a server no write names keeps its weight |
| Monitor.LagThreshold | src/index.js:141-146 | `MAX_IRREVERSIBLE_LAG_STEPS` is 3 when unset and the configured number otherwise, 0 included |
| Monitor.RecoveryThreshold | src/index.js:173-176 | `MIN_SUCCESS_TABLE_STEP_COUNT` is 3 when unset or 0, and the configured number otherwise; never 0 |
| Monitor.ChecksFail | src/index.js:94-100 | a passing node's failure record is unchanged; `invalidTableSize` grows by 1 iff the user check failed and `invalidInfo` iff the info check failed; the lag counters are untouched |
| Monitor.Indices | src/index.js:88-92 | the first `partition`: an index is listed iff the node's passing both checks matches the side, in increasing order |
| Monitor.RecordedPerNode | src/index.js:94-100 | after the `forEach` over the failing nodes, every node's records are as `ChecksFail` and the success reset say, and passing nodes keep theirs |
| Monitor.NoCanonicalIffNobodyPassed | src/index.js:102-121 | there is no canonical block, so the early return happens, exactly when no node passed both checks |
| Monitor.LagPredicate | src/index.js:128-155 | a success keeps the node and files an empty record; `invalid` drops it; a lag failure keeps it iff both counters, after adding this tick's flag, stay within the threshold; a record is filed iff the node is kept, and a kept lag failure files the previous counters plus this tick's flag, the record `reject` reads |
| Monitor.InvalidIdIsDropped | src/index.js:130-131 | an id disagreement drops the node in both evaluations of the predicate |
| Monitor.LagKeptIffThresholdPositive | src/index.js:128-156 | a lag failure keeps the node iff the threshold is at least 1, whatever the node's history, because the lookup is keyed by the per-tick wrapper |
| Monitor.PassesDisagreeIffThresholdOne | src/index.js:128-156 | `filter` and `reject` disagree about a node exactly for a lag failure with threshold 1 |
| Monitor.Classified | src/index.js:128-156 | an index is kept (or collected by `reject`) iff it passed the first phase and its evaluation keeps (or drops) it |
| Monitor.ClassifiedIncreasing | src/index.js:128-156 | the classification keeps the valid list's order |
| Monitor.ValidNodeAction | src/index.js:166-193 | nothing happens exactly when the weight is already full; with no table-size failures the node is promoted; otherwise it counts the clean tick while the count stays within the threshold, and is promoted with reset records once it exceeds it |
| Monitor.RecoveryTakesThresholdTicks | src/index.js:169-182 | a node recovering from success count `s` is promoted after `threshold - s + 1` consecutive clean ticks, or at once when `s` has reached the threshold |
| Monitor.FullWritesChange | src/index.js:166-193 | every write of the kept nodes' callbacks sets full weight on a fleet node that was not at full weight |
| Monitor.ZeroWritesChange | src/index.js:195-215 | every write of the dropped nodes' callbacks sets zero weight on a fleet node that was not at zero weight |
| Monitor.WeightPhaseWritesChange | src/index.js:165-216 | no write of the weight phase sets a server to the weight it already has |
| Monitor.WeightPhaseWeight | src/index.js:165-216 | after the weight phase a node reads zero if dropped and not at zero before, else full if kept and its decision writes full, else its earlier weight |
| Monitor.WeightPhaseRecords | src/index.js:166-194 | after the weight phase a kept node's success count follows its decision and a recovered node's failure record is empty; other nodes keep both records |
| Monitor.CheckedPerNode | src/index.js:88-100 | the first phase leaves the store alone and sets each node's records as `ChecksFail` and the success reset say |
| Monitor.SettleLists | src/index.js:128-156 | a node is kept iff it passed and `filter` keeps it, and is zeroed iff it failed a check or `reject` collects it |
| Monitor.SettlePerNode | src/index.js:128-216 | after the canonical block is found: each node's weight, failure record and success count, by its classification and decision |
| Monitor.TickFailingNode | src/index.js:79-217 | a node failing a check has its failed checks counted and its success count reset; it is set to zero weight once some node passed, and keeps its weight otherwise |
| Monitor.TickDivergentNode | src/index.js:128-216 | a passing node that `filter` drops is set to zero weight, with its records untouched |
| Monitor.TickHealthyNode | src/index.js:128-194 | a node passing every check is promoted, or counts its clean tick while recovering, or is promoted with both records reset once recovered |
| Monitor.TickDoublyListedNode | src/index.js:128-216 | with threshold 1, a passing node whose irreversible number differs from the canonical one ends at full weight iff it was at zero and its decision writes full, and at zero weight otherwise |
| Monitor.SettleWritesChange | src/index.js:165-216 | every write after the canonical block is found names a fleet node and changes its weight |
| Monitor.TickWrites | src/index.js:79-217 | a tick where no node passed writes nothing and leaves the store alone; every write of a tick names a fleet node and changes its weight |
| Monitor.Monitor.constructor | src/index.js:72-77 | every node starts with an empty failure record and a zero success count |
| Monitor.Monitor.Partition | src/index.js:88-92 | the loop lists the passing and the failing indices as `Indices` does |
| Monitor.Monitor.RecordCheckFailures | src/index.js:94-100 | the `forEach` counts the failed checks of each failing node and resets its success count; the store is untouched |
| Monitor.Monitor.ClassifyIrreversible | src/index.js:128-156 | the second `partition` returns the kept and the rejected lists of `Classified` |
| Monitor.Monitor.FilterLagging | src/index.js:128-156 | the `filter` pass keeps the nodes `FirstPass` keeps and files each kept node's record under its wrapper |
| Monitor.Monitor.RejectLagging | src/index.js:128-156 | the `reject` pass, reading what `filter` filed, collects the nodes `SecondPass` drops |
| Monitor.Monitor.PromoteValid | src/index.js:166-193 | the kept node's callback writes full weight iff its decision says so, updates only that node's records as the decision says, and applies the write to the store |
| Monitor.Monitor.DemoteDropped | src/index.js:196-213 | the dropped node's callback writes zero weight iff the weight read was not zero, and changes only the store |
| Monitor.Monitor.PromoteAll | src/index.js:166-194 | the kept nodes' callbacks, in order, issue `FullWrites` and update the records node by node |
| Monitor.Monitor.DemoteAll | src/index.js:195-215 | the dropped nodes' callbacks, in order, issue `ZeroWrites` |
| Monitor.Monitor.WriteWeights | src/index.js:165-216 | the final `Promise.all` ends in the state and writes of `WeightPhase`, read from the store as the phase began |
| Monitor.Monitor.SettleWeights | src/index.js:102-216 | stops with no change when no node passed, and otherwise ends in the state and writes of `Settle` |
| Monitor.Monitor.Step | src/index.js:79-217 | one `validationStep` ends in exactly the state and writes `Tick` gives, so every `Tick…Node` lemma holds of it |

## Left out

- The RPC layer (`src/node.js`) is not part of this model. An answer that
  threw, timed out or came back null is `None`. The timeout race is not
  modelled.
- The logger and every log payload are left out. Failure reasons are
  modelled as a `Reason` tag without the message text, so the misspelled
  field in the "less" message does not appear.
- `main` is left out:
  - environment parsing;
  - construction of the checker and the store client;
  - the pacing loop with `sleep` and `Promise.race`;
  - the restart wrapper.

  The configured values are parameters. The fleet passed to the
  `Monitor` constructor stands for the keys of `GetServers`; the two are
  not tied together in Dafny.
- Overlapping ticks are not modelled. The `Promise.race` at
  src/index.js:223-226 does not cancel a tick slower than the check
  interval, so that tick goes on changing `failResults`/`successResults`
  and writing weights while the next tick runs. The model runs ticks
  strictly one after another.
- `Math.random` is an input: the truncated offset. `DrawnFrom` states
  which values the draw can take.
- `Date` parsing of `head_block_time` is left out. Times are integer
  milliseconds, so an unparsable time (NaN) is not modelled.
- Checks.AlignedOffset: does not model the 32-bit `| 0` truncation of
  `Math.random() * span` or of the page division. The values are assumed
  to fit in 32 bits, and then truncation equals integer division on the
  clamped offset.
- Non-numeric environment values are not modelled. They make `+env` NaN,
  and NaN comparisons are false.
- Non-numeric stored weights are not modelled. The store holds integers,
  and a missing key reads as 0 (`+null`).
- Quorum.ArgMax and Quorum.MostFrequent: they do not fix which element wins
  a tie. The sort comparators never return 0, so the JS result depends on
  the engine's sort and on `Object.entries` order. The model states only
  maximality.
- `Object.entries` and Map iteration order are modelled as the input
  order.
- The concurrency of the weight phase is not modelled.
  - The source issues every `getWeight` before any write lands. The model
    reads all weights from the store as the phase began.
  - It then applies the kept nodes' writes before the dropped nodes'
    writes.
  - For a node listed twice (threshold 1), the later zero write wins. In
    the source that order depends on the etcd client.
- The failure records filed under per-tick wrapper objects stay in the JS
  `Map` for the process lifetime. The model keeps them in a local map
  that is discarded after the tick, because nothing can read them again.
- Monitor.Monitor.Step: the per-node check results are given as
  sequences aligned with the fleet. The `Promise.all` fan-out that
  produces them is left out.
