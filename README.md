# Network-calculus bound engine, modelled in Dafny

This project models the core of WoPANets-extension. That core computes worst-case delay and backlog bounds for the flows of a
switched (AFDX-style) network by Network Calculus. Flows have affine arrival curves and nodes have affine service curves.
Each hop's bound comes from Theorem 1 (delay and backlog of an affine arrival against an affine service). Theorem 2 gives the
arrival curve at a hop's output: the input curve delayed by the hop delay.

The model is split into modules:

- `Curves` (curves.dfy). The `AffineCurve` value and its algebra: `delayBy`, `+` and `*`.
- `Utils` (utils.dfy). The conservative SI rounding `ceilWithUnit` and the two Theorem 1 bounds.
  - A bound is `Finite(v)` or `Infinite`, in place of Python's `float("inf")`.
- `Topology` (topology.dfy). The network as an arena: sequences of nodes, links and flows addressed by index.
  - Targets are values held by their flow.
  - Every flow of the arena has had `setNetwork` applied: its message size is its payload plus the network overhead.
  - Also here: the flow arrival curve, the node service curve, link lookup, and the path scans of `Target`
    (`findPreviousNode`, `findNextNode`, `findOutgoingLink`, `hasPath`).
- `Direction` (direction.dfy). `isDirectWith` and the link-level direction queries
  (`findFlowTargetsPassingThroughLink`, `sameDirection`, `getFlowsInSameDirection`).
- `Loads` (loads.dfy). `computeLoad`, `getUsage` and the stability test of `isStable`.
- `Engine` (engine.dfy). The per-hop bound engine as state-passing functions.
  - Covers `getWorstCaseService`, `computeTargetArrivalAffine`, the table readers and `computeEndToEndDelay`.
  - Each node's three per-link tables (delay, aggregate arrival, backlog) are one map from (node, link) to an optional entry.
  - A missing key is Python's `KeyError`. `None` is the `-1` sentinel that `initAllDicts` writes.
  - Every engine function returns its outcome together with the tables it leaves.
  - The lemmas state what the source promises about these functions.
- `Analysis` (network.dfy). The imperative side.
  - Class `Network` holds the arena, the tables (a mutable field) and the `checkStability` flag.
  - Its methods are the source's loops, each proved to end in the state and result the matching function describes.
  - `HasPath` walks a target's path and registers its flow on the links it finds.

Errors are values of `Result<_, Fault>`. Every `Fault` constructor but two stands for one exception the Python code
raises. The two exceptions are `Unbounded` and `OutOfFuel`, which belong to the model (see "## Left out"). The exceptions
include:

- a division by zero;
- a missing table key;
- an empty path;
- an unknown load mode;
- the unbound `arrival` variable when the query flow is not among the aggregated flows.

## Model

| member | source | states |
|---|---|---|
| Curves.DelayByEval | Classes.py:10-18 | the delayed curve read at t is the original curve read at t + d, and the slope is kept (Theorem 2) |
| Curves.DelayByZero | Classes.py:10-18 | delaying by 0 gives back the same curve |
| Curves.DelayByCompose | Classes.py:10-18 | delaying by d1 and then by d2 is one delay by d1 + d2 |
| Curves.DelayByAdd | Classes.py:10-25 | delaying an aggregate curve is the aggregate of the delayed curves |
| Curves.AddEval | Classes.py:21-23 | a curve sum evaluates to the sum of the two curves at every instant |
| Curves.AddCommutes | Classes.py:21-23 | curve addition is commutative |
| Curves.AddAssociates | Classes.py:21-23 | curve addition is associative |
| Curves.AddZero | Classes.py:21-23 | the curve (0, 0) is the identity of addition |
| Curves.ScaleEval | Classes.py:26-27 | a curve scaled by k evaluates to k times the curve at every instant |
| Utils.CeilWithUnit | Utils.py:9-23 | the loop over the SI units computes exactly the rounding `CeilWith`; "u" selects the micro unit |
| Utils.RoundUpAbove | Utils.py:15-17 | one rounding step at any unit lands strictly above its input |
| Utils.CeilScanAtLeast | Utils.py:12-17 | the automatic scan never lowers the amount |
| Utils.CeilScanStrict | Utils.py:12-17 | the scan raises the amount strictly if and only if some unit it reaches is at most the absolute amount |
| Utils.CeilAuto | Utils.py:12-17 | with no unit the result is at least the amount; it is strictly greater exactly when the absolute amount is at least 1 µ; below that it is unchanged |
| Utils.CeilSelected | Utils.py:9-23 | with a recognised unit (including "u") exactly one rounding step is applied, and the result is strictly greater; any other unit string leaves the amount unchanged |
| Utils.Theorem1Delay | Utils.py:75-99 | +inf when `checkStability` is set and service rate ≤ arrival rate; otherwise 0 for a non-positive burst, a division-by-zero error for a positive burst with zero rate, and else a finite value ≥ burst/rate that is positive when the rate is positive |
| Utils.CeilScanMonotone | Utils.py:12-17 | on non-negative amounts the automatic rounding is monotone |
| Utils.Theorem1DelayGrowsWithBurst | Utils.py:75-99 | against a service of positive rate, a larger arrival burst with a rate no smaller never gives a smaller delay bound (+inf above every finite bound) |
| Utils.Theorem1DelayOverloaded | Utils.py:75-99 | with the guard off and a negative service rate the order reverses: against service (-1, 0) burst 1 gives delay 0 and burst 2 gives -0.998999 |
| Utils.Theorem1Backlog | Utils.py:102-125 | the same +inf guard; with zero service rate a division-by-zero error; otherwise the arrival curve read at t* = max(0, -n/m) with t* ≥ 0, where a positive-rate service with non-positive intercept is zero at t*; equals the arrival burst for a positive-rate service with intercept ≥ 0, and is never below the burst for a non-negative arrival rate |
| Topology.SetNetwork | Classes.py:490-492 | maxMessageSize is the payload plus the network overhead, and nothing else of the flow changes |
| Topology.ArrivalAffine | Classes.py:494-508 | zero period − jitter is a division by zero; otherwise slope × (period − jitter) = maxMessageSize; the intercept is maxMessageSize when BE, else maxMessageSize − maxMessageSize²/(C·period), with C·period = 0 a division by zero |
| Topology.ArrivalGrowsWithMessage | Classes.py:494-508 | on the same period and jitter, a larger message gives a steeper slope and a larger burst |
| Topology.ArrivalGrowsWhenPeriodShrinks | Classes.py:494-508 | a shorter period (still above the jitter) gives a steeper slope |
| Topology.ServiceAffine | Classes.py:201-202 | the service curve has rate C and equals C·(t − techLatency), so it is zero at the technological latency |
| Topology.ConnectsSystems | Classes.py:403-412 | true exactly when the link's endpoints are A and B in either order (the fall-through `None` is falsy) |
| Topology.ConnectingFrom | Classes.py:554-559 | the scan returns the first link joining the two nodes, and None only when no link from that point on joins them |
| Topology.GetConnectingLinkSymmetric | Classes.py:554-559 | `getConnectingLink(A, B)` and `getConnectingLink(B, A)` return the same link |
| Topology.LinksFrom | Classes.py:312-318 | the node's links are exactly the links with the node at either end, in link order |
| Topology.FindPreviousNode | Classes.py:124-136 | a predecessor found is a node of `[source] + path` |
| Topology.FindPreviousNodeSpec | Classes.py:124-136 | a predecessor exists exactly when the node is on the path (the source's own position does not count); otherwise the lookup raises |
| Topology.FindPreviousNodeLast | Classes.py:124-136 | the predecessor is the element just before the last occurrence of the node in `[source] + path` |
| Topology.FindNextNode | Classes.py:139-150 | a successor found is a node of the path |
| Topology.FindNextNodeSpec | Classes.py:139-150 | a successor exists exactly when the node occurs in `[source] + path` before its final element |
| Topology.FindNextNodeLast | Classes.py:139-150 | the successor is the element just after the last occurrence of the node among all but the final element |
| Topology.FindOutgoingLink | Classes.py:152-158 | fails exactly when `findNextNode` fails; a link returned joins the node to its successor |
| Topology.FindTargetPassingThroughNode | Classes.py:510-517 | the target returned belongs to the flow and has the node on its path; the lookup fails exactly when no target's path contains the node |
| Topology.Register | Classes.py:61 | registering keeps the link's ends and capacity, adds the flow and keeps all others, and keeps the flows free of duplicates |
| Topology.HasPathFrom | Classes.py:50-76 | the walk changes no link's ends or capacity; each link either keeps its flows or gains the target's flow at the end |
| Topology.HasPathVerdict | Classes.py:50-76 | `hasPath` is true exactly when every consecutive pair of `[source] + path` is joined by some link and the path ends at the target; an empty path is an index error; with no links at all every pair passes |
| Topology.HasPathRegisters | Classes.py:56-63 | every pair walked before the first unjoined one registers the flow on the link `getConnectingLink` returns for it, even when a later pair fails |
| Direction.DirectFrom | Classes.py:88-113 | the scan only ever fails with a missing node or a circular path |
| Direction.IsDirect | Classes.py:78-113 | asking about two identical nodes is exactly the same-nodes error |
| Direction.IsDirectWith | Classes.py:78-113 | the loop over `[source] + path` with its `direct` state returns exactly `IsDirect` |
| Direction.IsDirectSpec | Classes.py:78-113 | the answer depends only on the first two occurrences of A or B: A then B is true, B then A is false, a repeat is a circular-path error and fewer than two is a missing-node error |
| Direction.IsDirectAntisymmetric | Classes.py:78-113 | isDirectWith(A, B) is defined exactly when isDirectWith(B, A) is, and then they are opposite |
| Direction.IsDirectOnSimplePath | Classes.py:78-113 | on a path that visits no node twice, the answer for the nodes at positions p ≠ q is whether p < q |
| Direction.CrossingTargets | Classes.py:414-421 | returns exactly the flow's targets whose path contains both link endpoints, adjacent or not |
| Direction.SameDirection | Classes.py:435-439 | defined exactly when both targets have a defined direction over the link; then true iff the two directions agree; the query target's error comes first |
| Direction.AnySameFrom | Classes.py:428-432 | every crossing target is compared, so the loop fails if any comparison fails; otherwise true iff some comparison is true |
| Direction.SameDirectionFlows | Classes.py:423-433 | every flow returned is registered on the link |
| Direction.SameDirectionFlowsSpec | Classes.py:423-433 | when it succeeds, each link flow is kept at most once, and exactly those with a crossing target travelling the link the same way as the query target |
| Direction.OwnFlowKept | Classes.py:423-433 | a target that crosses the link with a defined direction keeps its own flow among the same-direction flows |
| Loads.Rate | Classes.py:451 | division by zero exactly when the period is 0; otherwise rate × period = maxMessageSize |
| Loads.LoadStep | Classes.py:447-457 | a target that does not cross the link adds 0; a crossing target with an unknown mode raises |
| Loads.ComputeLoad | Classes.py:441-459 | the two nested accumulator loops compute exactly `Load` |
| Loads.LoadInvalidMode | Classes.py:441-459 | an unknown mode raises exactly when some target crosses the link, and otherwise the load is 0 |
| Loads.DirectPlusInverse | Classes.py:441-459 | when both loads are defined, the direct load plus the inverse load is the summed rate of every crossing pair |
| Loads.LoadNonNegative | Classes.py:441-459 | with positive periods and non-negative message sizes a load is never negative |
| Loads.Usage | Classes.py:469-470 | usage × capacity = load; a load error is propagated and a zero capacity is a division by zero |
| Loads.LinkArrivalSpec | Classes.py:585-588 | a link's arrival is the sum of maxMessageSize/(period − jitter) over its flows, defined unless some flow has period == jitter |
| Loads.StableSpec | Classes.py:569-597 | `isStable` answers exactly when every link's arrival is defined, and answers true exactly when no link's arrival exceeds its capacity (equality is stable) |
| Engine.Upstream | Classes.py:221-223 | the upstream target belongs to the flow and passes through the node, and the node returned is its predecessor there; a flow with no such target fails with that error |
| Engine.SourceAggregate | Classes.py:261-266 | the input arrival, once the query flow sets it, is that flow's nominal arrival curve |
| Engine.Hop | Classes.py:239-310 | the tables only gain computed cells; a success needs an outgoing link and leaves at (node, outgoing link) a cell holding the returned aggregate and backlog, left untouched when its delay was already known; the output slope is the flow's nominal rate |
| Engine.Aggregate | Classes.py:268-280 | the recursion into upstream hops never rewrites a known cell other than this hop's own; a success leaves this hop's cell holding the result, unchanged when its delay was known; when the input arrival has the flow's nominal slope, so does the output |
| Engine.Finish | Classes.py:285-310 | no input arrival is an error; a success stores the hop's delay with the aggregate and backlog and returns prior + delay and the input delayed by it; a known cell is left unchanged, and a fresh one records the aggregate summed by the loop |
| Engine.Emit | Classes.py:304-307 | an infinite delay, and only an infinite delay, ends the hop with the unbounded error; otherwise the output has the input's rate and at every instant x equals the input at x + delay (Theorem 2), the accumulated delay grows by exactly the hop delay, and the aggregate and backlog are passed on |
| Engine.Penalise | Classes.py:234-235 | the penalty keeps the rate, and for the unreduced rate C lowers the intercept by the largest message |
| Engine.WorstService | Classes.py:204-237 | the tables only gain computed cells; a failing outgoing-link lookup is propagated and a missing link is an error |
| Engine.ServiceFold | Classes.py:216-232 | the loop over the link's flows only adds computed cells to the tables |
| Engine.ServiceFoldRate | Classes.py:216-228 | the loop subtracts exactly the nominal rates of the strictly higher-priority flows from the service rate |
| Engine.MaxFromIsMax | Classes.py:229-232 | the accumulated message size is the largest message of the other flows when the node is a store-and-forward switch, or the initial value |
| Engine.ServiceFoldMax | Classes.py:229-232 | the loop's message-size accumulator ends as `MaxFrom` |
| Engine.ServiceFoldShielded | Classes.py:216-228 | without a higher-priority flow the loop recomputes no hop and leaves the tables and the curve unchanged |
| Engine.WorstServiceSpec | Classes.py:204-237 | on success C ≠ 0 and the worst-case rate is C minus the nominal rates of the strictly higher-priority flows on the outgoing link; without such flows the tables are unchanged and a zero C is a division by zero, else the curve is (C, −C·latency − maxMsg), with maxMsg the largest message that penalises a store-and-forward switch |
| Engine.SourceAggregateTotal | Classes.py:261-266 | at the source the aggregate is the sum of the nominal arrival curves of the same-direction flows, defined exactly when each of them is |
| Engine.HopAtSource | Classes.py:256-310 | at the source, the accumulated delay is the first hop's delay, the output is the nominal arrival delayed by it, and a freshly computed aggregate is the sum of the same-direction nominal arrivals |
| Engine.AggregateKeeps | Classes.py:270-280 | without the query flow among the remaining flows, the input arrival and the prior delay pass through the aggregation unchanged |
| Engine.AggregateFeeds | Classes.py:270-280 | with the query flow among the remaining flows, the stored result comes from the query flow's upstream hop output and delay |
| Engine.HopFeeds | Classes.py:268-310 | away from the source, the accumulated delay is the upstream hop's accumulated delay plus this hop's stored delay, and the output is the upstream output delayed by it |
| Engine.TargetLeaving | Classes.py:352-365 | a target returned has this link as its outgoing link at the node and belongs to a flow of the link; None means no target of the link's flows leaves through it |
| Engine.GetBacklog | Classes.py:320-331 | a known backlog is returned with the tables unchanged; none leaving gives 0; otherwise it is the backlog the fresh hop stored |
| Engine.GetDelay | Classes.py:339-350 | as written: a known delay is returned with the tables unchanged, and none leaving gives 0 |
| Engine.GetHopDelay | Classes.py:339-350 | corrected: also after a fresh computation the answer is the delay the hop stored for the link |
| Engine.TotalBacklogFrom | Classes.py:333-337 | summing the backlogs only adds computed cells to the tables |
| Engine.GetTotalBacklog | Classes.py:333-337 | summing the backlogs of the node's links only adds computed cells to the tables |
| Engine.EndToEnd | Classes.py:115-122 | the tables only gain computed cells; an empty path is an index error |
| Engine.ReadAfterHop | Classes.py:320-350 | after a hop, the backlog reader and the hop-delay reader return exactly the stored values and change nothing, whenever those values are non-negative (the `-1` sentinel test) |
| Engine.GetDelayComputes | Classes.py:343-350 | a cell that is not yet computed, with a leaving target, makes `getDelay` return that target's accumulated hop delay |
| Engine.GetDelayAccumulates | Classes.py:348 | for a target that did not start at the node, the first `getDelay` returns the upstream accumulated delay plus the stored hop delay |
| Engine.GetDelayRereads | Classes.py:340-341 | after `getDelay` has computed the hop, a second call returns the stored hop delay |
| Engine.GetHopDelayStable | Classes.py:339-350 | the corrected reader gives the same answer and leaves the tables unchanged on every later call |
| Engine.GetHopDelayIsHop | Classes.py:339-350 | the corrected reader's tables and answer are those of one hop computation for the leaving target |
| Engine.TotalBacklogStored | Classes.py:333-337 | with every link's backlog known, the total is the sum of the stored backlogs and the tables are unchanged |
| Engine.EndToEndChain | Classes.py:115-122 | the end-to-end delay is the accumulated delay of the hop before the destination: that hop's delay at the source, else the upstream accumulated delay plus it |
| Analysis.HasPath | Classes.py:50-76 | the registering loop returns exactly the verdict and link list of `Topology.HasPath` |
| Analysis.Network.constructor | Classes.py:523-533 | a network over the given arena with the given stability flag and empty tables, so every lookup is a KeyError until the nodes are initialised |
| Analysis.Network.InitializeNodes | Classes.py:536-540 | the tables hold one uncomputed cell for every (node, link of the node) and nothing else (`initAllDicts`, Classes.py:181-199) |
| Analysis.Network.GetWorstCaseService | Classes.py:204-237 | the result and the new tables are those of `Engine.WorstService` |
| Analysis.Network.ServiceLoop | Classes.py:216-232 | the loop ends in the result and tables of `Engine.ServiceFold` over all the link's flows |
| Analysis.Network.ServiceHigher | Classes.py:219-228 | a higher-priority flow's upstream output is subtracted from the service, as the fold's next step prescribes; a failure is the fold's outcome |
| Analysis.Network.ComputeTargetArrivalAffine | Classes.py:239-310 | the result and the new tables are those of `Engine.Hop` |
| Analysis.Network.AggregateLoop | Classes.py:268-280 | the loop ends where `Engine.Aggregate` reaches `Finish`, or in its failure |
| Analysis.Network.AggregateFlow | Classes.py:271-280 | one upstream recomputation advances the aggregation by the step `Engine.Aggregate` takes |
| Analysis.Network.FinishHop | Classes.py:285-310 | the result and the new tables are those of `Engine.Finish` |
| Analysis.Network.GetTargetLeavingThroughLink | Classes.py:352-365 | the nested scans return exactly `Engine.TargetLeaving` |
| Analysis.Network.GetBacklog | Classes.py:320-331 | the result and the new tables are those of `Engine.GetBacklog` |
| Analysis.Network.GetDelay | Classes.py:339-350 | the result and the new tables are those of `Engine.GetDelay` (as written) |
| Analysis.Network.GetHopDelay | Classes.py:339-350 | the result and the new tables are those of `Engine.GetHopDelay` (corrected) |
| Analysis.Network.GetTotalBacklog | Classes.py:333-337 | the accumulator loop ends in the result and tables of `Engine.GetTotalBacklog` |
| Analysis.Network.ComputeEndToEndDelay | Classes.py:115-122 | the result and the new tables are those of `Engine.EndToEnd` |
| Analysis.Network.IsStable | Classes.py:569-597 | the two accumulator loops return exactly `Loads.Stable` |

## Left out

- Parser.py and Main.py are not part of this model. They read and write XML, resolve names to objects and print. The model starts from an already resolved arena.
- `interpretQuantity`, `createQuantity`, `printIfVerbose`, `affineCurvePrint`, every `__str__`, `Network.computeLoads`, and all `print` diagnostics are left out. They only format text.
- The `verbose` and `checkStability` globals are not modelled as global state. `checkStability` is a parameter of the engine functions and a constant field of `Network`.
- Floating point is left out. Numbers are exact reals, with no IEEE-754 rounding. Python's `x - x % 1` is `Floor`, which agrees with Python's floor-modulo for every sign.
- `float("inf")` as a curve parameter is left out. A hop whose delay is +inf ends the computation with the `Unbounded` error, because an infinite delay cannot shift a finite curve. Python would go on with inf/nan arithmetic.
- The recursion of `computeTargetArrivalAffine` carries a `fuel` depth bound. `OutOfFuel` stands where Python would recurse without end on a cyclic dependency between hops.
- Analysis.HasPath: the flow registrations are not written into the network in place; the method returns the new link list. `Network` is then built over the arena that list belongs to. The sharing of `link.flows` between targets is therefore not modelled.
- The engine's loop bodies are split into helper methods (`ServiceHigher`, `AggregateFlow`, `FinishHop`) to keep each proof small. The order of the operations is the source's.
- `AffineCurve.__div__` (Classes.py:28-29) is left out. Under Python 3 the `/` operator never calls it.
- The non-curve branch of `AffineCurve.__add__` (Classes.py:24-25) is left out. Every `+` in the core adds two curves.
- `Flow.__init__`'s jitter warning is left out; it only prints.
- Monotonicity of the end-to-end delay is stated for one hop only. A larger payload or a shorter period of one flow should never lower the end-to-end delay of a flow sharing a link with it. The model proves this for a single Theorem 1 delay whose service has positive rate (`Utils.Theorem1DelayGrowsWithBurst`). It does not state it across the whole fuel-bounded recursion and its tables. As written it does not hold in general. With `checkStability` off, higher-priority flows can drive the service rate below zero. A larger burst then gives a more negative `b/m` (Utils.py:99), as `Utils.Theorem1DelayOverloaded` shows.
- `Link.getPort` and `Network.getNode` are left out. The core never calls them, and the arena is addressed by index.
- Node coordinates, redundancy tags, switch buffer sizes and service policies are left out. No bound depends on them.
- `computeLoad`'s `self.network is None` exception is left out. Every link of the arena belongs to the network.
- Engine.WorstServiceSpec: states the intercept only when no flow outranks the query flow. Otherwise the intercept depends on the output bursts of the upstream hops, which the lemma does not characterise.
- Engine.GetTotalBacklog: its own contract only says that the tables grow. The sum itself is stated by `Engine.TotalBacklogStored` for the case where every backlog is already known.

## Notes on the code

- `Link.connectsSystems` is symmetric as written: the fall-through returns `None`, which is falsy. The model follows the code, and `Topology.ConnectsSystems` states the symmetry.
- The system's documentation expects an exact 1 ms hop delay to stay 1 ms after rounding. As written, `ceilWithUnit` adds one step at every unit it reaches, even for an exact multiple (`Utils.CeilAuto`).
  - So 0.001 s becomes 0.002 s at the milli unit and 0.002001 s at the micro unit.
  - The model follows the code.
- In the cached case the documentation says the other flows' contributions are reused. The code still looks up every flow's upstream target and previous node, and fails if they are missing (Classes.py:270-273). The model does the same.

## Findings

| source | as written | input that shows it | evidently intended | confidence | as-written member | corrected member |
|---|---|---|---|---|---|---|
| Classes.py:339-350 | When the delay of a link is not yet known, `getDelay` computes the hop and returns its `"delay"` entry. That entry is the delay accumulated since the leaving target's source. A cached call returns the hop delay stored for the link. | A chain S → W → D with one flow. A first `getDelay` at W for the link W–D returns d(S) + d(W); a second call returns d(W). | The hop delay stored for the link, as `getBacklog` returns the stored backlog. | not executed | Engine.GetDelay | Engine.GetHopDelay |

`Engine.GetDelayAccumulates` and `Engine.GetDelayRereads` exhibit the discrepancy on the as-written reader:

- the first call returns the upstream accumulated delay plus the hop delay;
- the next call returns the hop delay alone.

`Engine.GetHopDelayStable` and `Engine.GetHopDelayIsHop` prove the intended behaviour of the corrected reader: every call gives the same answer, and that answer is the stored delay of one hop computation. `Analysis.Network.GetHopDelay` is its imperative form.
