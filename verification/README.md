# Verified model of the Prequal load balancer

This project models, in Dafny, the decision logic and the concurrent protocols of a small
load-balancing testbed, and proves what they keep over all inputs and all runs.

- `Options.dfy`, `Runs.dfy`, `Tally.dfy`, `Order.dfy`: optional values; runs of a step function; sums of weights over
  sequences; sorting, order statistics and counting.
- `Probes.dfy`: the probe pool, a bounded in-place buffer of reusable load observations.
- `HotCold.dfy`: the RIF quantile, the hot-cold lexicographic (HCL) choice, and how eviction relates to it.
- `PoolProtocol.dfy`: probers, selectors and the remover sharing the pool, as interleaved atomic steps.
- `Reuse.dfy`: the reuse budget as a function of the replica count.
- `Smoothing.dfy`, `RoundRobin.dfy`: smoothed-latency weights and weighted sampling; fairness of a wrapping ticket.
- `Balancer.dfy`: the balancer object with its probing, removal and routing methods.
- `Accounting.dfy`: the balancer's request counters over all interleavings.
- `Latency.dfy`: the backend's RIF-indexed latency buckets.
- `Admission.dfy`: the backend's admission machine over its counter and its two bounded channels.
- `Percentiles.dfy`, `Phases.dfy`: nearest-rank percentiles, the deadline mapping, and the two log parsers.

## How the model is built

Objects that the program updates in place are classes (`Server`, `ProbeEntry`, `ProbePool`,
`LoadBalancer`, `LatencyBuckets`), with the program's loops and in-place updates; each method is proved
against a specification function (`AfterAdd`, `AfterMark`, `AfterRemoveWorst`, `FreshOf`, `PrequalChoice`,
`Recorded`, ...). The state machines in `PoolProtocol.dfy` and `Admission.dfy` are built from the same
functions, so what is proved of a run is proved of the operations the methods implement. A probe
entry's observation is immutable, so these functions do not read the heap.

Every lock-protected method, atomic update and channel operation is one atomic step. A selection is two
steps, snapshot and decision with its mark, and other steps may come between them. Floating-point numbers
are reals, times are integers, random draws are parameters, and a probe result is an arbitrary input.

Findings the proofs pin down:

- Concurrent selections can overuse an entry: the use count can reach MaxUses + K - 1 with K overlapping
  selections, and never more (`ReuseBound`, `ReuseBoundAttained`). So the budget bounds it over all runs exactly
  without overlap or in a pool of one cell, which is never used at all (`WithinBudgetIff`, `OneCellNeverUsed`).
- Load eviction and HCL use one rank with opposite signs, so at a common threshold eviction spares the choice
  (`EvictionSparesChoice`). The next selection recomputes the threshold, however. A load tick leaves it alone
  exactly when it takes no entry, a stale one, or one of a pool from which nothing was to be chosen; or when it takes
  another entry than the choice and leaves two fresh ones, and the choice is still cold or, with nothing healthy
  cold, has the least RIF (`TickKeepsSelectionIff`).
- "The pool keeps the newest probes" holds for an `Add` to a full pool exactly when the newcomer was not
  dispatched before the entry it evicts (`AddKeepsNewestIff`).
- The reuse budget falls with the number of replicas inside each regime. Whether it ever rises is decided by one
  comparison at the fleet size where the regime switches (`NeverRaisedIff`); with the shipped settings it jumps
  there from 1 to 66 (`BudgetJumpsAtSwitch`).
- Round robin stays fair across ticket wraps exactly for replica counts that divide 2^32 (`AlwaysFairIff`).
- The unvalidated smoothing factor keeps averages in range over all histories exactly when it lies in [0, 1]
  (`AverageInRangeIff`). A newcomer starts with weight 1 instead of 1000 / 20, so weights order a fleet inversely
  to its averages exactly when no newcomer stands beside a settled server with an average from 20 to 1000
  (`NewcomerOrderedIff`, `FleetOrderedIff`).
- Total = successful + failed holds at rest exactly when no proxied request failed (`TotalIsSumIff`).
- "queue_timeout" can be answered with every slot free (`TimeoutWithFreeSlots`).
- The deadline percentile is the deadline exactly when the errors reach its rank (`DeadlineHitIff`);
  mapping errors to the deadline can lower a percentile only if that percentile exceeds the deadline
  (`MappingNeverLowers`, `MappingLowersIff`, `SlowSuccessLowers`).

## Model

| member | source | states |
|---|---|---|
| Probes.ProbePool.constructor | pkg/loadbalancer/types.go:71-83 | an empty pool over one buffer of the configured size; non-positive sizes and ages fall back to 16 and one second |
| Probes.ProbePool.DeleteAt | pkg/loadbalancer/types.go:166-171 | the in-place left shift is exactly sequence deletion, within the same buffer |
| Probes.ProbePool.OldestIndex | pkg/loadbalancer/types.go:159-164 | the scan finds the leftmost entry with the smallest dispatch time |
| Probes.ProbePool.RemoveOldestLocked | pkg/loadbalancer/types.go:155-167 | an empty pool is left alone; otherwise exactly that oldest entry disappears |
| Probes.ProbePool.RemoveEntryLocked | pkg/loadbalancer/types.go:168-175 | removes the first occurrence of the entry and nothing else, or nothing if it has already gone |
| Probes.ProbePool.Add | pkg/loadbalancer/types.go:86-94 | below capacity appends; at capacity first evicts the leftmost entry of least timestamp, then appends; always within the original buffer |
| Probes.AddKeepsNewestIff | pkg/loadbalancer/types.go:85-94 | adding to a full pool keeps its size and the newcomer, and leaves nothing older than the evicted entry exactly when the newcomer is not older |
| Probes.ProbePool.Fresh | pkg/loadbalancer/types.go:97-109 | the snapshot is the stored entries whose age is at most the limit, in order, and the pool is unchanged |
| Probes.ProbePool.MarkUsed | pkg/loadbalancer/types.go:112-120 | charges one use to this entry only, and removes it if its budget is reached and it is still stored |
| Probes.ProbePool.WorstEntry | pkg/loadbalancer/types.go:135-144 | the scan finds the leftmost maximum of the rank that HCL minimises |
| Probes.ProbePool.RemoveWorst | pkg/loadbalancer/types.go:123-146 | a non-empty pool loses exactly one entry: in oldest mode the leftmost of least timestamp, in load mode the leftmost of highest rank |
| Probes.OldestMeans | pkg/loadbalancer/types.go:159-164 | in plain terms the oldest entry is the first of least timestamp |
| Probes.WorstMeans | pkg/loadbalancer/types.go:135-144 | and the worst one is the first of largest RIF if any entry is hot, otherwise the first of largest latency |
| Probes.TwoTicksTakeTwo | pkg/loadbalancer/balancer.go:286-294 | two successive evictions in alternating modes take two of at least two entries, an oldest and a worst one |
| HotCold.RifQuantile | pkg/loadbalancer/balancer.go:618-638 | computes the order statistic at the quantile's position, 0 for no entries |
| HotCold.ThresholdIsLeast | pkg/loadbalancer/balancer.go:618-638 | for every q the threshold is an observed RIF, and the least value leaving at least floor((n-1)c)+1 of n entries cold, c being q confined to [0, 1] |
| HotCold.ThresholdMonotone | pkg/loadbalancer/balancer.go:627-637 | a larger quantile never lowers the threshold, for all quantiles |
| HotCold.ThresholdByMultiset | pkg/loadbalancer/balancer.go:622-626 | the threshold depends only on the multiset of RIFs |
| HotCold.HclIndex | pkg/loadbalancer/balancer.go:401-430 | the choice is the leftmost minimum, over entries of healthy servers, of the rank cold before hot, latency if cold, RIF if hot; none exactly when no server is healthy |
| HotCold.ChoiceUnique | pkg/loadbalancer/balancer.go:401-430 | only one entry has that property |
| HotCold.ChoiceMeans | pkg/loadbalancer/balancer.go:401-430 | in plain terms the choice is the first of least latency among the cold entries of healthy servers, or if there are none the first of least RIF among all entries of healthy servers |
| HotCold.ChargedMeans | pkg/loadbalancer/balancer.go:391-438 | so is the entry a Prequal selection charges, at the snapshot's own threshold |
| HotCold.FallbackIff | pkg/loadbalancer/balancer.go:395-397 | the random fallback is taken exactly with fewer than two fresh entries or no healthy one |
| HotCold.HotBranchIff | pkg/loadbalancer/balancer.go:414-430 | some entry is always cold, and a hot entry is chosen exactly when all cold entries belong to unhealthy servers |
| HotCold.EvictionSparesChoice | pkg/loadbalancer/types.go:134-145 | at a common threshold, load eviction takes HCL's choice only if all healthy fresh entries tie with it; otherwise the same entry is chosen afterwards |
| HotCold.EvictionKeepsBestRank | pkg/loadbalancer/types.go:134-145 | as long as a healthy fresh entry is left, the rank HCL achieves is the same before and after the eviction |
| HotCold.HotLossLowersThreshold | pkg/loadbalancer/balancer.go:618-638 | evicting a hot entry never raises the recomputed threshold |
| HotCold.VictimLossLowersThreshold | pkg/loadbalancer/types.go:134-145 | nor does losing the victim of load eviction, which is cold only if every entry is |
| HotCold.ChoiceSurvivesIff | pkg/loadbalancer/balancer.go:399-430 | when the threshold drops and another entry is lost, the choice stays exactly when it is still cold, or no healthy entry is cold and it is the first of least RIF |
| HotCold.TickKeepsSelectionIff | pkg/loadbalancer/balancer.go:286-294 | the next selection is the same with and without a load tick, for every duplicate-free pool, health set and quantile, exactly when the tick is idle (nothing or a stale entry evicted, or nothing to be chosen) or spares the choice (three fresh entries before, another one evicted, and the choice still cold, or nothing healthy cold and the choice of least RIF) |
| HotCold.RecomputedThresholdMovesChoice | pkg/loadbalancer/balancer.go:286-294 | a family of three-entry pools in which the tick moves the choice, by evicting the only hot entry or the slowest of cold ones |
| PoolProtocol.StepKeepsInv | pkg/loadbalancer/types.go:86-146 | every add, snapshot, decision and eviction keeps: pool bounded, distinct, unexhausted; uses plus holders at most MaxUses - 1 + K |
| PoolProtocol.RunKeepsInv | pkg/loadbalancer/types.go:86-146 | so does every interleaved run |
| PoolProtocol.PoolSafety | pkg/loadbalancer/types.go:63-120 | over all runs the pool is bounded, has no duplicates and stores no entry whose uses reached MaxUses |
| PoolProtocol.ReuseBound | pkg/loadbalancer/types.go:97-120 | with K selections in progress at most, no entry ever added is used more than MaxUses + K - 1 times |
| PoolProtocol.ReuseBoundAttained | pkg/loadbalancer/types.go:97-120 | for every K >= 1, budget, quantile and pool of at least two cells some run reaches exactly that count |
| PoolProtocol.WithinBudgetIff | pkg/loadbalancer/types.go:112-120 | use counts stay within MaxUses over all runs exactly when at most one selection is in progress at a time or the pool has one cell |
| PoolProtocol.DepartedOnlyDrains | pkg/loadbalancer/types.go:112-120 | an evicted entry never returns, and is used afterwards at most once by each selector that held it |
| PoolProtocol.OneCellNeverUsed | pkg/loadbalancer/balancer.go:395-397 | with a pool of one cell no entry is ever used, in any run |
| PoolProtocol.EnabledIff | pkg/loadbalancer/types.go:86-146 | in reachable states the guards exclude nothing: any idle selector may take a snapshot, any one that holds a snapshot may decide, a new probe may be added, an eviction may happen |
| PoolProtocol.EvictTakesOne | pkg/loadbalancer/types.go:123-146 | an eviction takes exactly one entry, charges nothing and leaves snapshots alone |
| PoolProtocol.DecisionCharges | pkg/loadbalancer/balancer.go:391-438 | a decision frees its selector and charges one use to one entry of a healthy server in its snapshot, which leaves the pool at its budget; or nothing in the fallback case |
| Reuse.BudgetAtLeastOne | pkg/loadbalancer/balancer.go:333-360 | the budget is at least 1 for every configuration and fleet, and 1 without replicas |
| Reuse.TruncateMeans | pkg/loadbalancer/balancer.go:349-359 | conversion to an integer takes the whole part of a non-negative value and is odd |
| Reuse.FallbackIff | pkg/loadbalancer/balancer.go:346-347 | the fallback applies exactly when n(rate - removals) <= poolSize * rate |
| Reuse.FallbackCoversPool | pkg/loadbalancer/balancer.go:347-353 | in the fallback n * budget exceeds the pool size |
| Reuse.FallbackBudget | pkg/loadbalancer/balancer.go:347-353 | there it is poolSize / n + 1 in whole numbers, or 1 for a negative pool size |
| Reuse.FormulaBudget | pkg/loadbalancer/balancer.go:355-359 | otherwise the budget is the largest whole number times the denominator within 1 + drift, but at least 1 |
| Reuse.FormulaBudgetCleared | pkg/loadbalancer/balancer.go:343-359 | without divisions: the largest whole b with b (n (rate - removals) - poolSize rate) <= n (1 + drift), but at least 1 |
| Reuse.RegimeSwitchesOnce | pkg/loadbalancer/balancer.go:346-347 | a growing fleet leaves the fallback at most once |
| Reuse.BudgetShrinksInRegime | pkg/loadbalancer/balancer.go:346-359 | within a regime more replicas never raise the budget |
| Reuse.BudgetNotRaisedIff | pkg/loadbalancer/balancer.go:346-359 | between two fleet sizes the budget does not rise exactly when they are in one regime, or 1 + drift < (poolSize / n1 + 2) times the larger fleet's denominator |
| Reuse.NeverRaisedIff | pkg/loadbalancer/balancer.go:346-359 | the budget never rises over all pairs of fleet sizes exactly when that comparison holds at the switch |
| Reuse.BudgetJumpsAtSwitch | pkg/loadbalancer/balancer.go:346-359 | with the shipped settings it fails: the switch is after 32 replicas and the budget rises from 1 to 66 |
| Smoothing.SmoothBetween | pkg/loadbalancer/balancer.go:310-322 | with a factor in [0, 1] a positive average stays positive and between itself and the sample |
| Smoothing.StaysBetweenIff | pkg/loadbalancer/balancer.go:317-322 | this holds for all positive averages and samples exactly when the factor lies in [0, 1] |
| Smoothing.AverageInRangeIff | pkg/loadbalancer/balancer.go:306-325 | the average stays in every interval holding its start and all positive samples, over all histories, exactly when the factor lies in [0, 1] |
| Smoothing.ConstantSamplesIff | pkg/loadbalancer/balancer.go:306-325 | rounds of one positive latency L give L + (1-a)^k (start - L) for all k up to n, for any factor a and start, exactly when a is 1 or none of these values before the n-th is zero or negative |
| Smoothing.ConstantSamples | pkg/loadbalancer/balancer.go:306-325 | so they do for every k if a lies in [0, 1] and the start is positive |
| Smoothing.WeightsInvertOrder | pkg/loadbalancer/balancer.go:323 | weight times average is 1000, and weights order servers inversely to averages, both ways |
| Smoothing.WeightsInvertOrderIff | pkg/loadbalancer/balancer.go:323 | with averages that may have become negative this order holds exactly between averages of one sign |
| Smoothing.PickedIff | pkg/loadbalancer/balancer.go:458-465 | candidate i owns exactly the picks in (prefix i, prefix i + weight i], and pick 0 goes to the first |
| Smoothing.SomeonePicked | pkg/loadbalancer/balancer.go:454-466 | for any weights with a positive total every draw in [0, 1) has exactly one candidate at which the loop returns, so the return after it is unreachable |
| Smoothing.OwnsDrawIff | pkg/loadbalancer/balancer.go:454-466 | if no weight is negative, that is the candidate with prefix < r * total <= prefix + weight (or the first for r = 0) |
| RoundRobin.FairWithoutWrap | pkg/loadbalancer/balancer.go:485-494 | in any k consecutive tickets without a wrap each of n servers is chosen floor(k/n) or ceiling(k/n) times |
| RoundRobin.FairnessPerWrap | pkg/loadbalancer/balancer.go:492-493 | any two servers' counts differ by at most 1 plus the number of ticket wraps |
| RoundRobin.AlwaysFairIff | pkg/loadbalancer/balancer.go:492-493 | counts never differ by more than 1, over all runs, exactly when n divides 2^32 |
| RoundRobin.NextTicketShifts | pkg/loadbalancer/balancer.go:492-493 | the choices from ticket + 1 modulo 2^32 on are those from the ticket on, one later |
| RoundRobin.CallsAreFair | pkg/loadbalancer/balancer.go:485-494 | over successive calls with increasing tickets the multiplicities of the results obey both fairness bounds |
| Balancer.DrawsAreDistinctPairs | pkg/loadbalancer/balancer.go:535-538 | the two draws hit ordered pairs of distinct candidates only, every one of them, each in exactly one way |
| Balancer.RoundRobinIsFair | pkg/loadbalancer/balancer.go:485-494 | k successive SelectRoundRobin calls, as their contract describes them, on a fixed healthy set return each server floor(k/n) or ceiling(k/n) times without a wrap, and differ by at most 1 plus the wraps |
| Balancer.HealthyInOrder | pkg/loadbalancer/balancer.go:607-615 | the healthy servers of a list are those of its parts, in order |
| Balancer.SidesRefineHcl | pkg/loadbalancer/balancer.go:401-430 | partition plus two scans refine the leftmost minimum of the lexicographic rank, for every snapshot, health set and threshold |
| Balancer.SplitHotCold | pkg/loadbalancer/balancer.go:401-411 | the two sides are the healthy servers' entries at most and above the threshold, in snapshot order |
| Balancer.LeastLatency | pkg/loadbalancer/balancer.go:414-421 | the first of the cold entries with minimal latency; no cold entry is faster |
| Balancer.LeastRif | pkg/loadbalancer/balancer.go:422-430 | the first of the hot entries with minimal RIF; no hot entry has less |
| Balancer.DecideHcl | pkg/loadbalancer/balancer.go:399-434 | partition and scans together return exactly the one entry HclIndex specifies, or null when it has none |
| Balancer.TotalWeight | pkg/loadbalancer/balancer.go:450-453 | the first loop sums the candidates' weights |
| Balancer.PickByWeight | pkg/loadbalancer/balancer.go:459-466 | the second loop returns the first candidate whose cumulative weight reaches the pick |
| Balancer.UpdateWeight | pkg/loadbalancer/balancer.go:310-323 | one server's new average and weight, for any factor, including the ignored-sample and non-positive-average branches |
| Balancer.RoundMeans | pkg/loadbalancer/balancer.go:306-325 | a round moves a positive average by the factor's share of its gap to a positive latency, ignores other latencies, starts a non-positive average afresh, and leaves weight times average at 1000 |
| Balancer.RoundOrdersIff | pkg/loadbalancer/balancer.go:306-325 | after a round with positive samples, weights order two servers inversely to their new averages exactly when these have one sign, as they do for factors in [0, 1] |
| Balancer.NewcomerOrderedIff | pkg/loadbalancer/balancer.go:104-111 | a server as registration leaves it and a settled one with average e are weighted inversely to their averages, ties included, exactly when e < 20 or e > 1000 |
| Balancer.FleetOrderedIff | pkg/loadbalancer/balancer.go:104-111 | a fleet of newcomers and settled servers is ordered inversely, pair by pair, exactly when it has no newcomer beside a settled server with 20 <= e <= 1000 |
| Balancer.LoadBalancer.constructor | pkg/loadbalancer/balancer.go:39-101 | defaults replace zero settings, the quantile is clamped to [0, 1], no servers and an empty pool |
| Balancer.LoadBalancer.AddServer | pkg/loadbalancer/balancer.go:104-111 | appends the server with weight 1 and average 20, leaving its other state alone; servers stay distinct exactly if it was not registered before |
| Balancer.LoadBalancer.PeriodicProbe | pkg/loadbalancer/balancer.go:142-181 | stores an observation, healthy or not, with zero uses and a budget of at least 1 for the current fleet |
| Balancer.LoadBalancer.AsyncProbe | pkg/loadbalancer/balancer.go:260-280 | a per-request probe does the same if healthy and has no effect otherwise |
| Balancer.LoadBalancer.CurrentRifThreshold | pkg/loadbalancer/balancer.go:363-369 | the quantile of the fresh entries, 0 when there are none |
| Balancer.LoadBalancer.RemoverTick | pkg/loadbalancer/balancer.go:286-294 | ticks alternate, starting with the oldest entry, evict at the current threshold, and each takes exactly one entry of a non-empty pool |
| Balancer.LoadBalancer.HealthyServersLocked | pkg/loadbalancer/balancer.go:607-615 | exactly the healthy servers, in registration order |
| Balancer.LoadBalancer.SelectRandom | pkg/loadbalancer/balancer.go:496-504 | the drawn healthy server, or none |
| Balancer.LoadBalancer.Decide | pkg/loadbalancer/balancer.go:391-434 | null exactly with fewer than two fresh entries or no healthy one; otherwise a fresh entry of a healthy server, of least latency among the cold ones or, with none cold, of least RIF |
| Balancer.LoadBalancer.SelectPrequal | pkg/loadbalancer/balancer.go:391-438 | a choice charges exactly that entry and returns its server; without one a random healthy server is returned and pool and use counts stay |
| Balancer.LoadBalancer.SelectWeightedRR | pkg/loadbalancer/balancer.go:441-467 | the one candidate at which the scan ends for r * total, and with non-negative weights the one whose share of the total holds it; the plain draw if no weight is positive; none without candidates |
| Balancer.LoadBalancer.SelectRoundRobin | pkg/loadbalancer/balancer.go:485-494 | candidate number ticket mod n; the ticket becomes (ticket + 1) mod 2^32, and only if there are candidates |
| Balancer.LoadBalancer.SelectLlPo2C | pkg/loadbalancer/balancer.go:524-544 | the less loaded of two candidates drawn, the first on a tie; with distinct servers some other candidate is at least as busy, so never a strictly busiest server |
| Balancer.LoadBalancer.RecomputeWrrWeights | pkg/loadbalancer/balancer.go:306-325 | every one of distinct servers goes through exactly one smoothing round |
| Accounting.RunKeepsInv | pkg/loadbalancer/balancer.go:546-605 | every interleaving keeps the counters equal to what they count |
| Accounting.CountersExact | pkg/loadbalancer/balancer.go:546-605 | client RIF is the number of requests being forwarded to a server; total = successful + no-server + in flight; failed = no-server + proxy errors |
| Accounting.TotalIsSumIff | pkg/loadbalancer/balancer.go:571-600 | at rest all servers are idle, and total = successful + failed exactly when no proxied request had an error |
| Accounting.ForwardedWhereChosen | pkg/loadbalancer/balancer.go:546-605 | however others interleave, forwarding raises the RIF of the server chosen for the request and of no other |
| Accounting.ReleasedWhereForwarded | pkg/loadbalancer/balancer.go:546-605 | and its end lowers that one again, with or without an error |
| Accounting.ForwardedRoundTrip | pkg/loadbalancer/balancer.go:546-605 | from any state a request can run to its end through any server; that restores every RIF and adds one request, one success, and one failure if the proxy reported an error |
| Accounting.TurnedAwayRoundTrip | pkg/loadbalancer/balancer.go:546-562 | one without a server adds one request and one failure |
| Latency.BucketIsLogWindow | backend/main.go:38-53 | a bucket has min(50, count) elements and agrees, counted from the end, with all successful latencies logged at its clamped RIF |
| Latency.LatenciesInOrder | backend/main.go:38-53 | the latencies of a log are those of its parts, in order |
| Latency.ClampIsNearest | backend/main.go:39-45 | the bucket index lies between the RIF and every other index from 0 to 31 |
| Latency.NearestMeans | backend/main.go:63-81 | the nearest bucket without distances: i < j < 2b - i or i = j for every non-empty i <= b, 2b - i <= j <= i for every non-empty i > b |
| Latency.UpperMedianCounts | backend/main.go:92 | the reported median is a sample, and the least one that more than half of the samples do not exceed |
| Latency.EstimateUnique | backend/main.go:55-93 | the estimate's specification determines it |
| Latency.EstimateFromLog | backend/main.go:55-93 | 0 before the first success, afterwards the upper median of the nearest bucket with any, which is a latency logged there |
| Latency.SiftDown | backend/main.go:88-90 | the inner loop extends the sorted front by one element and permutes the samples |
| Latency.InsertionSort | backend/main.go:87-91 | the in-place sort yields the sorted rearrangement of the samples |
| Latency.MedianOf | backend/main.go:86-92 | sorting a copy and taking the middle yields the upper median |
| Latency.LatencyBuckets.constructor | backend/main.go:32-36 | 32 empty buckets |
| Latency.LatencyBuckets.Record | backend/main.go:38-53 | the clamped bucket becomes its last 49 samples followed by the new one, all others stay |
| Latency.LatencyBuckets.NearestSamples | backend/main.go:63-81 | the search finds the nearest non-empty bucket, lower first, or none if all are empty |
| Latency.LatencyBuckets.MedianAtRif | backend/main.go:55-93 | returns the upper median of the nearest non-empty bucket, or 0, and leaves the buckets unchanged |
| Admission.StepKeepsInv | backend/main.go:184-237 | every atomic step keeps the counters exact, the channels within capacity and the buckets equal to the replayed log |
| Admission.CountersExact | backend/main.go:140-218 | in every reachable state RIF, backlog and slots are the numbers of live, backlog-holding and slot-holding requests; slots <= backlog <= RIF, slots <= maxConc, backlog <= 3 maxConc |
| Admission.ReleasesNeverBlock | backend/main.go:189-212 | no deferred release of a returning handler can block |
| Admission.OverloadedMeansFull | backend/main.go:198-205 | "overloaded" is decided only with at least 3 maxConc + 1 live requests |
| Admission.BucketsMatchHistory | backend/main.go:189-195 | in every reachable state each bucket is the window of the success log, whose RIFs are, as a multiset, the non-negative arrival RIFs of the fully returned served requests |
| Admission.ArrivalSeesLive | backend/main.go:184-185 | a request arrives with the number of requests live just before it |
| Admission.LogGrowsIff | backend/main.go:189-195 | the log grows exactly when a served request finishes, by its arrival RIF and the latency measured then |
| Admission.OverloadedIff | backend/main.go:198-205 | a request at the backlog is turned away exactly when 3 maxConc requests hold a place in it |
| Admission.SlotIff | backend/main.go:208-218 | a waiting request can take a slot exactly when fewer than maxConc hold one, and time out exactly when its timer fired |
| Admission.UncontendedRoundTrip | backend/main.go:184-237 | from any state with room in both channels a newcomer can be served to its end; that restores RIF, backlog and slots and adds exactly its success, whatever its latency |
| Admission.TimeoutWithFreeSlots | backend/main.go:208-218 | a request can be answered "queue_timeout" with every slot free |
| Admission.RunsAreBounded | backend/main.go:184-237 | a run with n arrivals has at most 10 n steps |
| Admission.NobodyStuck | backend/main.go:197-218 | every unfinished request has an enabled step of its own in every reachable state |
| Admission.QuiescentMeansEmpty | backend/main.go:184-237 | when nothing but an arrival can happen, all requests are finished and RIF, backlog and slots are 0 |
| Percentiles.NearestRank | experiments/postprocess_deadline.py:43-47 | for 0 < q <= 100 the percentile is the least value that at least q percent of the sample do not exceed, a value of the sample, and missing only for an empty one |
| Percentiles.RankIndexMonotone | experiments/postprocess_deadline.py:46-47 | the rank index never falls as the sample grows, for every q |
| Percentiles.ErrorsReachIff | experiments/postprocess_deadline.py:46-47 | the top e of n values reach rank q exactly under ErrorsReach(e, n, q) |
| Percentiles.ErrorFraction | report/report.md:226 | for 0 < q <= 100 that condition is: error fraction above 1 - q/100 |
| Percentiles.DeadlineHitIff | experiments/postprocess_deadline.py:43-47 | with all successes below the deadline, the mapped percentile is the deadline exactly when the errors reach its rank, and a real success latency otherwise |
| Percentiles.MappingNeverLowers | experiments/postprocess_deadline.py:151-160 | a 2xx percentile within the deadline is never lowered by the mapping |
| Percentiles.MappingLowersIff | experiments/postprocess_deadline.py:151-160 | in general it is lowered exactly when it exceeds the deadline far enough for the inserted errors to push it past its new rank |
| Percentiles.SlowSuccessLowers | experiments/postprocess_deadline.py:151-160 | a success slower than the deadline really can be lowered |
| Phases.CountSuccess | experiments/experiment1.py:94-120 | one kept row's effect in the experiment's parser |
| Phases.CountWithDeadline | experiments/postprocess_deadline.py:133-160 | one kept row's effect in the post-processor |
| Phases.SuccessMeans | experiments/experiment1.py:94-112 | a success has a status from 200 up to but not including 300; a missing one is no success |
| Phases.StatusMeans | experiments/experiment1.py:94-108 | a status is counted under its truncated value, "unknown" if that is 0 or missing |
| Phases.LatencyMeans | experiments/experiment1.py:113 | microseconds against seconds: a latency is below a bound exactly when the response time is |
| Phases.BinMeans | experiments/experiment1.py:98-103 | bin k > 0 takes the offsets from k to k + 1 bin lengths, bin 0 all earlier and missing ones |
| Phases.BinReports | experiments/experiment1.py:122-151 | just enough bins to cover the duration, one report each, empty bins included |
| Phases.ReportMeans | experiments/experiment1.py:140-143 | the four reported percentiles are the least latencies that 50, 90, 99 and 99.9 percent of the bin's do not exceed |
| Phases.ReportOrdered | experiments/experiment1.py:140-144 | p50 <= p90 <= p99 <= p99.9; all of them and the average are missing exactly without latencies |
| Phases.ParsePhase2xxLatency | experiments/experiment1.py:75-169 | just enough bins to cover the duration; every bin report and the summary are those of the kept rows of that bin and of the phase, with 2xx latencies only, and have ordered percentiles |
| Phases.BuildDeadlinePhase | experiments/postprocess_deadline.py:118-220 | the same, with the deadline as latency of every error; for timely rows each of the four percentiles of each non-empty report is the deadline exactly when the reported errors reach its rank |
| Phases.ParsersAgree | experiments/postprocess_deadline.py:145-158 | on the same rows both parsers report the same totals, successes, errors and status counts, with ok + err = total = sum of status counts |
| Phases.BinTotalsAddUp | experiments/postprocess_deadline.py:162-189 | bin totals plus the rows beyond the last bin equal the phase total |
| Phases.DeadlineSample | experiments/postprocess_deadline.py:151-160 | the deadline sample is the 2xx sample plus one deadline per error, as multisets |
| Phases.DeadlinePercentile | experiments/postprocess_deadline.py:182-185 | so each of its percentiles is that of the mapped 2xx sample |
| Phases.ReportedDeadlineIff | experiments/postprocess_deadline.py:162-218 | end to end: for timely rows each reported percentile is the deadline exactly when the reported error count reaches its rank in the reported total |
| Phases.ReportedNeverLower | experiments/postprocess_deadline.py:162-218 | end to end: each reported percentile is at least the 2xx-only one reported for the same rows, if that is within the deadline |
| Phases.DeadlineAverage | experiments/postprocess_deadline.py:186 | the deadline average is the 2xx average weighted by successes plus the deadline weighted by errors |

## Left out

- Balancer.UpdateWeight: requires that the new average is not exactly zero, which only a factor outside [0, 1] can make it; the program's weight is then infinite.
- Balancer.LoadBalancer.RecomputeWrrWeights: requires the same of every server, and distinct servers; a server registered twice would go through two rounds.
- Balancer.LoadBalancer.SelectPrequal: the method is one uninterrupted selection; interference between snapshot and mark is in PoolProtocol, where the health flags are read as one set per decision.
- Probes.ProbePool.Fresh: the snapshot is a value, so that later operations cannot change it holds by construction.
- PoolProtocol.ReuseBound: counts overlapping selections by K reusable cells instead of an unbounded number of goroutines with at most K of them between snapshot and mark.
- Unlocked reads of health, weight and client RIF: each decision reads them at one instant.
- HTTP, the reverse proxy and its panics, probe transport, header and URL parsing, metrics, logging and signals.
- Server RIF and CPU load fields of a server: no policy reads them.
- Which servers a request's probes go to, and how many: a random permutation's prefix.
- Least-loaded selection and policy dispatch: a plain minimum scan and a switch.
- The weight update after proxied requests: nothing calls it.
- Floating-point rounding, not-a-number settings and overflow of 32- and 64-bit counters, except the round-robin ticket.
- Randomness: facts hold for every draw; there are no statements about probabilities.
- CPU work, sleeps and environment parsing of the backend, and its probe endpoint, which changes no state.
- Report columns that only scale counts (rates and percentages), copy phase settings or format times.
- Infinite or not-a-number fields of the raw log.
- Smoothing windows, plots, samplers, run orchestration and the other experiments.
