/** The load balancer object: its server list, probe pool and round-robin ticket, and the
    routing policies that read and update them. */
module Balancer {
  import opened Options
  import opened Probes
  import opened HotCold
  import Smoothing
  import RoundRobin
  import Reuse

  /** What one probe of a backend yields; a missing RIF header is reported as -1. */
  datatype ProbeResult = ProbeResult(healthy: bool, rif: int, latencyMs: int)

  /** Zero-valued settings stand for the defaults. */
  function WithDefaults(t: Reuse.Tuning): Reuse.Tuning {
    Reuse.Tuning(
      if t.poolSize == 0 then 16 else t.poolSize,
      if t.probeRate == 0.0 then 2.0 else t.probeRate,
      if t.removeRate == 0.0 then 1.0 else t.removeRate,
      if t.drift == 0.0 then 1.0 else t.drift)
  }

  // ---- Views of the server list --------------------------------------------------------------

  function HealthyOf(servers: seq<Server>): (r: seq<Server>)
    reads servers
    ensures |r| <= |servers|
    ensures forall s | s in r :: s in servers && s.isHealthy
    ensures forall s | s in servers && s.isHealthy :: s in r
  {
    if servers == [] then []
    else
      var last := servers[|servers| - 1];
      var front := HealthyOf(servers[..|servers| - 1]);
      if last.isHealthy then front + [last] else front
  }

  function WeightsOf(servers: seq<Server>): (r: seq<real>)
    reads servers
    ensures |r| == |servers| && forall i | 0 <= i < |r| :: r[i] == servers[i].weight
  {
    if servers == [] then []
    else WeightsOf(servers[..|servers| - 1]) + [servers[|servers| - 1].weight]
  }

  /** The servers of these entries that are healthy right now. */
  ghost function UpServers(entries: seq<ProbeEntry>): (up: set<Server>)
    reads set e | e in entries :: e.server
    ensures forall e | e in entries :: e.server in up <==> e.server.isHealthy
  {
    set e | e in entries && e.server.isHealthy :: e.server
  }

  ghost predicate DistinctServers(servers: seq<Server>) {
    forall i, j | 0 <= i < j < |servers| :: servers[i] != servers[j]
  }

  lemma HealthyOne(s: Server)
    ensures HealthyOf([s]) == if s.isHealthy then [s] else []
  {
    assert [s][..0] == [];
  }

  /** The healthy servers keep the order of the list. */
  lemma {:induction false} HealthyInOrder(front: seq<Server>, back: seq<Server>)
    ensures HealthyOf(front + back) == HealthyOf(front) + HealthyOf(back)
  {
    if back == [] {
      assert front + back == front;
    } else {
      var last := |back| - 1;
      assert (front + back)[..|front + back| - 1] == front + back[..last];
      HealthyInOrder(front, back[..last]);
    }
  }

  lemma {:induction false} HealthyDistinct(servers: seq<Server>)
    requires DistinctServers(servers)
    ensures DistinctServers(HealthyOf(servers))
  {
    if servers != [] {
      HealthyDistinct(servers[..|servers| - 1]);
    }
  }

  // ---- The uint32 ticket ---------------------------------------------------------------------

  /** Subtracting 1 from the incremented uint32 ticket gives the old one back, also across the wrap. */
  lemma TicketRoundTrip(t: nat)
    requires t < 0x1_0000_0000
    ensures ((t + 1) % 0x1_0000_0000 + 0x1_0000_0000 - 1) % 0x1_0000_0000 == t
  {
    if t + 1 < RoundRobin.WRAP {
      RoundRobin.ModuloSmall(t + 1, RoundRobin.WRAP);
      RoundRobin.ModuloShift(t, RoundRobin.WRAP);
      RoundRobin.ModuloSmall(t, RoundRobin.WRAP);
    }
  }

  /** k successive round-robin selections over a fixed list of distinct healthy servers, as their
      contract describes them, serve every server floor(k/n) or ceiling(k/n) times while the ticket
      does not wrap, and any two servers equally up to 1 plus the number of wraps. */
  lemma RoundRobinIsFair(tickets: seq<nat>, candidates: seq<Server>, picked: seq<Server>, a: Server, b: Server)
    requires |picked| == |tickets| > 0 && tickets[0] < 0x1_0000_0000
    requires forall c | 0 <= c < |tickets| - 1 :: tickets[c + 1] == (tickets[c] + 1) % 0x1_0000_0000
    requires DistinctServers(candidates) && a in candidates && b in candidates
    requires forall c | 0 <= c < |picked| :: picked[c] == candidates[tickets[c] % |candidates|]
    ensures var k, n, times := |picked|, |candidates|, multiset(picked);
      && (tickets[0] + k <= 0x1_0000_0000 ==> k / n <= times[a] <= (k + n - 1) / n)
      && times[a] - times[b] <= 1 + (tickets[0] + k - 1) / 0x1_0000_0000
  {
    var i :| 0 <= i < |candidates| && candidates[i] == a;
    var j :| 0 <= j < |candidates| && candidates[j] == b;
    RoundRobin.CallsAreFair(tickets, candidates, picked, i, j);
  }

  // ---- Power of two choices ------------------------------------------------------------------

  /** The second draw is over one index less and skips the first. */
  function SecondIndex(first: nat, draw: nat): nat {
    if draw >= first then draw + 1 else draw
  }

  /** The two draws hit every ordered pair of distinct candidates in exactly one way. */
  lemma DrawsAreDistinctPairs(n: nat, first: nat, second: nat)
    requires first < n && second < n
    ensures forall draw: nat | draw + 1 < n :: SecondIndex(first, draw) < n
    ensures first != second <==> exists draw: nat :: draw + 1 < n && SecondIndex(first, draw) == second
    ensures forall d1: nat, d2: nat | SecondIndex(first, d1) == SecondIndex(first, d2) :: d1 == d2
  {
    if first != second {
      var draw := if second > first then second - 1 else second;
      assert SecondIndex(first, draw) == second;
    }
  }

  // ---- The hot-cold split as the selector computes it --------------------------------------

  /** The entries of `up` servers on one side of the threshold, in snapshot order. */
  function SideOf(snapshot: seq<ProbeEntry>, up: set<Server>, threshold: int, hot: bool): (r: seq<ProbeEntry>)
    ensures forall e | e in r :: e in snapshot && e.server in up && (e.rif > threshold) == hot
  {
    if snapshot == [] then []
    else
      var last := snapshot[|snapshot| - 1];
      var front := SideOf(snapshot[..|snapshot| - 1], up, threshold, hot);
      if last.server in up && (last.rif > threshold) == hot then front + [last] else front
  }

  function LatencyKey(): ProbeEntry -> Key {
    (e: ProbeEntry) => Key(0, e.latencyMs)
  }

  function RifKey(): ProbeEntry -> Key {
    (e: ProbeEntry) => Key(0, e.rif)
  }

  /** What partition and scans come to: the least latency on the cold side, else the least RIF on
      the hot side. */
  function ChosenBySides(cold: seq<ProbeEntry>, hot: seq<ProbeEntry>): Option<ProbeEntry> {
    if cold != [] then Some(cold[ArgMin(cold, LatencyKey())])
    else if hot != [] then Some(hot[ArgMin(hot, RifKey())])
    else None
  }

  lemma ArgMinAppend(s: seq<ProbeEntry>, e: ProbeEntry, key: ProbeEntry -> Key)
    requires s != []
    ensures (s + [e])[ArgMin(s + [e], key)] == if Less(key(e), key(s[ArgMin(s, key)])) then e else s[ArgMin(s, key)]
  {
    assert (s + [e])[..|s|] == s;
  }

  /** Of the choice so far and a later entry, the earlier one stays unless the later ranks lower. */
  function Better(before: Option<ProbeEntry>, e: ProbeEntry, threshold: int): Option<ProbeEntry> {
    if before.Some? && !Less(HclRank(e, threshold), HclRank(before.value, threshold)) then before else Some(e)
  }

  /** One more entry of an `up` server changes both sides' verdict as it changes HCL's. */
  lemma SidesStep(cold: seq<ProbeEntry>, hot: seq<ProbeEntry>, e: ProbeEntry, threshold: int)
    requires forall x | x in cold :: x.rif <= threshold
    requires forall x | x in hot :: x.rif > threshold
    ensures ChosenBySides(if e.rif > threshold then cold else cold + [e], if e.rif > threshold then hot + [e] else hot)
         == Better(ChosenBySides(cold, hot), e, threshold)
  {
    if e.rif > threshold {
      if hot != [] { ArgMinAppend(hot, e, RifKey()); }
    } else {
      if cold != [] { ArgMinAppend(cold, e, LatencyKey()); }
    }
  }

  lemma HclStep(snapshot: seq<ProbeEntry>, up: set<Server>, threshold: int)
    requires snapshot != []
    ensures var front, last := snapshot[..|snapshot| - 1], snapshot[|snapshot| - 1];
      HclEntry(snapshot, up, threshold)
      == if last.server in up then Better(HclEntry(front, up, threshold), last, threshold)
         else HclEntry(front, up, threshold)
  {}

  /** Partition plus two scans refine the one-scan specification of HCL, for every snapshot. */
  lemma {:induction false} SidesRefineHcl(snapshot: seq<ProbeEntry>, up: set<Server>, threshold: int)
    ensures ChosenBySides(SideOf(snapshot, up, threshold, false), SideOf(snapshot, up, threshold, true))
         == HclEntry(snapshot, up, threshold)
  {
    if snapshot != [] {
      hide ChosenBySides, HclEntry, Better;
      var front, last := snapshot[..|snapshot| - 1], snapshot[|snapshot| - 1];
      SidesRefineHcl(front, up, threshold);
      HclStep(snapshot, up, threshold);
      SidesStep(SideOf(front, up, threshold, false), SideOf(front, up, threshold, true), last, threshold);
    }
  }

  lemma SideOfStep(snapshot: seq<ProbeEntry>, i: nat, up: set<Server>, threshold: int, hot: bool)
    requires i < |snapshot|
    ensures var front := SideOf(snapshot[..i], up, threshold, hot); var e := snapshot[i];
      SideOf(snapshot[..i + 1], up, threshold, hot)
      == if e.server in up && (e.rif > threshold) == hot then front + [e] else front
  {
    assert snapshot[..i + 1][..i] == snapshot[..i];
  }

  /** The partition of the healthy entries into a cold and a hot side. */
  method SplitHotCold(snapshot: seq<ProbeEntry>, rifThreshold: int)
    returns (cold: seq<ProbeEntry>, hot: seq<ProbeEntry>)
    ensures cold == SideOf(snapshot, UpServers(snapshot), rifThreshold, false)
    ensures hot == SideOf(snapshot, UpServers(snapshot), rifThreshold, true)
  {
    ghost var up := UpServers(snapshot);
    cold, hot := [], [];
    for i := 0 to |snapshot|
      invariant cold == SideOf(snapshot[..i], up, rifThreshold, false)
      invariant hot == SideOf(snapshot[..i], up, rifThreshold, true)
    {
      SideOfStep(snapshot, i, up, rifThreshold, false);
      SideOfStep(snapshot, i, up, rifThreshold, true);
      var entry := snapshot[i];
      assert entry in snapshot && (entry.server in up <==> entry.server.isHealthy);
      if entry.server.isHealthy {
        if entry.rif > rifThreshold {
          hot := hot + [entry];
        } else {
          cold := cold + [entry];
        }
      }
    }
    assert snapshot[..|snapshot|] == snapshot;
  }

  /** Among cold entries the one with the smallest latency, the first of equals. */
  method LeastLatency(cold: seq<ProbeEntry>) returns (chosen: ProbeEntry)
    requires cold != []
    ensures chosen == cold[ArgMin(cold, LatencyKey())]
    ensures chosen in cold && forall e | e in cold :: chosen.latencyMs <= e.latencyMs
  {
    chosen := cold[0];
    for i := 1 to |cold|
      invariant chosen == cold[ArgMin(cold[..i], LatencyKey())]
    {
      ScanStep(cold, LatencyKey(), i);
      if cold[i].latencyMs < chosen.latencyMs {
        chosen := cold[i];
      }
    }
    assert cold[..|cold|] == cold;
    forall e | e in cold ensures chosen.latencyMs <= e.latencyMs {
      var i :| 0 <= i < |cold| && cold[i] == e;
      assert !Less(LatencyKey()(cold[i]), LatencyKey()(chosen));
    }
  }

  /** Among hot entries the one with the smallest RIF, the first of equals. */
  method LeastRif(hot: seq<ProbeEntry>) returns (chosen: ProbeEntry)
    requires hot != []
    ensures chosen == hot[ArgMin(hot, RifKey())]
    ensures chosen in hot && forall e | e in hot :: chosen.rif <= e.rif
  {
    chosen := hot[0];
    for i := 1 to |hot|
      invariant chosen == hot[ArgMin(hot[..i], RifKey())]
    {
      ScanStep(hot, RifKey(), i);
      if hot[i].rif < chosen.rif {
        chosen := hot[i];
      }
    }
    assert hot[..|hot|] == hot;
    forall e | e in hot ensures chosen.rif <= e.rif {
      var i :| 0 <= i < |hot| && hot[i] == e;
      assert !Less(RifKey()(hot[i]), RifKey()(chosen));
    }
  }

  function OrNull(e: Option<ProbeEntry>): ProbeEntry? {
    if e.Some? then e.value else null
  }

  /** selectPrequal's decision: partition the healthy entries, then scan one side. */
  method DecideHcl(snapshot: seq<ProbeEntry>, q: real) returns (chosen: ProbeEntry?)
    requires |snapshot| >= 2
    ensures chosen == OrNull(PrequalEntry(snapshot, UpServers(snapshot), q))
  {
    hide HclIndex, Threshold, SideOf;
    var rifThreshold := RifQuantile(snapshot, q);
    SidesRefineHcl(snapshot, UpServers(snapshot), rifThreshold);
    var cold, hot := SplitHotCold(snapshot, rifThreshold);
    if |cold| > 0 {
      chosen := LeastLatency(cold);
    } else if |hot| > 0 {
      chosen := LeastRif(hot);
    } else {
      chosen := null;
    }
  }

  // ---- Weighted sampling -------------------------------------------------------------------

  method TotalWeight(candidates: seq<Server>) returns (totalWeight: real)
    ensures totalWeight == Smoothing.Total(WeightsOf(candidates))
  {
    ghost var weights := WeightsOf(candidates);
    totalWeight := 0.0;
    for i := 0 to |candidates|
      invariant totalWeight == Smoothing.Prefix(weights, i)
      invariant forall j | 0 <= j < |weights| :: weights[j] == candidates[j].weight
    {
      Smoothing.PrefixStep(weights, i);
      totalWeight := totalWeight + candidates[i].weight;
    }
    assert weights[..|weights|] == weights;
  }

  /** The cumulative scan, with its fallback to the last candidate for a pick beyond the total. */
  method PickByWeight(candidates: seq<Server>, pick: real) returns (server: Server)
    requires candidates != []
    ensures var weights := WeightsOf(candidates);
      if exists i :: 0 <= i < |candidates| && Smoothing.IsPicked(weights, pick, i)
      then exists i :: 0 <= i < |candidates| && Smoothing.IsPicked(weights, pick, i) && server == candidates[i]
      else server == candidates[|candidates| - 1]
  {
    ghost var weights := WeightsOf(candidates);
    var cumulativeWeight := 0.0;
    for i := 0 to |candidates|
      invariant cumulativeWeight == Smoothing.Prefix(weights, i)
      invariant forall j | 0 <= j < |weights| :: weights[j] == candidates[j].weight
      invariant forall j | 0 < j <= i :: Smoothing.Prefix(weights, j) < pick
    {
      Smoothing.PrefixStep(weights, i);
      cumulativeWeight := cumulativeWeight + candidates[i].weight;
      if pick <= cumulativeWeight {
        assert Smoothing.IsPicked(weights, pick, i);
        return candidates[i];
      }
    }
    return candidates[|candidates| - 1];
  }

  /** The server is the one candidate at which the cumulative scan ends for the draw; if no weight is
      negative, the one candidate into whose share of the total weight the draw falls. */
  ghost predicate IsWeightedChoice(candidates: seq<Server>, r: real, total: real, server: Server?)
    reads candidates
  {
    var weights := WeightsOf(candidates);
    exists i: nat ::
      && i < |candidates| && server == candidates[i]
      && Smoothing.OwnsDraw(weights, r, total, i)
      && (Smoothing.NonNegative(weights) ==>
            forall j: nat | j < |weights| :: Smoothing.InShare(weights, r, total, j) <==> j == i)
  }

  /** The scan from a positive total weight. */
  method WeightedPick(candidates: seq<Server>, r: real, totalWeight: real) returns (server: Server)
    requires 0.0 <= r < 1.0 && 0.0 < totalWeight == Smoothing.Total(WeightsOf(candidates))
    ensures IsWeightedChoice(candidates, r, totalWeight, server)
  {
    ghost var owner := Smoothing.SomeonePicked(WeightsOf(candidates), r, totalWeight);
    var pick := r * totalWeight;
    assert Smoothing.OwnsDraw(WeightsOf(candidates), r, totalWeight, owner);
    assert Smoothing.IsPicked(WeightsOf(candidates), pick, owner);
    server := PickByWeight(candidates, pick);
    hide Smoothing.IsPicked, Smoothing.InShare;
    ghost var i: nat :|
      i < |candidates| && Smoothing.IsPicked(WeightsOf(candidates), pick, i) && server == candidates[i];
    assert Smoothing.OwnsDraw(WeightsOf(candidates), r, totalWeight, i);
  }

  /** The server has been through one smoothing round that began with this average and weight. */
  ghost predicate Reweighted(s: Server, ewma: real, weight: real)
    reads s
  {
    && s.ewmaLatency == Smoothing.Smooth(s.ewmaAlpha, ewma, s.latencyMs)
    && if Smoothing.Sample(ewma, s.latencyMs) <= 0.0 then s.weight == weight
       else s.ewmaLatency != 0.0 && s.weight == Smoothing.WeightOf(s.ewmaLatency)
  }

  /** The coming smoothing round does not divide by zero. */
  ghost predicate RoundDefined(s: Server)
    reads s
  {
    0.0 < Smoothing.Sample(s.ewmaLatency, s.latencyMs)
    ==> Smoothing.Smooth(s.ewmaAlpha, s.ewmaLatency, s.latencyMs) != 0.0
  }

  /** A factor in [0, 1] never does. */
  lemma FactorDefinesRound(s: Server)
    requires 0.0 <= s.ewmaAlpha <= 1.0
    ensures RoundDefined(s)
  {
    if 0.0 < s.ewmaLatency {
      Smoothing.SmoothBetween(s.ewmaAlpha, s.ewmaLatency, s.latencyMs);
    }
  }

  /** A round moves a positive average by its factor's share of the gap to a positive latency,
      ignores any other latency, starts a non-positive average afresh, and leaves a server without
      either alone. Whenever there is a sample, weight times average is 1000 afterwards. */
  lemma RoundMeans(s: Server, ewma: real, weight: real)
    requires Reweighted(s, ewma, weight)
    ensures 0.0 < ewma && 0 < s.latencyMs ==> s.ewmaLatency - ewma == s.ewmaAlpha * (s.latencyMs as real - ewma)
    ensures 0.0 < ewma && s.latencyMs <= 0 ==> s.ewmaLatency == ewma
    ensures ewma <= 0.0 && 0 < s.latencyMs ==> s.ewmaLatency == s.latencyMs as real
    ensures if 0.0 < ewma || 0 < s.latencyMs then s.weight * s.ewmaLatency == 1000.0
      else s.ewmaLatency == ewma && s.weight == weight
  {
    if 0.0 < ewma || 0 < s.latencyMs {
      Smoothing.WeightTimes(s.ewmaLatency);
    }
  }

  /** Weight and average order the two servers oppositely, ties included. */
  ghost predicate InverselyWeighted(a: Server, b: Server)
    reads a, b
  {
    && (a.weight < b.weight <==> b.ewmaLatency < a.ewmaLatency)
    && (b.weight < a.weight <==> a.ewmaLatency < b.ewmaLatency)
  }

  /** After a round with positive samples any two servers are weighted inversely to their new
      averages exactly when these have the same sign, as they always do for a factor in [0, 1]. */
  lemma RoundOrdersIff(a: Server, ewmaA: real, weightA: real, b: Server, ewmaB: real, weightB: real)
    requires Reweighted(a, ewmaA, weightA) && Reweighted(b, ewmaB, weightB)
    requires 0.0 < Smoothing.Sample(ewmaA, a.latencyMs) && 0.0 < Smoothing.Sample(ewmaB, b.latencyMs)
    ensures InverselyWeighted(a, b) <==> (0.0 < a.ewmaLatency <==> 0.0 < b.ewmaLatency)
    ensures 0.0 <= a.ewmaAlpha <= 1.0 && 0.0 <= b.ewmaAlpha <= 1.0 ==> InverselyWeighted(a, b)
  {
    hide Smoothing.WeightOf;
    Smoothing.WeightsInvertOrderIff(a.ewmaLatency, b.ewmaLatency);
    Smoothing.WeightsInvertOrderIff(b.ewmaLatency, a.ewmaLatency);
    if 0.0 <= a.ewmaAlpha <= 1.0 && 0.0 <= b.ewmaAlpha <= 1.0 {
      RoundStaysPositive(a, ewmaA, weightA);
      RoundStaysPositive(b, ewmaB, weightB);
    }
  }

  lemma RoundStaysPositive(s: Server, ewma: real, weight: real)
    requires Reweighted(s, ewma, weight) && 0.0 <= s.ewmaAlpha <= 1.0
    requires 0.0 < Smoothing.Sample(ewma, s.latencyMs)
    ensures 0.0 < s.ewmaLatency
  {
    if 0.0 < ewma {
      Smoothing.SmoothBetween(s.ewmaAlpha, ewma, s.latencyMs);
    }
  }

  /** A server as registration leaves it. */
  ghost predicate Registered(s: Server)
    reads s
  {
    s.weight == 1.0 && s.ewmaLatency == Smoothing.INITIAL_EWMA
  }

  /** A server as a round with a positive result leaves it. */
  ghost predicate Settled(s: Server)
    reads s
  {
    0.0 < s.ewmaLatency && s.weight == Smoothing.WeightOf(s.ewmaLatency)
  }

  /** A registered server gets weight 1, not 1000 / 20. So it is ordered against a settled one as
      their averages demand exactly when the latter's average is below 20 or above 1000. */
  lemma NewcomerOrderedIff(newcomer: Server, s: Server)
    requires Registered(newcomer) && Settled(s)
    ensures InverselyWeighted(newcomer, s) <==> s.ewmaLatency < Smoothing.INITIAL_EWMA || 1000.0 < s.ewmaLatency
  {
    hide Smoothing.WeightOf;
    assert Smoothing.WeightOf(1000.0) == 1.0 by {
      Smoothing.WeightsInvertOrder(1000.0, 1000.0);
    }
    Smoothing.WeightsInvertOrder(1000.0, s.ewmaLatency);
    Smoothing.WeightsInvertOrder(s.ewmaLatency, 1000.0);
  }

  /** For a whole fleet: weights order servers inversely to their averages exactly when no newcomer
      is left beside a settled server with an average from 20 to 1000. */
  lemma FleetOrderedIff(servers: set<Server>)
    requires forall s | s in servers :: Registered(s) || Settled(s)
    ensures (forall a, b | a in servers && b in servers :: InverselyWeighted(a, b))
       <==> (forall a, b | a in servers && b in servers && Registered(a) && Settled(b) ::
               b.ewmaLatency < Smoothing.INITIAL_EWMA || 1000.0 < b.ewmaLatency)
  {
    hide Smoothing.WeightOf;
    forall a, b | a in servers && b in servers && Registered(a) && Settled(b)
      ensures InverselyWeighted(a, b) <==> b.ewmaLatency < Smoothing.INITIAL_EWMA || 1000.0 < b.ewmaLatency
    {
      NewcomerOrderedIff(a, b);
    }
    forall a, b | Settled(a) && Settled(b) ensures InverselyWeighted(a, b) {
      Smoothing.WeightsInvertOrder(a.ewmaLatency, b.ewmaLatency);
      Smoothing.WeightsInvertOrder(b.ewmaLatency, a.ewmaLatency);
    }
  }

  /** One server's share of a smoothing round. */
  method UpdateWeight(s: Server)
    requires RoundDefined(s)
    modifies s`ewmaLatency, s`weight
    ensures Reweighted(s, old(s.ewmaLatency), old(s.weight))
  {
    var sampleLatency := s.latencyMs as real;
    if sampleLatency <= 0.0 {
      sampleLatency := s.ewmaLatency;
    }
    if sampleLatency <= 0.0 {
      return;
    }
    if s.ewmaLatency <= 0.0 {
      s.ewmaLatency := sampleLatency;
    } else {
      s.ewmaLatency := s.ewmaAlpha * sampleLatency + (1.0 - s.ewmaAlpha) * s.ewmaLatency;
    }
    s.weight := 1000.0 / s.ewmaLatency;
  }

  // ---- The balancer ------------------------------------------------------------------------

  class LoadBalancer {
    var servers: seq<Server>
    var rrIdx: nat
    var removeToggle: bool
    const pool: ProbePool
    const tuning: Reuse.Tuning
    const qRif: real
    const ewmaAlpha: real

    ghost predicate Valid()
      reads this, pool, pool.slots
    {
      pool.Valid() && rrIdx < RoundRobin.WRAP && 0.0 <= qRif <= 1.0
    }

    constructor (tuning: Reuse.Tuning, probeAgeTimeout: int, qRif: real, ewmaAlpha: real)
      ensures Valid() && servers == [] && rrIdx == 0 && !removeToggle && pool.Contents() == []
      ensures fresh(pool) && fresh(pool.slots)
      ensures this.tuning.poolSize == if tuning.poolSize == 0 then 16 else tuning.poolSize
      ensures this.tuning.probeRate == if tuning.probeRate == 0.0 then 2.0 else tuning.probeRate
      ensures this.tuning.removeRate == if tuning.removeRate == 0.0 then 1.0 else tuning.removeRate
      ensures this.tuning.drift == if tuning.drift == 0.0 then 1.0 else tuning.drift
      ensures pool.maxSize == if this.tuning.poolSize < 0 then 16 else this.tuning.poolSize
      ensures pool.ageLimit == if probeAgeTimeout <= 0 then 1_000_000_000 else probeAgeTimeout
      ensures this.qRif == if qRif < 0.0 then 0.0 else if qRif > 1.0 then 1.0 else qRif
      ensures this.ewmaAlpha == if ewmaAlpha == 0.0 then 0.15 else ewmaAlpha
    {
      var config := WithDefaults(tuning);
      this.tuning := config;
      this.qRif := if qRif < 0.0 then 0.0 else if qRif > 1.0 then 1.0 else qRif;
      this.ewmaAlpha := if ewmaAlpha == 0.0 then 0.15 else ewmaAlpha;
      pool := new ProbePool(config.poolSize, if probeAgeTimeout == 0 then SECOND else probeAgeTimeout);
      servers, rrIdx, removeToggle := [], 0, false;
    }

    /** The answer to a periodic probe: the server is updated and the observation stored, healthy
        or not, with a reuse budget for the current fleet. */
    method PeriodicProbe(s: Server, result: ProbeResult, firedAt: int) returns (e: ProbeEntry)
      requires Valid()
      modifies s`isHealthy, s`latencyMs, pool`count, pool.slots
      ensures Valid() && s.isHealthy == result.healthy && s.latencyMs == result.latencyMs
      ensures fresh(e) && e.server == s && e.rif == result.rif && e.latencyMs == result.latencyMs
      ensures e.timestamp == firedAt && e.useCount == 0
      ensures e.maxUses == Reuse.Budget(|servers|, tuning) >= 1
      ensures pool.Contents() == AfterAdd(old(pool.Contents()), pool.maxSize, e)
    {
      s.isHealthy, s.latencyMs := result.healthy, result.latencyMs;
      Reuse.BudgetAtLeastOne(|servers|, tuning);
      e := new ProbeEntry(s, result.rif, result.latencyMs, firedAt, Reuse.Budget(|servers|, tuning));
      pool.Add(e);
    }

    /** The answer to a per-request probe: an unhealthy one is dropped without any effect. */
    method AsyncProbe(s: Server, result: ProbeResult, firedAt: int) returns (e: ProbeEntry?)
      requires Valid()
      modifies s`isHealthy, s`latencyMs, pool`count, pool.slots
      ensures Valid()
      ensures !result.healthy ==> (
        && e == null && s.isHealthy == old(s.isHealthy) && s.latencyMs == old(s.latencyMs)
        && pool.Contents() == old(pool.Contents()))
      ensures result.healthy ==> (
        && e != null && fresh(e) && s.isHealthy && s.latencyMs == result.latencyMs
        && e.server == s && e.rif == result.rif && e.latencyMs == result.latencyMs
        && e.timestamp == firedAt && e.useCount == 0 && e.maxUses == Reuse.Budget(|servers|, tuning) >= 1
        && pool.Contents() == AfterAdd(old(pool.Contents()), pool.maxSize, e))
    {
      if !result.healthy {
        return null;
      }
      e := PeriodicProbe(s, result, firedAt);
    }

    /** The threshold the remover works with: the quantile of the fresh entries, or 0 without any. */
    method CurrentRifThreshold(now: int) returns (rifThreshold: int)
      requires Valid()
      ensures rifThreshold == Threshold(FreshOf(pool.Contents(), now, pool.ageLimit), qRif)
      ensures FreshOf(pool.Contents(), now, pool.ageLimit) == [] ==> rifThreshold == 0
    {
      var freshEntries := pool.Fresh(now);
      if |freshEntries| == 0 {
        return 0;
      }
      rifThreshold := RifQuantile(freshEntries, qRif);
    }

    /** One tick of the remover: it alternates between evicting the oldest and the worst entry. */
    method RemoverTick(now: int)
      requires Valid()
      modifies this`removeToggle, pool`count, pool.slots
      ensures Valid() && removeToggle == !old(removeToggle)
      ensures pool.Contents() == var s := old(pool.Contents());
        AfterRemoveWorst(s, Threshold(FreshOf(s, now, pool.ageLimit), qRif), !old(removeToggle))
      ensures |pool.Contents()| == if old(pool.Contents()) == [] then 0 else |old(pool.Contents())| - 1
    {
      hide FreshOf, Threshold, AfterRemoveWorst;
      var rifThreshold := CurrentRifThreshold(now);
      removeToggle := !removeToggle;
      pool.RemoveWorst(rifThreshold, removeToggle);
    }

    method AddServer(s: Server)
      requires Valid()
      modifies this`servers, s
      ensures Valid() && servers == old(servers) + [s]
      ensures DistinctServers(servers) <==> DistinctServers(old(servers)) && s !in old(servers)
      ensures s.weight == 1.0 && s.ewmaLatency == 20.0 && s.ewmaAlpha == ewmaAlpha && Registered(s)
      ensures s.isHealthy == old(s.isHealthy) && s.clientRif == old(s.clientRif) && s.latencyMs == old(s.latencyMs)
    {
      s.weight, s.ewmaLatency, s.ewmaAlpha := 1.0, 20.0, ewmaAlpha;
      servers := servers + [s];
      ghost var was := old(servers);
      assert forall i | 0 <= i < |was| :: servers[i] == was[i];
      assert servers[|was|] == s;
    }

    method HealthyServersLocked() returns (healthyServers: seq<Server>)
      ensures healthyServers == HealthyOf(servers)
    {
      healthyServers := [];
      for i := 0 to |servers|
        invariant healthyServers == HealthyOf(servers[..i])
      {
        assert servers[..i + 1][..i] == servers[..i];
        if servers[i].isHealthy {
          healthyServers := healthyServers + [servers[i]];
        }
      }
      assert servers[..|servers|] == servers;
    }

    /** `pick` is the random draw, uniform below the number of healthy servers. */
    method SelectRandom(pick: nat) returns (server: Server?)
      requires HealthyOf(servers) == [] || pick < |HealthyOf(servers)|
      ensures server == if HealthyOf(servers) == [] then null else HealthyOf(servers)[pick]
    {
      var candidates := HealthyServersLocked();
      if candidates == [] {
        return null;
      }
      return candidates[pick];
    }

    /** The snapshot and the decision, made outside the pool's lock. */
    method Decide(now: int) returns (chosen: ProbeEntry?)
      requires Valid()
      ensures var snapshot := FreshOf(pool.Contents(), now, pool.ageLimit);
        chosen == OrNull(PrequalEntry(snapshot, UpServers(snapshot), qRif))
      ensures var snapshot := FreshOf(pool.Contents(), now, pool.ageLimit);
        var t := Threshold(snapshot, qRif);
        if chosen == null then |snapshot| < 2 || forall x | x in snapshot :: !x.server.isHealthy
        else
          && |snapshot| >= 2 && chosen in snapshot && chosen in pool.Contents() && chosen.server.isHealthy
          && if chosen.rif <= t then
               forall x | x in snapshot && x.server.isHealthy && x.rif <= t :: chosen.latencyMs <= x.latencyMs
             else
               forall x | x in snapshot && x.server.isHealthy :: x.rif > t && chosen.rif <= x.rif
    {
      var freshEntries := pool.Fresh(now);
      if |freshEntries| < 2 {
        return null;
      }
      chosen := DecideHcl(freshEntries, qRif);
      ghost var up := UpServers(freshEntries);
      FallbackIff(freshEntries, up, qRif);
      if chosen == null {
        forall x | x in freshEntries ensures !x.server.isHealthy {
          var i :| 0 <= i < |freshEntries| && freshEntries[i] == x;
        }
      } else {
        ChargedMeans(freshEntries, up, qRif);
      }
    }

    /** One uninterrupted Prequal selection. If HCL has a choice, its server is returned and its
        entry is charged one use; otherwise a random healthy server is returned and the pool is
        left alone. */
    method SelectPrequal(now: int, pick: nat) returns (server: Server?)
      requires Valid()
      requires HealthyOf(servers) == [] || pick < |HealthyOf(servers)|
      modifies pool`count, pool.slots, set e | e in pool.Contents()
      ensures Valid()
      ensures var snapshot := FreshOf(old(pool.Contents()), now, pool.ageLimit);
        var choice := PrequalEntry(snapshot, old(UpServers(snapshot)), qRif);
        if choice.None? then
          && server == old(if HealthyOf(servers) == [] then null else HealthyOf(servers)[pick])
          && pool.Contents() == old(pool.Contents())
          && forall e | e in old(pool.Contents()) :: e.useCount == old(e.useCount)
        else
          var e := choice.value;
          && server == e.server
          && e.useCount == old(e.useCount) + 1
          && pool.Contents() == AfterMark(old(pool.Contents()), e, e.useCount)
          && forall x | x in old(pool.Contents()) && x != e :: x.useCount == old(x.useCount)
    {
      hide FreshOf, PrequalEntry, AfterMark;
      var chosen := Decide(now);
      if chosen == null {
        server := SelectRandom(pick);
        return;
      }
      pool.MarkUsed(chosen);
      return chosen.server;
    }

    /** `r` is the uniform draw from [0, 1), `uniform` the draw used when no weight is positive. */
    method SelectWeightedRR(r: real, uniform: nat) returns (server: Server?)
      requires 0.0 <= r < 1.0
      requires HealthyOf(servers) == [] || uniform < |HealthyOf(servers)|
      ensures var candidates := HealthyOf(servers);
        var weights := WeightsOf(candidates);
        var total := Smoothing.Total(weights);
        if candidates == [] then server == null
        else if total <= 0.0 then server == candidates[uniform]
        else IsWeightedChoice(candidates, r, total, server)
    {
      hide Smoothing.OwnsDraw, Smoothing.InShare;
      var candidates := HealthyServersLocked();
      if candidates == [] {
        return null;
      }
      var totalWeight := TotalWeight(candidates);
      if totalWeight <= 0.0 {
        return candidates[uniform];
      }
      server := WeightedPick(candidates, r, totalWeight);
    }

    method SelectRoundRobin() returns (server: Server?)
      requires Valid()
      modifies this`rrIdx
      ensures Valid()
      ensures var candidates := HealthyOf(servers);
        if candidates == [] then server == null && rrIdx == old(rrIdx)
        else
          && server == candidates[old(rrIdx) % |candidates|]
          && rrIdx == (old(rrIdx) + 1) % 0x1_0000_0000
    {
      TicketRoundTrip(rrIdx);
      var candidates := HealthyServersLocked();
      if candidates == [] {
        return null;
      }
      rrIdx := (rrIdx + 1) % RoundRobin.WRAP;
      var ticket := (rrIdx + RoundRobin.WRAP - 1) % RoundRobin.WRAP;
      return candidates[ticket % |candidates|];
    }

    /** `first` and `draw` are the two random draws. With at least two candidates the result is
        never the one server that is strictly busier than all others. */
    method SelectLlPo2C(first: nat, draw: nat) returns (server: Server?)
      requires HealthyOf(servers) == [] || first < |HealthyOf(servers)|
      requires |HealthyOf(servers)| < 2 || draw < |HealthyOf(servers)| - 1
      ensures var candidates := HealthyOf(servers);
        if candidates == [] then server == null
        else if |candidates| == 1 then server == candidates[0]
        else
          var a, b := candidates[first], candidates[if draw < first then draw else draw + 1];
          && (server == a || server == b)
          && server.clientRif <= a.clientRif && server.clientRif <= b.clientRif
          && (a.clientRif == b.clientRif ==> server == a)
          && (DistinctServers(servers) ==> exists other ::
                other in candidates && other != server && server.clientRif <= other.clientRif)
    {
      if DistinctServers(servers) { HealthyDistinct(servers); }
      var candidates := HealthyServersLocked();
      if candidates == [] {
        return null;
      }
      if |candidates| == 1 {
        return candidates[0];
      }
      var secondIndex := draw;
      if secondIndex >= first {
        secondIndex := secondIndex + 1;
      }
      var firstChoice, secondChoice := candidates[first], candidates[secondIndex];
      if firstChoice.clientRif <= secondChoice.clientRif {
        return firstChoice;
      }
      return secondChoice;
    }

    /** One smoothing round over all servers. Once a server has a positive average its weight is
        exactly 1000 over the new average. */
    method RecomputeWrrWeights()
      requires Valid() && DistinctServers(servers) && forall s | s in servers :: RoundDefined(s)
      modifies servers`ewmaLatency, servers`weight
      ensures Valid()
      ensures forall s | s in servers :: Reweighted(s, old(s.ewmaLatency), old(s.weight))
    {
      for i := 0 to |servers|
        invariant forall j | i <= j < |servers| ::
          servers[j].ewmaLatency == old(servers[j].ewmaLatency) && servers[j].weight == old(servers[j].weight)
        invariant forall j | i <= j < |servers| :: RoundDefined(servers[j])
        invariant forall j | 0 <= j < i ::
          Reweighted(servers[j], old(servers[j].ewmaLatency), old(servers[j].weight))
      {
        UpdateWeight(servers[i]);
      }
    }
  }
}
