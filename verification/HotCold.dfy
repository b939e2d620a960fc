/** The hot-cold lexicographic (HCL) decision: the RIF quantile that splits hot from cold, the
    entry chosen, and how eviction at the same threshold relates to the choice. */
module HotCold {
  import opened Options
  import opened Orders
  import opened Probes

  // ---- The RIF threshold ----------------------------------------------------------------

  function Rifs(entries: seq<ProbeEntry>): (r: seq<int>)
    ensures |r| == |entries| && forall i | 0 <= i < |r| :: r[i] == entries[i].rif
  {
    seq(|entries|, i requires 0 <= i < |entries| => entries[i].rif)
  }

  /** The real-valued position of the q-quantile among n sorted values. */
  function Position(n: nat, q: real): real {
    (n - 1) as real * q
  }

  lemma PositionMonotone(n: nat, q1: real, q2: real)
    requires n > 0 && q1 <= q2
    ensures Position(n, q1) <= Position(n, q2)
  {
    var a := (n - 1) as real;
    assert a * q2 == a * q1 + a * (q2 - q1);
    assert 0.0 <= a * (q2 - q1);
  }

  lemma PositionBounds(n: nat, q: real)
    requires n > 0 && 0.0 <= q <= 1.0
    ensures 0 <= Position(n, q).Floor <= n - 1
  {
    PositionMonotone(n, 0.0, q);
    PositionMonotone(n, q, 1.0);
    assert Position(n, 0.0) == 0.0 && Position(n, 1.0) == (n - 1) as real;
  }

  /** Index of the q-quantile among n > 0 sorted values. */
  function QuantileIndex(n: nat, q: real): (k: nat)
    requires n > 0
    ensures k < n
  {
    if q <= 0.0 then 0
    else if q >= 1.0 then n - 1
    else
      PositionBounds(n, q);
      Position(n, q).Floor
  }

  function Threshold(entries: seq<ProbeEntry>, q: real): int {
    if entries == [] then 0 else Kth(Rifs(entries), QuantileIndex(|entries|, q), IntLeq)
  }

  method RifQuantile(entries: seq<ProbeEntry>, q: real) returns (r: int)
    ensures r == Threshold(entries, q)
  {
    if entries == [] {
      return 0;
    }
    var rifValues: seq<int> := [];
    for i := 0 to |entries|
      invariant |rifValues| == i && forall j | 0 <= j < i :: rifValues[j] == entries[j].rif
    {
      rifValues := rifValues + [entries[i].rif];
    }
    assert rifValues == Rifs(entries);
    rifValues := Sort(rifValues, IntLeq);
    assert forall k: nat | k < |rifValues| :: Kth(Rifs(entries), k, IntLeq) == rifValues[k];
    hide Sort, Sorted, TotalOrder, Kth;
    if q <= 0.0 {
      return rifValues[0];
    }
    if q >= 1.0 {
      return rifValues[|rifValues| - 1];
    }
    PositionBounds(|entries|, q);
    var quantileIndex := Position(|rifValues|, q).Floor;
    if quantileIndex >= |rifValues| {
      quantileIndex := |rifValues| - 1;
    }
    return rifValues[quantileIndex];
  }

  lemma QuantileIndexMeans(n: nat, q: real)
    requires n > 0
    ensures var c := if q < 0.0 then 0.0 else if q > 1.0 then 1.0 else q;
      QuantileIndex(n, q) == ((n - 1) as real * c).Floor
  {
    if 0.0 < q < 1.0 {
      PositionBounds(n, q);
    }
  }

  lemma KthAmong(s: seq<int>, k: nat)
    requires k < |s|
    ensures Kth(s, k, IntLeq) in s
  {}

  /** The threshold is the RIF of some entry, and the least value t that leaves at least
      floor((n-1)c) + 1 of the n entries cold, i.e. with RIF at most t, where c is the quantile
      confined to [0, 1]. */
  lemma ThresholdIsLeast(entries: seq<ProbeEntry>, q: real, t: int)
    requires entries != []
    ensures Threshold(entries, q) in Rifs(entries)
    ensures var c := if q < 0.0 then 0.0 else if q > 1.0 then 1.0 else q;
      Threshold(entries, q) <= t
      <==> CountAtMost(Rifs(entries), t, IntLeq) >= ((|entries| - 1) as real * c).Floor + 1
  {
    QuantileIndexMeans(|entries|, q);
    hide QuantileIndex, Kth, CountAtMost;
    KthCounts(Rifs(entries), QuantileIndex(|entries|, q), t, IntLeq);
    KthAmong(Rifs(entries), QuantileIndex(|entries|, q));
  }

  lemma QuantileIndexMonotone(n: nat, q1: real, q2: real)
    requires n > 0 && q1 <= q2
    ensures QuantileIndex(n, q1) <= QuantileIndex(n, q2)
  {
    if 0.0 < q1 && q2 < 1.0 {
      PositionMonotone(n, q1, q2);
    }
  }

  /** A larger quantile never lowers the threshold. */
  lemma ThresholdMonotone(entries: seq<ProbeEntry>, q1: real, q2: real)
    requires q1 <= q2
    ensures Threshold(entries, q1) <= Threshold(entries, q2)
  {
    hide Kth, QuantileIndex;
    if entries != [] {
      QuantileIndexMonotone(|entries|, q1, q2);
      KthMonotone(Rifs(entries), QuantileIndex(|entries|, q1), QuantileIndex(|entries|, q2), IntLeq);
    }
  }

  /** Only the multiset of RIFs matters, not the order of the pool or anything else in it. */
  lemma ThresholdByMultiset(a: seq<ProbeEntry>, b: seq<ProbeEntry>, q: real)
    requires multiset(Rifs(a)) == multiset(Rifs(b))
    ensures Threshold(a, q) == Threshold(b, q)
  {
    assert |a| == |multiset(Rifs(a))| == |multiset(Rifs(b))| == |b|;
    if a != [] {
      KthPermutation(Rifs(a), Rifs(b), QuantileIndex(|a|, q), IntLeq);
    }
  }

  // ---- The choice ------------------------------------------------------------------------

  /** Entry i is the leftmost minimum of the hot-cold rank over the entries of `up` servers. */
  ghost predicate IsChoice(entries: seq<ProbeEntry>, up: set<Server>, threshold: int, i: nat) {
    && i < |entries| && entries[i].server in up
    && (forall j | 0 <= j < i && entries[j].server in up ::
          Less(HclRank(entries[i], threshold), HclRank(entries[j], threshold)))
    && (forall j | 0 <= j < |entries| && entries[j].server in up ::
          !Less(HclRank(entries[j], threshold), HclRank(entries[i], threshold)))
  }

  ghost predicate NoneUp(entries: seq<ProbeEntry>, up: set<Server>) {
    forall j | 0 <= j < |entries| :: entries[j].server !in up
  }

  function HclIndex(entries: seq<ProbeEntry>, up: set<Server>, threshold: int): (r: Option<nat>)
    ensures r.None? <==> NoneUp(entries, up)
    ensures r.Some? ==> IsChoice(entries, up, threshold, r.value)
  {
    if entries == [] then None
    else
      var last := |entries| - 1;
      var front := HclIndex(entries[..last], up, threshold);
      if entries[last].server !in up then front
      else if front.None? then Some(last)
      else if Less(HclRank(entries[last], threshold), HclRank(entries[front.value], threshold))
      then Some(last)
      else front
  }

  lemma ChoiceUnique(entries: seq<ProbeEntry>, up: set<Server>, threshold: int, i: nat)
    requires IsChoice(entries, up, threshold, i)
    ensures HclIndex(entries, up, threshold) == Some(i)
  {
    var m := HclIndex(entries, up, threshold).value;
    assert !Less(HclRank(entries[m], threshold), HclRank(entries[i], threshold));
    assert !Less(HclRank(entries[i], threshold), HclRank(entries[m], threshold));
  }

  /** The choice in plain terms: the first of least latency among the cold entries of `up`
      servers if there are any, otherwise the first of least RIF among all entries of `up` servers. */
  lemma ChoiceMeans(entries: seq<ProbeEntry>, up: set<Server>, threshold: int, i: nat)
    ensures HclIndex(entries, up, threshold) == Some(i)
       <==> i < |entries| && entries[i].server in up
            && if entries[i].rif <= threshold then
                 && (forall j | 0 <= j < i && entries[j].server in up && entries[j].rif <= threshold ::
                       entries[i].latencyMs < entries[j].latencyMs)
                 && (forall j | 0 <= j < |entries| && entries[j].server in up && entries[j].rif <= threshold ::
                       entries[i].latencyMs <= entries[j].latencyMs)
               else
                 && (forall j | 0 <= j < |entries| && entries[j].server in up :: entries[j].rif > threshold)
                 && (forall j | 0 <= j < i && entries[j].server in up :: entries[i].rif < entries[j].rif)
                 && (forall j | 0 <= j < |entries| && entries[j].server in up :: entries[i].rif <= entries[j].rif)
  {
    if i < |entries| && IsChoice(entries, up, threshold, i) {
      ChoiceUnique(entries, up, threshold, i);
    }
    if i < |entries| && entries[i].server in up {
      assert forall j | 0 <= j < |entries| ::
        Less(HclRank(entries[i], threshold), HclRank(entries[j], threshold))
        <==> if entries[i].rif <= threshold
             then entries[j].rif > threshold || entries[i].latencyMs < entries[j].latencyMs
             else entries[j].rif > threshold && entries[i].rif < entries[j].rif;
    }
  }

  /** What the Prequal selector decides from a snapshot; None means "fall back to random". */
  function PrequalChoice(snapshot: seq<ProbeEntry>, up: set<Server>, q: real): Option<nat> {
    if |snapshot| < 2 then None else HclIndex(snapshot, up, Threshold(snapshot, q))
  }

  function EntryAt(snapshot: seq<ProbeEntry>, c: Option<nat>): (r: Option<ProbeEntry>)
    requires c.Some? ==> c.value < |snapshot|
    ensures r.Some? ==> r.value in snapshot
  {
    if c.None? then None else Some(snapshot[c.value])
  }

  /** The entry HCL picks at a threshold. */
  function HclEntry(snapshot: seq<ProbeEntry>, up: set<Server>, threshold: int): Option<ProbeEntry> {
    EntryAt(snapshot, HclIndex(snapshot, up, threshold))
  }

  /** The entry a Prequal selection charges, if it charges one. */
  function PrequalEntry(snapshot: seq<ProbeEntry>, up: set<Server>, q: real): Option<ProbeEntry> {
    EntryAt(snapshot, PrequalChoice(snapshot, up, q))
  }

  /** What a Prequal selection charges, in plain terms. */
  lemma ChargedMeans(snapshot: seq<ProbeEntry>, up: set<Server>, q: real)
    requires PrequalEntry(snapshot, up, q).Some?
    ensures var e, t := PrequalEntry(snapshot, up, q).value, Threshold(snapshot, q);
      && |snapshot| >= 2 && e in snapshot && e.server in up
      && if e.rif <= t then
           forall x | x in snapshot && x.server in up && x.rif <= t :: e.latencyMs <= x.latencyMs
         else
           forall x | x in snapshot && x.server in up :: x.rif > t && e.rif <= x.rif
  {
    hide Threshold, HclIndex;
    ChoiceMeans(snapshot, up, Threshold(snapshot, q), PrequalChoice(snapshot, up, q).value);
  }

  /** The random fallback happens exactly with fewer than two fresh entries or no healthy one. */
  lemma FallbackIff(snapshot: seq<ProbeEntry>, up: set<Server>, q: real)
    ensures PrequalChoice(snapshot, up, q).None? <==> |snapshot| < 2 || NoneUp(snapshot, up)
  {}

  lemma {:induction false} SomeCountedEntry(entries: seq<ProbeEntry>, t: int) returns (i: nat)
    requires CountAtMost(Rifs(entries), t, IntLeq) > 0
    ensures i < |entries| && entries[i].rif <= t
  {
    if entries[0].rif <= t {
      i := 0;
    } else {
      assert !AtMost(t, IntLeq)(Rifs(entries)[0]);
      assert Rifs(entries)[1..] == Rifs(entries[1..]);
      i := SomeCountedEntry(entries[1..], t);
      i := i + 1;
    }
  }

  /** HCL picks a hot entry exactly when some server is healthy but every cold entry belongs to
      an unhealthy one; cold entries always exist, so a pool of healthy servers is never "hot". */
  lemma HotBranchIff(snapshot: seq<ProbeEntry>, up: set<Server>, q: real)
    requires PrequalChoice(snapshot, up, q).Some?
    ensures var t := Threshold(snapshot, q);
      && (exists i :: 0 <= i < |snapshot| && snapshot[i].rif <= t)
      && (snapshot[PrequalChoice(snapshot, up, q).value].rif > t
          <==> forall i | 0 <= i < |snapshot| && snapshot[i].rif <= t :: snapshot[i].server !in up)
  {
    var t := Threshold(snapshot, q);
    KthCounts(Rifs(snapshot), QuantileIndex(|snapshot|, q), t, IntLeq);
    var w := SomeCountedEntry(snapshot, t);
    var c := PrequalChoice(snapshot, up, q).value;
    assert IsChoice(snapshot, up, t, c);
  }

  // ---- Eviction and choice at one threshold --------------------------------------------

  lemma {:induction false} FreshAppend(a: seq<ProbeEntry>, b: seq<ProbeEntry>, now: int, ageLimit: int)
    ensures FreshOf(a + b, now, ageLimit) == FreshOf(a, now, ageLimit) + FreshOf(b, now, ageLimit)
  {
    if b == [] {
      assert a + b == a;
    } else {
      var last := |b| - 1;
      assert (a + b)[..|a + b| - 1] == a + b[..last];
      FreshAppend(a, b[..last], now, ageLimit);
    }
  }

  lemma FreshOne(e: ProbeEntry, now: int, ageLimit: int)
    ensures FreshOf([e], now, ageLimit) == if IsFresh(e, now, ageLimit) then [e] else []
  {
    assert [e][..0] == [];
    assert FreshOf([e][..0], now, ageLimit) == [];
  }

  lemma FreshAround(a: seq<ProbeEntry>, e: ProbeEntry, b: seq<ProbeEntry>, now: int, ageLimit: int)
    ensures FreshOf(a + ([e] + b), now, ageLimit)
         == FreshOf(a, now, ageLimit)
            + ((if IsFresh(e, now, ageLimit) then [e] else []) + FreshOf(b, now, ageLimit))
  {
    FreshAppend(a, [e] + b, now, ageLimit);
    FreshAppend([e], b, now, ageLimit);
    FreshOne(e, now, ageLimit);
  }

  lemma WithoutMiddle<T>(a: seq<T>, e: T, b: seq<T>)
    ensures Without(a + ([e] + b), |a|) == a + b
  {}

  /** Deleting a stored entry deletes it from the fresh view, or leaves that view alone. */
  lemma FreshWithout(s: seq<ProbeEntry>, w: nat, now: int, ageLimit: int) returns (p: nat)
    requires w < |s|
    ensures var f := FreshOf(s, now, ageLimit);
      if IsFresh(s[w], now, ageLimit)
      then p < |f| && f[p] == s[w] && FreshOf(Without(s, w), now, ageLimit) == Without(f, p)
      else FreshOf(Without(s, w), now, ageLimit) == f
  {
    hide FreshOf;
    var a, e, b := s[..w], s[w], s[w + 1..];
    assert s == a + ([e] + b);
    FreshAround(a, e, b, now, ageLimit);
    FreshAppend(a, b, now, ageLimit);
    WithoutMiddle(FreshOf(a, now, ageLimit), e, FreshOf(b, now, ageLimit));
    p := |FreshOf(a, now, ageLimit)|;
  }

  lemma ChoiceSurvivesDeletion(f: seq<ProbeEntry>, p: nat, up: set<Server>, threshold: int, c: nat)
    requires p < |f| && IsChoice(f, up, threshold, c) && p != c
    ensures HclIndex(Without(f, p), up, threshold) == Some(if c < p then c else c - 1)
    ensures var d := if c < p then c else c - 1; d < |f| - 1 && Without(f, p)[d] == f[c]
  {
    var g := Without(f, p);
    var d := if c < p then c else c - 1;
    assert forall j | 0 <= j < |g| :: g[j] == if j < p then f[j] else f[j + 1];
    assert IsChoice(g, up, threshold, d);
    ChoiceUnique(g, up, threshold, d);
  }

  /** Every stored entry ranks at most as high as the eviction victim. */
  lemma VictimRanksHighest(pool: seq<ProbeEntry>, threshold: int, e: ProbeEntry)
    requires e in pool
    ensures var worst := pool[ArgMin(pool, EvictKey(threshold))];
      !Less(HclRank(worst, threshold), HclRank(e, threshold))
  {
    var i :| 0 <= i < |pool| && pool[i] == e;
    var w := ArgMin(pool, EvictKey(threshold));
    assert !Less(EvictKey(threshold)(pool[i]), EvictKey(threshold)(pool[w]));
  }

  /** The chosen entry ranks at most as high as any entry of an `up` server. */
  lemma ChoiceRanksLowest(f: seq<ProbeEntry>, up: set<Server>, threshold: int, e: ProbeEntry)
    requires e in f && e.server in up
    ensures HclIndex(f, up, threshold).Some?
    ensures !Less(HclRank(e, threshold), HclRank(f[HclIndex(f, up, threshold).value], threshold))
  {
    var k :| 0 <= k < |f| && f[k] == e;
    assert !NoneUp(f, up);
    assert IsChoice(f, up, threshold, HclIndex(f, up, threshold).value);
  }

  /** The entry the pool loses in load mode. */
  function Victim(pool: seq<ProbeEntry>, threshold: int): ProbeEntry
    requires pool != []
  {
    pool[ArgMin(pool, EvictKey(threshold))]
  }

  /** RemoveWorst in load mode deletes the leftmost maximum of the very rank that HCL minimises.
      At a common threshold it therefore takes HCL's choice only if all healthy fresh entries
      tie with it; otherwise the same entry is chosen after the eviction. */
  lemma EvictionSparesChoice(
    pool: seq<ProbeEntry>, now: int, ageLimit: int, up: set<Server>, threshold: int)
    requires pool != [] && HclEntry(FreshOf(pool, now, ageLimit), up, threshold).Some?
    ensures var f := FreshOf(pool, now, ageLimit);
      var g := FreshOf(AfterRemoveWorst(pool, threshold, false), now, ageLimit);
      var chosen := HclEntry(f, up, threshold).value;
      if chosen == Victim(pool, threshold)
      then forall e | e in f && e.server in up :: HclRank(e, threshold) == HclRank(chosen, threshold)
      else HclEntry(g, up, threshold) == Some(chosen)
  {
    var f := FreshOf(pool, now, ageLimit);
    var w := ArgMin(pool, EvictKey(threshold));
    var c := HclIndex(f, up, threshold).value;
    if f[c] == Victim(pool, threshold) {
      forall e | e in f && e.server in up
        ensures HclRank(e, threshold) == HclRank(f[c], threshold)
      {
        VictimRanksHighest(pool, threshold, e);
        ChoiceRanksLowest(f, up, threshold, e);
      }
    } else {
      var p := FreshWithout(pool, w, now, ageLimit);
      if IsFresh(pool[w], now, ageLimit) {
        ChoiceSurvivesDeletion(f, p, up, threshold, c);
      }
    }
  }

  /** Even when the choice itself is evicted, the rank HCL achieves stays the same as long as
      some healthy fresh entry is left, and the eviction never creates one. */
  lemma EvictionKeepsBestRank(
    pool: seq<ProbeEntry>, now: int, ageLimit: int, up: set<Server>, threshold: int)
    requires pool != []
    requires HclEntry(FreshOf(AfterRemoveWorst(pool, threshold, false), now, ageLimit), up, threshold).Some?
    ensures var f := FreshOf(pool, now, ageLimit);
      var g := FreshOf(AfterRemoveWorst(pool, threshold, false), now, ageLimit);
      var before, after := HclEntry(f, up, threshold), HclEntry(g, up, threshold);
      before.Some? && HclRank(after.value, threshold) == HclRank(before.value, threshold)
  {
    var f := FreshOf(pool, now, ageLimit);
    var g := FreshOf(AfterRemoveWorst(pool, threshold, false), now, ageLimit);
    var e := g[HclIndex(g, up, threshold).value];
    assert e in g && e in f;
    ChoiceRanksLowest(f, up, threshold, e);
    EvictionSparesChoice(pool, now, ageLimit, up, threshold);
  }

  // ---- Eviction with the threshold recomputed ---------------------------------------------

  lemma QuantileIndexGrows(n1: nat, n2: nat, q: real)
    requires 0 < n1 <= n2
    ensures QuantileIndex(n1, q) <= QuantileIndex(n2, q)
  {
    if 0.0 < q < 1.0 {
      var a, b := (n1 - 1) as real, (n2 - 1) as real;
      assert 0.0 <= (b - a) * q;
      assert Position(n1, q) <= Position(n2, q);
    }
  }

  lemma RifsAround(f: seq<ProbeEntry>, p: nat)
    requires p < |f|
    ensures Rifs(f) == Rifs(f[..p]) + ([f[p].rif] + Rifs(f[p + 1..]))
    ensures Rifs(Without(f, p)) == Rifs(f[..p]) + Rifs(f[p + 1..])
  {}

  lemma RifsWithout(f: seq<ProbeEntry>, p: nat, t: int)
    requires p < |f| && f[p].rif > t
    ensures CountAtMost(Rifs(Without(f, p)), t, IntLeq) == CountAtMost(Rifs(f), t, IntLeq)
  {
    RifsAround(f, p);
    CountAround(Rifs(f[..p]), f[p].rif, Rifs(f[p + 1..]), AtMost(t, IntLeq));
  }

  /** Losing a hot entry never raises the threshold. */
  lemma HotLossLowersThreshold(f: seq<ProbeEntry>, p: nat, q: real)
    requires p < |f| && |f| >= 2 && f[p].rif > Threshold(f, q)
    ensures Threshold(Without(f, p), q) <= Threshold(f, q)
  {
    var g, t := Without(f, p), Threshold(f, q);
    KthCounts(Rifs(f), QuantileIndex(|f|, q), t, IntLeq);
    RifsWithout(f, p, t);
    QuantileIndexGrows(|g|, |f|, q);
    KthCounts(Rifs(g), QuantileIndex(|g|, q), t, IntLeq);
  }

  /** Under a lower threshold a choice that is still cold is still the choice. */
  lemma LowerThresholdKeepsCold(g: seq<ProbeEntry>, up: set<Server>, high: int, low: int, c: nat)
    requires IsChoice(g, up, high, c) && low <= high && g[c].rif <= low
    ensures HclIndex(g, up, low) == Some(c)
  {
    forall j | 0 <= j < |g| && g[j].server in up
      ensures !Less(HclRank(g[j], low), HclRank(g[c], low))
      ensures j < c ==> Less(HclRank(g[c], low), HclRank(g[j], low))
    {
      assert !Less(HclRank(g[j], high), HclRank(g[c], high));
      assert j < c ==> Less(HclRank(g[c], high), HclRank(g[j], high));
    }
    assert IsChoice(g, up, low, c);
    ChoiceUnique(g, up, low, c);
  }

  /** Some healthy entry is cold. */
  ghost predicate ColdUp(g: seq<ProbeEntry>, up: set<Server>, threshold: int) {
    exists i :: 0 <= i < |g| && g[i].server in up && g[i].rif <= threshold
  }

  lemma ColdUpChoosesCold(g: seq<ProbeEntry>, up: set<Server>, threshold: int)
    requires ColdUp(g, up, threshold)
    ensures HclEntry(g, up, threshold).Some? && HclEntry(g, up, threshold).value.rif <= threshold
  {
    var i :| 0 <= i < |g| && g[i].server in up && g[i].rif <= threshold;
    assert !NoneUp(g, up);
    assert IsChoice(g, up, threshold, HclIndex(g, up, threshold).value);
  }

  /** A choice that is still cold after the loss of another entry p is still the choice. */
  lemma ColdChoiceSurvives(f: seq<ProbeEntry>, p: nat, up: set<Server>, high: int, low: int)
    requires p < |f| && low <= high && HclEntry(f, up, high).Some?
    requires HclEntry(f, up, high).value != f[p] && HclEntry(f, up, high).value.rif <= low
    ensures HclEntry(Without(f, p), up, low) == HclEntry(f, up, high)
  {
    var c := HclIndex(f, up, high).value;
    ChoiceSurvivesDeletion(f, p, up, high, c);
    LowerThresholdKeepsCold(Without(f, p), up, high, low, HclIndex(Without(f, p), up, high).value);
  }

  /** e is the first of the `up` servers' entries with the least RIF. */
  ghost predicate IsFirstLeastRif(g: seq<ProbeEntry>, up: set<Server>, e: ProbeEntry) {
    exists d :: 0 <= d < |g| && g[d] == e && LeastRifAt(g, up, d)
  }

  ghost predicate LeastRifAt(g: seq<ProbeEntry>, up: set<Server>, d: nat) {
    && d < |g| && g[d].server in up
    && (forall j | 0 <= j < d && g[j].server in up :: g[d].rif < g[j].rif)
    && (forall j | 0 <= j < |g| && g[j].server in up :: g[d].rif <= g[j].rif)
  }

  /** Without a healthy cold entry HCL goes by RIF alone. */
  lemma HotChoiceIff(g: seq<ProbeEntry>, up: set<Server>, threshold: int, e: ProbeEntry)
    requires !ColdUp(g, up, threshold)
    ensures HclEntry(g, up, threshold) == Some(e) <==> IsFirstLeastRif(g, up, e)
  {
    if d :| 0 <= d < |g| && g[d] == e && LeastRifAt(g, up, d) {
      assert IsChoice(g, up, threshold, d);
      ChoiceUnique(g, up, threshold, d);
    }
    if HclEntry(g, up, threshold) == Some(e) {
      var d := HclIndex(g, up, threshold).value;
      assert IsChoice(g, up, threshold, d);
      assert LeastRifAt(g, up, d);
    }
  }

  /** A choice e survives the loss of another entry p together with a drop of the threshold
      exactly when it is still cold, or no healthy entry is cold and it has the least RIF. */
  lemma ChoiceSurvivesIff(f: seq<ProbeEntry>, p: nat, up: set<Server>, high: int, low: int, e: ProbeEntry)
    requires p < |f| && low <= high && HclEntry(f, up, high) == Some(e) && e != f[p]
    ensures var g := Without(f, p);
      HclEntry(g, up, low) == Some(e) <==> e.rif <= low || (!ColdUp(g, up, low) && IsFirstLeastRif(g, up, e))
  {
    hide IsChoice, ColdUp, HclIndex;
    var g := Without(f, p);
    if e.rif <= low {
      ColdChoiceSurvives(f, p, up, high, low);
    } else if ColdUp(g, up, low) {
      ColdUpChoosesCold(g, up, low);
    } else {
      HotChoiceIff(g, up, low, e);
    }
  }

  lemma ColdVictimMeansCold(pool: seq<ProbeEntry>, threshold: int, e: ProbeEntry)
    requires e in pool && Victim(pool, threshold).rif <= threshold
    ensures e.rif <= threshold
  {
    VictimRanksHighest(pool, threshold, e);
  }

  /** The victim of load eviction is hot unless everything is cold; either way its loss never
      raises the threshold. */
  lemma VictimLossLowersThreshold(pool: seq<ProbeEntry>, now: int, ageLimit: int, q: real, p: nat)
    requires var f := FreshOf(pool, now, ageLimit);
      pool != [] && |f| >= 2 && p < |f| && f[p] == Victim(pool, Threshold(f, q))
    ensures var f := FreshOf(pool, now, ageLimit); Threshold(Without(f, p), q) <= Threshold(f, q)
  {
    hide Kth, QuantileIndex;
    var f := FreshOf(pool, now, ageLimit);
    var t := Threshold(f, q);
    if f[p].rif > t {
      HotLossLowersThreshold(f, p, q);
    } else {
      var g := Without(f, p);
      var k := QuantileIndex(|g|, q);
      assert Kth(Rifs(g), k, IntLeq) in Rifs(g);
      var i :| 0 <= i < |g| && g[i].rif == Kth(Rifs(g), k, IntLeq);
      assert g[i] in f;
      ColdVictimMeansCold(pool, t, g[i]);
    }
  }

  /** What the remover's load tick, which works with the current quantile, makes of the pool. */
  function AfterTick(pool: seq<ProbeEntry>, now: int, ageLimit: int, q: real): seq<ProbeEntry> {
    AfterRemoveWorst(pool, Threshold(FreshOf(pool, now, ageLimit), q), false)
  }

  /** The tick takes nothing that matters: no entry, a stale one, or one of a pool from which
      nothing was going to be chosen. */
  ghost predicate TickIdle(pool: seq<ProbeEntry>, now: int, ageLimit: int, up: set<Server>, q: real) {
    var f := FreshOf(pool, now, ageLimit);
    || pool == []
    || !IsFresh(Victim(pool, Threshold(f, q)), now, ageLimit)
    || PrequalChoice(f, up, q).None?
  }

  /** The tick takes another entry than the choice, two fresh ones are left, and the choice is
      still cold or nothing healthy is cold and it has the least RIF. */
  ghost predicate TickSpares(pool: seq<ProbeEntry>, now: int, ageLimit: int, up: set<Server>, q: real)
    requires !TickIdle(pool, now, ageLimit, up, q)
  {
    var f := FreshOf(pool, now, ageLimit);
    var g := FreshOf(AfterTick(pool, now, ageLimit, q), now, ageLimit);
    var e := PrequalEntry(f, up, q).value;
    var low := Threshold(g, q);
    && |f| >= 3
    && e != Victim(pool, Threshold(f, q))
    && (e.rif <= low || (!ColdUp(g, up, low) && IsFirstLeastRif(g, up, e)))
  }

  /** The next selection, with its recomputed threshold, charges the same entry or none as it would
      have without the tick in exactly these cases. */
  lemma TickKeepsSelectionIff(pool: seq<ProbeEntry>, now: int, ageLimit: int, up: set<Server>, q: real)
    requires Distinct(pool)
    ensures var f := FreshOf(pool, now, ageLimit);
      var g := FreshOf(AfterTick(pool, now, ageLimit, q), now, ageLimit);
      PrequalEntry(g, up, q) == PrequalEntry(f, up, q)
      <==> TickIdle(pool, now, ageLimit, up, q) || TickSpares(pool, now, ageLimit, up, q)
  {
    hide FreshOf, Threshold, HclIndex, ColdUp, IsFirstLeastRif;
    if pool != [] {
      var f := FreshOf(pool, now, ageLimit);
      var w := ArgMin(pool, EvictKey(Threshold(f, q)));
      WithoutKeeps(pool, w);
      var p := FreshWithout(pool, w, now, ageLimit);
      if IsFresh(pool[w], now, ageLimit) {
        LossKeepsSelectionIff(pool, now, ageLimit, up, q, p);
      }
    }
  }

  /** The case of a fresh victim, at index p of the fresh entries. */
  lemma LossKeepsSelectionIff(
    pool: seq<ProbeEntry>, now: int, ageLimit: int, up: set<Server>, q: real, p: nat)
    requires pool != []
    requires var f := FreshOf(pool, now, ageLimit);
      && p < |f| && f[p] == Victim(pool, Threshold(f, q)) && f[p] !in Without(f, p)
    ensures var f := FreshOf(pool, now, ageLimit);
      var g := Without(f, p);
      var low := Threshold(g, q);
      PrequalEntry(g, up, q) == PrequalEntry(f, up, q)
      <==> PrequalEntry(f, up, q).None?
           || var e := PrequalEntry(f, up, q).value;
              |f| >= 3 && e != f[p] && (e.rif <= low || (!ColdUp(g, up, low) && IsFirstLeastRif(g, up, e)))
  {
    hide FreshOf, Threshold, HclIndex, ColdUp, IsFirstLeastRif;
    var f := FreshOf(pool, now, ageLimit);
    var before := PrequalEntry(f, up, q);
    if before.None? {
      FallbackIff(f, up, q);
      FallbackIff(Without(f, p), up, q);
    } else if |f| >= 3 && before.value != f[p] {
      VictimLossLowersThreshold(pool, now, ageLimit, q, p);
      ChoiceSurvivesIff(f, p, up, Threshold(f, q), Threshold(Without(f, p), q), before.value);
    }
  }

  lemma KthOfSorted(s: seq<int>, k: nat)
    requires k < |s| && Sorted(s, IntLeq)
    ensures Kth(s, k, IntLeq) == s[k]
  {
    SortedUnique(Sort(s, IntLeq), s, IntLeq);
  }

  lemma MedianThresholds(a: ProbeEntry, b: ProbeEntry, c: ProbeEntry)
    requires a.rif <= b.rif <= c.rif
    ensures Threshold([a, b, c], 0.5) == b.rif && Threshold([a, b], 0.5) == a.rif
  {
    hide Kth;
    assert Position(3, 0.5) == 1.0 && Position(2, 0.5) == 0.5;
    assert Rifs([a, b, c]) == [a.rif, b.rif, c.rif];
    KthOfSorted([a.rif, b.rif, c.rif], 1);
    assert Rifs([a, b]) == [a.rif, b.rif];
    KthOfSorted([a.rif, b.rif], 0);
  }

  lemma LastIsVictim(a: ProbeEntry, b: ProbeEntry, c: ProbeEntry)
    requires a.rif < b.rif <= c.rif && b.latencyMs < a.latencyMs
    requires b.rif == c.rif ==> a.latencyMs < c.latencyMs
    ensures AfterRemoveWorst([a, b, c], b.rif, false) == [a, b]
  {
    assert IsArgMin([a, b, c], EvictKey(b.rif), 2);
    ArgMinUnique([a, b, c], EvictKey(b.rif), 2);
  }

  lemma ColdChoices(a: ProbeEntry, b: ProbeEntry, c: ProbeEntry, up: set<Server>)
    requires a.rif < b.rif <= c.rif && b.latencyMs < a.latencyMs
    requires b.rif == c.rif ==> a.latencyMs < c.latencyMs
    requires a.server in up && b.server in up
    ensures HclIndex([a, b, c], up, b.rif) == Some(1)
    ensures HclIndex([a, b], up, a.rif) == Some(0)
  {
    assert IsChoice([a, b, c], up, b.rif, 1);
    ChoiceUnique([a, b, c], up, b.rif, 1);
    assert IsChoice([a, b], up, a.rif, 0);
    ChoiceUnique([a, b], up, a.rif, 0);
  }

  /** So the common threshold matters: evicting the only hot entry, or the slowest of cold ones,
      can turn the entry that was chosen from cold to hot and move the choice. */
  lemma RecomputedThresholdMovesChoice(a: ProbeEntry, b: ProbeEntry, c: ProbeEntry, up: set<Server>)
    requires a.rif < b.rif <= c.rif && b.latencyMs < a.latencyMs
    requires b.rif == c.rif ==> a.latencyMs < c.latencyMs
    requires a.server in up && b.server in up
    ensures var rest := AfterRemoveWorst([a, b, c], Threshold([a, b, c], 0.5), false);
      && rest == [a, b]
      && PrequalEntry([a, b, c], up, 0.5) == Some(b)
      && PrequalEntry(rest, up, 0.5) == Some(a)
  {
    MedianThresholds(a, b, c);
    LastIsVictim(a, b, c);
    ColdChoices(a, b, c, up);
  }
}
