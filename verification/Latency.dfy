/** The backend's latency estimate: 32 RIF buckets of recent successful latencies. */
module Latency {
  import opened Orders
  import opened Tallies

  const BUCKETS: nat := 32
  const WINDOW: nat := 50

  /** A success: the RIF it saw on arrival and its latency. */
  datatype Success = Success(rif: int, latencyMs: int)

  function Clamp(rif: int): (b: nat)
    ensures b < BUCKETS
  {
    if rif >= BUCKETS then BUCKETS - 1 else if rif < 0 then 0 else rif
  }

  /** The bucket index is the one closest to the RIF: it lies between the RIF and any other. */
  lemma ClampIsNearest(rif: int, b: nat)
    requires b < 32
    ensures Clamp(rif) < 32 && (rif <= Clamp(rif) <= b || b <= Clamp(rif) <= rif)
  {}

  function LastOf(s: seq<int>, n: nat): seq<int> {
    if |s| > n then s[|s| - n..] else s
  }

  // ---- The store and its log ---------------------------------------------------------------

  type Store = s: seq<seq<int>> | |s| == BUCKETS witness seq(BUCKETS, _ => [])

  function EmptyStore(): Store {
    seq(BUCKETS, _ => [])
  }

  function Recorded(store: Store, x: Success): Store {
    var b := Clamp(x.rif);
    store[b := LastOf(store[b] + [x.latencyMs], WINDOW)]
  }

  /** The store after a whole log of successes. */
  function Replay(log: seq<Success>): Store {
    if log == [] then EmptyStore() else Recorded(Replay(log[..|log| - 1]), log[|log| - 1])
  }

  lemma ReplayOneMore(log: seq<Success>, x: Success)
    ensures Replay(log + [x]) == Recorded(Replay(log), x)
  {
    assert (log + [x])[..|log|] == log;
  }

  /** All latencies logged for bucket b, oldest first. */
  function LatenciesAt(log: seq<Success>, b: nat): seq<int> {
    if log == [] then []
    else
      var front := LatenciesAt(log[..|log| - 1], b);
      var x := log[|log| - 1];
      if Clamp(x.rif) == b then front + [x.latencyMs] else front
  }

  /** The latencies of a log are those of its parts, in order. */
  lemma {:induction false} LatenciesInOrder(front: seq<Success>, back: seq<Success>, b: nat)
    ensures LatenciesAt(front + back, b) == LatenciesAt(front, b) + LatenciesAt(back, b)
  {
    if back == [] {
      assert front + back == front;
    } else {
      var last := |back| - 1;
      assert (front + back)[..|front + back| - 1] == front + back[..last];
      LatenciesInOrder(front, back[..last], b);
    }
  }

  lemma LatencyOfOne(x: Success, b: nat)
    ensures LatenciesAt([x], b) == if Clamp(x.rif) == b then [x.latencyMs] else []
  {
    assert [x][..0] == [];
  }

  lemma LastOfAppend(s: seq<int>, x: int)
    ensures LastOf(LastOf(s, WINDOW) + [x], WINDOW) == LastOf(s + [x], WINDOW)
  {}

  lemma {:induction false} BucketIsLastOf(log: seq<Success>, b: nat)
    requires b < BUCKETS
    ensures Replay(log)[b] == LastOf(LatenciesAt(log, b), WINDOW)
  {
    if log != [] {
      BucketIsLastOf(log[..|log| - 1], b);
      LastOfAppend(LatenciesAt(log[..|log| - 1], b), log[|log| - 1].latencyMs);
    }
  }

  /** Trimming as it goes, each bucket has the min(50, count) latest successful latencies logged at
      that clamped arrival RIF: counted from the end it agrees with the whole log. */
  lemma BucketIsLogWindow(log: seq<Success>, b: nat)
    requires b < 32
    ensures var kept, all := Replay(log)[b], LatenciesAt(log, b);
      && |kept| == (if |all| < 50 then |all| else 50)
      && forall i | 0 <= i < |kept| :: kept[i] == all[|all| - |kept| + i]
  {
    hide Replay, LatenciesAt;
    BucketIsLastOf(log, b);
  }

  // ---- Nearest non-empty bucket ------------------------------------------------------------

  function Distance(a: int, b: int): nat {
    if a <= b then b - a else a - b
  }

  /** Bucket j is the nearest non-empty one to b, the lower one of two equally near. */
  ghost predicate IsNearest(store: Store, b: nat, j: nat) {
    && j < BUCKETS && store[j] != []
    && (forall i | 0 <= i < BUCKETS && store[i] != [] :: Distance(b, j) <= Distance(b, i))
    && (forall i | 0 <= i < BUCKETS && store[i] != [] && Distance(b, i) == Distance(b, j) :: j <= i)
  }

  /** The nearest non-empty bucket, without distances: every non-empty bucket at or below b lies
      below it and not nearer, every one above b lies above it or as far away below b. */
  lemma NearestMeans(store: Store, b: nat, j: nat)
    requires b < 32
    ensures IsNearest(store, b, j)
       <==> && j < 32 && store[j] != []
            && (forall i: nat | i < 32 && store[i] != [] && i <= b :: i == j || i < j < 2 * b - i)
            && (forall i: nat | i < 32 && store[i] != [] && i > b :: 2 * b - i <= j <= i)
  {}

  ghost predicate AllEmpty(store: Store) {
    forall i | 0 <= i < BUCKETS :: store[i] == []
  }

  lemma NearestUnique(store: Store, b: nat, j: nat, k: nat)
    requires IsNearest(store, b, j) && IsNearest(store, b, k)
    ensures j == k
  {}

  // ---- The median ----------------------------------------------------------------------------

  /** The upper median: rank |s| / 2, counting from 0. */
  function UpperMedian(s: seq<int>): int
    requires s != []
  {
    Kth(s, |s| / 2, IntLeq)
  }

  /** The upper median is the least sample that more than half of the samples (rounded down)
      do not exceed. */
  lemma UpperMedianCounts(s: seq<int>, t: int)
    requires s != []
    ensures UpperMedian(s) in s
    ensures UpperMedian(s) <= t <==> CountAtMost(s, t, IntLeq) > |s| / 2
  {
    KthCounts(s, |s| / 2, t, IntLeq);
  }

  /** What the estimate must be: the upper median of the nearest non-empty bucket, else 0. */
  ghost predicate IsEstimate(store: Store, rif: int, r: int) {
    if AllEmpty(store) then r == 0
    else exists j: nat :: IsNearest(store, Clamp(rif), j) && r == UpperMedian(store[j])
  }

  lemma EstimateUnique(store: Store, rif: int, r: int, r': int)
    requires IsEstimate(store, rif, r) && IsEstimate(store, rif, r')
    ensures r == r'
  {
    if !AllEmpty(store) {
      var j: nat :| IsNearest(store, Clamp(rif), j) && r == UpperMedian(store[j]);
      var k: nat :| IsNearest(store, Clamp(rif), k) && r' == UpperMedian(store[k]);
      NearestUnique(store, Clamp(rif), j, k);
    }
  }

  lemma {:induction false} LoggedSomewhere(log: seq<Success>)
    ensures AllEmpty(Replay(log)) <==> log == []
  {
    if log != [] {
      var x := log[|log| - 1];
      assert Replay(log)[Clamp(x.rif)] != [];
    }
  }

  /** Before the first success the estimate is 0; afterwards it is the upper median of the nearest
      bucket with any, a latency that was really recorded there. */
  lemma EstimateFromLog(log: seq<Success>, rif: int, r: int)
    requires IsEstimate(Replay(log), rif, r)
    ensures log == [] ==> r == 0
    ensures log != [] ==> exists b: nat :: (
      && IsNearest(Replay(log), Clamp(rif), b)
      && r == UpperMedian(Replay(log)[b]) && r in LatenciesAt(log, b))
  {
    LoggedSomewhere(log);
    if log != [] {
      var j: nat :| IsNearest(Replay(log), Clamp(rif), j) && r == UpperMedian(Replay(log)[j]);
      BucketIsLastOf(log, j);
      assert r in Replay(log)[j];
    }
  }

  // ---- The in-place sort ---------------------------------------------------------------------

  /** The inner loop: moves element i down to its place in the sorted front. */
  method SiftDown(samples: array<int>, i: nat)
    requires i < samples.Length
    requires forall k, l | 0 <= k < l < i :: samples[k] <= samples[l]
    modifies samples
    ensures forall k, l | 0 <= k < l <= i :: samples[k] <= samples[l]
    ensures multiset(samples[..]) == multiset(old(samples[..]))
  {
    var j := i;
    while j > 0 && samples[j] < samples[j - 1]
      invariant 0 <= j <= i
      invariant forall k, l | 0 <= k < l <= i && l != j :: samples[k] <= samples[l]
      invariant multiset(samples[..]) == multiset(old(samples[..]))
    {
      samples[j], samples[j - 1] := samples[j - 1], samples[j];
      j := j - 1;
    }
  }

  method InsertionSort(samples: array<int>)
    requires samples.Length > 0
    modifies samples
    ensures samples[..] == Sort(old(samples[..]), IntLeq)
  {
    for i := 1 to samples.Length
      invariant forall k, l | 0 <= k < l < i :: samples[k] <= samples[l]
      invariant multiset(samples[..]) == multiset(old(samples[..]))
    {
      SiftDown(samples, i);
    }
    SortedUnique(samples[..], Sort(old(samples[..]), IntLeq), IntLeq);
  }

  /** Sorts a copy of the samples and takes the middle. */
  method MedianOf(stored: seq<int>) returns (r: int)
    requires stored != []
    ensures r == UpperMedian(stored)
  {
    var samples := new int[|stored|](i requires 0 <= i < |stored| => stored[i]);
    assert samples[..] == stored;
    InsertionSort(samples);
    r := samples[..][samples.Length / 2];
  }

  // ---- The store object --------------------------------------------------------------------

  class LatencyBuckets {
    const buckets: array<seq<int>>

    ghost predicate Valid() reads this {
      buckets.Length == BUCKETS
    }

    function Contents(): Store
      reads this, buckets
      requires Valid()
    {
      buckets[..]
    }

    constructor ()
      ensures Valid() && fresh(buckets) && Contents() == EmptyStore()
      ensures buckets.Length == 32 && forall i | 0 <= i < 32 :: Contents()[i] == []
    {
      buckets := new seq<int>[BUCKETS](_ => []);
    }

    method Record(rif: int, latencyMs: int)
      requires Valid()
      modifies buckets
      ensures Contents() == Recorded(old(Contents()), Success(rif, latencyMs))
      ensures var b := if rif < 0 then 0 else if rif > 31 then 31 else rif;
        var was := old(Contents()[b]);
        && Contents()[b] == (if |was| < 50 then was else was[|was| - 49..]) + [latencyMs]
        && forall i | 0 <= i < 32 && i != b :: Contents()[i] == old(Contents()[i])
    {
      var bucketIndex := rif;
      if bucketIndex >= 32 {
        bucketIndex := 31;
      }
      if bucketIndex < 0 {
        bucketIndex := 0;
      }
      buckets[bucketIndex] := buckets[bucketIndex] + [latencyMs];
      if |buckets[bucketIndex]| > 50 {
        buckets[bucketIndex] := buckets[bucketIndex][|buckets[bucketIndex]| - 50..];
      }
    }

    /** The samples of the nearest non-empty bucket. */
    method NearestSamples(bucketIndex: nat) returns (samples: seq<int>)
      requires Valid() && bucketIndex < BUCKETS
      ensures if AllEmpty(Contents()) then samples == []
        else exists j: nat :: IsNearest(Contents(), bucketIndex, j) && samples == Contents()[j]
    {
      samples := buckets[bucketIndex];
      if |samples| > 0 {
        assert IsNearest(Contents(), bucketIndex, bucketIndex);
      } else {
        for distance := 1 to buckets.Length
          invariant samples == []
          invariant forall i | 0 <= i < BUCKETS && Distance(bucketIndex, i) < distance :: buckets[i] == []
        {
          var lower, upper := bucketIndex - distance, bucketIndex + distance;
          if lower >= 0 && |buckets[lower]| > 0 {
            assert IsNearest(Contents(), bucketIndex, lower);
            return buckets[lower];
          }
          if upper < buckets.Length && |buckets[upper]| > 0 {
            assert IsNearest(Contents(), bucketIndex, upper);
            return buckets[upper];
          }
        }
      }
    }

    method MedianAtRif(rif: int) returns (r: int)
      requires Valid()
      ensures IsEstimate(Contents(), rif, r)
    {
      var bucketIndex := rif;
      if bucketIndex >= 32 {
        bucketIndex := 31;
      }
      if bucketIndex < 0 {
        bucketIndex := 0;
      }
      var stored := NearestSamples(bucketIndex);
      if |stored| == 0 {
        return 0;
      }
      r := MedianOf(stored);
    }
  }
}
