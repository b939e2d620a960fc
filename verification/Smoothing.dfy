/** Weighted round-robin state: exponentially smoothed latency and the weight derived from it. */
module Smoothing {

  const INITIAL_EWMA := 20.0

  /** The sample a server's probe offers: its latency, or its own average if there is none. */
  function Sample(ewma: real, latencyMs: int): real {
    if latencyMs <= 0 then ewma else latencyMs as real
  }

  function Mix(alpha: real, x: real, y: real): real {
    alpha * x + (1.0 - alpha) * y
  }

  /** One smoothing round for one server. */
  function Smooth(alpha: real, ewma: real, latencyMs: int): real {
    var sample := Sample(ewma, latencyMs);
    if sample <= 0.0 then ewma
    else if ewma <= 0.0 then sample
    else Mix(alpha, sample, ewma)
  }

  function SmoothAll(alpha: real, ewma: real, samples: seq<int>): real {
    if samples == [] then ewma
    else Smooth(alpha, SmoothAll(alpha, ewma, samples[..|samples| - 1]), samples[|samples| - 1])
  }

  predicate Between(x: real, a: real, b: real) {
    a <= x <= b || b <= x <= a
  }

  lemma ProductNonNegative(a: real, b: real)
    requires 0.0 <= a && 0.0 <= b
    ensures 0.0 <= a * b
  {}

  lemma MixBetween(alpha: real, x: real, y: real)
    requires 0.0 <= alpha <= 1.0
    ensures Between(Mix(alpha, x, y), x, y)
  {
    assert Mix(alpha, x, y) == x + (1.0 - alpha) * (y - x) == y + alpha * (x - y);
    if x <= y {
      ProductNonNegative(1.0 - alpha, y - x);
      ProductNonNegative(alpha, y - x);
    } else {
      ProductNonNegative(1.0 - alpha, x - y);
      ProductNonNegative(alpha, x - y);
    }
  }

  /** A non-positive sample leaves the average alone. */
  lemma SampleIgnored(alpha: real, ewma: real, latencyMs: int)
    requires latencyMs <= 0
    ensures Smooth(alpha, ewma, latencyMs) == ewma
  {}

  lemma SmoothBetween(alpha: real, ewma: real, latencyMs: int)
    requires 0.0 <= alpha <= 1.0 && 0.0 < ewma
    ensures Between(Smooth(alpha, ewma, latencyMs), ewma, Sample(ewma, latencyMs))
    ensures 0.0 < Smooth(alpha, ewma, latencyMs)
  {
    hide Mix;
    MixBetween(alpha, Sample(ewma, latencyMs), ewma);
  }

  /** The smoothing factor is not validated by the code. Averages stay between the old average
      and the sample, for all positive averages and samples, exactly when it lies in [0, 1]. */
  lemma StaysBetweenIff(alpha: real)
    ensures (forall ewma, latencyMs | 0.0 < ewma && 0 < latencyMs ::
               Between(Smooth(alpha, ewma, latencyMs), ewma, latencyMs as real))
       <==> 0.0 <= alpha <= 1.0
  {
    if 0.0 <= alpha <= 1.0 {
      forall ewma, latencyMs | 0.0 < ewma && 0 < latencyMs
        ensures Between(Smooth(alpha, ewma, latencyMs), ewma, latencyMs as real)
      {
        SmoothBetween(alpha, ewma, latencyMs);
      }
    } else {
      assert Smooth(alpha, 2.0, 1) == 2.0 - alpha;
      assert !Between(Smooth(alpha, 2.0, 1), 2.0, 1 as real);
    }
  }

  /** The interval holds the initial average and all positive samples. */
  ghost predicate Spans(lo: real, hi: real, ewma: real, samples: seq<int>) {
    && 0.0 < lo <= ewma <= hi
    && forall i | 0 <= i < |samples| && 0 < samples[i] :: lo <= samples[i] as real <= hi
  }

  /** Over any history the average stays inside such an interval; non-positive samples are ignored. */
  lemma {:induction false} AverageInRange(alpha: real, ewma: real, samples: seq<int>, lo: real, hi: real)
    requires 0.0 <= alpha <= 1.0 && Spans(lo, hi, ewma, samples)
    ensures lo <= SmoothAll(alpha, ewma, samples) <= hi
  {
    if samples != [] {
      var last := samples[|samples| - 1];
      AverageInRange(alpha, ewma, samples[..|samples| - 1], lo, hi);
      SmoothBetween(alpha, SmoothAll(alpha, ewma, samples[..|samples| - 1]), last);
    }
  }

  /** It does so, over all histories and intervals, exactly for smoothing factors in [0, 1]. */
  lemma AverageInRangeIff(alpha: real)
    ensures (forall ewma, samples, lo, hi | Spans(lo, hi, ewma, samples) ::
               lo <= SmoothAll(alpha, ewma, samples) <= hi)
       <==> 0.0 <= alpha <= 1.0
  {
    if 0.0 <= alpha <= 1.0 {
      forall ewma, samples, lo, hi | Spans(lo, hi, ewma, samples)
        ensures lo <= SmoothAll(alpha, ewma, samples) <= hi
      {
        AverageInRange(alpha, ewma, samples, lo, hi);
      }
    } else {
      assert Spans(1.0, 2.0, 2.0, [1]);
      assert SmoothAll(alpha, 2.0, [1][..0]) == 2.0;
      assert SmoothAll(alpha, 2.0, [1]) == 2.0 - alpha;
    }
  }

  function Power(x: real, k: nat): real {
    if k == 0 then 1.0 else x * Power(x, k - 1)
  }

  /** What is left of an initial gap after k rounds. */
  function Remaining(alpha: real, k: nat, gap: real): real {
    Power(1.0 - alpha, k) * gap
  }

  lemma RemainingStep(alpha: real, k: nat, gap: real)
    requires k > 0
    ensures Remaining(alpha, k, gap) == (1.0 - alpha) * Remaining(alpha, k - 1, gap)
  {
    TimesAssociates(1.0 - alpha, Power(1.0 - alpha, k - 1), gap);
  }

  lemma RemainingNone(alpha: real, gap: real)
    ensures Remaining(alpha, 0, gap) == gap
  {}

  lemma TimesAssociates(a: real, b: real, c: real)
    ensures (a * b) * c == a * (b * c)
  {}

  /** The average after k rounds of one latency, each closing the gap to it by the same factor. */
  function Approach(alpha: real, ewma: real, latencyMs: int, k: nat): real {
    latencyMs as real + Remaining(alpha, k, ewma - latencyMs as real)
  }

  /** One round shrinks the gap by the factor 1 - alpha, except that a non-positive average is
      replaced outright. */
  lemma ConstantRound(alpha: real, average: real, latencyMs: int, rest: real)
    requires 0 < latencyMs && average == latencyMs as real + rest
    ensures Smooth(alpha, average, latencyMs) == latencyMs as real + (1.0 - alpha) * rest
       <==> alpha == 1.0 || 0.0 < average
  {
    if average <= 0.0 && alpha != 1.0 {
      NonZeroProduct(1.0 - alpha, rest);
    }
  }

  lemma NonZeroProduct(a: real, b: real)
    requires a != 0.0 && b != 0.0
    ensures a * b != 0.0
  {}

  lemma ApproachStep(alpha: real, ewma: real, latencyMs: int, k: nat, average: real)
    requires 0 < latencyMs && k > 0 && average == Approach(alpha, ewma, latencyMs, k - 1)
    ensures Smooth(alpha, average, latencyMs) == Approach(alpha, ewma, latencyMs, k)
       <==> alpha == 1.0 || 0.0 < average
  {
    hide Remaining, Smooth;
    RemainingStep(alpha, k, ewma - latencyMs as real);
    ConstantRound(alpha, average, latencyMs, Remaining(alpha, k - 1, ewma - latencyMs as real));
  }

  /** The first k rounds of the history have closed the gap geometrically. */
  ghost predicate Closes(alpha: real, ewma: real, latencyMs: int, samples: seq<int>, k: nat)
    requires k <= |samples|
  {
    SmoothAll(alpha, ewma, samples[..k]) == Approach(alpha, ewma, latencyMs, k)
  }

  lemma ClosesNext(alpha: real, ewma: real, latencyMs: int, samples: seq<int>, k: nat)
    requires 0 < latencyMs && k < |samples| && samples[k] == latencyMs
    requires Closes(alpha, ewma, latencyMs, samples, k)
    ensures Closes(alpha, ewma, latencyMs, samples, k + 1)
       <==> alpha == 1.0 || 0.0 < Approach(alpha, ewma, latencyMs, k)
  {
    hide Approach, Smooth;
    assert samples[..k + 1][..k] == samples[..k];
    ApproachStep(alpha, ewma, latencyMs, k + 1, SmoothAll(alpha, ewma, samples[..k]));
  }

  /** Rounds of one constant positive latency close the gap to it geometrically, for all numbers
      of rounds up to n, exactly when the factor is 1 or no average on the way is zero or
      negative. This holds for every factor and every initial average. */
  lemma {:induction false} ConstantSamplesIff(alpha: real, ewma: real, latencyMs: int, samples: seq<int>, n: nat)
    requires 0 < latencyMs && n <= |samples| && forall i | 0 <= i < |samples| :: samples[i] == latencyMs
    ensures (forall k: nat | k <= n :: Closes(alpha, ewma, latencyMs, samples, k))
       <==> alpha == 1.0 || forall k: nat | k < n :: 0.0 < Approach(alpha, ewma, latencyMs, k)
  {
    if n == 0 {
      RemainingNone(alpha, ewma - latencyMs as real);
    } else {
      hide Closes, Approach;
      ConstantSamplesIff(alpha, ewma, latencyMs, samples, n - 1);
      if Closes(alpha, ewma, latencyMs, samples, n - 1) {
        ClosesNext(alpha, ewma, latencyMs, samples, n - 1);
      }
    }
  }

  lemma {:induction false} PowerBounds(x: real, k: nat)
    requires 0.0 <= x <= 1.0
    ensures 0.0 <= Power(x, k) <= 1.0
  {
    if k > 0 {
      PowerBounds(x, k - 1);
      ProductNonNegative(x, Power(x, k - 1));
      ProductNonNegative(x, 1.0 - Power(x, k - 1));
    }
  }

  /** In particular it holds for a factor in [0, 1] and a positive initial average. */
  lemma ConstantSamples(alpha: real, ewma: real, latencyMs: int, samples: seq<int>)
    requires 0.0 <= alpha <= 1.0 && 0.0 < ewma && 0 < latencyMs
    requires forall i | 0 <= i < |samples| :: samples[i] == latencyMs
    ensures SmoothAll(alpha, ewma, samples) == Approach(alpha, ewma, latencyMs, |samples|)
  {
    forall k: nat ensures 0.0 < Approach(alpha, ewma, latencyMs, k) {
      PowerBounds(1.0 - alpha, k);
      MixBetween(Power(1.0 - alpha, k), ewma, latencyMs as real);
      ApproachIsMix(alpha, ewma, latencyMs, k);
    }
    ConstantSamplesIff(alpha, ewma, latencyMs, samples, |samples|);
    assert samples[..|samples|] == samples;
    assert Closes(alpha, ewma, latencyMs, samples, |samples|);
  }

  lemma ApproachIsMix(alpha: real, ewma: real, latencyMs: int, k: nat)
    ensures Approach(alpha, ewma, latencyMs, k) == Mix(Power(1.0 - alpha, k), ewma, latencyMs as real)
  {}

  // ---- Weights -----------------------------------------------------------------------------

  function WeightOf(ewma: real): real
    requires ewma != 0.0
  {
    1000.0 / ewma
  }

  lemma WeightTimes(ewma: real)
    requires ewma != 0.0
    ensures WeightOf(ewma) * ewma == 1000.0
  {}

  /** Recomputed weights order servers exactly inversely to their smoothed latency. */
  lemma WeightsInvertOrder(a: real, b: real)
    requires 0.0 < a && 0.0 < b
    ensures 0.0 < WeightOf(a) && WeightOf(a) * a == 1000.0
    ensures WeightOf(a) < WeightOf(b) <==> b < a
  {
    var x, y := WeightOf(a), WeightOf(b);
    assert x * a == 1000.0 && y * b == 1000.0;
    assert (y - x) * b == x * (a - b);
    SameSign(y - x, b, x, a - b);
  }

  lemma SameSign(p: real, b: real, x: real, q: real)
    requires 0.0 < b && 0.0 < x && p * b == x * q
    ensures 0.0 < p <==> 0.0 < q
  {
    if 0.0 < p { assert 0.0 < p * b; }
    if 0.0 < q { assert 0.0 < x * q; }
  }

  lemma WeightOdd(a: real)
    requires a != 0.0
    ensures WeightOf(-a) == -WeightOf(a)
  {}

  lemma WeightSign(a: real)
    requires a != 0.0
    ensures 0.0 < WeightOf(a) <==> 0.0 < a
  {
    if a < 0.0 {
      WeightOdd(a);
      WeightsInvertOrder(-a, -a);
    } else {
      WeightsInvertOrder(a, a);
    }
  }

  /** For averages that the code's unvalidated factor may have made negative, the order is still
      inverse exactly when both have the same sign. */
  lemma WeightsInvertOrderIff(a: real, b: real)
    requires a != 0.0 && b != 0.0
    ensures (WeightOf(a) < WeightOf(b) <==> b < a) <==> (0.0 < a <==> 0.0 < b)
  {
    hide WeightOf;
    WeightSign(a);
    WeightSign(b);
    if 0.0 < a && 0.0 < b {
      WeightsInvertOrder(a, b);
    } else if a < 0.0 && b < 0.0 {
      WeightsInvertOrder(-b, -a);
      WeightOdd(a);
      WeightOdd(b);
    }
  }

  // ---- Sampling by weight ------------------------------------------------------------------

  function Total(weights: seq<real>): real {
    if weights == [] then 0.0 else Total(weights[..|weights| - 1]) + weights[|weights| - 1]
  }

  function Prefix(weights: seq<real>, i: nat): real
    requires i <= |weights|
  {
    Total(weights[..i])
  }

  lemma PrefixStep(weights: seq<real>, i: nat)
    requires i < |weights|
    ensures Prefix(weights, i + 1) == Prefix(weights, i) + weights[i]
    ensures Prefix(weights, 0) == 0.0 && Prefix(weights, |weights|) == Total(weights)
  {
    assert weights[..|weights|] == weights;
    assert weights[..i + 1][..i] == weights[..i];
  }

  ghost predicate NonNegative(weights: seq<real>) {
    forall i | 0 <= i < |weights| :: 0.0 <= weights[i]
  }

  lemma {:induction false} PrefixMonotone(weights: seq<real>, i: nat, j: nat)
    requires i <= j <= |weights| && NonNegative(weights)
    ensures Prefix(weights, i) <= Prefix(weights, j)
  {
    if i < j {
      PrefixStep(weights, j - 1);
      PrefixMonotone(weights, i, j - 1);
    }
  }

  /** The first candidate whose cumulative weight reaches the pick; None is the code's trailing
      fallback. */
  ghost predicate IsPicked(weights: seq<real>, pick: real, i: nat) {
    i < |weights| && pick <= Prefix(weights, i + 1) && forall j | 0 < j <= i :: Prefix(weights, j) < pick
  }

  /** Candidate i owns exactly the picks in (prefix i, prefix i+1], an interval as long as its
      weight, plus pick 0 for the first candidate: the candidates partition [0, total]. */
  lemma PickedIff(weights: seq<real>, pick: real, i: nat)
    requires i < |weights| && 0.0 <= pick && NonNegative(weights)
    ensures IsPicked(weights, pick, i)
       <==> (Prefix(weights, i) < pick || i == 0) && pick <= Prefix(weights, i) + weights[i]
  {
    PrefixStep(weights, i);
    if i > 0 && Prefix(weights, i) < pick {
      forall j | 0 < j <= i ensures Prefix(weights, j) < pick {
        PrefixMonotone(weights, j, i);
      }
    }
  }

  /** Candidate i is where the cumulative scan ends for the draw r. */
  ghost predicate OwnsDraw(weights: seq<real>, r: real, total: real, i: nat) {
    IsPicked(weights, r * total, i)
  }

  /** The draw falls into candidate i's share (prefix i, prefix i + weight i] of the total weight. */
  ghost predicate InShare(weights: seq<real>, r: real, total: real, i: nat)
    requires i < |weights|
  {
    (Prefix(weights, i) < r * total || i == 0) && r * total <= Prefix(weights, i) + weights[i]
  }

  lemma DrawWithinTotal(r: real, total: real, target: real)
    requires 0.0 <= r < 1.0 && 0.0 < total && target == r * total
    ensures 0.0 <= target <= total
  {
    assert 0.0 <= (1.0 - r) * total;
  }

  /** If no weight is negative, candidate i is picked exactly for the draws r in [0, 1) with
      r * total in its interval of cumulative weights. */
  lemma OwnsDrawIff(weights: seq<real>, r: real, total: real, i: nat)
    requires i < |weights| && NonNegative(weights) && 0.0 <= r < 1.0 && 0.0 < total
    ensures OwnsDraw(weights, r, total, i) <==> InShare(weights, r, total, i)
  {
    var target := r * total;
    DrawWithinTotal(r, total, target);
    PickedIff(weights, target, i);
  }

  lemma PickedUnique(weights: seq<real>, pick: real, i: nat, j: nat)
    requires IsPicked(weights, pick, i) && IsPicked(weights, pick, j)
    ensures i == j
  {}

  /** For any weights with a positive total, negative ones included, every draw has exactly one
      owner, so the fallback after the loop is dead code. */
  lemma SomeonePicked(weights: seq<real>, r: real, total: real) returns (owner: nat)
    requires 0.0 <= r < 1.0 && 0.0 < total == Total(weights)
    ensures owner < |weights|
    ensures forall i: nat :: OwnsDraw(weights, r, total, i) <==> i == owner
    ensures NonNegative(weights) ==> forall i: nat | i < |weights| :: InShare(weights, r, total, i) <==> i == owner
  {
    var target := r * total;
    DrawWithinTotal(r, total, target);
    owner := FirstReaching(weights, target);
    forall i: nat | IsPicked(weights, target, i) ensures i == owner {
      PickedUnique(weights, target, i, owner);
    }
    assert forall i: nat :: OwnsDraw(weights, r, total, i) <==> i == owner;
    hide InShare, OwnsDraw, IsPicked;
    if NonNegative(weights) {
      forall i: nat | i < |weights| ensures OwnsDraw(weights, r, total, i) <==> InShare(weights, r, total, i) {
        OwnsDrawIff(weights, r, total, i);
      }
    }
  }

  lemma FirstReaching(weights: seq<real>, pick: real) returns (i: nat)
    requires 0.0 < Total(weights) && pick <= Total(weights)
    ensures IsPicked(weights, pick, i)
  {
    assert weights[..|weights|] == weights;
    i := 0;
    while Prefix(weights, i + 1) < pick
      invariant i < |weights| && forall j | 0 < j <= i :: Prefix(weights, j) < pick
      decreases |weights| - i
    {
      i := i + 1;
    }
  }
}
