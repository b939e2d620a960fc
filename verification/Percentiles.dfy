/** Nearest-rank percentiles and the mapping of errors to a deadline latency. */
module Percentiles {
  import opened Options
  import opened Orders
  import opened Tallies

  function Ceiling(x: real): int {
    -((-x).Floor)
  }

  lemma CeilingAbove(x: real, m: int)
    ensures m < Ceiling(x) <==> m as real < x
  {}

  /** The real-valued rank of the q-th percentile among n values. */
  function RealRank(n: nat, q: real): real {
    q / 100.0 * n as real
  }

  /** Index of the q-th percentile among n > 0 sorted values. */
  function RankIndex(n: nat, q: real): (i: nat)
    requires n > 0
    ensures i < n
  {
    var c := Ceiling(RealRank(n, q));
    var k := if c < 1 then 1 else c;
    if k - 1 < n - 1 then k - 1 else n - 1
  }

  function Percentile(sortedVals: seq<real>, q: real): Option<real> {
    if sortedVals == [] then None else Some(sortedVals[RankIndex(|sortedVals|, q)])
  }

  /** Percentile of an unsorted sample. */
  function PercentileOf(values: seq<real>, q: real): Option<real> {
    Percentile(Sort(values, RealLeq), q)
  }

  lemma CeilingMonotone(x: real, y: real)
    requires x <= y
    ensures Ceiling(x) <= Ceiling(y)
  {}

  lemma RealRankSigned(n1: nat, n2: nat, q: real)
    requires n1 <= n2
    ensures 0.0 <= q ==> RealRank(n1, q) <= RealRank(n2, q)
    ensures q <= 0.0 ==> RealRank(n2, q) <= 0.0
  {
    var a := q / 100.0;
    if 0.0 <= q {
      assert 0.0 <= a * (n2 - n1) as real;
    }
    if q <= 0.0 {
      assert a * n2 as real <= 0.0;
    }
  }

  lemma RankIndexMonotone(n1: nat, n2: nat, q: real)
    requires 0 < n1 <= n2
    ensures RankIndex(n1, q) <= RankIndex(n2, q)
  {
    hide RealRank;
    RealRankSigned(n1, n2, q);
    RealRankSigned(n1, n1, q);
    if 0.0 <= q {
      CeilingMonotone(RealRank(n1, q), RealRank(n2, q));
    }
  }

  // ---- The deadline mapping ------------------------------------------------------------------

  function Copies(x: real, n: nat): (r: seq<real>)
    ensures |r| == n && forall i | 0 <= i < n :: r[i] == x
  {
    seq(n, _ => x)
  }

  /** Successful latencies together with one deadline per error. */
  function Mapped(ok: seq<real>, errors: nat, deadline: real): seq<real> {
    ok + Copies(deadline, errors)
  }

  lemma CountCopies(x: real, n: nat, p: real -> bool)
    ensures Count(Copies(x, n), p) == if p(x) then n else 0
  {
    TallyConstant(Copies(x, n), Indicator(p), Indicator(p)(x));
  }

  lemma CountMapped(ok: seq<real>, errors: nat, deadline: real, p: real -> bool)
    ensures Count(Mapped(ok, errors, deadline), p) == Count(ok, p) + if p(deadline) then errors else 0
  {
    CountAppend(ok, Copies(deadline, errors), p);
    CountCopies(deadline, errors, p);
  }

  lemma CountAll<T>(s: seq<T>, p: T -> bool)
    requires forall x | x in s :: p(x)
    ensures Count(s, p) == |s|
  {
    TallyConstant(s, Indicator(p), 1);
  }

  /** The errors reach rank RankIndex(n, q) exactly under this condition on their number. For
      0 < q <= 100 it says that the error fraction exceeds 1 - q / 100. */
  predicate ErrorsReach(errors: nat, n: nat, q: real)
    requires errors <= n
  {
    errors > 0 && (errors == n || errors as real * 100.0 > (100.0 - q) * n as real)
  }

  lemma ErrorsReachIff(errors: nat, n: nat, q: real)
    requires errors <= n && n > 0
    ensures n - errors <= RankIndex(n, q) <==> ErrorsReach(errors, n, q)
  {
    CeilingAbove(RealRank(n, q), n - errors);
    RankArithmetic(errors, n, q);
  }

  lemma RankArithmetic(errors: nat, n: nat, q: real)
    ensures (n - errors) as real < RealRank(n, q) <==> errors as real * 100.0 > (100.0 - q) * n as real
  {
    assert RealRank(n, q) * 100.0 == q * n as real;
    assert (100.0 - q) * n as real == 100.0 * n as real - q * n as real;
  }

  /** In the usual range the condition is the error fraction the report argues with. */
  lemma ErrorFraction(errors: nat, n: nat, q: real)
    requires errors <= n && n > 0 && 0.0 < q <= 100.0
    ensures ErrorsReach(errors, n, q) <==> errors as real / n as real > 1.0 - q / 100.0
  {
    var f := errors as real / n as real;
    assert f * n as real == errors as real;
    FractionArithmetic(f, errors, n, q);
    FractionScale(f, 1.0, n as real);
    FractionScale(1.0, f, n as real);
    FractionScale(f, 0.0, n as real);
  }

  lemma FractionArithmetic(f: real, errors: nat, n: nat, q: real)
    requires n > 0 && f * n as real == errors as real
    ensures f > 1.0 - q / 100.0 <==> errors as real * 100.0 > (100.0 - q) * n as real
  {
    FractionScale(f, 1.0 - q / 100.0, n as real);
    assert (1.0 - q / 100.0) * n as real * 100.0 == (100.0 - q) * n as real;
  }

  /** The nearest-rank percentile: the least value that at least q percent of the sample do not
      exceed, and itself a value of the sample. */
  lemma NearestRank(values: seq<real>, q: real, t: real)
    requires values != [] && 0.0 < q <= 100.0
    ensures PercentileOf([], q) == None && PercentileOf(values, q).Some? && PercentileOf(values, q).value in values
    ensures PercentileOf(values, q).value <= t
       <==> CountAtMost(values, t, RealLeq) as real * 100.0 >= q * |values| as real
  {
    hide PercentileOf, Kth, Sort, RankIndex, Count, CountAtMost, ErrorsReach, TotalOrder;
    var n, c := |values|, CountAtMost(values, t, RealLeq);
    PercentileIsKth(values, q);
    RealsCounted(values, RankIndex(n, q), t);
    ErrorsReachIff(n - c, n, q);
    ShareReached(c, n, q);
  }

  lemma PercentileIsKth(values: seq<real>, q: real)
    requires values != []
    ensures PercentileOf([], q) == None && PercentileOf(values, q).Some? && PercentileOf(values, q).value in values
    ensures PercentileOf(values, q) == Some(Kth(values, RankIndex(|values|, q), RealLeq))
  {
    assert Kth(values, RankIndex(|values|, q), RealLeq) in values;
  }

  lemma RealsCounted(values: seq<real>, k: nat, t: real)
    requires k < |values|
    ensures Kth(values, k, RealLeq) <= t <==> k < CountAtMost(values, t, RealLeq)
    ensures CountAtMost(values, t, RealLeq) <= |values|
  {
    KthCounts(values, k, t, RealLeq);
  }

  lemma ShareReached(c: nat, n: nat, q: real)
    requires c <= n && n > 0 && 0.0 < q <= 100.0
    ensures ErrorsReach(n - c, n, q) <==> c as real * 100.0 < q * n as real
  {
    assert (100.0 - q) * n as real == 100.0 * n as real - q * n as real;
    FractionScale(q, 0.0, n as real);
    FractionScale(q, 100.0, n as real);
  }

  lemma FractionScale(a: real, b: real, n: real)
    requires n > 0.0
    ensures a > b <==> a * n > b * n
  {
    if a > b { assert (a - b) * n > 0.0; } else { assert (b - a) * n >= 0.0; }
  }

  /** When every success is faster than the deadline, the mapped q-th percentile is the deadline
      exactly when the errors reach that rank; otherwise it is a real, faster latency. */
  lemma DeadlineHitIff(ok: seq<real>, errors: nat, deadline: real, q: real)
    requires |ok| + errors > 0 && forall x | x in ok :: x < deadline
    ensures var p := PercentileOf(Mapped(ok, errors, deadline), q);
      && p.Some?
      && (p.value == deadline <==> ErrorsReach(errors, |ok| + errors, q))
      && (p.value != deadline ==> p.value in ok)
  {
    var all := Mapped(ok, errors, deadline);
    var n := |all|;
    var i := RankIndex(n, q);
    KthCounts(all, i, deadline, RealLeq);
    CountMapped(ok, errors, deadline, Beneath(deadline, RealLeq));
    CountAll(ok, Beneath(deadline, RealLeq));
    CountMapped(ok, errors, deadline, AtMost(deadline, RealLeq));
    CountAll(ok, AtMost(deadline, RealLeq));
    ErrorsReachIff(errors, n, q);
    assert Kth(all, i, RealLeq) in all;
  }

  /** Mapping errors to the deadline never lowers a percentile that does not exceed it. */
  lemma MappingNeverLowers(ok: seq<real>, errors: nat, deadline: real, q: real)
    requires ok != [] && PercentileOf(ok, q).value <= deadline
    ensures PercentileOf(ok, q).value <= PercentileOf(Mapped(ok, errors, deadline), q).value
  {
    hide RankIndex, Count, Sort;
    MappingLowersIff(ok, errors, deadline, q);
    var p := PercentileOf(ok, q).value;
    KthCounts(ok, RankIndex(|ok|, q), p, RealLeq);
    RankIndexMonotone(|ok|, |ok| + errors, q);
  }

  /** In general it lowers the percentile exactly when the percentile exceeds the deadline and the
      errors, inserted below it, push it past its new rank. */
  lemma MappingLowersIff(ok: seq<real>, errors: nat, deadline: real, q: real)
    requires ok != []
    ensures var p := PercentileOf(ok, q).value;
      PercentileOf(Mapped(ok, errors, deadline), q).value < p
      <==> CountBeneath(ok, p, RealLeq) + (if deadline < p then errors else 0) > RankIndex(|ok| + errors, q)
  {
    hide Sort, Count, RankIndex;
    var p := PercentileOf(ok, q).value;
    var all := Mapped(ok, errors, deadline);
    KthCounts(all, RankIndex(|all|, q), p, RealLeq);
    CountMapped(ok, errors, deadline, Beneath(p, RealLeq));
  }

  /** So the guarantee fails for a success slower than the deadline: here the median drops. */
  lemma SlowSuccessLowers()
    ensures PercentileOf([10.0], 50.0) == Some(10.0)
    ensures PercentileOf(Mapped([10.0], 1, 5.0), 50.0) == Some(5.0)
  {
    assert RealRank(1, 50.0) == 0.5 && RealRank(2, 50.0) == 1.0;
    SortedUnique(Sort([10.0], RealLeq), [10.0], RealLeq);
    assert Mapped([10.0], 1, 5.0) == [10.0, 5.0];
    assert multiset([10.0, 5.0]) == multiset([5.0, 10.0]);
    SortedUnique(Sort([10.0, 5.0], RealLeq), [5.0, 10.0], RealLeq);
  }
}
