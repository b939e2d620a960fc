/** Sorting and order statistics for any total order. */
module Orders {
  import opened Tallies

  ghost predicate TotalOrder<T(!new)>(leq: (T, T) -> bool) {
    && (forall a, b :: leq(a, b) || leq(b, a))
    && (forall a, b :: leq(a, b) && leq(b, a) ==> a == b)
    && (forall a, b, c :: leq(a, b) && leq(b, c) ==> leq(a, c))
  }

  predicate IntLeq(a: int, b: int) { a <= b }

  predicate RealLeq(a: real, b: real) { a <= b }

  ghost predicate Sorted<T>(s: seq<T>, leq: (T, T) -> bool) {
    forall i, j | 0 <= i < j < |s| :: leq(s[i], s[j])
  }

  function Insert<T>(x: T, s: seq<T>, leq: (T, T) -> bool): (r: seq<T>)
    ensures multiset(r) == multiset(s) + multiset{x}
  {
    if s == [] then [x]
    else if leq(x, s[0]) then [x] + s
    else
      assert s == [s[0]] + s[1..];
      [s[0]] + Insert(x, s[1..], leq)
  }

  lemma {:induction false} InsertSorted<T(!new)>(x: T, s: seq<T>, leq: (T, T) -> bool)
    requires TotalOrder(leq) && Sorted(s, leq)
    ensures Sorted(Insert(x, s, leq), leq)
  {
    if s != [] && !leq(x, s[0]) {
      var rest := Insert(x, s[1..], leq);
      InsertSorted(x, s[1..], leq);
      forall y | y in rest ensures leq(s[0], y) {
        assert y in multiset(rest);
        assert y == x || y in s[1..];
      }
    }
  }

  lemma InsertHead<T>(s: seq<T>, rest: seq<T>, leq: (T, T) -> bool)
    requires s != [] && multiset(rest) == multiset(s[1..])
    ensures multiset(Insert(s[0], rest, leq)) == multiset(s) && |Insert(s[0], rest, leq)| == |s|
  {
    assert s == [s[0]] + s[1..];
    assert |multiset(Insert(s[0], rest, leq))| == |multiset(s)|;
  }

  /** The sorted rearrangement of s; SortedUnique says there is only one. */
  function Sort<T(!new)>(s: seq<T>, leq: (T, T) -> bool): (r: seq<T>)
    requires TotalOrder(leq)
    ensures Sorted(r, leq) && multiset(r) == multiset(s) && |r| == |s|
  {
    if s == [] then []
    else
      var rest := Sort(s[1..], leq);
      InsertSorted(s[0], rest, leq);
      InsertHead(s, rest, leq);
      Insert(s[0], rest, leq)
  }

  lemma HeadsAgree<T(!new)>(a: seq<T>, b: seq<T>, leq: (T, T) -> bool)
    requires TotalOrder(leq) && Sorted(a, leq) && Sorted(b, leq)
    requires multiset(a) == multiset(b) && a != []
    ensures |a| == |b| && a[0] == b[0]
  {
    assert |a| == |multiset(a)| == |multiset(b)| == |b|;
    assert a[0] in multiset(b) && b[0] in multiset(a);
  }

  lemma TailMultiset<T>(s: seq<T>)
    requires s != []
    ensures multiset(s[1..]) == multiset(s) - multiset{s[0]}
  {
    assert s == [s[0]] + s[1..];
  }

  lemma {:induction false} SortedUnique<T(!new)>(a: seq<T>, b: seq<T>, leq: (T, T) -> bool)
    requires TotalOrder(leq) && Sorted(a, leq) && Sorted(b, leq)
    requires multiset(a) == multiset(b)
    ensures a == b
  {
    if a == [] {
      assert |multiset(b)| == 0;
    } else {
      HeadsAgree(a, b, leq);
      assert a[1..] == b[1..] by {
        TailMultiset(a);
        TailMultiset(b);
        SortedUnique(a[1..], b[1..], leq);
      }
      assert a == [a[0]] + a[1..] && b == [b[0]] + b[1..];
    }
  }

  // ---- Counting ----------------------------------------------------------------------------

  function Indicator<T>(p: T -> bool): T -> int {
    x => if p(x) then 1 else 0
  }

  lemma {:induction false} IndicatorBounds<T>(s: seq<T>, p: T -> bool)
    ensures 0 <= Tally(s, Indicator(p)) <= |s|
  {
    if s != [] {
      IndicatorBounds(s[1..], p);
    }
  }

  function Count<T>(s: seq<T>, p: T -> bool): (n: nat)
    ensures n <= |s|
  {
    IndicatorBounds(s, p);
    Tally(s, Indicator(p))
  }

  function AtMost<T>(t: T, leq: (T, T) -> bool): T -> bool { x => leq(x, t) }

  function Beneath<T>(t: T, leq: (T, T) -> bool): T -> bool { x => !leq(t, x) }

  /** How many elements are at most t. */
  function CountAtMost<T>(s: seq<T>, t: T, leq: (T, T) -> bool): (n: nat)
    ensures n <= |s|
  {
    Count(s, AtMost(t, leq))
  }

  /** How many elements are strictly below t. */
  function CountBeneath<T>(s: seq<T>, t: T, leq: (T, T) -> bool): (n: nat)
    ensures n <= |s|
  {
    Count(s, Beneath(t, leq))
  }

  lemma CountStep<T>(s: seq<T>, p: T -> bool)
    requires s != []
    ensures Count(s, p) == (if p(s[0]) then 1 else 0) + Count(s[1..], p)
  {}

  lemma CountAppend<T>(a: seq<T>, b: seq<T>, p: T -> bool)
    ensures Count(a + b, p) == Count(a, p) + Count(b, p)
  {
    TallyAppend(a, b, Indicator(p));
  }

  /** Taking one element out lowers the count by what it contributed. */
  lemma CountAround<T>(a: seq<T>, x: T, b: seq<T>, p: T -> bool)
    ensures Count(a + ([x] + b), p) == Count(a + b, p) + if p(x) then 1 else 0
  {
    CountAppend(a, [x] + b, p);
    CountAppend([x], b, p);
    CountAppend(a, b, p);
  }

  lemma {:induction false} CountInsert<T>(x: T, s: seq<T>, leq: (T, T) -> bool, p: T -> bool)
    ensures Count(Insert(x, s, leq), p) == (if p(x) then 1 else 0) + Count(s, p)
  {
    hide Count;
    CountStep(Insert(x, s, leq), p);
    if s != [] && !leq(x, s[0]) {
      CountStep(s, p);
      CountInsert(x, s[1..], leq, p);
    }
  }

  lemma {:induction false} CountSort<T(!new)>(s: seq<T>, leq: (T, T) -> bool, p: T -> bool)
    requires TotalOrder(leq)
    ensures Count(Sort(s, leq), p) == Count(s, p)
  {
    if s != [] {
      hide Count;
      CountStep(s, p);
      CountSort(s[1..], leq, p);
      CountInsert(s[0], Sort(s[1..], leq), leq, p);
    }
  }

  /** If p holds of a front part of s only, that part is as long as the count of p. */
  lemma {:induction false} CountFront<T>(s: seq<T>, p: T -> bool, i: nat)
    requires i < |s|
    requires forall k, l | 0 <= k < l < |s| && p(s[l]) :: p(s[k])
    ensures p(s[i]) <==> i < Count(s, p)
  {
    hide Count;
    CountStep(s, p);
    if p(s[0]) {
      if i > 0 { CountFront(s[1..], p, i - 1); }
    } else if |s| > 1 {
      CountFront(s[1..], p, 0);
    }
  }

  // ---- Order statistics --------------------------------------------------------------------

  /** The k-th order statistic, counting from 0. */
  function Kth<T(!new)>(s: seq<T>, k: nat, leq: (T, T) -> bool): (r: T)
    requires TotalOrder(leq) && k < |s|
    ensures r in s
  {
    assert Sort(s, leq)[k] in multiset(Sort(s, leq));
    Sort(s, leq)[k]
  }

  /** The order statistic is pinned down by counting alone: it is at most t exactly when more
      than k elements are, and at least t exactly when at most k elements are below t. */
  lemma KthCounts<T(!new)>(s: seq<T>, k: nat, t: T, leq: (T, T) -> bool)
    requires TotalOrder(leq) && k < |s|
    ensures leq(Kth(s, k, leq), t) <==> k < CountAtMost(s, t, leq)
    ensures leq(t, Kth(s, k, leq)) <==> CountBeneath(s, t, leq) <= k
  {
    CountFront(Sort(s, leq), AtMost(t, leq), k);
    CountSort(s, leq, AtMost(t, leq));
    CountFront(Sort(s, leq), Beneath(t, leq), k);
    CountSort(s, leq, Beneath(t, leq));
  }

  lemma SortedAt<T(!new)>(s: seq<T>, k1: nat, k2: nat, leq: (T, T) -> bool)
    requires TotalOrder(leq) && Sorted(s, leq) && k1 <= k2 < |s|
    ensures leq(s[k1], s[k2])
  {}

  lemma KthMonotone<T(!new)>(s: seq<T>, k1: nat, k2: nat, leq: (T, T) -> bool)
    requires TotalOrder(leq) && k1 <= k2 < |s|
    ensures leq(Kth(s, k1, leq), Kth(s, k2, leq))
  {
    hide TotalOrder, Sorted;
    SortedAt(Sort(s, leq), k1, k2, leq);
  }

  /** Only the multiset of values matters. */
  lemma KthPermutation<T(!new)>(a: seq<T>, b: seq<T>, k: nat, leq: (T, T) -> bool)
    requires TotalOrder(leq) && multiset(a) == multiset(b)
    requires k < |a| && k < |b|
    ensures Kth(a, k, leq) == Kth(b, k, leq)
  {
    SortedUnique(Sort(a, leq), Sort(b, leq), leq);
  }
}
