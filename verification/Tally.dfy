/** Sums of a per-element weight over a sequence. Every "number of requests that ..." in the
    state machines is such a sum, so one update law serves all of them. */
module Tallies {

  function Tally<T>(s: seq<T>, weight: T -> int): int {
    if s == [] then 0 else weight(s[0]) + Tally(s[1..], weight)
  }

  lemma {:induction false} TallyAppend<T>(s: seq<T>, t: seq<T>, weight: T -> int)
    ensures Tally(s + t, weight) == Tally(s, weight) + Tally(t, weight)
  {
    if s == [] {
      assert s + t == t;
    } else {
      assert (s + t)[1..] == s[1..] + t;
      TallyAppend(s[1..], t, weight);
    }
  }

  /** Replacing one element moves the sum by the difference of the two weights. */
  lemma {:induction false} TallyUpdate<T>(s: seq<T>, i: nat, x: T, weight: T -> int)
    requires i < |s|
    ensures Tally(s[i := x], weight) == Tally(s, weight) - weight(s[i]) + weight(x)
  {
    if i == 0 {
      assert s[i := x][1..] == s[1..];
    } else {
      assert s[i := x][1..] == s[1..][i - 1 := x];
      TallyUpdate(s[1..], i - 1, x, weight);
    }
  }

  /** A pointwise larger weight has a larger sum, by at least the gap at any one element. */
  lemma {:induction false} TallyGap<T>(s: seq<T>, small: T -> int, large: T -> int, i: nat)
    requires i < |s|
    requires forall x | x in s :: small(x) <= large(x)
    ensures Tally(s, small) + large(s[i]) - small(s[i]) <= Tally(s, large)
  {
    if i > 0 {
      TallyGap(s[1..], small, large, i - 1);
    } else {
      TallyAtMost(s[1..], small, large);
    }
  }

  lemma {:induction false} TallyAtMost<T>(s: seq<T>, small: T -> int, large: T -> int)
    requires forall x | x in s :: small(x) <= large(x)
    ensures Tally(s, small) <= Tally(s, large)
  {
    if s != [] {
      TallyAtMost(s[1..], small, large);
    }
  }

  /** If every weight is the same constant, the sum is that multiple of the length. */
  lemma {:induction false} TallyConstant<T>(s: seq<T>, weight: T -> int, c: int)
    requires forall x | x in s :: weight(x) == c
    ensures Tally(s, weight) == c * |s|
  {
    if s != [] {
      TallyConstant(s[1..], weight, c);
      assert c * |s| == c + c * (|s| - 1);
    }
  }
}
