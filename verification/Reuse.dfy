/** The reuse budget given to each new pool entry, as a function of the replica count. */
module Reuse {

  /** The configuration values the budget depends on. */
  datatype Tuning = Tuning(poolSize: int, probeRate: real, removeRate: real, drift: real)

  /** Conversion of a real to an integer by truncation toward zero. */
  function Truncate(x: real): int {
    if x >= 0.0 then x.Floor else -((-x).Floor)
  }

  function PerReplica(n: nat, t: Tuning): real
    requires n > 0
  {
    t.poolSize as real / n as real
  }

  /** Denominator of the paper's formula: net probes kept per query. */
  function Denominator(n: nat, t: Tuning): real
    requires n > 0
  {
    (1.0 - PerReplica(n, t)) * t.probeRate - t.removeRate
  }

  function Ratio(n: nat, t: Tuning): real
    requires n > 0 && !Fallback(n, t)
  {
    (1.0 + t.drift) / Denominator(n, t)
  }

  predicate Fallback(n: nat, t: Tuning)
    requires n > 0
  {
    Denominator(n, t) <= 0.0
  }

  function Budget(n: nat, t: Tuning): int {
    if n == 0 then 1
    else if Fallback(n, t) then
      var budget := Truncate(PerReplica(n, t)) + 1;
      if budget < 1 then 1 else budget
    else
      if Ratio(n, t) < 1.0 then 1 else Truncate(Ratio(n, t))
  }

  lemma BudgetAtLeastOne(n: nat, t: Tuning)
    ensures Budget(n, t) >= 1 && Budget(0, t) == 1
  {}

  /** Truncation takes the whole part and is odd. */
  lemma TruncateMeans(x: real, k: int)
    ensures 0.0 <= x ==> (Truncate(x) == k <==> k as real <= x < k as real + 1.0)
    ensures Truncate(-x) == -Truncate(x)
  {}

  // ---- Arithmetic ------------------------------------------------------------------------

  lemma ProductOrder(a: real, b: real, c: real)
    requires a <= b && 0.0 <= c
    ensures a * c <= b * c
  {
    assert (b - a) * c >= 0.0;
  }

  lemma StrictProductOrder(a: real, b: real, c: real)
    requires a < b && 0.0 < c
    ensures a * c < b * c
  {
    assert (b - a) * c > 0.0;
  }

  lemma QuotientTimes(a: real, b: real)
    requires b > 0.0
    ensures a / b * b == a
  {}

  lemma SignOf(z: real, b: real)
    requires b > 0.0
    ensures z * b >= 0.0 <==> z >= 0.0
  {}

  /** A smaller positive denominator gives a larger quotient. */
  lemma QuotientOrder(a: real, b: real, c: real)
    requires 0.0 <= a && 0.0 < b <= c
    ensures 0.0 <= a / c <= a / b
  {
    var x, y := a / b, a / c;
    QuotientTimes(a, b);
    QuotientTimes(a, c);
    SignOf(y, c);
    ProductOrder(b, c, y);
    assert (x - y) * b == x * b - y * b;
    SignOf(x - y, b);
  }

  lemma TruncateAbove(x: real)
    ensures (Truncate(x) + 1) as real > x
  {}

  // ---- The two regimes ---------------------------------------------------------------------

  lemma PerReplicaTimes(n: nat, t: Tuning)
    requires n > 0
    ensures PerReplica(n, t) * n as real == t.poolSize as real
  {
    QuotientTimes(t.poolSize as real, n as real);
  }

  /** The denominator, cleared of its own division. */
  lemma DenominatorTimes(n: nat, t: Tuning)
    requires n > 0
    ensures Denominator(n, t) * n as real
         == n as real * (t.probeRate - t.removeRate) - t.poolSize as real * t.probeRate
  {
    var k, r, x, m := n as real, t.probeRate, t.removeRate, PerReplica(n, t);
    PerReplicaTimes(n, t);
    assert Denominator(n, t) * k == (1.0 - m) * r * k - x * k;
    assert (1.0 - m) * r * k == r * k - (m * k) * r;
  }

  /** The fallback applies exactly when n replicas cannot outrun the removals. */
  lemma FallbackIff(n: nat, t: Tuning)
    requires n > 0
    ensures Fallback(n, t) <==> n as real * (t.probeRate - t.removeRate) <= t.poolSize as real * t.probeRate
  {
    var d, k := Denominator(n, t), n as real;
    DenominatorTimes(n, t);
    if d <= 0.0 {
      ProductOrder(d, 0.0, k);
    } else {
      assert d * k > 0.0;
    }
  }

  /** In the fallback regime one round of the pool fits into the budgets of all replicas. */
  lemma FallbackCoversPool(n: nat, t: Tuning)
    requires n > 0 && Fallback(n, t)
    ensures n * Budget(n, t) > t.poolSize
  {
    TruncateAbove(PerReplica(n, t));
    PerReplicaTimes(n, t);
    RealBoundIsIntBound(Budget(n, t), n, PerReplica(n, t), t.poolSize);
  }

  lemma RealBoundIsIntBound(b: int, n: nat, m: real, p: int)
    requires n > 0 && m < b as real && m * n as real == p as real
    ensures n * b > p
  {
    StrictProductOrder(m, b as real, n as real);
    ProductAsReal(b, n);
  }

  lemma ProductAsReal(a: int, b: int)
    ensures a as real * b as real == (b * a) as real
  {}

  lemma ScaledBracket(b: int, q: real, d: real, x: real)
    requires d > 0.0 && q < b as real + 1.0 && (b > 1 ==> b as real <= q) && q * d == x
    ensures x < (b as real + 1.0) * d
    ensures b > 1 ==> b as real * d <= x
  {
    StrictProductOrder(q, b as real + 1.0, d);
    if b > 1 {
      ProductOrder(b as real, q, d);
    }
  }

  lemma BudgetNearRatio(n: nat, t: Tuning)
    requires n > 0 && !Fallback(n, t)
    ensures Ratio(n, t) < Budget(n, t) as real + 1.0
    ensures Budget(n, t) > 1 ==> Budget(n, t) as real <= Ratio(n, t)
  {
    hide Ratio, Denominator;
    TruncateAbove(Ratio(n, t));
  }

  lemma RatioTimes(n: nat, t: Tuning)
    requires n > 0 && !Fallback(n, t)
    ensures Ratio(n, t) * Denominator(n, t) == 1.0 + t.drift
  {
    hide Denominator;
    QuotientTimes(1.0 + t.drift, Denominator(n, t));
  }

  /** In the formula regime the budget b is the largest whole number whose b * denominator does
      not exceed 1 + drift, but never less than 1. */
  lemma FormulaBudget(n: nat, t: Tuning)
    requires n > 0 && !Fallback(n, t)
    ensures Budget(n, t) > 1 ==> Budget(n, t) as real * Denominator(n, t) <= 1.0 + t.drift
    ensures 1.0 + t.drift < (Budget(n, t) as real + 1.0) * Denominator(n, t)
  {
    RatioTimes(n, t);
    BudgetNearRatio(n, t);
    ScaledBracket(Budget(n, t), Ratio(n, t), Denominator(n, t), 1.0 + t.drift);
  }

  /** The same without any division: with k = n * (rate - removals) - poolSize * rate, which is
      positive in this regime, the budget is the largest whole b with b * k <= n * (1 + drift),
      but never less than 1. */
  lemma FormulaBudgetCleared(n: nat, t: Tuning, k: real)
    requires n > 0 && k == n as real * (t.probeRate - t.removeRate) - t.poolSize as real * t.probeRate
    requires !Fallback(n, t)
    ensures 0.0 < k
    ensures Budget(n, t) > 1 ==> Budget(n, t) as real * k <= n as real * (1.0 + t.drift)
    ensures n as real * (1.0 + t.drift) < (Budget(n, t) as real + 1.0) * k
  {
    FormulaBudget(n, t);
    DenominatorTimes(n, t);
    ScaleBracket(Budget(n, t) as real, Denominator(n, t), n as real, k, 1.0 + t.drift);
    ScaleBracket(Budget(n, t) as real + 1.0, Denominator(n, t), n as real, k, 1.0 + t.drift);
  }

  lemma ScaleBracket(b: real, d: real, n: real, k: real, x: real)
    requires 0.0 < n && 0.0 < d && d * n == k
    ensures 0.0 < k
    ensures b * d <= x <==> b * k <= n * x
  {
    assert b * k == (b * d) * n;
    SignOf(x - b * d, n);
    assert (x - b * d) * n == n * x - b * k;
  }

  // ---- Growing the fleet -------------------------------------------------------------------

  lemma PerReplicaShrinks(n1: nat, n2: nat, t: Tuning)
    requires 0 < n1 <= n2 && 0 <= t.poolSize
    ensures 0.0 <= PerReplica(n2, t) <= PerReplica(n1, t)
  {
    QuotientOrder(t.poolSize as real, n1 as real, n2 as real);
  }

  lemma DenominatorGrows(n1: nat, n2: nat, t: Tuning)
    requires 0 < n1 <= n2 && 0 <= t.poolSize && 0.0 <= t.probeRate
    ensures Denominator(n1, t) <= Denominator(n2, t)
  {
    PerReplicaShrinks(n1, n2, t);
    ProductOrder(1.0 - PerReplica(n1, t), 1.0 - PerReplica(n2, t), t.probeRate);
  }

  /** A growing fleet leaves the fallback regime at most once and never comes back. */
  lemma RegimeSwitchesOnce(n1: nat, n2: nat, t: Tuning)
    requires 0 < n1 <= n2 && 0 <= t.poolSize && 0.0 <= t.probeRate
    ensures !Fallback(n1, t) ==> !Fallback(n2, t)
  {
    DenominatorGrows(n1, n2, t);
  }

  /** Inside either regime more replicas never mean a larger budget. */
  lemma BudgetShrinksInRegime(n1: nat, n2: nat, t: Tuning)
    requires 0 < n1 <= n2 && 0 <= t.poolSize && 0.0 <= t.probeRate && -1.0 <= t.drift
    requires Fallback(n1, t) == Fallback(n2, t)
    ensures Budget(n2, t) <= Budget(n1, t)
  {
    if Fallback(n1, t) {
      PerReplicaShrinks(n1, n2, t);
    } else {
      DenominatorGrows(n1, n2, t);
      QuotientOrder(1.0 + t.drift, Denominator(n1, t), Denominator(n2, t));
    }
  }

  function Times(a: real, d: real): real {
    a * d
  }

  lemma TimesOrder(a: real, b: real, d: real)
    requires a <= b && 0.0 <= d
    ensures Times(a, d) <= Times(b, d)
  {
    ProductOrder(a, b, d);
  }

  lemma TimesStrictOrder(a: real, b: real, d: real)
    requires a < b && 0.0 < d
    ensures Times(a, d) < Times(b, d)
  {
    StrictProductOrder(a, b, d);
  }

  lemma QuotientFloor(x: real, n: nat, p: int, k: int)
    requires n > 0 && Times(x, n as real) == p as real && k * n <= p < (k + 1) * n
    ensures x.Floor == k
  {
    ProductAsReal(k, n);
    ProductAsReal(k + 1, n);
    assert Times(k as real, n as real) <= p as real < Times((k + 1) as real, n as real);
    hide Times;
    if x < k as real {
      TimesStrictOrder(x, k as real, n as real);
    }
    if x >= (k + 1) as real {
      TimesOrder((k + 1) as real, x, n as real);
    }
  }

  lemma NegativePool(n: nat, t: Tuning)
    requires n > 0 && t.poolSize < 0
    ensures PerReplica(n, t) < 0.0 && Truncate(PerReplica(n, t)) <= 0
  {
    PerReplicaTimes(n, t);
    SignOf(PerReplica(n, t), n as real);
  }

  /** The fallback budget in whole numbers. */
  lemma FallbackBudget(n: nat, t: Tuning)
    requires n > 0 && Fallback(n, t)
    ensures Budget(n, t) == if t.poolSize < 0 then 1 else t.poolSize / n + 1
  {
    hide Fallback;
    if t.poolSize < 0 {
      NegativePool(n, t);
      return;
    }
    var k := t.poolSize / n;
    assert k * n <= t.poolSize < (k + 1) * n;
    PerReplicaTimes(n, t);
    QuotientFloor(PerReplica(n, t), n, t.poolSize, k);
  }

  /** A budget b2 >= 1 that brackets x / d stays within b1 exactly when b1 + 1 exceeds x / d. */
  lemma BracketOrder(b1: int, b2: int, d: real, x: real)
    requires 1 <= b1 && 0.0 < d
    requires x < Times(b2 as real + 1.0, d) && (b2 > 1 ==> Times(b2 as real, d) <= x)
    ensures b2 <= b1 <==> x < Times(b1 as real + 1.0, d)
  {
    hide Times;
    if b2 <= b1 {
      TimesOrder(b2 as real + 1.0, b1 as real + 1.0, d);
    } else {
      TimesOrder(b1 as real + 1.0, b2 as real, d);
    }
  }

  /** More replicas leave the budget alone or lower it exactly when they do not cross the switch,
      or the formula's budget beyond it is no larger than the fallback's before it. */
  lemma BudgetNotRaisedIff(n1: nat, n2: nat, t: Tuning)
    requires 0 < n1 <= n2 && 0 <= t.poolSize && 0.0 <= t.probeRate && -1.0 <= t.drift
    ensures Budget(n2, t) <= Budget(n1, t)
       <==> Fallback(n1, t) == Fallback(n2, t)
            || 1.0 + t.drift < (t.poolSize / n1 + 2) as real * Denominator(n2, t)
  {
    hide Budget, Denominator;
    RegimeSwitchesOnce(n1, n2, t);
    if Fallback(n1, t) == Fallback(n2, t) {
      BudgetShrinksInRegime(n1, n2, t);
    } else {
      FallbackBudget(n1, t);
      FormulaBudget(n2, t);
      BracketOrder(t.poolSize / n1 + 1, Budget(n2, t), Denominator(n2, t), 1.0 + t.drift);
    }
  }

  /** n is the largest fleet in the fallback regime. */
  predicate SwitchAfter(n: nat, t: Tuning) {
    n > 0 && Fallback(n, t) && !Fallback(n + 1, t)
  }

  lemma {:induction false} SwitchBetween(n1: nat, n2: nat, t: Tuning) returns (n: nat)
    requires 0 < n1 <= n2 && Fallback(n1, t) && !Fallback(n2, t)
    ensures n1 <= n < n2 && SwitchAfter(n, t)
  {
    if Fallback(n2 - 1, t) {
      n := n2 - 1;
    } else {
      n := SwitchBetween(n1, n2 - 1, t);
    }
  }

  /** The budget never rises with the fleet, over all pairs of fleet sizes, exactly when it does
      not rise at the switch, for which one comparison decides. */
  lemma NeverRaisedIff(t: Tuning)
    requires 0 <= t.poolSize && 0.0 <= t.probeRate && -1.0 <= t.drift
    ensures (forall n1: nat, n2: nat | 0 < n1 <= n2 :: Budget(n2, t) <= Budget(n1, t))
       <==> (forall n: nat | SwitchAfter(n, t) ::
               1.0 + t.drift < (t.poolSize / n + 2) as real * Denominator(n + 1, t))
  {
    hide Budget, Denominator, Fallback;
    if forall n1: nat, n2: nat | 0 < n1 <= n2 :: Budget(n2, t) <= Budget(n1, t) {
      forall n: nat | SwitchAfter(n, t)
        ensures 1.0 + t.drift < (t.poolSize / n + 2) as real * Denominator(n + 1, t)
      {
        BudgetNotRaisedIff(n, n + 1, t);
      }
    }
    if forall n: nat | SwitchAfter(n, t) ::
      1.0 + t.drift < (t.poolSize / n + 2) as real * Denominator(n + 1, t)
    {
      forall n1: nat, n2: nat | 0 < n1 <= n2 ensures Budget(n2, t) <= Budget(n1, t) {
        RegimeSwitchesOnce(n1, n2, t);
        if Fallback(n1, t) == Fallback(n2, t) {
          BudgetShrinksInRegime(n1, n2, t);
        } else {
          var n := SwitchBetween(n1, n2, t);
          BudgetShrinksInRegime(n1, n, t);
          BudgetNotRaisedIff(n, n + 1, t);
          BudgetShrinksInRegime(n + 1, n2, t);
        }
      }
    }
  }

  /** With the shipped settings it rises, from 1 to 66, when the 33rd replica is added. */
  lemma BudgetJumpsAtSwitch()
    ensures var t := Tuning(16, 2.0, 1.0, 1.0);
      SwitchAfter(32, t) && Budget(32, t) == 1 && Budget(33, t) == 66
  {
    var t := Tuning(16, 2.0, 1.0, 1.0);
    assert PerReplica(32, t) == 0.5 && Denominator(32, t) == 0.0;
    assert Denominator(33, t) == 1.0 / 33.0;
  }
}
