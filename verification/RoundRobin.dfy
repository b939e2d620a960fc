/** Round robin over a fixed healthy set with a 32-bit ticket that wraps. */
module RoundRobin {

  /** Number of distinct values of the uint32 ticket. */
  const WRAP: nat := 0x1_0000_0000

  /** Server index chosen j selections after the ticket counter held `start`. */
  function Chosen(start: nat, j: nat, n: nat): nat
    requires n > 0
  {
    ((start + j) % WRAP) % n
  }

  /** How often server i is chosen in k consecutive selections. */
  function Count(start: nat, k: nat, n: nat, i: nat): nat
    requires n > 0
  {
    if k == 0 then 0
    else Count(start, k - 1, n, i) + if Chosen(start, k - 1, n) == i then 1 else 0
  }

  /** Tickets below x that map to server i. */
  function Below(x: nat, n: nat, i: nat): nat
    requires i < n
  {
    (x + (n - 1 - i)) / n
  }

  // ---- Division --------------------------------------------------------------------------

  lemma SmallMultiple(d: int, n: int)
    requires n > 0 && -n < d * n < n
    ensures d == 0
  {}

  lemma DivisionUnique(x: int, n: nat, q: int, r: int)
    requires n > 0 && x == q * n + r && 0 <= r < n
    ensures x / n == q && x % n == r
  {
    var p, s := x / n, x % n;
    assert x == p * n + s && 0 <= s < n;
    assert (p - q) * n == p * n - q * n;
    SmallMultiple(p - q, n);
  }

  lemma CeilingOf(k: nat, n: nat)
    requires n > 0
    ensures (k + n - 1) / n == if k % n == 0 then k / n else k / n + 1
  {
    var p, s := k / n, k % n;
    assert k == p * n + s && (p + 1) * n == p * n + n;
    if s == 0 {
      DivisionUnique(k + n - 1, n, p, n - 1);
    } else {
      DivisionUnique(k + n - 1, n, p + 1, s - 1);
    }
  }

  lemma QuotientOfSum(a: nat, k: nat, n: nat)
    requires n > 0
    ensures (a + k) / n == a / n + k / n + if a % n + k % n < n then 0 else 1
  {
    var q, r, p, s := a / n, a % n, k / n, k % n;
    assert a == q * n + r && k == p * n + s;
    assert (q + p) * n == q * n + p * n && (q + p + 1) * n == q * n + p * n + n;
    if r + s < n {
      DivisionUnique(a + k, n, q + p, r + s);
    } else {
      DivisionUnique(a + k, n, q + p + 1, r + s - n);
    }
  }

  lemma FloorDifference(a: nat, k: nat, n: nat)
    requires n > 0
    ensures k / n <= (a + k) / n - a / n <= (k + n - 1) / n <= k / n + 1
  {
    QuotientOfSum(a, k, n);
    CeilingOf(k, n);
  }

  lemma BelowAt(x: nat, n: nat, i: nat)
    requires i < n
    ensures Below(x, n, i) == x / n + if x % n <= i then 0 else 1
  {
    QuotientOfSum(x, n - 1 - i, n);
    DivisionUnique(n - 1 - i, n, 0, n - 1 - i);
  }

  lemma Successor(x: nat, n: nat)
    requires n > 0
    ensures if x % n < n - 1 then (x + 1) / n == x / n && (x + 1) % n == x % n + 1
            else (x + 1) / n == x / n + 1 && (x + 1) % n == 0
  {
    var q, r := x / n, x % n;
    assert x == q * n + r && (q + 1) * n == q * n + n;
    if r < n - 1 {
      DivisionUnique(x + 1, n, q, r + 1);
    } else {
      DivisionUnique(x + 1, n, q + 1, 0);
    }
  }

  lemma BelowStep(x: nat, n: nat, i: nat)
    requires i < n
    ensures Below(x + 1, n, i) == Below(x, n, i) + if x % n == i then 1 else 0
  {
    BelowAt(x, n, i);
    BelowAt(x + 1, n, i);
    Successor(x, n);
  }

  lemma ModuloSmall(x: nat, m: nat)
    requires x < m
    ensures x % m == x
  {
    DivisionUnique(x, m, 0, x);
  }

  lemma ModuloShift(x: nat, m: nat)
    requires m > 0
    ensures (m + x) % m == x % m
  {
    var q, r := x / m, x % m;
    assert x == q * m + r && (q + 1) * m == q * m + m;
    DivisionUnique(m + x, m, q + 1, r);
  }

  // ---- Without a wrap ---------------------------------------------------------------------

  lemma {:induction false} CountWithoutWrap(start: nat, k: nat, n: nat, i: nat)
    requires i < n && start + k <= WRAP
    ensures Count(start, k, n, i) == Below(start + k, n, i) - Below(start, n, i)
  {
    hide Below;
    if k > 0 {
      CountWithoutWrap(start, k - 1, n, i);
      BelowStep(start + k - 1, n, i);
      ModuloSmall(start + k - 1, WRAP);
    }
  }

  /** Every server is chosen floor(k/n) or ceiling(k/n) times while the ticket does not wrap. */
  lemma FairWithoutWrap(start: nat, k: nat, n: nat, i: nat)
    requires i < n && start + k <= WRAP
    ensures k / n <= Count(start, k, n, i) <= (k + n - 1) / n <= k / n + 1
  {
    CountWithoutWrap(start, k, n, i);
    FloorDifference(start + (n - 1 - i), k, n);
  }

  // ---- Across wraps ------------------------------------------------------------------------

  lemma {:induction false} CountSplit(start: nat, j: nat, k: nat, n: nat, i: nat)
    requires n > 0
    ensures Count(start, j + k, n, i) == Count(start, j, n, i) + Count(start + j, k, n, i)
  {
    if k > 0 {
      CountSplit(start, j, k - 1, n, i);
    }
  }

  lemma {:induction false} CountFromWrap(k: nat, n: nat, i: nat)
    requires n > 0
    ensures Count(WRAP, k, n, i) == Count(0, k, n, i)
  {
    if k > 0 {
      CountFromWrap(k - 1, n, i);
      ModuloShift(k - 1, WRAP);
    }
  }

  /** How many times the ticket wraps before or between k selections. */
  function Wraps(start: nat, k: nat): nat
    requires start < WRAP
    decreases k
  {
    if start + k <= WRAP then 0 else 1 + Wraps(0, start + k - WRAP)
  }

  /** Each wrap costs at most one selection of fairness between any two servers. */
  lemma {:induction false} FairnessPerWrap(start: nat, k: nat, n: nat, i: nat, j: nat)
    requires start < WRAP && i < n && j < n
    ensures Count(start, k, n, i) - Count(start, k, n, j) <= 1 + Wraps(start, k)
    decreases k
  {
    if start + k <= WRAP {
      FairWithoutWrap(start, k, n, i);
      FairWithoutWrap(start, k, n, j);
    } else {
      var first := WRAP - start;
      FairnessPerWrap(0, k - first, n, i, j);
      FairWithoutWrap(start, first, n, i);
      FairWithoutWrap(start, first, n, j);
      CountSplit(start, first, k - first, n, i);
      CountSplit(start, first, k - first, n, j);
      CountFromWrap(k - first, n, i);
      CountFromWrap(k - first, n, j);
    }
  }

  lemma {:induction false} WrapsCount(start: nat, k: nat)
    requires start < WRAP && k > 0
    ensures Wraps(start, k) == (start + k - 1) / WRAP
    decreases k
  {
    if start + k <= WRAP {
      DivisionUnique(start + k - 1, WRAP, 0, start + k - 1);
    } else {
      var x := start + k - 1 - WRAP;
      WrapsCount(0, start + k - WRAP);
      DivisionUnique(x + WRAP, WRAP, x / WRAP + 1, x % WRAP);
    }
  }

  /** The choices from the next ticket on are those from this one, one later. */
  lemma NextTicketShifts(ticket: nat, j: nat, n: nat)
    requires ticket < 0x1_0000_0000 && n > 0
    ensures Chosen((ticket + 1) % 0x1_0000_0000, j, n) == Chosen(ticket, j + 1, n)
  {
    if ticket + 1 < WRAP {
      ModuloSmall(ticket + 1, WRAP);
    } else {
      ModuloShift(j, WRAP);
    }
  }

  // ---- Successive calls --------------------------------------------------------------------

  lemma {:induction false} SuccessiveTickets(tickets: seq<nat>, j: nat)
    requires j < |tickets| && tickets[0] < WRAP
    requires forall k | 0 <= k < |tickets| - 1 :: tickets[k + 1] == (tickets[k] + 1) % WRAP
    ensures tickets[j] == (tickets[0] + j) % WRAP
  {
    if j == 0 {
      ModuloSmall(tickets[0], WRAP);
    } else {
      SuccessiveTickets(tickets, j - 1);
      Successor(tickets[0] + j - 1, WRAP);
      Successor(tickets[j - 1], WRAP);
      ModuloSmall(tickets[j - 1], WRAP);
    }
  }

  /** The count of a server's selections is its multiplicity among the servers returned. */
  lemma {:induction false} CountIsMultiplicity<T>(start: nat, k: nat, candidates: seq<T>, picked: seq<T>, i: nat)
    requires i < |candidates| && k <= |picked|
    requires forall a, b | 0 <= a < b < |candidates| :: candidates[a] != candidates[b]
    requires forall j | 0 <= j < k :: picked[j] == candidates[Chosen(start, j, |candidates|)]
    ensures Count(start, k, |candidates|, i) == multiset(picked[..k])[candidates[i]]
  {
    if k > 0 {
      CountIsMultiplicity(start, k - 1, candidates, picked, i);
      var c := Chosen(start, k - 1, |candidates|);
      assert candidates[c] == candidates[i] <==> c == i;
      hide Chosen;
      assert picked[..k] == picked[..k - 1] + [candidates[c]];
      assert multiset(picked[..k]) == multiset(picked[..k - 1]) + multiset{candidates[c]};
    }
  }

  /** Fairness of successive calls on a fixed list of distinct servers, each call with a ticket one
      above the last modulo 2^32: without a wrap every server is returned floor(k/n) or
      ceiling(k/n) times, and each wrap adds at most one to the difference of any two. */
  lemma CallsAreFair<T>(tickets: seq<nat>, candidates: seq<T>, picked: seq<T>, i: nat, j: nat)
    requires |picked| == |tickets| > 0 && tickets[0] < 0x1_0000_0000
    requires forall c | 0 <= c < |tickets| - 1 :: tickets[c + 1] == (tickets[c] + 1) % 0x1_0000_0000
    requires i < |candidates| && j < |candidates|
    requires forall a, b | 0 <= a < b < |candidates| :: candidates[a] != candidates[b]
    requires forall c | 0 <= c < |picked| :: picked[c] == candidates[tickets[c] % |candidates|]
    ensures var k, n, times := |picked|, |candidates|, multiset(picked);
      && (tickets[0] + k <= 0x1_0000_0000 ==> k / n <= times[candidates[i]] <= (k + n - 1) / n)
      && times[candidates[i]] - times[candidates[j]] <= 1 + (tickets[0] + k - 1) / 0x1_0000_0000
  {
    var start, k, n := tickets[0], |picked|, |candidates|;
    forall c | 0 <= c < k ensures picked[c] == candidates[Chosen(start, c, n)] {
      SuccessiveTickets(tickets, c);
    }
    assert picked[..k] == picked;
    CountIsMultiplicity(start, k, candidates, picked, i);
    CountIsMultiplicity(start, k, candidates, picked, j);
    if start + k <= WRAP {
      FairWithoutWrap(start, k, n, i);
    }
    FairnessPerWrap(start, k, n, i, j);
    WrapsCount(start, k);
  }

  /** All runs of all lengths treat any two servers equally up to one selection. */
  ghost predicate AlwaysFair(n: nat)
    requires n > 0
  {
    forall start, k, i, j | 0 <= start < WRAP && 0 <= k && 0 <= i < n && 0 <= j < n ::
      Count(start, k, n, i) - Count(start, k, n, j) <= 1
  }

  lemma Regroup(a: int, b: int, c: int)
    ensures a * (b * c) == (a * b) * c
  {}

  lemma ModuloDivisor(x: nat, m: nat, n: nat)
    requires 0 < n && 0 < m && m % n == 0
    ensures (x % m) % n == x % n
  {
    var w, y, c := x / m, x % m, m / n;
    var q, r := y / n, y % n;
    assert m == c * n && x == w * m + y && y == q * n + r;
    assert w * m == (w * c) * n by {
      Regroup(w, c, n);
    }
    assert (w * c + q) * n == (w * c) * n + q * n;
    DivisionUnique(x, n, w * c + q, r);
  }

  lemma {:induction false} DivisorHidesWrap(start: nat, k: nat, n: nat, i: nat)
    requires i < n && WRAP % n == 0
    ensures Count(start, k, n, i) == Below(start + k, n, i) - Below(start, n, i)
  {
    hide Below;
    if k > 0 {
      DivisorHidesWrap(start, k - 1, n, i);
      BelowStep(start + k - 1, n, i);
      ModuloDivisor(start + k - 1, WRAP, n);
    }
  }

  /** The last r = WRAP % n tickets before a wrap and the first one after it choose server 0
      twice and server n - 1 never. */
  lemma UnfairAtWrap(n: nat)
    requires 0 < n && WRAP % n != 0 && n <= WRAP
    ensures var r := WRAP % n;
      Count(WRAP - r, r + 1, n, 0) - Count(WRAP - r, r + 1, n, n - 1) == 2
  {
    var r := WRAP % n;
    var q := WRAP / n;
    var start := WRAP - r;
    assert start == q * n;
    ChosenInTail(q, n, r);
    assert Chosen(start, r, n) == 0;
    HitsInTail(q, n, r, r, 0);
    HitsInTail(q, n, r, r, n - 1);
  }

  lemma ChosenInTail(q: nat, n: nat, r: nat)
    requires 0 < r < n && q * n + r == WRAP
    ensures forall j | 0 <= j < r :: Chosen(q * n, j, n) == j
  {
    forall j | 0 <= j < r ensures Chosen(q * n, j, n) == j {
      ModuloSmall(q * n + j, WRAP);
      DivisionUnique(q * n + j, n, q, j);
    }
  }

  lemma {:induction false} HitsInTail(q: nat, n: nat, r: nat, k: nat, i: nat)
    requires 0 < r < n && q * n + r == WRAP && k <= r
    ensures Count(q * n, k, n, i) == if i < k then 1 else 0
  {
    if k > 0 {
      ChosenInTail(q, n, r);
      HitsInTail(q, n, r, k - 1, i);
    }
  }

  /** Round robin stays fair across ticket wraps for precisely the replica counts that divide
      2^32, i.e. the powers of two. */
  lemma AlwaysFairIff(n: nat)
    requires 0 < n <= WRAP
    ensures AlwaysFair(n) <==> WRAP % n == 0
  {
    if WRAP % n == 0 {
      forall start, k, i, j | 0 <= start < WRAP && 0 <= k && 0 <= i < n && 0 <= j < n
        ensures Count(start, k, n, i) - Count(start, k, n, j) <= 1
      {
        DivisorHidesWrap(start, k, n, i);
        DivisorHidesWrap(start, k, n, j);
        FloorDifference(start + (n - 1 - i), k, n);
        FloorDifference(start + (n - 1 - j), k, n);
      }
    } else {
      UnfairAtWrap(n);
      var r := WRAP % n;
      assert Count(WRAP - r, r + 1, n, 0) - Count(WRAP - r, r + 1, n, n - 1) == 2;
    }
  }
}
