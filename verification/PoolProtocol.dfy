/** The pool under concurrency. Probers add, a remover evicts, and selectors take a snapshot,
    decide outside the lock and only then mark the entry they chose. Every lock-protected
    operation is one step; steps of different threads interleave freely. */
module PoolProtocol {
  import opened Options
  import opened Tallies
  import opened Probes
  import opened HotCold
  import Runs

  datatype Selector = Idle | Deciding(snapshot: seq<ProbeEntry>)

  /** `uses` has every entry ever added as a key, with its current use count. There is one
      `selectors` cell per selection that may be between snapshot and mark at the same time. */
  datatype State = State(pool: seq<ProbeEntry>, uses: map<ProbeEntry, int>, selectors: seq<Selector>)

  datatype Config = Config(maxSize: nat, ageLimit: int, q: real)

  datatype Step =
    | Add(e: ProbeEntry)
    | Snapshot(who: nat, now: int)
    | Decide(who: nat, up: set<Server>)
    | Evict(threshold: int, removeOldest: bool)

  function Start(selectors: nat): State {
    State([], map[], seq(selectors, _ => Idle))
  }

  /** Probers add only newly allocated entries, whose budget is at least 1 (Reuse.BudgetAtLeastOne). */
  predicate Enabled(s: State, step: Step) {
    match step
    case Add(e) => e !in s.uses && e.maxUses >= 1
    case Snapshot(who, _) => who < |s.selectors| && s.selectors[who].Idle?
    case Decide(who, _) =>
      && who < |s.selectors| && s.selectors[who].Deciding?
      && forall e | e in s.selectors[who].snapshot :: e in s.uses
    case Evict(_, _) => true
  }

  /** MarkUsed(e) by a selector that is then through. */
  function Marked(s: State, who: nat, e: ProbeEntry): State
    requires who < |s.selectors| && e in s.uses
  {
    var n := s.uses[e] + 1;
    State(AfterMark(s.pool, e, n), s.uses[e := n], s.selectors[who := Idle])
  }

  function Apply(c: Config, s: State, step: Step): State
    requires Enabled(s, step)
  {
    match step
    case Add(e) =>
      s.(pool := AfterAdd(s.pool, c.maxSize, e), uses := s.uses[e := 0])
    case Snapshot(who, now) =>
      s.(selectors := s.selectors[who := Deciding(FreshOf(s.pool, now, c.ageLimit))])
    case Decide(who, up) =>
      var choice := PrequalEntry(s.selectors[who].snapshot, up, c.q);
      if choice.None? then s.(selectors := s.selectors[who := Idle])
      else Marked(s, who, choice.value)
    case Evict(threshold, removeOldest) =>
      s.(pool := AfterRemoveWorst(s.pool, threshold, removeOldest))
  }

  function Next(c: Config): (State, Step) -> Option<State> {
    (s: State, step: Step) => if Enabled(s, step) then Some(Apply(c, s, step)) else None
  }

  function Run(c: Config, s: State, steps: seq<Step>): Option<State> {
    Runs.Run(Next(c), s, steps)
  }

  // ---- The invariant ---------------------------------------------------------------------

  function Holds(e: ProbeEntry): Selector -> int {
    (s: Selector) => if s.Deciding? && e in s.snapshot then 1 else 0
  }

  /** Selectors that took e in their snapshot and have not marked yet. */
  function Holders(s: State, e: ProbeEntry): int {
    Tally(s.selectors, Holds(e))
  }

  ghost predicate PoolSafe(c: Config, s: State) {
    && |s.pool| <= c.maxSize
    && Distinct(s.pool)
    && (forall e | e in s.pool :: e in s.uses && s.uses[e] < e.maxUses)
  }

  ghost predicate SnapshotsKnown(s: State) {
    forall i | 0 <= i < |s.selectors| && s.selectors[i].Deciding? ::
      forall e | e in s.selectors[i].snapshot :: e in s.uses
  }

  /** Uses already made plus uses still possible stay within MaxUses - 1 + K. */
  ghost predicate Charged(s: State, e: ProbeEntry)
    requires e in s.uses
  {
    0 <= s.uses[e] && s.uses[e] + Holders(s, e) <= e.maxUses - 1 + |s.selectors|
  }

  ghost predicate Inv(c: Config, s: State) {
    && PoolSafe(c, s)
    && SnapshotsKnown(s)
    && forall e | e in s.uses :: Charged(s, e)
  }

  lemma HoldersBounds(s: State, e: ProbeEntry)
    ensures 0 <= Holders(s, e) <= |s.selectors|
  {
    TallyConstant(s.selectors, (_: Selector) => 0, 0);
    TallyConstant(s.selectors, (_: Selector) => 1, 1);
    TallyAtMost(s.selectors, (_: Selector) => 0, Holds(e));
    TallyAtMost(s.selectors, Holds(e), (_: Selector) => 1);
  }

  lemma NobodyHoldsNewcomer(s: State, e: ProbeEntry)
    requires SnapshotsKnown(s) && e !in s.uses
    ensures Holders(s, e) == 0
  {
    forall x | x in s.selectors ensures Holds(e)(x) == 0 {
      var i :| 0 <= i < |s.selectors| && s.selectors[i] == x;
    }
    TallyConstant(s.selectors, Holds(e), 0);
  }

  lemma {:induction false} WithoutFirstKeeps(s: seq<ProbeEntry>, e: ProbeEntry)
    requires Distinct(s)
    ensures var r := WithoutFirst(s, e);
      Distinct(r) && e !in r && forall x | x != e :: x in r <==> x in s
  {
    if s != [] {
      assert s[0] !in s[1..];
      if s[0] != e {
        var rest := WithoutFirst(s[1..], e);
        WithoutFirstKeeps(s[1..], e);
        assert s[0] !in rest;
        assert Distinct([s[0]] + rest);
      }
    }
  }

  lemma AddKeepsInv(c: Config, s: State, e: ProbeEntry)
    requires Inv(c, s) && c.maxSize > 0 && Enabled(s, Add(e))
    ensures Inv(c, Apply(c, s, Add(e)))
  {
    var t := Apply(c, s, Add(e));
    var kept := if |s.pool| >= c.maxSize then Without(s.pool, ArgMin(s.pool, AgeKey())) else s.pool;
    if |s.pool| >= c.maxSize {
      WithoutKeeps(s.pool, ArgMin(s.pool, AgeKey()));
    }
    assert t.pool == kept + [e] && e !in kept;
    assert PoolSafe(c, t);
    NobodyHoldsNewcomer(s, e);
    forall x | x in t.uses ensures Charged(t, x) {
      assert x != e ==> Charged(s, x);
    }
  }

  lemma SnapshotKeepsInv(c: Config, s: State, who: nat, now: int)
    requires Inv(c, s) && Enabled(s, Snapshot(who, now))
    ensures Inv(c, Apply(c, s, Snapshot(who, now)))
  {
    var t := Apply(c, s, Snapshot(who, now));
    forall e | e in t.uses ensures Charged(t, e) {
      assert Charged(s, e);
      TallyUpdate(s.selectors, who, t.selectors[who], Holds(e));
      HoldersBounds(t, e);
    }
  }

  lemma MarkKeepsInv(c: Config, s: State, who: nat, e: ProbeEntry)
    requires Inv(c, s) && who < |s.selectors| && s.selectors[who].Deciding?
    requires e in s.selectors[who].snapshot
    ensures e in s.uses && Inv(c, Marked(s, who, e))
  {
    assert e in s.uses;
    var t := Marked(s, who, e);
    WithoutFirstKeeps(s.pool, e);
    assert PoolSafe(c, t);
    assert SnapshotsKnown(t);
    forall x | x in t.uses ensures Charged(t, x) {
      assert x in s.uses && Charged(s, x);
      TallyUpdate(s.selectors, who, Idle, Holds(x));
    }
  }

  lemma GiveUpKeepsInv(c: Config, s: State, who: nat)
    requires Inv(c, s) && who < |s.selectors|
    ensures Inv(c, s.(selectors := s.selectors[who := Idle]))
  {
    var t := s.(selectors := s.selectors[who := Idle]);
    forall x | x in t.uses ensures Charged(t, x) {
      assert Charged(s, x);
      TallyUpdate(s.selectors, who, Idle, Holds(x));
    }
  }

  lemma DecideKeepsInv(c: Config, s: State, who: nat, up: set<Server>)
    requires Inv(c, s) && Enabled(s, Decide(who, up))
    ensures Inv(c, Apply(c, s, Decide(who, up)))
  {
    var choice := PrequalEntry(s.selectors[who].snapshot, up, c.q);
    if choice.None? {
      GiveUpKeepsInv(c, s, who);
    } else {
      MarkKeepsInv(c, s, who, choice.value);
    }
  }

  lemma EvictKeepsInv(c: Config, s: State, threshold: int, removeOldest: bool)
    requires Inv(c, s)
    ensures Inv(c, Apply(c, s, Evict(threshold, removeOldest)))
  {
    var t := Apply(c, s, Evict(threshold, removeOldest));
    if s.pool != [] {
      WithoutKeeps(s.pool, ArgMin(s.pool, if removeOldest then AgeKey() else EvictKey(threshold)));
    }
    assert PoolSafe(c, t);
    forall e | e in t.uses ensures Charged(t, e) {
      assert Charged(s, e);
    }
  }

  lemma StepKeepsInv(c: Config, s: State, step: Step)
    requires Inv(c, s) && Enabled(s, step) && c.maxSize > 0
    ensures Inv(c, Apply(c, s, step))
  {
    match step {
      case Add(e) => AddKeepsInv(c, s, e);
      case Snapshot(who, now) => SnapshotKeepsInv(c, s, who, now);
      case Decide(who, up) => DecideKeepsInv(c, s, who, up);
      case Evict(threshold, removeOldest) => EvictKeepsInv(c, s, threshold, removeOldest);
    }
  }

  lemma {:induction false} RunKeepsInv(c: Config, s: State, steps: seq<Step>)
    requires Inv(c, s) && c.maxSize > 0 && Run(c, s, steps).Some?
    ensures Inv(c, Run(c, s, steps).value)
    ensures |Run(c, s, steps).value.selectors| == |s.selectors|
  {
    if steps != [] {
      RunKeepsInv(c, s, steps[..|steps| - 1]);
      StepKeepsInv(c, Run(c, s, steps[..|steps| - 1]).value, steps[|steps| - 1]);
    }
  }

  /** Pool safety over every run: bounded, no duplicates, and nothing exhausted is stored. */
  lemma PoolSafety(c: Config, selectors: nat, steps: seq<Step>)
    requires c.maxSize > 0 && Run(c, Start(selectors), steps).Some?
    ensures PoolSafe(c, Run(c, Start(selectors), steps).value)
  {
    RunKeepsInv(c, Start(selectors), steps);
  }

  /** With at most K selections between snapshot and mark, no entry is ever used more than
      MaxUses + K - 1 times, evicted or not. */
  lemma ReuseBound(c: Config, selectors: nat, steps: seq<Step>, e: ProbeEntry)
    requires c.maxSize > 0 && Run(c, Start(selectors), steps).Some?
    requires e in Run(c, Start(selectors), steps).value.uses
    ensures Run(c, Start(selectors), steps).value.uses[e] <= e.maxUses + selectors - 1
  {
    RunKeepsInv(c, Start(selectors), steps);
    var t := Run(c, Start(selectors), steps).value;
    assert Charged(t, e);
    HoldersBounds(t, e);
  }

  // ---- Departed entries ----------------------------------------------------------------

  ghost predicate Departed(s: State, e: ProbeEntry) {
    e in s.uses && e !in s.pool
  }

  lemma {:induction false} WithoutFirstSubset(s: seq<ProbeEntry>, e: ProbeEntry)
    ensures forall x | x in WithoutFirst(s, e) :: x in s
  {
    if s != [] { WithoutFirstSubset(s[1..], e); }
  }

  /** Uses made and still to be made of a departed entry. */
  function Account(s: State, e: ProbeEntry): int
    requires e in s.uses
  {
    s.uses[e] + Holders(s, e)
  }

  lemma DepartedMark(s: State, who: nat, x: ProbeEntry, e: ProbeEntry)
    requires who < |s.selectors| && s.selectors[who].Deciding? && x in s.selectors[who].snapshot
    requires x in s.uses && Departed(s, e)
    ensures var t := Marked(s, who, x);
      Departed(t, e) && Account(t, e) <= Account(s, e) && s.uses[e] <= t.uses[e]
  {
    TallyUpdate(s.selectors, who, Idle, Holds(e));
    WithoutFirstSubset(s.pool, x);
  }

  lemma DepartedStep(c: Config, s: State, step: Step, e: ProbeEntry)
    requires Enabled(s, step) && Departed(s, e)
    ensures var t := Apply(c, s, step);
      Departed(t, e) && Account(t, e) <= Account(s, e) && s.uses[e] <= t.uses[e]
  {
    var t := Apply(c, s, step);
    match step {
      case Add(x) =>
      case Snapshot(who, now) =>
        TallyUpdate(s.selectors, who, t.selectors[who], Holds(e));
      case Decide(who, up) =>
        TallyUpdate(s.selectors, who, Idle, Holds(e));
        var choice := PrequalEntry(s.selectors[who].snapshot, up, c.q);
        if choice.Some? {
          DepartedMark(s, who, choice.value, e);
        }
      case Evict(_, _) =>
    }
  }

  /** A departed entry never returns, and only the selectors that held it at some earlier
      moment can still use it, once each. */
  lemma {:induction false} DepartedOnlyDrains(c: Config, s: State, steps: seq<Step>, e: ProbeEntry)
    requires Run(c, s, steps).Some? && Departed(s, e)
    ensures var t := Run(c, s, steps).value;
      Departed(t, e) && s.uses[e] <= t.uses[e] <= s.uses[e] + Holders(s, e) - Holders(t, e)
  {
    if steps != [] {
      DepartedOnlyDrains(c, s, steps[..|steps| - 1], e);
      DepartedStep(c, Run(c, s, steps[..|steps| - 1]).value, steps[|steps| - 1], e);
    }
  }

  // ---- The bound is exact -----------------------------------------------------------------

  /** Two probes that are always fresh, `a` being preferred whatever the quantile. */
  ghost predicate Rivals(a: ProbeEntry, b: ProbeEntry) {
    && a != b && a.rif == b.rif && a.latencyMs < b.latencyMs
    && a.timestamp == b.timestamp && a.maxUses >= 1 && b.maxUses >= 1
  }

  lemma PreferredRival(a: ProbeEntry, b: ProbeEntry, q: real)
    requires Rivals(a, b)
    ensures PrequalEntry([a, b], {a.server, b.server}, q) == Some(a)
  {
    var up := {a.server, b.server};
    assert Rifs([a, b]) == [a.rif, a.rif];
    assert Threshold([a, b], q) == a.rif;
    assert IsChoice([a, b], up, a.rif, 0);
    ChoiceUnique([a, b], up, a.rif, 0);
  }

  lemma BothFresh(a: ProbeEntry, b: ProbeEntry, ageLimit: int)
    requires Rivals(a, b) && 0 <= ageLimit
    ensures FreshOf([a, b], a.timestamp, ageLimit) == [a, b]
  {
    FreshOne(a, a.timestamp, ageLimit);
    assert [a, b][..1] == [a];
  }

  lemma RunExtends(c: Config, start: State, steps: seq<Step>, s: State, step: Step, t: State)
    requires Run(c, start, steps) == Some(s) && Enabled(s, step) && Apply(c, s, step) == t
    ensures Run(c, start, steps + [step]) == Some(t)
  {
    Runs.RunExtends(Next(c), start, steps, s, step);
  }

  /** The rivals were added, a has n uses (and is stored while that is below its budget), and the
      selectors are as given. */
  function Contest(a: ProbeEntry, b: ProbeEntry, n: int, selectors: seq<Selector>): State {
    State(if n < a.maxUses then [a, b] else [b], map[a := n, b := 0], selectors)
  }

  lemma AddRivals(c: Config, k: nat, a: ProbeEntry, b: ProbeEntry)
    requires c.maxSize >= 2 && Rivals(a, b)
    ensures Run(c, Start(k), [] + [Add(a)] + [Add(b)]) == Some(Contest(a, b, 0, Start(k).selectors))
  {
    var one := State([a], map[a := 0], Start(k).selectors);
    assert [] + [a] == [a] && [a] + [b] == [a, b];
    RunExtends(c, Start(k), [], Start(k), Add(a), one);
    assert map[a := 0][b := 0] == map[a := 0, b := 0];
    RunExtends(c, Start(k), [] + [Add(a)], one, Add(b), Contest(a, b, 0, Start(k).selectors));
  }

  /** Selector `who` takes both rivals into its snapshot. */
  lemma TakeRivals(
    c: Config, k: nat, steps: seq<Step>, a: ProbeEntry, b: ProbeEntry, n: int, selectors: seq<Selector>, who: nat)
    requires Rivals(a, b) && 0 <= c.ageLimit && n < a.maxUses
    requires who < |selectors| && selectors[who].Idle?
    requires Run(c, Start(k), steps) == Some(Contest(a, b, n, selectors))
    ensures Run(c, Start(k), steps + [Snapshot(who, a.timestamp)])
         == Some(Contest(a, b, n, selectors[who := Deciding([a, b])]))
  {
    BothFresh(a, b, c.ageLimit);
    RunExtends(c, Start(k), steps, Contest(a, b, n, selectors), Snapshot(who, a.timestamp),
      Contest(a, b, n, selectors[who := Deciding([a, b])]));
  }

  lemma MarkRival(c: Config, a: ProbeEntry, b: ProbeEntry, n: int, selectors: seq<Selector>, who: nat)
    requires Rivals(a, b) && who < |selectors| && selectors[who] == Deciding([a, b])
    ensures var step := Decide(who, {a.server, b.server});
      && Enabled(Contest(a, b, n, selectors), step)
      && Apply(c, Contest(a, b, n, selectors), step) == Contest(a, b, n + 1, selectors[who := Idle])
  {
    hide PrequalEntry;
    PreferredRival(a, b, c.q);
    assert WithoutFirst([a, b], a) == [b];
    WithoutFirstMissing([b], a);
    assert map[a := n, b := 0][a := n + 1] == map[a := n + 1, b := 0];
  }

  /** Selector `who` marks its choice: a gains a use and leaves once its budget is spent. */
  lemma UseRival(
    c: Config, k: nat, steps: seq<Step>, a: ProbeEntry, b: ProbeEntry, n: int, selectors: seq<Selector>, who: nat)
    requires Rivals(a, b) && who < |selectors| && selectors[who] == Deciding([a, b])
    requires Run(c, Start(k), steps) == Some(Contest(a, b, n, selectors))
    ensures Run(c, Start(k), steps + [Decide(who, {a.server, b.server})])
         == Some(Contest(a, b, n + 1, selectors[who := Idle]))
  {
    hide Run;
    var step := Decide(who, {a.server, b.server});
    MarkRival(c, a, b, n, selectors, who);
    RunExtends(c, Start(k), steps, Contest(a, b, n, selectors), step, Contest(a, b, n + 1, selectors[who := Idle]));
  }

  lemma {:induction false} ReachUses(
    c: Config, k: nat, a: ProbeEntry, b: ProbeEntry, n: nat) returns (steps: seq<Step>)
    requires c.maxSize >= 2 && 0 <= c.ageLimit && k >= 1 && Rivals(a, b) && n < a.maxUses
    ensures Run(c, Start(k), steps) == Some(Contest(a, b, n, Start(k).selectors))
  {
    hide Run;
    var idle := Start(k).selectors;
    if n == 0 {
      AddRivals(c, k, a, b);
      steps := [] + [Add(a)] + [Add(b)];
    } else {
      steps := ReachUses(c, k, a, b, n - 1);
      TakeRivals(c, k, steps, a, b, n - 1, idle, 0);
      steps := steps + [Snapshot(0, a.timestamp)];
      var held := idle[0 := Deciding([a, b])];
      UseRival(c, k, steps, a, b, n - 1, held, 0);
      steps := steps + [Decide(0, {a.server, b.server})];
      assert held[0 := Idle] == idle;
    }
  }

  /** k selectors of which exactly those from `from` up to `to` hold the rivals. */
  function Holding(a: ProbeEntry, b: ProbeEntry, k: nat, from: nat, to: nat): (r: seq<Selector>)
    requires from <= to <= k
  {
    seq(k, i => if from <= i < to then Deciding([a, b]) else Idle)
  }

  lemma HoldingGrows(a: ProbeEntry, b: ProbeEntry, k: nat, j: nat)
    requires j < k
    ensures Holding(a, b, k, 0, j)[j := Deciding([a, b])] == Holding(a, b, k, 0, j + 1)
    ensures Holding(a, b, k, j, k)[j := Idle] == Holding(a, b, k, j + 1, k)
  {}

  /** The first j selectors take their snapshots while a has one use left. */
  lemma {:induction false} ReachHolders(
    c: Config, k: nat, a: ProbeEntry, b: ProbeEntry, j: nat) returns (steps: seq<Step>)
    requires c.maxSize >= 2 && 0 <= c.ageLimit && 1 <= k && j <= k && Rivals(a, b)
    ensures Run(c, Start(k), steps) == Some(Contest(a, b, a.maxUses - 1, Holding(a, b, k, 0, j)))
  {
    hide Run;
    if j == 0 {
      steps := ReachUses(c, k, a, b, a.maxUses - 1);
      assert Start(k).selectors == Holding(a, b, k, 0, 0);
    } else {
      steps := ReachHolders(c, k, a, b, j - 1);
      TakeRivals(c, k, steps, a, b, a.maxUses - 1, Holding(a, b, k, 0, j - 1), j - 1);
      steps := steps + [Snapshot(j - 1, a.timestamp)];
      HoldingGrows(a, b, k, j - 1);
    }
  }

  /** Then the first j of all k selectors mark a; the first mark evicts it. */
  lemma {:induction false} ReachOveruse(
    c: Config, k: nat, a: ProbeEntry, b: ProbeEntry, j: nat) returns (steps: seq<Step>)
    requires c.maxSize >= 2 && 0 <= c.ageLimit && j <= k && 1 <= k && Rivals(a, b)
    ensures Run(c, Start(k), steps) == Some(Contest(a, b, a.maxUses - 1 + j, Holding(a, b, k, j, k)))
  {
    hide Run;
    if j == 0 {
      steps := ReachHolders(c, k, a, b, k);
    } else {
      steps := ReachOveruse(c, k, a, b, j - 1);
      UseRival(c, k, steps, a, b, a.maxUses - 1 + (j - 1), Holding(a, b, k, j - 1, k), j - 1);
      steps := steps + [Decide(j - 1, {a.server, b.server})];
      HoldingGrows(a, b, k, j - 1);
    }
  }

  /** ReuseBound cannot be improved: in a pool of at least two cells, K >= 1 concurrent selectors
      can drive an entry to exactly MaxUses + K - 1 uses, for every budget and quantile. In
      particular UseCount <= MaxUses fails as soon as two selections overlap. */
  lemma ReuseBoundAttained(c: Config, k: nat, a: ProbeEntry, b: ProbeEntry)
    requires c.maxSize >= 2 && 0 <= c.ageLimit && k >= 1 && Rivals(a, b)
    ensures exists steps :: (
      && Run(c, Start(k), steps).Some?
      && a in Run(c, Start(k), steps).value.uses
      && Run(c, Start(k), steps).value.uses[a] == a.maxUses + k - 1)
  {
    var steps := ReachOveruse(c, k, a, b, k);
    assert Run(c, Start(k), steps).value.uses[a] == a.maxUses + k - 1;
  }

  // ---- A one-cell pool is never used ------------------------------------------------------

  ghost predicate Unused(c: Config, s: State) {
    && |s.pool| <= 1
    && (forall e | e in s.uses :: s.uses[e] == 0 && e.maxUses >= 1)
    && (forall i | 0 <= i < |s.selectors| && s.selectors[i].Deciding? :: |s.selectors[i].snapshot| <= 1)
  }

  lemma UnusedStep(c: Config, s: State, step: Step)
    requires c.maxSize == 1 && Unused(c, s) && Enabled(s, step)
    ensures Unused(c, Apply(c, s, step))
  {}

  /** With a single cell HCL never has the two entries it needs, so nothing is ever reused. */
  lemma {:induction false} OneCellNeverUsed(c: Config, selectors: nat, steps: seq<Step>)
    requires c.maxSize == 1 && Run(c, Start(selectors), steps).Some?
    ensures Unused(c, Run(c, Start(selectors), steps).value)
  {
    if steps != [] {
      OneCellNeverUsed(c, selectors, steps[..|steps| - 1]);
      UnusedStep(c, Run(c, Start(selectors), steps[..|steps| - 1]).value, steps[|steps| - 1]);
    }
  }
  // ---- What single steps change ------------------------------------------------------------

  /** In reachable states the guards exclude nothing that threads can do: a selection may start in
      any idle cell, an added probe must only be new with a positive budget, and a selector that has
      its snapshot may always decide. */
  lemma EnabledIff(c: Config, selectors: nat, steps: seq<Step>, step: Step)
    requires c.maxSize > 0 && Run(c, Start(selectors), steps).Some?
    ensures var s := Run(c, Start(selectors), steps).value;
      && |s.selectors| == selectors
      && (Enabled(s, step) <==> match step
          case Add(e) => e !in s.uses && e.maxUses >= 1
          case Snapshot(who, _) => who < |s.selectors| && s.selectors[who] == Idle
          case Decide(who, _) => who < |s.selectors| && s.selectors[who] != Idle
          case Evict(_, _) => true)
  {
    RunKeepsInv(c, Start(selectors), steps);
  }

  /** An eviction is always possible and takes exactly one entry of a non-empty pool, the oldest or
      the worst as asked; no use is charged and no snapshot changes. */
  lemma EvictTakesOne(c: Config, s: State, threshold: int, removeOldest: bool)
    requires s.pool != []
    ensures Enabled(s, Evict(threshold, removeOldest))
    ensures var t := Apply(c, s, Evict(threshold, removeOldest));
      && t.uses == s.uses && t.selectors == s.selectors
      && exists w :: (
           && IsArgMin(s.pool, if removeOldest then AgeKey() else EvictKey(threshold), w)
           && t.pool == Without(s.pool, w))
  {
    var w := ArgMin(s.pool, if removeOldest then AgeKey() else EvictKey(threshold));
    assert IsArgMin(s.pool, if removeOldest then AgeKey() else EvictKey(threshold), w);
  }

  /** A decision frees its selector. It charges one use to one entry of the snapshot, of an `up`
      server, which leaves the pool if that exhausts it; or, with fewer than two entries or no
      `up` server in the snapshot, it charges nothing. */
  lemma DecisionCharges(c: Config, s: State, who: nat, up: set<Server>)
    requires Enabled(s, Decide(who, up))
    ensures var t := Apply(c, s, Decide(who, up)); var snapshot := s.selectors[who].snapshot;
      && t.selectors == s.selectors[who := Idle]
      && if |snapshot| < 2 || NoneUp(snapshot, up) then t.pool == s.pool && t.uses == s.uses
         else exists e | e in snapshot && e.server in up ::
           && t.uses == s.uses[e := s.uses[e] + 1]
           && t.pool == if s.uses[e] + 1 >= e.maxUses then WithoutFirst(s.pool, e) else s.pool
  {
    var snapshot := s.selectors[who].snapshot;
    FallbackIff(snapshot, up, c.q);
    if PrequalEntry(snapshot, up, c.q).Some? {
      ChargedMeans(snapshot, up, c.q);
    }
  }

  // ---- When the budget is a bound -----------------------------------------------------------

  ghost predicate WithinBudget(s: State) {
    forall e | e in s.uses :: s.uses[e] <= e.maxUses
  }

  /** The reuse budget bounds every use count, over all runs, exactly without concurrent
      selections or with a single cell. The two probes show that the failure is real. */
  lemma WithinBudgetIff(c: Config, selectors: nat, a: ProbeEntry, b: ProbeEntry)
    requires c.maxSize > 0 && 0 <= c.ageLimit && Rivals(a, b)
    ensures (forall steps | Run(c, Start(selectors), steps).Some? ::
               WithinBudget(Run(c, Start(selectors), steps).value))
       <==> selectors <= 1 || c.maxSize == 1
  {
    if selectors <= 1 || c.maxSize == 1 {
      forall steps | Run(c, Start(selectors), steps).Some?
        ensures WithinBudget(Run(c, Start(selectors), steps).value)
      {
        NeverOverused(c, selectors, steps);
      }
    } else {
      ReuseBoundAttained(c, selectors, a, b);
    }
  }

  lemma NeverOverused(c: Config, selectors: nat, steps: seq<Step>)
    requires c.maxSize > 0 && Run(c, Start(selectors), steps).Some? && (selectors <= 1 || c.maxSize == 1)
    ensures WithinBudget(Run(c, Start(selectors), steps).value)
  {
    hide Run;
    var t := Run(c, Start(selectors), steps).value;
    if c.maxSize == 1 {
      OneCellNeverUsed(c, selectors, steps);
    } else {
      forall e | e in t.uses ensures t.uses[e] <= e.maxUses {
        ReuseBound(c, selectors, steps, e);
      }
    }
  }
}
