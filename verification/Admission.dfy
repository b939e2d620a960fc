/** Backend admission: every request is a small process over the shared request counter, the
    bounded backlog channel and the bounded slot channel. Each atomic operation is one step. */
module Admission {
  import opened Tallies
  import opened Latency
  import opened Options
  import Runs

  /** Actions a handler has deferred; they run last-in first-out when it returns. */
  datatype Deferred = RecordLatency | LeaveRif | FreeQueue | StopTimer | FreeSlot

  datatype Reply = Overloaded | QueueTimeout | Served

  /** Where a handler is. Returning with nothing deferred is finished. */
  datatype Place = AtQueue | AtSlot(timerFired: bool) | Working | Returning(reply: Reply)

  datatype Request = Request(place: Place, arrivalRif: int, deferred: seq<Deferred>)

  datatype State = State(
    requests: seq<Request>, rif: int, queue: nat, slots: nat, log: seq<Success>, store: Store)

  datatype Step =
    | Arrive
    | TryQueue(id: nat)
    | TimerFires(id: nat)
    | TakeSlot(id: nat)
    | TimeOut(id: nat)
    | Finish(id: nat)
    | RunDeferred(id: nat, latencyMs: nat)

  function Start(): State {
    State([], 0, 0, 0, [], EmptyStore())
  }

  function QueueCapacity(maxConc: nat): nat { 3 * maxConc }

  predicate Done(r: Request) {
    r.place.Returning? && r.deferred == []
  }

  /** A receive from an empty channel and a send to a full one block. A waiting request may take
      a free slot even after its timer fired, and time out even when a slot is free: the select
      statement picks freely among ready cases. */
  predicate Enabled(maxConc: nat, s: State, step: Step) {
    if step.Arrive? then true
    else
      && step.id < |s.requests|
      && var r := s.requests[step.id];
      match step
      case TryQueue(_) => r.place.AtQueue?
      case TimerFires(_) => r.place == AtSlot(false)
      case TakeSlot(_) => r.place.AtSlot? && s.slots < maxConc
      case TimeOut(_) => r.place == AtSlot(true)
      case Finish(_) => r.place.Working?
      case RunDeferred(_, _) =>
        && r.place.Returning? && r.deferred != []
        && (Top(r) == FreeQueue ==> s.queue > 0)
        && (Top(r) == FreeSlot ==> s.slots > 0)
      case Arrive => true
  }

  function Top(r: Request): Deferred
    requires r.deferred != []
  {
    r.deferred[|r.deferred| - 1]
  }

  function Popped(r: Request): Request
    requires r.deferred != []
  {
    r.(deferred := r.deferred[..|r.deferred| - 1])
  }

  function Move(s: State, id: nat, r: Request): State
    requires id < |s.requests|
  {
    s.(requests := s.requests[id := r])
  }

  function Apply(maxConc: nat, s: State, step: Step): State
    requires Enabled(maxConc, s, step)
  {
    match step
    case Arrive =>
      s.(rif := s.rif + 1,
         requests := s.requests + [Request(AtQueue, s.rif + 1 - 1, [RecordLatency, LeaveRif])])
    case TryQueue(id) =>
      var r := s.requests[id];
      if s.queue < QueueCapacity(maxConc) then
        Move(s, id, r.(place := AtSlot(false), deferred := r.deferred + [FreeQueue, StopTimer])).(queue := s.queue + 1)
      else
        Move(s, id, r.(place := Returning(Overloaded)))
    case TimerFires(id) =>
      Move(s, id, s.requests[id].(place := AtSlot(true)))
    case TakeSlot(id) =>
      var r := s.requests[id];
      Move(s, id, r.(place := Working, deferred := r.deferred + [FreeSlot])).(slots := s.slots + 1)
    case TimeOut(id) =>
      Move(s, id, s.requests[id].(place := Returning(QueueTimeout)))
    case Finish(id) =>
      Move(s, id, s.requests[id].(place := Returning(Served)))
    case RunDeferred(id, latencyMs) =>
      var r := s.requests[id];
      var t := Move(s, id, Popped(r));
      match Top(r)
      case FreeSlot => t.(slots := s.slots - 1)
      case StopTimer => t
      case FreeQueue => t.(queue := s.queue - 1)
      case LeaveRif => t.(rif := s.rif - 1)
      case RecordLatency =>
        if r.place == Returning(Served) then
          var x := Success(r.arrivalRif, latencyMs);
          t.(log := s.log + [x], store := Recorded(s.store, x))
        else t
  }

  function Next(maxConc: nat): (State, Step) -> Option<State> {
    (s: State, step: Step) => if Enabled(maxConc, s, step) then Some(Apply(maxConc, s, step)) else None
  }

  /** The steps lead from s to t. */
  predicate CanRun(maxConc: nat, s: State, steps: seq<Step>, t: State) {
    Runs.Run(Next(maxConc), s, steps) == Some(t)
  }

  // ---- What a request holds ----------------------------------------------------------------

  function Live(): Request -> int { (r: Request) => if LeaveRif in r.deferred then 1 else 0 }

  function InQueue(): Request -> int { (r: Request) => if FreeQueue in r.deferred then 1 else 0 }

  function InSlot(): Request -> int { (r: Request) => if FreeSlot in r.deferred then 1 else 0 }

  function Logged(): Request -> int { (r: Request) => if Done(r) && r.place.reply.Served? then 1 else 0 }

  function LoggedAt(rif: int): Request -> int {
    (r: Request) => if r.arrivalRif == rif then Logged()(r) else 0
  }

  function RecordedAt(rif: int): Success -> int { (x: Success) => if x.rif == rif then 1 else 0 }

  /** The RIFs in the log are, as a multiset, the arrival RIFs of the logged requests. */
  ghost predicate LogMatches(s: State) {
    forall rif :: Tally(s.log, RecordedAt(rif)) == Tally(s.requests, LoggedAt(rif))
  }

  /** The deferred actions of a handler are a prefix of this list, so each release runs once. */
  const ALL_DEFERRED: seq<Deferred> := [RecordLatency, LeaveRif, FreeQueue, StopTimer, FreeSlot]

  ghost predicate WellFormed(r: Request) {
    && r.deferred <= ALL_DEFERRED
    && match r.place
       case AtQueue => |r.deferred| == 2
       case AtSlot(_) => |r.deferred| == 4
       case Working => |r.deferred| == 5
       case Returning(Overloaded) => |r.deferred| <= 2
       case Returning(QueueTimeout) => |r.deferred| <= 4
       case Returning(Served) => |r.deferred| <= 5
  }

  /** A prefix of ALL_DEFERRED is told by its length. */
  lemma Holdings(r: Request)
    requires r.deferred <= ALL_DEFERRED
    ensures LeaveRif in r.deferred <==> |r.deferred| >= 2
    ensures FreeQueue in r.deferred <==> |r.deferred| >= 3
    ensures FreeSlot in r.deferred <==> |r.deferred| >= 5
    ensures r.deferred != [] ==> Top(r) == ALL_DEFERRED[|r.deferred| - 1]
  {
    var d := r.deferred;
    assert forall i | 0 <= i < |d| :: d[i] == ALL_DEFERRED[i];
    if |d| >= 2 { assert d[1] == LeaveRif; }
    if |d| >= 3 { assert d[2] == FreeQueue; }
    if |d| >= 5 { assert d[4] == FreeSlot; }
  }

  ghost predicate Inv(maxConc: nat, s: State) {
    && (forall i | 0 <= i < |s.requests| :: WellFormed(s.requests[i]) && 0 <= s.requests[i].arrivalRif)
    && s.rif == Tally(s.requests, Live())
    && s.queue == Tally(s.requests, InQueue()) <= QueueCapacity(maxConc)
    && s.slots == Tally(s.requests, InSlot()) <= maxConc
    && |s.log| == Tally(s.requests, Logged())
    && LogMatches(s)
    && s.store == Replay(s.log)
    && forall i | 0 <= i < |s.log| :: 0 <= s.log[i].rif
  }

  lemma LiveNonNegative(s: State)
    ensures 0 <= Tally(s.requests, Live())
  {
    TallyConstant(s.requests, (_: Request) => 0, 0);
    TallyAtMost(s.requests, (_: Request) => 0, Live());
  }

  function Unit(b: bool): int { if b then 1 else 0 }

  /** Replacing one request keeps the invariant if the counters follow what it gains or drops. */
  lemma MoveKeepsInv(maxConc: nat, s: State, id: nat, r: Request, t: State)
    requires Inv(maxConc, s) && id < |s.requests| && WellFormed(r) && 0 <= r.arrivalRif
    requires t.requests == s.requests[id := r]
    requires var was := s.requests[id];
      && t.rif == s.rif - Unit(|was.deferred| >= 2) + Unit(|r.deferred| >= 2)
      && t.queue == s.queue - Unit(|was.deferred| >= 3) + Unit(|r.deferred| >= 3) <= QueueCapacity(maxConc)
      && t.slots == s.slots - Unit(|was.deferred| >= 5) + Unit(|r.deferred| >= 5) <= maxConc
      && |t.log| == |s.log| - Logged()(was) + Logged()(r)
      && forall rif :: Tally(t.log, RecordedAt(rif))
           == Tally(s.log, RecordedAt(rif)) - LoggedAt(rif)(was) + LoggedAt(rif)(r)
    requires t.store == Replay(t.log) && forall i | 0 <= i < |t.log| :: 0 <= t.log[i].rif
    ensures Inv(maxConc, t)
  {
    TallyUpdate(s.requests, id, r, Live());
    TallyUpdate(s.requests, id, r, InQueue());
    TallyUpdate(s.requests, id, r, InSlot());
    TallyUpdate(s.requests, id, r, Logged());
    forall rif ensures Tally(t.log, RecordedAt(rif)) == Tally(t.requests, LoggedAt(rif)) {
      TallyUpdate(s.requests, id, r, LoggedAt(rif));
    }
    assert WellFormed(s.requests[id]);
    Holdings(s.requests[id]);
    Holdings(r);
  }

  lemma ArriveKeepsInv(maxConc: nat, s: State)
    requires Inv(maxConc, s)
    ensures Inv(maxConc, Apply(maxConc, s, Arrive))
  {
    var r := Request(AtQueue, s.rif, [RecordLatency, LeaveRif]);
    assert r.deferred == ALL_DEFERRED[..2];
    Holdings(r);
    LiveNonNegative(s);
    TallyAppend(s.requests, [r], Live());
    TallyAppend(s.requests, [r], InQueue());
    TallyAppend(s.requests, [r], InSlot());
    TallyAppend(s.requests, [r], Logged());
    forall rif ensures Tally(s.log, RecordedAt(rif)) == Tally(s.requests + [r], LoggedAt(rif)) {
      TallyAppend(s.requests, [r], LoggedAt(rif));
    }
  }

  lemma QueueKeepsInv(maxConc: nat, s: State, id: nat)
    requires Inv(maxConc, s) && Enabled(maxConc, s, TryQueue(id))
    ensures Inv(maxConc, Apply(maxConc, s, TryQueue(id)))
  {
    var t := Apply(maxConc, s, TryQueue(id));
    assert WellFormed(s.requests[id]);
    assert ALL_DEFERRED[..4] == ALL_DEFERRED[..2] + [FreeQueue, StopTimer];
    assert s.requests[id].deferred == ALL_DEFERRED[..2];
    MoveKeepsInv(maxConc, s, id, t.requests[id], t);
  }

  lemma SlotKeepsInv(maxConc: nat, s: State, id: nat)
    requires Inv(maxConc, s) && Enabled(maxConc, s, TakeSlot(id))
    ensures Inv(maxConc, Apply(maxConc, s, TakeSlot(id)))
  {
    var t := Apply(maxConc, s, TakeSlot(id));
    assert WellFormed(s.requests[id]);
    assert ALL_DEFERRED[..5] == ALL_DEFERRED[..4] + [FreeSlot];
    assert s.requests[id].deferred == ALL_DEFERRED[..4];
    MoveKeepsInv(maxConc, s, id, t.requests[id], t);
  }

  lemma MarkKeepsInv(maxConc: nat, s: State, step: Step)
    requires Inv(maxConc, s) && Enabled(maxConc, s, step)
    requires step.TimerFires? || step.TimeOut? || step.Finish?
    ensures Inv(maxConc, Apply(maxConc, s, step))
  {
    var t := Apply(maxConc, s, step);
    assert WellFormed(s.requests[step.id]);
    MoveKeepsInv(maxConc, s, step.id, t.requests[step.id], t);
  }

  lemma ReleaseKeepsInv(maxConc: nat, s: State, id: nat, latencyMs: nat)
    requires Inv(maxConc, s) && Enabled(maxConc, s, RunDeferred(id, latencyMs))
    requires Top(s.requests[id]) != RecordLatency
    ensures Inv(maxConc, Apply(maxConc, s, RunDeferred(id, latencyMs)))
  {
    var t := Apply(maxConc, s, RunDeferred(id, latencyMs));
    var was := s.requests[id];
    assert WellFormed(was) && WellFormed(Popped(was));
    Holdings(was);
    MoveKeepsInv(maxConc, s, id, Popped(was), t);
  }

  lemma RecordKeepsInv(maxConc: nat, s: State, id: nat, latencyMs: nat)
    requires Inv(maxConc, s) && Enabled(maxConc, s, RunDeferred(id, latencyMs))
    requires Top(s.requests[id]) == RecordLatency
    ensures Inv(maxConc, Apply(maxConc, s, RunDeferred(id, latencyMs)))
  {
    hide Recorded, Replay;
    var t := Apply(maxConc, s, RunDeferred(id, latencyMs));
    var was := s.requests[id];
    assert WellFormed(was) && WellFormed(Popped(was));
    Holdings(was);
    var x := Success(was.arrivalRif, latencyMs);
    ReplayOneMore(s.log, x);
    forall rif ensures Tally(s.log + [x], RecordedAt(rif)) == Tally(s.log, RecordedAt(rif)) + RecordedAt(rif)(x) {
      TallyAppend(s.log, [x], RecordedAt(rif));
    }
    MoveKeepsInv(maxConc, s, id, Popped(was), t);
  }

  lemma StepKeepsInv(maxConc: nat, s: State, step: Step)
    requires Inv(maxConc, s) && Enabled(maxConc, s, step)
    ensures Inv(maxConc, Apply(maxConc, s, step))
  {
    match step {
      case Arrive => ArriveKeepsInv(maxConc, s);
      case RunDeferred(id, latencyMs) =>
        if Top(s.requests[id]) == RecordLatency {
          RecordKeepsInv(maxConc, s, id, latencyMs);
        } else {
          ReleaseKeepsInv(maxConc, s, id, latencyMs);
        }
      case TryQueue(id) => QueueKeepsInv(maxConc, s, id);
      case TakeSlot(id) => SlotKeepsInv(maxConc, s, id);
      case _ => MarkKeepsInv(maxConc, s, step);
    }
  }

  lemma {:induction false} RunKeepsInv(maxConc: nat, s: State, steps: seq<Step>, t: State)
    requires Inv(maxConc, s) && CanRun(maxConc, s, steps, t)
    ensures Inv(maxConc, t)
  {
    if steps != [] {
      var last := |steps| - 1;
      var u := Runs.Run(Next(maxConc), s, steps[..last]).value;
      RunKeepsInv(maxConc, s, steps[..last], u);
      StepKeepsInv(maxConc, u, steps[last]);
    }
  }

  lemma ReachableInv(maxConc: nat, steps: seq<Step>, t: State)
    requires CanRun(maxConc, Start(), steps, t)
    ensures Inv(maxConc, t)
  {
    RunKeepsInv(maxConc, Start(), steps, t);
  }

  // ---- Main results ------------------------------------------------------------------------

  /** In every reachable state the three shared counters are exactly the numbers of live,
      backlog-holding and slot-holding requests; slots <= backlog <= RIF, and both channels stay
      within capacity. */
  lemma CountersExact(maxConc: nat, steps: seq<Step>, t: State)
    requires CanRun(maxConc, Start(), steps, t)
    ensures t.rif == Tally(t.requests, Live())
    ensures t.queue == Tally(t.requests, InQueue())
    ensures t.slots == Tally(t.requests, InSlot())
    ensures t.slots <= t.queue <= t.rif && t.slots <= maxConc && t.queue <= 3 * maxConc
  {
    ReachableInv(maxConc, steps, t);
    forall r | r in t.requests
      ensures InSlot()(r) <= InQueue()(r) <= Live()(r)
    {
      var i :| 0 <= i < |t.requests| && t.requests[i] == r;
      assert WellFormed(t.requests[i]);
      Holdings(r);
    }
    TallyAtMost(t.requests, InSlot(), InQueue());
    TallyAtMost(t.requests, InQueue(), Live());
  }

  /** No deferred release ever blocks: whatever a returning handler still has to run can run now. */
  lemma ReleasesNeverBlock(maxConc: nat, steps: seq<Step>, t: State, id: nat, latencyMs: nat)
    requires CanRun(maxConc, Start(), steps, t)
    requires id < |t.requests| && t.requests[id].place.Returning? && !Done(t.requests[id])
    ensures Enabled(maxConc, t, RunDeferred(id, latencyMs))
  {
    ReachableInv(maxConc, steps, t);
    var r := t.requests[id];
    Holdings(r);
    var none := (_: Request) => 0;
    TallyConstant(t.requests, none, 0);
    TallyGap(t.requests, none, InQueue(), id);
    TallyGap(t.requests, none, InSlot(), id);
  }

  /** "overloaded" is decided only while at least 3 * maxConc + 1 requests are live. */
  lemma OverloadedMeansFull(maxConc: nat, steps: seq<Step>, t: State, id: nat)
    requires CanRun(maxConc, Start(), steps, t) && Enabled(maxConc, t, TryQueue(id))
    requires Apply(maxConc, t, TryQueue(id)).requests[id].place == Returning(Overloaded)
    ensures t.rif >= 3 * maxConc + 1
  {
    ReachableInv(maxConc, steps, t);
    forall r | r in t.requests ensures InQueue()(r) <= Live()(r) {
      var i :| 0 <= i < |t.requests| && t.requests[i] == r;
      Holdings(t.requests[i]);
    }
    Holdings(t.requests[id]);
    TallyGap(t.requests, InQueue(), Live(), id);
  }

  /** In every reachable state each latency bucket is the last 50 successful latencies at that
      arrival RIF, no arrival RIF is negative, and exactly the served requests that have fully
      returned are logged, once each and at their own arrival RIF. */
  lemma BucketsMatchHistory(maxConc: nat, steps: seq<Step>, t: State, b: nat)
    requires CanRun(maxConc, Start(), steps, t) && b < BUCKETS
    ensures var kept, all := t.store[b], LatenciesAt(t.log, b);
      && |kept| == (if |all| < 50 then |all| else 50)
      && forall i | 0 <= i < |kept| :: kept[i] == all[|all| - |kept| + i]
    ensures forall i | 0 <= i < |t.log| :: 0 <= t.log[i].rif
    ensures |t.log| == Tally(t.requests, Logged()) && LogMatches(t)
  {
    hide Replay, LatenciesAt, LogMatches;
    ReachableInv(maxConc, steps, t);
    BucketIsLogWindow(t.log, b);
  }

  /** "queue_timeout" says nothing about the slots: a request can time out with all slots free. */
  lemma TimeoutWithFreeSlots(maxConc: nat)
    requires maxConc > 0
    ensures exists steps, t :: (
      && CanRun(maxConc, Start(), steps, t)
      && t.slots == 0 && |t.requests| == 1 && t.requests[0].place == Returning(QueueTimeout))
  {
    var a := Apply(maxConc, Start(), Arrive);
    var b := Apply(maxConc, a, TryQueue(0));
    var c := Apply(maxConc, b, TimerFires(0));
    var d := Apply(maxConc, c, TimeOut(0));
    ExtendRun(maxConc, Start(), [], Start(), Arrive);
    ExtendRun(maxConc, Start(), [] + [Arrive], a, TryQueue(0));
    ExtendRun(maxConc, Start(), [] + [Arrive] + [TryQueue(0)], b, TimerFires(0));
    ExtendRun(maxConc, Start(), [] + [Arrive] + [TryQueue(0)] + [TimerFires(0)], c, TimeOut(0));
    assert CanRun(maxConc, Start(), [] + [Arrive] + [TryQueue(0)] + [TimerFires(0)] + [TimeOut(0)], d);
  }

  // ---- What single steps decide and record ------------------------------------------------

  /** A request arrives with the number of requests live just before it, and keeps that RIF. */
  lemma ArrivalSeesLive(maxConc: nat, steps: seq<Step>, t: State)
    requires CanRun(maxConc, Start(), steps, t)
    ensures var s := Apply(maxConc, t, Arrive);
      && |s.requests| == |t.requests| + 1 && s.requests[..|t.requests|] == t.requests
      && s.requests[|t.requests|].arrivalRif == Tally(t.requests, Live())
  {
    CountersExact(maxConc, steps, t);
  }

  lemma ArrivalRifKept(maxConc: nat, s: State, step: Step, id: nat)
    requires Enabled(maxConc, s, step) && id < |s.requests|
    ensures |Apply(maxConc, s, step).requests| >= |s.requests|
    ensures Apply(maxConc, s, step).requests[id].arrivalRif == s.requests[id].arrivalRif
  {}

  /** A request at the backlog is turned away exactly when 3 * maxConc others hold a place in it. */
  lemma OverloadedIff(maxConc: nat, steps: seq<Step>, t: State, id: nat)
    requires CanRun(maxConc, Start(), steps, t) && id < |t.requests| && t.requests[id].place.AtQueue?
    ensures Enabled(maxConc, t, TryQueue(id))
    ensures var place := Apply(maxConc, t, TryQueue(id)).requests[id].place;
      if Tally(t.requests, InQueue()) >= 3 * maxConc then place == Returning(Overloaded) else place == AtSlot(false)
  {
    CountersExact(maxConc, steps, t);
  }

  /** A waiting request, timer fired or not, can take a slot exactly when fewer than maxConc hold
      one, and can time out exactly when its timer fired. */
  lemma SlotIff(maxConc: nat, steps: seq<Step>, t: State, id: nat)
    requires CanRun(maxConc, Start(), steps, t) && id < |t.requests| && t.requests[id].place.AtSlot?
    ensures Enabled(maxConc, t, TakeSlot(id)) <==> Tally(t.requests, InSlot()) < maxConc
    ensures Enabled(maxConc, t, TimeOut(id)) <==> t.requests[id].place.timerFired
    ensures Enabled(maxConc, t, TimerFires(id)) <==> !t.requests[id].place.timerFired
  {
    CountersExact(maxConc, steps, t);
  }

  /** The log grows exactly by the steps with which a served request finishes, by its arrival RIF
      and the latency measured then. */
  lemma LogGrowsIff(maxConc: nat, steps: seq<Step>, s: State, step: Step)
    requires CanRun(maxConc, Start(), steps, s) && Enabled(maxConc, s, step)
    ensures var t := Apply(maxConc, s, step);
      if !step.Arrive? && !Done(s.requests[step.id]) && Done(t.requests[step.id])
         && t.requests[step.id].place == Returning(Served)
      then step.RunDeferred? && t.log == s.log + [Success(s.requests[step.id].arrivalRif, step.latencyMs)]
      else t.log == s.log
  {
    hide Apply, Enabled;
    ReachableInv(maxConc, steps, s);
    if step.Arrive? {
      ArrivalLogsNothing(maxConc, s);
    } else {
      assert step.id < |s.requests| by { StepOfRequest(maxConc, s, step); }
      assert WellFormed(s.requests[step.id]);
      LogStep(maxConc, s, step);
    }
  }

  lemma StepOfRequest(maxConc: nat, s: State, step: Step)
    requires Enabled(maxConc, s, step) && !step.Arrive?
    ensures step.id < |s.requests| == |Apply(maxConc, s, step).requests|
  {}

  lemma ArrivalLogsNothing(maxConc: nat, s: State)
    ensures Enabled(maxConc, s, Arrive) && Apply(maxConc, s, Arrive).log == s.log
  {}

  lemma LogStep(maxConc: nat, s: State, step: Step)
    requires Enabled(maxConc, s, step) && !step.Arrive? && WellFormed(s.requests[step.id])
    ensures var t := Apply(maxConc, s, step);
      if !Done(s.requests[step.id]) && Done(t.requests[step.id])
         && t.requests[step.id].place == Returning(Served)
      then step.RunDeferred? && t.log == s.log + [Success(s.requests[step.id].arrivalRif, step.latencyMs)]
      else t.log == s.log
  {
    if step.RunDeferred? {
      Holdings(s.requests[step.id]);
    }
  }

  lemma ExtendRun(maxConc: nat, s: State, steps: seq<Step>, t: State, step: Step)
    requires CanRun(maxConc, s, steps, t) && Enabled(maxConc, t, step)
    ensures CanRun(maxConc, s, steps + [step], Apply(maxConc, t, step))
  {
    Runs.RunExtends(Next(maxConc), s, steps, t, step);
  }

  // ---- A request that meets no contention --------------------------------------------------

  /** The state s with one more request, which holds what its deferred actions say. */
  function Joined(s: State, r: Request): State {
    s.(requests := s.requests + [r],
       rif := s.rif + if |r.deferred| >= 2 then 1 else 0,
       queue := s.queue + if |r.deferred| >= 3 then 1 else 0,
       slots := s.slots + if |r.deferred| >= 5 then 1 else 0)
  }

  lemma MoveLast(requests: seq<Request>, r: Request, r': Request)
    ensures (requests + [r])[|requests| := r'] == requests + [r']
  {}

  /** The newcomer with `left` deferred actions left. */
  function Newcomer(place: Place, arrivalRif: int, left: nat): Request
    requires left <= 5
  {
    Request(place, arrivalRif, ALL_DEFERRED[..left])
  }

  lemma NewcomerServed(maxConc: nat, s: State) returns (steps: seq<Step>)
    requires s.queue < QueueCapacity(maxConc) && s.slots < maxConc
    ensures CanRun(maxConc, s, steps, Joined(s, Newcomer(Returning(Served), s.rif, 5)))
  {
    var id := |s.requests|;
    var a := Newcomer(AtQueue, s.rif, 2);
    var b := Newcomer(AtSlot(false), s.rif, 4);
    var c := Newcomer(Working, s.rif, 5);
    var d := Newcomer(Returning(Served), s.rif, 5);
    assert ALL_DEFERRED[..2] == [RecordLatency, LeaveRif];
    assert ALL_DEFERRED[..4] == ALL_DEFERRED[..2] + [FreeQueue, StopTimer];
    assert ALL_DEFERRED[..5] == ALL_DEFERRED[..4] + [FreeSlot];
    assert Apply(maxConc, s, Arrive) == Joined(s, a);
    ExtendRun(maxConc, s, [], s, Arrive);
    MoveLast(s.requests, a, b);
    assert Apply(maxConc, Joined(s, a), TryQueue(id)) == Joined(s, b);
    ExtendRun(maxConc, s, [] + [Arrive], Joined(s, a), TryQueue(id));
    MoveLast(s.requests, b, c);
    assert Apply(maxConc, Joined(s, b), TakeSlot(id)) == Joined(s, c);
    ExtendRun(maxConc, s, [] + [Arrive] + [TryQueue(id)], Joined(s, b), TakeSlot(id));
    MoveLast(s.requests, c, d);
    assert Apply(maxConc, Joined(s, c), Finish(id)) == Joined(s, d);
    ExtendRun(maxConc, s, [] + [Arrive] + [TryQueue(id)] + [TakeSlot(id)], Joined(s, c), Finish(id));
    steps := [] + [Arrive] + [TryQueue(id)] + [TakeSlot(id)] + [Finish(id)];
  }

  /** The releases other than the last leave log and store alone. */
  lemma {:induction false} NewcomerReleases(maxConc: nat, s: State, left: nat, latencyMs: nat)
    returns (steps: seq<Step>)
    requires s.queue < QueueCapacity(maxConc) && s.slots < maxConc && 1 <= left <= 5
    ensures CanRun(maxConc, s, steps, Joined(s, Newcomer(Returning(Served), s.rif, left)))
    decreases 5 - left
  {
    var id := |s.requests|;
    if left == 5 {
      steps := NewcomerServed(maxConc, s);
    } else {
      steps := NewcomerReleases(maxConc, s, left + 1, latencyMs);
      var a := Newcomer(Returning(Served), s.rif, left + 1);
      var b := Newcomer(Returning(Served), s.rif, left);
      assert ALL_DEFERRED[..left + 1][..left] == ALL_DEFERRED[..left];
      assert Popped(a) == b && Top(a) == ALL_DEFERRED[left];
      MoveLast(s.requests, a, b);
      assert Apply(maxConc, Joined(s, a), RunDeferred(id, latencyMs)) == Joined(s, b);
      ExtendRun(maxConc, s, steps, Joined(s, a), RunDeferred(id, latencyMs));
      steps := steps + [RunDeferred(id, latencyMs)];
    }
  }

  /** From any state with room in the backlog and a free slot a newcomer can run to its end. That
      restores RIF, backlog and slots and adds exactly its success to log and store, whatever the
      latency. */
  lemma UncontendedRoundTrip(maxConc: nat, s: State, latencyMs: nat)
    requires s.queue < QueueCapacity(maxConc) && s.slots < maxConc
    ensures exists steps :: CanRun(maxConc, s, steps,
      State(s.requests + [Request(Returning(Served), s.rif, [])], s.rif, s.queue, s.slots,
        s.log + [Success(s.rif, latencyMs)], Recorded(s.store, Success(s.rif, latencyMs))))
  {
    var id := |s.requests|;
    var steps := NewcomerReleases(maxConc, s, 1, latencyMs);
    var a := Newcomer(Returning(Served), s.rif, 1);
    var b := Request(Returning(Served), s.rif, []);
    assert Popped(a) == b && Top(a) == RecordLatency;
    MoveLast(s.requests, a, b);
    ExtendRun(maxConc, s, steps, Joined(s, a), RunDeferred(id, latencyMs));
    var t := Apply(maxConc, Joined(s, a), RunDeferred(id, latencyMs));
    assert CanRun(maxConc, s, steps + [RunDeferred(id, latencyMs)], t);
    assert t == State(s.requests + [b], s.rif, s.queue, s.slots,
      s.log + [Success(s.rif, latencyMs)], Recorded(s.store, Success(s.rif, latencyMs)));
  }

  // ---- Termination -------------------------------------------------------------------------

  /** Steps a request can still take, at most. */
  function Remaining(): Request -> int {
    (r: Request) => |r.deferred| + match r.place
      case AtQueue => 7
      case AtSlot(fired) => if fired then 3 else 4
      case Working => 1
      case Returning(_) => 0
  }

  function Measure(s: State): int {
    Tally(s.requests, Remaining())
  }

  lemma MeasureNonNegative(s: State)
    ensures 0 <= Measure(s)
  {
    TallyConstant(s.requests, (_: Request) => 0, 0);
    TallyAtMost(s.requests, (_: Request) => 0, Remaining());
  }

  /** Any step but an arrival takes the request it belongs to closer to its end. */
  lemma StepAdvances(maxConc: nat, s: State, step: Step)
    requires !step.Arrive? && Enabled(maxConc, s, step)
    requires WellFormed(s.requests[step.id])
    ensures var t := Apply(maxConc, s, step);
      && |t.requests| == |s.requests| && t.requests == s.requests[step.id := t.requests[step.id]]
      && Remaining()(t.requests[step.id]) < Remaining()(s.requests[step.id])
  {}

  lemma StepMeasure(maxConc: nat, s: State, step: Step)
    requires Inv(maxConc, s) && Enabled(maxConc, s, step)
    ensures step.Arrive? ==> Measure(Apply(maxConc, s, step)) == Measure(s) + 9
    ensures !step.Arrive? ==> Measure(Apply(maxConc, s, step)) < Measure(s)
  {
    var t := Apply(maxConc, s, step);
    if step.Arrive? {
      TallyAppend(s.requests, [t.requests[|s.requests|]], Remaining());
    } else {
      StepAdvances(maxConc, s, step);
      hide Apply;
      TallyUpdate(s.requests, step.id, t.requests[step.id], Remaining());
    }
  }

  function Arrivals(steps: seq<Step>): nat {
    if steps == [] then 0 else Arrivals(steps[..|steps| - 1]) + if steps[|steps| - 1].Arrive? then 1 else 0
  }

  lemma {:induction false} RunMeasure(maxConc: nat, s: State, steps: seq<Step>, t: State)
    requires Inv(maxConc, s) && CanRun(maxConc, s, steps, t)
    ensures Measure(t) + |steps| <= Measure(s) + 10 * Arrivals(steps)
  {
    if steps != [] {
      var last := |steps| - 1;
      var u := Runs.Run(Next(maxConc), s, steps[..last]).value;
      RunKeepsInv(maxConc, s, steps[..last], u);
      RunMeasure(maxConc, s, steps[..last], u);
      StepMeasure(maxConc, u, steps[last]);
    }
  }

  /** Every run with n arrivals has at most 10 n steps: no request can go on for ever. */
  lemma RunsAreBounded(maxConc: nat, steps: seq<Step>, t: State)
    requires CanRun(maxConc, Start(), steps, t)
    ensures |steps| <= 10 * Arrivals(steps)
  {
    RunMeasure(maxConc, Start(), steps, t);
    MeasureNonNegative(t);
  }

  /** No unfinished request is ever stuck: it has a step of its own, at worst its timer. */
  lemma NobodyStuck(maxConc: nat, steps: seq<Step>, t: State, id: nat)
    requires CanRun(maxConc, Start(), steps, t) && id < |t.requests| && !Done(t.requests[id])
    ensures exists step: Step :: !step.Arrive? && step.id == id && Enabled(maxConc, t, step)
  {
    match t.requests[id].place {
      case AtQueue => assert Enabled(maxConc, t, TryQueue(id));
      case AtSlot(fired) =>
        if fired { assert Enabled(maxConc, t, TimeOut(id)); } else { assert Enabled(maxConc, t, TimerFires(id)); }
      case Working => assert Enabled(maxConc, t, Finish(id));
      case Returning(_) =>
        ReleasesNeverBlock(maxConc, steps, t, id, 0);
        assert Enabled(maxConc, t, RunDeferred(id, 0));
    }
  }

  /** Once arrivals stop and nothing more can happen, everything has been released. */
  lemma QuiescentMeansEmpty(maxConc: nat, steps: seq<Step>, t: State)
    requires CanRun(maxConc, Start(), steps, t)
    requires forall step: Step | !step.Arrive? :: !Enabled(maxConc, t, step)
    ensures forall i | 0 <= i < |t.requests| :: Done(t.requests[i])
    ensures t.rif == 0 && t.queue == 0 && t.slots == 0
  {
    forall i | 0 <= i < |t.requests| ensures Done(t.requests[i]) {
      if !Done(t.requests[i]) {
        NobodyStuck(maxConc, steps, t, i);
      }
    }
    ReachableInv(maxConc, steps, t);
    TallyConstant(t.requests, Live(), 0);
    TallyConstant(t.requests, InQueue(), 0);
    TallyConstant(t.requests, InSlot(), 0);
  }
}
