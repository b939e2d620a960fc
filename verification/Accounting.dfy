/** The balancer's counters over all interleavings of concurrent requests. */
module Accounting {
  import opened Tallies
  import opened Options
  import Runs

  /** A proxied request. `errored` records whether the proxy's error handler ran. */
  datatype Phase =
    | Selecting
    | Selected(server: nat)
    | Forwarding(server: nat, errored: bool)
    | Forwarded(errored: bool)
    | NoServer
    | Completed(errored: bool)

  datatype State = State(
    phases: seq<Phase>, clientRif: seq<int>, total: int, successful: int, failed: int)

  datatype Step =
    | Arrive
    | Choose(id: nat, server: nat)
    | ChooseNone(id: nat)
    | BeginForward(id: nat)
    | ProxyError(id: nat)
    | EndForward(id: nat)
    | Complete(id: nat)

  function Start(servers: nat): State {
    State([], seq(servers, _ => 0), 0, 0, 0)
  }

  /** The error handler runs at most once per proxied request. */
  predicate Enabled(s: State, step: Step) {
    if step.Arrive? then true
    else
      && step.id < |s.phases|
      && var p := s.phases[step.id];
      match step
      case Choose(_, server) => p.Selecting? && server < |s.clientRif|
      case ChooseNone(_) => p.Selecting?
      case BeginForward(_) => p.Selected? && p.server < |s.clientRif|
      case ProxyError(_) => p.Forwarding? && !p.errored
      case EndForward(_) => p.Forwarding? && p.server < |s.clientRif|
      case Complete(_) => p.Forwarded?
      case Arrive => true
  }

  function Move(s: State, id: nat, p: Phase): State
    requires id < |s.phases|
  {
    s.(phases := s.phases[id := p])
  }

  function Apply(s: State, step: Step): State
    requires Enabled(s, step)
  {
    match step
    case Arrive =>
      s.(total := s.total + 1, phases := s.phases + [Selecting])
    case Choose(id, server) =>
      Move(s, id, Selected(server))
    case ChooseNone(id) =>
      Move(s, id, NoServer).(failed := s.failed + 1)
    case BeginForward(id) =>
      var server := s.phases[id].server;
      Move(s, id, Forwarding(server, false)).(clientRif := s.clientRif[server := s.clientRif[server] + 1])
    case ProxyError(id) =>
      Move(s, id, Forwarding(s.phases[id].server, true)).(failed := s.failed + 1)
    case EndForward(id) =>
      var p := s.phases[id];
      Move(s, id, Forwarded(p.errored)).(clientRif := s.clientRif[p.server := s.clientRif[p.server] - 1])
    case Complete(id) =>
      Move(s, id, Completed(s.phases[id].errored)).(successful := s.successful + 1)
  }

  function Next(): (State, Step) -> Option<State> {
    (s: State, step: Step) => if Enabled(s, step) then Some(Apply(s, step)) else None
  }

  /** The steps lead from s to t. */
  predicate CanRun(s: State, steps: seq<Step>, t: State) {
    Runs.Run(Next(), s, steps) == Some(t)
  }

  // ---- What the counters count ---------------------------------------------------------------

  function ForwardingTo(server: nat): Phase -> int {
    (p: Phase) => if p.Forwarding? && p.server == server then 1 else 0
  }

  function IsNoServer(): Phase -> int { (p: Phase) => if p.NoServer? then 1 else 0 }

  function IsCompleted(): Phase -> int { (p: Phase) => if p.Completed? then 1 else 0 }

  function IsInFlight(): Phase -> int { (p: Phase) => if p.NoServer? || p.Completed? then 0 else 1 }

  function HadProxyError(): Phase -> int {
    (p: Phase) => if (p.Forwarding? || p.Forwarded? || p.Completed?) && p.errored then 1 else 0
  }

  ghost predicate Inv(s: State) {
    && s.total == |s.phases|
    && s.successful == Tally(s.phases, IsCompleted())
    && s.failed == Tally(s.phases, IsNoServer()) + Tally(s.phases, HadProxyError())
    && forall k: nat | k < |s.clientRif| :: s.clientRif[k] == Tally(s.phases, ForwardingTo(k))
  }

  lemma ArriveKeepsInv(s: State)
    requires Inv(s)
    ensures Inv(Apply(s, Arrive))
  {
    TallyAppend(s.phases, [Selecting], IsCompleted());
    TallyAppend(s.phases, [Selecting], IsNoServer());
    TallyAppend(s.phases, [Selecting], HadProxyError());
    forall k: nat | k < |s.clientRif|
      ensures Tally(s.phases + [Selecting], ForwardingTo(k)) == s.clientRif[k]
    {
      TallyAppend(s.phases, [Selecting], ForwardingTo(k));
    }
  }

  lemma MoveKeepsInv(s: State, step: Step)
    requires Inv(s) && Enabled(s, step) && !step.Arrive?
    ensures Inv(Apply(s, step))
  {
    var t := Apply(s, step);
    var p := t.phases[step.id];
    TallyUpdate(s.phases, step.id, p, IsCompleted());
    TallyUpdate(s.phases, step.id, p, IsNoServer());
    TallyUpdate(s.phases, step.id, p, HadProxyError());
    forall k: nat | k < |t.clientRif|
      ensures t.clientRif[k] == Tally(t.phases, ForwardingTo(k))
    {
      TallyUpdate(s.phases, step.id, p, ForwardingTo(k));
    }
  }

  lemma {:induction false} RunKeepsInv(s: State, steps: seq<Step>, t: State)
    requires Inv(s) && CanRun(s, steps, t)
    ensures Inv(t)
  {
    if steps != [] {
      var last := |steps| - 1;
      var u := Runs.Run(Next(), s, steps[..last]).value;
      RunKeepsInv(s, steps[..last], u);
      if steps[last].Arrive? { ArriveKeepsInv(u); } else { MoveKeepsInv(u, steps[last]); }
    }
  }

  lemma {:induction false} PhasesPartition(phases: seq<Phase>)
    ensures |phases| == Tally(phases, IsCompleted()) + Tally(phases, IsNoServer()) + Tally(phases, IsInFlight())
  {
    if phases != [] {
      PhasesPartition(phases[1..]);
    }
  }

  /** In every reachable state each server's client-side RIF is the number of requests being
      forwarded to it, and the three totals decompose exactly as stated. */
  lemma CountersExact(servers: nat, steps: seq<Step>, t: State)
    requires CanRun(Start(servers), steps, t)
    ensures forall k: nat | k < |t.clientRif| :: t.clientRif[k] == Tally(t.phases, ForwardingTo(k))
    ensures t.total == t.successful + Tally(t.phases, IsNoServer()) + Tally(t.phases, IsInFlight())
    ensures t.failed == Tally(t.phases, IsNoServer()) + Tally(t.phases, HadProxyError())
  {
    RunKeepsInv(Start(servers), steps, t);
    PhasesPartition(t.phases);
  }

  /** With nothing in flight, every server is idle and "total = successful + failed" holds
      exactly when no proxied request had an error: those are counted on both sides. */
  lemma TotalIsSumIff(servers: nat, steps: seq<Step>, t: State)
    requires CanRun(Start(servers), steps, t)
    requires forall p | p in t.phases :: p.NoServer? || p.Completed?
    ensures forall k: nat | k < |t.clientRif| :: t.clientRif[k] == 0
    ensures t.total == t.successful + t.failed <==> forall p | p in t.phases && p.Completed? :: !p.errored
  {
    CountersExact(servers, steps, t);
    TallyConstant(t.phases, IsInFlight(), 0);
    forall k: nat | k < |t.clientRif| ensures t.clientRif[k] == 0 {
      TallyConstant(t.phases, ForwardingTo(k), 0);
    }
    var none := (_: Phase) => 0;
    TallyConstant(t.phases, none, 0);
    if p :| p in t.phases && p.Completed? && p.errored {
      var i :| 0 <= i < |t.phases| && t.phases[i] == p;
      TallyGap(t.phases, none, HadProxyError(), i);
    } else {
      TallyConstant(t.phases, HadProxyError(), 0);
    }
  }

  // ---- One request among others ------------------------------------------------------------

  lemma ExtendRun(s: State, steps: seq<Step>, t: State, step: Step)
    requires CanRun(s, steps, t) && Enabled(t, step)
    ensures CanRun(s, steps + [step], Apply(t, step))
  {
    Runs.RunExtends(Next(), s, steps, t, step);
  }

  /** Steps that belong to other requests, or are arrivals. */
  ghost predicate ByOthers(steps: seq<Step>, id: nat) {
    forall i | 0 <= i < |steps| :: steps[i].Arrive? || steps[i].id != id
  }

  lemma {:induction false} OthersLeaveAlone(s: State, steps: seq<Step>, t: State, id: nat)
    requires CanRun(s, steps, t) && id < |s.phases| && ByOthers(steps, id)
    ensures id < |t.phases| && t.phases[id] == s.phases[id] && |t.clientRif| == |s.clientRif|
  {
    if steps != [] {
      var last := |steps| - 1;
      var u := Runs.Run(Next(), s, steps[..last]).value;
      OthersLeaveAlone(s, steps[..last], u, id);
    }
  }

  /** However others interleave, the request is forwarded to the server chosen for it: that
      server's RIF alone goes up by one when forwarding begins. */
  lemma ForwardedWhereChosen(s: State, id: nat, server: nat, steps: seq<Step>, t: State)
    requires Enabled(s, Choose(id, server)) && ByOthers(steps, id)
    requires CanRun(Apply(s, Choose(id, server)), steps, t)
    ensures Enabled(t, BeginForward(id)) && server < |t.clientRif|
    ensures Apply(t, BeginForward(id)).clientRif == t.clientRif[server := t.clientRif[server] + 1]
    ensures Apply(t, BeginForward(id)).phases == t.phases[id := Forwarding(server, false)]
  {
    OthersLeaveAlone(Apply(s, Choose(id, server)), steps, t, id);
  }

  /** And it goes down again there when forwarding ends, with or without an error. */
  lemma ReleasedWhereForwarded(s: State, id: nat, steps: seq<Step>, t: State)
    requires id < |s.phases| && s.phases[id].Forwarding? && s.phases[id].server < |s.clientRif|
    requires CanRun(s, steps, t) && ByOthers(steps, id)
    ensures var p := s.phases[id];
      && Enabled(t, EndForward(id)) && p.server < |t.clientRif|
      && Apply(t, EndForward(id)).clientRif == t.clientRif[p.server := t.clientRif[p.server] - 1]
      && Apply(t, EndForward(id)).phases == t.phases[id := Forwarded(p.errored)]
  {
    OthersLeaveAlone(s, steps, t, id);
  }

  lemma MoveLast(phases: seq<Phase>, p: Phase, q: Phase)
    ensures (phases + [p])[|phases| := q] == phases + [q]
  {}

  /** From any state a request can run to its end. A forwarded one restores every RIF and counts
      as one request and one success, and as one failure besides if the proxy reported an error. */
  lemma ForwardedRoundTrip(s: State, server: nat, errored: bool)
    requires server < |s.clientRif|
    ensures exists steps, t :: (
      && CanRun(s, steps, t)
      && t == State(s.phases + [Completed(errored)], s.clientRif, s.total + 1, s.successful + 1,
                s.failed + if errored then 1 else 0))
  {
    var id := |s.phases|;
    var steps, t := ForwardNewcomer(s, server);
    if errored {
      MoveLast(s.phases, Forwarding(server, false), Forwarding(server, true));
      ExtendRun(s, steps, t, ProxyError(id));
      steps, t := steps + [ProxyError(id)], Apply(t, ProxyError(id));
    }
    MoveLast(s.phases, Forwarding(server, errored), Forwarded(errored));
    ExtendRun(s, steps, t, EndForward(id));
    steps, t := steps + [EndForward(id)], Apply(t, EndForward(id));
    assert t.clientRif == s.clientRif;
    MoveLast(s.phases, Forwarded(errored), Completed(errored));
    ExtendRun(s, steps, t, Complete(id));
    assert CanRun(s, steps + [Complete(id)], Apply(t, Complete(id)));
  }

  lemma ForwardNewcomer(s: State, server: nat) returns (steps: seq<Step>, t: State)
    requires server < |s.clientRif|
    ensures CanRun(s, steps, t)
    ensures t == State(s.phases + [Forwarding(server, false)],
      s.clientRif[server := s.clientRif[server] + 1], s.total + 1, s.successful, s.failed)
  {
    var id := |s.phases|;
    ExtendRun(s, [], s, Arrive);
    var a := Apply(s, Arrive);
    MoveLast(s.phases, Selecting, Selected(server));
    ExtendRun(s, [] + [Arrive], a, Choose(id, server));
    var b := Apply(a, Choose(id, server));
    MoveLast(s.phases, Selected(server), Forwarding(server, false));
    ExtendRun(s, [] + [Arrive] + [Choose(id, server)], b, BeginForward(id));
    steps, t := [] + [Arrive] + [Choose(id, server)] + [BeginForward(id)], Apply(b, BeginForward(id));
  }

  /** One without a server counts as one request and one failure. */
  lemma TurnedAwayRoundTrip(s: State)
    ensures exists steps, t :: (
      && CanRun(s, steps, t)
      && t == State(s.phases + [NoServer], s.clientRif, s.total + 1, s.successful, s.failed + 1))
  {
    var id := |s.phases|;
    ExtendRun(s, [], s, Arrive);
    MoveLast(s.phases, Selecting, NoServer);
    ExtendRun(s, [] + [Arrive], Apply(s, Arrive), ChooseNone(id));
    assert CanRun(s, [] + [Arrive] + [ChooseNone(id)], Apply(Apply(s, Arrive), ChooseNone(id)));
  }
}
