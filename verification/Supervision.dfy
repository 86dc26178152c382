/**
  loam_core, its metrics poll and the delivery bearer together (`core/src/loam_core_impl.cpp`,
  `core/src/delivery_bearer.hpp`). The bearer alone loses topics when restarts overlap; here the watchdog is
  the one that asks for restarts, and it never asks while one is under way.
*/
module Supervision {
  import opened Prelude
  import L = DeliveryLifecycle
  import N = NodeProgress
  import M = MetricsMonitor

  /** `asked` holds the numbers of the metrics calls not answered yet, `started` is loam_core's own flag. */
  datatype Core = Core(started: bool, sys: L.System, mon: M.Monitor, asked: set<nat>)

  const INITIAL: Core := Core(false, L.INITIAL, M.IDLE, {})

  datatype Event =
    | CoreStart
    | CoreStop
    | BearerEvent(ev: L.Event)  // a reply or event of the delivery module, or a join
    | Poll(now: int)
    | Answer(gen: nat, success: bool, peers: int, t: int, now: int, redialMs: int)

  /** The poll takes the bearer's readiness. */
  function Polled(s: Core, now: int): M.Monitor {
    M.Step(s.mon, M.Poll(now, s.sys.b.nodeReady))
  }

  function Answered(s: Core, ev: Event): M.Monitor
    requires ev.Answer?
  {
    M.Step(s.mon, M.Answer(ev.gen, ev.success, ev.peers, ev.t, ev.now))
  }

  predicate Redials(s: Core, ev: Event) {
    ev.Answer? && Answered(s, ev).reconnects != s.mon.reconnects
  }

  /**
    Every call is answered at most once. Call numbers come round after 2^32 calls; no call is still
    unanswered by then.
  */
  predicate Enabled(s: Core, ev: Event) {
    match ev
    case BearerEvent(e) => !e.Start? && !e.Reconnect? && L.Possible(s.sys, e)
    case Poll(now) => Polled(s, now).gen != s.mon.gen ==> Polled(s, now).gen !in s.asked
    case Answer(gen, _, _, _, _, _) => gen in s.asked
    case _ => true
  }

  function Step(ops: L.Ops, s: Core, ev: Event): Core
    requires Enabled(s, ev)
  {
    match ev
    case CoreStart => if s.started then s else s.(started := true, sys := L.Step(ops, s.sys, L.Start))
    case CoreStop => s.(started := false)
    case BearerEvent(e) => s.(sys := L.Step(ops, s.sys, e))
    case Poll(now) =>
      var mon := Polled(s, now);
      s.(mon := mon, asked := if mon.gen != s.mon.gen then s.asked + {mon.gen} else s.asked)
    case Answer(gen, _, _, _, _, redialMs) =>
      var sys := if Redials(s, ev) then L.Step(ops, s.sys, L.Reconnect(redialMs)) else s.sys;
      s.(mon := Answered(s, ev), asked := s.asked - {gen}, sys := sys)
  }

  ghost predicate Feasible(ops: L.Ops, s: Core, run: seq<Event>)
    decreases |run|
  {
    run == [] || (Enabled(s, run[0]) && Feasible(ops, Step(ops, s, run[0]), run[1..]))
  }

  ghost function Run(ops: L.Ops, s: Core, run: seq<Event>): Core
    requires Feasible(ops, s, run)
    decreases |run|
  {
    if run == [] then s else Run(ops, Step(ops, s, run[0]), run[1..])
  }

  // ---- the invariant ----

  /** A ready node owes nothing of a start or restart. */
  ghost predicate Calm(ops: L.Ops, s: L.System) {
    && s.owed.launches <= 1 && (ops.nodeStarted || s.owed.restarts <= 1)
    && (s.b.nodeReady ==> s.owed.launches == 0 && s.owed.stops == 0 && (ops.nodeStarted || s.owed.restarts == 0))
  }

  ghost predicate Inv(ops: L.Ops, s: Core) {
    && L.Inv(ops, s.sys) && Calm(ops, s.sys)
    // the answer that is awaited can only come while the node is ready
    && (!s.sys.b.nodeReady ==> s.mon.gen !in s.asked)
  }

  lemma StepKeepsCalm(ops: L.Ops, s: L.System, ev: L.Event)
    requires L.Inv(ops, s) && Calm(ops, s) && L.Possible(s, ev) && L.Orderly(ops, s, ev)
    ensures Calm(ops, L.Step(ops, s, ev))
  {
    hide L.TopicsKept;
  }

  lemma OnlyReconnectTakesDown(ops: L.Ops, s: L.System, ev: L.Event)
    requires L.Possible(s, ev) && !ev.Reconnect? && s.b.nodeReady
    ensures L.Step(ops, s, ev).b.nodeReady
  {
  }

  lemma MonitorFacts(m: M.Monitor, ev: M.Event)
    ensures ev.Answer? ==> M.Step(m, ev).gen == m.gen
    ensures ev.Answer? && ev.gen != m.gen ==> M.Step(m, ev) == m
    ensures ev.Poll? && !ev.ready ==> M.Step(m, ev) == m
  {
  }

  /** A re-dial comes only while the node is ready, so it is neither refused nor overlaps another restart. */
  lemma RedialIsOrderly(ops: L.Ops, s: Core, ev: Event)
    requires Inv(ops, s) && Enabled(s, ev) && Redials(s, ev)
    ensures s.sys.b.nodeReady && ev.gen == s.mon.gen
    ensures L.Orderly(ops, s.sys, L.Reconnect(ev.redialMs)) && !L.ReconnectBlocked(s.sys.b, ev.redialMs)
  {
    hide L.TopicsKept, M.Step;
    MonitorFacts(s.mon, M.Answer(ev.gen, ev.success, ev.peers, ev.t, ev.now));
  }

  /** And it does restart the node: it is taken down, and if the host can start it, replies can bring it up again. */
  lemma RedialRestarts(ops: L.Ops, s: Core, ev: Event)
    requires Inv(ops, s) && Enabled(s, ev) && Redials(s, ev)
    ensures var n := Step(ops, s, ev).sys;
            && !n.b.nodeReady && n.b.reconnectAtMs == ev.redialMs
            && (ops.start || ops.stop ==> n.b.reconnecting)
            && (ops.start ==> N.CanComeUp(ops, n))
  {
    RedialIsOrderly(ops, s, ev);
    hide L.TopicsKept, M.Step, N.CanComeUp;
    if ops.start {
      N.RestartComesUpIff(ops, s.sys, ev.redialMs);
    }
  }

  /** loam_core's `start` reaches the bearer only while nothing of an earlier start is outstanding. */
  predicate StartsOrderly(ops: L.Ops, s: Core, ev: Event) {
    ev.CoreStart? && !s.started ==> L.Orderly(ops, s.sys, L.Start)
  }

  lemma BearerStepKeeps(ops: L.Ops, s: L.System, ev: L.Event)
    requires L.Inv(ops, s) && Calm(ops, s) && L.Possible(s, ev) && L.Orderly(ops, s, ev)
    ensures L.Inv(ops, L.Step(ops, s, ev)) && Calm(ops, L.Step(ops, s, ev))
  {
    hide L.Inv, Calm, L.Step, L.Orderly;
    L.StepKeepsInv(ops, s, ev);
    StepKeepsCalm(ops, s, ev);
  }

  lemma StepKeepsInv(ops: L.Ops, s: Core, ev: Event)
    requires Inv(ops, s) && Enabled(s, ev) && StartsOrderly(ops, s, ev)
    ensures Inv(ops, Step(ops, s, ev))
  {
    hide L.Inv, Calm, L.Step, M.Step, L.Possible, L.Orderly;
    match ev
    case CoreStart =>
      if !s.started {
        StartIsPossible(s.sys);
        BearerStepKeeps(ops, s.sys, L.Start);
        NotDownByStart(ops, s.sys);
      }
    case CoreStop =>
    case BearerEvent(e) =>
      EventIsOrderly(ops, s.sys, e);
      BearerStepKeeps(ops, s.sys, e);
      if s.sys.b.nodeReady {
        OnlyReconnectTakesDown(ops, s.sys, e);
      }
    case Poll(now) =>
      MonitorFacts(s.mon, M.Poll(now, s.sys.b.nodeReady));
    case Answer(gen, success, peers, t, now, redialMs) =>
      MonitorFacts(s.mon, M.Answer(gen, success, peers, t, now));
      if Redials(s, ev) {
        RedialIsOrderly(ops, s, ev);
        ReconnectIsPossible(s.sys, redialMs);
        BearerStepKeeps(ops, s.sys, L.Reconnect(redialMs));
      }
  }

  lemma StartIsPossible(s: L.System)
    ensures L.Possible(s, L.Start)
  {
  }

  lemma ReconnectIsPossible(s: L.System, now: int)
    ensures L.Possible(s, L.Reconnect(now))
  {
  }

  lemma NotDownByStart(ops: L.Ops, s: L.System)
    ensures L.Possible(s, L.Start) && L.Step(ops, s, L.Start).b.nodeReady == s.b.nodeReady
  {
  }

  lemma EventIsOrderly(ops: L.Ops, s: L.System, e: L.Event)
    requires !e.Start? && !e.Reconnect?
    ensures L.Orderly(ops, s, e)
  {
  }

  /** Whether the last of the starts and stops so far was a start. */
  function StartedLast(before: bool, run: seq<Event>): bool {
    if run == [] then before
    else
      var last := run[|run| - 1];
      if last.CoreStart? then true else if last.CoreStop? then false else StartedLast(before, run[..|run| - 1])
  }

  lemma {:induction false} StartedLastCons(before: bool, run: seq<Event>)
    requires run != []
    ensures StartedLast(before, run) == StartedLast(StartedLast(before, [run[0]]), run[1..])
    decreases |run|
  {
    if |run| == 1 {
      assert run == [run[0]];
    } else {
      StartedLastCons(before, run[..|run| - 1]);
      assert run[..|run| - 1][1..] == run[1..][..|run| - 2];
    }
  }

  /** A start reaches the bearer iff no other has since the last stop. */
  lemma {:induction false} StartedIff(ops: L.Ops, s: Core, run: seq<Event>)
    requires Feasible(ops, s, run)
    ensures Run(ops, s, run).started == StartedLast(s.started, run)
    decreases |run|
  {
    hide L.Step, M.Step;
    if run != [] {
      StartedIff(ops, Step(ops, s, run[0]), run[1..]);
      StartedLastCons(s.started, run);
    }
  }

  lemma StartReachesIff(ops: L.Ops, run: seq<Event>)
    requires Feasible(ops, INITIAL, run)
    ensures var s := Run(ops, INITIAL, run);
            Step(ops, s, CoreStart).sys == if StartedLast(false, run) then s.sys else L.Step(ops, s.sys, L.Start)
  {
    hide L.Step, StartedLast;
    StartedIff(ops, INITIAL, run);
  }

  // ---- the theorems ----

  /** Every `start` of the run is orderly, and no restart ever overlaps another or is refused. */
  ghost predicate AllOrderly(ops: L.Ops, s: Core, run: seq<Event>)
    requires Feasible(ops, s, run)
    decreases |run|
  {
    run != [] ==> StartsOrderly(ops, s, run[0]) && AllOrderly(ops, Step(ops, s, run[0]), run[1..])
  }

  ghost predicate RedialsOrderly(ops: L.Ops, s: Core, run: seq<Event>)
    requires Feasible(ops, s, run)
    decreases |run|
  {
    run != [] ==>
      && (Redials(s, run[0]) ==>
            && L.Orderly(ops, s.sys, L.Reconnect(run[0].redialMs))
            && !L.ReconnectBlocked(s.sys.b, run[0].redialMs))
      && RedialsOrderly(ops, Step(ops, s, run[0]), run[1..])
  }

  lemma {:induction false} RunKeepsInv(ops: L.Ops, s: Core, run: seq<Event>)
    requires Inv(ops, s) && Feasible(ops, s, run) && AllOrderly(ops, s, run)
    ensures Inv(ops, Run(ops, s, run)) && RedialsOrderly(ops, s, run)
    decreases |run|
  {
    hide Inv, Step, Enabled, Redials, L.Orderly, L.ReconnectBlocked, StartsOrderly;
    if run != [] {
      StepKeepsInv(ops, s, run[0]);
      if Redials(s, run[0]) {
        RedialIsOrderly(ops, s, run[0]);
      }
      RunKeepsInv(ops, Step(ops, s, run[0]), run[1..]);
    }
  }

  /** When the watchdog last asked for a restart. */
  ghost function LastRedialMs(ops: L.Ops, s: Core, run: seq<Event>, before: int): int
    requires Feasible(ops, s, run)
    decreases |run|
  {
    if run == [] then before
    else LastRedialMs(ops, Step(ops, s, run[0]), run[1..], if Redials(s, run[0]) then run[0].redialMs else before)
  }

  lemma StepRedialTime(ops: L.Ops, s: Core, ev: Event)
    requires Inv(ops, s) && Enabled(s, ev)
    ensures Step(ops, s, ev).sys.b.reconnectAtMs == if Redials(s, ev) then ev.redialMs else s.sys.b.reconnectAtMs
  {
    if Redials(s, ev) {
      RedialRestarts(ops, s, ev);
    }
    hide Redials, Answered, M.Step, L.TopicsKept, N.CanComeUp;
  }

  /** Every restart asked for is begun, and no other is. */
  lemma {:induction false} EveryRedialRestarts(ops: L.Ops, s: Core, run: seq<Event>)
    requires Inv(ops, s) && Feasible(ops, s, run) && AllOrderly(ops, s, run)
    ensures Run(ops, s, run).sys.b.reconnectAtMs == LastRedialMs(ops, s, run, s.sys.b.reconnectAtMs)
    decreases |run|
  {
    hide Inv, Step, Enabled, Redials, StartsOrderly;
    if run != [] {
      StepKeepsInv(ops, s, run[0]);
      StepRedialTime(ops, s, run[0]);
      EveryRedialRestarts(ops, Step(ops, s, run[0]), run[1..]);
    }
  }

  lemma InitialInv(ops: L.Ops)
    ensures Inv(ops, INITIAL)
  {
  }

  /** Nothing has reached the bearer but joins. */
  ghost predicate Untouched(s: Core) {
    s.started || (!s.sys.b.everReady && s.sys.owed == L.Owed(0, 0, 0, 0, 0, 0))
  }

  lemma StepKeepsUntouched(ops: L.Ops, s: Core, ev: Event)
    requires Inv(ops, s) && Untouched(s) && Enabled(s, ev) && !ev.CoreStop?
    ensures StartsOrderly(ops, s, ev) && Untouched(Step(ops, s, ev))
  {
    hide M.Step, L.TopicsKept;
    if Redials(s, ev) {
      RedialIsOrderly(ops, s, ev);
    }
  }

  lemma {:induction false} WithoutStopOrderly(ops: L.Ops, s: Core, run: seq<Event>)
    requires Inv(ops, s) && Untouched(s) && Feasible(ops, s, run) && CoreStop !in run
    ensures AllOrderly(ops, s, run)
    decreases |run|
  {
    hide Inv, Step, Enabled, Untouched, StartsOrderly;
    if run != [] {
      assert run[0] in run;
      StepKeepsUntouched(ops, s, run[0]);
      StepKeepsInv(ops, s, run[0]);
      WithoutStopOrderly(ops, Step(ops, s, run[0]), run[1..]);
    }
  }

  /** The topics of the joins in a run. */
  ghost function TopicsOf(run: seq<Event>): set<L.Topic> {
    set ev | ev in run && ev.BearerEvent? && ev.ev.Join? :: ev.ev.topic
  }

  lemma TopicsOfCons(run: seq<Event>)
    requires run != []
    ensures TopicsOf(run) == TopicsOf([run[0]]) + TopicsOf(run[1..])
  {
    assert run == [run[0]] + run[1..];
    assert forall ev :: ev in run <==> ev in [run[0]] || ev in run[1..];
  }

  lemma OneTopic(ev: Event)
    ensures TopicsOf([ev]) == if ev.BearerEvent? && ev.ev.Join? then {ev.ev.topic} else {}
    ensures ev.BearerEvent? ==> TopicsOf([ev]) == L.TopicsOf([ev.ev])
  {
    assert forall e :: e in [ev] <==> e == ev;
    if ev.BearerEvent? {
      assert forall e :: e in [ev.ev] <==> e == ev.ev;
    }
  }

  lemma NoTopic(e: L.Event)
    requires !e.Join?
    ensures L.TopicsOf([e]) == {}
  {
    assert forall f :: f in [e] <==> f == e;
  }

  lemma StepRemembers(ops: L.Ops, s: Core, ev: Event)
    requires Enabled(s, ev) && L.OnlyRemembered(s.sys.b)
    ensures Step(ops, s, ev).sys.b.all == s.sys.b.all + TopicsOf([ev])
    ensures L.OnlyRemembered(Step(ops, s, ev).sys.b)
  {
    hide L.Step, L.OnlyRemembered, M.Step, L.TopicsOf, TopicsOf;
    OneTopic(ev);
    match ev
    case CoreStart =>
      NoTopic(L.Start);
      StartIsPossible(s.sys);
      L.StepRemembers(ops, s.sys, L.Start);
      L.StepOnlyRemembered(ops, s.sys, L.Start);
    case BearerEvent(e) =>
      L.StepRemembers(ops, s.sys, e);
      L.StepOnlyRemembered(ops, s.sys, e);
    case Answer(_, _, _, _, _, redialMs) =>
      NoTopic(L.Reconnect(redialMs));
      ReconnectIsPossible(s.sys, redialMs);
      L.StepRemembers(ops, s.sys, L.Reconnect(redialMs));
      L.StepOnlyRemembered(ops, s.sys, L.Reconnect(redialMs));
    case _ =>
  }

  lemma {:induction false} RunRemembers(ops: L.Ops, s: Core, run: seq<Event>)
    requires Feasible(ops, s, run) && L.OnlyRemembered(s.sys.b)
    ensures Run(ops, s, run).sys.b.all == s.sys.b.all + TopicsOf(run)
    ensures L.OnlyRemembered(Run(ops, s, run).sys.b)
    decreases |run|
  {
    hide Step, Enabled, L.OnlyRemembered;
    if run == [] {
      assert TopicsOf(run) == {};
    } else {
      hide TopicsOf;
      StepRemembers(ops, s, run[0]);
      TopicsOfCons(run);
      RunRemembers(ops, Step(ops, s, run[0]), run[1..]);
    }
  }

  /**
    Rejoin, with nothing assumed about restarts: in every run of the whole in which loam_core is not stopped,
    however often its `start` is called and whatever the delivery module and the metrics answer, every
    re-dial of the watchdog restarts the node without overlapping another restart, and a ready node has
    joined exactly the topics of all joins of the run since it last came up.
  */
  lemma SupervisedNodeKeepsTopics(ops: L.Ops, run: seq<Event>)
    requires Feasible(ops, INITIAL, run) && CoreStop !in run
    ensures RedialsOrderly(ops, INITIAL, run)
    ensures L.TopicsKept(Run(ops, INITIAL, run).sys.b)
    ensures var b := Run(ops, INITIAL, run).sys.b;
            b.all == TopicsOf(run) && (b.nodeReady ==> b.joined == TopicsOf(run))
  {
    hide Step, Enabled, L.Step, TopicsOf;
    InitialInv(ops);
    WithoutStopOrderly(ops, INITIAL, run);
    RunKeepsInv(ops, INITIAL, run);
    RunRemembers(ops, INITIAL, run);
  }
}
