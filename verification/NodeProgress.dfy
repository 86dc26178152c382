/**
  The delivery bearer (`core/src/delivery_bearer.hpp`) does not get stuck: which starts and restarts can succeed, and
  what a start or restart that is under way is still waiting for.
*/
module NodeProgress {
  import opened Prelude
  import opened DeliveryLifecycle
  import opened LostTopics

  // ---- nothing waits in vain ----

  /** Something is outstanding that ends the start, or the restart, that is under way. */
  predicate Expecting(ops: Ops, s: System) {
    var b, o := s.b, s.owed;
    && (b.starting ==>
          && !b.everReady
          && (o.delays + o.creates > 0 || if ops.nodeStarted then b.awaitStart && o.launches > 0 else o.starts > 0))
    && (b.reconnecting ==> o.stops > 0 || if ops.nodeStarted then b.awaitStart && o.launches > 0 else o.restarts > 0)
  }

  /**
    A step that leaves a start or restart without anything to wait for: the node never reports the outcome of it, or
    a reply to the first start call comes so late that its failure clears the flag of a restart that is under way.
  */
  predicate Strands(ops: Ops, s: System, ev: Event) {
    var b, o := s.b, s.owed;
    && ops.nodeStarted && ((b.reconnecting && o.stops == 0) || (b.starting && o.delays + o.creates == 0))
    && ((ev.LaunchLost? && o.launches == 1) || (ev == StartReply(false) && b.reconnecting))
  }

  lemma CallExpects(ops: Ops, s: System, ev: Event)
    requires ev.Start? || ev.Reconnect? || ev.Join?
    requires Inv(ops, s) && Expecting(ops, s) && Possible(s, ev) && Orderly(ops, s, ev)
    ensures Expecting(ops, Step(ops, s, ev)) <==> !Strands(ops, s, ev)
  {
    hide TopicsKept, Elems;
  }

  lemma CreatingExpects(ops: Ops, s: System, ev: Event)
    requires ev.DelayOver? || ev.CreateReply? || ev.LaunchLost?
    requires Inv(ops, s) && Expecting(ops, s) && Possible(s, ev) && Orderly(ops, s, ev)
    ensures Expecting(ops, Step(ops, s, ev)) <==> !Strands(ops, s, ev)
  {
    hide TopicsKept, Elems;
  }

  lemma StartReplyExpects(ops: Ops, s: System, ev: Event)
    requires ev.StartReply?
    requires Inv(ops, s) && Expecting(ops, s) && Possible(s, ev) && Orderly(ops, s, ev)
    ensures Expecting(ops, Step(ops, s, ev)) <==> !Strands(ops, s, ev)
  {
    hide TopicsKept, Elems;
  }

  lemma StartedExpects(ops: Ops, s: System, ev: Event)
    requires ev.NodeStarted?
    requires Inv(ops, s) && Expecting(ops, s) && Possible(s, ev) && Orderly(ops, s, ev)
    ensures Expecting(ops, Step(ops, s, ev)) <==> !Strands(ops, s, ev)
  {
    hide TopicsKept, Elems;
  }

  lemma RestartExpects(ops: Ops, s: System, ev: Event)
    requires ev.StopReply? || ev.RestartReply?
    requires Inv(ops, s) && Expecting(ops, s) && Possible(s, ev) && Orderly(ops, s, ev)
    ensures Expecting(ops, Step(ops, s, ev)) <==> !Strands(ops, s, ev)
  {
    hide TopicsKept, Elems;
  }

  lemma StepExpectsIff(ops: Ops, s: System, ev: Event)
    requires Inv(ops, s) && Expecting(ops, s) && Possible(s, ev) && Orderly(ops, s, ev)
    ensures Expecting(ops, Step(ops, s, ev)) <==> !Strands(ops, s, ev)
  {
    hide Inv, Expecting, Step, Possible, Orderly, Strands;
    match ev
    case StartReply(_) => StartReplyExpects(ops, s, ev);
    case NodeStarted(_) => StartedExpects(ops, s, ev);
    case StopReply => RestartExpects(ops, s, ev);
    case RestartReply(_) => RestartExpects(ops, s, ev);
    case DelayOver => CreatingExpects(ops, s, ev);
    case CreateReply(_) => CreatingExpects(ops, s, ev);
    case LaunchLost => CreatingExpects(ops, s, ev);
    case _ => CallExpects(ops, s, ev);
  }

  ghost predicate AlwaysExpecting(ops: Ops, s: System, run: seq<Event>)
    requires Feasible(ops, s, run)
    decreases |run|
  {
    Expecting(ops, s) && (run != [] ==> AlwaysExpecting(ops, Step(ops, s, run[0]), run[1..]))
  }

  ghost predicate NeverStrands(ops: Ops, s: System, run: seq<Event>)
    requires Feasible(ops, s, run)
    decreases |run|
  {
    run != [] ==> !Strands(ops, s, run[0]) && NeverStrands(ops, Step(ops, s, run[0]), run[1..])
  }

  /**
    In every orderly run a bearer that is starting or restarting always waits for something that is outstanding -
    whatever fails on the way, the flags are cleared in the end - iff no step strands it.
  */
  lemma {:induction false} NeverStuckIff(ops: Ops, s: System, run: seq<Event>)
    requires Inv(ops, s) && Expecting(ops, s) && Feasible(ops, s, run) && RunOrderly(ops, s, run)
    ensures AlwaysExpecting(ops, s, run) <==> NeverStrands(ops, s, run)
    decreases |run|
  {
    if run != [] {
      hide Inv, Expecting, Step, Possible, Orderly, Strands;
      StepExpectsIff(ops, s, run[0]);
      StepKeepsInv(ops, s, run[0]);
      if Expecting(ops, Step(ops, s, run[0])) {
        NeverStuckIff(ops, Step(ops, s, run[0]), run[1..]);
      } else {
        NotExpecting(ops, Step(ops, s, run[0]), run[1..]);
      }
    }
  }

  lemma NotExpecting(ops: Ops, s: System, run: seq<Event>)
    requires !Expecting(ops, s) && Feasible(ops, s, run)
    ensures !AlwaysExpecting(ops, s, run)
  {
    hide Expecting, Step;
  }

  /**
    The node comes up before the reply to `start`; a restart is dispatched; then that reply comes, and is a failure.
    The report that the restarted node is up is ignored, and the bearer stays down.
  */
  lemma LateFailureStrands()
    ensures Feasible(HOST, INITIAL, FIRST_START + [Reconnect(1000), StopReply])
    ensures Run(HOST, INITIAL, FIRST_START + [Reconnect(1000), StopReply]) == RESTARTING
    ensures Strands(HOST, RESTARTING, StartReply(false)) && Possible(RESTARTING, StartReply(false))
    ensures var late := Step(HOST, RESTARTING, StartReply(false));
            && Possible(late, NodeStarted(true)) && Step(HOST, late, NodeStarted(true)).b == late.b
            && late.b.reconnecting && !late.b.nodeReady
  {
    RestartRuns();
  }

  lemma NobodyExpects(ops: Ops)
    ensures Inv(ops, INITIAL) && Expecting(ops, INITIAL)
  {
  }

  // ---- which starts and restarts can succeed ----

  /** Replies alone can bring the node up. */
  ghost predicate CanComeUp(ops: Ops, s: System) {
    exists run :: Replies(run) && Feasible(ops, s, run) && Run(ops, s, run).b.nodeReady
  }

  /** The node is down, and no reply that is outstanding or still to come can bring it up. */
  predicate Hopeless(ops: Ops, s: System) {
    && !s.b.nodeReady && s.owed.starts == 0 && !(s.b.awaitStart && s.owed.launches > 0)
    && (ops.nodeStarted || s.owed.restarts == 0)
    && (ops.start ==> s.owed.creates + s.owed.delays + s.owed.stops == 0)
  }

  lemma StaysHopeless(ops: Ops, s: System, ev: Event)
    requires Hopeless(ops, s) && Possible(s, ev) && IsReply(ev)
    ensures Hopeless(ops, Step(ops, s, ev))
  {
  }

  lemma {:induction false} HopelessIsDown(ops: Ops, s: System, run: seq<Event>)
    requires Hopeless(ops, s) && Replies(run) && Feasible(ops, s, run)
    ensures !Run(ops, s, run).b.nodeReady
    decreases |run|
  {
    if run != [] {
      hide Hopeless, Step, Possible, IsReply;
      assert run[0] in run && forall ev :: ev in run[1..] ==> ev in run;
      StaysHopeless(ops, s, run[0]);
      HopelessIsDown(ops, Step(ops, s, run[0]), run[1..]);
    } else {
      hide Possible;
    }
  }

  lemma CannotComeUp(ops: Ops, s: System)
    requires Hopeless(ops, s)
    ensures !CanComeUp(ops, s)
  {
    hide Hopeless, Step, Possible;
    forall run | Replies(run) && Feasible(ops, s, run) ensures !Run(ops, s, run).b.nodeReady {
      HopelessIsDown(ops, s, run);
    }
  }

  /** The reply or report that says that the node has started. */
  function Started(ops: Ops): Event {
    if ops.nodeStarted then NodeStarted(true) else StartReply(true)
  }

  function Restarted(ops: Ops): Event {
    if ops.nodeStarted then NodeStarted(true) else RestartReply(true)
  }

  lemma ComesUpByOne(ops: Ops, s: System, e: Event)
    requires Possible(s, e) && IsReply(e) && Step(ops, s, e).b.nodeReady
    ensures CanComeUp(ops, s)
  {
    One(ops, s, e);
    assert Replies([e]);
  }

  lemma ComesUpAfter(ops: Ops, s: System, e: Event)
    requires Possible(s, e) && IsReply(e) && CanComeUp(ops, Step(ops, s, e))
    ensures CanComeUp(ops, s)
  {
    hide Step, Possible, IsReply;
    var n := Step(ops, s, e);
    var run :| Replies(run) && Feasible(ops, n, run) && Run(ops, n, run).b.nodeReady;
    var all := [e] + run;
    assert all[0] == e && all[1..] == run;
    assert Replies(all) && Feasible(ops, s, all) && Run(ops, s, all).b.nodeReady;
  }

  /** A create reply leads on to a node that is up. */
  lemma CreatedComesUp(ops: Ops, s: System)
    requires ops.start && s.owed.creates > 0 && !s.b.reconnecting
    ensures CanComeUp(ops, s)
  {
    hide CanComeUp, Elems;
    var n := Step(ops, s, CreateReply(true));
    ComesUpByOne(ops, n, Started(ops));
    ComesUpAfter(ops, s, CreateReply(true));
  }

  lemma StoppedComesUp(ops: Ops, s: System)
    requires ops.start && s.owed.stops > 0 && s.b.reconnecting
    ensures CanComeUp(ops, s)
  {
    hide CanComeUp;
    var n := Step(ops, s, StopReply);
    ComesUpByOne(ops, n, Restarted(ops));
    ComesUpAfter(ops, s, StopReply);
  }

  /** After an orderly run a first start that is accepted can succeed iff the host can create and start the node. */
  lemma StartCanSucceedIff(ops: Ops, run: seq<Event>)
    requires Feasible(ops, INITIAL, run) && RunOrderly(ops, INITIAL, run)
    requires var s := Run(ops, INITIAL, run); StartAccepted(s.b) && Orderly(ops, s, Start)
    ensures CanComeUp(ops, Step(ops, Run(ops, INITIAL, run), Start)) <==> ops.createNode && ops.start
  {
    RunKeepsInv(ops, INITIAL, run);
    StartComesUpIff(ops, Run(ops, INITIAL, run));
  }

  lemma StartComesUpIff(ops: Ops, s: System)
    requires Inv(ops, s) && StartAccepted(s.b) && Orderly(ops, s, Start)
    ensures CanComeUp(ops, Step(ops, s, Start)) <==> ops.createNode && ops.start
  {
    hide CanComeUp, TopicsKept, Elems;
    var n := Step(ops, s, Start);
    if ops.createNode && ops.start {
      if ops.hubDelay {
        CreatedComesUp(ops, Step(ops, n, DelayOver));
        ComesUpAfter(ops, n, DelayOver);
      } else {
        CreatedComesUp(ops, n);
      }
    } else if ops.start && ops.hubDelay {
      DelayedInVain(ops, n);
    } else {
      CannotComeUp(ops, n);
    }
  }

  /** In hub mode a host that cannot create the node finds out when the delay is over. */
  lemma DelayedInVain(ops: Ops, s: System)
    requires ops.start && !ops.createNode && !s.b.nodeReady
    requires s.owed.creates + s.owed.starts + s.owed.stops + s.owed.restarts + s.owed.launches == 0
    ensures !CanComeUp(ops, s)
  {
    forall run | Replies(run) && Feasible(ops, s, run) ensures !Run(ops, s, run).b.nodeReady {
      VainRun(ops, s, run);
    }
  }

  lemma {:induction false} VainRun(ops: Ops, s: System, run: seq<Event>)
    requires ops.start && !ops.createNode && !s.b.nodeReady
    requires s.owed.creates + s.owed.starts + s.owed.stops + s.owed.restarts + s.owed.launches == 0
    requires Replies(run) && Feasible(ops, s, run)
    ensures !Run(ops, s, run).b.nodeReady
    decreases |run|
  {
    if run != [] {
      assert run[0] in run && forall ev :: ev in run[1..] ==> ev in run;
      VainRun(ops, Step(ops, s, run[0]), run[1..]);
    }
  }

  /** And a restart that is accepted, iff the host can start the node. */
  lemma RestartCanSucceedIff(ops: Ops, run: seq<Event>, now: int)
    requires Feasible(ops, INITIAL, run) && RunOrderly(ops, INITIAL, run)
    requires var s := Run(ops, INITIAL, run); !ReconnectBlocked(s.b, now) && Orderly(ops, s, Reconnect(now))
    ensures CanComeUp(ops, Step(ops, Run(ops, INITIAL, run), Reconnect(now))) <==> ops.start
  {
    RunKeepsInv(ops, INITIAL, run);
    NeverStarted(ops, INITIAL, run);
    RestartComesUpIff(ops, Run(ops, INITIAL, run), now);
  }

  lemma {:induction false} NeverStarted(ops: Ops, s: System, run: seq<Event>)
    requires Feasible(ops, s, run) && (!ops.start ==> s.owed.starts == s.owed.restarts == 0)
    ensures !ops.start ==> Run(ops, s, run).owed.starts == Run(ops, s, run).owed.restarts == 0
    decreases |run|
  {
    if run != [] {
      NeverStarted(ops, Step(ops, s, run[0]), run[1..]);
    }
  }

  lemma RestartComesUpIff(ops: Ops, s: System, now: int)
    requires Inv(ops, s) && !ReconnectBlocked(s.b, now) && Orderly(ops, s, Reconnect(now))
    requires !ops.start ==> s.owed.starts == s.owed.restarts == 0
    ensures CanComeUp(ops, Step(ops, s, Reconnect(now))) <==> ops.start
  {
    hide CanComeUp, TopicsKept;
    var n := Step(ops, s, Reconnect(now));
    if !ops.start {
      CannotComeUp(ops, n);
    } else if ops.stop {
      StoppedComesUp(ops, n);
    } else {
      ComesUpByOne(ops, n, Restarted(ops));
    }
  }

  /** While a restart is under way another one is refused for 60 s, and accepted from then on. */
  lemma RestartBusyIff(ops: Ops, s: System, t: int, now: int)
    requires s.b.everReady && (s.b.reconnecting ==> t - s.b.reconnectAtMs >= 60_000)
    ensures var n := Step(ops, s, Reconnect(t));
            n.b.reconnecting ==> (Step(ops, n, Reconnect(now)) == n <==> now - t < 60_000)
    ensures ops.start || ops.stop ==> Step(ops, s, Reconnect(t)).b.reconnecting
  {
  }
}
