/**
  Start, readiness and restart of the delivery bearer (`core/src/delivery_bearer.hpp`). Every public call
  and every callback of the delivery module is one event; callbacks arrive in any order.
*/
module DeliveryLifecycle {
  import opened Prelude

  type Topic = string

  /** Which operations the host supplies, and whether `createNode` is delayed (hub mode). */
  datatype Ops = Ops(createNode: bool, start: bool, stop: bool, nodeStarted: bool, hubDelay: bool)

  /** `joined` holds the topics joined since the node last came up. */
  datatype Bearer = Bearer(
    nodeReady: bool, starting: bool, reconnecting: bool, everReady: bool, awaitStart: bool,
    reconnectAtMs: int, pending: seq<Topic>, all: set<Topic>, joined: set<Topic>)

  const NEW_BEARER: Bearer := Bearer(false, false, false, false, false, 0, [], {}, {})

  /** The call into the delivery module that an event ends with. */
  datatype Call = NoCall | Delay | CreateNode | StartNode | StopNode | RestartNode

  datatype Event =
    | Start
    | DelayOver
    | CreateReply(ok: bool)
    | StartReply(ok: bool)
    | NodeStarted(ok: bool)
    | Join(topic: Topic)
    | Reconnect(now: int)
    | StopReply
    | RestartReply(ok: bool)
    | LaunchLost               // the node never reports the outcome of a start

  // ---- what each event does ----

  function CreateCall(ops: Ops, b: Bearer): (Bearer, Call) {
    if ops.createNode then (b, CreateNode) else (b.(starting := false), NoCall)
  }

  function BecomeReady(b: Bearer): Bearer {
    b.(nodeReady := true, starting := false, everReady := true, joined := Elems(b.pending), pending := [])
  }

  /** The node is back up after a restart. */
  function Rejoined(b: Bearer): Bearer {
    b.(reconnecting := false, awaitStart := false, nodeReady := true, joined := b.all)
  }

  function RestartCall(ops: Ops, b: Bearer): (Bearer, Call) {
    if ops.start then (b.(awaitStart := ops.nodeStarted), RestartNode) else (b.(reconnecting := false), NoCall)
  }

  predicate ReconnectBlocked(b: Bearer, now: int) {
    !b.everReady || (b.reconnecting && now - b.reconnectAtMs < 60000)
  }

  function Transition(ops: Ops, b: Bearer, ev: Event): (Bearer, Call) {
    match ev
    case Start =>
      if b.nodeReady || b.starting || b.reconnecting then (b, NoCall)
      else if ops.hubDelay then (b.(starting := true), Delay)
      else CreateCall(ops, b.(starting := true))
    case DelayOver => CreateCall(ops, b)
    case CreateReply(ok) =>
      if !ok || !ops.start then (b.(starting := false), NoCall)
      else (b.(awaitStart := ops.nodeStarted), StartNode)
    case StartReply(ok) =>
      if !ok then (b.(awaitStart := false, starting := false), NoCall)
      else if ops.nodeStarted then (b, NoCall)
      else (BecomeReady(b), NoCall)
    case NodeStarted(ok) =>
      if !b.awaitStart then (b, NoCall)
      else if !ok then (b.(awaitStart := false, starting := false, reconnecting := false), NoCall)
      else if b.reconnecting then (Rejoined(b), NoCall)
      else (BecomeReady(b.(awaitStart := false)), NoCall)
    case Join(t) =>
      var known := b.(all := b.all + {t});
      if !b.nodeReady then (known.(pending := b.pending + [t]), NoCall)
      else (known.(joined := b.joined + {t}), NoCall)
    case Reconnect(now) =>
      if ReconnectBlocked(b, now) then (b, NoCall)
      else
        var down := b.(reconnecting := true, reconnectAtMs := now, nodeReady := false, joined := {});
        if ops.stop then (down, StopNode) else RestartCall(ops, down)
    case StopReply => RestartCall(ops, b)
    case RestartReply(ok) =>
      if ops.nodeStarted then (b, NoCall)
      else if !ok then (b.(awaitStart := false, reconnecting := false), NoCall)
      else (Rejoined(b), NoCall)
    case LaunchLost => (b, NoCall)
  }

  class DeliveryBearer {
    const ops: Ops
    var nodeReady: bool
    var starting: bool
    var reconnecting: bool
    var everReady: bool
    var awaitStart: bool
    var reconnectAtMs: int
    var pendingTopics: seq<Topic>
    var allTopics: set<Topic>
    var joined: set<Topic>

    function State(): Bearer
      reads this
    {
      Bearer(nodeReady, starting, reconnecting, everReady, awaitStart, reconnectAtMs, pendingTopics, allTopics, joined)
    }

    constructor (ops: Ops)
      ensures State() == NEW_BEARER && this.ops == ops
    {
      this.ops := ops;
      nodeReady, starting, reconnecting, everReady, awaitStart := false, false, false, false, false;
      reconnectAtMs, pendingTopics, allTopics, joined := 0, [], {}, {};
    }

    method DoJoin(topic: Topic)
      modifies this`joined
      ensures joined == old(joined) + {topic}
    {
      joined := joined + {topic};
    }

    method Start() returns (call: Call)
      modifies this
      ensures (State(), call) == Transition(ops, old(State()), Event.Start)
    {
      if nodeReady || starting || reconnecting {
        return NoCall;
      }
      starting := true;
      if ops.hubDelay {
        return Delay;
      }
      call := StartNodeNow();
    }

    /** The `startNode` lambda, run at once or when the hub-mode delay is over. */
    method StartNodeNow() returns (call: Call)
      modifies this`starting
      ensures (State(), call) == CreateCall(ops, old(State()))
    {
      if !ops.createNode {
        starting := false;
        return NoCall;
      }
      return CreateNode;
    }

    method OnCreateReply(ok: bool) returns (call: Call)
      modifies this`starting, this`awaitStart
      ensures (State(), call) == Transition(ops, old(State()), CreateReply(ok))
    {
      if !ok {
        starting := false;
        return NoCall;
      }
      if !ops.start {
        starting := false;
        return NoCall;
      }
      awaitStart := ops.nodeStarted;
      return StartNode;
    }

    method OnStartReply(ok: bool)
      modifies this
      ensures (State(), NoCall) == Transition(ops, old(State()), StartReply(ok))
    {
      if !ok {
        awaitStart := false;
        starting := false;
        return;
      }
      if ops.nodeStarted {
        return;
      }
      BecomeReadyNow();
    }

    method OnStarted(ok: bool)
      modifies this
      ensures (State(), NoCall) == Transition(ops, old(State()), NodeStarted(ok))
    {
      if !awaitStart {
        return;
      }
      awaitStart := false;
      if !ok {
        starting := false;
        reconnecting := false;
        return;
      }
      if reconnecting {
        reconnecting := false;
        nodeReady := true;
        JoinAll();
        return;
      }
      BecomeReadyNow();
    }

    method BecomeReadyNow()
      modifies this
      ensures State() == BecomeReady(old(State()))
    {
      nodeReady := true;
      starting := false;
      everReady := true;
      joined := {};
      for i := 0 to |pendingTopics|
        invariant State() == old(State()).(nodeReady := true, starting := false, everReady := true, joined := joined)
        invariant pendingTopics == old(pendingTopics) && joined == Elems(pendingTopics[..i])
      {
        assert pendingTopics[..i + 1] == pendingTopics[..i] + [pendingTopics[i]];
        DoJoin(pendingTopics[i]);
      }
      assert pendingTopics[..|pendingTopics|] == pendingTopics;
      pendingTopics := [];
    }

    /** The node has come up again: every topic ever joined is joined anew. */
    method JoinAll()
      modifies this`joined
      ensures joined == allTopics
    {
      joined := {};
      var todo := allTopics;
      while todo != {}
        invariant joined + todo == allTopics
        decreases todo
      {
        var t :| t in todo;
        DoJoin(t);
        todo := todo - {t};
      }
    }

    method JoinTopic(topic: Topic)
      modifies this
      ensures (State(), NoCall) == Transition(ops, old(State()), Join(topic))
    {
      allTopics := allTopics + {topic};
      if !nodeReady {
        pendingTopics := pendingTopics + [topic];
        return;
      }
      DoJoin(topic);
    }

    method ReconnectAt(now: int) returns (call: Call)
      modifies this
      ensures (State(), call) == Transition(ops, old(State()), Reconnect(now))
    {
      if !everReady || (reconnecting && now - reconnectAtMs < 60000) {
        return NoCall;
      }
      reconnecting := true;
      reconnectAtMs := now;
      nodeReady := false;
      joined := {};
      if ops.stop {
        return StopNode;
      }
      call := OnStopReply();
    }

    /** The `doStart` lambda of `reconnect`. */
    method OnStopReply() returns (call: Call)
      modifies this`reconnecting, this`awaitStart
      ensures (State(), call) == Transition(ops, old(State()), StopReply)
    {
      if !ops.start {
        reconnecting := false;
        return NoCall;
      }
      awaitStart := ops.nodeStarted;
      return RestartNode;
    }

    method OnRestartReply(ok: bool)
      modifies this
      ensures (State(), NoCall) == Transition(ops, old(State()), RestartReply(ok))
    {
      if ok && ops.nodeStarted {
        return;
      }
      if !ok {
        if !ops.nodeStarted {
          awaitStart := false;
          reconnecting := false;
        }
        return;
      }
      awaitStart := false;
      reconnecting := false;
      nodeReady := true;
      JoinAll();
    }
  }

  // ---- runs ----

  /** Replies and events the delivery module still owes; `launches` counts outcomes of dispatched starts. */
  datatype Owed = Owed(delays: nat, creates: nat, starts: nat, stops: nat, restarts: nat, launches: nat)

  datatype System = System(b: Bearer, owed: Owed)

  const INITIAL: System := System(NEW_BEARER, Owed(0, 0, 0, 0, 0, 0))

  predicate Possible(s: System, ev: Event) {
    match ev
    case DelayOver => s.owed.delays > 0
    case CreateReply(_) => s.owed.creates > 0
    case StartReply(_) => s.owed.starts > 0
    case NodeStarted(_) => s.owed.launches > 0
    case StopReply => s.owed.stops > 0
    case RestartReply(_) => s.owed.restarts > 0
    case LaunchLost => s.owed.launches > 0
    case _ => true
  }

  function Settle(o: Owed, ev: Event): Owed
    requires Possible(System(NEW_BEARER, o), ev)
  {
    match ev
    case DelayOver => o.(delays := o.delays - 1)
    case CreateReply(_) => o.(creates := o.creates - 1)
    case StartReply(_) => o.(starts := o.starts - 1)
    case NodeStarted(_) => o.(launches := o.launches - 1)
    case StopReply => o.(stops := o.stops - 1)
    case RestartReply(_) => o.(restarts := o.restarts - 1)
    case LaunchLost => o.(launches := o.launches - 1)
    case _ => o
  }

  function Issue(ops: Ops, o: Owed, call: Call): Owed {
    var launched := o.launches + if ops.nodeStarted then 1 else 0;
    match call
    case NoCall => o
    case Delay => o.(delays := o.delays + 1)
    case CreateNode => o.(creates := o.creates + 1)
    case StartNode => o.(starts := o.starts + 1, launches := launched)
    case StopNode => o.(stops := o.stops + 1)
    case RestartNode => o.(restarts := o.restarts + 1, launches := launched)
  }

  function Step(ops: Ops, s: System, ev: Event): System
    requires Possible(s, ev)
  {
    var (b, call) := Transition(ops, s.b, ev);
    System(b, Issue(ops, Settle(s.owed, ev), call))
  }

  ghost predicate Feasible(ops: Ops, s: System, run: seq<Event>)
    decreases |run|
  {
    run == [] || (Possible(s, run[0]) && Feasible(ops, Step(ops, s, run[0]), run[1..]))
  }

  ghost function Run(ops: Ops, s: System, run: seq<Event>): System
    requires Feasible(ops, s, run)
    decreases |run|
  {
    if run == [] then s else Run(ops, Step(ops, s, run[0]), run[1..])
  }

  /**
    A start or restart that is not refused begins only when nothing of an earlier one is outstanding, and
    `start` is not issued again after the node has once been ready.
  */
  predicate Orderly(ops: Ops, s: System, ev: Event) {
    match ev
    case Start =>
      s.b.nodeReady || s.b.starting || s.b.reconnecting ||
      (!s.b.everReady && s.owed.delays + s.owed.creates + s.owed.starts + s.owed.launches == 0)
    case Reconnect(now) =>
      ReconnectBlocked(s.b, now) ||
      (s.owed.stops == 0 && s.owed.launches == 0 && (ops.nodeStarted || s.owed.restarts == 0))
    case _ => true
  }

  ghost predicate RunOrderly(ops: Ops, s: System, run: seq<Event>)
    requires Feasible(ops, s, run)
    decreases |run|
  {
    run != [] ==> Orderly(ops, s, run[0]) && RunOrderly(ops, Step(ops, s, run[0]), run[1..])
  }

  // ---- the rejoin theorem ----

  /** What the bearer promises its callers about topics. */
  ghost predicate TopicsKept(b: Bearer) {
    && (b.nodeReady ==> b.all <= b.joined)
    && (!b.everReady ==> Elems(b.pending) == b.all)
  }

  ghost predicate Inv(ops: Ops, s: System) {
    var b, o := s.b, s.owed;
    && TopicsKept(b)
    && (b.nodeReady ==> b.everReady && !b.reconnecting)
    && (b.reconnecting ==> b.everReady)
    && (b.everReady && b.awaitStart ==> b.reconnecting)
    && (b.everReady ==> o.delays == o.creates == 0 && (ops.nodeStarted || o.starts == 0))
    && (!b.everReady ==> o.stops == o.restarts == 0)
    && o.delays + o.creates + o.starts <= 1
    && (o.delays + o.creates > 0 ==> o.launches == 0)
    && (o.stops > 0 ==> o.stops == 1 && b.reconnecting && o.launches == 0 && (ops.nodeStarted || o.restarts == 0))
    && (!ops.start ==> !b.awaitStart)
    && (!ops.nodeStarted ==> !b.awaitStart && o.launches == 0)
    && (!ops.stop ==> o.stops == 0)
  }

  lemma CallKeepsInv(ops: Ops, s: System, ev: Event)
    requires ev.Start? || ev.Reconnect?
    requires Inv(ops, s) && Orderly(ops, s, ev)
    ensures Inv(ops, Step(ops, s, ev))
  {
  }

  lemma JoinKeepsInv(ops: Ops, s: System, t: Topic)
    requires Inv(ops, s)
    ensures Inv(ops, Step(ops, s, Join(t)))
  {
    assert Elems(s.b.pending + [t]) == Elems(s.b.pending) + {t};
  }

  lemma CreatingKeepsInv(ops: Ops, s: System, ev: Event)
    requires ev.DelayOver? || ev.CreateReply?
    requires Inv(ops, s) && Possible(s, ev)
    ensures Inv(ops, Step(ops, s, ev))
  {
    hide TopicsKept, Elems;
    SameTopics(s.b, Step(ops, s, ev).b);
  }

  /** Topics are as safe as before while nothing that concerns them has changed. */
  lemma SameTopics(a: Bearer, b: Bearer)
    requires b == a.(starting := b.starting, awaitStart := b.awaitStart)
    ensures TopicsKept(b) <==> TopicsKept(a)
  {
  }

  lemma StartReplyKeepsInv(ops: Ops, s: System, ok: bool)
    requires Inv(ops, s) && Possible(s, StartReply(ok))
    ensures Inv(ops, Step(ops, s, StartReply(ok)))
  {
  }

  lemma StartedKeepsInv(ops: Ops, s: System, ok: bool)
    requires Inv(ops, s) && Possible(s, NodeStarted(ok))
    ensures Inv(ops, Step(ops, s, NodeStarted(ok)))
  {
  }

  lemma RestartKeepsInv(ops: Ops, s: System, ev: Event)
    requires ev.StopReply? || ev.RestartReply? || ev.LaunchLost?
    requires Inv(ops, s) && Possible(s, ev)
    ensures Inv(ops, Step(ops, s, ev))
  {
  }

  lemma StepKeepsInv(ops: Ops, s: System, ev: Event)
    requires Inv(ops, s) && Possible(s, ev) && Orderly(ops, s, ev)
    ensures Inv(ops, Step(ops, s, ev))
  {
    hide Inv, Step, Possible, Orderly;
    match ev
    case Start => CallKeepsInv(ops, s, ev);
    case Reconnect(_) => CallKeepsInv(ops, s, ev);
    case Join(t) => JoinKeepsInv(ops, s, t);
    case DelayOver => CreatingKeepsInv(ops, s, ev);
    case CreateReply(_) => CreatingKeepsInv(ops, s, ev);
    case StartReply(ok) => StartReplyKeepsInv(ops, s, ok);
    case NodeStarted(ok) => StartedKeepsInv(ops, s, ok);
    case StopReply => RestartKeepsInv(ops, s, ev);
    case RestartReply(_) => RestartKeepsInv(ops, s, ev);
    case LaunchLost => RestartKeepsInv(ops, s, ev);
  }

  lemma {:induction false} RunKeepsInv(ops: Ops, s: System, run: seq<Event>)
    requires Inv(ops, s) && Feasible(ops, s, run) && RunOrderly(ops, s, run)
    ensures Inv(ops, Run(ops, s, run))
    decreases |run|
  {
    if run != [] {
      StepKeepsInv(ops, s, run[0]);
      RunKeepsInv(ops, Step(ops, s, run[0]), run[1..]);
    }
  }

  /** The topics of the joins in a run. */
  ghost function TopicsOf(run: seq<Event>): set<Topic> {
    set ev | ev in run && ev.Join? :: ev.topic
  }

  /** What is remembered grows by the topic of a join and by nothing else; nothing foreign is joined or pending. */
  ghost predicate OnlyRemembered(b: Bearer) {
    b.joined <= b.all && Elems(b.pending) <= b.all
  }

  lemma StepRemembers(ops: Ops, s: System, ev: Event)
    requires Possible(s, ev)
    ensures Step(ops, s, ev).b.all == s.b.all + TopicsOf([ev])
  {
    assert TopicsOf([ev]) == if ev.Join? then {ev.topic} else {} by {
      assert forall e :: e in [ev] <==> e == ev;
    }
  }

  lemma JoinStaysRemembered(ops: Ops, s: System, t: Topic)
    requires OnlyRemembered(s.b)
    ensures OnlyRemembered(Step(ops, s, Join(t)).b)
  {
    assert Elems(s.b.pending + [t]) == Elems(s.b.pending) + {t};
  }

  lemma StepOnlyRemembered(ops: Ops, s: System, ev: Event)
    requires Possible(s, ev) && OnlyRemembered(s.b)
    ensures OnlyRemembered(Step(ops, s, ev).b)
  {
    if ev.Join? {
      JoinStaysRemembered(ops, s, ev.topic);
    }
  }

  lemma TopicsOfCons(run: seq<Event>)
    requires run != []
    ensures TopicsOf(run) == TopicsOf([run[0]]) + TopicsOf(run[1..])
  {
    assert run == [run[0]] + run[1..];
    assert forall ev :: ev in run <==> ev in [run[0]] || ev in run[1..];
  }

  /** In every run whatsoever the topics remembered are those of the joins. */
  lemma {:induction false} RunRemembers(ops: Ops, s: System, run: seq<Event>)
    requires Feasible(ops, s, run) && OnlyRemembered(s.b)
    ensures Run(ops, s, run).b.all == s.b.all + TopicsOf(run)
    ensures OnlyRemembered(Run(ops, s, run).b)
    decreases |run|
  {
    hide Step, Possible, OnlyRemembered;
    if run == [] {
      assert TopicsOf(run) == {};
    } else {
      hide TopicsOf;
      StepRemembers(ops, s, run[0]);
      StepOnlyRemembered(ops, s, run[0]);
      TopicsOfCons(run);
      RunRemembers(ops, Step(ops, s, run[0]), run[1..]);
    }
  }

  /**
    Rejoin: in every orderly run - replies early, late or never, `nodeStarted` before or after the reply -
    a ready node has joined exactly the topics of all joins of the run since it last came up, and before the
    first readiness these are the pending topics.
  */
  lemma ReadyMeansAllJoined(ops: Ops, run: seq<Event>)
    requires Feasible(ops, INITIAL, run) && RunOrderly(ops, INITIAL, run)
    ensures TopicsKept(Run(ops, INITIAL, run).b)
    ensures var b := Run(ops, INITIAL, run).b;
            && b.all == TopicsOf(run)
            && (b.nodeReady ==> b.joined == TopicsOf(run))
            && (!b.everReady ==> Elems(b.pending) == TopicsOf(run))
  {
    hide Step, TopicsOf;
    RunKeepsInv(ops, INITIAL, run);
    RunRemembers(ops, INITIAL, run);
  }

  // ---- why the runs must be orderly ----

  const HOST: Ops := Ops(true, true, true, true, false)

  const TOPIC: Topic := "/t"

  /** The node after a first start with topic TOPIC joined; the reply to `start` is still to come. */
  const UP: System := System(Bearer(true, false, false, true, false, 0, [], {TOPIC}, {TOPIC}), Owed(0, 0, 1, 0, 0, 0))

  /** The first restart is under way and waits for its outcome. */
  const RESTARTING: System :=
    System(Bearer(false, false, true, true, true, 1000, [], {TOPIC}, {}), Owed(0, 0, 1, 0, 1, 1))

  /** The node counts as ready, but the topic has not been joined since it came up. */
  ghost predicate TopicLost(s: System) {
    s.b.nodeReady && TOPIC in s.b.all && TOPIC !in s.b.joined
  }

  lemma One(ops: Ops, s: System, e: Event)
    requires Possible(s, e)
    ensures Feasible(ops, s, [e]) && Run(ops, s, [e]) == Step(ops, s, e)
  {
    hide Step, Possible;
    var s1 := Step(ops, s, e);
    assert Feasible(ops, s1, []) && Run(ops, s1, []) == s1;
    assert [e][0] == e && [e][1..] == [];
  }

  lemma Two(ops: Ops, s: System, e: Event, f: Event)
    requires Possible(s, e) && Possible(Step(ops, s, e), f)
    ensures Feasible(ops, s, [e, f]) && Run(ops, s, [e, f]) == Step(ops, Step(ops, s, e), f)
  {
    hide Step, Possible;
    One(ops, Step(ops, s, e), f);
    assert [e, f][0] == e && [e, f][1..] == [f];
  }

  lemma {:induction false} Chained(ops: Ops, s: System, first: seq<Event>, second: seq<Event>)
    requires Feasible(ops, s, first) && Feasible(ops, Run(ops, s, first), second)
    ensures Feasible(ops, s, first + second)
    ensures Run(ops, s, first + second) == Run(ops, Run(ops, s, first), second)
    decreases |first|
  {
    hide Step, Possible;
    if first == [] {
      assert first + second == second;
    } else {
      assert (first + second)[1..] == first[1..] + second;
      Chained(ops, Step(ops, s, first[0]), first[1..], second);
    }
  }

  lemma Four(ops: Ops, s: System, e: Event, f: Event, g: Event, h: Event)
    requires Possible(s, e) && Possible(Step(ops, s, e), f)
    requires Possible(Step(ops, Step(ops, s, e), f), g)
    requires Possible(Step(ops, Step(ops, Step(ops, s, e), f), g), h)
    ensures Feasible(ops, s, [e, f] + [g, h])
    ensures Run(ops, s, [e, f] + [g, h]) == Step(ops, Step(ops, Step(ops, Step(ops, s, e), f), g), h)
  {
    hide Step, Possible;
    Two(ops, s, e, f);
    Two(ops, Step(ops, Step(ops, s, e), f), g, h);
    Chained(ops, s, [e, f], [g, h]);
  }

  const FIRST_START: seq<Event> := [Start, CreateReply(true)] + [Join(TOPIC), NodeStarted(true)]

  /** The node has been created and its start is under way. */
  const BOOTING: System := System(Bearer(false, true, false, false, true, 0, [], {}, {}), Owed(0, 0, 1, 0, 0, 1))

  const CREATING: System := System(Bearer(false, true, false, false, false, 0, [], {}, {}), Owed(0, 1, 0, 0, 0, 0))

  lemma CreatingStep()
    ensures Possible(INITIAL, Start) && Step(HOST, INITIAL, Start) == CREATING
  {
  }

  lemma BootingStep()
    ensures Possible(CREATING, CreateReply(true)) && Step(HOST, CREATING, CreateReply(true)) == BOOTING
  {
  }

  lemma UpSteps()
    ensures var s1 := Step(HOST, BOOTING, Join(TOPIC));
            Possible(s1, NodeStarted(true)) && Step(HOST, s1, NodeStarted(true)) == UP
  {
    assert Elems([] + [TOPIC]) == {TOPIC} && {} + {TOPIC} == {TOPIC};
  }

  lemma FirstStartRuns()
    ensures Feasible(HOST, INITIAL, FIRST_START) && Run(HOST, INITIAL, FIRST_START) == UP
  {
    CreatingStep();
    BootingStep();
    UpSteps();
    Two(HOST, INITIAL, Start, CreateReply(true));
    Two(HOST, BOOTING, Join(TOPIC), NodeStarted(true));
    hide Feasible, Run, Step, Possible;
    Chained(HOST, INITIAL, [Start, CreateReply(true)], [Join(TOPIC), NodeStarted(true)]);
  }

  lemma RestartSteps()
    ensures var down := Step(HOST, UP, Reconnect(1000));
            Possible(down, StopReply) && Step(HOST, down, StopReply) == RESTARTING
  {
  }

  lemma RestartRuns()
    ensures Feasible(HOST, INITIAL, FIRST_START + [Reconnect(1000), StopReply])
    ensures Run(HOST, INITIAL, FIRST_START + [Reconnect(1000), StopReply]) == RESTARTING
  {
    FirstStartRuns();
    RestartSteps();
    Two(HOST, UP, Reconnect(1000), StopReply);
    hide Feasible, Run, Step, FIRST_START;
    Chained(HOST, INITIAL, FIRST_START, [Reconnect(1000), StopReply]);
  }

  /** A restart that has not reported back for a minute is overtaken by a second one. */
  const OVERLAPPING: seq<Event> :=
    FIRST_START + [Reconnect(1000), StopReply] +
    ([Reconnect(61000), NodeStarted(true)] + [StopReply, NodeStarted(true)])

  lemma OvertakenSteps()
    ensures var s1 := Step(HOST, RESTARTING, Reconnect(61000));
            Possible(s1, NodeStarted(true)) &&
            var s2 := Step(HOST, s1, NodeStarted(true));
            Possible(s2, StopReply) &&
            var s3 := Step(HOST, s2, StopReply);
            Possible(s3, NodeStarted(true)) && TopicLost(Step(HOST, s3, NodeStarted(true)))
  {
  }

  lemma OverlappingRestartLosesTopics()
    ensures Feasible(HOST, INITIAL, OVERLAPPING) && TopicLost(Run(HOST, INITIAL, OVERLAPPING))
  {
    RestartRuns();
    OvertakenSteps();
    Four(HOST, RESTARTING, Reconnect(61000), NodeStarted(true), StopReply, NodeStarted(true));
    hide Feasible, Run, TopicLost, Step, FIRST_START;
    Chained(HOST, INITIAL, FIRST_START + [Reconnect(1000), StopReply],
            [Reconnect(61000), NodeStarted(true)] + [StopReply, NodeStarted(true)]);
  }

  /** A restart fails, and `start` is called again. */
  const STARTED_AGAIN: seq<Event> :=
    FIRST_START + [Reconnect(1000), StopReply] + ([NodeStarted(false), Start] + [CreateReply(true), NodeStarted(true)])

  lemma AgainSteps()
    ensures var s1 := Step(HOST, RESTARTING, NodeStarted(false));
            var s2 := Step(HOST, s1, Start);
            Possible(s2, CreateReply(true)) &&
            var s3 := Step(HOST, s2, CreateReply(true));
            Possible(s3, NodeStarted(true)) && TopicLost(Step(HOST, s3, NodeStarted(true)))
  {
  }

  lemma StartingAgainLosesTopics()
    ensures Feasible(HOST, INITIAL, STARTED_AGAIN) && TopicLost(Run(HOST, INITIAL, STARTED_AGAIN))
  {
    RestartRuns();
    AgainSteps();
    Four(HOST, RESTARTING, NodeStarted(false), Start, CreateReply(true), NodeStarted(true));
    hide Feasible, Run, TopicLost, Step, FIRST_START;
    Chained(HOST, INITIAL, FIRST_START + [Reconnect(1000), StopReply],
            [NodeStarted(false), Start] + [CreateReply(true), NodeStarted(true)]);
  }
}
