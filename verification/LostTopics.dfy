/**
  When can a delivery bearer (`core/src/delivery_bearer.hpp`) end up ready without its topics? `becomeReady`
  joins the pending topics only; whether it can still be reached can be read off the state and the replies
  that are outstanding.
*/
module LostTopics {
  import opened Prelude
  import opened DeliveryLifecycle

  /** The node counts as ready, but some topic has not been joined since it came up. */
  ghost predicate Lost(b: Bearer) {
    b.nodeReady && !(b.all <= b.joined)
  }

  predicate IsReply(ev: Event) {
    !ev.Start? && !ev.Join? && !ev.Reconnect?
  }

  ghost predicate Replies(run: seq<Event>) {
    forall ev :: ev in run ==> IsReply(ev)
  }

  /** Replies alone, with no further call, can lose a topic. */
  ghost predicate CanLose(ops: Ops, s: System) {
    exists run :: Replies(run) && Feasible(ops, s, run) && Lost(Run(ops, s, run).b)
  }

  /** The bearer waits for a start only if starts are reported at all. */
  predicate Sound(ops: Ops, s: System) {
    !ops.nodeStarted || !ops.start ==> !s.b.awaitStart
  }

  /** Starts still to be dispatched by the create replies and delays that are outstanding. */
  function StartsToCome(ops: Ops, o: Owed): nat {
    if ops.start then o.creates + (if ops.createNode then o.delays else 0) else 0
  }

  /**
    How often the outstanding replies can lead to `becomeReady`. With nodeStarted events every dispatched start
    or restart can be reported once; the first report ends a restart that is under way.
  */
  function Readies(ops: Ops, s: System): nat {
    var b, o := s.b, s.owed;
    if !ops.nodeStarted then o.starts + StartsToCome(ops, o)
    else
      var reports := (if b.awaitStart && o.launches > 0 then 1 else 0) + StartsToCome(ops, o)
                     + (if ops.start then o.stops else 0);
      if b.reconnecting && reports > 0 then reports - 1 else reports
  }

  /** The first `becomeReady` joins the pending topics, any other none. */
  ghost predicate Danger(ops: Ops, s: System) {
    || Lost(s.b)
    || (Readies(ops, s) >= 1 && !(s.b.all <= Elems(s.b.pending)))
    || (Readies(ops, s) >= 2 && s.b.all != {})
  }

  lemma StepSound(ops: Ops, s: System, ev: Event)
    requires Sound(ops, s) && Possible(s, ev)
    ensures Sound(ops, Step(ops, s, ev))
  {
  }

  /** A reply that does not lead to `becomeReady`. */
  ghost predicate ReadiesKept(ops: Ops, s: System, n: System) {
    && Readies(ops, n) <= Readies(ops, s) && n.b.all == s.b.all && n.b.pending == s.b.pending
    && ((n.b.nodeReady == s.b.nodeReady && n.b.joined == s.b.joined) || n.b.joined == s.b.all)
  }

  /** A reply that does: the pending topics are what is joined now. */
  ghost predicate ReadyUsedUp(ops: Ops, s: System, n: System) {
    && Readies(ops, n) + 1 <= Readies(ops, s) && n.b.all == s.b.all && n.b.pending == []
    && n.b.joined == Elems(s.b.pending)
  }

  lemma ForwardedReadies(ops: Ops, s: System, ev: Event)
    requires Sound(ops, s) && Possible(s, ev)
    requires ev.DelayOver? || ev.CreateReply? || ev.StopReply? || ev.LaunchLost?
    ensures ReadiesKept(ops, s, Step(ops, s, ev))
  {
  }

  lemma StartReplyReadies(ops: Ops, s: System, ok: bool)
    requires Sound(ops, s) && Possible(s, StartReply(ok))
    ensures var n := Step(ops, s, StartReply(ok)); ReadiesKept(ops, s, n) || ReadyUsedUp(ops, s, n)
  {
    hide Elems;
  }

  lemma StartedReadies(ops: Ops, s: System, ok: bool)
    requires Sound(ops, s) && Possible(s, NodeStarted(ok))
    ensures var n := Step(ops, s, NodeStarted(ok)); ReadiesKept(ops, s, n) || ReadyUsedUp(ops, s, n)
  {
    hide Elems;
  }

  lemma RestartReplyReadies(ops: Ops, s: System, ok: bool)
    requires Sound(ops, s) && Possible(s, RestartReply(ok))
    ensures ReadiesKept(ops, s, Step(ops, s, RestartReply(ok)))
  {
  }

  /** Replies never make more readinesses possible, and each uses one up. */
  lemma StepReadies(ops: Ops, s: System, ev: Event)
    requires Sound(ops, s) && Possible(s, ev) && IsReply(ev)
    ensures var n := Step(ops, s, ev); ReadiesKept(ops, s, n) || ReadyUsedUp(ops, s, n)
  {
    hide Step, ReadiesKept, ReadyUsedUp, Sound;
    match ev
    case StartReply(ok) => StartReplyReadies(ops, s, ok);
    case NodeStarted(ok) => StartedReadies(ops, s, ok);
    case RestartReply(ok) => RestartReplyReadies(ops, s, ok);
    case _ => ForwardedReadies(ops, s, ev);
  }

  lemma StepSafe(ops: Ops, s: System, ev: Event)
    requires Sound(ops, s) && Possible(s, ev) && IsReply(ev) && !Danger(ops, s)
    ensures !Danger(ops, Step(ops, s, ev))
  {
    hide Step, Readies, Possible;
    StepReadies(ops, s, ev);
  }

  lemma {:induction false} SafeStays(ops: Ops, s: System, run: seq<Event>)
    requires Sound(ops, s) && !Danger(ops, s) && Replies(run) && Feasible(ops, s, run)
    ensures !Lost(Run(ops, s, run).b)
    decreases |run|
  {
    hide Step, Readies, Possible, Sound;
    if run != [] {
      StepSafe(ops, s, run[0]);
      StepSound(ops, s, run[0]);
      SafeStays(ops, Step(ops, s, run[0]), run[1..]);
    }
  }

  // ---- a dangerous state can lose a topic ----

  /** Outstanding work; every reply uses some of it up. */
  function Work(o: Owed): nat {
    4 * o.delays + 3 * o.creates + 3 * o.stops + o.starts + o.restarts + o.launches
  }

  /** The reply that brings `becomeReady` nearer. */
  function Nearer(ops: Ops, s: System): Event {
    if !ops.nodeStarted && s.owed.starts > 0 then StartReply(true)
    else if ops.nodeStarted && s.b.awaitStart && s.owed.launches > 0 then NodeStarted(true)
    else if s.owed.creates > 0 then CreateReply(true)
    else if ops.nodeStarted && s.owed.stops > 0 then StopReply
    else DelayOver
  }

  lemma NearerIsPossible(ops: Ops, s: System)
    requires Sound(ops, s) && Readies(ops, s) >= 1
    ensures Possible(s, Nearer(ops, s)) && IsReply(Nearer(ops, s))
    ensures Work(Step(ops, s, Nearer(ops, s)).owed) < Work(s.owed)
  {
  }

  /** Nothing has happened yet that counts. */
  ghost predicate NoneUsed(ops: Ops, s: System, n: System) {
    Readies(ops, n) == Readies(ops, s) && n.b.all == s.b.all && n.b.pending == s.b.pending
  }

  /** `becomeReady` has run. */
  ghost predicate OneUsed(ops: Ops, s: System, n: System) {
    && Readies(ops, n) + 1 == Readies(ops, s) && n.b.all == s.b.all && n.b.pending == []
    && n.b.nodeReady && n.b.joined == Elems(s.b.pending)
  }

  lemma NearerForwards(ops: Ops, s: System)
    requires Sound(ops, s) && Readies(ops, s) >= 1 && Possible(s, Nearer(ops, s))
    requires var ev := Nearer(ops, s); ev.CreateReply? || ev.StopReply? || ev.DelayOver?
    ensures NoneUsed(ops, s, Step(ops, s, Nearer(ops, s)))
  {
  }

  lemma NearerStarts(ops: Ops, s: System)
    requires Sound(ops, s) && Readies(ops, s) >= 1 && Possible(s, Nearer(ops, s)) && Nearer(ops, s).StartReply?
    ensures OneUsed(ops, s, Step(ops, s, Nearer(ops, s)))
  {
    hide Elems;
  }

  lemma NearerReports(ops: Ops, s: System)
    requires Sound(ops, s) && Readies(ops, s) >= 1 && Possible(s, Nearer(ops, s)) && Nearer(ops, s).NodeStarted?
    ensures var n := Step(ops, s, Nearer(ops, s)); NoneUsed(ops, s, n) || OneUsed(ops, s, n)
  {
    hide Elems;
  }

  lemma NearerReadies(ops: Ops, s: System)
    requires Sound(ops, s) && Readies(ops, s) >= 1 && Possible(s, Nearer(ops, s))
    ensures var n := Step(ops, s, Nearer(ops, s)); NoneUsed(ops, s, n) || OneUsed(ops, s, n)
  {
    hide Step, NoneUsed, OneUsed, Sound, Readies;
    match Nearer(ops, s)
    case StartReply(_) => NearerStarts(ops, s);
    case NodeStarted(_) => NearerReports(ops, s);
    case _ => NearerForwards(ops, s);
  }

  lemma StaysDangerous(ops: Ops, s: System)
    requires Sound(ops, s) && Danger(ops, s) && !Lost(s.b) && Possible(s, Nearer(ops, s))
    ensures Danger(ops, Step(ops, s, Nearer(ops, s)))
  {
    hide Step, Readies, Nearer, Possible;
    NearerReadies(ops, s);
  }

  lemma {:induction false} DangerLoses(ops: Ops, s: System) returns (run: seq<Event>)
    requires Sound(ops, s) && Danger(ops, s)
    ensures Replies(run) && Feasible(ops, s, run) && Lost(Run(ops, s, run).b)
    decreases Work(s.owed)
  {
    hide Step, Readies, Nearer, Possible, Sound, Work;
    run := [];
    if !Lost(s.b) {
      var ev := Nearer(ops, s);
      NearerIsPossible(ops, s);
      StaysDangerous(ops, s);
      StepSound(ops, s, ev);
      var rest := DangerLoses(ops, Step(ops, s, ev));
      run := [ev] + rest;
      assert run[0] == ev && run[1..] == rest;
    }
  }

  // ---- the exact condition ----

  lemma {:induction false} RunSound(ops: Ops, s: System, run: seq<Event>)
    requires Sound(ops, s) && Feasible(ops, s, run)
    ensures Sound(ops, Run(ops, s, run))
    decreases |run|
  {
    hide Step, Possible, Sound;
    if run != [] {
      StepSound(ops, s, run[0]);
      RunSound(ops, Step(ops, s, run[0]), run[1..]);
    }
  }

  lemma CanLoseIffDanger(ops: Ops, s: System)
    requires Sound(ops, s)
    ensures CanLose(ops, s) <==> Danger(ops, s)
  {
    hide Step, Readies, Possible, Sound, Danger;
    if Danger(ops, s) {
      var run := DangerLoses(ops, s);
    } else {
      forall run | Replies(run) && Feasible(ops, s, run) ensures !Lost(Run(ops, s, run).b) {
        SafeStays(ops, s, run);
      }
    }
  }

  /**
    After any run whatsoever, replies alone can lose a topic iff one is lost already, or `becomeReady` can still
    be reached while some topic is not pending, or it can be reached twice while there are topics at all.
  */
  lemma RepliesLoseTopicsIff(ops: Ops, run: seq<Event>)
    requires Feasible(ops, INITIAL, run)
    ensures var s := Run(ops, INITIAL, run);
            CanLose(ops, s) <==>
            || Lost(s.b)
            || (Readies(ops, s) >= 1 && !(s.b.all <= Elems(s.b.pending)))
            || (Readies(ops, s) >= 2 && s.b.all != {})
  {
    hide Step, Readies, Possible, CanLose;
    RunSound(ops, INITIAL, run);
    CanLoseIffDanger(ops, Run(ops, INITIAL, run));
  }

  // ---- the calls that bring the danger ----

  predicate StartAccepted(b: Bearer) {
    !b.nodeReady && !b.starting && !b.reconnecting
  }

  lemma StartDanger(ops: Ops, s: System)
    requires Inv(ops, s) && s.b.everReady && StartAccepted(s.b)
    ensures Danger(ops, Step(ops, s, Start)) <==> ops.createNode && ops.start && !(s.b.all <= Elems(s.b.pending))
  {
  }

  lemma ReconnectDanger(ops: Ops, s: System, now: int)
    requires Inv(ops, s) && !ReconnectBlocked(s.b, now)
    ensures Danger(ops, Step(ops, s, Reconnect(now))) <==>
            && ops.start && ops.stop && ops.nodeStarted
            && (s.owed.stops > 0 || (s.owed.launches > 0 && s.b.awaitStart))
            && !(s.b.all <= Elems(s.b.pending))
  {
  }

  lemma InvIsSound(ops: Ops, s: System)
    requires Inv(ops, s)
    ensures Sound(ops, s)
  {
  }

  /**
    After an orderly run, a start accepted after first readiness can be followed by replies alone that lose a
    topic iff the node can be created and started and some topic is not pending.
  */
  lemma StartingAgainLosesIff(ops: Ops, run: seq<Event>)
    requires Feasible(ops, INITIAL, run) && RunOrderly(ops, INITIAL, run)
    requires Run(ops, INITIAL, run).b.everReady && StartAccepted(Run(ops, INITIAL, run).b)
    ensures var s := Run(ops, INITIAL, run);
            CanLose(ops, Step(ops, s, Start)) <==> ops.createNode && ops.start && !(s.b.all <= Elems(s.b.pending))
  {
    var s := Run(ops, INITIAL, run);
    RunKeepsInv(ops, INITIAL, run);
    hide Inv, CanLose, Danger, Step;
    InvIsSound(ops, s);
    StepSound(ops, s, Start);
    CanLoseIffDanger(ops, Step(ops, s, Start));
    StartDanger(ops, s);
  }

  /**
    After an orderly run, an accepted restart can be followed by replies alone that lose a topic iff the host
    can stop and start the node and is told when it has started, an earlier restart has not been stopped yet
    or still waits for its report, and some topic is not pending.
  */
  lemma RestartLosesIff(ops: Ops, run: seq<Event>, now: int)
    requires Feasible(ops, INITIAL, run) && RunOrderly(ops, INITIAL, run)
    requires !ReconnectBlocked(Run(ops, INITIAL, run).b, now)
    ensures var s := Run(ops, INITIAL, run);
            CanLose(ops, Step(ops, s, Reconnect(now))) <==>
            && ops.start && ops.stop && ops.nodeStarted
            && (s.owed.stops > 0 || (s.owed.launches > 0 && s.b.awaitStart))
            && !(s.b.all <= Elems(s.b.pending))
  {
    var s := Run(ops, INITIAL, run);
    RunKeepsInv(ops, INITIAL, run);
    hide Inv, CanLose, Danger, Step, ReconnectBlocked;
    InvIsSound(ops, s);
    StepSound(ops, s, Reconnect(now));
    CanLoseIffDanger(ops, Step(ops, s, Reconnect(now)));
    ReconnectDanger(ops, s, now);
  }
}
