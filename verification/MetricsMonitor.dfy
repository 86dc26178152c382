/**
  The metrics poll of loam_core (`core/src/loam_core_impl.cpp`): one call in flight at a time, stall
  detection, and the watchdog that re-dials when the node has sat without peers. Times are milliseconds
  of the steady clock.
*/
module MetricsMonitor {
  import opened Prelude

  datatype Announcement = Stalled(at: int) | Recovered(at: int)

  /** `announced` and `reconnects` list what these functions have told the application and the bearer. */
  datatype Monitor = Monitor(
    inFlight: bool, gen: nat, sentMs: int, lastOkMs: int, failStreak: nat, stalled: bool,
    everConnected: bool, zeroStreak: nat, lastReconnectMs: int,
    announced: seq<Announcement>, reconnects: seq<int>)

  const IDLE: Monitor := Monitor(false, 0, 0, 0, 0, false, false, 0, 0, [], [])

  /**
    A poll with the bearer's readiness, or the answer to the call numbered `gen`: read at `t`, and at
    `now` once more for the watchdog. `peers` is -1 when the answer has no peer count.
  */
  datatype Event =
    | Poll(now: int, ready: bool)
    | Answer(gen: nat, success: bool, peers: int, t: int, now: int)

  // ---- what each event does ----

  function CheckStall(m: Monitor, now: int): Monitor {
    if now - m.lastOkMs < 30000 || m.stalled then m
    else m.(stalled := true, announced := m.announced + [Stalled(now)])
  }

  function NoteFailure(m: Monitor, now: int): Monitor {
    CheckStall(m.(failStreak := m.failStreak + 1), now)
  }

  function NoteOk(m: Monitor, now: int): Monitor {
    var ok := m.(lastOkMs := now, failStreak := 0);
    if m.stalled then ok.(stalled := false, announced := m.announced + [Recovered(now)]) else ok
  }

  function Watchdog(m: Monitor, peers: int, now: int): Monitor {
    if peers > 0 then m.(everConnected := true, zeroStreak := 0)
    else if peers != 0 || !m.everConnected then m
    else
      var counted := m.(zeroStreak := m.zeroStreak + 1);
      if counted.zeroStreak >= 10 && now - m.lastReconnectMs > 45000
      then counted.(lastReconnectMs := now, zeroStreak := 0, reconnects := m.reconnects + [now])
      else counted
  }

  function SendCall(m: Monitor, now: int): Monitor {
    m.(inFlight := true, sentMs := now, gen := (m.gen + 1) % 0x1_0000_0000)
  }

  function Step(m: Monitor, ev: Event): Monitor {
    match ev
    case Poll(now, ready) =>
      if !ready then m
      else
        var based := if m.lastOkMs == 0 then m.(lastOkMs := now) else m;
        if !m.inFlight then SendCall(based, now)
        else if now - m.sentMs < 20000 then CheckStall(based, now)
        else SendCall(NoteFailure(based.(inFlight := false), now), now)
    case Answer(gen, success, peers, t, now) =>
      if gen != m.gen then m
      else if !success then NoteFailure(m.(inFlight := false), t)
      else Watchdog(NoteOk(m.(inFlight := false), t), peers, now)
  }

  class LoamCoreMetrics {
    var metricsInFlight: bool
    var metricsGen: nat
    var metricsSentMs: int
    var lastMetricsOkMs: int
    var metricsFailStreak: nat
    var stalled: bool
    var everConnected: bool
    var zeroPeerStreak: nat
    var lastReconnectMs: int
    var announced: seq<Announcement>
    var reconnects: seq<int>

    function State(): Monitor
      reads this
    {
      Monitor(metricsInFlight, metricsGen, metricsSentMs, lastMetricsOkMs, metricsFailStreak, stalled,
              everConnected, zeroPeerStreak, lastReconnectMs, announced, reconnects)
    }

    constructor ()
      ensures State() == IDLE
    {
      metricsInFlight, metricsGen, metricsSentMs, lastMetricsOkMs, metricsFailStreak := false, 0, 0, 0, 0;
      stalled, everConnected, zeroPeerStreak, lastReconnectMs := false, false, 0, 0;
      announced, reconnects := [], [];
    }

    method NoteMetricsFailure(now: int)
      modifies this
      ensures State() == NoteFailure(old(State()), now)
    {
      metricsFailStreak := metricsFailStreak + 1;
      CheckStallNow(now);
    }

    method CheckStallNow(now: int)
      modifies this
      ensures State() == CheckStall(old(State()), now)
    {
      if now - lastMetricsOkMs < 30000 {
        return;
      }
      if !stalled {
        stalled := true;
        announced := announced + [Stalled(now)];
      }
    }

    method NoteMetricsOk(now: int)
      modifies this
      ensures State() == NoteOk(old(State()), now)
    {
      lastMetricsOkMs := now;
      metricsFailStreak := 0;
      if stalled {
        stalled := false;
        announced := announced + [Recovered(now)];
      }
    }

    method RefreshMetrics(now: int, ready: bool)
      modifies this
      ensures State() == Step(old(State()), Poll(now, ready))
    {
      if !ready {
        return;
      }
      if lastMetricsOkMs == 0 {
        lastMetricsOkMs := now;
      }
      if metricsInFlight {
        if now - metricsSentMs < 20000 {
          CheckStallNow(now);
          return;
        }
        metricsInFlight := false;
        NoteMetricsFailure(now);
      }
      metricsInFlight := true;
      metricsSentMs := now;
      metricsGen := (metricsGen + 1) % 0x1_0000_0000;
    }

    method OnMetrics(gen: nat, success: bool, peers: int, t: int, now: int)
      modifies this
      ensures State() == Step(old(State()), Answer(gen, success, peers, t, now))
    {
      if gen != metricsGen {
        return;
      }
      metricsInFlight := false;
      if !success {
        NoteMetricsFailure(t);
        return;
      }
      NoteMetricsOk(t);
      if peers > 0 {
        everConnected := true;
        zeroPeerStreak := 0;
      } else if peers == 0 && everConnected {
        zeroPeerStreak := zeroPeerStreak + 1;
        if zeroPeerStreak >= 10 {
          if now - lastReconnectMs > 45000 {
            lastReconnectMs := now;
            zeroPeerStreak := 0;
            reconnects := reconnects + [now];
          }
        }
      }
    }
  }

  // ---- runs ----

  /** The state before the `i`-th event of a run. */
  function At(run: seq<Event>, i: nat): Monitor
    requires i <= |run|
  {
    if i == 0 then IDLE else Step(At(run, i - 1), run[i - 1])
  }

  function Begins(ev: Event): int {
    if ev.Poll? then ev.now else ev.t
  }

  /** The clock does not run backwards. */
  ghost predicate Timed(run: seq<Event>) {
    && (forall i :: 0 <= i < |run| ==> 0 <= Begins(run[i]) <= run[i].now)
    && (forall i, j :: 0 <= i < j < |run| ==> run[i].now <= Begins(run[j]))
  }

  predicate ReadyPoll(ev: Event) {
    ev.Poll? && ev.ready
  }

  /** The `i`-th event is the awaited answer. */
  predicate Awaited(run: seq<Event>, i: nat)
    requires i < |run|
  {
    run[i].Answer? && run[i].gen == At(run, i).gen
  }

  predicate Good(run: seq<Event>, i: nat)
    requires i < |run|
  {
    Awaited(run, i) && run[i].success
  }

  // ---- superseded calls ----

  /** The 32-bit call number after `k` more calls. */
  function GenAfter(gen: nat, k: nat): nat {
    (gen + k) % 0x1_0000_0000
  }

  /** The event makes a metrics call. */
  predicate Sends(m: Monitor, ev: Event) {
    ReadyPoll(ev) && (!m.inFlight || ev.now - m.sentMs >= 20000)
  }

  /** The metrics calls made from the `i`-th event on and before the `j`-th. */
  function Calls(run: seq<Event>, i: nat, j: nat): nat
    requires i <= j <= |run|
    decreases j
  {
    if i == j then 0 else Calls(run, i, j - 1) + if Sends(At(run, j - 1), run[j - 1]) then 1 else 0
  }

  lemma StepNumbers(m: Monitor, ev: Event)
    requires m.gen < 0x1_0000_0000
    ensures Step(m, ev).gen == GenAfter(m.gen, if Sends(m, ev) then 1 else 0)
  {
  }

  lemma {:induction false} NumberInRange(run: seq<Event>, i: nat)
    requires i <= |run|
    ensures At(run, i).gen < 0x1_0000_0000
  {
    hide Step;
    if i > 0 {
      NumberInRange(run, i - 1);
      StepNumbers(At(run, i - 1), run[i - 1]);
    }
  }

  /** In every run the call number counts the calls, modulo 2^32. */
  lemma {:induction false} CallsAreNumbered(run: seq<Event>, i: nat, j: nat)
    requires i <= j <= |run|
    ensures At(run, j).gen == GenAfter(At(run, i).gen, Calls(run, i, j))
    decreases j
  {
    hide Step, Sends;
    NumberInRange(run, i);
    if i < j {
      CallsAreNumbered(run, i, j - 1);
      NumberInRange(run, j - 1);
      StepNumbers(At(run, j - 1), run[j - 1]);
      ModOfSum(At(run, i).gen + Calls(run, i, j - 1), if Sends(At(run, j - 1), run[j - 1]) then 1 else 0);
    }
  }

  lemma ModOfSum(a: nat, b: nat)
    requires b <= 1
    ensures (a % 0x1_0000_0000 + b) % 0x1_0000_0000 == (a + b) % 0x1_0000_0000
  {
  }

  lemma IgnoredIffOther(m: Monitor, gen: nat)
    ensures (forall success, peers, t, now :: Step(m, Answer(gen, success, peers, t, now)) == m) <==> gen != m.gen
  {
    if gen == m.gen {
      var t := m.lastOkMs + 1;
      assert Step(m, Answer(gen, true, -1, t, t)) != m;
    }
  }

  /**
    In every run: the answer to the call that was the latest before the `i`-th event, arriving before the `j`-th,
    is ignored, whatever it says, iff the number of calls made in between is not a multiple of 2^32, where the
    call number has come round.
  */
  lemma SupersededIgnoredIff(run: seq<Event>, i: nat, j: nat)
    requires i <= j <= |run|
    ensures (forall success, peers, t, now ::
               Step(At(run, j), Answer(At(run, i).gen, success, peers, t, now)) == At(run, j))
       <==> Calls(run, i, j) % 0x1_0000_0000 != 0
  {
    hide Step;
    CallsAreNumbered(run, i, j);
    NumberInRange(run, i);
    IgnoredIffOther(At(run, j), At(run, i).gen);
    RoundIff(At(run, i).gen, Calls(run, i, j));
  }

  lemma RoundIff(gen: nat, k: nat)
    requires gen < 0x1_0000_0000
    ensures GenAfter(gen, k) == gen <==> k % 0x1_0000_0000 == 0
  {
  }

  // ---- stall detection ----

  ghost predicate Alternating(a: seq<Announcement>) {
    forall i :: 0 <= i < |a| ==> (a[i].Stalled? <==> i % 2 == 0)
  }

  /** One event makes at most one announcement, and it is the one the flag calls for. */
  lemma StepAnnounces(m: Monitor, ev: Event)
    ensures var n := Step(m, ev);
            || (n.stalled == m.stalled && n.announced == m.announced)
            || (!m.stalled && n.stalled && n.announced == m.announced + [Stalled(Begins(ev))])
            || (m.stalled && !n.stalled && n.announced == m.announced + [Recovered(Begins(ev))])
  {
  }

  /** Announcements alternate, starting with a stall, and the flag tells which came last. */
  lemma {:induction false} AnnouncementsAlternate(run: seq<Event>, i: nat)
    requires i <= |run|
    ensures Alternating(At(run, i).announced)
    ensures At(run, i).stalled <==> |At(run, i).announced| % 2 == 1
  {
    if i > 0 {
      hide Step;
      AnnouncementsAlternate(run, i - 1);
      StepAnnounces(At(run, i - 1), run[i - 1]);
    }
  }

  lemma {:induction false} OkTimeGrows(run: seq<Event>, i: nat, j: nat)
    requires i < j <= |run| && Timed(run) && Good(run, i)
    ensures At(run, j).lastOkMs >= run[i].t
    decreases j
  {
    if i + 1 < j {
      OkTimeGrows(run, i, j - 1);
      assert run[i].t <= run[i].now <= Begins(run[j - 1]);
    }
  }

  /** The `j`-th event announces a stall. */
  ghost predicate AnnouncesStall(run: seq<Event>, j: nat)
    requires j < |run|
  {
    At(run, j + 1).stalled && !At(run, j).stalled
  }

  /** No stall is announced within 30 s of any good answer. */
  lemma StallOnlyAfter30s(run: seq<Event>, i: nat, j: nat)
    requires i < j < |run| && Timed(run) && Good(run, i) && AnnouncesStall(run, j)
    ensures Begins(run[j]) >= run[i].t + 30000
  {
    OkTimeGrows(run, i, j);
  }

  /** Without a good answer, a stall stays announced and the last good answer stays what it was. */
  lemma {:induction false} NothingGoodKeeps(run: seq<Event>, i: nat, j: nat)
    requires i <= j <= |run| && forall k :: i <= k < j ==> !Good(run, k)
    requires At(run, i).lastOkMs != 0
    ensures At(run, j).lastOkMs == At(run, i).lastOkMs
    ensures At(run, i).stalled ==> At(run, j).stalled && At(run, j).announced == At(run, i).announced
    decreases j
  {
    if i < j {
      NothingGoodKeeps(run, i, j - 1);
      assert !Good(run, j - 1);
    }
  }

  /** After one poll past the 30 s a call is in flight, unless the stall is known already. */
  lemma {:induction false} CallPending(run: seq<Event>, p: nat, k: nat)
    requires p < k <= |run| && Timed(run) && ReadyPoll(run[p])
    requires At(run, p).lastOkMs != 0 && run[p].now >= At(run, p).lastOkMs + 30000
    requires forall l :: p <= l < k ==> !Good(run, l)
    ensures At(run, k).stalled || At(run, k).inFlight
    decreases k
  {
    NothingGoodKeeps(run, p, k - 1);
    assert !Good(run, k - 1);
    if p + 1 < k {
      CallPending(run, p, k - 1);
      assert run[p].now <= Begins(run[k - 1]);
    }
  }

  ghost predicate AllBy(a: seq<Announcement>, t: int) {
    forall n :: 0 <= n < |a| ==> a[n].at <= t
  }

  /** Announcements carry the time of the event that made them. */
  lemma {:induction false} AnnouncedByNow(run: seq<Event>, i: nat)
    requires 0 < i <= |run| && Timed(run)
    ensures AllBy(At(run, i).announced, Begins(run[i - 1]))
  {
    hide Step;
    StepAnnounces(At(run, i - 1), run[i - 1]);
    if i > 1 {
      AnnouncedByNow(run, i - 1);
      assert Begins(run[i - 2]) <= run[i - 2].now <= Begins(run[i - 1]);
    } else {
      assert At(run, 0).announced == [];
    }
  }

  /** The second poll that finds the last good answer 30 s old announces the stall at the latest. */
  lemma StallByTheSecondPoll(run: seq<Event>, i: nat, p: nat, q: nat)
    requires i <= p < q < |run| && Timed(run) && ReadyPoll(run[p]) && ReadyPoll(run[q])
    requires At(run, i).lastOkMs != 0 && run[p].now >= At(run, i).lastOkMs + 30000
    requires forall k :: i <= k < q ==> !Good(run, k)
    ensures At(run, q + 1).stalled && At(run, q + 1).announced != []
    ensures var a := At(run, q + 1).announced; a[|a| - 1].Stalled? && a[|a| - 1].at <= run[q].now
  {
    hide Step, Good, At, AllBy, Alternating;
    NothingGoodKeeps(run, i, p);
    NothingGoodKeeps(run, i, q);
    CallPending(run, p, q);
    assert run[p].now <= Begins(run[q]);
    LatePollStalls(run, q);
    AnnouncementsAlternate(run, q + 1);
    AnnouncedByNow(run, q + 1);
    LastOfOdd(At(run, q + 1).announced, run[q].now);
  }

  /** A late poll that finds a call in flight announces the stall, if that has not happened before. */
  lemma LatePollStalls(run: seq<Event>, q: nat)
    requires q < |run| && ReadyPoll(run[q]) && (At(run, q).stalled || At(run, q).inFlight)
    requires At(run, q).lastOkMs != 0 && run[q].now >= At(run, q).lastOkMs + 30000
    ensures At(run, q + 1).stalled
  {
  }

  lemma LastOfOdd(a: seq<Announcement>, t: int)
    requires Alternating(a) && |a| % 2 == 1 && AllBy(a, t)
    ensures a != [] && a[|a| - 1].Stalled? && a[|a| - 1].at <= t
  {
  }

  lemma NowInOrder(run: seq<Event>, p: nat, q: nat)
    requires p <= q < |run| && Timed(run)
    ensures run[p].now <= run[q].now
  {
    if p < q {
      assert run[p].now <= Begins(run[q]);
    }
  }

  lemma BeginsInOrder(run: seq<Event>, k: nat, q: nat)
    requires k < q < |run| && Timed(run)
    ensures Begins(run[k]) <= run[q].now
  {
    assert run[k].now <= Begins(run[q]);
  }

  /** From the `i`-th event on, the ready bearer is polled between time x and x + gap. */
  ghost predicate PolledAfter(run: seq<Event>, i: nat, x: int, gap: nat) {
    exists k :: i <= k < |run| && ReadyPoll(run[k]) && x < run[k].now <= x + gap
  }

  /** At least every `gap` milliseconds, for long enough after `from`. */
  ghost predicate PolledThroughout(run: seq<Event>, i: nat, from: int, gap: nat) {
    forall x: int :: from <= x < from + 30000 + gap ==> PolledAfter(run, i, x, gap)
  }

  /**
    Detection bound: when after the last good answer at time L the ready bearer is polled at least every P
    milliseconds, the stall has been announced by L + 30 s + 2P.
  */
  lemma StallDetected(run: seq<Event>, i: nat, gap: nat) returns (q: nat)
    requires i <= |run| && Timed(run) && At(run, i).lastOkMs != 0
    requires PolledThroughout(run, i, At(run, i).lastOkMs, gap)
    requires forall k :: i <= k < |run| && Begins(run[k]) <= At(run, i).lastOkMs + 30000 + 2 * gap ==> !Good(run, k)
    ensures i <= q <= |run| && At(run, q).stalled && At(run, q).announced != []
    ensures var a := At(run, q).announced;
            a[|a| - 1].Stalled? && a[|a| - 1].at <= At(run, i).lastOkMs + 30000 + 2 * gap
  {
    hide Step, Good, At, Timed;
    var last := At(run, i).lastOkMs;
    assert PolledAfter(run, i, last + 29999, gap);
    var p :| i <= p < |run| && ReadyPoll(run[p]) && last + 29999 < run[p].now <= last + 29999 + gap;
    assert PolledAfter(run, i, run[p].now, gap);
    var second :| i <= second < |run| && ReadyPoll(run[second]) && run[p].now < run[second].now <= run[p].now + gap;
    if second <= p {
      NowInOrder(run, second, p);
    }
    forall k | i <= k < second ensures !Good(run, k) {
      BeginsInOrder(run, k, second);
    }
    StallByTheSecondPoll(run, i, p, second);
    q := second + 1;
  }

  // ---- what the monitor knows, from the history ----

  /** A call that failed: the awaited answer says so, or a poll finds it unanswered for 20 s. */
  predicate Failed(run: seq<Event>, i: nat)
    requires i < |run|
  {
    || (Awaited(run, i) && !run[i].success)
    || (ReadyPoll(run[i]) && At(run, i).inFlight && run[i].now - At(run, i).sentMs >= 20000)
  }

  /** The time of the last good answer or, before there is one, of the first poll of the ready bearer. */
  function OkSince(run: seq<Event>, i: nat): int
    requires i <= |run|
  {
    if i == 0 then 0
    else if Good(run, i - 1) then run[i - 1].t
    else if OkSince(run, i - 1) == 0 && ReadyPoll(run[i - 1]) then run[i - 1].now
    else OkSince(run, i - 1)
  }

  function FailuresSince(run: seq<Event>, i: nat): nat
    requires i <= |run|
  {
    if i == 0 || Good(run, i - 1) then 0 else FailuresSince(run, i - 1) + if Failed(run, i - 1) then 1 else 0
  }

  /** When the metrics call was made that has neither been answered nor replaced. */
  function OpenCall(run: seq<Event>, i: nat): Option<int>
    requires i <= |run|
  {
    if i == 0 then None
    else if Sends(At(run, i - 1), run[i - 1]) then Some(run[i - 1].now)
    else if Awaited(run, i - 1) then None
    else OpenCall(run, i - 1)
  }

  lemma {:induction false} HistoryCounts(run: seq<Event>, i: nat)
    requires i <= |run|
    ensures At(run, i).lastOkMs == OkSince(run, i)
    ensures At(run, i).failStreak == FailuresSince(run, i)
  {
    if i > 0 {
      HistoryCounts(run, i - 1);
    }
  }

  lemma {:induction false} OneCallOpen(run: seq<Event>, i: nat)
    requires i <= |run|
    ensures At(run, i).inFlight <==> OpenCall(run, i).Some?
    ensures OpenCall(run, i).Some? ==> At(run, i).sentMs == OpenCall(run, i).value
  {
    hide Step, Sends;
    if i > 0 {
      OneCallOpen(run, i - 1);
      StepCalls(At(run, i - 1), run[i - 1]);
    }
  }

  lemma StepCalls(m: Monitor, ev: Event)
    ensures var n, awaited := Step(m, ev), ev.Answer? && ev.gen == m.gen;
            && n.inFlight == (Sends(m, ev) || (m.inFlight && !awaited))
            && n.sentMs == if Sends(m, ev) then ev.now else m.sentMs
  {
  }

  // ---- stalls and recoveries, exactly ----

  /**
    A stall is announced on exactly these events: none is announced already, a call has failed or a poll finds
    one in flight, and nothing good has been heard for 30 s.
  */
  lemma StallIff(run: seq<Event>, i: nat)
    requires i < |run|
    ensures AnnouncesStall(run, i) <==>
            && !At(run, i).stalled
            && (Failed(run, i) || (ReadyPoll(run[i]) && At(run, i).inFlight))
            && Begins(run[i]) - OkSince(run, i + 1) >= 30000
    ensures AnnouncesStall(run, i) ==> At(run, i + 1).announced == At(run, i).announced + [Stalled(Begins(run[i]))]
  {
    HistoryCounts(run, i);
  }

  /** Every good answer ends a stall and says so; nothing else does. */
  lemma RecoveryIff(run: seq<Event>, i: nat)
    requires i < |run|
    ensures At(run, i).stalled && !At(run, i + 1).stalled <==> At(run, i).stalled && Good(run, i)
    ensures Good(run, i) ==> !At(run, i + 1).stalled
    ensures (exists t: int :: At(run, i + 1).announced == At(run, i).announced + [Recovered(t)]) <==>
            At(run, i).stalled && Good(run, i)
    ensures At(run, i).stalled && Good(run, i) ==>
            At(run, i + 1).announced == At(run, i).announced + [Recovered(run[i].t)]
  {
    var a, b := At(run, i), At(run, i + 1);
    StepRecovers(a, run[i]);
    hide Step;
    if !(a.stalled && Good(run, i)) {
      forall t: int ensures b.announced != a.announced + [Recovered(t)] {
        OtherEnd(a.announced, Stalled(Begins(run[i])), Recovered(t));
      }
    }
  }

  lemma OtherEnd(a: seq<Announcement>, x: Announcement, y: Announcement)
    requires x != y
    ensures a + [x] != a + [y]
  {
    assert (a + [x])[|a|] == x && (a + [y])[|a|] == y;
  }

  lemma StepRecovers(m: Monitor, ev: Event)
    ensures var n, good := Step(m, ev), ev.Answer? && ev.gen == m.gen && ev.success;
            if m.stalled && good then !n.stalled && n.announced == m.announced + [Recovered(ev.t)]
            else
              && (n.stalled <==> m.stalled || n.announced != m.announced)
              && (n.announced == m.announced || n.announced == m.announced + [Stalled(Begins(ev))])
  {
  }

  /** Announcements are never taken back. */
  lemma {:induction false} AnnouncedStays(run: seq<Event>, i: nat, j: nat)
    requires i <= j <= |run|
    ensures At(run, i).announced <= At(run, j).announced
    decreases j
  {
    hide Step;
    if i < j {
      AnnouncedStays(run, i, j - 1);
      StepAnnounces(At(run, j - 1), run[j - 1]);
    }
  }

  /**
    Every outage is announced anew: if the `g`-th event is a good answer, whatever had been announced before it, and
    then none comes although the ready bearer is polled at least every P milliseconds, a further stall has been
    announced by 30 s + 2P after it.
  */
  lemma EveryOutageAnnounced(run: seq<Event>, g: nat, gap: nat) returns (q: nat)
    requires g < |run| && Timed(run) && Good(run, g) && run[g].t > 0
    requires PolledThroughout(run, g + 1, run[g].t, gap)
    requires forall k :: g < k < |run| && Begins(run[k]) <= run[g].t + 30000 + 2 * gap ==> !Good(run, k)
    ensures g < q <= |run| && At(run, q).stalled && At(run, g + 1).announced < At(run, q).announced
    ensures var a := At(run, q).announced;
            a[|a| - 1].Stalled? && a[|a| - 1].at <= run[g].t + 30000 + 2 * gap
  {
    hide Step, Good, PolledThroughout;
    RecoveryIff(run, g);
    HistoryCounts(run, g + 1);
    q := StallDetected(run, g + 1, gap);
    AnnouncedStays(run, g + 1, q);
    AnnouncementsAlternate(run, g + 1);
    AnnouncementsAlternate(run, q);
  }

  // ---- the peerless watchdog ----

  predicate PositiveAnswer(run: seq<Event>, i: nat)
    requires i < |run|
  {
    Good(run, i) && run[i].peers > 0
  }

  predicate ZeroAnswer(run: seq<Event>, i: nat)
    requires i < |run|
  {
    Good(run, i) && run[i].peers == 0
  }

  ghost predicate Redials(run: seq<Event>, i: nat)
    requires i < |run|
  {
    At(run, i + 1).reconnects != At(run, i).reconnects
  }

  /** Zero-peer answers since the later of the last positive answer and the last re-dial. */
  ghost function ZeroSince(run: seq<Event>, i: nat): nat
    requires i <= |run|
  {
    if i == 0 || PositiveAnswer(run, i - 1) || Redials(run, i - 1) then 0
    else ZeroSince(run, i - 1) + if ZeroAnswer(run, i - 1) then 1 else 0
  }

  ghost function LastRedial(run: seq<Event>, i: nat): int
    requires i <= |run|
  {
    if At(run, i).reconnects == [] then 0 else At(run, i).reconnects[|At(run, i).reconnects| - 1]
  }

  /** The watchdog acts on the awaited good answers and on nothing else. */
  lemma StepWatches(m: Monitor, ev: Event)
    ensures var n, good := Step(m, ev), ev.Answer? && ev.gen == m.gen && ev.success;
            && n.everConnected == (m.everConnected || (good && ev.peers > 0))
            && if good && ev.peers == 0 && m.everConnected && m.zeroStreak + 1 >= 10
                  && ev.now - m.lastReconnectMs > 45000
               then n.zeroStreak == 0 && n.lastReconnectMs == ev.now && n.reconnects == m.reconnects + [ev.now]
               else
                 && n.lastReconnectMs == m.lastReconnectMs && n.reconnects == m.reconnects
                 && n.zeroStreak == if good && ev.peers > 0 then 0
                                    else if good && ev.peers == 0 && m.everConnected then m.zeroStreak + 1
                                    else m.zeroStreak
  {
  }

  lemma {:induction false} WatchdogCounts(run: seq<Event>, i: nat)
    requires i <= |run|
    ensures At(run, i).everConnected <==> exists k :: 0 <= k < i && PositiveAnswer(run, k)
    ensures At(run, i).everConnected ==> At(run, i).zeroStreak == ZeroSince(run, i)
    ensures At(run, i).lastReconnectMs == LastRedial(run, i)
  {
    if i > 0 {
      WatchdogCounts(run, i - 1);
      StepWatches(At(run, i - 1), run[i - 1]);
      hide Step;
      if PositiveAnswer(run, i - 1) {
        assert At(run, i).everConnected;
      }
    }
  }

  /**
    The watchdog re-dials on exactly these events: a zero-peer answer, after some positive answer, that is
    at least the tenth zero-peer answer since the later of the last positive answer and the last re-dial,
    more than 45 s after that re-dial.
  */
  lemma RedialsIff(run: seq<Event>, i: nat)
    requires i < |run|
    ensures Redials(run, i) <==>
              && ZeroAnswer(run, i)
              && (exists k :: 0 <= k < i && PositiveAnswer(run, k))
              && ZeroSince(run, i) + 1 >= 10
              && run[i].now - LastRedial(run, i) > 45000
    ensures Redials(run, i) ==> At(run, i + 1).reconnects == At(run, i).reconnects + [run[i].now]
  {
    WatchdogCounts(run, i);
    StepWatches(At(run, i), run[i]);
    hide Step;
  }

  ghost predicate Spaced(times: seq<int>) {
    && (forall a, b :: 0 <= a < b < |times| ==> times[b] - times[a] > 45000)
    && (forall a :: 0 <= a < |times| ==> times[a] > 45000)
  }

  lemma SpacedAppend(times: seq<int>, t: int)
    requires Spaced(times) && t - (if times == [] then 0 else times[|times| - 1]) > 45000
    ensures Spaced(times + [t])
  {
  }

  lemma RedialAppends(run: seq<Event>, i: nat)
    requires i < |run|
    ensures At(run, i + 1).reconnects == At(run, i).reconnects
         || (At(run, i + 1).reconnects == At(run, i).reconnects + [run[i].now]
             && run[i].now - LastRedial(run, i) > 45000)
  {
    WatchdogCounts(run, i);
    StepWatches(At(run, i), run[i]);
    hide Step;
  }

  /** Any two re-dials are more than 45 s apart, and the first is not before 45 s of the clock. */
  lemma {:induction false} RedialsAreSpaced(run: seq<Event>, i: nat)
    requires i <= |run|
    ensures Spaced(At(run, i).reconnects)
  {
    hide Step, Spaced;
    if i > 0 {
      RedialsAreSpaced(run, i - 1);
      RedialAppends(run, i - 1);
      if At(run, i).reconnects != At(run, i - 1).reconnects {
        SpacedAppend(At(run, i - 1).reconnects, run[i - 1].now);
      }
    } else {
      NothingSpaced();
    }
  }

  lemma NothingSpaced()
    ensures Spaced([])
  {
  }
}
