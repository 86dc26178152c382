/** The conditions under which the flood covers its network and comes to an end are needed. */
module MeshNecessity {
  import opened Prelude
  import opened BoundedDedup
  import opened BleFrame
  import opened BleMesh
  import opened MeshNetwork
  import opened MeshDistance
  import opened MeshTermination
  import opened MeshCoverage
  import opened MeshOutcome
  import opened MeshShortfall

  // ---- coverage needs a hop count of n - 1 ----

  /** Every node connected to the origin, itself excepted, has delivered the frame once, and nobody else has. */
  ghost predicate Covered(sc: Scenario, h: int)
    requires Prepared(sc, h) && Quiet(sc, h)
  {
    var end := Run(Step(sc.net, SendOf(sc, h)), sc.run);
    forall d :: d in sc.g ==>
      d in end.nodes &&
      multiset(end.nodes[d].delivered)[sc.x] == if d != sc.o && Connected(sc.g, sc.o, d) then 1 else 0
  }

  lemma LongCovers(sc: Scenario, h: int)
    requires Prepared(sc, h) && Quiet(sc, h) && |sc.g.Keys| - 1 <= h < 256
    ensures Covered(sc, h)
  {
    var fl := Flood(sc.g, sc.o, h, sc.x);
    var end := Run(Step(sc.net, SendOf(sc, h)), sc.run);
    forall d | d in sc.g
      ensures d in end.nodes
      ensures multiset(end.nodes[d].delivered)[sc.x] == if d != sc.o && Connected(sc.g, sc.o, d) then 1 else 0
    {
      FloodCovers(fl, sc.net, sc.spread, sc.run, sc.ids, d);
    }
  }

  function NextTo(i: nat, n: nat): seq<Node> {
    (if i > 0 then [i - 1] else []) + (if i + 1 < n then [i + 1] else [])
  }

  function Line(n: nat): Graph {
    map i | i in First(n) :: NextTo(i, n)
  }

  lemma LineNeighbours(n: nat, i: Node, m: Node)
    requires i in Line(n) && m in Line(n)[i]
    ensures i < n && m < n && m in Line(n) && i in Line(n)[m] && i - 1 <= m <= i + 1
  {
    assert Line(n)[i] == NextTo(i, n);
    assert m == i - 1 || m == i + 1;
    if m == i + 1 {
      assert NextTo(m, n)[0] == i;
    } else {
      assert NextTo(m, n)[|NextTo(m, n)| - 1] == i;
    }
    assert Line(n)[m] == NextTo(m, n);
  }

  lemma LineSymmetric(n: nat)
    ensures Symmetric(Line(n)) && DegreeAtMost(Line(n), 2) && Line(n).Keys == First(n)
  {
    forall i, m | i in Line(n) && m in Line(n)[i] ensures m in Line(n) && i in Line(n)[m] {
      LineNeighbours(n, i, m);
    }
  }

  /** Node m of the line is at distance m. */
  lemma {:induction false} LineDistance(n: nat, m: Node, k: int)
    requires Within(Line(n), 0, m, k)
    ensures m <= k
    decreases k
  {
    hide Line;
    if m != 0 {
      var l :| l in Line(n) && m in Line(n)[l] && Within(Line(n), 0, l, k - 1);
      LineNeighbours(n, l, m);
      LineDistance(n, l, k - 1);
    }
  }

  lemma {:induction false} LineConnected(n: nat, m: nat)
    requires m < n
    ensures Within(Line(n), 0, m, m)
  {
    if m > 0 {
      LineConnected(n, m - 1);
      assert NextTo(m - 1, n)[|NextTo(m - 1, n)| - 1] == m;
      assert m in Line(n)[m - 1];
    }
  }

  lemma {:induction false} ReliableIsConfined(g: Graph, net: Net, run: seq<Event>, x: FrameId, ids: set<FrameId>)
    requires Feasible(net, run) && RunReliable(g, net, run, x, ids)
    ensures RunConfined(g, net, run)
    decreases |run|
  {
    hide Step;
    if run != [] {
      ReliableIsConfined(g, Step(net, run[0]), run[1..], x, ids);
    }
  }

  lemma {:induction false} NoSendsNoOrigins(run: seq<Event>)
    requires forall ev :: ev in run ==> !ev.Send?
    ensures AllOriginations(run) == {}
  {
    if run != [] {
      assert run[0] in run && forall ev :: ev in run[1..] ==> ev in run;
      NoSendsNoOrigins(run[1..]);
    }
  }

  lemma LinePrepared(n: nat, h: nat, run: seq<Event>)
    requires 1 <= h < 256 && h + 1 < n
    ensures var sc := Scenario(Line(n), Blank(n, h), 0, X, 0, run, {X}); Prepared(sc, h) && |sc.g.Keys| == n
  {
    hide First, Line, Ring, Symmetric, Roomy, Unknown, Enabled, Blank;
    LineSymmetric(n);
    SendStep(n, h);
    RingRoomy(n, h);
  }

  lemma BlankFacts(n: nat, h: nat)
    requires 1 <= h
    ensures Silent(Blank(n, h)) && TtlAtLeastOne(Blank(n, h)) && TtlsDamped(Blank(n, h)) && AtNodes(Blank(n, h))
    ensures Blank(n, h).nodes.Keys == First(n)
  {
    hide First;
  }

  lemma BlankTerminating(n: nat, h: nat)
    requires 1 <= h
    ensures Terminating(Line(n), Blank(n, h), 2)
  {
    BlankFacts(n, h);
    LineSymmetric(n);
    hide Line, First, Blank, TtlAtLeastOne, TtlsDamped, AtNodes, DegreeAtMost;
  }

  lemma SendRuns(n: nat, h: nat, run: seq<Event>)
    requires 1 <= h < n && Feasible(Step(Blank(n, h), Send(0, Frame(X, h), 0)), run)
    requires Enabled(Blank(n, h), Send(0, Frame(X, h), 0))
    requires RunConfined(Line(n), Step(Blank(n, h), Send(0, Frame(X, h), 0)), run)
    requires forall ev :: ev in run ==> !ev.Send?
    ensures var ev := Send(0, Frame(X, h), 0);
            && Feasible(Blank(n, h), [ev] + run) && RunConfined(Line(n), Blank(n, h), [ev] + run)
            && Run(Blank(n, h), [ev] + run) == Run(Step(Blank(n, h), ev), run)
            && AllOriginations([ev] + run) == {Origin(0, Frame(X, h))}
  {
    hide Step, Enabled, Blank, Line;
    var ev := Send(0, Frame(X, h), 0);
    assert ([ev] + run)[0] == ev && ([ev] + run)[1..] == run;
    NoSendsNoOrigins(run);
  }

  /** A reliable run on the line that ends all traffic. */
  lemma LineRun(n: nat, h: nat) returns (run: seq<Event>)
    requires 1 <= h < 256 && h + 1 < n
    ensures var sc := Scenario(Line(n), Blank(n, h), 0, X, 0, run, {X});
            Prepared(sc, h) && |sc.g.Keys| == n && Quiet(sc, h)
    ensures forall ev :: ev in run ==> !ev.Send?
  {
    hide Step, Enabled, Blank, Line, Reliable, Potential, Terminating, Prepared;
    var ev := Send(0, Frame(X, h), 0);
    SendStep(n, h);
    var sent := Step(Blank(n, h), ev);
    BlankTerminating(n, h);
    StepTerminating(Line(n), Blank(n, h), ev, 2);
    run := QuietExtension(Line(n), sent, X, {X}, 2);
    LinePrepared(n, h, run);
    OverIsQuiet(Run(sent, run), X);
  }

  /** The far end of the line is farther away than the frame can travel. */
  lemma FarEndSilent(n: nat, h: nat, run: seq<Event>)
    requires 1 <= h && h + 1 < n && Enabled(Blank(n, h), Send(0, Frame(X, h), 0))
    requires var sent := Step(Blank(n, h), Send(0, Frame(X, h), 0));
             && Feasible(sent, run) && RunReliable(Line(n), sent, run, X, {X}) && n - 1 in Run(sent, run).nodes
    requires forall ev :: ev in run ==> !ev.Send?
    ensures X !in Run(Step(Blank(n, h), Send(0, Frame(X, h), 0)), run).nodes[n - 1].delivered
  {
    hide Step, Enabled, Blank, Line, Feasible, Run, RunReliable, RunConfined, AllOriginations, Within;
    hide Silent, TtlAtLeastOne;
    var ev := Send(0, Frame(X, h), 0);
    var sent := Step(Blank(n, h), ev);
    ReliableIsConfined(Line(n), sent, run, X, {X});
    SendRuns(n, h, run);
    BlankFacts(n, h);
    if X in Run(sent, run).nodes[n - 1].delivered {
      DeliveredWithinOriginHop(Line(n), Blank(n, h), [ev] + run, n - 1, X);
      LineDistance(n, n - 1, h);
    }
  }

  lemma CoveredFarEnd(sc: Scenario, h: int, d: Node)
    requires Prepared(sc, h) && Quiet(sc, h) && Covered(sc, h)
    requires d in sc.g && d != sc.o && Connected(sc.g, sc.o, d)
    ensures var end := Run(Step(sc.net, SendOf(sc, h)), sc.run);
            d in end.nodes && sc.x in end.nodes[d].delivered
  {
    hide Prepared, Quiet, Connected;
  }

  lemma PreparedSends(sc: Scenario, h: int)
    requires Prepared(sc, h) && Quiet(sc, h)
    ensures Enabled(sc.net, SendOf(sc, h))
    ensures var sent := Step(sc.net, SendOf(sc, h));
            Feasible(sent, sc.run) && RunReliable(sc.g, sent, sc.run, sc.x, sc.ids)
  {
    hide Step, Enabled;
  }

  /** The far end is connected all the same, so it should have been covered. */
  lemma FarEndMissed(n: nat, h: nat) returns (sc: Scenario)
    requires 1 <= h < 256 && h + 1 < n
    ensures |sc.g.Keys| == n && Prepared(sc, h) && Quiet(sc, h) && !Covered(sc, h)
  {
    hide Step, Enabled, Blank, Line, Prepared, Quiet, Covered;
    var run := LineRun(n, h);
    sc := Scenario(Line(n), Blank(n, h), 0, X, 0, run, {X});
    LineConnected(n, n - 1);
    FarNode(n);
    assert Connected(Line(n), 0, n - 1);
    PreparedSends(sc, h);
    if Covered(sc, h) {
      CoveredFarEnd(sc, h, n - 1);
      FarEndSilent(n, h, run);
    }
  }

  lemma FarNode(n: nat)
    requires n >= 1
    ensures n - 1 in Line(n)
  {
  }

  /** In all networks of n nodes with ttls of at least H, every quiet reliable run covers, iff H >= n - 1. */
  lemma CoverageIff(n: nat, h: int)
    requires 1 <= h < 256
    ensures (forall sc: Scenario :: |sc.g.Keys| == n && Prepared(sc, h) && Quiet(sc, h) ==> Covered(sc, h))
       <==> h >= n - 1
  {
    hide Prepared, Quiet, Covered;
    if h >= n - 1 {
      forall sc: Scenario | |sc.g.Keys| == n && Prepared(sc, h) && Quiet(sc, h) ensures Covered(sc, h) {
        LongCovers(sc, h);
      }
    } else {
      var sc := FarEndMissed(n, h);
    }
  }

  // ---- termination needs ttls of at least 1 ----

  /** No run without a send, over at most `d` neighbours at a time, has more than `bound` events. */
  ghost predicate Ends(net: Net, d: nat, bound: nat) {
    forall run :: Feasible(net, run) && (forall ev :: ev in run ==> AfterLastSend(ev, d)) ==> |run| <= bound
  }

  ghost predicate HasBound(net: Net, d: nat) {
    exists bound: nat :: Ends(net, d, bound)
  }

  ghost predicate CommonTtl(net: Net, t: int) {
    forall n :: n in net.nodes ==> net.nodes[n].ttl == t
  }

  function After(i: Node): Node {
    (i + 1) % 3
  }

  /** The hop count with which nodes of ttl t relay whatever they relay, if t is not positive. */
  function RelayedHop(t: int): nat {
    (t - 1) % 256
  }

  /** Three nodes that forget at once, and a copy on its way from one to the next. */
  ghost predicate Circling(net: Net, i: Node, t: int) {
    && i < 3 && net.nodes.Keys == {0, 1, 2}
    && (forall n :: n in net.nodes ==> net.nodes[n].ttl == t && net.nodes[n].cap == 0 && net.nodes[n].seen == [])
    && net.pending == [] && net.air == [Copy(i, After(i), Frame(X, RelayedHop(t)))]
  }

  lemma OneOn(net: Net, i: Node, t: int)
    requires Circling(net, i, t) && !Damped(t)
    ensures var j := After(i);
            && Enabled(net, Deliver(0))
            && Enabled(Step(net, Deliver(0)), Fire(0, [After(j)]))
            && Circling(Step(Step(net, Deliver(0)), Fire(0, [After(j)])), j, t)
  {
    var j, c := After(i), net.air[0];
    var st := net.nodes[j];
    assert X !in st.seen && LastN(st.seen + [X], 0) == [];
    var d := Deferred(Some(i), Frame(X, t - 1));
    assert Receive(st, i, c.frame).1 == [d] && Receive(st, i, c.frame).0.seen == [];
    assert Queued(j, [d]) == [Relay(j, d)];
    assert RemoveAt(net.air, 0) == [];
    var mid := Step(net, Deliver(0));
    assert mid.pending == [Relay(j, d)] && mid.air == [];
    assert After(j) != i;
    assert Targets(d, [After(j)]) == [After(j)] by {
      assert [After(j)][1..] == [];
    }
    assert OnAir(Relay(j, d), [After(j)]) == [Copy(j, After(j), Frame(X, RelayedHop(t)))];
    assert RemoveAt(mid.pending, 0) == [];
  }

  lemma {:induction false} RoundAndRound(net: Net, i: Node, t: int, k: nat) returns (run: seq<Event>)
    requires Circling(net, i, t) && !Damped(t)
    ensures Feasible(net, run) && |run| == 2 * k && forall ev :: ev in run ==> AfterLastSend(ev, 1)
    decreases k
  {
    run := [];
    if k > 0 {
      hide Circling, Step, Enabled, Damped;
      OneOn(net, i, t);
      var e, f := Deliver(0), Fire(0, [After(After(i))]);
      var rest := RoundAndRound(Step(Step(net, e), f), After(i), t, k - 1);
      assert Feasible(Step(net, e), [f] + rest) by {
        assert ([f] + rest)[0] == f && ([f] + rest)[1..] == rest;
      }
      run := [e] + ([f] + rest);
      assert run[0] == e && run[1..] == [f] + rest;
    }
  }

  function Triangle(t: int): Net {
    var idle := NodeState(t, 0, [], []);
    Net(map[0 := idle, 1 := idle, 2 := idle], [], [Copy(0, 1, Frame(X, RelayedHop(t)))])
  }

  lemma TriangleCircles(t: int)
    ensures Circling(Triangle(t), 0, t) && CommonTtl(Triangle(t), t)
  {
  }

  /**
    In all networks of nodes with the same ttl t, whatever is under way, the runs without a send have a bound iff t
    is at least 1, or t - 1 is 0 or 1 modulo 256. At every other t, 0 among them, a copy can circle for ever among
    nodes whose seen-sets forget it: a relay takes it back to the hop count it came with.
  */
  lemma TerminationIff(t: int)
    ensures (forall net: Net, d: nat :: CommonTtl(net, t) ==> HasBound(net, d)) <==> t >= 1 || (t - 1) % 256 <= 1
  {
    hide Potential, CommonTtl, Circling, Triangle, Ends;
    if Damped(t) {
      forall net: Net, d: nat | CommonTtl(net, t) ensures HasBound(net, d) {
        CommonBound(net, t, d);
      }
    } else {
      TriangleCircles(t);
      forall bound: nat ensures !Ends(Triangle(t), 1, bound) {
        var run := RoundAndRound(Triangle(t), 0, t, bound + 1);
        TooLong(Triangle(t), run, 1, bound);
      }
      assert !HasBound(Triangle(t), 1);
    }
  }

  lemma TooLong(net: Net, run: seq<Event>, d: nat, bound: nat)
    requires Feasible(net, run) && (forall ev :: ev in run ==> AfterLastSend(ev, d)) && |run| > bound
    ensures !Ends(net, d, bound)
  {
    hide Feasible, AfterLastSend;
  }

  lemma CommonBound(net: Net, t: int, d: nat)
    requires CommonTtl(net, t) && Damped(t)
    ensures Ends(net, d, Potential(net, d))
  {
    hide Potential, Damped;
    forall run | Feasible(net, run) && (forall ev :: ev in run ==> AfterLastSend(ev, d))
      ensures |run| <= Potential(net, d)
    {
      FloodTerminates(net, run, d);
    }
  }
}
