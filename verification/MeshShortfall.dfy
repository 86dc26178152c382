/**
  When is being within the origin hop count enough to be reached? Always for direct neighbours, and always when
  the hop count is at least n - 1 (`MeshCoverage`). In between a node may hear a frame first over a longer way
  round and then drop the direct copy as a duplicate: on a ring of H + 1 nodes with one more node hanging off the
  origin's neighbour, that node at distance 2 may get nothing.
*/
module MeshShortfall {
  import opened Prelude
  import opened BoundedDedup
  import opened BleFrame
  import opened BleMesh
  import opened MeshNetwork
  import opened MeshDistance
  import opened MeshCoverage

  /** A frame `x` sent from `o` in network `net` over graph `g`, and what happens until its traffic is gone. */
  datatype Scenario = Scenario(
    g: Graph, net: Net, o: Node, x: FrameId, spread: int, run: seq<Event>, ids: set<FrameId>)

  function SendOf(sc: Scenario, h: int): Event {
    Send(sc.o, Frame(sc.x, h), sc.spread)
  }

  /** The network is ready for a frame with hop count `h`. */
  ghost predicate Prepared(sc: Scenario, h: int) {
    && Symmetric(sc.g) && sc.net.nodes.Keys == sc.g.Keys && sc.o in sc.g
    && (forall n :: n in sc.net.nodes ==> sc.net.nodes[n].ttl >= h)
    && Roomy(sc.net, sc.ids) && sc.x in sc.ids && Unknown(sc.net, sc.x)
    && Enabled(sc.net, SendOf(sc, h))
  }

  /** The run is reliable and ends with no trace of the frame left on its way. */
  ghost predicate Quiet(sc: Scenario, h: int)
    requires Prepared(sc, h)
  {
    var sent := Step(sc.net, SendOf(sc, h));
    Feasible(sent, sc.run) && RunReliable(sc.g, sent, sc.run, sc.x, sc.ids) && NoTraffic(Run(sent, sc.run), sc.x)
  }

  /** Every node within distance `h` of the origin, itself excepted, has delivered the frame exactly once. */
  ghost predicate AllReached(sc: Scenario, h: int)
    requires Prepared(sc, h) && Quiet(sc, h)
  {
    var end := Run(Step(sc.net, SendOf(sc, h)), sc.run);
    forall d :: d in sc.g && d != sc.o && Within(sc.g, sc.o, d, h) ==>
      d in end.nodes && multiset(end.nodes[d].delivered)[sc.x] == 1
  }

  /** In every network of `n` nodes, distance within `h` is enough. */
  ghost predicate DistanceSuffices(n: nat, h: int) {
    forall sc: Scenario :: |sc.g.Keys| == n && Prepared(sc, h) && Quiet(sc, h) ==> AllReached(sc, h)
  }

  // ---- long hop counts ----

  lemma LongReaches(sc: Scenario, h: int)
    requires Prepared(sc, h) && Quiet(sc, h) && |sc.g.Keys| - 1 <= h < 256
    ensures AllReached(sc, h)
  {
    var fl := Flood(sc.g, sc.o, h, sc.x);
    forall d | d in sc.g && d != sc.o && Within(sc.g, sc.o, d, h)
      ensures var end := Run(Step(sc.net, SendOf(sc, h)), sc.run);
              d in end.nodes && multiset(end.nodes[d].delivered)[sc.x] == 1
    {
      FloodCovers(fl, sc.net, sc.spread, sc.run, sc.ids, d);
      assert Connected(sc.g, sc.o, d) by {
        var k: nat := h;
        assert Within(sc.g, sc.o, d, k);
      }
    }
  }

  // ---- direct neighbours ----

  function OriginRelay(o: Node, x: FrameId, h: int): Relay {
    Relay(o, Deferred(None, Frame(x, h)))
  }

  ghost predicate HasSeen(net: Net, x: FrameId, p: Node) {
    p in net.nodes && x in net.nodes[p].seen
  }

  ghost predicate DeliveredOnce(net: Net, o: Node, x: FrameId) {
    forall n :: n in net.nodes ==>
      multiset(net.nodes[n].delivered)[x] == if x in net.nodes[n].seen && n != o then 1 else 0
  }

  /** The origin's broadcast is due, or a copy is on its way to every neighbour that has not seen the frame. */
  ghost predicate Told(g: Graph, net: Net, o: Node, x: FrameId, h: int)
    requires o in g
  {
    || OriginRelay(o, x, h) in net.pending
    || forall p :: p in g[o] ==> HasSeen(net, x, p) || CopyDue(net, x, p)
  }

  ghost predicate Telling(g: Graph, net: Net, o: Node, x: FrameId, h: int) {
    && o in g && net.nodes.Keys == g.Keys && HasSeen(net, x, o)
    && DeliveredOnce(net, o, x) && Told(g, net, o, x, h)
  }

  lemma FireTells(g: Graph, net: Net, k: nat, o: Node, x: FrameId, h: int)
    requires Telling(g, net, o, x, h) && k < |net.pending| && net.pending[k].at in g
    ensures Telling(g, Step(net, Fire(k, g[net.pending[k].at])), o, x, h)
  {
    var r := net.pending[k];
    var net' := Step(net, Fire(k, g[r.at]));
    forall p | CopyDue(net, x, p) ensures CopyDue(net', x, p) {
      var c :| c in net.air && c.to == p && c.frame.id == x;
      assert c in net'.air;
    }
    if r == OriginRelay(o, x, h) {
      OnAirTargets(r, Targets(r.what, g[o]));
      forall p | p in g[o] ensures CopyDue(net', x, p) {
        var c :| c in OnAir(r, Targets(r.what, g[o])) && c.to == p;
        assert c in net'.air;
      }
    }
  }

  /** A node that receives or sends keeps what it has seen, and delivers `x` at most when it first sees it. */
  lemma DeliverSees(net: Net, k: nat, o: Node, x: FrameId, ids: set<FrameId>)
    requires k < |net.air| && Roomy(net, ids) && DeliveredOnce(net, o, x) && HasSeen(net, x, o)
    ensures var net' := Step(net, Deliver(k));
            && DeliveredOnce(net', o, x)
            && (forall p :: HasSeen(net, x, p) ==> HasSeen(net', x, p))
            && (net.air[k].frame.id == x && net.air[k].to in net.nodes ==> HasSeen(net', x, net.air[k].to))
  {
    var c := net.air[k];
    RoomyAt(net, k, ids);
    hide Receive, Roomy, DeliveredOnce, RoomyNode;
    if c.to in net.nodes {
      ReceiveCounts(net.nodes[c.to], c.from, c.frame, x, ids);
      OnceAt(net, c.to, o, x);
      NodeSees(net, Step(net, Deliver(k)), c.to, o, x);
    } else {
      SameNodesSee(net, Step(net, Deliver(k)), o, x);
    }
  }

  lemma OnceAt(net: Net, at: Node, o: Node, x: FrameId)
    requires DeliveredOnce(net, o, x) && at in net.nodes
    ensures multiset(net.nodes[at].delivered)[x] == if x in net.nodes[at].seen && at != o then 1 else 0
  {
  }

  /** Only the node `at` has changed, and it still fits. */
  lemma NodeSees(net: Net, net': Net, at: Node, o: Node, x: FrameId)
    requires DeliveredOnce(net, o, x) && at in net.nodes && at in net'.nodes
    requires net'.nodes == net.nodes[at := net'.nodes[at]]
    requires HasSeen(net, x, at) ==> HasSeen(net', x, at)
    requires multiset(net'.nodes[at].delivered)[x] == if x in net'.nodes[at].seen && at != o then 1 else 0
    ensures DeliveredOnce(net', o, x)
    ensures forall p :: HasSeen(net, x, p) ==> HasSeen(net', x, p)
  {
  }

  lemma SameNodesSee(net: Net, net': Net, o: Node, x: FrameId)
    requires DeliveredOnce(net, o, x) && net'.nodes == net.nodes
    ensures DeliveredOnce(net', o, x)
    ensures forall p :: HasSeen(net, x, p) ==> HasSeen(net', x, p)
  {
  }

  lemma RoomyAt(net: Net, k: nat, ids: set<FrameId>)
    requires k < |net.air| && Roomy(net, ids)
    ensures net.air[k].frame.id in ids
    ensures net.air[k].to in net.nodes ==> RoomyNode(net.nodes[net.air[k].to], ids)
  {
    assert net.air[k] in net.air;
  }

  ghost predicate RoomyNode(st: NodeState, ids: set<FrameId>) {
    |ids| <= st.cap && NoDup(st.seen) && forall i :: i in st.seen ==> i in ids
  }

  /** Receiving remembers the frame, and delivers it if it is new. */
  lemma ReceiveCounts(st: NodeState, from: Node, f: Frame, x: FrameId, ids: set<FrameId>)
    requires RoomyNode(st, ids) && f.id in ids
    ensures var st' := Receive(st, from, f).0;
            && (forall i :: i in st'.seen <==> i in st.seen || i == f.id)
            && multiset(st'.delivered)[x] ==
               multiset(st.delivered)[x] + if f.id == x && x !in st.seen then 1 else 0
  {
    RememberAppends(st, f.id, ids);
  }

  lemma DeliverTells(g: Graph, net: Net, k: nat, o: Node, x: FrameId, h: int, ids: set<FrameId>)
    requires Telling(g, net, o, x, h) && k < |net.air| && Roomy(net, ids) && Symmetric(g)
    ensures Telling(g, Step(net, Deliver(k)), o, x, h)
  {
    DeliverSees(net, k, o, x, ids);
    var net' := Step(net, Deliver(k));
    if OriginRelay(o, x, h) in net.pending {
      assert OriginRelay(o, x, h) in net'.pending;
    } else {
      forall p | p in g[o] ensures HasSeen(net', x, p) || CopyDue(net', x, p) {
        if CopyDue(net, x, p) {
          var c :| c in net.air && c.to == p && c.frame.id == x;
          assert c in net'.air || c == net.air[k];
        }
      }
    }
  }

  lemma SendSees(net: Net, ev: Event, o: Node, x: FrameId, ids: set<FrameId>)
    requires ev.Send? && Enabled(net, ev) && ev.frame.id != x && ev.frame.id in ids
    requires Roomy(net, ids) && DeliveredOnce(net, o, x)
    ensures DeliveredOnce(Step(net, ev), o, x)
    ensures forall p :: HasSeen(net, x, p) ==> HasSeen(Step(net, ev), x, p)
  {
    RememberAppends(net.nodes[ev.at], ev.frame.id, ids);
  }

  lemma SendTells(g: Graph, net: Net, ev: Event, o: Node, x: FrameId, h: int, ids: set<FrameId>)
    requires Telling(g, net, o, x, h) && ev.Send? && Enabled(net, ev) && ev.frame.id != x && ev.frame.id in ids
    requires Roomy(net, ids)
    ensures Telling(g, Step(net, ev), o, x, h)
  {
    SendSees(net, ev, o, x, ids);
    var net' := Step(net, ev);
    hide Originate, Roomy, DeliveredOnce, HasSeen;
    if OriginRelay(o, x, h) in net.pending {
      assert OriginRelay(o, x, h) in net'.pending;
    } else {
      forall p | p in g[o] ensures HasSeen(net', x, p) || CopyDue(net', x, p) {
        assert CopyDue(net, x, p) ==> CopyDue(net', x, p);
      }
    }
  }

  lemma {:induction false} RunTells(g: Graph, net: Net, run: seq<Event>, o: Node, x: FrameId, h: int, ids: set<FrameId>)
    requires Telling(g, net, o, x, h) && Roomy(net, ids) && Symmetric(g)
    requires Feasible(net, run) && RunReliable(g, net, run, x, ids)
    ensures Telling(g, Run(net, run), o, x, h)
    decreases |run|
  {
    hide Telling, Roomy, Symmetric;
    if run != [] {
      var ev := run[0];
      StepRoomy(net, ev, ids);
      if ev.Fire? {
        FireTells(g, net, ev.k, o, x, h);
      } else if ev.Send? {
        SendTells(g, net, ev, o, x, h, ids);
      } else {
        DeliverTells(g, net, ev.k, o, x, h, ids);
      }
      RunTells(g, Step(net, ev), run[1..], o, x, h, ids);
    }
  }

  lemma SendTelling(sc: Scenario, h: int)
    requires Prepared(sc, h)
    ensures Telling(sc.g, Step(sc.net, SendOf(sc, h)), sc.o, sc.x, h)
    ensures Roomy(Step(sc.net, SendOf(sc, h)), sc.ids)
  {
    SendQueues(sc, h);
    SendIsSeen(sc, h);
    hide Step, Roomy, Unknown, Symmetric, Enabled, DeliveredOnce, HasSeen;
    StepRoomy(sc.net, SendOf(sc, h), sc.ids);
    StepKeepsTtl(sc.net, SendOf(sc, h));
  }

  lemma SendQueues(sc: Scenario, h: int)
    requires Prepared(sc, h)
    ensures OriginRelay(sc.o, sc.x, h) in Step(sc.net, SendOf(sc, h)).pending
  {
    hide Roomy, Symmetric;
    var r := OriginRelay(sc.o, sc.x, h);
    assert Queued(sc.o, [r.what]) == [r];
    var pending := Step(sc.net, SendOf(sc, h)).pending;
    assert pending == sc.net.pending + [r];
    assert pending[|pending| - 1] == r;
  }

  lemma SendIsSeen(sc: Scenario, h: int)
    requires Prepared(sc, h)
    ensures var net' := Step(sc.net, SendOf(sc, h)); DeliveredOnce(net', sc.o, sc.x) && HasSeen(net', sc.x, sc.o)
  {
    hide Symmetric;
    RememberAppends(sc.net.nodes[sc.o], sc.x, sc.ids);
  }

  lemma OneStepAway(g: Graph, o: Node, d: Node)
    requires Within(g, o, d, 1) && d != o
    ensures o in g && d in g[o]
  {
    var m :| m in g && d in g[m] && Within(g, o, m, 0);
    assert m == o;
  }

  /** Every direct neighbour is reached, whatever the hop count. */
  lemma NeighboursReached(sc: Scenario, h: int, d: Node)
    requires Prepared(sc, h) && Quiet(sc, h) && d in sc.g[sc.o] && d != sc.o
    ensures var end := Run(Step(sc.net, SendOf(sc, h)), sc.run);
            d in end.nodes && multiset(end.nodes[d].delivered)[sc.x] == 1
  {
    SendTelling(sc, h);
    var sent := Step(sc.net, SendOf(sc, h));
    RunTells(sc.g, sent, sc.run, sc.o, sc.x, h, sc.ids);
    QuietTold(sc.g, Run(sent, sc.run), sc.o, sc.x, h, d);
  }

  lemma QuietTold(g: Graph, net: Net, o: Node, x: FrameId, h: int, d: Node)
    requires Telling(g, net, o, x, h) && NoTraffic(net, x) && d in g[o] && d != o
    ensures d in net.nodes && multiset(net.nodes[d].delivered)[x] == 1
  {
  }

  lemma ShortReaches(sc: Scenario)
    requires Prepared(sc, 1) && Quiet(sc, 1)
    ensures AllReached(sc, 1)
  {
    forall d | d in sc.g && d != sc.o && Within(sc.g, sc.o, d, 1)
      ensures var end := Run(Step(sc.net, SendOf(sc, 1)), sc.run);
              d in end.nodes && multiset(end.nodes[d].delivered)[sc.x] == 1
    {
      OneStepAway(sc.g, sc.o, d);
      NeighboursReached(sc, 1, d);
    }
  }

  // ---- the ring ----

  const X: FrameId := FrameId([47], [1])

  /** Nodes 0 to h form a ring, node h + 1 hangs off node h, the others are on their own. */
  function Beside(i: nat, h: nat): seq<Node> {
    if i == 0 then [h, 1]
    else if i < h then [i - 1, i + 1]
    else if i == h then [h - 1, 0, h + 1]
    else if i == h + 1 then [h]
    else []
  }

  /** Nodes 0 to n - 1. */
  function First(n: nat): (r: set<Node>)
    ensures forall i :: i in r <==> 0 <= i < n
    ensures |r| == n
  {
    if n == 0 then {} else First(n - 1) + {n - 1}
  }

  function Ring(n: nat, h: nat): Graph {
    map i | i in First(n) :: Beside(i, h)
  }

  function Idle(h: nat): NodeState {
    NodeState(h, 4096, [], [])
  }

  function Heard(h: nat): NodeState {
    NodeState(h, 4096, [X], [X])
  }

  function Sender(h: nat): NodeState {
    NodeState(h, 4096, [X], [])
  }

  /** Node 0 has sent the frame, nodes 1 to i - 1 have heard it. */
  function NodesAt(n: nat, h: nat, i: nat): map<Node, NodeState> {
    map j | j in First(n) :: if j == 0 then Sender(h) else if j < i then Heard(h) else Idle(h)
  }

  function Blank(n: nat, h: nat): Net {
    Net(map j | j in First(n) :: Idle(h), [], [])
  }

  function Direct(h: nat): Copy {
    Copy(0, h, Frame(X, h))
  }

  /** The frame has come round as far as node i; the direct copy to node h is still under way. */
  function Stage(n: nat, h: nat, i: nat): Net
    requires i >= 1
  {
    Net(NodesAt(n, h, i), [], [Direct(h), Copy(i - 1, i, Frame(X, h - i + 1))])
  }

  function Last(n: nat, h: nat): Net {
    Net(NodesAt(n, h, h + 1), [], [])
  }

  function RelayAt(i: nat, h: nat): Relay
    requires 1 <= i
  {
    Relay(i, Deferred(Some(i - 1), Frame(X, h - i)))
  }

  lemma HearNew(h: nat, hop: int, from: Node)
    ensures Receive(Idle(h), from, Frame(X, hop)) ==
            (Heard(h), if hop > 1 then [Deferred(Some(from), Frame(X, Min(hop, h) - 1))] else [])
  {
    assert X !in Idle(h).seen && LastN([] + [X], 4096) == [X];
  }

  lemma Arrives(n: nat, h: nat, i: nat)
    requires 1 <= i <= h < n
    ensures NodesAt(n, h, i)[i := Heard(h)] == NodesAt(n, h, i + 1)
  {
  }

  lemma SendStep(n: nat, h: nat)
    requires 1 <= h < n
    ensures var ev := Send(0, Frame(X, h), 0);
            && Enabled(Blank(n, h), ev)
            && Step(Blank(n, h), ev) == Net(NodesAt(n, h, 1), [OriginRelay(0, X, h)], [])
  {
    assert X !in Idle(h).seen && LastN([] + [X], 4096) == [X];
    assert Originate(Idle(h), Frame(X, h)) == (Sender(h), [Deferred(None, Frame(X, h))]);
    assert Queued(0, [Deferred(None, Frame(X, h))]) == [OriginRelay(0, X, h)];
    assert Blank(n, h).nodes[0 := Sender(h)] == NodesAt(n, h, 1);
  }

  lemma TwoTargets(d: Deferred, p: Node, q: Node)
    ensures Targets(d, [p, q]) ==
            (if d.except == Some(p) then [] else [p]) + (if d.except == Some(q) then [] else [q])
  {
    assert [p, q][1..] == [q] && [q][1..] == [];
  }

  lemma FireOne(net: Net, r: Relay, p: Node, q: Node)
    requires net.pending == [r]
    ensures Enabled(net, Fire(0, [p, q]))
    ensures Step(net, Fire(0, [p, q])) == Net(net.nodes, [], net.air + OnAir(r, Targets(r.what, [p, q])))
  {
  }

  lemma FireOrigin(n: nat, h: nat)
    requires 2 <= h < 256 && h < n
    ensures var net := Net(NodesAt(n, h, 1), [OriginRelay(0, X, h)], []);
            Enabled(net, Fire(0, [h, 1])) && Step(net, Fire(0, [h, 1])) == Stage(n, h, 1)
  {
    hide NodesAt;
    var r := OriginRelay(0, X, h);
    var net := Net(NodesAt(n, h, 1), [r], []);
    FireOne(net, r, h, 1);
    TwoTargets(r.what, h, 1);
    assert Targets(r.what, [h, 1]) == [h, 1];
    assert net.air + OnAir(r, [h, 1]) == Stage(n, h, 1).air;
  }

  lemma HopStep(n: nat, h: nat, i: nat)
    requires 1 <= i < h < n
    ensures Enabled(Stage(n, h, i), Deliver(1))
    ensures Step(Stage(n, h, i), Deliver(1)) == Net(NodesAt(n, h, i + 1), [RelayAt(i, h)], [Direct(h)])
  {
    HearNew(h, h - i + 1, i - 1);
    Arrives(n, h, i);
    assert NodesAt(n, h, i)[i] == Idle(h);
    hide NodesAt;
    assert Queued(i, [RelayAt(i, h).what]) == [RelayAt(i, h)];
    assert RemoveAt(Stage(n, h, i).air, 1) == [Direct(h)];
  }

  lemma RelayStep(n: nat, h: nat, i: nat)
    requires 1 <= i < h < 256 && h < n
    ensures var net := Net(NodesAt(n, h, i + 1), [RelayAt(i, h)], [Direct(h)]);
            Enabled(net, Fire(0, [i - 1, i + 1])) && Step(net, Fire(0, [i - 1, i + 1])) == Stage(n, h, i + 1)
  {
    hide NodesAt, Targets;
    var r := RelayAt(i, h);
    var net := Net(NodesAt(n, h, i + 1), [r], [Direct(h)]);
    FireOne(net, r, i - 1, i + 1);
    TwoTargets(r.what, i - 1, i + 1);
    assert Targets(r.what, [i - 1, i + 1]) == [i + 1];
    assert OnAir(r, [i + 1]) == [Copy(i, i + 1, Frame(X, h - i))];
    assert net.air + OnAir(r, [i + 1]) == Stage(n, h, i + 1).air;
  }

  /** The frame has come all the way round, with no hop left to go on. */
  lemma LastHop(n: nat, h: nat)
    requires 1 <= h < n
    ensures Enabled(Stage(n, h, h), Deliver(1))
    ensures Step(Stage(n, h, h), Deliver(1)) == Net(NodesAt(n, h, h + 1), [], [Direct(h)])
  {
    HearNew(h, 1, h - 1);
    Arrives(n, h, h);
    assert NodesAt(n, h, h)[h] == Idle(h);
    hide NodesAt, Receive;
    assert Queued(h, []) == [];
    assert RemoveAt(Stage(n, h, h).air, 1) == [Direct(h)];
  }

  /** The direct copy comes too late. */
  lemma LateCopy(n: nat, h: nat)
    requires 1 <= h < n
    ensures Enabled(Net(NodesAt(n, h, h + 1), [], [Direct(h)]), Deliver(0))
    ensures Step(Net(NodesAt(n, h, h + 1), [], [Direct(h)]), Deliver(0)) == Last(n, h)
  {
    HearAgain(h, 0, h);
    assert NodesAt(n, h, h + 1)[h] == Heard(h);
    assert NodesAt(n, h, h + 1)[h := Heard(h)] == NodesAt(n, h, h + 1);
    hide NodesAt, Receive;
    assert Queued(h, []) == [];
    assert RemoveAt([Direct(h)], 0) == [];
  }

  lemma HearAgain(h: nat, from: Node, hop: int)
    ensures Receive(Heard(h), from, Frame(X, hop)) == (Heard(h), [])
  {
    assert X in Heard(h).seen;
  }

  /** The events of the long way round, from stage i on. */
  function Detour(h: nat, i: nat): seq<Event>
    requires 1 <= i <= h
    decreases h - i
  {
    if i == h then [Deliver(1), Deliver(0)] else [Deliver(1), Fire(0, [i - 1, i + 1])] + Detour(h, i + 1)
  }

  ghost predicate Ends(g: Graph, net: Net, run: seq<Event>, end: Net) {
    Feasible(net, run) && Run(net, run) == end && RunReliable(g, net, run, X, {X})
  }

  lemma OneMore(g: Graph, net: Net, ev: Event, run: seq<Event>, end: Net)
    requires Enabled(net, ev) && Reliable(g, net, ev, X, {X}) && Ends(g, Step(net, ev), run, end)
    ensures Ends(g, net, [ev] + run, end)
  {
    hide Step, Enabled, Reliable;
    assert ([ev] + run)[0] == ev && ([ev] + run)[1..] == run;
  }

  lemma NoMore(g: Graph, net: Net)
    ensures Ends(g, net, [], net)
  {
  }

  lemma DeliverReliable(g: Graph, net: Net, k: nat)
    requires Enabled(net, Deliver(k))
    ensures Reliable(g, net, Deliver(k), X, {X})
  {
  }

  lemma {:induction false} DetourEnds(n: nat, h: nat, i: nat)
    requires 1 <= i <= h < 256 && h < n
    ensures Ends(Ring(n, h), Stage(n, h, i), Detour(h, i), Last(n, h))
    decreases h - i
  {
    hide Step, Enabled, Reliable, Ends, Stage, NodesAt, Last, Ring;
    var g := Ring(n, h);
    DeliverReliable1(n, h, i);
    if i == h {
      LastHop(n, h);
      LateCopy(n, h);
      NoMore(g, Last(n, h));
      var late := Net(NodesAt(n, h, h + 1), [], [Direct(h)]);
      DeliverReliable(g, late, 0);
      OneMore(g, late, Deliver(0), [], Last(n, h));
      OneMore(g, Stage(n, h, h), Deliver(1), [Deliver(0)] + [], Last(n, h));
      assert [Deliver(1)] + ([Deliver(0)] + []) == Detour(h, h);
    } else {
      var relay, fire := Net(NodesAt(n, h, i + 1), [RelayAt(i, h)], [Direct(h)]), Fire(0, [i - 1, i + 1]);
      HopStep(n, h, i);
      RelayStep(n, h, i);
      DetourEnds(n, h, i + 1);
      RelayReliable(n, h, i);
      OneMore(g, relay, fire, Detour(h, i + 1), Last(n, h));
      OneMore(g, Stage(n, h, i), Deliver(1), [fire] + Detour(h, i + 1), Last(n, h));
      assert [Deliver(1)] + ([fire] + Detour(h, i + 1)) == Detour(h, i);
    }
  }

  lemma DeliverReliable1(n: nat, h: nat, i: nat)
    requires 1 <= i <= h < n
    ensures Enabled(Stage(n, h, i), Deliver(1)) && Reliable(Ring(n, h), Stage(n, h, i), Deliver(1), X, {X})
  {
  }

  lemma RelayReliable(n: nat, h: nat, i: nat)
    requires 1 <= i < h < n
    ensures var net := Net(NodesAt(n, h, i + 1), [RelayAt(i, h)], [Direct(h)]);
            && Enabled(net, Fire(0, [i - 1, i + 1]))
            && Reliable(Ring(n, h), net, Fire(0, [i - 1, i + 1]), X, {X})
  {
    hide NodesAt;
  }

  /** The whole scenario. */
  function RingScenario(n: nat, h: nat): Scenario
    requires h >= 1
  {
    Scenario(Ring(n, h), Blank(n, h), 0, X, 0, [Fire(0, [h, 1])] + Detour(h, 1), {X})
  }

  lemma RingSymmetric(n: nat, h: nat)
    requires 2 <= h && h + 2 <= n
    ensures Symmetric(Ring(n, h))
  {
    var g := Ring(n, h);
    forall i, m | i in g && m in g[i] ensures m in g && i in g[m] {
      assert g[i] == Beside(i, h);
    }
  }

  lemma RingRoomy(n: nat, h: nat)
    requires 1 <= h < n
    ensures Roomy(Blank(n, h), {X}) && Unknown(Blank(n, h), X)
    ensures Blank(n, h).nodes.Keys == First(n) == Ring(n, h).Keys && 0 in Ring(n, h)
    ensures forall j :: j in Blank(n, h).nodes ==> Blank(n, h).nodes[j].ttl == h
  {
    hide Beside, First;
  }

  lemma RingPrepared(n: nat, h: nat)
    requires 2 <= h < 256 && h + 2 <= n
    ensures Prepared(RingScenario(n, h), h) && |RingScenario(n, h).g.Keys| == n
  {
    hide First, Ring, Symmetric, Roomy, Unknown, Enabled, Blank, Detour;
    RingSymmetric(n, h);
    SendStep(n, h);
    RingRoomy(n, h);
  }

  lemma RingQuiet(n: nat, h: nat)
    requires 2 <= h < 256 && h + 2 <= n
    requires Prepared(RingScenario(n, h), h)
    ensures Quiet(RingScenario(n, h), h)
    ensures Run(Step(Blank(n, h), SendOf(RingScenario(n, h), h)), RingScenario(n, h).run) == Last(n, h)
  {
    hide Step, Enabled, Reliable, Stage, NodesAt, Ring, Prepared, Blank, Detour;
    SendStep(n, h);
    FireOrigin(n, h);
    DetourEnds(n, h, 1);
    OriginReliable(n, h);
    OneMore(Ring(n, h), Net(NodesAt(n, h, 1), [OriginRelay(0, X, h)], []), Fire(0, [h, 1]), Detour(h, 1), Last(n, h));
  }

  lemma OriginReliable(n: nat, h: nat)
    requires 1 <= h < n
    ensures var net := Net(NodesAt(n, h, 1), [OriginRelay(0, X, h)], []);
            Enabled(net, Fire(0, [h, 1])) && Reliable(Ring(n, h), net, Fire(0, [h, 1]), X, {X})
  {
    hide NodesAt;
  }

  lemma TwoAway(n: nat, h: nat)
    requires 2 <= h && h + 2 <= n
    ensures Within(Ring(n, h), 0, h + 1, h)
  {
    hide Ring, Within;
    var g := Ring(n, h);
    RingEdges(n, h);
    WithinItself(g, 0);
    OneFarther(g, 0, 0, h, 1);
    OneFarther(g, 0, h, h + 1, 2);
    WithinMono(g, 0, h + 1, 2, h);
  }

  lemma RingEdges(n: nat, h: nat)
    requires 2 <= h && h + 2 <= n
    ensures 0 in Ring(n, h) && h in Ring(n, h)[0] && h in Ring(n, h) && h + 1 in Ring(n, h)[h]
  {
    hide First;
  }

  lemma WithinItself(g: Graph, o: Node)
    ensures Within(g, o, o, 0)
  {
  }

  lemma OneFarther(g: Graph, o: Node, m: Node, n: Node, k: int)
    requires k >= 1 && Within(g, o, m, k - 1) && m in g && n in g[m]
    ensures Within(g, o, n, k)
  {
  }

  /** For every hop count from 2 to n - 2 there is a network of n nodes and a run that misses a node in reach. */
  lemma WithinHopCountIsNotEnough(n: nat, h: nat)
    requires 2 <= h < 256 && h + 2 <= n
    ensures var sc := RingScenario(n, h);
            |sc.g.Keys| == n && Prepared(sc, h) && Quiet(sc, h) && !AllReached(sc, h)
  {
    hide Prepared, Quiet;
    RingPrepared(n, h);
    RingQuiet(n, h);
    TwoAway(n, h);
    MissedNode(n, h);
  }

  lemma MissedNode(n: nat, h: nat)
    requires 2 <= h && h + 2 <= n
    ensures h + 1 in Ring(n, h) && h + 1 in Last(n, h).nodes && Last(n, h).nodes[h + 1].delivered == []
  {
    hide First, Beside;
    assert NodesAt(n, h, h + 1)[h + 1] == Idle(h);
  }

  /**
    The exact condition: in all networks of n nodes with ttls of at least H, every node within distance H of
    the origin is reached in every reliable run that dies down, iff H is 1 or at least n - 1.
  */
  lemma DistanceSufficesIff(n: nat, h: int)
    requires 1 <= h < 256
    ensures DistanceSuffices(n, h) <==> h <= 1 || h >= n - 1
  {
    hide Prepared, Quiet, AllReached;
    if h <= 1 || h >= n - 1 {
      forall sc: Scenario | |sc.g.Keys| == n && Prepared(sc, h) && Quiet(sc, h) ensures AllReached(sc, h) {
        if h <= 1 {
          ShortReaches(sc);
        } else {
          LongReaches(sc, h);
        }
      }
    } else {
      WithinHopCountIsNotEnough(n, h);
    }
  }
}
