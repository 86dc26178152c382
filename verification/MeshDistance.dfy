/** A frame never travels farther than the hop count it was originated with. */
module MeshDistance {
  import opened Prelude
  import opened BleFrame
  import opened BleMesh
  import opened MeshNetwork

  type Graph = map<Node, seq<Node>>

  /** `n` is at graph distance at most `k` from `o`. */
  ghost predicate Within(g: Graph, o: Node, n: Node, k: int)
    decreases k
  {
    k >= 0 && (o == n || exists m :: m in g && n in g[m] && Within(g, o, m, k - 1))
  }

  lemma {:induction false} WithinMono(g: Graph, o: Node, n: Node, k: int, l: int)
    requires k <= l && Within(g, o, n, k)
    ensures Within(g, o, n, l)
    decreases k
  {
    if o != n {
      var m :| m in g && n in g[m] && Within(g, o, m, k - 1);
      WithinMono(g, o, m, k - 1, l - 1);
    }
  }

  datatype Origin = Origin(at: Node, frame: Frame)

  ghost predicate CopyReached(g: Graph, c: Copy, o: Origin) {
    && o.frame.id == c.frame.id
    && 0 <= c.frame.hop <= o.frame.hop
    && Within(g, o.at, c.to, o.frame.hop - Max(c.frame.hop, 1) + 1)
  }

  ghost predicate RelayReached(g: Graph, r: Relay, o: Origin) {
    && o.frame.id == r.what.frame.id
    && 0 <= r.what.frame.hop <= o.frame.hop
    && Within(g, o.at, r.at, o.frame.hop - Max(r.what.frame.hop, 1))
  }

  ghost predicate DeliveryReached(g: Graph, n: Node, id: FrameId, o: Origin) {
    o.frame.id == id && Within(g, o.at, n, o.frame.hop)
  }

  /** Every copy with hop count h sits at distance at most H - h + 1 of an originator. */
  ghost predicate Bounded(g: Graph, net: Net, origins: set<Origin>) {
    && (forall o :: o in origins ==> o.frame.hop >= 1)
    && (forall c :: c in net.air ==> exists o :: o in origins && CopyReached(g, c, o))
    && (forall r :: r in net.pending ==> exists o :: o in origins && RelayReached(g, r, o))
    && (forall n, id :: n in net.nodes && id in net.nodes[n].delivered ==>
          exists o :: o in origins && DeliveryReached(g, n, id, o))
  }

  /** The radio only ever lists neighbours of the graph. */
  ghost predicate Confined(g: Graph, net: Net, ev: Event)
    requires Enabled(net, ev)
  {
    ev.Fire? ==> forall p :: p in ev.peers ==> net.pending[ev.k].at in g && p in g[net.pending[ev.k].at]
  }

  ghost predicate RunConfined(g: Graph, net: Net, run: seq<Event>)
    requires Feasible(net, run)
    decreases |run|
  {
    run != [] ==> Confined(g, net, run[0]) && RunConfined(g, Step(net, run[0]), run[1..])
  }

  ghost function Originations(ev: Event): set<Origin> {
    if ev.Send? then {Origin(ev.at, ev.frame)} else {}
  }

  ghost function AllOriginations(run: seq<Event>): set<Origin> {
    if run == [] then {} else Originations(run[0]) + AllOriginations(run[1..])
  }

  lemma FireBounded(g: Graph, net: Net, ev: Event, origins: set<Origin>, c: Copy)
    requires ev.Fire? && Enabled(net, ev) && Confined(g, net, ev) && Bounded(g, net, origins)
    requires c in OnAir(net.pending[ev.k], Targets(net.pending[ev.k].what, ev.peers))
    ensures exists o :: o in origins && CopyReached(g, c, o)
  {
    var r := net.pending[ev.k];
    assert r in net.pending;
    var o :| o in origins && RelayReached(g, r, o);
    var h := c.frame.hop;
    assert h <= r.what.frame.hop;
    WithinMono(g, o.at, r.at, o.frame.hop - Max(r.what.frame.hop, 1), o.frame.hop - Max(h, 1));
    assert CopyReached(g, c, o);
  }

  lemma ReceiveBounded(g: Graph, net: Net, c: Copy, origins: set<Origin>)
    requires Bounded(g, net, origins) && TtlAtLeastOne(net)
    requires c in net.air && c.to in net.nodes
    ensures exists o :: o in origins && DeliveryReached(g, c.to, c.frame.id, o)
    ensures forall d :: d in Receive(net.nodes[c.to], c.from, c.frame).1 ==>
              exists o :: o in origins && RelayReached(g, Relay(c.to, d), o)
  {
    var o :| o in origins && CopyReached(g, c, o);
    WithinMono(g, o.at, c.to, o.frame.hop - Max(c.frame.hop, 1) + 1, o.frame.hop);
    assert DeliveryReached(g, c.to, c.frame.id, o);
    forall d | d in Receive(net.nodes[c.to], c.from, c.frame).1
      ensures exists o :: o in origins && RelayReached(g, Relay(c.to, d), o)
    {
      WithinMono(g, o.at, c.to, o.frame.hop - Max(c.frame.hop, 1) + 1, o.frame.hop - Max(d.frame.hop, 1));
      assert RelayReached(g, Relay(c.to, d), o);
    }
  }

  lemma SendBounded(g: Graph, net: Net, ev: Event, origins: set<Origin>)
    requires ev.Send? && Enabled(net, ev) && TtlAtLeastOne(net)
    requires Bounded(g, net, origins)
    ensures Bounded(g, Step(net, ev), origins + Originations(ev))
  {
    var o := Origin(ev.at, ev.frame);
    var net' := Step(net, ev);
    forall r | r in net'.pending ensures exists o :: o in origins + Originations(ev) && RelayReached(g, r, o) {
      if r !in net.pending {
        assert r == Relay(ev.at, Deferred(None, ev.frame));
        assert RelayReached(g, r, o);
      }
    }
  }

  lemma DeliverBounded(g: Graph, net: Net, ev: Event, origins: set<Origin>)
    requires ev.Deliver? && Enabled(net, ev) && TtlAtLeastOne(net)
    requires Bounded(g, net, origins)
    ensures Bounded(g, Step(net, ev), origins)
  {
    var c := net.air[ev.k];
    var net' := Step(net, ev);
    if c.to in net.nodes {
      ReceiveBounded(g, net, c, origins);
      var ds := Receive(net.nodes[c.to], c.from, c.frame).1;
      forall r | r in net'.pending ensures exists o :: o in origins && RelayReached(g, r, o) {
        if r !in net.pending {
          assert r in Queued(c.to, ds);
        }
      }
    }
  }

  lemma StepBounded(g: Graph, net: Net, ev: Event, origins: set<Origin>)
    requires Enabled(net, ev) && Confined(g, net, ev) && TtlAtLeastOne(net)
    requires Bounded(g, net, origins)
    ensures Bounded(g, Step(net, ev), origins + Originations(ev))
  {
    if ev.Send? {
      SendBounded(g, net, ev, origins);
    } else {
      assert origins + Originations(ev) == origins;
      if ev.Deliver? {
        DeliverBounded(g, net, ev, origins);
      } else if ev.Fire? {
        forall c | c in Step(net, ev).air ensures exists o :: o in origins && CopyReached(g, c, o) {
          if c !in net.air {
            FireBounded(g, net, ev, origins, c);
          }
        }
      }
    }
  }

  lemma {:induction false} RunBounded(g: Graph, net: Net, run: seq<Event>, origins: set<Origin>)
    requires Feasible(net, run) && RunConfined(g, net, run) && TtlAtLeastOne(net)
    requires Bounded(g, net, origins)
    ensures Bounded(g, Run(net, run), origins + AllOriginations(run))
    decreases |run|
  {
    if run == [] {
      assert origins + AllOriginations(run) == origins;
    } else {
      StepBounded(g, net, run[0], origins);
      StepKeepsTtl(net, run[0]);
      RunBounded(g, Step(net, run[0]), run[1..], origins + Originations(run[0]));
      assert origins + Originations(run[0]) + AllOriginations(run[1..]) == origins + AllOriginations(run);
    }
  }

  /**
    Distance bound: whatever is lost, reordered or forgotten, a node that delivered a frame lies within
    the origin hop count H of some node that sent it with H.
  */
  lemma DeliveredWithinOriginHop(g: Graph, net: Net, run: seq<Event>, n: Node, id: FrameId)
    requires Silent(net) && TtlAtLeastOne(net)
    requires Feasible(net, run) && RunConfined(g, net, run)
    requires n in Run(net, run).nodes && id in Run(net, run).nodes[n].delivered
    ensures exists o :: o in AllOriginations(run) && o.frame.id == id && Within(g, o.at, n, o.frame.hop)
  {
    RunBounded(g, net, run, {});
    assert {} + AllOriginations(run) == AllOriginations(run);
    var o :| o in AllOriginations(run) && DeliveryReached(g, n, id, o);
    assert Within(g, o.at, n, o.frame.hop);
  }

  // ---- the ttl must be at least 1 ----

  datatype Case = Case(g: Graph, net: Net, run: seq<Event>, n: Node, id: FrameId)

  /** In a silent network of nodes with ttl `t`, a confined run has node `n` deliver `id`. */
  ghost predicate Happens(c: Case, t: int) {
    && Silent(c.net) && (forall n :: n in c.net.nodes ==> c.net.nodes[n].ttl == t)
    && Feasible(c.net, c.run) && RunConfined(c.g, c.net, c.run)
    && c.n in Run(c.net, c.run).nodes && c.id in Run(c.net, c.run).nodes[c.n].delivered
  }

  ghost predicate WithinOrigin(c: Case) {
    exists o :: o in AllOriginations(c.run) && o.frame.id == c.id && Within(c.g, o.at, c.n, o.frame.hop)
  }

  const BEACON: FrameId := FrameId([47], [1])

  /** Two neighbours; one sends a frame with hop count `t`, and the other hears it. */
  function Neighbours(t: int): Case {
    var idle := NodeState(t, 4096, [], []);
    Case(map[0 := [1], 1 := [0]], Net(map[0 := idle, 1 := idle], [], []),
         [Send(0, Frame(BEACON, t), 0), Fire(0, [1]), Deliver(0)], 1, BEACON)
  }

  function IdleNode(t: int): NodeState {
    NodeState(t, 4096, [], [])
  }

  function BeaconSent(t: int): Net {
    var sent := NodeState(t, 4096, [BEACON], []);
    Net(map[0 := sent, 1 := IdleNode(t)], [Relay(0, Deferred(None, Frame(BEACON, t)))], [])
  }

  function BeaconOnAir(t: int): Net {
    Net(BeaconSent(t).nodes, [], [Copy(0, 1, Frame(BEACON, t % 256))])
  }

  lemma BeaconSend(t: int)
    requires t <= 0
    ensures var c := Neighbours(t); Enabled(c.net, c.run[0]) && Step(c.net, c.run[0]) == BeaconSent(t)
  {
    var relay := Relay(0, Deferred(None, Frame(BEACON, t)));
    assert BEACON !in IdleNode(t).seen && [] + [BEACON] == [BEACON];
    assert Queued(0, [relay.what]) == [relay];
  }

  lemma BeaconFires(t: int)
    requires t <= 0
    ensures var ev := Fire(0, [1]); Enabled(BeaconSent(t), ev) && Step(BeaconSent(t), ev) == BeaconOnAir(t)
  {
    var relay := BeaconSent(t).pending[0];
    assert Targets(relay.what, [1]) == [1];
    assert OnAir(relay, [1]) == [Copy(0, 1, Frame(BEACON, t % 256))];
  }

  lemma BeaconDelivered(t: int)
    requires t <= 0
    ensures var net := BeaconOnAir(t);
            Enabled(net, Deliver(0)) && 1 in Step(net, Deliver(0)).nodes
            && Step(net, Deliver(0)).nodes[1] == NodeState(t, 4096, [BEACON], [BEACON])
  {
    assert BEACON !in IdleNode(t).seen && [] + [BEACON] == [BEACON];
  }

  /** Three steps, one after the other. */
  lemma ThreeSteps(g: Graph, net: Net, run: seq<Event>)
    requires |run| == 3 && Enabled(net, run[0])
    requires var n1 := Step(net, run[0]); Enabled(n1, run[1]) && Enabled(Step(n1, run[1]), run[2])
    ensures Feasible(net, run) && Run(net, run) == Step(Step(Step(net, run[0]), run[1]), run[2])
    ensures RunConfined(g, net, run) <==>
            var n1 := Step(net, run[0]);
            Confined(g, net, run[0]) && Confined(g, n1, run[1]) && Confined(g, Step(n1, run[1]), run[2])
    ensures AllOriginations(run) == Originations(run[0]) + Originations(run[1]) + Originations(run[2])
  {
    hide Step, Confined, Originations;
    var n1 := Step(net, run[0]);
    var n2 := Step(n1, run[1]);
    var r1, r2, r3 := run[1..], run[2..], run[3..];
    assert r1[1..] == r2 && r2[1..] == r3 && r3 == [];
    assert AllOriginations(r3) == {} && AllOriginations(r2) == Originations(run[2]);
    assert AllOriginations(r1) == Originations(run[1]) + AllOriginations(r2);
    var n3 := Step(n2, run[2]);
    assert Feasible(n3, r3) && Run(n3, r3) == n3 && RunConfined(g, n3, r3);
    assert Feasible(n2, r2) && Run(n2, r2) == n3;
    assert Feasible(n1, r1) && Run(n1, r1) == n3;
    assert RunConfined(g, n2, r2) <==> Confined(g, n2, run[2]);
    assert RunConfined(g, n1, r1) <==> Confined(g, n1, run[1]) && Confined(g, n2, run[2]);
  }

  lemma NeighbourHears(t: int)
    requires t <= 0
    ensures Happens(Neighbours(t), t)
    ensures AllOriginations(Neighbours(t).run) == {Origin(0, Frame(BEACON, t))}
  {
    var c := Neighbours(t);
    BeaconSend(t);
    BeaconFires(t);
    BeaconDelivered(t);
    hide Step, Feasible, Run, RunConfined, AllOriginations;
    ThreeSteps(c.g, c.net, c.run);
  }

  lemma NotWithinOrigin(t: int)
    requires t <= 0
    ensures !WithinOrigin(Neighbours(t))
  {
    NeighbourHears(t);
    assert !Within(Neighbours(t).g, 0, 1, t);
  }

  /** The distance bound holds for the nodes' common ttl t iff t is at least 1. */
  lemma DistanceBoundIff(t: int)
    ensures (forall c: Case :: Happens(c, t) ==> WithinOrigin(c)) <==> t >= 1
  {
    hide Happens, WithinOrigin;
    if t >= 1 {
      forall c: Case | Happens(c, t) ensures WithinOrigin(c) {
        BoundedCase(c, t);
      }
    } else {
      NeighbourHears(t);
      NotWithinOrigin(t);
    }
  }

  lemma BoundedCase(c: Case, t: int)
    requires Happens(c, t) && t >= 1
    ensures WithinOrigin(c)
  {
    DeliveredWithinOriginHop(c.g, c.net, c.run, c.n, c.id);
  }
}
