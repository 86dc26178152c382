/**
  A whole network of gossiping nodes (`ble_mesh/src/mesh.hpp`). Every public call, timer and radio
  callback is one atomic step; steps come in any order. A copy on the air is kept as the frame its
  bytes decode to (`BleFrame.RoundTripIffEncodable`), so its hop count is the wire byte.
*/
module MeshNetwork {
  import opened Prelude
  import opened BleFrame
  import opened BleMesh

  datatype Copy = Copy(from: Node, to: Node, frame: Frame)

  datatype Relay = Relay(at: Node, what: Deferred)

  datatype Net = Net(nodes: map<Node, NodeState>, pending: seq<Relay>, air: seq<Copy>)

  datatype Event =
    | Send(at: Node, frame: Frame, spread: int)
    | Fire(k: nat, peers: seq<Node>)  // a jitter timer; `peers` is what the radio lists at that moment
    | Deliver(k: nat)                 // any copy in flight may arrive next
    | Lose(k: nat)                    // or never arrive

  function Queued(n: Node, ds: seq<Deferred>): seq<Relay> {
    seq(|ds|, i requires 0 <= i < |ds| => Relay(n, ds[i]))
  }

  function OnAir(r: Relay, to: seq<Node>): seq<Copy> {
    seq(|to|, i requires 0 <= i < |to| => Copy(r.at, to[i], r.what.frame.(hop := r.what.frame.hop % 256)))
  }

  predicate Enabled(net: Net, ev: Event) {
    match ev
    case Send(at, f, spread) => at in net.nodes && OriginHop(net.nodes[at].ttl, spread, f.hop)
    case Fire(k, _) => k < |net.pending|
    case Deliver(k) => k < |net.air|
    case Lose(k) => k < |net.air|
  }

  function Step(net: Net, ev: Event): Net
    requires Enabled(net, ev)
  {
    match ev
    case Send(at, f, _) =>
      var (st, ds) := Originate(net.nodes[at], f);
      Net(net.nodes[at := st], net.pending + Queued(at, ds), net.air)
    case Fire(k, peers) =>
      var r := net.pending[k];
      Net(net.nodes, RemoveAt(net.pending, k), net.air + OnAir(r, Targets(r.what, peers)))
    case Deliver(k) =>
      var c := net.air[k];
      if c.to !in net.nodes then net.(air := RemoveAt(net.air, k))
      else
        var (st, ds) := Receive(net.nodes[c.to], c.from, c.frame);
        Net(net.nodes[c.to := st], net.pending + Queued(c.to, ds), RemoveAt(net.air, k))
    case Lose(k) => net.(air := RemoveAt(net.air, k))
  }

  ghost predicate Feasible(net: Net, run: seq<Event>)
    decreases |run|
  {
    run == [] || (Enabled(net, run[0]) && Feasible(Step(net, run[0]), run[1..]))
  }

  ghost function Run(net: Net, run: seq<Event>): Net
    requires Feasible(net, run)
    decreases |run|
  {
    if run == [] then net else Run(Step(net, run[0]), run[1..])
  }

  /** Nothing sent yet: no traffic, nothing seen, nothing delivered. */
  ghost predicate Silent(net: Net) {
    && net.pending == [] && net.air == []
    && forall n :: n in net.nodes ==> net.nodes[n].seen == [] && net.nodes[n].delivered == []
  }

  ghost predicate TtlAtLeastOne(net: Net) {
    forall n :: n in net.nodes ==> net.nodes[n].ttl >= 1
  }

  lemma StepKeepsTtl(net: Net, ev: Event)
    requires Enabled(net, ev)
    ensures Step(net, ev).nodes.Keys == net.nodes.Keys
    ensures forall n :: n in net.nodes ==> Step(net, ev).nodes[n].ttl == net.nodes[n].ttl
    ensures forall n :: n in net.nodes ==> Step(net, ev).nodes[n].cap == net.nodes[n].cap
  {
  }

  /** A relay carries what was received on to every other neighbour, and never back to where it came from. */
  lemma RelaySparesSender(net: Net, k: nat, r: Relay, peers: seq<Node>)
    requires Enabled(net, Deliver(k)) && r in Step(net, Deliver(k)).pending && r !in net.pending
    ensures r.at == net.air[k].to && r.what.frame.id == net.air[k].frame.id
    ensures forall c :: c in OnAir(r, Targets(r.what, peers)) ==> c.to != net.air[k].from
    ensures forall p :: p in peers && p != net.air[k].from ==>
              exists c :: c in OnAir(r, Targets(r.what, peers)) && c.to == p
  {
    hide OnAir;
    var c := net.air[k];
    assert r in Queued(c.to, Receive(net.nodes[c.to], c.from, c.frame).1);
    var to := Targets(r.what, peers);
    OnAirTargets(r, to);
    forall p | p in peers && p != c.from ensures exists d :: d in OnAir(r, to) && d.to == p {
      assert p in to;
    }
  }

  lemma OnAirTargets(r: Relay, to: seq<Node>)
    ensures forall c :: c in OnAir(r, to) ==> c.to in to
    ensures forall p :: p in to ==> exists c :: c in OnAir(r, to) && c.to == p
  {
    forall p | p in to ensures exists c :: c in OnAir(r, to) && c.to == p {
      var i :| 0 <= i < |to| && to[i] == p;
      assert OnAir(r, to)[i].to == p;
    }
  }
}
