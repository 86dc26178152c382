/** Without eviction a node broadcasts every frame at most once, however often the frame is sent and received. */
module MeshOnce {
  import opened Prelude
  import opened BoundedDedup
  import opened BleFrame
  import opened BleMesh
  import opened MeshNetwork
  import opened MeshCoverage

  predicate IsOf(r: Relay, n: Node, x: FrameId) {
    r.at == n && r.what.frame.id == x
  }

  /** Broadcasts of frame `x` that node `n` still has to make. */
  ghost function Due(pending: seq<Relay>, n: Node, x: FrameId): nat {
    if pending == [] then 0 else Due(pending[1..], n, x) + if IsOf(pending[0], n, x) then 1 else 0
  }

  /** Broadcasts of frame `x` that node `n` makes in a run. */
  ghost function Broadcasts(net: Net, run: seq<Event>, n: Node, x: FrameId): nat
    requires Feasible(net, run)
    decreases |run|
  {
    if run == [] then 0 else Broadcasts(Step(net, run[0]), run[1..], n, x) + Made(net, run[0], n, x)
  }

  function Made(net: Net, ev: Event, n: Node, x: FrameId): nat
    requires Enabled(net, ev)
  {
    if ev.Fire? && IsOf(net.pending[ev.k], n, x) then 1 else 0
  }

  /** Whether the node may still come by the frame for the first time. */
  function Fresh(net: Net, n: Node, x: FrameId): nat {
    if n in net.nodes && x !in net.nodes[n].seen then 1 else 0
  }

  lemma {:induction false} DueAppend(a: seq<Relay>, b: seq<Relay>, n: Node, x: FrameId)
    ensures Due(a + b, n, x) == Due(a, n, x) + Due(b, n, x)
    decreases |a|
  {
    if a == [] {
      assert a + b == b;
    } else {
      assert (a + b)[1..] == a[1..] + b;
      DueAppend(a[1..], b, n, x);
    }
  }

  lemma DueRemove(pending: seq<Relay>, k: nat, n: Node, x: FrameId)
    requires k < |pending|
    ensures Due(pending, n, x) == Due(RemoveAt(pending, k), n, x) + if IsOf(pending[k], n, x) then 1 else 0
  {
    hide IsOf;
    assert pending == pending[..k] + ([pending[k]] + pending[k + 1..]);
    DueAppend(pending[..k], [pending[k]] + pending[k + 1..], n, x);
    DueAppend(pending[..k], pending[k + 1..], n, x);
    DueAppend([pending[k]], pending[k + 1..], n, x);
  }

  lemma DueOfOne(at: Node, d: Deferred, n: Node, x: FrameId)
    ensures Due(Queued(at, [d]), n, x) == if at == n && d.frame.id == x then 1 else 0
    ensures Due(Queued(at, []), n, x) == 0
  {
    assert Queued(at, [d]) == [Relay(at, d)] && Queued(at, []) == [];
  }

  /** A node that comes by a frame queues it at most once, and never if it has seen it. */
  lemma SendOnce(net: Net, ev: Event, n: Node, x: FrameId, ids: set<FrameId>)
    requires ev.Send? && Enabled(net, ev) && Roomy(net, ids) && ev.frame.id in ids
    ensures Due(Step(net, ev).pending, n, x) + Fresh(Step(net, ev), n, x) <= Due(net.pending, n, x) + Fresh(net, n, x)
  {
    var st := net.nodes[ev.at];
    RememberAppends(st, ev.frame.id, ids);
    var ds := Originate(st, ev.frame).1;
    DueAppend(net.pending, Queued(ev.at, ds), n, x);
    DueOfOne(ev.at, Deferred(None, ev.frame), n, x);
    hide Due, Queued;
  }

  lemma DeliverOnce(net: Net, k: nat, n: Node, x: FrameId, ids: set<FrameId>)
    requires k < |net.air| && Roomy(net, ids)
    ensures var net' := Step(net, Deliver(k));
            Due(net'.pending, n, x) + Fresh(net', n, x) <= Due(net.pending, n, x) + Fresh(net, n, x)
  {
    var c := net.air[k];
    assert c in net.air;
    if c.to in net.nodes {
      var st := net.nodes[c.to];
      RememberAppends(st, c.frame.id, ids);
      var ds := Receive(st, c.from, c.frame).1;
      DueAppend(net.pending, Queued(c.to, ds), n, x);
      DueOfOne(c.to, Deferred(Some(c.from), Frame(c.frame.id, Min(c.frame.hop, st.ttl) - 1)), n, x);
      hide Due, Queued;
    }
  }

  lemma StepOnce(net: Net, ev: Event, n: Node, x: FrameId, ids: set<FrameId>)
    requires Enabled(net, ev) && Roomy(net, ids) && (ev.Send? ==> ev.frame.id in ids)
    ensures Made(net, ev, n, x) + Due(Step(net, ev).pending, n, x) + Fresh(Step(net, ev), n, x)
            <= Due(net.pending, n, x) + Fresh(net, n, x)
  {
    hide Due, Roomy, IsOf;
    match ev
    case Send(_, _, _) => SendOnce(net, ev, n, x, ids);
    case Fire(k, _) => DueRemove(net.pending, k, n, x);
    case Deliver(k) => DeliverOnce(net, k, n, x, ids);
    case Lose(_) =>
  }

  ghost predicate SendsWithin(run: seq<Event>, ids: set<FrameId>) {
    forall ev :: ev in run && ev.Send? ==> ev.frame.id in ids
  }

  lemma {:induction false} RunOnce(net: Net, run: seq<Event>, n: Node, x: FrameId, ids: set<FrameId>)
    requires Feasible(net, run) && Roomy(net, ids) && SendsWithin(run, ids)
    ensures Broadcasts(net, run, n, x) <= Due(net.pending, n, x) + Fresh(net, n, x)
    decreases |run|
  {
    if run != [] {
      hide Step, Roomy, Due, Fresh, Made;
      assert run[0] in run;
      StepOnce(net, run[0], n, x, ids);
      StepRoomy(net, run[0], ids);
      assert forall ev :: ev in run[1..] ==> ev in run;
      RunOnce(Step(net, run[0]), run[1..], n, x, ids);
    }
  }

  /**
    In a network that starts silent and whose seen-sets have room for every id that is sent, no node broadcasts a frame
    more than once in any run: repeated sends, several senders, lost and reordered copies included.
  */
  lemma BroadcastAtMostOnce(net: Net, run: seq<Event>, n: Node, x: FrameId, ids: set<FrameId>)
    requires Silent(net) && forall m :: m in net.nodes ==> |ids| <= net.nodes[m].cap
    requires Feasible(net, run) && SendsWithin(run, ids)
    ensures Broadcasts(net, run, n, x) <= 1
  {
    hide Broadcasts, Feasible;
    RunOnce(net, run, n, x, ids);
  }
}
