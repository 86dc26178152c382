/** Termination and coverage together: after the last send every reliable run can only end in full coverage. */
module MeshOutcome {
  import opened Prelude
  import opened BoundedDedup
  import opened BleFrame
  import opened BleMesh
  import opened MeshNetwork
  import opened MeshDistance
  import opened MeshTermination
  import opened MeshCoverage

  ghost predicate AtNodes(net: Net) {
    forall r :: r in net.pending ==> r.at in net.nodes
  }

  ghost predicate DegreeAtMost(g: Graph, d: nat) {
    forall n :: n in g ==> |g[n]| <= d
  }

  /** What termination asks of a network over the graph, and what every step keeps. */
  ghost predicate Terminating(g: Graph, net: Net, d: nat) {
    && TtlsDamped(net) && AtNodes(net)
    && net.nodes.Keys == g.Keys && DegreeAtMost(g, d)
  }

  predicate Over(net: Net) {
    net.pending == [] && net.air == []
  }

  lemma StepKeepsAtNodes(net: Net, ev: Event)
    requires Enabled(net, ev) && AtNodes(net)
    ensures AtNodes(Step(net, ev))
  {
    forall r | r in Step(net, ev).pending ensures r.at in Step(net, ev).nodes {
    }
  }

  lemma StepTerminating(g: Graph, net: Net, ev: Event, d: nat)
    requires Enabled(net, ev) && Terminating(g, net, d)
    ensures Terminating(g, Step(net, ev), d)
  {
    hide Step, TtlsDamped, AtNodes;
    StepKeepsAtNodes(net, ev);
    StepKeepsDamped(net, ev);
    StepKeepsTtl(net, ev);
  }

  /** The event that a network with traffic can always go on with. */
  function NextEvent(g: Graph, net: Net): Event
    requires !Over(net) && (net.pending != [] ==> net.pending[0].at in g)
  {
    if net.pending != [] then Fire(0, g[net.pending[0].at]) else Deliver(0)
  }

  lemma NextFacts(g: Graph, net: Net, x: FrameId, ids: set<FrameId>, d: nat)
    requires Terminating(g, net, d) && !Over(net)
    ensures net.pending != [] ==> net.pending[0].at in g
    ensures var ev := NextEvent(g, net); Enabled(net, ev) && Reliable(g, net, ev, x, ids) && AfterLastSend(ev, d)
  {
    assert net.pending != [] ==> net.pending[0] in net.pending;
  }

  /** Any traffic can be brought to an end by a reliable run. */
  lemma {:induction false} QuietExtension(g: Graph, net: Net, x: FrameId, ids: set<FrameId>, d: nat)
    returns (more: seq<Event>)
    requires Terminating(g, net, d)
    ensures Feasible(net, more) && RunReliable(g, net, more, x, ids) && Over(Run(net, more))
    ensures forall ev :: ev in more ==> !ev.Send?
    decreases Potential(net, d)
  {
    hide Step, Enabled, Reliable, NextEvent, Terminating, Potential;
    more := [];
    if !Over(net) {
      NextFacts(g, net, x, ids, d);
      var ev := NextEvent(g, net);
      OnwardDecreases(g, net, ev, d);
      StepTerminating(g, net, ev, d);
      var rest := QuietExtension(g, Step(net, ev), x, ids, d);
      more := [ev] + rest;
      assert more[0] == ev && more[1..] == rest;
    }
  }

  lemma OnwardDecreases(g: Graph, net: Net, ev: Event, d: nat)
    requires Terminating(g, net, d) && Enabled(net, ev) && AfterLastSend(ev, d)
    ensures Potential(Step(net, ev), d) < Potential(net, d)
    ensures !ev.Send?
  {
    hide Step, Enabled, Potential;
    StepDecreases(net, ev, d);
  }

  lemma {:induction false} Chained(g: Graph, net: Net, a: seq<Event>, b: seq<Event>, x: FrameId, ids: set<FrameId>)
    requires Feasible(net, a) && RunReliable(g, net, a, x, ids)
    requires Feasible(Run(net, a), b) && RunReliable(g, Run(net, a), b, x, ids)
    ensures Feasible(net, a + b) && RunReliable(g, net, a + b, x, ids)
    ensures Run(net, a + b) == Run(Run(net, a), b)
    decreases |a|
  {
    hide Step, Enabled, Reliable;
    if a == [] {
      assert a + b == b;
    } else {
      assert (a + b)[0] == a[0] && (a + b)[1..] == a[1..] + b;
      Chained(g, Step(net, a[0]), a[1..], b, x, ids);
    }
  }

  lemma {:induction false} RunTerminating(g: Graph, net: Net, run: seq<Event>, d: nat)
    requires Terminating(g, net, d) && Feasible(net, run)
    ensures Terminating(g, Run(net, run), d)
    decreases |run|
  {
    hide Step, Enabled, Terminating;
    if run != [] {
      StepTerminating(g, net, run[0], d);
      RunTerminating(g, Step(net, run[0]), run[1..], d);
    }
  }

  /** A reliable broadcast goes to the neighbours of one node, of which there are at most d. */
  lemma {:induction false} ReliableIsBounded(g: Graph, net: Net, run: seq<Event>, x: FrameId, ids: set<FrameId>, d: nat)
    requires Feasible(net, run) && RunReliable(g, net, run, x, ids) && DegreeAtMost(g, d)
    requires forall ev :: ev in run ==> !ev.Send?
    ensures forall ev :: ev in run ==> AfterLastSend(ev, d)
    decreases |run|
  {
    hide Step;
    if run != [] {
      var rest := run[1..];
      assert run == [run[0]] + rest && run[0] in run;
      ReliableIsBounded(g, Step(net, run[0]), rest, x, ids, d);
    }
  }

  /**
    The outcome of a flood: after the last send any reliable run, however far it has got, can be brought to an
    end, no reliable way of doing so has more than `Potential` events in all, and at any such end every node
    connected to the origin has delivered the frame exactly once and nobody else has.
  */
  lemma FloodEndsCovered(fl: Flood, net: Net, spread: int, run: seq<Event>, ids: set<FrameId>, d: nat)
    returns (more: seq<Event>)
    requires Setting(fl, net) && Roomy(net, ids) && fl.x in ids && Unknown(net, fl.x) && fl.o in fl.g
    requires Terminating(fl.g, net, d)
    requires Enabled(net, Send(fl.o, Frame(fl.x, fl.h), spread))
    requires var sent := Step(net, Send(fl.o, Frame(fl.x, fl.h), spread));
             Feasible(sent, run) && RunReliable(fl.g, sent, run, fl.x, ids)
    requires forall ev :: ev in run ==> !ev.Send?
    ensures var sent := Step(net, Send(fl.o, Frame(fl.x, fl.h), spread));
            && Feasible(sent, run + more) && RunReliable(fl.g, sent, run + more, fl.x, ids)
            && |run + more| <= Potential(sent, d)
            && forall n :: n in fl.g ==>
                 && n in Run(sent, run + more).nodes
                 && multiset(Run(sent, run + more).nodes[n].delivered)[fl.x] ==
                    if n != fl.o && Connected(fl.g, fl.o, n) then 1 else 0
  {
    hide Step, Enabled, Potential, Setting, Roomy, Unknown, Connected;
    var sent := Step(net, Send(fl.o, Frame(fl.x, fl.h), spread));
    StepTerminating(fl.g, net, Send(fl.o, Frame(fl.x, fl.h), spread), d);
    RunTerminating(fl.g, sent, run, d);
    more := QuietExtension(fl.g, Run(sent, run), fl.x, ids, d);
    Chained(fl.g, sent, run, more, fl.x, ids);
    ReliableIsBounded(fl.g, sent, run + more, fl.x, ids, d);
    FloodTerminates(sent, run + more, d);
    OverIsQuiet(Run(sent, run + more), fl.x);
    forall n | n in fl.g
      ensures n in Run(sent, run + more).nodes
      ensures multiset(Run(sent, run + more).nodes[n].delivered)[fl.x] ==
              if n != fl.o && Connected(fl.g, fl.o, n) then 1 else 0
    {
      FloodCovers(fl, net, spread, run + more, ids, n);
    }
  }

  lemma OverIsQuiet(net: Net, x: FrameId)
    requires Over(net)
    ensures NoTraffic(net, x)
  {
  }
}
