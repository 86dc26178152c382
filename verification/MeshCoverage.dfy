/**
  Coverage: with lossless delivery, no eviction and an origin hop of at least n - 1, a flood reaches every
  connected node exactly once. The proof follows the tree of first receipts, whose branches are simple
  paths and so are never longer than the number of nodes.
*/
module MeshCoverage {
  import opened Prelude
  import opened BoundedDedup
  import opened BleFrame
  import opened BleMesh
  import opened MeshNetwork
  import opened MeshDistance

  type Paths = map<Node, seq<Node>>

  ghost predicate Connected(g: Graph, o: Node, n: Node) {
    exists k: nat :: Within(g, o, n, k)
  }

  ghost predicate Symmetric(g: Graph) {
    && (forall n, m :: n in g && m in g[n] ==> m in g)
    && (forall n, m :: n in g && m in g && m in g[n] ==> n in g[m])
  }

  /** Enough room everywhere for every id in play, so that no seen-set ever evicts. */
  ghost predicate Roomy(net: Net, ids: set<FrameId>) {
    && (forall n :: n in net.nodes ==>
          && |ids| <= net.nodes[n].cap
          && NoDup(net.nodes[n].seen)
          && forall id :: id in net.nodes[n].seen ==> id in ids)
    && (forall r :: r in net.pending ==> r.what.frame.id in ids)
    && (forall c :: c in net.air ==> c.frame.id in ids)
  }

  /** A reliable step: timers reach every neighbour, nothing is lost, and `x` itself is not sent again. */
  ghost predicate Reliable(g: Graph, net: Net, ev: Event, x: FrameId, ids: set<FrameId>)
    requires Enabled(net, ev)
  {
    match ev
    case Send(_, f, _) => f.id != x && f.id in ids
    case Fire(k, peers) => net.pending[k].at in g && peers == g[net.pending[k].at]
    case Deliver(_) => true
    case Lose(_) => false
  }

  ghost predicate RunReliable(g: Graph, net: Net, run: seq<Event>, x: FrameId, ids: set<FrameId>)
    requires Feasible(net, run)
    decreases |run|
  {
    run != [] ==> Reliable(g, net, run[0], x, ids) && RunReliable(g, Step(net, run[0]), run[1..], x, ids)
  }

  // ---- the invariant ----

  /** The setting: the sent frame, its origin and hop count, and the branch of first receipts to each node. */
  datatype Flood = Flood(g: Graph, o: Node, h: int, x: FrameId)

  ghost predicate BranchOk(fl: Flood, paths: Paths, n: Node)
    requires n in paths
  {
    && paths[n] != [] && paths[n][|paths[n]| - 1] == n
    && NoDup(paths[n])
    && (forall m :: m in paths[n] ==> m in paths)
  }

  ghost predicate CopyOk(fl: Flood, paths: Paths, c: Copy) {
    c.frame.id == fl.x ==>
      && c.from in paths && c.frame.hop == fl.h - |paths[c.from]| + 1
      && c.from in fl.g && c.to in fl.g[c.from]
  }

  ghost predicate RelayOk(fl: Flood, paths: Paths, r: Relay) {
    r.what.frame.id == fl.x ==>
      && r.at in paths && r.what.frame.hop == fl.h - |paths[r.at]| + 1
      && (r.what.except.Some? ==> r.what.except.value in paths)
  }

  ghost predicate RelayDue(net: Net, x: FrameId, m: Node) {
    exists r :: r in net.pending && r.at == m && r.what.frame.id == x
  }

  ghost predicate CopyDue(net: Net, x: FrameId, p: Node) {
    exists c :: c in net.air && c.to == p && c.frame.id == x
  }

  /** A node that has the frame still owes its broadcast, or has made it, or nobody is left to tell. */
  ghost predicate Served(fl: Flood, net: Net, paths: Paths, m: Node)
    requires m in fl.g
  {
    || RelayDue(net, fl.x, m)
    || (forall p :: p in fl.g[m] ==> p in paths || CopyDue(net, fl.x, p))
    || (forall p :: p in fl.g ==> p in paths)
  }

  ghost predicate Setting(fl: Flood, net: Net) {
    && Symmetric(fl.g) && net.nodes.Keys == fl.g.Keys
    && |fl.g.Keys| - 1 <= fl.h < 256
    && forall n :: n in net.nodes ==> net.nodes[n].ttl >= fl.h
  }

  ghost predicate BranchesOk(fl: Flood, paths: Paths) {
    && fl.o in paths && |paths[fl.o]| == 1
    && forall n :: n in paths ==> n in fl.g && BranchOk(fl, paths, n)
  }

  /** A branch is a walk from the origin. */
  ghost predicate BranchesReach(fl: Flood, paths: Paths) {
    forall n :: n in paths ==> Within(fl.g, fl.o, n, |paths[n]| - 1)
  }

  /** The nodes on a branch are those that have seen the frame; each but the origin delivered it once. */
  ghost predicate NodesOk(fl: Flood, net: Net, paths: Paths) {
    forall n :: n in net.nodes ==>
      && (fl.x in net.nodes[n].seen <==> n in paths)
      && multiset(net.nodes[n].delivered)[fl.x] == if n in paths && n != fl.o then 1 else 0
  }

  ghost predicate TrafficOk(fl: Flood, net: Net, paths: Paths) {
    && (forall c :: c in net.air ==> CopyOk(fl, paths, c))
    && (forall r :: r in net.pending ==> RelayOk(fl, paths, r))
  }

  ghost predicate AllServed(fl: Flood, net: Net, paths: Paths)
    requires BranchesOk(fl, paths)
  {
    forall m :: m in paths ==> Served(fl, net, paths, m)
  }

  ghost predicate Covering(fl: Flood, net: Net, paths: Paths) {
    && Setting(fl, net) && BranchesOk(fl, paths) && BranchesReach(fl, paths) && NodesOk(fl, net, paths)
    && TrafficOk(fl, net, paths) && AllServed(fl, net, paths)
  }

  /** No eviction: remembering an id in a roomy network only appends it. */
  lemma RememberAppends(st: NodeState, id: FrameId, ids: set<FrameId>)
    requires |ids| <= st.cap && NoDup(st.seen) && (forall i :: i in st.seen ==> i in ids) && id in ids
    ensures Remember(st, id).seen == if id in st.seen then st.seen else st.seen + [id]
    ensures NoDup(Remember(st, id).seen) && forall i :: i in Remember(st, id).seen <==> i in st.seen || i == id
  {
    if id !in st.seen {
      assert NoDup(st.seen + [id]);
      NoDupFits(st.seen + [id], ids);
    }
  }

  lemma StepRoomy(net: Net, ev: Event, ids: set<FrameId>)
    requires Enabled(net, ev) && Roomy(net, ids)
    requires ev.Send? ==> ev.frame.id in ids
    ensures Roomy(Step(net, ev), ids)
  {
    if ev.Send? {
      RememberAppends(net.nodes[ev.at], ev.frame.id, ids);
    } else if ev.Deliver? && net.air[ev.k].to in net.nodes {
      assert net.air[ev.k] in net.air;
      RememberAppends(net.nodes[net.air[ev.k].to], net.air[ev.k].frame.id, ids);
    } else if ev.Fire? {
      assert net.pending[ev.k] in net.pending;
    }
  }

  // ---- one step keeps the invariant ----

  /** A branch is a simple path through the nodes of the graph. */
  lemma BranchFits(fl: Flood, paths: Paths, n: Node)
    requires BranchesOk(fl, paths) && n in paths
    ensures 1 <= |paths[n]| <= |fl.g.Keys|
    ensures |paths[n]| == |fl.g.Keys| ==> forall p :: p in fl.g ==> p in paths
  {
    NoDupFits(paths[n], fl.g.Keys);
  }

  /** Serving a node is a matter of what is still in transit; nothing in transit may get lost. */
  lemma StillServed(fl: Flood, net: Net, net': Net, paths: Paths, m: Node)
    requires m in fl.g && Served(fl, net, paths, m)
    requires RelayDue(net, fl.x, m) ==> RelayDue(net', fl.x, m)
    requires forall p :: p in fl.g[m] && CopyDue(net, fl.x, p) ==> p in paths || CopyDue(net', fl.x, p)
    ensures Served(fl, net', paths, m)
  {
  }

  lemma FireTraffic(fl: Flood, net: Net, k: nat, paths: Paths)
    requires BranchesOk(fl, paths) && TrafficOk(fl, net, paths) && |fl.g.Keys| - 1 <= fl.h < 256
    requires k < |net.pending| && net.pending[k].at in fl.g
    ensures TrafficOk(fl, Step(net, Fire(k, fl.g[net.pending[k].at])), paths)
  {
    var r := net.pending[k];
    assert r in net.pending && RelayOk(fl, paths, r);
    if r.what.frame.id == fl.x {
      BranchFits(fl, paths, r.at);
    }
    var net' := Step(net, Fire(k, fl.g[r.at]));
    forall c | c in net'.air ensures CopyOk(fl, paths, c) {
      assert c in net.air || c in OnAir(r, Targets(r.what, fl.g[r.at]));
    }
    forall q | q in net'.pending ensures RelayOk(fl, paths, q) {
      assert q in net.pending;
    }
  }

  lemma FireServes(fl: Flood, net: Net, k: nat, paths: Paths)
    requires BranchesOk(fl, paths) && TrafficOk(fl, net, paths) && AllServed(fl, net, paths)
    requires k < |net.pending| && net.pending[k].at in fl.g
    ensures AllServed(fl, Step(net, Fire(k, fl.g[net.pending[k].at])), paths)
  {
    var r := net.pending[k];
    assert r in net.pending && RelayOk(fl, paths, r);
    var to := Targets(r.what, fl.g[r.at]);
    var net' := Step(net, Fire(k, fl.g[r.at]));
    var sent := OnAir(r, to);
    forall m | m in paths ensures Served(fl, net', paths, m) {
      if r.at == m && r.what.frame.id == fl.x {
        forall p | p in fl.g[m] ensures p in paths || CopyDue(net', fl.x, p) {
          if p in to {
            var i :| 0 <= i < |to| && to[i] == p;
            assert sent[i] in net'.air;
          }
        }
      } else {
        if RelayDue(net, fl.x, m) {
          var q :| q in net.pending && q.at == m && q.what.frame.id == fl.x;
          assert q in net'.pending;
        }
        forall p | p in fl.g[m] && CopyDue(net, fl.x, p) ensures CopyDue(net', fl.x, p) {
          var c :| c in net.air && c.to == p && c.frame.id == fl.x;
          assert c in net'.air;
        }
        StillServed(fl, net, net', paths, m);
      }
    }
  }

  /** Taking a copy off the air leaves everybody served, if its receiver has the frame afterwards. */
  lemma ArrivalServes(fl: Flood, net: Net, net': Net, k: nat, paths: Paths, m: Node)
    requires k < |net.air| && net'.air == RemoveAt(net.air, k)
    requires forall r :: r in net.pending ==> r in net'.pending
    requires net.air[k].frame.id == fl.x ==> net.air[k].to in paths
    requires m in fl.g && Served(fl, net, paths, m)
    ensures Served(fl, net', paths, m)
  {
    if RelayDue(net, fl.x, m) {
      var q :| q in net.pending && q.at == m && q.what.frame.id == fl.x;
      assert q in net'.pending;
    }
    forall p | p in fl.g[m] && CopyDue(net, fl.x, p) ensures p in paths || CopyDue(net', fl.x, p) {
      if p !in paths {
        var c :| c in net.air && c.to == p && c.frame.id == fl.x;
        assert c in net'.air;
      }
    }
    StillServed(fl, net, net', paths, m);
  }

  /** More branches leave everybody served. */
  lemma GrowServes(fl: Flood, net: Net, paths: Paths, paths': Paths, m: Node)
    requires forall n :: n in paths ==> n in paths'
    requires m in fl.g && Served(fl, net, paths, m)
    ensures Served(fl, net, paths', m)
  {
  }

  /** A step that does not concern `x`: another frame is sent or arrives, or a duplicate of `x` arrives. */
  ghost predicate Unrelated(fl: Flood, net: Net, ev: Event, paths: Paths)
    requires Enabled(net, ev)
  {
    match ev
    case Send(_, f, _) => f.id != fl.x
    case Deliver(k) => net.air[k].frame.id == fl.x ==> net.air[k].to in paths
    case _ => false
  }

  lemma UnrelatedServed(fl: Flood, net: Net, ev: Event, paths: Paths)
    requires BranchesOk(fl, paths) && AllServed(fl, net, paths)
    requires Enabled(net, ev) && Unrelated(fl, net, ev, paths)
    ensures AllServed(fl, Step(net, ev), paths)
  {
    var net' := Step(net, ev);
    forall m | m in paths ensures Served(fl, net', paths, m) {
      if ev.Deliver? {
        ArrivalServes(fl, net, net', ev.k, paths, m);
      } else {
        if RelayDue(net, fl.x, m) {
          var q :| q in net.pending && q.at == m && q.what.frame.id == fl.x;
          assert q in net'.pending;
        }
        StillServed(fl, net, net', paths, m);
      }
    }
  }

  lemma UnrelatedTraffic(fl: Flood, net: Net, ev: Event, paths: Paths)
    requires TrafficOk(fl, net, paths) && NodesOk(fl, net, paths)
    requires Enabled(net, ev) && Unrelated(fl, net, ev, paths)
    ensures TrafficOk(fl, Step(net, ev), paths)
  {
    var net' := Step(net, ev);
    forall r | r in net'.pending ensures RelayOk(fl, paths, r) {
      assert r in net.pending || r.what.frame.id != fl.x;
    }
    forall c | c in net'.air ensures CopyOk(fl, paths, c) {
      assert c in net.air;
    }
  }

  lemma UnrelatedNodes(fl: Flood, net: Net, ev: Event, paths: Paths, ids: set<FrameId>)
    requires NodesOk(fl, net, paths) && Roomy(net, ids) && fl.x in ids
    requires Enabled(net, ev) && Unrelated(fl, net, ev, paths) && (ev.Send? ==> ev.frame.id in ids)
    ensures NodesOk(fl, Step(net, ev), paths)
  {
    if ev.Send? {
      RememberAppends(net.nodes[ev.at], ev.frame.id, ids);
    } else {
      assert net.air[ev.k] in net.air;
      if net.air[ev.k].to in net.nodes {
        RememberAppends(net.nodes[net.air[ev.k].to], net.air[ev.k].frame.id, ids);
      }
    }
  }

  /** The first receipt of `x` at a node: its branch extends the sender's by one node. */
  function Extend(paths: Paths, c: Copy): Paths
    requires c.from in paths
  {
    paths[c.to := paths[c.from] + [c.to]]
  }

  lemma FirstReceiptBranches(fl: Flood, c: Copy, paths: Paths)
    requires BranchesOk(fl, paths) && c.from in paths && c.to !in paths && c.to in fl.g
    ensures BranchesOk(fl, Extend(paths, c))
  {
    var paths' := Extend(paths, c);
    assert fl.o != c.to;
    forall n | n in paths' ensures n in fl.g && BranchOk(fl, paths', n) {
      if n == c.to {
        assert BranchOk(fl, paths, c.from);
        assert c.to !in paths[c.from];
      } else {
        assert BranchOk(fl, paths, n);
      }
    }
  }

  lemma FirstReceiptReaches(fl: Flood, c: Copy, paths: Paths)
    requires BranchesReach(fl, paths) && c.from in paths && c.from in fl.g && c.to in fl.g[c.from]
    ensures BranchesReach(fl, Extend(paths, c))
  {
    assert Within(fl.g, fl.o, c.from, |paths[c.from]| - 1);
    assert Within(fl.g, fl.o, c.to, |paths[c.from]|);
  }

  lemma ReceiverRelays(fl: Flood, net: Net, k: nat)
    requires Setting(fl, net) && k < |net.air| && net.air[k].frame.id == fl.x && net.air[k].frame.hop > 1
    requires net.air[k].to in net.nodes && fl.x !in net.nodes[net.air[k].to].seen && fl.h >= 1
    requires net.air[k].frame.hop <= fl.h
    ensures RelayDue(Step(net, Deliver(k)), fl.x, net.air[k].to)
  {
    var c, net' := net.air[k], Step(net, Deliver(k));
    var d := Deferred(Some(c.from), Frame(fl.x, Min(c.frame.hop, net.nodes[c.to].ttl) - 1));
    assert Receive(net.nodes[c.to], c.from, c.frame).1 == [d];
    var q := Queued(c.to, [d]);
    assert net'.pending == net.pending + q && q[0] in q;
    assert q[0] in net'.pending;
  }

  lemma FirstReceiptServed(fl: Flood, net: Net, k: nat, paths: Paths)
    requires Setting(fl, net) && BranchesOk(fl, paths) && NodesOk(fl, net, paths) && AllServed(fl, net, paths)
    requires k < |net.air| && net.air[k].frame.id == fl.x && CopyOk(fl, paths, net.air[k])
    requires net.air[k].to !in paths && net.air[k].to in fl.g && BranchesOk(fl, Extend(paths, net.air[k]))
    ensures AllServed(fl, Step(net, Deliver(k)), Extend(paths, net.air[k]))
  {
    var c := net.air[k];
    var paths', net' := Extend(paths, c), Step(net, Deliver(k));
    forall m | m in paths' ensures Served(fl, net', paths', m) {
      if m == c.to {
        if c.frame.hop > 1 {
          ReceiverRelays(fl, net, k);
        } else {
          BranchFits(fl, paths', m);
        }
      } else {
        GrowServes(fl, net, paths, paths', m);
        ArrivalServes(fl, net, net', k, paths', m);
      }
    }
  }

  lemma FirstReceiptTraffic(fl: Flood, net: Net, k: nat, paths: Paths)
    requires Setting(fl, net) && BranchesOk(fl, paths) && TrafficOk(fl, net, paths)
    requires k < |net.air| && net.air[k].frame.id == fl.x && CopyOk(fl, paths, net.air[k])
    requires net.air[k].to !in paths && net.air[k].to in fl.g
    ensures TrafficOk(fl, Step(net, Deliver(k)), Extend(paths, net.air[k]))
  {
    hide RelayOk, Receive, Extend;
    var c := net.air[k];
    BranchFits(fl, paths, c.from);
    OldTrafficOk(fl, net, c, paths);
    ReceivedRelayOk(fl, net.nodes[c.to], c, paths);
    var ds := Receive(net.nodes[c.to], c.from, c.frame).1;
    forall r | r in Step(net, Deliver(k)).pending ensures RelayOk(fl, Extend(paths, c), r) {
      assert r in net.pending || r in Queued(c.to, ds);
    }
  }

  lemma OldTrafficOk(fl: Flood, net: Net, c: Copy, paths: Paths)
    requires TrafficOk(fl, net, paths) && c.from in paths && c.to !in paths
    ensures TrafficOk(fl, net, Extend(paths, c))
  {
  }

  /** What the first receipt of the frame leaves to be relayed. */
  lemma ReceivedRelayOk(fl: Flood, st: NodeState, c: Copy, paths: Paths)
    requires c.frame.id == fl.x && CopyOk(fl, paths, c) && c.to !in paths && paths[c.from] != [] && st.ttl >= fl.h
    ensures forall d :: d in Receive(st, c.from, c.frame).1 ==> RelayOk(fl, Extend(paths, c), Relay(c.to, d))
  {
  }

  lemma FirstReceiptNodes(fl: Flood, net: Net, k: nat, paths: Paths, ids: set<FrameId>)
    requires NodesOk(fl, net, paths) && fl.o in paths && Roomy(net, ids)
    requires k < |net.air| && net.air[k].frame.id == fl.x && net.air[k].from in paths
    requires net.air[k].to !in paths && net.air[k].to in net.nodes
    ensures NodesOk(fl, Step(net, Deliver(k)), Extend(paths, net.air[k]))
  {
    var c := net.air[k];
    assert c in net.air;
    RememberAppends(net.nodes[c.to], fl.x, ids);
  }

  lemma StepCovering(fl: Flood, net: Net, ev: Event, paths: Paths, ids: set<FrameId>) returns (paths': Paths)
    requires Covering(fl, net, paths) && Enabled(net, ev) && Roomy(net, ids) && fl.x in ids
    requires Reliable(fl.g, net, ev, fl.x, ids)
    ensures Covering(fl, Step(net, ev), paths')
  {
    paths' := paths;
    StepKeepsTtl(net, ev);
    if ev.Fire? {
      FireTraffic(fl, net, ev.k, paths);
      FireServes(fl, net, ev.k, paths);
    } else if ev.Send? || net.air[ev.k].frame.id != fl.x || net.air[ev.k].to in paths {
      UnrelatedServed(fl, net, ev, paths);
      UnrelatedTraffic(fl, net, ev, paths);
      UnrelatedNodes(fl, net, ev, paths, ids);
    } else {
      assert net.air[ev.k] in net.air && CopyOk(fl, paths, net.air[ev.k]);
      paths' := Extend(paths, net.air[ev.k]);
      FirstReceiptBranches(fl, net.air[ev.k], paths);
      FirstReceiptReaches(fl, net.air[ev.k], paths);
      FirstReceiptNodes(fl, net, ev.k, paths, ids);
      FirstReceiptTraffic(fl, net, ev.k, paths);
      FirstReceiptServed(fl, net, ev.k, paths);
    }
  }

  lemma {:induction false} RunCovering(fl: Flood, net: Net, run: seq<Event>, paths: Paths, ids: set<FrameId>)
    returns (paths': Paths)
    requires Covering(fl, net, paths) && Roomy(net, ids) && fl.x in ids
    requires Feasible(net, run) && RunReliable(fl.g, net, run, fl.x, ids)
    ensures Covering(fl, Run(net, run), paths')
    decreases |run|
  {
    paths' := paths;
    if run != [] {
      paths' := StepCovering(fl, net, run[0], paths, ids);
      StepRoomy(net, run[0], ids);
      paths' := RunCovering(fl, Step(net, run[0]), run[1..], paths', ids);
    }
  }

  // ---- the theorem ----

  /** No trace of `x` anywhere. */
  ghost predicate Unknown(net: Net, x: FrameId) {
    && (forall n :: n in net.nodes ==> x !in net.nodes[n].seen && x !in net.nodes[n].delivered)
    && NoTraffic(net, x)
  }

  ghost predicate NoTraffic(net: Net, x: FrameId) {
    && (forall r :: r in net.pending ==> r.what.frame.id != x)
    && (forall c :: c in net.air ==> c.frame.id != x)
  }

  lemma SendNodes(fl: Flood, net: Net, spread: int, ids: set<FrameId>)
    requires Roomy(net, ids) && fl.x in ids && Unknown(net, fl.x)
    requires Enabled(net, Send(fl.o, Frame(fl.x, fl.h), spread))
    ensures NodesOk(fl, Step(net, Send(fl.o, Frame(fl.x, fl.h), spread)), map[fl.o := [fl.o]])
  {
    RememberAppends(net.nodes[fl.o], fl.x, ids);
  }

  lemma SendTraffic(fl: Flood, net: Net, spread: int)
    requires Unknown(net, fl.x) && fl.o in fl.g
    requires Enabled(net, Send(fl.o, Frame(fl.x, fl.h), spread))
    ensures var net' := Step(net, Send(fl.o, Frame(fl.x, fl.h), spread));
            var paths: Paths := map[fl.o := [fl.o]];
            TrafficOk(fl, net', paths) && RelayDue(net', fl.x, fl.o)
  {
    var net' := Step(net, Send(fl.o, Frame(fl.x, fl.h), spread));
    var r := Relay(fl.o, Deferred(None, Frame(fl.x, fl.h)));
    assert Queued(fl.o, [r.what]) == [r];
    assert net'.pending == net.pending + [r];
    assert r in net'.pending;
  }

  lemma SendCovering(fl: Flood, net: Net, spread: int, ids: set<FrameId>)
    requires Setting(fl, net) && Roomy(net, ids) && fl.x in ids && Unknown(net, fl.x)
    requires fl.o in fl.g && Enabled(net, Send(fl.o, Frame(fl.x, fl.h), spread))
    ensures Covering(fl, Step(net, Send(fl.o, Frame(fl.x, fl.h), spread)), map[fl.o := [fl.o]])
  {
    var paths: Paths := map[fl.o := [fl.o]];
    var net' := Step(net, Send(fl.o, Frame(fl.x, fl.h), spread));
    hide Step, Setting, Roomy, Unknown, Enabled, NodesOk, TrafficOk, BranchesOk, BranchesReach, AllServed;
    StepKeepsTtl(net, Send(fl.o, Frame(fl.x, fl.h), spread));
    SettingStays(fl, net, net');
    FirstBranch(fl, paths);
    FirstBranchReaches(fl, paths);
    SendNodes(fl, net, spread, ids);
    SendTraffic(fl, net, spread);
    FirstServed(fl, net', paths);
  }

  lemma SettingStays(fl: Flood, net: Net, net': Net)
    requires Setting(fl, net) && net'.nodes.Keys == net.nodes.Keys
    requires forall n :: n in net.nodes ==> net'.nodes[n].ttl == net.nodes[n].ttl
    ensures Setting(fl, net')
  {
  }

  lemma FirstServed(fl: Flood, net: Net, paths: Paths)
    requires paths == map[fl.o := [fl.o]] && BranchesOk(fl, paths) && RelayDue(net, fl.x, fl.o)
    ensures AllServed(fl, net, paths)
  {
    hide RelayDue;
  }

  lemma FirstBranch(fl: Flood, paths: Paths)
    requires paths == map[fl.o := [fl.o]] && fl.o in fl.g
    ensures BranchesOk(fl, paths)
  {
  }

  lemma FirstBranchReaches(fl: Flood, paths: Paths)
    requires paths == map[fl.o := [fl.o]]
    ensures BranchesReach(fl, paths)
  {
    assert Within(fl.g, fl.o, fl.o, 0);
  }

  /** Once the traffic has died down, the nodes reached are closed under the neighbour relation. */
  lemma QuietIsClosed(fl: Flood, net: Net, paths: Paths, m: Node, p: Node)
    requires Symmetric(fl.g) && BranchesOk(fl, paths) && AllServed(fl, net, paths) && NoTraffic(net, fl.x)
    requires m in paths && p in fl.g[m]
    ensures p in paths
  {
    assert Served(fl, net, paths, m);
  }

  lemma {:induction false} ClosedHoldsConnected(g: Graph, o: Node, s: set<Node>, n: Node, k: int)
    requires o in s && forall m, p :: m in s && m in g && p in g[m] ==> p in s
    requires Within(g, o, n, k)
    ensures n in s
    decreases k
  {
    if n != o {
      var m :| m in g && n in g[m] && Within(g, o, m, k - 1);
      ClosedHoldsConnected(g, o, s, m, k - 1);
    }
  }

  /**
    Coverage: in a symmetric network of n nodes whose ttls are at least H, with room in the seen-sets for
    every id in play, a frame sent with H >= n - 1 has, once its traffic has died down, been delivered
    exactly once by every node connected to the origin, never by the origin and never by anybody else.
    Other frames may be sent meanwhile, and copies may arrive in any order.
  */
  lemma FloodCovers(fl: Flood, net: Net, spread: int, run: seq<Event>, ids: set<FrameId>, n: Node)
    requires Setting(fl, net) && Roomy(net, ids) && fl.x in ids && Unknown(net, fl.x)
    requires fl.o in fl.g && Enabled(net, Send(fl.o, Frame(fl.x, fl.h), spread))
    requires var sent := Step(net, Send(fl.o, Frame(fl.x, fl.h), spread));
             Feasible(sent, run) && RunReliable(fl.g, sent, run, fl.x, ids) && NoTraffic(Run(sent, run), fl.x)
    requires n in fl.g
    ensures var end := Run(Step(net, Send(fl.o, Frame(fl.x, fl.h), spread)), run);
            n in end.nodes &&
            multiset(end.nodes[n].delivered)[fl.x] == if n != fl.o && Connected(fl.g, fl.o, n) then 1 else 0
  {
    hide Step, Run, Feasible, RunReliable, Setting, Roomy, Unknown, NoTraffic, Covering, Connected;
    var ev := Send(fl.o, Frame(fl.x, fl.h), spread);
    SendCovering(fl, net, spread, ids);
    StepRoomy(net, ev, ids);
    var paths := RunCovering(fl, Step(net, ev), run, map[fl.o := [fl.o]], ids);
    QuietCovers(fl, Run(Step(net, ev), run), paths, n);
  }

  /** When the traffic has died down, the tree of first receipts holds all nodes connected to the origin. */
  lemma QuietCovers(fl: Flood, end: Net, paths: Paths, n: Node)
    requires Covering(fl, end, paths) && NoTraffic(end, fl.x) && n in fl.g
    ensures n in end.nodes
    ensures multiset(end.nodes[n].delivered)[fl.x] == if n != fl.o && Connected(fl.g, fl.o, n) then 1 else 0
  {
    if Connected(fl.g, fl.o, n) {
      var k: nat :| Within(fl.g, fl.o, n, k);
      forall m, p | m in paths.Keys && m in fl.g && p in fl.g[m] ensures p in paths.Keys {
        QuietIsClosed(fl, end, paths, m, p);
      }
      ClosedHoldsConnected(fl.g, fl.o, paths.Keys, n, k);
    }
    if n in paths {
      assert Within(fl.g, fl.o, n, |paths[n]| - 1);
    }
  }
}
