/** After the last send, every run of the flood is finite, even when seen-sets forget. */
module MeshTermination {
  import opened Prelude
  import opened BleFrame
  import opened BleMesh
  import opened MeshNetwork

  /** The most steps a copy with hop count `h` can still cause in a network of degree at most `d`. */
  function CopyWeight(h: int, d: nat): nat
    decreases h, 0
  {
    1 + if h > 1 then RelayWeight(h - 1, d) else 0
  }

  /** The same for a deferred broadcast. */
  function RelayWeight(h: int, d: nat): nat
    decreases h, 1
  {
    1 + d * CopyWeight(h, d)
  }

  lemma {:induction false} WeightMono(h: int, g: int, d: nat)
    requires h <= g
    ensures CopyWeight(h, d) <= CopyWeight(g, d)
    ensures RelayWeight(h, d) <= RelayWeight(g, d)
    decreases g
  {
    if h > 1 {
      WeightMono(h - 1, g - 1, d);
    }
    Grows(d, CopyWeight(h, d), CopyWeight(g, d));
  }

  ghost function AirWeight(air: seq<Copy>, d: nat): nat {
    if air == [] then 0 else CopyWeight(air[0].frame.hop, d) + AirWeight(air[1..], d)
  }

  /** A bound on the hop count a broadcast can have and get on the wire, where a negative one wraps. */
  function Top(h: int): (top: nat)
    ensures h <= top && h % 256 <= top
  {
    if h >= 0 then h else h % 256
  }

  ghost function PendingWeight(pending: seq<Relay>, d: nat): nat {
    if pending == [] then 0 else RelayWeight(Top(pending[0].what.frame.hop), d) + PendingWeight(pending[1..], d)
  }

  ghost function Potential(net: Net, d: nat): nat {
    AirWeight(net.air, d) + PendingWeight(net.pending, d)
  }

  lemma {:induction false} AirAppend(a: seq<Copy>, b: seq<Copy>, d: nat)
    ensures AirWeight(a + b, d) == AirWeight(a, d) + AirWeight(b, d)
  {
    if a == [] {
      assert a + b == b;
    } else {
      assert (a + b)[1..] == a[1..] + b;
      AirAppend(a[1..], b, d);
    }
  }

  lemma {:induction false} PendingAppend(a: seq<Relay>, b: seq<Relay>, d: nat)
    ensures PendingWeight(a + b, d) == PendingWeight(a, d) + PendingWeight(b, d)
  {
    if a == [] {
      assert a + b == b;
    } else {
      assert (a + b)[1..] == a[1..] + b;
      PendingAppend(a[1..], b, d);
    }
  }

  lemma AirRemove(air: seq<Copy>, k: nat, d: nat)
    requires k < |air|
    ensures AirWeight(air, d) == CopyWeight(air[k].frame.hop, d) + AirWeight(RemoveAt(air, k), d)
  {
    assert air == air[..k] + ([air[k]] + air[k + 1..]);
    AirAppend(air[..k], [air[k]] + air[k + 1..], d);
    AirAppend(air[..k], air[k + 1..], d);
  }

  lemma PendingRemove(pending: seq<Relay>, k: nat, d: nat)
    requires k < |pending|
    ensures PendingWeight(pending, d) ==
            RelayWeight(Top(pending[k].what.frame.hop), d) + PendingWeight(RemoveAt(pending, k), d)
  {
    assert pending == pending[..k] + ([pending[k]] + pending[k + 1..]);
    PendingAppend(pending[..k], [pending[k]] + pending[k + 1..], d);
    PendingAppend(pending[..k], pending[k + 1..], d);
  }

  /** A broadcast to `to` weighs less than the deferred entry it came from. */
  lemma {:induction false} BroadcastWeight(r: Relay, to: seq<Node>, d: nat)
    ensures AirWeight(OnAir(r, to), d) <= |to| * CopyWeight(Top(r.what.frame.hop), d)
  {
    hide CopyWeight, RelayWeight, Top;
    if to != [] {
      var rest, h := to[1..], r.what.frame.hop;
      OnAirHead(r, to);
      BroadcastWeight(r, rest, d);
      WeightMono(h % 256, Top(h), d);
      OneMoreWeight(|rest|, CopyWeight(Top(h), d));
    }
  }

  lemma OnAirHead(r: Relay, to: seq<Node>)
    requires to != []
    ensures OnAir(r, to) != [] && OnAir(r, to)[0].frame.hop == r.what.frame.hop % 256
    ensures OnAir(r, to)[1..] == OnAir(r, to[1..])
  {
  }

  lemma OneMoreWeight(n: nat, w: nat)
    ensures (n + 1) * w == n * w + w
  {
  }

  /**
    A ttl at which what a node relays goes out with a lower hop count than it came in with, or with one that
    nobody relays.
  */
  predicate Damped(ttl: int) {
    ttl >= 1 || (ttl - 1) % 256 <= 1
  }

  ghost predicate TtlsDamped(net: Net) {
    forall n :: n in net.nodes ==> Damped(net.nodes[n].ttl)
  }

  predicate AfterLastSend(ev: Event, d: nat) {
    !ev.Send? && (ev.Fire? ==> |ev.peers| <= d)
  }

  lemma BroadcastFits(r: Relay, to: seq<Node>, d: nat)
    requires |to| <= d
    ensures AirWeight(OnAir(r, to), d) < RelayWeight(Top(r.what.frame.hop), d)
  {
    hide Top;
    var w := CopyWeight(Top(r.what.frame.hop), d);
    BroadcastWeight(r, to, d);
    Grows(w, |to|, d);
    assert |to| * w == w * |to| && d * w == w * d;
  }

  lemma FireDecreases(net: Net, k: nat, peers: seq<Node>, d: nat)
    requires k < |net.pending| && |peers| <= d
    ensures Potential(Step(net, Fire(k, peers)), d) < Potential(net, d)
  {
    var r := net.pending[k];
    var to := Targets(r.what, peers);
    PendingRemove(net.pending, k, d);
    AirAppend(net.air, OnAir(r, to), d);
    BroadcastFits(r, to, d);
  }

  lemma RelayTop(h: int, ttl: int)
    requires h > 1 && Damped(ttl)
    ensures Top(Min(h, ttl) - 1) <= h - 1
  {
  }

  lemma DeliverDecreases(net: Net, k: nat, d: nat)
    requires k < |net.air| && TtlsDamped(net)
    ensures Potential(Step(net, Deliver(k)), d) < Potential(net, d)
  {
    hide Top, Damped, RelayWeight;
    var c := net.air[k];
    AirRemove(net.air, k, d);
    if c.to in net.nodes {
      var ds := Receive(net.nodes[c.to], c.from, c.frame).1;
      PendingAppend(net.pending, Queued(c.to, ds), d);
      if ds != [] {
        RelayTop(c.frame.hop, net.nodes[c.to].ttl);
        WeightMono(Top(ds[0].frame.hop), c.frame.hop - 1, d);
        assert Queued(c.to, ds) == [Relay(c.to, ds[0])];
        OneRelay(Relay(c.to, ds[0]), d);
      }
    }
  }

  lemma OneRelay(r: Relay, d: nat)
    ensures PendingWeight([r], d) == RelayWeight(Top(r.what.frame.hop), d)
  {
    hide RelayWeight, Top;
  }

  lemma StepDecreases(net: Net, ev: Event, d: nat)
    requires Enabled(net, ev) && TtlsDamped(net) && AfterLastSend(ev, d)
    ensures Potential(Step(net, ev), d) < Potential(net, d)
  {
    match ev
    case Fire(k, peers) => FireDecreases(net, k, peers, d);
    case Deliver(k) => DeliverDecreases(net, k, d);
    case Lose(k) => AirRemove(net.air, k, d);
  }

  lemma StepKeepsDamped(net: Net, ev: Event)
    requires Enabled(net, ev) && TtlsDamped(net)
    ensures TtlsDamped(Step(net, ev))
  {
    hide Step, Damped;
    StepKeepsTtl(net, ev);
  }

  /**
    Termination: once nothing more is sent, a run has at most `Potential` steps, whatever is under way, whatever
    the order of deliveries, losses, changing neighbour lists of at most `d` entries and evictions.
  */
  lemma {:induction false} FloodTerminates(net: Net, run: seq<Event>, d: nat)
    requires TtlsDamped(net)
    requires Feasible(net, run)
    requires forall ev :: ev in run ==> AfterLastSend(ev, d)
    ensures |run| <= Potential(net, d)
    decreases |run|
  {
    hide Step, TtlsDamped, Potential, AfterLastSend;
    if run != [] {
      StepDecreases(net, run[0], d);
      StepKeepsDamped(net, run[0]);
      assert run[0] in run;
      FloodTerminates(Step(net, run[0]), run[1..], d);
    }
  }

  /** No deferred broadcast has a negative hop count. */
  ghost predicate HopsNatural(net: Net) {
    forall r :: r in net.pending ==> 0 <= r.what.frame.hop
  }

  lemma StepKeepsHops(net: Net, ev: Event)
    requires Enabled(net, ev) && TtlAtLeastOne(net) && HopsNatural(net)
    ensures TtlAtLeastOne(Step(net, ev)) && HopsNatural(Step(net, ev))
  {
    StepKeepsTtl(net, ev);
  }

  /** With ttls of at least 1 none ever gets one, sends included. */
  lemma {:induction false} HopsStayNatural(net: Net, run: seq<Event>)
    requires TtlAtLeastOne(net) && HopsNatural(net) && Feasible(net, run)
    ensures TtlAtLeastOne(Run(net, run)) && HopsNatural(Run(net, run))
    decreases |run|
  {
    if run != [] {
      StepKeepsHops(net, run[0]);
      HopsStayNatural(Step(net, run[0]), run[1..]);
    }
  }
}
