/**
  One node of the BLE flood gossip: what `BleMeshBearer` (`ble_mesh/src/mesh.hpp`) does with a frame it
  receives, a frame it originates, and a relay whose jitter delay has run out.
*/
module BleMesh {
  import opened Prelude
  import opened BoundedDedup
  import opened BleFrame

  /** Neighbour ids are strings in the source, which only ever compares them. */
  type Node = nat

  /** A broadcast waiting for its jitter delay: to every neighbour but `except`. */
  datatype Deferred = Deferred(except: Option<Node>, frame: Frame)

  /** `seen` is the queue of the seen-set, `delivered` every id handed to the consumer so far. */
  datatype NodeState = NodeState(ttl: int, cap: nat, seen: seq<FrameId>, delivered: seq<FrameId>)

  function Min(a: int, b: int): int {
    if a < b then a else b
  }

  function Max(a: int, b: int): int {
    if a < b then b else a
  }

  function Remember(st: NodeState, id: FrameId): NodeState {
    if id in st.seen then st else st.(seen := LastN(st.seen + [id], st.cap))
  }

  /** `onRadio` after decoding. */
  function Receive(st: NodeState, from: Node, f: Frame): (NodeState, seq<Deferred>) {
    if f.id in st.seen then (st, [])
    else
      var heard := Remember(st, f.id).(delivered := st.delivered + [f.id]);
      if f.hop > 1 then (heard, [Deferred(Some(from), Frame(f.id, Min(f.hop, st.ttl) - 1))])
      else (heard, [])
  }

  /** The hop counts a new frame may start at: `ttl - random(0 .. max(0, min(spread, ttl - 1)))`. */
  predicate OriginHop(ttl: int, spread: int, hop: int) {
    ttl - Max(0, Min(spread, ttl - 1)) <= hop <= ttl
  }

  /** The spread a bearer starts with. */
  const ORIGIN_SPREAD: int := 2

  /** With a ttl of 7 that gives the hop counts 5 to 7; a ttl of 1 leaves no choice. */
  lemma OriginHops(hop: int)
    ensures OriginHop(7, ORIGIN_SPREAD, hop) <==> 5 <= hop <= 7
    ensures OriginHop(2, ORIGIN_SPREAD, hop) <==> 1 <= hop <= 2
    ensures OriginHop(1, ORIGIN_SPREAD, hop) <==> hop == 1
  {
  }

  /** `send`. */
  function Originate(st: NodeState, f: Frame): (NodeState, seq<Deferred>) {
    if f.id in st.seen then (st, [])
    else (Remember(st, f.id), [Deferred(None, f)])
  }

  /** The neighbours a deferred broadcast goes to, in the radio's order. */
  function Targets(d: Deferred, peers: seq<Node>): (r: seq<Node>)
    ensures |r| <= |peers|
    ensures forall p :: p in r <==> p in peers && d.except != Some(p)
  {
    if peers == [] then []
    else (if d.except == Some(peers[0]) then [] else [peers[0]]) + Targets(d, peers[1..])
  }

  lemma {:induction false} TargetsAppend(d: Deferred, a: seq<Node>, p: Node)
    ensures Targets(d, a + [p]) == Targets(d, a) + (if d.except == Some(p) then [] else [p])
  {
    if a == [] {
      assert [] + [p] == [p];
    } else {
      assert (a + [p])[1..] == a[1..] + [p];
      TargetsAppend(d, a[1..], p);
    }
  }

  class BleMeshBearer {
    const ttl: int
    const seen: SeenSet<FrameId>
    var spread: int
    var deferred: seq<Deferred>
    var delivered: seq<FrameId>

    ghost predicate Valid()
      reads this, seen
    {
      seen.Valid()
    }

    ghost function State(): NodeState
      reads this, seen
    {
      NodeState(ttl, seen.cap, seen.order, delivered)
    }

    constructor (ttl: int, seenCap: nat)
      ensures Valid() && fresh(seen)
      ensures State() == NodeState(ttl, seenCap, [], []) && deferred == [] && spread == ORIGIN_SPREAD
    {
      this.ttl := ttl;
      seen := new SeenSet<FrameId>(seenCap);
      spread, deferred, delivered := ORIGIN_SPREAD, [], [];
    }

    method OnRadio(from: Node, bytes: seq<byte>)
      requires Valid()
      modifies this`deferred, this`delivered, seen
      ensures Valid()
      ensures match Decode(bytes)
              case None => State() == old(State()) && deferred == old(deferred)
              case Some(f) =>
                && State() == Receive(old(State()), from, f).0
                && deferred == old(deferred) + Receive(old(State()), from, f).1
    {
      var decoded := Decode(bytes);
      if decoded.None? {
        return;
      }
      var f := decoded.value;
      if seen.Has(f.id) {
        return;
      }
      PushWindow(seen.accepted, seen.cap, f.id);
      seen.Add(f.id);
      delivered := delivered + [f.id];
      if f.hop > 1 {
        f := f.(hop := Min(f.hop, ttl) - 1);
        deferred := deferred + [Deferred(Some(from), f)];
      }
    }

    /** `random` is what the random generator returned for the origin hop spread. */
    method Send(id: FrameId, random: int)
      requires Valid()
      requires 0 <= random <= Max(0, Min(spread, ttl - 1))
      modifies this`deferred, seen
      ensures Valid()
      ensures OriginHop(ttl, spread, ttl - random)
      ensures State() == Originate(old(State()), Frame(id, ttl - random)).0
      ensures deferred == old(deferred) + Originate(old(State()), Frame(id, ttl - random)).1
    {
      var f := Frame(id, ttl - random);
      if seen.Has(f.id) {
        return;
      }
      PushWindow(seen.accepted, seen.cap, f.id);
      seen.Add(f.id);
      deferred := deferred + [Deferred(None, f)];
    }

    /** A jitter timer fires: `broadcastExcept` over the neighbours connected at that moment. */
    method Fire(k: nat, peers: seq<Node>) returns (to: seq<Node>, bytes: seq<byte>)
      requires Valid() && k < |deferred|
      modifies this`deferred
      ensures Valid() && State() == old(State()) && deferred == RemoveAt(old(deferred), k)
      ensures to == Targets(old(deferred)[k], peers) && bytes == Encode(old(deferred)[k].frame)
    {
      hide Encode, RemoveAt, Targets;
      var d := deferred[k];
      deferred := RemoveAt(deferred, k);
      bytes := Encode(d.frame);
      to := [];
      for i := 0 to |peers|
        invariant to == Targets(d, peers[..i])
        invariant deferred == RemoveAt(old(deferred), k)
      {
        TargetsAppend(d, peers[..i], peers[i]);
        assert peers[..i + 1] == peers[..i] + [peers[i]];
        if d.except != Some(peers[i]) {
          to := to + [peers[i]];
        }
      }
      assert peers[..|peers|] == peers;
    }
  }

  /**
    A relay's wire hop is below the hop it was received with exactly when the node's ttl is at least 1.
    At ttl 0 the relayed count is -1 and goes out as 255.
  */
  lemma RelayShrinksIffTtl(ttl: nat, hop: int)
    requires 1 < hop < 256
    ensures (Min(hop, ttl) - 1) % 256 < hop <==> ttl >= 1
  {
  }
}
