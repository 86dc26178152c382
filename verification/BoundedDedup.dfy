/**
  The bounded recently-seen set, which the repository implements three times: the BLE gossip's
  `SeenSet`, `MultiBearer::ingest` and `ShroomsMeshImpl::received`. All three are proved against one
  specification: an id is accepted iff it is not among the last `cap` accepted ids.
*/
module BoundedDedup {
  import opened Prelude

  function LastN<T>(s: seq<T>, n: nat): (r: seq<T>)
    ensures |r| <= n && |r| <= |s|
  {
    if |s| <= n then s else s[|s| - n..]
  }

  /** `id` is not among the last `cap` accepted ids. */
  ghost predicate Fresh<T(!new)>(accepted: seq<T>, cap: nat, id: T) {
    forall q :: 0 <= q < |accepted| && |accepted| - cap <= q ==> accepted[q] != id
  }

  /** The ids accepted, in order, out of the first `n` arrivals. */
  ghost function Accepted<T(!new)>(arrivals: seq<T>, cap: nat, n: nat): seq<T>
    requires n <= |arrivals|
  {
    if n == 0 then []
    else
      var before := Accepted(arrivals, cap, n - 1);
      if Fresh(before, cap, arrivals[n - 1]) then before + [arrivals[n - 1]] else before
  }

  /** The representation all three keep: a queue holding the window and a set holding the queue. */
  ghost predicate Represents<T(!new)>(ids: set<T>, order: seq<T>, accepted: seq<T>, cap: nat) {
    && order == LastN(accepted, cap)
    && (forall x :: x in ids <==> x in order)
    && NoDup(order)
  }

  lemma InWindow<T(!new)>(s: seq<T>, n: nat, x: T)
    ensures x in LastN(s, n) <==> !Fresh(s, n, x)
  {
    var w := LastN(s, n);
    forall q | 0 <= q < |s| && |s| - n <= q ensures s[q] in w {
      assert s[q] == w[q - (|s| - |w|)];
    }
    if x in w {
      var k :| 0 <= k < |w| && w[k] == x;
      assert s[|s| - |w| + k] == x;
    }
  }

  /** How the window moves when one more id is accepted. */
  lemma PushWindow<T(!new)>(s: seq<T>, n: nat, x: T)
    ensures LastN(s + [x], n) == if |s| < n then LastN(s, n) + [x] else (LastN(s, n) + [x])[1..]
  {
  }

  /** Dropping the oldest entry of a repetition-free queue removes exactly that id. */
  lemma DropOldest<T(!new)>(order: seq<T>)
    requires order != [] && NoDup(order)
    ensures NoDup(order[1..])
    ensures forall x :: x in order[1..] <==> x in order && x != order[0]
  {
    assert order == [order[0]] + order[1..];
  }

  // ---- the three implementations ----

  /** `ble_mesh/src/mesh.hpp`: `add` pushes first and evicts when the queue has outgrown `cap`. */
  class SeenSet<T(!new, ==)> {
    const cap: nat
    var ids: set<T>
    var order: seq<T>
    ghost var accepted: seq<T>

    ghost predicate Valid()
      reads this
    {
      Represents(ids, order, accepted, cap)
    }

    constructor (cap: nat)
      ensures Valid() && this.cap == cap && accepted == []
    {
      this.cap := cap;
      ids, order, accepted := {}, [], [];
    }

    predicate Has(id: T)
      requires Valid()
      reads this
      ensures Has(id) <==> !Fresh(accepted, cap, id)
      ensures Has(id) <==> id in order
    {
      InWindow(accepted, cap, id);
      id in ids
    }

    method Add(id: T)
      requires Valid()
      modifies this
      ensures Valid()
      ensures accepted == if old(Fresh(accepted, cap, id)) then old(accepted) + [id] else old(accepted)
    {
      InWindow(accepted, cap, id);
      if id in ids {
        return;
      }
      ids := ids + {id};
      order := order + [id];
      PushWindow(accepted, cap, id);
      assert NoDup(order);
      if |order| > cap {
        DropOldest(order);
        ids := ids - {order[0]};
        order := order[1..];
      }
      accepted := accepted + [id];
    }
  }

  /** `core/src/multibearer.hpp`: `ingest` makes room first, then pushes. */
  class MultiBearerDedup<T(!new, ==)> {
    const seenMax: nat
    var seen: set<T>
    var seenOrder: seq<T>
    ghost var accepted: seq<T>

    ghost predicate Valid()
      reads this
    {
      1 <= seenMax && Represents(seen, seenOrder, accepted, seenMax)
    }

    constructor (seenMax: nat)
      requires 1 <= seenMax
      ensures Valid() && this.seenMax == seenMax && accepted == []
    {
      this.seenMax := seenMax;
      seen, seenOrder, accepted := {}, [], [];
    }

    /** `delivered` tells whether `onReceived` is called for this frame. */
    method Ingest(id: T) returns (delivered: bool)
      requires Valid()
      modifies this
      ensures Valid()
      ensures delivered <==> old(Fresh(accepted, seenMax, id))
      ensures accepted == if delivered then old(accepted) + [id] else old(accepted)
    {
      InWindow(accepted, seenMax, id);
      if id in seen {
        return false;
      }
      PushWindow(accepted, seenMax, id);
      seen := seen + {id};
      if |seenOrder| >= seenMax {
        DropOldest(seenOrder);
        seen := seen - {seenOrder[0]};
        seenOrder := seenOrder[1..];
      }
      seenOrder := seenOrder + [id];
      accepted := accepted + [id];
      return true;
    }
  }

  /** `shrooms_mesh/src/shrooms_mesh_impl.cpp`: `received` pushes, then evicts in a loop. */
  class ShroomsDedup<T(!new, ==)> {
    const limit: nat
    var seen: set<T>
    var seenOrder: seq<T>
    var rx: nat
    ghost var accepted: seq<T>

    ghost predicate Valid()
      reads this
    {
      Represents(seen, seenOrder, accepted, limit) && rx == |accepted|
    }

    constructor (limit: nat)
      ensures Valid() && this.limit == limit && accepted == []
    {
      this.limit := limit;
      seen, seenOrder, rx, accepted := {}, [], 0, [];
    }

    method Received(id: T) returns (delivered: bool)
      requires Valid()
      modifies this
      ensures Valid()
      ensures delivered <==> old(Fresh(accepted, limit, id))
      ensures accepted == if delivered then old(accepted) + [id] else old(accepted)
    {
      InWindow(accepted, limit, id);
      if id in seen {
        return false;
      }
      PushWindow(accepted, limit, id);
      ghost var target := LastN(accepted + [id], limit);
      seen := seen + {id};
      seenOrder := seenOrder + [id];
      while |seenOrder| > limit
        invariant seenOrder == target || (|seenOrder| == limit + 1 && seenOrder[1..] == target)
        invariant forall x :: x in seen <==> x in seenOrder
        invariant NoDup(seenOrder)
        invariant accepted == old(accepted) && rx == old(rx)
      {
        DropOldest(seenOrder);
        seen := seen - {seenOrder[0]};
        seenOrder := seenOrder[1..];
      }
      accepted := accepted + [id];
      rx := rx + 1;
      return true;
    }
  }

  // ---- what the specification promises ----

  lemma {:induction false} AcceptedPrefix<T(!new)>(arrivals: seq<T>, cap: nat, i: nat, j: nat)
    requires i <= j <= |arrivals|
    ensures Accepted(arrivals, cap, i) <= Accepted(arrivals, cap, j)
    decreases j - i
  {
    if i < j {
      AcceptedPrefix(arrivals, cap, i, j - 1);
    }
  }

  /** Equal ids in the accepted stream are more than `cap` accepted frames apart. */
  lemma {:induction false} AcceptedAreSpaced<T(!new)>(arrivals: seq<T>, cap: nat, n: nat, p: nat, q: nat)
    requires n <= |arrivals| && p < q < |Accepted(arrivals, cap, n)|
    requires Accepted(arrivals, cap, n)[p] == Accepted(arrivals, cap, n)[q]
    ensures q - p > cap
    decreases n
  {
    var before := Accepted(arrivals, cap, n - 1);
    if q < |before| {
      AcceptedAreSpaced(arrivals, cap, n - 1, p, q);
    }
  }

  /** Whether an id is still in the window depends only on how far back its last acceptance lies. */
  lemma FreshIffOld<T(!new)>(a: seq<T>, cap: nat, p: nat)
    requires p < |a|
    requires forall q :: p < q < |a| ==> a[q] != a[p]
    ensures Fresh(a, cap, a[p]) <==> |a| - p - 1 >= cap
  {
  }

  /**
    The bounded window decides exactly: after the arrival at `i` was accepted (and its id not accepted
    again in between), a copy arriving at `j` is dropped iff fewer than `cap` other frames were accepted
    in the meantime.
  */
  lemma DroppedIffFewIntervene<T(!new)>(arrivals: seq<T>, cap: nat, i: nat, j: nat)
    requires i < j < |arrivals| && arrivals[i] == arrivals[j]
    requires |Accepted(arrivals, cap, i + 1)| == |Accepted(arrivals, cap, i)| + 1
    requires forall q :: |Accepted(arrivals, cap, i + 1)| <= q < |Accepted(arrivals, cap, j)|
               ==> Accepted(arrivals, cap, j)[q] != arrivals[j]
    ensures Accepted(arrivals, cap, j + 1) == Accepted(arrivals, cap, j)
       <==> |Accepted(arrivals, cap, j)| - |Accepted(arrivals, cap, i + 1)| < cap
  {
    var a, p := Accepted(arrivals, cap, j), |Accepted(arrivals, cap, i)|;
    AcceptedPrefix(arrivals, cap, i + 1, j);
    assert a[p] == arrivals[j];
    FreshIffOld(a, cap, p);
  }
}
