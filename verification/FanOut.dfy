/**
  Fan-out over the bearers (`core/src/multibearer.hpp`): every enabled bearer gets a frame once, in order of
  priority, and an application may set that order by name.
*/
module FanOut {
  import opened Prelude

  datatype Bearer = Bearer(name: string, enabled: bool, priority: int)

  // ---- the stable order ----

  /** Bearers are named by the position they were added at. */
  predicate Before(bs: seq<Bearer>, i: nat, j: nat)
    requires i < |bs| && j < |bs|
  {
    bs[i].priority < bs[j].priority || (bs[i].priority == bs[j].priority && i < j)
  }

  ghost predicate Ascending(bs: seq<Bearer>, o: seq<nat>) {
    && (forall a :: 0 <= a < |o| ==> o[a] < |bs|)
    && (forall a, b :: 0 <= a < b < |o| ==> Before(bs, o[a], o[b]))
  }

  /** All bearers, sorted by priority, those of equal priority in the order they were added. */
  ghost predicate StableOrder(bs: seq<Bearer>, o: seq<nat>) {
    Ascending(bs, o) && forall i: nat :: i < |bs| ==> i in o
  }

  /** Bearer `i`, added after all of `o`, goes behind the last one that has no greater priority. */
  function Insert(bs: seq<Bearer>, o: seq<nat>, i: nat): (r: seq<nat>)
    requires i < |bs| && forall x :: x in o ==> x < |bs|
    ensures forall x :: x in r <==> x in o || x == i
  {
    if o == [] then [i]
    else
      var front, last := o[..|o| - 1], o[|o| - 1];
      assert last in o && o == front + [last];
      assert forall x :: x in front ==> x in o;
      if bs[last].priority <= bs[i].priority then o + [i] else Insert(bs, front, i) + [last]
  }

  lemma AppendAscends(bs: seq<Bearer>, o: seq<nat>, x: nat)
    requires Ascending(bs, o) && x < |bs|
    requires forall y :: y in o && y < |bs| ==> Before(bs, y, x)
    ensures Ascending(bs, o + [x])
  {
    forall a | 0 <= a < |o| ensures Before(bs, o[a], x) {
      assert o[a] in o;
    }
  }

  lemma AllBefore(bs: seq<Bearer>, front: seq<nat>, last: nat)
    requires Ascending(bs, front + [last])
    ensures Ascending(bs, front) && last < |bs|
    ensures forall y :: y in front ==> y < |bs| && Before(bs, y, last)
    ensures forall y :: y in front <==> y in front + [last] && y != last
  {
    var o := front + [last];
    assert o[|front|] == last;
    forall a | 0 <= a < |front| ensures o[a] == front[a] && Before(bs, front[a], last) {
      assert Before(bs, o[a], o[|front|]);
    }
    assert forall a, b :: 0 <= a < b < |front| ==> Before(bs, o[a], o[b]);
  }

  lemma {:induction false} InsertAscends(bs: seq<Bearer>, o: seq<nat>, i: nat)
    requires Ascending(bs, o) && i < |bs| && forall x :: x in o ==> x < i
    ensures Ascending(bs, Insert(bs, o, i))
    decreases |o|
  {
    if o == [] {
      assert [] + [i] == [i];
    } else {
      var front, last := o[..|o| - 1], o[|o| - 1];
      assert o == front + [last];
      AllBefore(bs, front, last);
      if bs[last].priority > bs[i].priority {
        InsertAscends(bs, front, i);
        AppendAscends(bs, Insert(bs, front, i), last);
      } else {
        AppendAscends(bs, o, i);
      }
    }
  }

  /** The first `n` bearers in stable order. */
  function Sorted(bs: seq<Bearer>, n: nat): (o: seq<nat>)
    requires n <= |bs|
    ensures forall x :: x in o <==> 0 <= x < n
  {
    if n == 0 then [] else Insert(bs, Sorted(bs, n - 1), n - 1)
  }

  lemma {:induction false} SortedAscends(bs: seq<Bearer>, n: nat)
    requires n <= |bs|
    ensures Ascending(bs, Sorted(bs, n))
  {
    if n > 0 {
      SortedAscends(bs, n - 1);
      InsertAscends(bs, Sorted(bs, n - 1), n - 1);
    }
  }

  /** `ordered`. */
  function Ordered(bs: seq<Bearer>): (o: seq<nat>)
    ensures StableOrder(bs, o)
  {
    SortedAscends(bs, |bs|);
    Sorted(bs, |bs|)
  }

  lemma AscendingNoDup(bs: seq<Bearer>, o: seq<nat>)
    requires Ascending(bs, o)
    ensures NoDup(o)
  {
    forall a, b | 0 <= a < b < |o| ensures o[a] != o[b] {
      assert Before(bs, o[a], o[b]);
    }
  }

  /** The last of two ascending lists with the same members is the same. */
  lemma SameLast(bs: seq<Bearer>, o: seq<nat>, p: seq<nat>)
    requires Ascending(bs, o) && Ascending(bs, p) && o != [] && p != []
    requires forall x :: x in o <==> x in p
    ensures o[|o| - 1] == p[|p| - 1]
  {
    var x, y := o[|o| - 1], p[|p| - 1];
    assert x in p && y in o;
    var a :| 0 <= a < |p| && p[a] == x;
    var b :| 0 <= b < |o| && o[b] == y;
    assert a < |p| - 1 ==> Before(bs, x, y);
    assert b < |o| - 1 ==> Before(bs, y, x);
  }

  lemma {:induction false} SameMembersSameOrder(bs: seq<Bearer>, o: seq<nat>, p: seq<nat>)
    requires Ascending(bs, o) && Ascending(bs, p)
    requires forall x :: x in o <==> x in p
    ensures o == p
    decreases |o|
  {
    hide Ascending;
    if o == [] {
      HasFirst(p);
    } else {
      assert o[0] in p;
      SameLast(bs, o, p);
      var o', p', x := o[..|o| - 1], p[..|p| - 1], o[|o| - 1];
      assert o == o' + [x] && p == p' + [x];
      AllBefore(bs, o', x);
      AllBefore(bs, p', x);
      SameMembersSameOrder(bs, o', p');
    }
  }

  /** There is one stable order, so any stable sort finds the same. */
  lemma StableOrderIsUnique(bs: seq<Bearer>, o: seq<nat>)
    requires StableOrder(bs, o)
    ensures o == Ordered(bs)
  {
    var p := Ordered(bs);
    forall x ensures x in o <==> x in p {
    }
    SameMembersSameOrder(bs, o, p);
  }

  // ---- sending ----

  function Enabled(bs: seq<Bearer>, o: seq<nat>): seq<nat>
    requires forall a :: 0 <= a < |o| ==> o[a] < |bs|
  {
    if o == [] then []
    else Enabled(bs, o[..|o| - 1]) + if bs[o[|o| - 1]].enabled then [o[|o| - 1]] else []
  }

  /** The bearers a frame is sent over, in the order of the calls. */
  function Fanned(bs: seq<Bearer>): seq<nat> {
    Enabled(bs, Ordered(bs))
  }

  lemma {:induction false} EnabledKeepsOrder(bs: seq<Bearer>, o: seq<nat>)
    requires Ascending(bs, o)
    ensures Ascending(bs, Enabled(bs, o))
    ensures forall i :: i in Enabled(bs, o) <==> i in o && bs[i].enabled
    decreases |o|
  {
    if o != [] {
      var front, last := o[..|o| - 1], o[|o| - 1];
      assert o == front + [last];
      AllBefore(bs, front, last);
      EnabledKeepsOrder(bs, front);
      if bs[last].enabled {
        AppendAscends(bs, Enabled(bs, front), last);
      } else {
        assert Enabled(bs, front) + [] == Enabled(bs, front);
      }
    }
  }

  /** Every enabled bearer is called exactly once, no other is, and never one before another of better priority. */
  lemma FanOutReachesEachOnce(bs: seq<Bearer>)
    ensures forall i :: i in Fanned(bs) <==> 0 <= i < |bs| && bs[i].enabled
    ensures NoDup(Fanned(bs)) && Ascending(bs, Fanned(bs))
  {
    hide Sorted;
    var o := Ordered(bs);
    EnabledKeepsOrder(bs, o);
    AscendingNoDup(bs, Fanned(bs));
    forall i | i in o ensures i < |bs| {
    }
  }

  // ---- setting the order ----

  function Names(bs: seq<Bearer>): seq<string> {
    seq(|bs|, i requires 0 <= i < |bs| => bs[i].name)
  }

  function NamesAt(bs: seq<Bearer>, o: seq<nat>): seq<string>
    requires forall a :: 0 <= a < |o| ==> o[a] < |bs|
  {
    seq(|o|, a requires 0 <= a < |o| => bs[o[a]].name)
  }

  /** `byName`: the first bearer of that name. */
  function ByName(bs: seq<Bearer>, n: string): (i: Option<nat>)
    ensures i.None? ==> n !in Names(bs)
    ensures i.Some? ==> i.value < |bs| && bs[i.value].name == n && n !in Names(bs)[..i.value]
  {
    if bs == [] then None
    else if bs[0].name == n then Some(0)
    else
      var r := ByName(bs[1..], n);
      assert Names(bs)[1..] == Names(bs[1..]);
      assert Names(bs) == [bs[0].name] + Names(bs[1..]);
      if r.None? then None
      else
        assert Names(bs)[..r.value + 1] == [bs[0].name] + Names(bs[1..])[..r.value];
        Some(r.value + 1)
  }

  function SetPriority(bs: seq<Bearer>, n: string, p: int): seq<Bearer> {
    var i := ByName(bs, n);
    if i.None? then bs else bs[i.value := bs[i.value].(priority := p)]
  }

  /** The first `n` names of the order get the priorities 0 .. n - 1; unknown names are passed over. */
  function Reordered(bs: seq<Bearer>, order: seq<string>, n: nat): (r: seq<Bearer>)
    requires n <= |order|
    ensures Names(r) == Names(bs)
    ensures forall i :: 0 <= i < |bs| ==> r[i] == bs[i].(priority := r[i].priority)
  {
    if n == 0 then bs else SetPriority(Reordered(bs, order, n - 1), order[n - 1], n - 1)
  }

  class MultiBearer {
    var bearers: seq<Bearer>

    constructor ()
      ensures bearers == []
    {
      bearers := [];
    }

    method Add(b: Bearer)
      modifies this
      ensures bearers == old(bearers) + [b]
    {
      bearers := bearers + [b];
    }

    /** `to` lists the calls of the bearers' `send`. */
    method SendSealed() returns (to: seq<nat>)
      ensures to == Fanned(bearers)
    {
      var o := Ordered(bearers);
      to := [];
      for k := 0 to |o|
        invariant to == Enabled(bearers, o[..k])
      {
        assert o[..k + 1][..k] == o[..k];
        if bearers[o[k]].enabled {
          to := to + [o[k]];
        }
      }
      assert o[..|o|] == o;
    }

    method SetPriorityOrder(order: seq<string>)
      modifies this
      ensures bearers == Reordered(old(bearers), order, |order|)
    {
      for i := 0 to |order|
        invariant bearers == Reordered(old(bearers), order, i)
      {
        var b := ByName(bearers, order[i]);
        if b.Some? {
          bearers := bearers[b.value := bearers[b.value].(priority := i)];
        }
      }
    }
  }

  /** The last of the first `n` places of the list that hold a name. */
  predicate LastPlace(order: seq<string>, n: nat, name: string, k: nat)
    requires n <= |order|
  {
    k < n && order[k] == name && forall j :: k < j < n ==> order[j] != name
  }

  /** What setting one priority does to bearer `i`. */
  lemma SetOne(bs: seq<Bearer>, name: string, p: int, i: nat)
    requires i < |bs|
    ensures |SetPriority(bs, name, p)| == |bs|
    ensures SetPriority(bs, name, p)[i].priority ==
            if name == bs[i].name && name !in Names(bs)[..i] then p else bs[i].priority
  {
    var b := ByName(bs, name);
    assert Names(bs)[i] == bs[i].name;
    if b.Some? && b.value < i {
      assert Names(bs)[..i][b.value] == name;
    } else if b.Some? && i < b.value {
      assert Names(bs)[..b.value][i] == bs[i].name;
    }
  }

  /**
    For any bearers and any list: of several bearers of one name the first is meant, of several places in the list
    the last counts, and a bearer that is not meant keeps its priority.
  */
  lemma {:induction false} PriorityIs(bs: seq<Bearer>, order: seq<string>, n: nat, i: nat)
    requires n <= |order| && i < |bs|
    ensures var r := Reordered(bs, order, n)[i].priority;
            && ((bs[i].name in Names(bs)[..i] || forall k :: 0 <= k < n ==> order[k] != bs[i].name) ==>
                  r == bs[i].priority)
            && (forall k: nat :: bs[i].name !in Names(bs)[..i] && LastPlace(order, n, bs[i].name, k) ==> r == k)
    decreases n
  {
    hide ByName, SetPriority;
    if n > 0 {
      var before := Reordered(bs, order, n - 1);
      PriorityIs(bs, order, n - 1, i);
      assert Names(before) == Names(bs) && before[i].name == bs[i].name;
      SetOne(before, order[n - 1], n - 1, i);
      forall k: nat | bs[i].name !in Names(bs)[..i] && LastPlace(order, n, bs[i].name, k)
        ensures Reordered(bs, order, n)[i].priority == k
      {
        assert k < n - 1 ==> order[n - 1] != bs[i].name && LastPlace(order, n - 1, bs[i].name, k);
      }
    }
  }

  /** A name listed once gets its place in the list as priority. */
  lemma ListedPriority(bs: seq<Bearer>, order: seq<string>, n: nat, k: nat, i: nat)
    requires NoDup(Names(bs)) && NoDup(order) && k < n <= |order| && i < |bs| && bs[i].name == order[k]
    ensures Reordered(bs, order, n)[i].priority == k
  {
    hide Reordered;
    PriorityIs(bs, order, n, i);
    assert Names(bs)[i] == bs[i].name;
    assert LastPlace(order, n, bs[i].name, k);
  }

  /** The bearers in the order of a list of their names. */
  function Places(bs: seq<Bearer>, order: seq<string>): (o: seq<nat>)
    requires forall n :: n in order ==> n in Names(bs)
    ensures |o| == |order| && forall a :: 0 <= a < |o| ==> o[a] < |bs| && bs[o[a]].name == order[a]
  {
    seq(|order|, a requires 0 <= a < |order| => assert order[a] in order; ByName(bs, order[a]).value)
  }

  lemma PlacesAreStable(bs: seq<Bearer>, order: seq<string>)
    requires NoDup(Names(bs)) && NoDup(order) && forall n :: n in order <==> n in Names(bs)
    ensures StableOrder(Reordered(bs, order, |order|), Places(bs, order))
  {
    hide ByName, Reordered;
    var r, o := Reordered(bs, order, |order|), Places(bs, order);
    assert |Names(r)| == |Names(bs)|;
    forall a | 0 <= a < |o| ensures r[o[a]].priority == a {
      ListedPriority(bs, order, |order|, a, o[a]);
    }
    forall i: nat | i < |r| ensures i in o {
      assert Names(bs)[i] in order;
      var a :| 0 <= a < |order| && order[a] == Names(bs)[i];
      assert Names(bs)[o[a]] == Names(bs)[i];
      assert o[a] == i;
    }
  }

  /** Among bearers with different names, the order set is the order found iff it lists every name once. */
  lemma OrderSticksIff(bs: seq<Bearer>, order: seq<string>)
    requires NoDup(Names(bs))
    ensures var r := Reordered(bs, order, |order|);
            NamesAt(r, Ordered(r)) == order <==> NoDup(order) && forall n :: n in order <==> n in Names(bs)
  {
    hide ByName, Reordered, Sorted;
    var r := Reordered(bs, order, |order|);
    var o := Ordered(r);
    assert Names(r) == Names(bs);
    if NoDup(order) && forall n :: n in order <==> n in Names(bs) {
      PlacesAreStable(bs, order);
      StableOrderIsUnique(r, Places(bs, order));
      SameNames(r, bs, o, order);
    }
    OrderListsNames(r);
  }

  lemma SameNames(r: seq<Bearer>, bs: seq<Bearer>, o: seq<nat>, order: seq<string>)
    requires Names(r) == Names(bs) && |o| == |order|
    requires forall a :: 0 <= a < |o| ==> o[a] < |bs| && bs[o[a]].name == order[a]
    requires |r| == |bs|
    ensures NamesAt(r, o) == order
  {
    forall a | 0 <= a < |o| ensures NamesAt(r, o)[a] == order[a] {
      assert Names(r)[o[a]] == Names(bs)[o[a]];
    }
  }

  lemma OrderListsNames(r: seq<Bearer>)
    requires NoDup(Names(r))
    ensures var names := NamesAt(r, Ordered(r)); NoDup(names) && forall n :: n in names <==> n in Names(r)
  {
    hide Sorted;
    var o := Ordered(r);
    var names := NamesAt(r, o);
    AscendingNoDup(r, o);
    forall a, b | 0 <= a < b < |o| ensures names[a] != names[b] {
      assert Names(r)[o[a]] != Names(r)[o[b]];
    }
    forall n | n in Names(r) ensures n in names {
      var i :| 0 <= i < |r| && Names(r)[i] == n;
      assert i in o;
      var a :| 0 <= a < |o| && o[a] == i;
      assert names[a] == n;
    }
    forall n | n in names ensures n in Names(r) {
      var a :| 0 <= a < |o| && names[a] == n;
      assert Names(r)[o[a]] == n;
    }
  }
}
