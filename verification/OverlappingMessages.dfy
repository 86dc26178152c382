/**
  Two messages whose fragments arrive under one key (`ble_mesh/src/mesh_radio_qt.cpp`): both come through iff they
  do not overlap.
*/
module OverlappingMessages {
  import opened Prelude
  import opened Fragments
  import opened SharedKeys

  /** Two messages of two fragments each, taking turns: neither comes through, and an entry is left behind. */
  lemma TakingTurnsMixes()
    ensures KeyRun([Part(0, 2, [1]), Part(0, 2, [7]), Part(1, 2, [2]), Part(1, 2, [8])]) ==
            (Some(Entry(2, map[1 := [8]])), [[7, 2]])
  {
    hide Join;
    FourParts(Part(0, 2, [1]), Part(0, 2, [7]), Part(1, 2, [2]), Part(1, 2, [8]));
    var first: map<nat, seq<byte>> := map[][0 := [1]];
    var second: map<nat, seq<byte>> := first[0 := [7]];
    var third := second[1 := [2]];
    assert second.Keys == {0} && third.Keys == {0, 1};
    JoinPair(third, 7, 2, 256);
    var last: map<nat, seq<byte>> := map[][1 := [8]];
    assert last.Keys == {1} && last == map[1 := [8]];
    var out: seq<seq<byte>> := [[7, 2]];
    assert [] + [] + out + [] == out;
  }

  /** One fragment of one of two messages, the first (`who` = false) or the second. */
  datatype Owned = Owned(who: bool, idx: nat)

  /** Two messages under one key. */
  datatype Pair = Pair(a: Message, b: Message)

  function Which(pr: Pair, who: bool): Message {
    if who then pr.b else pr.a
  }

  function Count(pr: Pair, who: bool): nat {
    var m := Which(pr, who);
    if m.cap == 0 then 0 else Total(|m.bytes|, m.cap)
  }

  function OwnedPart(pr: Pair, x: Owned): Part {
    var m := Which(pr, x.who);
    if m.cap == 0 then Part(0, 0, []) else PartOf(m.bytes, m.cap, x.idx)
  }

  function OwnedParts(pr: Pair, xs: seq<Owned>): seq<Part> {
    seq(|xs|, i requires 0 <= i < |xs| => OwnedPart(pr, xs[i]))
  }

  /** Every fragment of both messages arrives exactly once. */
  ghost predicate ShuffledOnce(pr: Pair, xs: seq<Owned>) {
    && (forall x :: x in xs ==> x.idx < Count(pr, x.who))
    && (forall who, i: nat :: i < Count(pr, who) ==> Owned(who, i) in xs)
    && NoDup(xs)
  }

  /** All fragments of `first` arrive before any of the other message. */
  ghost predicate Before(xs: seq<Owned>, first: bool) {
    forall i, j :: 0 <= i < j < |xs| && xs[j].who == first ==> xs[i].who == first
  }

  /** Both messages are delivered, `first` before the other, and nothing is left behind. */
  ghost predicate BothDelivered(pr: Pair, xs: seq<Owned>, first: bool) {
    KeyRun(OwnedParts(pr, xs)) == (None, [Which(pr, first).bytes, Which(pr, !first).bytes])
  }

  ghost predicate PairSent(pr: Pair) {
    Sent(pr.a) && Sent(pr.b)
  }

  lemma CountBounds(pr: Pair, who: bool)
    requires PairSent(pr)
    ensures 1 <= Count(pr, who) <= 255 && Which(pr, who).cap > 0
    ensures Count(pr, who) == Total(|Which(pr, who).bytes|, Which(pr, who).cap)
  {
    hide Total;
    SentTotal(pr.a);
    SentTotal(pr.b);
  }

  // what a key holds before its first delivery

  /** The last part of every index. */
  ghost function Latest(ps: seq<Part>): map<nat, seq<byte>> {
    if ps == [] then map[] else Latest(ps[..|ps| - 1])[ps[|ps| - 1].idx := ps[|ps| - 1].data]
  }

  lemma LatestSnoc(ps: seq<Part>, p: Part)
    ensures Latest(ps + [p]) == Latest(ps)[p.idx := p.data]
  {
    assert (ps + [p])[..|ps|] == ps;
  }

  lemma {:induction false} HoldsLatest(ps: seq<Part>)
    requires KeyRun(ps).1 == []
    ensures KeyRun(ps).0 == if ps == [] then None else Some(Entry(ps[|ps| - 1].count, Latest(ps)))
    decreases |ps|
  {
    if ps == [] {
      NoParts(None);
    } else {
      hide KeyRunFrom, Join;
      var front, p := ps[..|ps| - 1], ps[|ps| - 1];
      assert ps == front + [p];
      KeyRunSnoc(None, front, p);
      LatestSnoc(front, p);
      HoldsLatest(front);
      NothingLatest();
    }
  }

  lemma NothingLatest()
    ensures Latest([]) == map[]
  {
  }

  /** A run that ends with its first delivery. */
  lemma FirstAtEnd(ps: seq<Part>)
    requires ps != [] && KeyRun(ps[..|ps| - 1]).1 == [] && KeyRun(ps).1 != []
    ensures KeyRun(ps) == (None, [Join(Latest(ps), 256)]) && |Latest(ps)| == ps[|ps| - 1].count
  {
    hide KeyRunFrom, Join;
    var front, p := ps[..|ps| - 1], ps[|ps| - 1];
    assert ps == front + [p];
    KeyRunSnoc(None, front, p);
    LatestSnoc(front, p);
    HoldsLatest(front);
    NothingLatest();
    var more := PartStep(KeyRun(front).0, p).1;
    assert [] + more == more;
  }

  lemma {:induction false} LatestComesFrom(ps: seq<Part>, i: nat)
    requires i in Latest(ps)
    ensures exists k :: 0 <= k < |ps| && ps[k].idx == i && ps[k].data == Latest(ps)[i]
    decreases |ps|
  {
    var front, p := ps[..|ps| - 1], ps[|ps| - 1];
    assert ps == front + [p];
    LatestSnoc(front, p);
    if i != p.idx {
      LatestComesFrom(front, i);
      var k :| 0 <= k < |front| && front[k].idx == i && front[k].data == Latest(front)[i];
      assert ps[k] == front[k];
    }
  }

  lemma {:induction false} JoinHolds(parts: map<nat, seq<byte>>, n: nat, i: nat, x: byte)
    requires i in parts && i < n && x in parts[i]
    ensures x in Join(parts, n)
  {
    if i < n - 1 {
      JoinHolds(parts, n - 1, i, x);
    }
  }

  // a delivery of one message is made of its own fragments

  ghost predicate NothingCommon(pr: Pair) {
    forall x :: x in pr.a.bytes ==> x !in pr.b.bytes
  }

  lemma PieceBytes(bytes: seq<byte>, cap: nat, i: nat)
    requires cap > 0 && i < Total(|bytes|, cap)
    ensures Piece(bytes, cap, i) != [] && forall x :: x in Piece(bytes, cap, i) ==> x in bytes
  {
    TotalBounds(|bytes|, cap);
    Times(i + 1, Total(|bytes|, cap), cap);
    assert (i + 1) * cap == i * cap + cap;
    hide Total;
    assert i * cap < |bytes|;
  }

  lemma OwnedFacts(pr: Pair, x: Owned)
    requires PairSent(pr) && x.idx < Count(pr, x.who)
    ensures var p := OwnedPart(pr, x);
            && p.idx == x.idx && p.count == Count(pr, x.who) && p.data != []
            && forall c :: c in p.data ==> c in Which(pr, x.who).bytes
  {
    hide Total, Piece;
    CountBounds(pr, x.who);
    PieceBytes(Which(pr, x.who).bytes, Which(pr, x.who).cap, x.idx);
  }

  /** If what is delivered is one of the messages, all its fragments are among the arrivals. */
  lemma OwnFragments(pr: Pair, xs: seq<Owned>, who: bool)
    requires PairSent(pr) && NothingCommon(pr) && forall x :: x in xs ==> x.idx < Count(pr, x.who)
    requires xs != [] && KeyRun(OwnedParts(pr, xs)[..|xs| - 1]).1 == []
    requires KeyRun(OwnedParts(pr, xs)) == (None, [Which(pr, who).bytes])
    ensures forall i: nat :: i < Count(pr, who) ==> Owned(who, i) in xs
  {
    hide KeyRunFrom, Join, Total, OwnedPart, Latest, Sent, Count, Which;
    var ps := OwnedParts(pr, xs);
    FirstAtEnd(ps);
    var parts := Latest(ps);
    forall i | i in parts ensures Owned(who, i) in xs && i < Count(pr, who) {
      LatestComesFrom(ps, i);
      var k :| 0 <= k < |ps| && ps[k].idx == i && ps[k].data == parts[i];
      assert xs[k] in xs;
      OwnedFacts(pr, xs[k]);
      CountBounds(pr, xs[k].who);
      var c := ps[k].data[0];
      assert c in ps[k].data;
      JoinHolds(parts, 256, i, c);
      SameOwner(pr, who, xs[k].who, c);
      assert xs[k] == Owned(who, i);
    }
    LastOwner(pr, xs, who, parts);
    AllKeys(parts, Count(pr, who));
  }

  lemma SameOwner(pr: Pair, u: bool, v: bool, c: byte)
    requires NothingCommon(pr) && c in Which(pr, u).bytes && c in Which(pr, v).bytes
    ensures u == v
  {
  }

  /** The last arrival is in the entry, so its count is that of the message delivered. */
  lemma LastOwner(pr: Pair, xs: seq<Owned>, who: bool, parts: map<nat, seq<byte>>)
    requires PairSent(pr) && NothingCommon(pr) && forall x :: x in xs ==> x.idx < Count(pr, x.who)
    requires xs != [] && parts == Latest(OwnedParts(pr, xs)) && Join(parts, 256) == Which(pr, who).bytes
    ensures OwnedParts(pr, xs)[|xs| - 1].count == Count(pr, who)
  {
    hide Join, Total, OwnedPart, Sent, Count, Which;
    var ps, x := OwnedParts(pr, xs), xs[|xs| - 1];
    var p := ps[|ps| - 1];
    assert x in xs;
    OwnedFacts(pr, x);
    CountBounds(pr, x.who);
    assert ps == ps[..|ps| - 1] + [p];
    LatestSnoc(ps[..|ps| - 1], p);
    assert p.idx in parts && parts[p.idx] == p.data;
    var c := p.data[0];
    assert c in p.data;
    JoinHolds(parts, 256, p.idx, c);
    SameOwner(pr, who, x.who, c);
  }

  lemma AllKeys(parts: map<nat, seq<byte>>, n: nat)
    requires |parts| == n && forall i :: i in parts ==> i < n
    ensures forall i: nat :: i < n ==> i in parts
  {
    Below(parts.Keys, n);
  }

  // two deliveries and nothing left

  /** A run that delivers twice and leaves nothing falls into two that deliver once, at their ends. */
  lemma TwoDeliveries(ps: seq<Part>, u: seq<byte>, v: seq<byte>) returns (j: nat)
    requires KeyRun(ps) == (None, [u, v])
    ensures 1 <= j < |ps| && KeyRun(ps[..j]) == (None, [u]) && KeyRun(ps[j..]) == (None, [v])
    ensures KeyRun(ps[..j - 1]).1 == [] && KeyRun(ps[j..][..|ps| - j - 1]).1 == []
  {
    hide KeyRunFrom;
    assert ps[..|ps|] == ps;
    j := FirstDelivery(None, ps, |ps|);
    assert ps == ps[..j] + ps[j..];
    KeyRunSplit(None, ps[..j], ps[j..]);
    var one, rest := KeyRun(ps[..j]).1, KeyRun(ps[j..]).1;
    assert one + rest == [u, v] && |one| == 1;
    assert one == [u] && rest == [v] by {
      assert (one + rest)[0] == one[0] && (one + rest)[1..] == rest;
    }
    NoParts(None);
    LastDelivers(ps[j..]);
  }

  lemma LastDelivers(ps: seq<Part>)
    requires KeyRun(ps).0 == None && |KeyRun(ps).1| == 1
    ensures ps != [] && KeyRun(ps[..|ps| - 1]).1 == []
  {
    NoParts(None);
    hide KeyRunFrom, PartStep;
    var front, p := ps[..|ps| - 1], ps[|ps| - 1];
    assert ps == front + [p];
    KeyRunSnoc(None, front, p);
    DeliveryEmpties(KeyRun(front).0, p);
  }

  lemma BothMeansBefore(pr: Pair, xs: seq<Owned>, first: bool)
    requires PairSent(pr) && NothingCommon(pr) && ShuffledOnce(pr, xs) && BothDelivered(pr, xs, first)
    ensures Before(xs, first)
  {
    hide KeyRunFrom, OwnedPart, PairSent, NothingCommon, Count, Which;
    var ps := OwnedParts(pr, xs);
    var j := TwoDeliveries(ps, Which(pr, first).bytes, Which(pr, !first).bytes);
    var head, tail := xs[..j], xs[j..];
    assert OwnedParts(pr, head) == ps[..j] && OwnedParts(pr, tail) == ps[j..];
    assert OwnedParts(pr, head)[..j - 1] == ps[..j - 1];
    SliceMembers(pr, xs, j);
    OwnFragments(pr, head, first);
    OwnFragments(pr, tail, !first);
    OthersElsewhere(pr, xs, j, first, !first);
  }

  lemma SliceMembers(pr: Pair, xs: seq<Owned>, j: nat)
    requires j <= |xs| && forall x :: x in xs ==> x.idx < Count(pr, x.who)
    ensures forall x :: x in xs[..j] ==> x.idx < Count(pr, x.who)
    ensures forall x :: x in xs[j..] ==> x.idx < Count(pr, x.who)
  {
    hide Count;
    forall x | x in xs[..j] ensures x in xs {
    }
    forall x | x in xs[j..] ensures x in xs {
    }
  }

  lemma OthersElsewhere(pr: Pair, xs: seq<Owned>, j: nat, first: bool, second: bool)
    requires ShuffledOnce(pr, xs) && j <= |xs| && second == !first
    requires forall i: nat :: i < Count(pr, first) ==> Owned(first, i) in xs[..j]
    requires forall i: nat :: i < Count(pr, second) ==> Owned(second, i) in xs[j..]
    ensures Before(xs, first)
  {
    hide Count;
    forall k | 0 <= k < |xs| ensures xs[k].who == first <==> k < j {
      assert xs[k] in xs && xs[k].idx < Count(pr, xs[k].who);
      if xs[k].who == first {
        assert Owned(first, xs[k].idx) == xs[k];
        var l :| 0 <= l < j && xs[..j][l] == xs[k];
        assert xs[l] == xs[k];
      } else {
        assert Owned(second, xs[k].idx) == xs[k];
        var l :| 0 <= l < |xs| - j && xs[j..][l] == xs[k];
        assert xs[j + l] == xs[k];
      }
    }
  }

  // ---- messages that do not overlap ----

  function Indices(xs: seq<Owned>): seq<nat> {
    seq(|xs|, i requires 0 <= i < |xs| => xs[i].idx)
  }

  ghost predicate AllOf(xs: seq<Owned>, who: bool) {
    forall i :: 0 <= i < |xs| ==> xs[i].who == who
  }

  /** Where the second message begins. */
  lemma {:induction false} Boundary(xs: seq<Owned>, first: bool) returns (j: nat)
    requires Before(xs, first)
    ensures j <= |xs| && AllOf(xs[..j], first) && AllOf(xs[j..], !first)
    decreases |xs|
  {
    if xs == [] {
      j := 0;
    } else {
      var front, x := xs[..|xs| - 1], xs[|xs| - 1];
      if x.who == first {
        j := |xs|;
        assert xs[..j] == xs && xs[j..] == [];
      } else {
        j := Boundary(front, first);
        assert xs[..j] == front[..j] && xs[j..] == front[j..] + [x];
      }
    }
  }

  lemma PartsOfOwner(pr: Pair, xs: seq<Owned>, who: bool)
    requires AllOf(xs, who) && Which(pr, who).cap > 0
    ensures OwnedParts(pr, xs) == Parts(Which(pr, who).(arrivals := Indices(xs)))
  {
    hide PartOf;
  }

  lemma OwnerArrives(pr: Pair, xs: seq<Owned>, ys: seq<Owned>, who: bool)
    requires PairSent(pr) && ShuffledOnce(pr, xs) && AllOf(ys, who)
    requires NoDup(ys) && forall x :: x in ys <==> x in xs && x.who == who
    ensures var m := Which(pr, who).(arrivals := Indices(ys)); Sent(m) && EachOnce(m) && AllArrive(m)
  {
    hide Total;
    CountBounds(pr, who);
    var js := Indices(ys);
    forall j | j in js ensures j < Count(pr, who) {
      var k :| 0 <= k < |js| && js[k] == j;
      assert ys[k] in ys;
    }
    forall i: nat | i < Count(pr, who) ensures i in js {
      assert Owned(who, i) in ys;
      var k :| 0 <= k < |ys| && ys[k] == Owned(who, i);
      assert js[k] == i;
    }
    forall i, j | 0 <= i < j < |js| ensures js[i] != js[j] {
      assert ys[i] != ys[j];
    }
  }

  lemma HalvesMembers(xs: seq<Owned>, j: nat, first: bool)
    requires j <= |xs| && AllOf(xs[..j], first) && AllOf(xs[j..], !first) && NoDup(xs)
    ensures NoDup(xs[..j]) && NoDup(xs[j..])
    ensures forall x :: x in xs[..j] <==> x in xs && x.who == first
    ensures forall x :: x in xs[j..] <==> x in xs && x.who == !first
  {
    forall x | x in xs ensures x in xs[..j] || x in xs[j..] {
      var k :| 0 <= k < |xs| && xs[k] == x;
      assert k < j ==> xs[..j][k] == x;
      assert k >= j ==> xs[j..][k - j] == x;
    }
    assert forall k :: 0 <= k < j ==> xs[..j][k] in xs;
    assert forall k :: 0 <= k < |xs| - j ==> xs[j..][k] in xs;
  }

  /** Whatever the messages: if one arrives wholly before the other, both are delivered in that order. */
  lemma BeforeMeansBoth(pr: Pair, xs: seq<Owned>, first: bool)
    requires PairSent(pr) && ShuffledOnce(pr, xs) && Before(xs, first)
    ensures BothDelivered(pr, xs, first)
  {
    hide KeyRunFrom, OwnedPart, PairSent, Parts, Stretch, Sent, EachOnce, AllArrive, Count;
    var j := Boundary(xs, first);
    var head, tail := xs[..j], xs[j..];
    HalvesMembers(xs, j, first);
    var m := Which(pr, first).(arrivals := Indices(head));
    var n := Which(pr, !first).(arrivals := Indices(tail));
    CountBounds(pr, first);
    CountBounds(pr, !first);
    PartsOfOwner(pr, head, first);
    PartsOfOwner(pr, tail, !first);
    OwnerArrives(pr, xs, head, first);
    OwnerArrives(pr, xs, tail, !first);
    assert xs == head + tail;
    assert OwnedParts(pr, xs) == OwnedParts(pr, head) + OwnedParts(pr, tail);
    TwoInOrder(m, n);
  }

  lemma TwoInOrder(m: Message, n: Message)
    requires Sent(m) && EachOnce(m) && AllArrive(m) && Sent(n) && EachOnce(n) && AllArrive(n)
    ensures KeyRun(Parts(m) + Parts(n)) == (None, [m.bytes, n.bytes])
  {
    hide KeyRunFrom, Parts, Sent, EachOnce, AllArrive;
    FirstDelivered(m);
    FirstDelivered(n);
    KeyRunSplit(None, Parts(m), Parts(n));
    assert [m.bytes] + [n.bytes] == [m.bytes, n.bytes];
  }

  // ---- the exact condition ----

  /**
    Two messages without a byte in common, each of whose fragments arrives once under one key, in any order: both
    are delivered, intact, with nothing left behind, iff one of them arrives wholly before the other begins.
    Otherwise what is delivered mixes them, or part of them is left.
  */
  lemma BothDeliveredIff(pr: Pair, xs: seq<Owned>)
    requires PairSent(pr) && NothingCommon(pr) && ShuffledOnce(pr, xs)
    ensures BothDelivered(pr, xs, false) || BothDelivered(pr, xs, true) <==> Before(xs, false) || Before(xs, true)
  {
    hide PairSent, NothingCommon, ShuffledOnce, BothDelivered, Before;
    if BothDelivered(pr, xs, false) {
      BothMeansBefore(pr, xs, false);
    }
    if BothDelivered(pr, xs, true) {
      BothMeansBefore(pr, xs, true);
    }
    if Before(xs, false) {
      BeforeMeansBoth(pr, xs, false);
    }
    if Before(xs, true) {
      BeforeMeansBoth(pr, xs, true);
    }
  }

  /** The same numbers of fragments, each a single byte that tells whose it is. */
  function Labels(pr: Pair): Pair {
    Pair(Message(seq(Count(pr, false), _ => 1), 1, []), Message(seq(Count(pr, true), _ => 2), 1, []))
  }

  lemma LabelsFit(pr: Pair)
    requires PairSent(pr)
    ensures PairSent(Labels(pr)) && NothingCommon(Labels(pr))
    ensures forall who :: Count(Labels(pr), who) == Count(pr, who)
  {
    hide Total;
    CountBounds(pr, false);
    CountBounds(pr, true);
    TotalOfMultiple(Count(pr, false), 1);
    TotalOfMultiple(Count(pr, true), 1);
  }

  /**
    For any two messages, with their fragments labelled by owner: every delivery is made of the fragments of one
    message alone, and all fragments are delivered, iff the messages do not overlap.
  */
  lemma OwnFragmentsIff(pr: Pair, xs: seq<Owned>)
    requires PairSent(pr) && ShuffledOnce(pr, xs)
    ensures BothDelivered(Labels(pr), xs, false) || BothDelivered(Labels(pr), xs, true) <==>
            Before(xs, false) || Before(xs, true)
  {
    hide PairSent, NothingCommon, BothDelivered, Before, Labels, Count;
    LabelsFit(pr);
    BothDeliveredIff(Labels(pr), xs);
  }
}
