/**
  Reassembly (`ble_mesh/src/mesh_radio_qt.cpp`) when an incomplete entry was left behind under the same key -
  entries are never dropped - and when a message is too long for single-byte indices.
*/
module LeftOvers {
  import opened Prelude
  import opened Fragments

  // ---- one entry, any arrivals ----

  ghost predicate Permutation(js: seq<nat>, total: nat) {
    |js| == total && InRange(js, total) && Complete(js, total) && NoDup(js)
  }

  /** The entry `st` with the fragments `js` put into it. */
  ghost function Mixed(st: Entry, bytes: seq<byte>, cap: nat, js: seq<nat>): map<nat, seq<byte>>
    requires cap > 0
  {
    st.parts + Collected(bytes, cap, js)
  }

  ghost function Indices(st: Entry, js: seq<nat>): set<nat> {
    st.parts.Keys + Elems(js)
  }

  /** The arrival of the last of `js` fills the entry. */
  ghost predicate Fills(st: Entry, js: seq<nat>, total: nat) {
    js != [] && |Indices(st, js)| == total
  }

  ghost predicate NeverFills(st: Entry, js: seq<nat>, total: nat) {
    forall j :: 1 <= j <= |js| ==> !Fills(st, js[..j], total)
  }

  ghost function Filling(st: Entry, bytes: seq<byte>, cap: nat, js: seq<nat>): Entry
    requires cap > 0
  {
    if js == [] then st else Entry(Total(|bytes|, cap), Mixed(st, bytes, cap, js))
  }

  lemma MixLast(st: Entry, bytes: seq<byte>, cap: nat, js: seq<nat>)
    requires cap > 0 && js != []
    ensures var front, j := js[..|js| - 1], js[|js| - 1];
            && Mixed(st, bytes, cap, js) == Mixed(st, bytes, cap, front)[j := Piece(bytes, cap, j)]
            && Mixed(st, bytes, cap, js).Keys == Indices(st, js)
            && (front == [] ==> Mixed(st, bytes, cap, front) == st.parts)
  {
    hide Piece;
    AddLast(bytes, cap, js);
    assert Collected(bytes, cap, js).Keys == Elems(js);
  }

  lemma OneMoreFragment(st: Entry, bytes: seq<byte>, cap: nat, js: seq<nat>)
    requires cap > 0 && 1 <= Total(|bytes|, cap) <= 255 && js != [] && InRange(js, Total(|bytes|, cap))
    requires var front := js[..|js| - 1];
             KeyRunFrom(Some(st), PartsOf(bytes, cap, front)) == (Some(Filling(st, bytes, cap, front)), [])
    ensures KeyRunFrom(Some(st), PartsOf(bytes, cap, js)) ==
            if Fills(st, js, Total(|bytes|, cap)) then (None, [Join(Mixed(st, bytes, cap, js), 256)])
            else (Some(Filling(st, bytes, cap, js)), [])
  {
    hide Join, Piece, Total, KeyRunFrom, Mixed, Indices, PartsOf;
    var front, ps := js[..|js| - 1], PartsOf(bytes, cap, js);
    var p := Part(js[|js| - 1], Total(|bytes|, cap), Piece(bytes, cap, js[|js| - 1]));
    LastPart(bytes, cap, js);
    assert ps == PartsOf(bytes, cap, front) + [p] by {
      PartsNonEmpty(bytes, cap, js);
    }
    KeyRunSnoc(Some(st), PartsOf(bytes, cap, front), p);
    MixLast(st, bytes, cap, js);
    var more := PartStep(Some(Filling(st, bytes, cap, front)), p).1;
    assert [] + more == more;
  }

  lemma PartsNonEmpty(bytes: seq<byte>, cap: nat, js: seq<nat>)
    requires cap > 0
    ensures |PartsOf(bytes, cap, js)| == |js|
  {
    hide PartOf;
  }

  lemma FrontNeverFills(st: Entry, js: seq<nat>, total: nat)
    requires js != [] && NeverFills(st, js, total)
    ensures NeverFills(st, js[..|js| - 1], total) && !Fills(st, js, total)
  {
    hide Fills;
    var front := js[..|js| - 1];
    forall j | 1 <= j <= |front| ensures !Fills(st, front[..j], total) {
      assert front[..j] == js[..j];
    }
    assert js[..|js|] == js;
  }

  /** As long as the entry is not filled, nothing is delivered. */
  lemma {:induction false} StillFilling(st: Entry, bytes: seq<byte>, cap: nat, js: seq<nat>)
    requires cap > 0 && 1 <= Total(|bytes|, cap) <= 255 && InRange(js, Total(|bytes|, cap))
    requires NeverFills(st, js, Total(|bytes|, cap))
    ensures KeyRunFrom(Some(st), PartsOf(bytes, cap, js)) == (Some(Filling(st, bytes, cap, js)), [])
    decreases |js|
  {
    hide Total, Piece, Fills, NeverFills, Mixed;
    if js != [] {
      FrontNeverFills(st, js, Total(|bytes|, cap));
      FrontFacts(js, Total(|bytes|, cap));
      StillFilling(st, bytes, cap, js[..|js| - 1]);
      OneMoreFragment(st, bytes, cap, js);
    }
  }

  /** If the entry fills before the last fragment, the fragments that follow leave an entry behind. */
  lemma EarlyFillLeavesEntry(st: Entry, bytes: seq<byte>, cap: nat, js: seq<nat>, j: nat)
    requires cap > 0 && 1 <= Total(|bytes|, cap) <= 255 && Permutation(js, Total(|bytes|, cap))
    requires 1 <= j < |js| && Fills(st, js[..j], Total(|bytes|, cap))
    requires NeverFills(st, js[..j - 1], Total(|bytes|, cap))
    ensures KeyRunFrom(Some(st), PartsOf(bytes, cap, js)).0.Some?
  {
    hide Total, Piece, Fills, NeverFills, Mixed, KeyRunFrom, PartsOf, Join;
    var total, head, tail := Total(|bytes|, cap), js[..j], js[j..];
    PermutationTail(js, total, j);
    assert head[..j - 1] == js[..j - 1];
    StillFilling(st, bytes, cap, js[..j - 1]);
    OneMoreFragment(st, bytes, cap, head);
    PartsSplit(bytes, cap, js, j);
    KeyRunSplit(Some(st), PartsOf(bytes, cap, head), PartsOf(bytes, cap, tail));
    StillCollecting(bytes, cap, tail);
  }

  lemma PartsSplit(bytes: seq<byte>, cap: nat, js: seq<nat>, j: nat)
    requires cap > 0 && j <= |js|
    ensures PartsOf(bytes, cap, js) == PartsOf(bytes, cap, js[..j]) + PartsOf(bytes, cap, js[j..])
  {
    hide PartOf;
  }

  lemma PermutationTail(js: seq<nat>, total: nat, j: nat)
    requires Permutation(js, total) && 1 <= j < |js|
    ensures InRange(js[..j], total) && InRange(js[..j - 1], total) && InRange(js[j..], total)
    ensures js[j..] != [] && !Complete(js[j..], total)
  {
    assert js[0] in js;
    assert forall k :: 0 <= k < |js| ==> js[k] in js;
    assert js[0] !in js[j..];
  }

  // ---- which entries a message overcomes ----

  /** Every index of the entry is one of the message's own, and not that of the fragment that arrives last. */
  ghost predicate Overcome(st: Entry, js: seq<nat>, total: nat) {
    && (forall i :: i in st.parts ==> i < total)
    && (total == 1 || (js != [] && js[|js| - 1] !in st.parts))
  }

  lemma OvercomeNeverFills(st: Entry, js: seq<nat>, total: nat, j: nat)
    requires 1 <= total && Permutation(js, total) && Overcome(st, js, total) && 1 <= j < total
    ensures !Fills(st, js[..j], total)
  {
    var s, last := Indices(st, js[..j]), js[total - 1];
    assert last !in js[..j];
    forall i | i in s ensures i < total {
      if i in js[..j] {
        assert i in js;
      }
    }
    assert last in js;
    Below(s, total);
  }

  lemma OvercomeDelivers(st: Entry, bytes: seq<byte>, cap: nat, js: seq<nat>)
    requires cap > 0 && 1 <= Total(|bytes|, cap) <= 255 && Permutation(js, Total(|bytes|, cap))
    requires Overcome(st, js, Total(|bytes|, cap))
    ensures KeyRunFrom(Some(st), PartsOf(bytes, cap, js)) == (None, [bytes])
  {
    hide Total, Piece, Fills, KeyRunFrom, PartsOf, Join;
    var total := Total(|bytes|, cap);
    var front := js[..total - 1];
    forall j | 1 <= j <= |front| ensures !Fills(st, front[..j], total) {
      assert front[..j] == js[..j];
      OvercomeNeverFills(st, js, total, j);
    }
    FrontFacts(js, total);
    StillFilling(st, bytes, cap, front);
    OneMoreFragment(st, bytes, cap, js);
    FullAtEnd(st, js, total);
    OwnPieces(st, bytes, cap, js);
    JoinPieces(bytes, cap, Mixed(st, bytes, cap, js), 256);
    TotalBounds(|bytes|, cap);
    Times(total, 255, cap);
  }

  lemma FullAtEnd(st: Entry, js: seq<nat>, total: nat)
    requires 1 <= total && Permutation(js, total) && forall i :: i in st.parts ==> i < total
    ensures Fills(st, js, total)
  {
    Below(Indices(st, js), total);
  }

  lemma OwnPieces(st: Entry, bytes: seq<byte>, cap: nat, js: seq<nat>)
    requires cap > 0 && Permutation(js, Total(|bytes|, cap)) && forall i :: i in st.parts ==> i < Total(|bytes|, cap)
    ensures forall i: nat :: i in Mixed(st, bytes, cap, js) <==> i < Total(|bytes|, cap)
    ensures forall i :: i in Mixed(st, bytes, cap, js) ==> Mixed(st, bytes, cap, js)[i] == Piece(bytes, cap, i)
  {
    hide Piece, Total;
    var parts := Mixed(st, bytes, cap, js);
    assert parts.Keys == st.parts.Keys + Elems(js);
    forall i | i in parts ensures parts[i] == Piece(bytes, cap, i) {
      assert i in js;
    }
  }

  /** An entry that is not overcome either fills too early or is not filled by the message at all. */
  lemma StubbornFills(st: Entry, js: seq<nat>, total: nat)
    requires 1 <= total && Permutation(js, total) && !Overcome(st, js, total)
    ensures Fills(st, js, total) ==> total >= 2 && Fills(st, js[..total - 1], total)
  {
    if Fills(st, js, total) {
      var s := Indices(st, js);
      forall k | k in st.parts ensures k < total {
        if k >= total {
          TooMany(st, js, total, k);
        }
      }
      var last, head := js[total - 1], js[..total - 1];
      assert js == head + [last];
      assert Indices(st, head) == s;
    }
  }

  lemma TooMany(st: Entry, js: seq<nat>, total: nat, k: nat)
    requires Permutation(js, total) && k in st.parts && k >= total
    ensures |Indices(st, js)| > total
  {
    var all := Elems(js);
    assert forall i: nat :: i < total ==> i in all;
    Below(all, total);
    assert k !in all;
    assert all + {k} <= Indices(st, js);
    SubsetSize(all + {k}, Indices(st, js));
  }

  lemma {:induction false} SubsetSize(a: set<nat>, b: set<nat>)
    requires a <= b
    ensures |a| <= |b|
    decreases |a|
  {
    if a != {} {
      var x :| x in a;
      SubsetSize(a - {x}, b - {x});
    }
  }

  lemma {:induction false} FirstFill(st: Entry, js: seq<nat>, total: nat, n: nat) returns (j: nat)
    requires n <= |js| && !NeverFills(st, js[..n], total)
    ensures 1 <= j <= n && Fills(st, js[..j], total) && NeverFills(st, js[..j - 1], total)
    decreases n
  {
    hide Fills;
    if n == 0 || NeverFills(st, js[..n - 1], total) {
      j := n;
      var i :| 1 <= i <= n && Fills(st, js[..n][..i], total);
      assert js[..n][..i] == js[..i];
      if i < n {
        assert js[..n - 1][..i] == js[..i];
      }
    } else {
      j := FirstFill(st, js, total, n - 1);
    }
  }

  lemma StubbornSpoils(st: Entry, bytes: seq<byte>, cap: nat, js: seq<nat>)
    requires cap > 0 && 1 <= Total(|bytes|, cap) <= 255 && Permutation(js, Total(|bytes|, cap))
    requires !Overcome(st, js, Total(|bytes|, cap))
    ensures KeyRunFrom(Some(st), PartsOf(bytes, cap, js)).0.Some?
  {
    hide Total, Piece, Fills, NeverFills, Overcome, KeyRunFrom, PartsOf;
    var total := Total(|bytes|, cap);
    assert js[..|js|] == js;
    if NeverFills(st, js, total) {
      StillFilling(st, bytes, cap, js);
    } else {
      var j := FirstFill(st, js, total, |js|);
      StubbornFills(st, js, total);
      if j == total {
        FilledBefore(st, js, total);
      } else {
        EarlyFillLeavesEntry(st, bytes, cap, js, j);
      }
    }
  }

  lemma FilledBefore(st: Entry, js: seq<nat>, total: nat)
    requires |js| == total >= 2 && Fills(st, js[..total - 1], total)
    ensures !NeverFills(st, js[..total - 1], total)
  {
    hide Fills;
    var head := js[..total - 1];
    assert head[..total - 1] == head;
  }

  /**
    What an entry left behind under the same key does to a later message of up to 255 fragments, arriving each
    once and in any order: the message is delivered exactly once, intact, with nothing left behind, iff all
    indices in the entry are among its own and the last fragment to arrive is not, or there is only one.
  */
  lemma OvercomesLeftOverIff(st: Entry, bytes: seq<byte>, cap: nat, js: seq<nat>)
    requires cap > 0 && 1 <= Total(|bytes|, cap) <= 255 && Permutation(js, Total(|bytes|, cap))
    ensures KeyRunFrom(Some(st), PartsOf(bytes, cap, js)) == (None, [bytes]) <==>
            && (forall i :: i in st.parts ==> i < Total(|bytes|, cap))
            && (Total(|bytes|, cap) == 1 || js[|js| - 1] !in st.parts)
  {
    hide Total, Piece, KeyRunFrom, PartsOf;
    if Overcome(st, js, Total(|bytes|, cap)) {
      OvercomeDelivers(st, bytes, cap, js);
    } else {
      StubbornSpoils(st, bytes, cap, js);
    }
  }

  lemma UpToPermutation(n: nat)
    ensures Permutation(UpTo(n), n)
  {
    forall i: nat | i < n ensures i in UpTo(n) {
      assert UpTo(n)[i] == i;
    }
  }

  /**
    In a reassembler with other entries and arrivals of other keys in between, for a message that arrives in
    order: it comes through iff the entry under its key holds no index from its last one on, or its only one.
  */
  lemma InOrderOvercomesIff(reasm: map<Key, Entry>, ins: seq<Arrival>, k: Key, bytes: seq<byte>, cap: nat)
    requires cap > 0 && 1 <= Total(|bytes|, cap) <= 255 && k in reasm
    requires Only(ins, k) == PartsOf(bytes, cap, UpTo(Total(|bytes|, cap)))
    ensures var (after, out) := RunFrom(reasm, ins);
            (DeliveredFor(out, k) == [bytes] && k !in after) <==>
            if Total(|bytes|, cap) == 1 then forall i :: i in reasm[k].parts ==> i == 0
            else forall i :: i in reasm[k].parts ==> i < Total(|bytes|, cap) - 1
  {
    hide Total, Piece, KeyRunFrom, PartsOf, RunFrom, Only, DeliveredFor;
    var total := Total(|bytes|, cap);
    KeysAreIndependentFrom(reasm, ins, k);
    UpToPermutation(total);
    OvercomesLeftOverIff(reasm[k], bytes, cap, UpTo(total));
    assert UpTo(total)[total - 1] == total - 1;
  }

  /** A left-over last fragment takes the place of the message's own, which then starts another left-over. */
  lemma LeftOverMixes()
    ensures KeyRunFrom(Some(Entry(2, map[1 := [9]])), PartsOf([1, 2], 1, [0, 1])) ==
            (Some(Entry(2, map[1 := [2]])), [[1, 9]])
  {
    hide Join, PartStep, KeyRunFrom;
    var ps, st := PartsOf([1, 2], 1, [0, 1]), Some(Entry(2, map[1 := [9]]));
    var p, q := Part(0, 2, [1]), Part(1, 2, [2]);
    SmallParts();
    var none: seq<Part> := [];
    assert ps == none + [p] + [q];
    NoParts(st);
    KeyRunSnoc(st, none, p);
    KeyRunSnoc(st, none + [p], q);
    MixedStep();
    FreshStep();
    var out: seq<seq<byte>> := [[1, 9]];
    assert [] + out == out && out + [] == out;
  }

  lemma SmallParts()
    ensures PartOf([1, 2], 1, 0) == Part(0, 2, [1]) && PartOf([1, 2], 1, 1) == Part(1, 2, [2])
  {
    assert [1, 2][0..1] == [1] && [1, 2][1..2] == [2];
  }

  lemma MixedStep()
    ensures PartStep(Some(Entry(2, map[1 := [9]])), Part(0, 2, [1])) == (None, [[1, 9]])
  {
    hide Join;
    var parts: map<nat, seq<byte>> := map[1 := [9]][0 := [1]];
    assert parts.Keys == {0, 1};
    JoinTwo(parts, 256);
  }

  lemma {:induction false} JoinTwo(parts: map<nat, seq<byte>>, n: nat)
    requires parts == map[1 := [9]][0 := [1]] && n >= 2
    ensures Join(parts, n) == [1, 9]
    decreases n
  {
    if n > 2 {
      JoinTwo(parts, n - 1);
      assert [1, 9] + [] == [1, 9];
    } else {
      assert Join(parts, 1) == Join(parts, 0) + [1];
    }
  }

  lemma FreshStep()
    ensures PartStep(None, Part(1, 2, [2])) == (Some(Entry(2, map[1 := [2]])), [])
  {
    hide Join;
    var parts: map<nat, seq<byte>> := map[][1 := [2]];
    assert parts == map[1 := [2]];
  }

  // ---- messages that are too long ----

  ghost predicate Sized(parts: map<nat, seq<byte>>, cap: nat) {
    forall i :: i in parts ==> |parts[i]| <= cap
  }

  ghost function KeysBelow(parts: map<nat, seq<byte>>, n: nat): set<nat> {
    set i | i in parts && i < n
  }

  lemma {:induction false} JoinSize(parts: map<nat, seq<byte>>, n: nat, cap: nat)
    requires Sized(parts, cap)
    ensures |Join(parts, n)| <= |KeysBelow(parts, n)| * cap
  {
    if n > 0 {
      JoinSize(parts, n - 1, cap);
      if n - 1 in parts {
        assert KeysBelow(parts, n) == KeysBelow(parts, n - 1) + {n - 1};
        assert (|KeysBelow(parts, n - 1)| + 1) * cap == |KeysBelow(parts, n - 1)| * cap + cap;
      } else {
        assert KeysBelow(parts, n) == KeysBelow(parts, n - 1);
      }
    }
  }

  lemma StepSize(st: Option<Entry>, p: Part, cap: nat)
    requires (st.Some? ==> Sized(st.value.parts, cap)) && |p.data| <= cap && p.count <= 255
    ensures PartStep(st, p).0.Some? ==> Sized(PartStep(st, p).0.value.parts, cap)
    ensures forall m :: m in PartStep(st, p).1 ==> |m| <= 255 * cap
  {
    hide Join;
    var parts := (if st.Some? then st.value.parts else map[])[p.idx := p.data];
    if |parts| == p.count {
      JoinSize(parts, 256, cap);
      SubsetSize(KeysBelow(parts, 256), parts.Keys);
      Times(|KeysBelow(parts, 256)|, 255, cap);
    }
  }

  /** A delivery joins at most 255 parts. */
  lemma {:induction false} DeliveriesAreShort(ps: seq<Part>, cap: nat)
    requires forall p :: p in ps ==> |p.data| <= cap && p.count <= 255
    ensures KeyRun(ps).0.Some? ==> Sized(KeyRun(ps).0.value.parts, cap)
    ensures forall m :: m in KeyRun(ps).1 ==> |m| <= 255 * cap
    decreases |ps|
  {
    if ps != [] {
      hide Sized, PartStep;
      var front, p := ps[..|ps| - 1], ps[|ps| - 1];
      assert ps == front + [p];
      DeliveriesAreShort(front, cap);
      KeyRunSnoc(None, front, p);
      StepSize(KeyRun(front).0, p, cap);
    }
  }

  lemma PieceSize(bytes: seq<byte>, cap: nat, i: nat)
    ensures |Piece(bytes, cap, i)| <= cap
  {
    assert (i + 1) * cap == i * cap + cap;
  }

  /** A message longer than 255 fragments is not delivered whatever arrives of it, in whatever order. */
  lemma LongNeverArrives(bytes: seq<byte>, cap: nat, js: seq<nat>)
    requires cap > 0 && |bytes| > 255 * cap
    ensures bytes !in KeyRun(PartsOf(bytes, cap, js)).1
  {
    hide KeyRun, Piece, Total;
    var ps := PartsOf(bytes, cap, js);
    forall p | p in ps ensures |p.data| <= cap && p.count <= 255 {
      var k :| 0 <= k < |ps| && ps[k] == p;
      assert p == PartOf(bytes, cap, js[k]);
      PieceSize(bytes, cap, js[k]);
    }
    DeliveriesAreShort(ps, cap);
  }

  /** Some of its fragments in some order give a message back iff it has 1 to 255 * cap bytes. */
  lemma CanArriveIff(bytes: seq<byte>, cap: nat)
    requires cap > 0
    ensures (exists js :: InRange(js, Total(|bytes|, cap)) && KeyRun(PartsOf(bytes, cap, js)) == (None, [bytes]))
       <==> 1 <= |bytes| <= 255 * cap
  {
    hide KeyRun, Piece, Total, PartsOf;
    var total := Total(|bytes|, cap);
    UpToPermutation(total);
    IntactIffAtMost255(bytes, cap);
    forall js | InRange(js, total) && KeyRun(PartsOf(bytes, cap, js)) == (None, [bytes])
      ensures 1 <= |bytes| <= 255 * cap
    {
      assert bytes in [bytes];
      if |bytes| > 255 * cap {
        LongNeverArrives(bytes, cap, js);
      } else if bytes == [] {
        TotalBounds(0, cap);
        NothingToArrive(bytes, cap, js);
      }
    }
  }

  lemma NothingToArrive(bytes: seq<byte>, cap: nat, js: seq<nat>)
    requires cap > 0 && bytes == [] && InRange(js, Total(|bytes|, cap))
    ensures KeyRun(PartsOf(bytes, cap, js)) == (None, [])
  {
    Div(cap, 0, cap - 1);
    HasFirst(js);
    assert PartsOf(bytes, cap, js) == [];
  }
}
