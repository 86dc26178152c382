/**
  Reassembly (`ble_mesh/src/mesh_radio_qt.cpp`) of any number of messages, of which several may use one key: in
  the peripheral role all senders have the empty address, every radio counts its messages from 0, and the 16-bit
  message ids come round. Messages that use a key one after the other come through; messages that overlap do not.
*/
module SharedKeys {
  import opened Prelude
  import opened Fragments

  /** A message on its way: its bytes, the fragment size of its link, and the fragments that arrive. */
  datatype Message = Message(bytes: seq<byte>, cap: nat, arrivals: seq<nat>)

  ghost predicate Sent(m: Message) {
    && m.cap > 0 && 1 <= |m.bytes| <= 255 * m.cap
    && InRange(m.arrivals, Total(|m.bytes|, m.cap))
  }

  ghost predicate AllSent(ms: seq<Message>) {
    forall i :: 0 <= i < |ms| ==> Sent(ms[i])
  }

  /** All fragments of the message arrive, and the last arrival is the one that completes it. */
  ghost predicate Completes(m: Message)
    requires m.cap > 0
  {
    CompletesAtEnd(m.arrivals, Total(|m.bytes|, m.cap))
  }

  function Parts(m: Message): seq<Part> {
    if m.cap == 0 then [] else PartsOf(m.bytes, m.cap, m.arrivals)
  }

  /** The arrivals of one message after the other. */
  function Stretch(ms: seq<Message>): seq<Part> {
    if ms == [] then [] else Stretch(ms[..|ms| - 1]) + Parts(ms[|ms| - 1])
  }

  function BytesOf(ms: seq<Message>): seq<seq<byte>> {
    seq(|ms|, i requires 0 <= i < |ms| => ms[i].bytes)
  }

  lemma SentTotal(m: Message)
    requires Sent(m)
    ensures 1 <= Total(|m.bytes|, m.cap) <= 255
  {
    hide Total;
    var total := Total(|m.bytes|, m.cap);
    TotalBounds(|m.bytes|, m.cap);
    if total > 255 {
      Times(256, total, m.cap);
    }
  }

  // ---- one key, one message after the other ----

  /** After the arrivals of the first `i` messages, exactly these have been delivered and nothing is left. */
  ghost predicate TurnAt(ms: seq<Message>, i: nat)
    requires i <= |ms|
  {
    KeyRun(Stretch(ms[..i])) == (None, BytesOf(ms[..i]))
  }

  ghost predicate InTurn(ms: seq<Message>) {
    forall i: nat :: i <= |ms| ==> TurnAt(ms, i)
  }

  lemma LastInTurnIff(ms: seq<Message>)
    requires ms != [] && Sent(ms[|ms| - 1])
    requires KeyRun(Stretch(ms[..|ms| - 1])) == (None, BytesOf(ms[..|ms| - 1]))
    ensures KeyRun(Stretch(ms)) == (None, BytesOf(ms)) <==> Completes(ms[|ms| - 1])
  {
    hide KeyRunFrom, PartsOf, Total, Sent, CompletesAtEnd;
    var front, m := ms[..|ms| - 1], ms[|ms| - 1];
    SentTotal(m);
    KeyRunSplit(None, Stretch(front), Parts(m));
    assert BytesOf(ms) == BytesOf(front) + [m.bytes];
    SentFacts(m);
    ReassembledIff(m.bytes, m.cap, m.arrivals);
    SameTail(BytesOf(front), KeyRun(Parts(m)).1, [m.bytes]);
  }

  lemma SentFacts(m: Message)
    requires Sent(m)
    ensures m.cap > 0 && InRange(m.arrivals, Total(|m.bytes|, m.cap))
  {
  }

  lemma SameTail(a: seq<seq<byte>>, b: seq<seq<byte>>, c: seq<seq<byte>>)
    ensures a + b == a + c <==> b == c
  {
    if a + b == a + c {
      assert b == (a + b)[|a|..] && c == (a + c)[|a|..];
    }
  }

  lemma FrontTurns(ms: seq<Message>, i: nat)
    requires i < |ms|
    ensures TurnAt(ms[..|ms| - 1], i) <==> TurnAt(ms, i)
    ensures TurnAt(ms, |ms|) <==> KeyRun(Stretch(ms)) == (None, BytesOf(ms))
  {
    hide KeyRun, Stretch, BytesOf;
    assert ms[..|ms| - 1][..i] == ms[..i];
    assert ms[..|ms|] == ms;
  }

  lemma FrontInTurn(ms: seq<Message>)
    requires ms != []
    ensures InTurn(ms) <==> InTurn(ms[..|ms| - 1]) && KeyRun(Stretch(ms)) == (None, BytesOf(ms))
  {
    hide KeyRun, Stretch, BytesOf, TurnAt;
    var front := ms[..|ms| - 1];
    FrontTurns(ms, |ms| - 1);
    forall i: nat | i <= |front| ensures TurnAt(front, i) <==> TurnAt(ms, i) {
      FrontTurns(ms, i);
    }
  }

  lemma NobodyInTurn()
    ensures InTurn([])
  {
    assert BytesOf([]) == [];
  }

  /** Messages that use a key one after the other are all delivered in turn iff each completes at its end. */
  lemma {:induction false} InTurnIff(ms: seq<Message>)
    requires AllSent(ms)
    ensures InTurn(ms) <==> forall i :: 0 <= i < |ms| ==> Completes(ms[i])
    decreases |ms|
  {
    hide InTurn, KeyRun, Stretch, BytesOf, Completes, Sent;
    if ms == [] {
      NobodyInTurn();
    } else {
      var front := ms[..|ms| - 1];
      assert AllSent(front) && forall i :: 0 <= i < |front| ==> front[i] == ms[i];
      InTurnIff(front);
      FrontInTurn(ms);
      if InTurn(front) {
        AllInTurn(front);
        LastInTurnIff(ms);
      }
    }
  }

  lemma AllInTurn(ms: seq<Message>)
    requires InTurn(ms)
    ensures KeyRun(Stretch(ms)) == (None, BytesOf(ms))
  {
    hide KeyRun, Stretch, BytesOf;
    assert TurnAt(ms, |ms|);
    assert ms[..|ms|] == ms;
  }

  // ---- when only the end is looked at ----

  /** With repeated fragments the count can come out right although a message never completed by itself. */
  lemma RepetitionCanReplace()
    ensures var a, b := Message([5, 9], 1, [0]), Message([6, 9], 1, [1, 0, 1]);
            KeyRun(Stretch([a, b])) == (None, BytesOf([a, b])) && !Completes(a)
  {
    var a, b := Message([5, 9], 1, [0]), Message([6, 9], 1, [1, 0, 1]);
    hide KeyRunFrom, PartStep, PartsOf, CompletesAtEnd;
    var p, q, r := Part(0, 2, [5]), Part(1, 2, [9]), Part(0, 2, [6]);
    TwoPieces(5, 9);
    TwoPieces(6, 9);
    FourParts(p, q, r, q);
    assert Stretch([a, b]) == [p, q, r, q] by {
      OnePart(a);
      ThreeParts(b);
      assert [a, b][..1] == [a] && [a][..0] == [];
      assert Stretch([a]) == [] + [p];
    }
    PairDelivers(5, 9);
    PairDelivers(6, 9);
    var one, two: seq<seq<byte>> := [[5, 9]], [[6, 9]];
    assert [] + one + [] + two == BytesOf([a, b]);
    NotComplete();
  }

  lemma NotComplete()
    ensures !CompletesAtEnd([0], Total(2, 1))
  {
    assert Total(2, 1) == 2 && 1 !in [0 as nat];
  }

  lemma TwoPieces(x: byte, y: byte)
    ensures PartOf([x, y], 1, 0) == Part(0, 2, [x]) && PartOf([x, y], 1, 1) == Part(1, 2, [y])
  {
    assert [x, y][0..1] == [x] && [x, y][1..2] == [y];
  }

  lemma OnePart(a: Message)
    requires a.cap > 0 && |a.arrivals| == 1
    ensures Parts(a) == [PartOf(a.bytes, a.cap, a.arrivals[0])]
  {
    hide PartOf;
  }

  lemma ThreeParts(b: Message)
    requires b.cap > 0 && |b.arrivals| == 3
    ensures Parts(b) == [PartOf(b.bytes, b.cap, b.arrivals[0]), PartOf(b.bytes, b.cap, b.arrivals[1]),
                         PartOf(b.bytes, b.cap, b.arrivals[2])]
  {
    hide PartOf;
  }

  /** Four parts, one after the other. */
  lemma FourParts(p: Part, q: Part, r: Part, t: Part)
    ensures var s1 := PartStep(None, p);
            var s2 := PartStep(s1.0, q);
            var s3 := PartStep(s2.0, r);
            var s4 := PartStep(s3.0, t);
            KeyRun([p, q, r, t]) == (s4.0, s1.1 + s2.1 + s3.1 + s4.1)
  {
    hide PartStep, KeyRunFrom;
    var none: seq<Part> := [];
    NoParts(None);
    KeyRunSnoc(None, none, p);
    KeyRunSnoc(None, none + [p], q);
    KeyRunSnoc(None, none + [p] + [q], r);
    KeyRunSnoc(None, none + [p] + [q] + [r], t);
    assert none + [p] + [q] + [r] + [t] == [p, q, r, t];
    assert [] + PartStep(None, p).1 == PartStep(None, p).1;
  }

  lemma PairDelivers(x: byte, y: byte)
    ensures var s := PartStep(None, Part(0, 2, [x]));
            s.0.Some? && s.1 == [] && PartStep(s.0, Part(1, 2, [y])) == (None, [[x, y]])
  {
    hide Join;
    var parts: map<nat, seq<byte>> := map[][0 := [x]][1 := [y]];
    assert parts.Keys == {0, 1};
    JoinPair(parts, x, y, 256);
  }

  lemma {:induction false} JoinPair(parts: map<nat, seq<byte>>, x: byte, y: byte, n: nat)
    requires parts.Keys == {0, 1} && parts[0] == [x] && parts[1] == [y] && n >= 2
    ensures Join(parts, n) == [x, y]
    decreases n
  {
    if n > 2 {
      JoinPair(parts, x, y, n - 1);
      assert [x, y] + [] == [x, y];
    } else {
      assert Join(parts, 1) == Join(parts, 0) + [x];
    }
  }

  ghost predicate EachOnce(m: Message) {
    NoDup(m.arrivals)
  }

  lemma TailMisses(js: seq<nat>, total: nat, j: nat)
    requires InRange(js, total) && NoDup(js) && 1 <= j <= |js|
    ensures InRange(js[j..], total) && !Complete(js[j..], total)
  {
    assert js[j - 1] in js && js[j - 1] !in js[j..];
    assert forall k :: 0 <= k < |js| ==> js[k] in js;
  }

  /** The first arrival at which something is delivered. */
  lemma {:induction false} FirstDelivery(st: Option<Entry>, ps: seq<Part>, n: nat) returns (j: nat)
    requires n <= |ps| && KeyRunFrom(st, ps[..n]).1 != []
    ensures 1 <= j <= n && KeyRunFrom(st, ps[..j - 1]).1 == [] && KeyRunFrom(st, ps[..j]).1 != []
    ensures KeyRunFrom(st, ps[..j]).0 == None && |KeyRunFrom(st, ps[..j]).1| == 1
    decreases n
  {
    hide KeyRunFrom, PartStep;
    NoParts(st);
    assert ps[..0] == [];
    assert ps[..n] == ps[..n - 1] + [ps[n - 1]];
    KeyRunSnoc(st, ps[..n - 1], ps[n - 1]);
    if KeyRunFrom(st, ps[..n - 1]).1 == [] {
      j := n;
      DeliveryEmpties(KeyRunFrom(st, ps[..n - 1]).0, ps[n - 1]);
    } else {
      j := FirstDelivery(st, ps, n - 1);
    }
  }

  lemma DeliveryEmpties(st: Option<Entry>, p: Part)
    ensures PartStep(st, p).1 != [] <==> PartStep(st, p).0 == None
    ensures |PartStep(st, p).1| <= 1
  {
  }

  /** The fragments of one message, each at most once, complete at most one delivery, whatever was there before. */
  lemma AtMostOneDelivery(st: Option<Entry>, m: Message)
    requires Sent(m) && EachOnce(m)
    ensures |KeyRunFrom(st, Parts(m)).1| <= 1
  {
    hide KeyRunFrom, PartsOf, Total;
    SentTotal(m);
    var ps := Parts(m);
    assert ps[..|ps|] == ps;
    if KeyRunFrom(st, ps).1 != [] {
      var j := FirstDelivery(st, ps, |ps|);
      PartsLength(m);
      PartsFrom(m, j);
      assert ps == ps[..j] + ps[j..];
      KeyRunSplit(st, ps[..j], ps[j..]);
      TailMisses(m.arrivals, Total(|m.bytes|, m.cap), j);
      StillCollecting(m.bytes, m.cap, m.arrivals[j..]);
    }
  }

  lemma PartsLength(m: Message)
    requires m.cap > 0
    ensures |Parts(m)| == |m.arrivals|
  {
    hide PartOf;
  }

  lemma PartsFrom(m: Message, j: nat)
    requires m.cap > 0 && j <= |m.arrivals| == |Parts(m)|
    ensures Parts(m)[j..] == PartsOf(m.bytes, m.cap, m.arrivals[j..])
  {
    hide PartOf;
  }

  /** All arrivals of one message after the other, the first one first. */
  lemma {:induction false} StretchCons(m: Message, ms: seq<Message>)
    ensures Stretch([m] + ms) == Parts(m) + Stretch(ms)
    decreases |ms|
  {
    hide Parts;
    if ms == [] {
      assert [m] + ms == [m] && [m][..0] == [];
      assert Stretch([m]) == [] + Parts(m) == Parts(m) + [];
    } else {
      var front, last := ms[..|ms| - 1], ms[|ms| - 1];
      StretchCons(m, front);
      assert ([m] + ms)[..|ms|] == [m] + front;
      assert Parts(m) + Stretch(front) + Parts(last) == Parts(m) + (Stretch(front) + Parts(last));
    }
  }

  ghost predicate AllOnce(ms: seq<Message>) {
    forall i :: 0 <= i < |ms| ==> Sent(ms[i]) && EachOnce(ms[i])
  }

  lemma {:induction false} AtMostOneEach(st: Option<Entry>, ms: seq<Message>)
    requires AllOnce(ms)
    ensures |KeyRunFrom(st, Stretch(ms)).1| <= |ms|
    decreases |ms|
  {
    hide KeyRunFrom, Parts, Sent, EachOnce;
    if ms == [] {
      NoParts(st);
    } else {
      var front := ms[..|ms| - 1];
      AtMostOneEach(st, front);
      KeyRunSplit(st, Stretch(front), Parts(ms[|ms| - 1]));
      AtMostOneDelivery(KeyRunFrom(st, Stretch(front)).0, ms[|ms| - 1]);
    }
  }

  lemma OnceCompletes(m: Message)
    requires Sent(m) && EachOnce(m) && Complete(m.arrivals, Total(|m.bytes|, m.cap))
    ensures Completes(m)
  {
    hide Total;
    SentTotal(m);
    assert 0 in m.arrivals;
    var front, last := m.arrivals[..|m.arrivals| - 1], m.arrivals[|m.arrivals| - 1];
    assert last in m.arrivals && last !in front;
  }

  ghost predicate AllArrive(m: Message) {
    m.cap > 0 && Complete(m.arrivals, Total(|m.bytes|, m.cap))
  }

  ghost predicate EveryoneArrives(ms: seq<Message>) {
    forall i :: 0 <= i < |ms| ==> AllArrive(ms[i])
  }

  lemma EveryoneCons(m: Message, rest: seq<Message>)
    ensures EveryoneArrives([m] + rest) <==> AllArrive(m) && EveryoneArrives(rest)
  {
    hide AllArrive;
    var ms := [m] + rest;
    assert ms[0] == m;
    if EveryoneArrives(ms) {
      forall i | 0 <= i < |rest| ensures AllArrive(rest[i]) {
        assert ms[i + 1] == rest[i];
      }
    }
  }

  lemma OnceCons(m: Message, rest: seq<Message>)
    requires AllOnce([m] + rest)
    ensures Sent(m) && EachOnce(m) && AllOnce(rest)
  {
    hide Sent, EachOnce;
    var ms := [m] + rest;
    assert ms[0] == m;
    forall i | 0 <= i < |rest| ensures Sent(rest[i]) && EachOnce(rest[i]) {
      assert ms[i + 1] == rest[i];
    }
  }

  lemma BytesCons(m: Message, rest: seq<Message>)
    ensures BytesOf([m] + rest) == [m.bytes] + BytesOf(rest)
  {
  }

  /**
    If no fragment arrives twice, the end tells all: messages that use a key one after the other are all
    delivered, in order, with nothing left behind, iff all fragments of each arrive.
  */
  lemma {:induction false} OneAfterTheOtherIff(ms: seq<Message>)
    requires AllOnce(ms)
    ensures KeyRun(Stretch(ms)) == (None, BytesOf(ms)) <==> EveryoneArrives(ms)
    decreases |ms|
  {
    hide KeyRunFrom, Parts, Sent, EachOnce, AllArrive, Stretch, BytesOf, AllOnce, EveryoneArrives;
    if ms == [] {
      NobodySent();
    } else {
      var m, rest := ms[0], ms[1..];
      assert ms == [m] + rest;
      EveryoneCons(m, rest);
      OnceCons(m, rest);
      BytesCons(m, rest);
      StretchCons(m, rest);
      KeyRunSplit(None, Parts(m), Stretch(rest));
      if AllArrive(m) {
        FirstDelivered(m);
        OneAfterTheOtherIff(rest);
        SameTail([m.bytes], KeyRun(Stretch(rest)).1, BytesOf(rest));
      } else {
        FirstMissing(m);
        AtMostOneEach(KeyRun(Parts(m)).0, rest);
        BytesCount(ms);
      }
    }
  }

  lemma BytesCount(ms: seq<Message>)
    ensures |BytesOf(ms)| == |ms|
  {
  }

  lemma NobodySent()
    ensures KeyRun(Stretch([])) == (None, BytesOf([])) && EveryoneArrives([])
  {
    assert BytesOf([]) == [];
  }

  lemma FirstDelivered(m: Message)
    requires Sent(m) && EachOnce(m) && AllArrive(m)
    ensures KeyRun(Parts(m)) == (None, [m.bytes])
  {
    hide KeyRunFrom, PartsOf, Total, EachOnce, CompletesAtEnd;
    SentTotal(m);
    OnceCompletes(m);
    CompletionDelivers(m.bytes, m.cap, m.arrivals);
  }

  lemma FirstMissing(m: Message)
    requires Sent(m) && !AllArrive(m)
    ensures KeyRun(Parts(m)).1 == []
  {
    hide KeyRunFrom, PartsOf, Total;
    SentTotal(m);
    StillCollecting(m.bytes, m.cap, m.arrivals);
  }

  // ---- many keys ----

  lemma {:induction false} OnlyPrefix(ins: seq<Arrival>, k: Key, j: nat) returns (n: nat)
    requires j <= |Only(ins, k)|
    ensures n <= |ins| && Only(ins[..n], k) == Only(ins, k)[..j]
    decreases |ins|
  {
    if j == |Only(ins, k)| {
      n := |ins|;
      assert ins[..n] == ins && Only(ins, k)[..j] == Only(ins, k);
    } else {
      hide Only;
      NoneOnly(k);
      var front, a := ins[..|ins| - 1], ins[|ins| - 1];
      assert ins == front + [a];
      OnlySnoc(front, a, k);
      n := OnlyPrefix(front, k, j);
      assert front[..n] == ins[..n];
    }
  }

  lemma NoneOnly(k: Key)
    ensures Only([], k) == []
  {
  }

  lemma {:induction false} StretchPrefix(ms: seq<Message>, i: nat)
    requires i <= |ms|
    ensures Stretch(ms[..i]) <= Stretch(ms)
    decreases |ms| - i
  {
    hide Parts;
    if i == |ms| {
      assert ms[..i] == ms;
    } else {
      StretchPrefix(ms, i + 1);
      assert ms[..i + 1][..i] == ms[..i];
    }
  }

  /** At any moment at which the key has seen the arrivals of exactly the first i messages, these are delivered. */
  ghost predicate DeliveredInTurn(ins: seq<Arrival>, ms: seq<Message>, k: Key) {
    forall n: nat, i: nat :: n <= |ins| && i <= |ms| && Only(ins[..n], k) == Stretch(ms[..i]) ==>
      DeliveredFor(Run(ins[..n]).1, k) == BytesOf(ms[..i]) && k !in Run(ins[..n]).0
  }

  lemma MomentIff(ins: seq<Arrival>, ms: seq<Message>, k: Key, n: nat, i: nat)
    requires n <= |ins| && i <= |ms| && Only(ins[..n], k) == Stretch(ms[..i])
    ensures DeliveredFor(Run(ins[..n]).1, k) == BytesOf(ms[..i]) && k !in Run(ins[..n]).0 <==> TurnAt(ms, i)
  {
    hide KeyRun, Run, Only, DeliveredFor, Stretch, BytesOf;
    KeysAreIndependent(ins[..n], k);
  }

  /**
    Reassembly under arbitrary interleaving of keys, each used by any number of messages one after the other: the
    messages of a key - whatever happens to the others - are delivered in turn, each exactly once, with its exact
    bytes, leaving no entry behind, iff each of them completes at its end.
  */
  lemma InterleavedReassembly(ins: seq<Arrival>, messages: map<Key, seq<Message>>, k: Key)
    requires k in messages && AllSent(messages[k]) && Only(ins, k) == Stretch(messages[k])
    ensures DeliveredInTurn(ins, messages[k], k) <==>
            forall i :: 0 <= i < |messages[k]| ==> Completes(messages[k][i])
  {
    hide Only, Stretch, TurnAt, Completes, Run, DeliveredFor, BytesOf, AllSent;
    var ms := messages[k];
    InTurnIff(ms);
    if InTurn(ms) {
      forall n: nat, i: nat | n <= |ins| && i <= |ms| && Only(ins[..n], k) == Stretch(ms[..i])
        ensures DeliveredFor(Run(ins[..n]).1, k) == BytesOf(ms[..i]) && k !in Run(ins[..n]).0
      {
        MomentIff(ins, ms, k, n, i);
      }
    }
    if DeliveredInTurn(ins, ms, k) {
      forall i: nat | i <= |ms| ensures TurnAt(ms, i) {
        StretchPrefix(ms, i);
        var n := OnlyPrefix(ins, k, |Stretch(ms[..i])|);
        MomentIff(ins, ms, k, n, i);
      }
    }
  }

  /** In the end all have been delivered, if each completes at its end. */
  lemma AllDelivered(ins: seq<Arrival>, messages: map<Key, seq<Message>>, k: Key)
    requires k in messages && AllSent(messages[k]) && Only(ins, k) == Stretch(messages[k])
    requires forall i :: 0 <= i < |messages[k]| ==> Completes(messages[k][i])
    ensures DeliveredFor(Run(ins).1, k) == BytesOf(messages[k]) && k !in Run(ins).0
  {
    hide Only, Stretch, Completes, Run, DeliveredFor, BytesOf, AllSent;
    InterleavedReassembly(ins, messages, k);
    assert ins[..|ins|] == ins && messages[k][..|messages[k]|] == messages[k];
  }

  lemma {:induction false} EntriesComeFromArrivals(ins: seq<Arrival>, k: Key)
    requires k in Run(ins).0
    ensures exists a :: a in ins && a.key == k
    decreases |ins|
  {
    var before, a := ins[..|ins| - 1], ins[|ins| - 1];
    if a.key != k {
      EntriesComeFromArrivals(before, k);
      var b :| b in before && b.key == k;
      assert b in ins;
    } else {
      assert a in ins;
    }
  }

  /** When all messages complete at their ends, nothing at all is left in the reassembler. */
  lemma NothingLeftBehind(ins: seq<Arrival>, messages: map<Key, seq<Message>>)
    requires forall a :: a in ins ==> a.key in messages
    requires forall k :: k in messages ==>
               && AllSent(messages[k]) && Only(ins, k) == Stretch(messages[k])
               && forall i :: 0 <= i < |messages[k]| ==> Completes(messages[k][i])
    ensures Run(ins).0 == map[]
    ensures forall k :: k in messages ==> DeliveredFor(Run(ins).1, k) == BytesOf(messages[k])
  {
    hide Only, Stretch, Completes, Run, DeliveredFor, BytesOf, AllSent;
    forall k | k in messages ensures DeliveredFor(Run(ins).1, k) == BytesOf(messages[k]) && k !in Run(ins).0 {
      AllDelivered(ins, messages, k);
    }
    forall k | k in Run(ins).0 ensures false {
      EntriesComeFromArrivals(ins, k);
    }
  }
}
