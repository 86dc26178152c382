/**
  Fragmentation and reassembly in the Qt radio (`ble_mesh/src/mesh_radio_qt.cpp`): a message is cut into
  pieces of one characteristic write each, and put together again from whatever order they arrive in.
*/
module Fragments {
  import opened Prelude

  const T_FRAG: byte := 0x46

  // ---- sender ----

  /** Bytes of payload per fragment: the ATT header takes 3 of the MTU, the fragment header 5. */
  function ChunkCap(mtu: int): (cap: nat)
    ensures cap >= 20
  {
    if mtu - 8 < 20 then 20 else mtu - 8
  }

  function Total(n: nat, cap: nat): nat
    requires cap > 0
  {
    (n + cap - 1) / cap
  }

  /** `substr(i * cap, cap)`, which stops at the end of the message. */
  function Piece(bytes: seq<byte>, cap: nat, i: nat): seq<byte> {
    if i * cap >= |bytes| then []
    else if (i + 1) * cap <= |bytes| then bytes[i * cap..(i + 1) * cap]
    else bytes[i * cap..]
  }

  function FragmentBytes(bytes: seq<byte>, cap: nat, id: nat, i: nat): seq<byte>
    requires cap > 0
  {
    [T_FRAG, id / 256 % 256, id % 256, i % 256, Total(|bytes|, cap) % 256] + Piece(bytes, cap, i)
  }

  function AllFragments(bytes: seq<byte>, cap: nat, id: nat): seq<seq<byte>>
    requires cap > 0
  {
    seq(Total(|bytes|, cap), i requires 0 <= i => FragmentBytes(bytes, cap, id, i))
  }

  /** An ATT write of an mtu of bytes carries 3 fewer. */
  predicate FitsWrite(fragment: seq<byte>, mtu: int) {
    |fragment| <= mtu - 3
  }

  lemma FragmentSize(bytes: seq<byte>, cap: nat, id: nat, i: nat)
    requires cap > 0
    ensures |FragmentBytes(bytes, cap, id, i)| <= 5 + cap
    ensures |bytes| == cap && i == 0 ==> |FragmentBytes(bytes, cap, id, i)| == 5 + cap
  {
    hide Total;
    assert (i + 1) * cap == i * cap + cap;
  }

  /** Every fragment of every message fits one write iff the mtu is at least 28: below, 20 bytes are too many. */
  lemma FragmentsFitIff(mtu: int)
    ensures (forall bytes, id: nat, i: nat :: FitsWrite(FragmentBytes(bytes, ChunkCap(mtu), id, i), mtu)) <==> mtu >= 28
  {
    hide FragmentBytes;
    if mtu >= 28 {
      forall bytes, id: nat, i: nat ensures FitsWrite(FragmentBytes(bytes, ChunkCap(mtu), id, i), mtu) {
        FragmentSize(bytes, ChunkCap(mtu), id, i);
      }
    } else {
      var bytes: seq<byte> := seq(20, _ => 0);
      FragmentSize(bytes, 20, 0, 0);
      assert !FitsWrite(FragmentBytes(bytes, ChunkCap(mtu), 0, 0), mtu);
    }
  }

  /** From that mtu on the fragment size of the link is the greatest that fits. */
  lemma LargestThatFitsIff(mtu: int, cap: nat)
    requires mtu >= 28 && cap > 0
    ensures (forall bytes, id: nat, i: nat :: FitsWrite(FragmentBytes(bytes, cap, id, i), mtu)) <==>
            cap <= ChunkCap(mtu)
  {
    hide FragmentBytes;
    if cap <= ChunkCap(mtu) {
      forall bytes, id: nat, i: nat ensures FitsWrite(FragmentBytes(bytes, cap, id, i), mtu) {
        FragmentSize(bytes, cap, id, i);
      }
    } else {
      var bytes: seq<byte> := seq(cap, _ => 0);
      FragmentSize(bytes, cap, 0, 0);
      assert !FitsWrite(FragmentBytes(bytes, cap, 0, 0), mtu);
    }
  }

  /** On the wire: type, message id and index and count of the fragment, most significant byte first. */
  lemma FragmentsOnTheWire()
    ensures AllFragments([7, 8, 9], 2, 0x0102) == [[0x46, 0x01, 0x02, 0, 2, 7, 8], [0x46, 0x01, 0x02, 1, 2, 9]]
  {
    var bytes: seq<byte> := [7, 8, 9];
    assert bytes[0..2] == [7, 8] && bytes[2..] == [9];
    assert FragmentBytes(bytes, 2, 0x0102, 0) == [0x46, 1, 2, 0, 2, 7, 8];
    assert FragmentBytes(bytes, 2, 0x0102, 1) == [0x46, 1, 2, 1, 2, 9];
  }

  /**
    A link to one neighbour. `wire` lists the fragments written to the characteristic, `announces` counts the
    announcements written to the same characteristic past the queue, `timers` the 15 ms timers that have been
    set and not yet fired.
  */
  datatype LinkState = LinkState(
    ready: bool, writing: bool, outQ: seq<seq<byte>>, wire: seq<seq<byte>>, announces: nat, timers: nat)

  function Drained(l: LinkState): LinkState {
    if l.writing || l.outQ == [] || !l.ready then l
    else l.(writing := true, outQ := l.outQ[1..], wire := l.wire + [l.outQ[0]], timers := l.timers + 1)
  }

  class Link {
    var mtu: int
    var ready: bool
    var writing: bool
    var outQ: seq<seq<byte>>
    var wire: seq<seq<byte>>
    var announces: nat
    var timers: nat

    function State(): LinkState
      reads this
    {
      LinkState(ready, writing, outQ, wire, announces, timers)
    }

    method Drain()
      modifies this`writing, this`outQ, this`wire, this`timers
      ensures State() == Drained(old(State()))
      ensures wire + outQ == old(wire + outQ)
    {
      if writing || outQ == [] || !ready {
        return;
      }
      var f := outQ[0];
      outQ := outQ[1..];
      writing := true;
      wire := wire + [f];
      timers := timers + 1;
    }

    /** The characteristic becomes usable, and the link announces itself. */
    method Discovered()
      modifies this`ready, this`announces
      ensures State() == LinkStep(old(State()), Ready)
    {
      ready := true;
      AnnounceTo();
    }

    /** Written at once, whatever the queue is doing; also the answer to every incoming announcement. */
    method AnnounceTo()
      modifies this`announces
      ensures State() == LinkStep(old(State()), Announce)
    {
      if ready {
        announces := announces + 1;
      }
    }

    /** The handler of `characteristicWritten`, which does not tell whose write was completed. */
    method WriteDone()
      modifies this`writing, this`outQ, this`wire, this`timers
      ensures State() == LinkStep(old(State()), Reported) == LinkStep(old(State()), AnnounceReported)
      ensures wire + outQ == old(wire + outQ)
    {
      writing := false;
      Drain();
    }

    /** One of the timers, which stand in for `characteristicWritten` where the stack does not report it. */
    method TimerFires()
      requires timers > 0
      modifies this`writing, this`outQ, this`wire, this`timers
      ensures State() == LinkStep(old(State()), Timer)
      ensures wire + outQ == old(wire + outQ)
    {
      timers := timers - 1;
      writing := false;
      Drain();
    }
  }

  // ---- one write at a time ----

  /** A write completes with a report (`Reported`) or without one (`Silent`); so does that of an announcement. */
  datatype LinkEvent =
    | Ready
    | Announce
    | Enqueue(fragments: seq<seq<byte>>)
    | Reported
    | Silent
    | AnnounceReported
    | AnnounceSilent
    | Timer

  function LinkStep(l: LinkState, ev: LinkEvent): LinkState
    requires ev.Timer? ==> l.timers > 0
  {
    match ev
    case Ready => l.(ready := true, announces := l.announces + 1)
    case Announce => if l.ready then l.(announces := l.announces + 1) else l
    case Enqueue(fs) => Drained(l.(outQ := l.outQ + fs))
    case Reported => Drained(l.(writing := false))
    case Silent => l
    case AnnounceReported => Drained(l.(writing := false))
    case AnnounceSilent => l
    case Timer => Drained(l.(writing := false, timers := l.timers - 1))
  }

  /** A link together with the number of its fragments and of its announcements whose writes have completed. */
  datatype LinkRun = LinkRun(link: LinkState, completed: nat, announced: nat)

  /** Fragment writes under way. */
  function Outstanding(s: LinkRun): int {
    |s.link.wire| - s.completed
  }

  predicate LinkEnabled(s: LinkRun, ev: LinkEvent) {
    match ev
    case Timer => s.link.timers > 0
    case Reported => Outstanding(s) > 0
    case Silent => Outstanding(s) > 0
    case AnnounceReported => s.announced < s.link.announces
    case AnnounceSilent => s.announced < s.link.announces
    case _ => true
  }

  function LinkRunStep(s: LinkRun, ev: LinkEvent): LinkRun
    requires LinkEnabled(s, ev)
  {
    LinkRun(LinkStep(s.link, ev),
            s.completed + (if ev.Reported? || ev.Silent? then 1 else 0),
            s.announced + if ev.AnnounceReported? || ev.AnnounceSilent? then 1 else 0)
  }

  ghost predicate LinkFeasible(s: LinkRun, run: seq<LinkEvent>)
    decreases |run|
  {
    run == [] || (LinkEnabled(s, run[0]) && LinkFeasible(LinkRunStep(s, run[0]), run[1..]))
  }

  /** At most one fragment write is under way. */
  predicate OneWrite(s: LinkRun) {
    0 <= Outstanding(s) <= 1
  }

  /** The step starts a fragment write while another is under way. */
  predicate StartsTooSoon(s: LinkRun, ev: LinkEvent) {
    && s.link.ready && Outstanding(s) > 0
    && (|| ((ev.Timer? || ev.AnnounceReported?) && s.link.outQ != [])
        || (ev.Enqueue? && !s.link.writing && s.link.outQ + ev.fragments != []))
  }

  ghost predicate AlwaysOneWrite(s: LinkRun, run: seq<LinkEvent>)
    requires LinkFeasible(s, run)
    decreases |run|
  {
    OneWrite(s) && (run != [] ==> AlwaysOneWrite(LinkRunStep(s, run[0]), run[1..]))
  }

  ghost predicate NeverTooSoon(s: LinkRun, run: seq<LinkEvent>)
    requires LinkFeasible(s, run)
    decreases |run|
  {
    run != [] ==> !StartsTooSoon(s, run[0]) && NeverTooSoon(LinkRunStep(s, run[0]), run[1..])
  }

  lemma StepKeepsOneWriteIff(s: LinkRun, ev: LinkEvent)
    requires OneWrite(s) && LinkEnabled(s, ev)
    ensures OneWrite(LinkRunStep(s, ev)) <==> !StartsTooSoon(s, ev)
  {
  }

  /**
    The queue is meant to write one fragment at a time, the next when the last is done. In any run it does so
    exactly as long as, while a fragment write is under way on a ready link, no timer fires and no announcement
    is reported written with fragments waiting, and nothing is queued on a link whose writing flag one of these
    has cleared.
  */
  lemma {:induction false} OneWriteAtATimeIff(s: LinkRun, run: seq<LinkEvent>)
    requires OneWrite(s) && LinkFeasible(s, run)
    ensures AlwaysOneWrite(s, run) <==> NeverTooSoon(s, run)
    decreases |run|
  {
    hide OneWrite, LinkRunStep, StartsTooSoon;
    if run != [] {
      StepKeepsOneWriteIff(s, run[0]);
      if OneWrite(LinkRunStep(s, run[0])) {
        OneWriteAtATimeIff(LinkRunStep(s, run[0]), run[1..]);
      } else {
        NotNow(LinkRunStep(s, run[0]), run[1..]);
      }
    }
  }

  lemma NotNow(s: LinkRun, run: seq<LinkEvent>)
    requires !OneWrite(s) && LinkFeasible(s, run)
    ensures !AlwaysOneWrite(s, run)
  {
  }

  /** While a fragment write is under way, only its own report clears the flag. */
  ghost predicate OnlyOwnReports(s: LinkRun, run: seq<LinkEvent>)
    requires LinkFeasible(s, run)
    decreases |run|
  {
    run != [] ==>
      && !((run[0].Timer? || run[0].AnnounceReported?) && Outstanding(s) > 0)
      && OnlyOwnReports(LinkRunStep(s, run[0]), run[1..])
  }

  /** The link knows of the write that is under way. */
  predicate Aware(s: LinkRun) {
    OneWrite(s) && (Outstanding(s) == 1 ==> s.link.writing)
  }

  lemma StepStaysAware(s: LinkRun, ev: LinkEvent)
    requires Aware(s) && LinkEnabled(s, ev) && !((ev.Timer? || ev.AnnounceReported?) && Outstanding(s) > 0)
    ensures Aware(LinkRunStep(s, ev)) && !StartsTooSoon(s, ev)
  {
  }

  /** In particular it does so if every fragment write is over before a timer fires or an announcement is reported. */
  lemma {:induction false} PromptWritesSuffice(s: LinkRun, run: seq<LinkEvent>)
    requires Aware(s) && LinkFeasible(s, run) && OnlyOwnReports(s, run)
    ensures NeverTooSoon(s, run) && AlwaysOneWrite(s, run)
    decreases |run|
  {
    hide LinkRunStep, LinkEnabled, StartsTooSoon;
    if run != [] {
      StepStaysAware(s, run[0]);
      PromptWritesSuffice(LinkRunStep(s, run[0]), run[1..]);
    }
  }

  const IDLE_LINK: LinkRun := LinkRun(LinkState(true, false, [], [], 0, 0), 0, 0)

  /** Three fragments on an idle link: the first is reported in time, and its timer then releases the third. */
  lemma StaleTimerOverlapsWrites(a: seq<byte>, b: seq<byte>, c: seq<byte>)
    ensures var s1 := LinkRunStep(IDLE_LINK, Enqueue([a, b, c]));
            LinkEnabled(s1, Reported) &&
            var s2 := LinkRunStep(s1, Reported);
            LinkEnabled(s2, Timer) && OneWrite(s2) && Outstanding(LinkRunStep(s2, Timer)) == 2
  {
    var l := IDLE_LINK.link;
    assert [] + [a, b, c] == [a, b, c];
    assert [a, b, c][1..] == [b, c] && [b, c][1..] == [c];
  }

  /**
    Two fragments on an idle link, and an announcement comes in: the answer is written at once, and the report of
    that write releases the second fragment while the first is under way. No timer has fired, nothing was queued.
  */
  lemma AnnouncementOverlapsWrites(a: seq<byte>, b: seq<byte>)
    ensures var s1 := LinkRunStep(IDLE_LINK, Enqueue([a, b]));
            var s2 := LinkRunStep(s1, Announce);
            LinkEnabled(s2, AnnounceReported) && OneWrite(s2) && Outstanding(LinkRunStep(s2, AnnounceReported)) == 2
  {
    assert [] + [a, b] == [a, b];
    assert [a, b][1..] == [b];
  }

  /** The announcements that an event leads to. */
  function AnnouncedBy(ready: bool, ev: LinkEvent): nat {
    if ev.Ready? || (ev.Announce? && ready) then 1 else 0
  }

  function Announcements(ready: bool, run: seq<LinkEvent>): nat
    decreases |run|
  {
    if run == [] then 0 else AnnouncedBy(ready, run[0]) + Announcements(ready || run[0].Ready?, run[1..])
  }

  /**
    In every run a link is usable from the first `Ready` on, and the announcements written are one for each `Ready`
    and one for each that comes in from then on.
  */
  lemma {:induction false} AnnouncementsWritten(s: LinkRun, run: seq<LinkEvent>)
    requires LinkFeasible(s, run)
    ensures LinkEnd(s, run).link.ready == (s.link.ready || LinkEvent.Ready in run)
    ensures LinkEnd(s, run).link.announces == s.link.announces + Announcements(s.link.ready, run)
    decreases |run|
  {
    if run != [] {
      AnnouncementsWritten(LinkRunStep(s, run[0]), run[1..]);
      assert run == [run[0]] + run[1..];
    }
  }

  function EnqueuedBy(ev: LinkEvent): seq<seq<byte>> {
    if ev.Enqueue? then ev.fragments else []
  }

  function Enqueued(run: seq<LinkEvent>): seq<seq<byte>> {
    if run == [] then [] else EnqueuedBy(run[0]) + Enqueued(run[1..])
  }

  ghost function LinkEnd(s: LinkRun, run: seq<LinkEvent>): LinkRun
    requires LinkFeasible(s, run)
    decreases |run|
  {
    if run == [] then s else LinkEnd(LinkRunStep(s, run[0]), run[1..])
  }

  lemma StepKeepsOrder(s: LinkRun, ev: LinkEvent)
    requires LinkEnabled(s, ev)
    ensures var l := LinkRunStep(s, ev).link;
            l.wire + l.outQ == s.link.wire + s.link.outQ + EnqueuedBy(ev) && s.link.wire <= l.wire
  {
    var all := s.link.wire + s.link.outQ;
    assert all + EnqueuedBy(ev) == s.link.wire + (s.link.outQ + EnqueuedBy(ev));
  }

  /** Whatever the timers do, fragments leave in the order they were queued. */
  lemma {:induction false} QueueKeepsOrder(s: LinkRun, run: seq<LinkEvent>)
    requires LinkFeasible(s, run)
    ensures var end := LinkEnd(s, run).link;
            end.wire + end.outQ == s.link.wire + s.link.outQ + Enqueued(run) && s.link.wire <= end.wire
    decreases |run|
  {
    hide LinkRunStep, LinkEnabled;
    if run == [] {
      assert s.link.wire + s.link.outQ + [] == s.link.wire + s.link.outQ;
    } else {
      StepKeepsOrder(s, run[0]);
      QueueKeepsOrder(LinkRunStep(s, run[0]), run[1..]);
      var all := s.link.wire + s.link.outQ;
      assert all + EnqueuedBy(run[0]) + Enqueued(run[1..]) == all + Enqueued(run);
    }
  }

  /** `m_msgId++` on 16 bits. */
  function NextId(id: nat): nat {
    (id + 1) % 65536
  }

  /** The id of the n-th message of a radio. */
  function IdOf(n: nat): nat {
    if n == 0 then 0 else NextId(IdOf(n - 1))
  }

  lemma IdAfter(n: nat)
    ensures NextId(n % 65536) == (n + 1) % 65536
  {
    var q, r := n / 65536, n % 65536;
    if r < 65535 {
      assert n + 1 == 65536 * q + (r + 1);
    } else {
      assert n + 1 == 65536 * (q + 1);
    }
  }

  lemma {:induction false} IdIs(n: nat)
    ensures IdOf(n) == n % 65536
  {
    hide NextId;
    if n > 0 {
      IdIs(n - 1);
      IdAfter(n - 1);
    }
  }

  lemma SameIdIff(i: nat, j: nat)
    requires i <= j
    ensures i % 65536 == j % 65536 <==> (j - i) % 65536 == 0
  {
    var a, b := i / 65536, j / 65536;
    assert j - i == 65536 * (b - a) + (j % 65536 - i % 65536);
  }

  /** Two messages of a radio have the same id iff a multiple of 2^16 messages lies between them. */
  lemma IdsRepeatIff(i: nat, j: nat)
    requires i <= j
    ensures IdOf(i) == IdOf(j) <==> (j - i) % 0x1_0000 == 0
  {
    hide IdOf;
    IdIs(i);
    IdIs(j);
    SameIdIff(i, j);
  }

  class Radio {
    var msgId: nat

    ghost predicate Valid()
      reads this
    {
      msgId < 65536
    }

    constructor ()
      ensures Valid() && msgId == 0
    {
      msgId := 0;
    }

    /** Whatever was queued or written before, the new message's fragments follow it, in order. */
    method EnqueueFragments(link: Link, bytes: seq<byte>)
      requires Valid()
      modifies this, link`writing, link`outQ, link`wire, link`timers
      ensures Valid() && msgId == NextId(old(msgId))
      ensures link.State() == LinkStep(old(link.State()), Enqueue(AllFragments(bytes, ChunkCap(link.mtu), old(msgId))))
      ensures link.wire + link.outQ == old(link.wire + link.outQ) + AllFragments(bytes, ChunkCap(link.mtu), old(msgId))
    {
      var cap := ChunkCap(link.mtu);
      var total := Total(|bytes|, cap);
      var id := msgId;
      msgId := NextId(msgId);
      for i := 0 to total
        invariant link.State() == old(link.State()).(outQ := link.outQ)
        invariant link.outQ == old(link.outQ) + AllFragments(bytes, cap, id)[..i]
        invariant Valid() && msgId == NextId(id)
      {
        var f := FragmentBytes(bytes, cap, id, i);
        assert AllFragments(bytes, cap, id)[..i + 1] == AllFragments(bytes, cap, id)[..i] + [f];
        link.outQ := link.outQ + [f];
      }
      assert AllFragments(bytes, cap, id)[..total] == AllFragments(bytes, cap, id);
      assert link.wire + link.outQ == old(link.wire + link.outQ) + AllFragments(bytes, cap, id);
      link.Drain();
    }
  }

  // ---- receiver ----

  /** The source joins sender address and message id into one string; only equality matters. */
  datatype Key = Key(addr: string, id: nat)

  datatype Part = Part(idx: nat, count: nat, data: seq<byte>)

  datatype Entry = Entry(count: nat, parts: map<nat, seq<byte>>)

  /** The parts below index `n`, in ascending order, as the ordered map of the source lists them. */
  function Join(parts: map<nat, seq<byte>>, n: nat): seq<byte> {
    if n == 0 then [] else Join(parts, n - 1) + if n - 1 in parts then parts[n - 1] else []
  }

  /** What one fragment does to the entry of its key, and the message it completes, if any. */
  function PartStep(st: Option<Entry>, p: Part): (Option<Entry>, seq<seq<byte>>) {
    var parts := (if st.Some? then st.value.parts else map[])[p.idx := p.data];
    if |parts| == p.count then (None, [Join(parts, 256)]) else (Some(Entry(p.count, parts)), [])
  }

  function Lookup(reasm: map<Key, Entry>, k: Key): Option<Entry> {
    if k in reasm then Some(reasm[k]) else None
  }

  function Store(reasm: map<Key, Entry>, k: Key, st: Option<Entry>): map<Key, Entry> {
    if st.Some? then reasm[k := st.value] else reasm - {k}
  }

  /** The loop over the ordered parts. */
  method JoinParts(parts: map<nat, seq<byte>>) returns (whole: seq<byte>)
    ensures whole == Join(parts, 256)
  {
    whole := [];
    for i: nat := 0 to 256
      invariant whole == Join(parts, i)
    {
      if i in parts {
        whole := whole + parts[i];
      }
    }
  }

  datatype Arrival = Arrival(key: Key, part: Part)

  /** Reading the fragment header; anything else is not a fragment. */
  function ReadFragment(addr: string, value: seq<byte>): Option<Arrival> {
    if |value| < 5 || value[0] != T_FRAG then None
    else Some(Arrival(Key(addr, value[1] as nat * 256 + value[2] as nat), Part(value[3], value[4], value[5..])))
  }

  function ArrivalStep(reasm: map<Key, Entry>, a: Arrival): (map<Key, Entry>, seq<seq<byte>>) {
    var (st, out) := PartStep(Lookup(reasm, a.key), a.part);
    (Store(reasm, a.key, st), out)
  }

  class Reassembler {
    var reasm: map<Key, Entry>

    constructor ()
      ensures reasm == map[]
    {
      reasm := map[];
    }

    /** The fragment branch of `onIncoming`; `rx` lists what is handed to the mesh by this call. */
    method OnIncoming(addr: string, value: seq<byte>) returns (rx: seq<seq<byte>>)
      modifies this
      ensures ReadFragment(addr, value).None? ==> rx == [] && reasm == old(reasm)
      ensures ReadFragment(addr, value).Some? ==>
                (reasm, rx) == ArrivalStep(old(reasm), ReadFragment(addr, value).value)
    {
      hide Join;
      rx := [];
      if |value| < 5 || value[0] != T_FRAG {
        return;
      }
      var key := Key(addr, value[1] as nat * 256 + value[2] as nat);
      var idx, count: nat := value[3], value[4];
      var parts := (if key in reasm then reasm[key].parts else map[])[idx := value[5..]];
      reasm := reasm[key := Entry(count, parts)];
      if |parts| == count {
        var whole := JoinParts(parts);
        assert reasm - {key} == old(reasm) - {key};
        reasm := reasm - {key};
        rx := [whole];
      }
    }
  }

  // ---- one message ----

  /** The fragments of a message as the receiver reads them. */
  function PartOf(bytes: seq<byte>, cap: nat, i: nat): Part
    requires cap > 0
  {
    Part(i % 256, Total(|bytes|, cap) % 256, Piece(bytes, cap, i))
  }

  /** The wire form carries exactly these. */
  lemma FragmentReadsBack(addr: string, bytes: seq<byte>, cap: nat, id: nat, i: nat)
    requires cap > 0 && id < 65536
    ensures ReadFragment(addr, FragmentBytes(bytes, cap, id, i)) == Some(Arrival(Key(addr, id), PartOf(bytes, cap, i)))
  {
    var v := FragmentBytes(bytes, cap, id, i);
    assert v[5..] == Piece(bytes, cap, i);
    assert id / 256 % 256 == id / 256;
  }

  /** The shortest fragment has five bytes, and an empty piece. */
  lemma ShortestFragment(addr: string, a: byte, b: byte, c: byte, d: byte)
    ensures ReadFragment(addr, [0x46, a, b, c, d]) == Some(Arrival(Key(addr, a as int * 256 + b), Part(c, d, [])))
    ensures ReadFragment(addr, [0x46, a, b, c]) == None && ReadFragment(addr, [0x41, a, b, c, d]) == None
  {
    assert [0x46, a, b, c, d][5..] == [];
  }

  /** All parts of one key, in arrival order, starting from entry `st`, if there is one. */
  function KeyRunFrom(st: Option<Entry>, ps: seq<Part>): (Option<Entry>, seq<seq<byte>>) {
    if ps == [] then (st, [])
    else
      var (before, out) := KeyRunFrom(st, ps[..|ps| - 1]);
      var (after, more) := PartStep(before, ps[|ps| - 1]);
      (after, out + more)
  }

  /** The same for a key without an entry. */
  function KeyRun(ps: seq<Part>): (Option<Entry>, seq<seq<byte>>) {
    KeyRunFrom(None, ps)
  }

  function PartsOf(bytes: seq<byte>, cap: nat, js: seq<nat>): seq<Part>
    requires cap > 0
  {
    seq(|js|, k requires 0 <= k < |js| => PartOf(bytes, cap, js[k]))
  }

  ghost predicate InRange(js: seq<nat>, total: nat) {
    forall j :: j in js ==> j < total
  }

  ghost predicate Complete(js: seq<nat>, total: nat) {
    forall i: nat :: i < total ==> i in js
  }

  lemma FrontFacts(js: seq<nat>, total: nat)
    requires js != [] && InRange(js, total)
    ensures InRange(js[..|js| - 1], total)
    ensures Complete(js[..|js| - 1], total) ==> Complete(js, total)
  {
    var front := js[..|js| - 1];
    forall j | j in front ensures j in js {
      var k :| 0 <= k < |front| && front[k] == j;
      assert js[k] == j;
    }
  }

  /** The last arrival is the one that completes the message. */
  ghost predicate CompletesAtEnd(js: seq<nat>, total: nat) {
    js != [] && Complete(js, total) && !Complete(js[..|js| - 1], total)
  }

  ghost function Collected(bytes: seq<byte>, cap: nat, js: seq<nat>): map<nat, seq<byte>>
    requires cap > 0
  {
    map i | i in js :: Piece(bytes, cap, i)
  }

  /** How many fragments a message of n bytes makes: the last one is not empty and nothing follows it. */
  lemma TotalBounds(n: nat, cap: nat)
    requires cap > 0
    ensures n <= Total(n, cap) * cap < n + cap
  {
    var m := n + cap - 1;
    assert m == cap * (m / cap) + m % cap;
  }

  lemma PieceExtends(bytes: seq<byte>, cap: nat, i: nat)
    requires i * cap <= |bytes|
    ensures bytes[..i * cap] + Piece(bytes, cap, i) ==
            if (i + 1) * cap <= |bytes| then bytes[..(i + 1) * cap] else bytes
  {
    assert (i + 1) * cap == i * cap + cap;
  }

  /** Joining the pieces in index order gives the message back. */
  lemma {:induction false} JoinPieces(bytes: seq<byte>, cap: nat, parts: map<nat, seq<byte>>, n: nat)
    requires cap > 0
    requires forall i: nat :: i in parts <==> i < Total(|bytes|, cap)
    requires forall i :: i in parts ==> parts[i] == Piece(bytes, cap, i)
    ensures Join(parts, n) == if n * cap <= |bytes| then bytes[..n * cap] else bytes
  {
    hide Piece, Total;
    var total := Total(|bytes|, cap);
    TotalBounds(|bytes|, cap);
    if n != 0 {
      JoinPieces(bytes, cap, parts, n - 1);
      assert n * cap == (n - 1) * cap + cap;
      if n <= total {
        LastPieceStarts(|bytes|, cap, n - 1);
        PieceExtends(bytes, cap, n - 1);
      } else {
        Times(total, n - 1, cap);
        assert bytes + [] == bytes;
        if (n - 1) * cap <= |bytes| {
          assert bytes[..(n - 1) * cap] == bytes;
        }
      }
    } else {
      assert bytes[..0] == [];
    }
  }

  /** Every piece of a message starts inside it. */
  lemma LastPieceStarts(n: nat, cap: nat, i: nat)
    requires cap > 0 && i < Total(n, cap)
    ensures i * cap <= n
  {
    TotalBounds(n, cap);
    Times(i + 1, Total(n, cap), cap);
    assert (i + 1) * cap == i * cap + cap;
  }

  lemma AddLast(bytes: seq<byte>, cap: nat, js: seq<nat>)
    requires cap > 0 && js != []
    ensures var j := js[|js| - 1];
            Collected(bytes, cap, js) == Collected(bytes, cap, js[..|js| - 1])[j := Piece(bytes, cap, j)]
    ensures js[..|js| - 1] == [] ==> Collected(bytes, cap, js[..|js| - 1]) == map[]
  {
    var before, j := js[..|js| - 1], js[|js| - 1];
    assert js == before + [j];
    var a, b := Collected(bytes, cap, js), Collected(bytes, cap, before)[j := Piece(bytes, cap, j)];
    assert a.Keys == b.Keys;
    assert forall i :: i in a ==> a[i] == b[i];
  }

  lemma LastPart(bytes: seq<byte>, cap: nat, js: seq<nat>)
    requires cap > 0 && js != [] && Total(|bytes|, cap) <= 255 && InRange(js, Total(|bytes|, cap))
    ensures var ps, j := PartsOf(bytes, cap, js), js[|js| - 1];
            && ps[..|ps| - 1] == PartsOf(bytes, cap, js[..|js| - 1])
            && ps[|ps| - 1] == Part(j, Total(|bytes|, cap), Piece(bytes, cap, j))
  {
    hide Piece, Total;
    assert js[|js| - 1] in js;
  }

  /** One more arrival on top of an unfinished message. */
  lemma LastArrival(bytes: seq<byte>, cap: nat, js: seq<nat>)
    requires cap > 0 && 1 <= Total(|bytes|, cap) <= 255 && js != []
    requires InRange(js, Total(|bytes|, cap))
    requires var front := js[..|js| - 1];
             KeyRun(PartsOf(bytes, cap, front)) == (Unfinished(bytes, cap, front), [])
    ensures KeyRun(PartsOf(bytes, cap, js)) ==
            if Complete(js, Total(|bytes|, cap)) then (None, [Join(Collected(bytes, cap, js), 256)])
            else (Unfinished(bytes, cap, js), [])
  {
    hide Join, Piece, Total;
    var total, j := Total(|bytes|, cap), js[|js| - 1];
    var front, ps := js[..|js| - 1], PartsOf(bytes, cap, js);
    LastPart(bytes, cap, js);
    AddLast(bytes, cap, js);
    Below(Elems(js), total);
    assert Collected(bytes, cap, js).Keys == Elems(js);
    var step := PartStep(Unfinished(bytes, cap, front), ps[|ps| - 1]);
    assert KeyRun(ps) == (step.0, [] + step.1);
    assert [] + step.1 == step.1;
  }

  /** The entry of a message whose fragments have not all arrived. */
  ghost function Unfinished(bytes: seq<byte>, cap: nat, js: seq<nat>): Option<Entry>
    requires cap > 0
  {
    if js == [] then None else Some(Entry(Total(|bytes|, cap), Collected(bytes, cap, js)))
  }

  /** Until every index has arrived, the entry holds what has arrived and nothing is delivered. */
  lemma {:induction false} StillCollecting(bytes: seq<byte>, cap: nat, js: seq<nat>)
    requires cap > 0 && 1 <= Total(|bytes|, cap) <= 255
    requires InRange(js, Total(|bytes|, cap))
    requires !Complete(js, Total(|bytes|, cap))
    ensures KeyRun(PartsOf(bytes, cap, js)) == (Unfinished(bytes, cap, js), [])
    decreases |js|
  {
    hide Join, Piece, Total;
    if js != [] {
      FrontFacts(js, Total(|bytes|, cap));
      StillCollecting(bytes, cap, js[..|js| - 1]);
      LastArrival(bytes, cap, js);
    }
  }

  /** The arrival that completes the message delivers its bytes and removes the entry. */
  lemma CompletionDelivers(bytes: seq<byte>, cap: nat, js: seq<nat>)
    requires cap > 0 && 1 <= Total(|bytes|, cap) <= 255
    requires InRange(js, Total(|bytes|, cap))
    requires CompletesAtEnd(js, Total(|bytes|, cap))
    ensures KeyRun(PartsOf(bytes, cap, js)) == (None, [bytes])
  {
    hide Join, Piece, Total, KeyRun;
    var total := Total(|bytes|, cap);
    FrontFacts(js, total);
    StillCollecting(bytes, cap, js[..|js| - 1]);
    LastArrival(bytes, cap, js);
    assert forall i: nat :: i in Collected(bytes, cap, js) <==> i < total;
    JoinPieces(bytes, cap, Collected(bytes, cap, js), 256);
    TotalBounds(|bytes|, cap);
    Times(total, 255, cap);
  }

  lemma {:induction false} DeliveriesGrow(ps: seq<Part>, n: nat)
    requires n <= |ps|
    ensures KeyRun(ps[..n]).1 <= KeyRun(ps).1
    decreases |ps| - n
  {
    if n < |ps| {
      DeliveriesGrow(ps, n + 1);
      assert ps[..n + 1][..n] == ps[..n];
    } else {
      assert ps[..n] == ps;
    }
  }

  /** A complete set of fragments has been delivered at least once. */
  lemma {:induction false} CompleteMeansDelivered(bytes: seq<byte>, cap: nat, js: seq<nat>)
    requires cap > 0 && 1 <= Total(|bytes|, cap) <= 255
    requires InRange(js, Total(|bytes|, cap))
    requires Complete(js, Total(|bytes|, cap))
    ensures KeyRun(PartsOf(bytes, cap, js)).1 != []
    decreases |js|
  {
    assert js != [] by {
      assert 0 in js;
    }
    var before, ps := js[..|js| - 1], PartsOf(bytes, cap, js);
    assert ps[..|ps| - 1] == PartsOf(bytes, cap, before);
    FrontFacts(js, Total(|bytes|, cap));
    if Complete(before, Total(|bytes|, cap)) {
      CompleteMeansDelivered(bytes, cap, before);
    } else {
      CompletionDelivers(bytes, cap, js);
    }
  }

  /**
    One message of up to 255 fragments, arriving in any order and with repetitions: it is delivered exactly
    once, byte for byte, and leaves no entry behind, iff every fragment arrives and the last arrival is the
    one that completes it - that is, no duplicate comes after completion.
  */
  lemma ReassembledIff(bytes: seq<byte>, cap: nat, js: seq<nat>)
    requires cap > 0 && 1 <= Total(|bytes|, cap) <= 255
    requires InRange(js, Total(|bytes|, cap))
    ensures KeyRun(PartsOf(bytes, cap, js)) == (None, [bytes]) <==> CompletesAtEnd(js, Total(|bytes|, cap))
  {
    var total := Total(|bytes|, cap);
    if CompletesAtEnd(js, total) {
      CompletionDelivers(bytes, cap, js);
    } else if !Complete(js, total) {
      hide Total;
      StillCollecting(bytes, cap, js);
    } else if js != [] {
      var ps := PartsOf(bytes, cap, js);
      assert ps[..|ps| - 1] == PartsOf(bytes, cap, js[..|js| - 1]);
      FrontFacts(js, Total(|bytes|, cap));
      CompleteMeansDelivered(bytes, cap, js[..|js| - 1]);
    }
  }

  // ---- the limit of 255 fragments ----

  function UpTo(n: nat): seq<nat> {
    seq(n, i requires 0 <= i => i)
  }

  lemma UpToCompletes(n: nat)
    requires n >= 1
    ensures CompletesAtEnd(UpTo(n), n)
    ensures InRange(UpTo(n), n)
  {
    forall i: nat | i < n ensures i in UpTo(n) {
      assert UpTo(n)[i] == i;
    }
    assert n - 1 !in UpTo(n)[..n - 1];
  }

  lemma {:induction false} ZeroCountNeverDelivers(ps: seq<Part>)
    requires forall p :: p in ps ==> p.count == 0
    ensures KeyRun(ps).1 == []
    decreases |ps|
  {
    if ps != [] {
      ZeroCountNeverDelivers(ps[..|ps| - 1]);
      assert ps[|ps| - 1] in ps;
    }
  }

  lemma TotalOfMultiple(c: nat, cap: nat)
    requires cap > 0
    ensures Total(c * cap, cap) == c
  {
    var t := Total(c * cap, cap);
    TotalBounds(c * cap, cap);
    if t < c {
      Times(t + 1, c, cap);
    } else if t > c {
      Times(c + 1, t, cap);
    }
  }

  lemma PieceOfPrefix(bytes: seq<byte>, cap: nat, c: nat, i: nat)
    requires i < c && c * cap <= |bytes|
    ensures Piece(bytes[..c * cap], cap, i) == Piece(bytes, cap, i)
  {
    Times(i + 1, c, cap);
    assert i * cap <= (i + 1) * cap;
  }

  /** The first fragments of a message read like the fragments of its beginning. */
  lemma BeginningLooksWhole(bytes: seq<byte>, cap: nat, c: nat)
    requires cap > 0 && c == Total(|bytes|, cap) % 256 && 1 <= c < Total(|bytes|, cap)
    ensures c * cap < |bytes|
    ensures Total(c * cap, cap) == c
    ensures PartsOf(bytes[..c * cap], cap, UpTo(c)) == PartsOf(bytes, cap, UpTo(Total(|bytes|, cap)))[..c]
  {
    hide Total, Piece, PartOf;
    var total := Total(|bytes|, cap);
    BeginningEnds(|bytes|, cap, c);
    forall i: nat | i < c ensures PartOf(bytes[..c * cap], cap, i) == PartOf(bytes, cap, i) {
      SamePart(bytes, cap, c, i);
    }
    assert forall i: nat :: i < c ==> UpTo(c)[i] == i && UpTo(total)[i] == i;
  }

  lemma BeginningEnds(n: nat, cap: nat, c: nat)
    requires cap > 0 && 1 <= c < Total(n, cap)
    ensures c * cap < n && Total(c * cap, cap) == c
  {
    hide Total;
    var total := Total(n, cap);
    TotalBounds(n, cap);
    Times(c, total - 1, cap);
    assert (total - 1) * cap == total * cap - cap;
    TotalOfMultiple(c, cap);
  }

  lemma SamePart(bytes: seq<byte>, cap: nat, c: nat, i: nat)
    requires cap > 0 && i < c && c == Total(|bytes|, cap) % 256 && c * cap < |bytes| && Total(c * cap, cap) == c
    ensures PartOf(bytes[..c * cap], cap, i) == PartOf(bytes, cap, i)
  {
    hide Total, Piece;
    PieceOfPrefix(bytes, cap, c, i);
  }

  /**
    Index and count are single bytes, so a message sent in order over an idle key arrives intact exactly
    when it has between 1 and 255 * cap bytes: an empty one sends no fragment at all, and from 256 fragments
    on the receiver waits for a count of zero or mistakes the beginning of the message for all of it.
  */
  lemma IntactIffAtMost255(bytes: seq<byte>, cap: nat)
    requires cap > 0
    ensures KeyRun(PartsOf(bytes, cap, UpTo(Total(|bytes|, cap)))) == (None, [bytes])
       <==> 1 <= |bytes| <= 255 * cap
  {
    hide Total, Piece, KeyRun;
    var total := Total(|bytes|, cap);
    TotalBounds(|bytes|, cap);
    if total > 255 {
      Times(256, total, cap);
      TooLongIsMangled(bytes, cap);
    } else if 1 <= total {
      Times(total, 255, cap);
      UpToCompletes(total);
      CompletionDelivers(bytes, cap, UpTo(total));
    } else {
      assert PartsOf(bytes, cap, UpTo(total)) == [];
      NoPartsNoDelivery();
    }
  }

  lemma NoPartsNoDelivery()
    ensures KeyRun([]) == (None, [])
  {
  }

  lemma TooLongIsMangled(bytes: seq<byte>, cap: nat)
    requires cap > 0 && Total(|bytes|, cap) > 255
    ensures KeyRun(PartsOf(bytes, cap, UpTo(Total(|bytes|, cap)))).1 != [bytes]
  {
    hide Total, Piece, KeyRun;
    var total := Total(|bytes|, cap);
    var ps, c := PartsOf(bytes, cap, UpTo(total)), total % 256;
    if c == 0 {
      ZeroCountNeverDelivers(ps);
    } else {
      BeginningLooksWhole(bytes, cap, c);
      UpToCompletes(c);
      CompletionDelivers(bytes[..c * cap], cap, UpTo(c));
      DeliveriesGrow(ps, c);
      assert KeyRun(ps).1[0] == bytes[..c * cap];
    }
  }

  // ---- any interleaving of many messages ----

  datatype Delivery = Delivery(key: Key, bytes: seq<byte>)

  function Tagged(k: Key, out: seq<seq<byte>>): seq<Delivery> {
    seq(|out|, i requires 0 <= i < |out| => Delivery(k, out[i]))
  }

  /** A reassembler that holds `reasm` and then sees `ins` in this order. */
  function RunFrom(reasm: map<Key, Entry>, ins: seq<Arrival>): (map<Key, Entry>, seq<Delivery>) {
    if ins == [] then (reasm, [])
    else
      var (before, out) := RunFrom(reasm, ins[..|ins| - 1]);
      var a := ins[|ins| - 1];
      var (after, more) := ArrivalStep(before, a);
      (after, out + Tagged(a.key, more))
  }

  /** The same for a reassembler that starts empty. */
  function Run(ins: seq<Arrival>): (map<Key, Entry>, seq<Delivery>) {
    RunFrom(map[], ins)
  }

  function Only(ins: seq<Arrival>, k: Key): seq<Part> {
    if ins == [] then []
    else
      Only(ins[..|ins| - 1], k) + if ins[|ins| - 1].key == k then [ins[|ins| - 1].part] else []
  }

  function DeliveredFor(ds: seq<Delivery>, k: Key): seq<seq<byte>> {
    if ds == [] then []
    else DeliveredFor(ds[..|ds| - 1], k) + if ds[|ds| - 1].key == k then [ds[|ds| - 1].bytes] else []
  }

  lemma StepDeliversOne(st: Option<Entry>, p: Part)
    ensures |PartStep(st, p).1| <= 1
  {
  }

  lemma DeliveredForStep(ds: seq<Delivery>, a: Key, more: seq<seq<byte>>, k: Key)
    requires |more| <= 1
    ensures DeliveredFor(ds + Tagged(a, more), k) == DeliveredFor(ds, k) + if a == k then more else []
  {
    if more == [] {
      assert ds + Tagged(a, more) == ds;
    } else {
      assert (ds + Tagged(a, more))[..|ds|] == ds;
    }
  }

  lemma RunSnoc(reasm: map<Key, Entry>, ins: seq<Arrival>, a: Arrival)
    ensures RunFrom(reasm, ins + [a]) ==
            var (mid, out) := RunFrom(reasm, ins);
            (ArrivalStep(mid, a).0, out + Tagged(a.key, ArrivalStep(mid, a).1))
  {
    hide ArrivalStep;
    assert (ins + [a])[..|ins|] == ins;
  }

  lemma OnlySnoc(ins: seq<Arrival>, a: Arrival, k: Key)
    ensures Only(ins + [a], k) == if a.key == k then Only(ins, k) + [a.part] else Only(ins, k)
  {
    assert (ins + [a])[..|ins|] == ins;
    assert Only(ins, k) + [] == Only(ins, k);
  }

  lemma KeyRunSnoc(st: Option<Entry>, ps: seq<Part>, p: Part)
    ensures KeyRunFrom(st, ps + [p]) ==
            var (mid, out) := KeyRunFrom(st, ps);
            (PartStep(mid, p).0, out + PartStep(mid, p).1)
  {
    hide PartStep;
    assert (ps + [p])[..|ps|] == ps;
  }

  lemma NoParts(st: Option<Entry>)
    ensures KeyRunFrom(st, []) == (st, [])
  {
  }

  lemma {:induction false} KeyRunSplit(st: Option<Entry>, a: seq<Part>, b: seq<Part>)
    ensures var (mid, out) := KeyRunFrom(st, a);
            KeyRunFrom(st, a + b) == (KeyRunFrom(mid, b).0, out + KeyRunFrom(mid, b).1)
    decreases |b|
  {
    hide KeyRunFrom, PartStep;
    var (mid, out) := KeyRunFrom(st, a);
    if b == [] {
      assert a + b == a;
      NoParts(mid);
      assert out + [] == out;
    } else {
      var front, p := b[..|b| - 1], b[|b| - 1];
      assert b == front + [p] && a + b == a + front + [p];
      KeyRunSplit(st, a, front);
      KeyRunSnoc(st, a + front, p);
      KeyRunSnoc(mid, front, p);
      var (end, more) := KeyRunFrom(mid, front);
      assert out + more + PartStep(end, p).1 == out + (more + PartStep(end, p).1);
    }
  }

  lemma ArrivalAt(reasm: map<Key, Entry>, a: Arrival, k: Key)
    ensures Lookup(ArrivalStep(reasm, a).0, k) ==
            if a.key == k then PartStep(Lookup(reasm, k), a.part).0 else Lookup(reasm, k)
    ensures ArrivalStep(reasm, a).1 == PartStep(Lookup(reasm, a.key), a.part).1
  {
    hide PartStep;
  }

  /** Keys do not interfere: each key's entry and deliveries are those of its own entry and arrivals alone. */
  lemma {:induction false} KeysAreIndependentFrom(reasm: map<Key, Entry>, ins: seq<Arrival>, k: Key)
    ensures KeyRunFrom(Lookup(reasm, k), Only(ins, k)) ==
            (Lookup(RunFrom(reasm, ins).0, k), DeliveredFor(RunFrom(reasm, ins).1, k))
    decreases |ins|
  {
    if ins != [] {
      hide PartStep, RunFrom, KeyRunFrom, Only, DeliveredFor, ArrivalStep, Tagged, Lookup;
      var before, a := ins[..|ins| - 1], ins[|ins| - 1];
      assert ins == before + [a];
      var (mid, out) := RunFrom(reasm, before);
      KeysAreIndependentFrom(reasm, before, k);
      RunSnoc(reasm, before, a);
      OnlySnoc(before, a, k);
      KeyRunSnoc(Lookup(reasm, k), Only(before, k), a.part);
      ArrivalAt(mid, a, k);
      StepDeliversOne(Lookup(mid, a.key), a.part);
      DeliveredForStep(out, a.key, ArrivalStep(mid, a).1, k);
      assert DeliveredFor(out, k) + [] == DeliveredFor(out, k);
    }
  }

  lemma KeysAreIndependent(ins: seq<Arrival>, k: Key)
    ensures KeyRun(Only(ins, k)) == (Lookup(Run(ins).0, k), DeliveredFor(Run(ins).1, k))
  {
    hide KeyRunFrom, RunFrom, Only, DeliveredFor;
    KeysAreIndependentFrom(map[], ins, k);
  }

  // ---- from one radio to the other ----

  /** What the receiver reads off the writes of one neighbour. */
  function Arrivals(addr: string, wire: seq<seq<byte>>): seq<Arrival> {
    if wire == [] then []
    else
      var a := ReadFragment(addr, wire[|wire| - 1]);
      Arrivals(addr, wire[..|wire| - 1]) + if a.Some? then [a.value] else []
  }

  lemma {:induction false} FragmentsArrive(addr: string, bytes: seq<byte>, cap: nat, id: nat, n: nat)
    requires cap > 0 && id < 65536 && n <= Total(|bytes|, cap)
    ensures Only(Arrivals(addr, AllFragments(bytes, cap, id)[..n]), Key(addr, id)) == PartsOf(bytes, cap, UpTo(n))
  {
    hide ReadFragment, FragmentBytes, Total, Piece;
    var k, wire := Key(addr, id), AllFragments(bytes, cap, id)[..n];
    if n > 0 {
      FragmentsArrive(addr, bytes, cap, id, n - 1);
      FragmentReadsBack(addr, bytes, cap, id, n - 1);
      var before := Arrivals(addr, AllFragments(bytes, cap, id)[..n - 1]);
      assert wire[..n - 1] == AllFragments(bytes, cap, id)[..n - 1];
      var last := Arrival(k, PartOf(bytes, cap, n - 1));
      assert Arrivals(addr, wire) == before + [last];
      assert (before + [last])[..|before|] == before;
      assert PartsOf(bytes, cap, UpTo(n)) == PartsOf(bytes, cap, UpTo(n - 1)) + [last.part];
    }
  }

  /**
    End to end: the writes that `enqueueFragments` makes of a message give that message back, once and
    complete, at a receiver that is idle for their key, iff the message has 1 to 255 * cap bytes.
  */
  lemma WritesGiveMessageBackIff(addr: string, bytes: seq<byte>, cap: nat, id: nat)
    requires cap > 0 && id < 65536
    ensures var (reasm, out) := Run(Arrivals(addr, AllFragments(bytes, cap, id)));
            (DeliveredFor(out, Key(addr, id)) == [bytes] && Key(addr, id) !in reasm) <==> 1 <= |bytes| <= 255 * cap
  {
    hide Total, Piece, KeyRun, Arrivals, Only, Run, DeliveredFor, PartsOf, UpTo;
    var ins := Arrivals(addr, AllFragments(bytes, cap, id));
    assert AllFragments(bytes, cap, id)[..Total(|bytes|, cap)] == AllFragments(bytes, cap, id);
    FragmentsArrive(addr, bytes, cap, id, Total(|bytes|, cap));
    KeysAreIndependent(ins, Key(addr, id));
    IntactIffAtMost255(bytes, cap);
  }

  /** Over a link of a given mtu that is 1 to 5100 bytes below an mtu of 28, and 1 to 255 * (mtu - 8) from there on. */
  lemma LinkCarriesIff(addr: string, bytes: seq<byte>, mtu: int, id: nat)
    requires id < 65536
    ensures var (reasm, out) := Run(Arrivals(addr, AllFragments(bytes, ChunkCap(mtu), id)));
            (DeliveredFor(out, Key(addr, id)) == [bytes] && Key(addr, id) !in reasm) <==>
            1 <= |bytes| <= 255 * if mtu < 28 then 20 else mtu - 8
  {
    hide Run, Arrivals, AllFragments, DeliveredFor;
    WritesGiveMessageBackIff(addr, bytes, ChunkCap(mtu), id);
  }
}
