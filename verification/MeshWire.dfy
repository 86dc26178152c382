/**
  The shrooms_mesh wire format (`shrooms_mesh/src/mesh_wire.hpp`): the encoder, the incremental reader of
  one connection, and the guards `flood` applies before it encodes.
*/
module MeshWire {
  import opened Prelude

  const VERSION: byte := 1
  const MAX_FRAME: nat := 8 * 1024 * 1024
  const MAX_TOPIC: nat := 1024

  datatype Frame = Frame(topic: seq<byte>, payload: seq<byte>)

  function Be32(a: byte, b: byte, c: byte, d: byte): nat {
    Be16(a, b) * 0x1_0000 + Be16(c, d)
  }

  // ---- encoder ----

  function U16(n: nat): seq<byte> {
    [n / 0x100 % 0x100, n % 0x100]
  }

  function U32(n: nat): seq<byte> {
    U16(n / 0x1_0000 % 0x1_0000) + U16(n % 0x1_0000)
  }

  /** The length field is a 32-bit sum, the topic length is cut to two bytes. */
  function Encode(f: Frame): seq<byte> {
    U32((3 + |f.topic| + |f.payload|) % 0x1_0000_0000) + [VERSION] + U16(|f.topic|) + f.topic + f.payload
  }

  function EncodeAll(fs: seq<Frame>): seq<byte> {
    if fs == [] then [] else Encode(fs[0]) + EncodeAll(fs[1..])
  }

  /** The guards in `flood`: "bad topic" and "frame too large". */
  predicate FloodAccepts(f: Frame) {
    1 <= |f.topic| <= MAX_TOPIC && |f.payload| + |f.topic| + 3 <= MAX_FRAME
  }

  /** On the wire: the length in four bytes, version 1, the topic length in two; most significant byte first. */
  lemma HeaderBytes(topic: seq<byte>, payload: seq<byte>)
    requires |topic| == 0x0102 && 3 + |topic| + |payload| == 0x0304_0506
    ensures Encode(Frame(topic, payload)) == [0x03, 0x04, 0x05, 0x06, 0x01, 0x01, 0x02] + topic + payload
  {
  }

  /** Topics of 1 to 1024 bytes, and 8 MB for everything behind the length. */
  lemma FloodLimits(f: Frame)
    ensures FloodAccepts(f) <==> 1 <= |f.topic| <= 1024 && 3 + |f.topic| + |f.payload| <= 8_388_608
  {
  }

  // ---- what the reader makes of a buffer ----

  datatype Head = Wait | Violation | Whole(frame: Frame, size: nat)

  function ReadHead(b: seq<byte>): (h: Head)
    ensures h.Whole? ==> 4 <= h.size <= |b|
  {
    if |b| < 4 then Wait
    else
      var len := Be32(b[0], b[1], b[2], b[3]);
      if len < 3 || len > MAX_FRAME then Violation
      else if |b| - 4 < len then Wait
      else
        var tlen := Be16(b[5], b[6]);
        if b[4] != VERSION || tlen == 0 || tlen > MAX_TOPIC || 3 + tlen > len then Violation
        else Whole(Frame(b[7..7 + tlen], b[7 + tlen..4 + len]), 4 + len)
  }

  /** Four bytes decide alone whether a length is refused. */
  lemma LengthLimits(a: byte, b: byte, c: byte, d: byte)
    ensures ReadHead([a, b, c, d]).Violation? <==>
            var len: int := ((a as int * 256 + b) * 256 + c) * 256 + d; len < 3 || len > 8_388_608
    ensures !ReadHead([a, b, c, d]).Whole?
  {
  }

  /** Behind a good length: version 1, a topic of 1 to 1024 bytes, and room for it. */
  lemma HeaderLimits(len: nat, body: seq<byte>)
    requires 3 <= len <= 8_388_608 && |body| == len
    ensures ReadHead(U32(len) + body).Violation? <==>
            var tlen: int := body[1] as int * 256 + body[2]; body[0] != 1 || tlen < 1 || tlen > 1024 || 3 + tlen > len
    ensures !ReadHead(U32(len) + body).Wait?
  {
    Value32(len);
    hide U32, Be32;
    var b := U32(len) + body;
    assert b[4] == body[0] && b[5] == body[1] && b[6] == body[2];
  }

  lemma ShortWaits(b: seq<byte>)
    requires |b| < 4
    ensures ReadHead(b) == Wait
  {
  }

  /** The head of the bytes from `pos` on, in terms of the whole buffer. */
  lemma HeadAt(buf: seq<byte>, pos: nat)
    requires pos + 4 <= |buf|
    ensures var len := Be32(buf[pos], buf[pos + 1], buf[pos + 2], buf[pos + 3]);
            if len < 3 || len > MAX_FRAME then ReadHead(buf[pos..]) == Violation
            else if |buf| - pos - 4 < len then ReadHead(buf[pos..]) == Wait
            else
              var tlen := Be16(buf[pos + 5], buf[pos + 6]);
              if buf[pos + 4] != VERSION || tlen == 0 || tlen > MAX_TOPIC || 3 + tlen > len
              then ReadHead(buf[pos..]) == Violation
              else ReadHead(buf[pos..]) ==
                   Whole(Frame(buf[pos + 7..pos + 7 + tlen], buf[pos + 7 + tlen..pos + 4 + len]), 4 + len)
  {
    hide Be16, Be32;
    var b := buf[pos..];
    var len, tlen := Be32(b[0], b[1], b[2], b[3]), if |b| < 7 then 0 else Be16(b[5], b[6]);
    if 0 <= tlen && 3 + tlen <= len <= |b| - 4 {
      SliceAt(buf, pos, 7, 7 + tlen);
      SliceAt(buf, pos, 7 + tlen, 4 + len);
    }
  }

  lemma SliceAt(buf: seq<byte>, pos: nat, i: nat, j: nat)
    requires i <= j && pos + j <= |buf|
    ensures buf[pos..][i..j] == buf[pos + i..pos + j]
  {
  }

  datatype Parsed = Parsed(frames: seq<Frame>, rest: seq<byte>, failed: bool)

  function Parse(b: seq<byte>): Parsed
    decreases |b|
  {
    match ReadHead(b)
    case Wait => Parsed([], b, false)
    case Violation => Parsed([], b, true)
    case Whole(f, size) =>
      var p := Parse(b[size..]);
      p.(frames := [f] + p.frames)
  }

  /** One turn of the reader's loop. */
  lemma UnfoldParse(b: seq<byte>)
    ensures !ReadHead(b).Whole? ==> Parse(b) == Parsed([], b, ReadHead(b).Violation?)
    ensures ReadHead(b).Whole? ==>
              var p := Parse(b[ReadHead(b).size..]);
              Parse(b) == Parsed([ReadHead(b).frame] + p.frames, p.rest, p.failed)
  {
    hide ReadHead;
  }

  /** `out` holds the frames of `buf[..pos]`, and parsing the rest completes what `all` says. */
  ghost predicate Progress(buf: seq<byte>, pos: nat, out: seq<Frame>, all: Parsed) {
    && pos <= |buf|
    && all == Parsed(out + Parse(buf[pos..]).frames, Parse(buf[pos..]).rest, Parse(buf[pos..]).failed)
  }

  lemma ProgressStarts(buf: seq<byte>)
    ensures Progress(buf, 0, [], Parse(buf))
  {
    hide Parse;
    assert buf[0..] == buf;
    assert [] + Parse(buf).frames == Parse(buf).frames;
  }

  lemma ProgressStops(buf: seq<byte>, pos: nat, out: seq<Frame>, all: Parsed)
    requires Progress(buf, pos, out, all) && !ReadHead(buf[pos..]).Whole?
    ensures all == Parsed(out, buf[pos..], ReadHead(buf[pos..]).Violation?)
  {
    hide Parse, ReadHead;
    UnfoldParse(buf[pos..]);
    assert out + [] == out;
  }

  lemma ProgressMoves(buf: seq<byte>, pos: nat, out: seq<Frame>, all: Parsed, f: Frame, next: nat)
    requires Progress(buf, pos, out, all) && pos <= next <= |buf| && ReadHead(buf[pos..]) == Whole(f, next - pos)
    ensures Progress(buf, next, out + [f], all)
  {
    hide Parse, ReadHead;
    UnfoldParse(buf[pos..]);
    var q := Parse(buf[next..]);
    assert buf[pos..][next - pos..] == buf[next..];
    assert out + ([f] + q.frames) == out + [f] + q.frames;
  }

  // ---- the incremental reader ----

  datatype ReaderState = ReaderState(buf: seq<byte>, failed: bool)

  const FRESH_READER: ReaderState := ReaderState([], false)

  function FeedStep(st: ReaderState, data: seq<byte>): (ReaderState, seq<Frame>) {
    if st.failed then (st, [])
    else
      var p := Parse(st.buf + data);
      (ReaderState(if p.failed then st.buf + data else p.rest, p.failed), p.frames)
  }

  class Reader {
    var buf: seq<byte>
    var failed: bool

    function State(): ReaderState
      reads this
    {
      ReaderState(buf, failed)
    }

    constructor ()
      ensures State() == FRESH_READER
    {
      buf, failed := [], false;
    }

    /** Frames are appended to the caller's vector even by a call that then fails. */
    method Feed(data: seq<byte>) returns (ok: bool, out: seq<Frame>)
      modifies this
      ensures (State(), out) == FeedStep(old(State()), data)
      ensures ok == !failed
    {
      hide ReadHead, Be16, Be32, Parse, Progress;
      out := [];
      if failed {
        return false, [];
      }
      buf := buf + data;
      ghost var all := Parse(buf);
      var pos := 0;
      ProgressStarts(buf);
      while |buf| - pos >= 4
        invariant 0 <= pos <= |buf| && !failed && buf == old(buf) + data
        invariant Progress(buf, pos, out, all)
      {
        HeadAt(buf, pos);
        var len := Be32(buf[pos], buf[pos + 1], buf[pos + 2], buf[pos + 3]);
        if len < 3 || len > MAX_FRAME {
          ProgressStops(buf, pos, out, all);
          failed := true;
          return false, out;
        }
        if |buf| - pos - 4 < len {
          break;
        }
        var body := pos + 4;
        var tlen := Be16(buf[body + 1], buf[body + 2]);
        if buf[body] != VERSION || tlen == 0 || tlen > MAX_TOPIC || 3 + tlen > len {
          ProgressStops(buf, pos, out, all);
          failed := true;
          return false, out;
        }
        var f := Frame(buf[body + 3..body + 3 + tlen], buf[body + 3 + tlen..body + len]);
        ProgressMoves(buf, pos, out, all, f, pos + 4 + len);
        out := out + [f];
        pos := pos + 4 + len;
      }
      if |buf| - pos < 4 {
        ShortWaits(buf[pos..]);
      } else {
        HeadAt(buf, pos);
      }
      ProgressStops(buf, pos, out, all);
      buf := buf[pos..];
      return true, out;
    }
  }

  // ---- chunk independence ----

  function Concat(chunks: seq<seq<byte>>): seq<byte> {
    if chunks == [] then [] else chunks[0] + Concat(chunks[1..])
  }

  /** Feeding chunk after chunk into one reader, collecting every frame it hands out. */
  function FeedAll(st: ReaderState, chunks: seq<seq<byte>>): (ReaderState, seq<Frame>)
    decreases |chunks|
  {
    if chunks == [] then (st, [])
    else
      var (next, frames) := FeedStep(st, chunks[0]);
      var (end, more) := FeedAll(next, chunks[1..]);
      (end, frames + more)
  }

  lemma EmptyParses()
    ensures Parse([]) == Parsed([], [], false)
  {
  }

  /** A decision taken on a buffer stands when more bytes arrive. */
  lemma HeadStands(a: seq<byte>, b: seq<byte>)
    requires !ReadHead(a).Wait?
    ensures ReadHead(a + b) == ReadHead(a)
  {
    var len := Be32(a[0], a[1], a[2], a[3]);
    if 3 <= len <= MAX_FRAME {
      var tlen := Be16(a[5], a[6]);
      if 3 + tlen <= len {
        assert (a + b)[7..7 + tlen] == a[7..7 + tlen];
        assert (a + b)[7 + tlen..4 + len] == a[7 + tlen..4 + len];
      }
    }
  }

  lemma {:induction false} ParseSplit(a: seq<byte>, b: seq<byte>)
    ensures Parse(a).failed ==> Parse(a + b).failed && Parse(a + b).frames == Parse(a).frames
    ensures !Parse(a).failed ==>
              var q := Parse(Parse(a).rest + b);
              Parse(a + b) == q.(frames := Parse(a).frames + q.frames)
    decreases |a|
  {
    hide ReadHead;
    if !ReadHead(a).Wait? {
      HeadStands(a, b);
      if ReadHead(a).Whole? {
        var size := ReadHead(a).size;
        assert (a + b)[size..] == a[size..] + b;
        ParseSplit(a[size..], b);
      }
    }
  }

  /** Failure never un-happens, and a failed reader hands out nothing more. */
  lemma {:induction false} FailureIsForever(st: ReaderState, chunks: seq<seq<byte>>)
    requires st.failed
    ensures FeedAll(st, chunks) == (st, [])
    decreases |chunks|
  {
    hide Parse;
    if chunks != [] {
      FailureIsForever(st, chunks[1..]);
      assert FeedStep(st, chunks[0]) == (st, []);
      var nothing: seq<Frame> := [];
      assert nothing + nothing == nothing;
    }
  }

  /** What is left in a reader that has not failed parses to nothing yet. */
  lemma {:induction false} RestWaits(b: seq<byte>)
    requires !Parse(b).failed
    ensures Parse(Parse(b).rest) == Parsed([], Parse(b).rest, false)
    decreases |b|
  {
    hide ReadHead;
    if ReadHead(b).Whole? {
      RestWaits(b[ReadHead(b).size..]);
    }
  }

  /** Chunk independence from any reader whose buffer holds no decision yet. */
  lemma {:induction false} FeedAllParses(st: ReaderState, chunks: seq<seq<byte>>)
    requires !st.failed && Parse(st.buf) == Parsed([], st.buf, false)
    ensures var (end, frames) := FeedAll(st, chunks);
            var p := Parse(st.buf + Concat(chunks));
            end.failed == p.failed && frames == p.frames && (!p.failed ==> end.buf == p.rest)
    decreases |chunks|
  {
    hide Parse;
    if chunks == [] {
      assert st.buf + [] == st.buf;
    } else {
      var (next, frames) := FeedStep(st, chunks[0]);
      ParseSplit(st.buf + chunks[0], Concat(chunks[1..]));
      assert st.buf + chunks[0] + Concat(chunks[1..]) == st.buf + Concat(chunks);
      if next.failed {
        FailureIsForever(next, chunks[1..]);
      } else {
        RestWaits(st.buf + chunks[0]);
        FeedAllParses(next, chunks[1..]);
      }
    }
  }

  /** However a stream is cut into chunks, the frames handed out and the verdict are those of one feed. */
  lemma ChunkIndependence(chunks: seq<seq<byte>>)
    ensures FeedAll(FRESH_READER, chunks).1 == FeedAll(FRESH_READER, [Concat(chunks)]).1
    ensures FeedAll(FRESH_READER, chunks).0.failed == FeedAll(FRESH_READER, [Concat(chunks)]).0.failed
    ensures !FeedAll(FRESH_READER, chunks).0.failed ==>
              FeedAll(FRESH_READER, chunks).0.buf == FeedAll(FRESH_READER, [Concat(chunks)]).0.buf
  {
    hide Parse;
    EmptyParses();
    FeedAllParses(FRESH_READER, chunks);
    FeedAllParses(FRESH_READER, [Concat(chunks)]);
    assert Concat([Concat(chunks)]) == Concat(chunks) + [] == Concat(chunks);
  }

  // ---- what the module passes on ----

  /** `accept` drops the connection on a failed feed, together with the frames of that feed. */
  function Delivered(st: ReaderState, chunks: seq<seq<byte>>): seq<Frame>
    decreases |chunks|
  {
    if chunks == [] then []
    else
      var (next, frames) := FeedStep(st, chunks[0]);
      if next.failed then [] else frames + Delivered(next, chunks[1..])
  }

  lemma {:induction false} DeliveredUnlessFailed(st: ReaderState, chunks: seq<seq<byte>>)
    requires !FeedAll(st, chunks).0.failed
    ensures Delivered(st, chunks) == FeedAll(st, chunks).1
    decreases |chunks|
  {
    hide Parse;
    if chunks != [] {
      var next := FeedStep(st, chunks[0]).0;
      if next.failed {
        FailureIsForever(next, chunks[1..]);
      }
      DeliveredUnlessFailed(next, chunks[1..]);
    }
  }

  /** The good frames of a stream, re-encoded, and the bytes left over make up the stream again. */
  lemma {:induction false} ParseIsCanonical(b: seq<byte>)
    ensures EncodeAll(Parse(b).frames) + Parse(b).rest == b
    decreases |b|
  {
    hide *;
    UnfoldParse(b);
    if ReadHead(b).Whole? {
      var size, f := ReadHead(b).size, ReadHead(b).frame;
      var p := Parse(b[size..]);
      HeadIsCanonical(b);
      ParseIsCanonical(b[size..]);
      EncodeCons(f, p.frames);
      Regroup(b, size, EncodeAll(p.frames), p.rest);
    } else {
      EncodeNothing();
      assert [] + b == b;
    }
  }

  lemma Regroup(b: seq<byte>, size: nat, middle: seq<byte>, rest: seq<byte>)
    requires size <= |b| && middle + rest == b[size..]
    ensures b[..size] + middle + rest == b
  {
    assert b[..size] + middle + rest == b[..size] + (middle + rest);
  }

  /** Whatever the reader hands out, `flood` would have accepted for sending. */
  lemma {:induction false} ParsedAreAccepted(b: seq<byte>)
    ensures forall f :: f in Parse(b).frames ==> FloodAccepts(f)
    decreases |b|
  {
    if ReadHead(b).Whole? {
      HeadIsCanonical(b);
      ParsedAreAccepted(b[ReadHead(b).size..]);
    }
  }

  lemma EncodeCons(f: Frame, fs: seq<Frame>)
    ensures EncodeAll([f] + fs) == Encode(f) + EncodeAll(fs)
  {
    assert ([f] + fs)[1..] == fs;
  }

  lemma EncodeNothing()
    ensures EncodeAll([]) == []
  {
  }

  lemma Bytes16(a: byte, b: byte)
    ensures U16(Be16(a, b)) == [a, b]
    ensures Be16(a, b) < 0x1_0000
  {
  }

  lemma Bytes32(a: byte, b: byte, c: byte, d: byte)
    ensures U32(Be32(a, b, c, d)) == [a, b, c, d]
  {
    Bytes16(a, b);
    Bytes16(c, d);
    hide Be16, U16;
    var n := Be32(a, b, c, d);
    assert n / 0x1_0000 == Be16(a, b) && n % 0x1_0000 == Be16(c, d);
    assert n / 0x1_0000 % 0x1_0000 == Be16(a, b);
  }

  lemma EncodeParts(f: Frame, a: byte, b: byte, c: byte, d: byte, t: byte, u: byte)
    requires Be32(a, b, c, d) == 3 + |f.topic| + |f.payload| <= MAX_FRAME && Be16(t, u) == |f.topic|
    ensures Encode(f) == [a, b, c, d] + [VERSION] + [t, u] + f.topic + f.payload
  {
    Bytes32(a, b, c, d);
    Bytes16(t, u);
    hide Be16, Be32, U16, U32;
  }

  lemma HeadIsCanonical(b: seq<byte>)
    requires ReadHead(b).Whole?
    ensures FloodAccepts(ReadHead(b).frame)
    ensures Encode(ReadHead(b).frame) == b[..ReadHead(b).size]
  {
    hide Be16, Be32, U16, U32, Encode;
    var f, size := ReadHead(b).frame, ReadHead(b).size;
    EncodeParts(f, b[0], b[1], b[2], b[3], b[5], b[6]);
    SliceUp(b, |f.topic|, size);
  }

  lemma SliceUp(b: seq<byte>, tlen: nat, size: nat)
    requires 7 + tlen <= size <= |b|
    ensures b[..size] == [b[0], b[1], b[2], b[3]] + [b[4]] + [b[5], b[6]] + b[7..7 + tlen] + b[7 + tlen..size]
  {
  }

  // ---- sender and reader agree ----

  lemma Value16(n: nat)
    requires n < 0x1_0000
    ensures |U16(n)| == 2 && Be16(U16(n)[0], U16(n)[1]) == n
  {
  }

  lemma Value32(n: nat)
    requires n < 0x1_0000_0000
    ensures var u := U32(n); |u| == 4 && Be32(u[0], u[1], u[2], u[3]) == n
  {
    var hi, lo := n / 0x1_0000, n % 0x1_0000;
    Value16(hi);
    Value16(lo);
    hide Be16, U16;
    assert hi % 0x1_0000 == hi;
    assert U32(n) == U16(hi) + U16(lo);
  }

  lemma Layout(l: seq<byte>, v: seq<byte>, u: seq<byte>, topic: seq<byte>, payload: seq<byte>, tail: seq<byte>)
    requires |l| == 4 && |v| == 1 && |u| == 2
    ensures var b := l + v + u + topic + payload + tail;
            && b[0] == l[0] && b[1] == l[1] && b[2] == l[2] && b[3] == l[3]
            && b[4] == v[0] && b[5] == u[0] && b[6] == u[1]
            && b[7..7 + |topic|] == topic && b[7 + |topic|..7 + |topic| + |payload|] == payload
            && b[7 + |topic| + |payload|..] == tail
  {
  }

  lemma HeadOfLayout(b: seq<byte>, f: Frame)
    requires FloodAccepts(f) && |b| >= 7 + |f.topic| + |f.payload|
    requires Be32(b[0], b[1], b[2], b[3]) == 3 + |f.topic| + |f.payload|
    requires b[4] == VERSION && Be16(b[5], b[6]) == |f.topic|
    requires b[7..7 + |f.topic|] == f.topic
    requires b[7 + |f.topic|..7 + |f.topic| + |f.payload|] == f.payload
    ensures ReadHead(b) == Whole(f, 7 + |f.topic| + |f.payload|)
  {
    hide Be16, Be32;
  }

  lemma EncodeShape(f: Frame)
    requires FloodAccepts(f)
    ensures Encode(f) == U32(3 + |f.topic| + |f.payload|) + [VERSION] + U16(|f.topic|) + f.topic + f.payload
  {
    hide U32, U16;
  }

  lemma HeadOfEncoded(f: Frame, tail: seq<byte>)
    requires FloodAccepts(f)
    ensures ReadHead(Encode(f) + tail) == Whole(f, |Encode(f)|)
    ensures (Encode(f) + tail)[|Encode(f)|..] == tail
  {
    var len := 3 + |f.topic| + |f.payload|;
    Value32(len);
    Value16(|f.topic|);
    EncodeShape(f);
    hide Be16, Be32, U16, U32, ReadHead, Encode;
    Layout(U32(len), [VERSION], U16(|f.topic|), f.topic, f.payload, tail);
    HeadOfLayout(Encode(f) + tail, f);
  }

  lemma {:induction false} ParseEncoded(fs: seq<Frame>)
    requires forall f :: f in fs ==> FloodAccepts(f)
    ensures Parse(EncodeAll(fs)) == Parsed(fs, [], false)
  {
    hide ReadHead;
    ShortWaits([]);
    if fs != [] {
      HeadOfEncoded(fs[0], EncodeAll(fs[1..]));
      ParseEncoded(fs[1..]);
    }
  }

  /** Frames that pass `flood`'s guards arrive unchanged, however the connection cuts the bytes. */
  lemma SenderReaderAgree(fs: seq<Frame>, chunks: seq<seq<byte>>)
    requires forall f :: f in fs ==> FloodAccepts(f)
    requires Concat(chunks) == EncodeAll(fs)
    ensures FeedAll(FRESH_READER, chunks) == (FRESH_READER, fs)
    ensures Delivered(FRESH_READER, chunks) == fs
  {
    hide Parse;
    EmptyParses();
    FeedAllParses(FRESH_READER, chunks);
    ParseEncoded(fs);
    assert [] + Concat(chunks) == Concat(chunks);
    DeliveredUnlessFailed(FRESH_READER, chunks);
  }

  /** The guards are exact: any other frame does not survive the trip. */
  lemma RoundTripIffAccepted(f: Frame)
    ensures Parse(Encode(f)) == Parsed([f], [], false) <==> FloodAccepts(f)
  {
    if FloodAccepts(f) {
      ParseEncoded([f]);
      assert EncodeAll([f]) == Encode(f) + [] == Encode(f);
    }
    ParsedAreAccepted(Encode(f));
    assert f in [f];
  }

  /** Between feeds a healthy reader holds less than one maximal frame. */
  lemma {:induction false} BufferBounded(b: seq<byte>)
    requires !Parse(b).failed
    ensures |Parse(b).rest| < 4 + MAX_FRAME
    decreases |b|
  {
    if ReadHead(b).Whole? {
      BufferBounded(b[ReadHead(b).size..]);
    }
  }

  lemma {:induction false} ReaderBounded(st: ReaderState, chunks: seq<seq<byte>>)
    requires |st.buf| < 4 + MAX_FRAME
    ensures !FeedAll(st, chunks).0.failed ==> |FeedAll(st, chunks).0.buf| < 4 + MAX_FRAME
    decreases |chunks|
  {
    hide Parse;
    if chunks != [] {
      var next := FeedStep(st, chunks[0]).0;
      if next.failed {
        FailureIsForever(next, chunks[1..]);
      } else {
        BufferBounded(st.buf + chunks[0]);
        ReaderBounded(next, chunks[1..]);
      }
    }
  }

  /**
    What the module passes on does depend on the chunks when a stream breaks the protocol after some good
    frames: arriving in one piece it delivers none of them, arriving in two it delivers them all. It is
    independent of the chunks exactly for the other streams.
  */
  lemma DeliveryIndependentIff(stream: seq<byte>)
    ensures (forall chunks :: Concat(chunks) == stream ==> Delivered(FRESH_READER, chunks) == Parse(stream).frames)
       <==> !(Parse(stream).failed && Parse(stream).frames != [])
  {
    hide Parse;
    var p := Parse(stream);
    EmptyParses();
    assert [] + stream == stream;
    if p.failed && p.frames != [] {
      OnePieceDropsAll(stream);
    } else {
      forall chunks | Concat(chunks) == stream ensures Delivered(FRESH_READER, chunks) == p.frames {
        FeedAllParses(FRESH_READER, chunks);
        if p.failed {
          DeliveredIsPrefix(FRESH_READER, chunks);
        } else {
          DeliveredUnlessFailed(FRESH_READER, chunks);
        }
      }
    }
  }

  lemma OnePieceDropsAll(stream: seq<byte>)
    requires Parse(stream).failed
    ensures Concat([stream]) == stream && Delivered(FRESH_READER, [stream]) == []
  {
    hide Parse;
    assert [] + stream == stream;
    assert Concat([stream]) == stream + [] == stream;
  }

  lemma {:induction false} DeliveredIsPrefix(st: ReaderState, chunks: seq<seq<byte>>)
    ensures Delivered(st, chunks) <= FeedAll(st, chunks).1
    decreases |chunks|
  {
    hide Parse;
    if chunks != [] {
      DeliveredIsPrefix(FeedStep(st, chunks[0]).0, chunks[1..]);
    }
  }

  /** The other extreme: cut where the good frames end, all of them are delivered. */
  lemma GoodFramesDelivered(stream: seq<byte>)
    ensures var good := EncodeAll(Parse(stream).frames);
            good <= stream &&
            Delivered(FRESH_READER, [good, stream[|good|..]]) == Parse(stream).frames
  {
    hide Parse, EncodeAll, Delivered, FloodAccepts;
    var p := Parse(stream);
    var good := EncodeAll(p.frames);
    ParseIsCanonical(stream);
    var tail := stream[|good|..];
    assert tail == p.rest && stream == good + tail;
    ParsedAreAccepted(stream);
    ParseEncoded(p.frames);
    LastPieceDelivers(stream);
    TwoPieces(good, tail, p.frames);
  }

  /** Frames and then a piece without a frame. */
  lemma TwoPieces(good: seq<byte>, tail: seq<byte>, frames: seq<Frame>)
    requires Parse(good) == Parsed(frames, [], false) && Parse(tail).frames == []
    ensures Delivered(FRESH_READER, [good, tail]) == frames
  {
    hide Parse;
    assert [] + good == good && [] + tail == tail;
    var next := ReaderState([], false);
    assert FeedStep(FRESH_READER, good) == (next, frames);
    NothingInPiece(next, tail);
    assert [good, tail][0] == good && [good, tail][1..] == [tail];
    assert frames + [] == frames;
  }

  lemma NothingInPiece(st: ReaderState, tail: seq<byte>)
    requires FeedStep(st, tail).1 == []
    ensures Delivered(st, [tail]) == []
  {
    hide FeedStep;
    var next := FeedStep(st, tail).0;
    assert [tail][0] == tail && [tail][1..] == [] && Delivered(next, []) == [];
  }

  lemma {:induction false} LastPieceDelivers(b: seq<byte>)
    ensures Parse(Parse(b).rest).frames == []
    decreases |b|
  {
    hide ReadHead;
    if ReadHead(b).Whole? {
      LastPieceDelivers(b[ReadHead(b).size..]);
    }
  }

  /** A good frame and then a length of 0: in one piece nothing is passed on, in two pieces the frame is. */
  lemma BadTailDropsGoodFrame(f: Frame)
    requires FloodAccepts(f)
    ensures Parse(Encode(f) + [0, 0, 0, 0]) == Parsed([f], [0, 0, 0, 0], true)
    ensures Delivered(FRESH_READER, [Encode(f) + [0, 0, 0, 0]]) == []
    ensures Delivered(FRESH_READER, [Encode(f), [0, 0, 0, 0]]) == [f]
  {
    hide ReadHead, Encode, Parse;
    var tail: seq<byte> := [0, 0, 0, 0];
    HeadOfEncoded(f, tail);
    UnfoldParse(Encode(f) + tail);
    UnfoldParse(tail);
    ZeroLength();
    OnePieceDropsAll(Encode(f) + tail);
    GoodFramesDelivered(Encode(f) + tail);
    EncodeCons(f, []);
    EncodeNothing();
    assert [f] + [] == [f] && Encode(f) + [] == Encode(f);
    assert (Encode(f) + tail)[|Encode(f)|..] == tail;
  }

  lemma ZeroLength()
    ensures ReadHead([0, 0, 0, 0]) == Violation
  {
  }
}
