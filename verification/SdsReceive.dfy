/**
  The receive path of the delivery bearer (`core/src/delivery_bearer.hpp`): from the payload of an event of
  the delivery module, through the SDS protobuf message, to the frame handed up.
*/
module SdsReceive {
  import opened Prelude
  import opened Positions
  import opened Varint
  import Base64
  import SegmentCompat

  // ---- the protobuf field walk ----

  /** `Absent` stands for the empty string the source returns; an `Endless` walk does not return. */
  datatype Walk = Found(data: seq<byte>) | Absent | Endless

  /** What one turn of the walk does at a position: give up, find the field, or go on at `next`. */
  datatype Stride = Halt | Hit(data: seq<byte>) | Skip(next: nat)

  function StrideAt(b: seq<byte>, i: nat, want: int): (s: Stride)
    requires i < |b|
    ensures s.Skip? ==> s.next <= |b|
  {
    var tag := Take(b[i..]);
    if tag.None? then Halt
    else
      var num, wt := ToInt32(tag.value.0 / 8), tag.value.0 % 8;
      var j := |b| - |tag.value.1|;
      if wt == 2 then
        var c := SegmentCompat.ChunkAt(b, j);
        if c.None? then Halt else if num == want then Hit(c.value.0) else Skip(c.value.1)
      else if wt == 0 then
        var v := Take(b[j..]);
        if v.None? then Halt else Skip(|b| - |v.value.1|)
      else if wt == 5 then if j + 4 > |b| then Halt else Skip(j + 4)
      else if wt == 1 then if j + 8 > |b| then Halt else Skip(j + 8)
      else Halt
  }

  /** The walk from position `i`, given up after `turns` turns. */
  function WalkAt(b: seq<byte>, i: nat, want: int, turns: nat): Walk
    requires i <= |b|
    decreases turns
  {
    if i == |b| then Absent
    else if turns == 0 then Endless
    else
      match StrideAt(b, i, want)
      case Halt => Absent
      case Hit(data) => Found(data)
      case Skip(next) => WalkAt(b, next, want, turns - 1)
  }

  /** A walk that has not ended after more turns than there are positions never ends (`EndlessIff`). */
  function FieldOf(b: seq<byte>, want: int): Walk {
    WalkAt(b, 0, want, |b| + 1)
  }

  /** The body of the walk. */
  method ReadStride(b: seq<byte>, i: nat, want: int) returns (s: Stride)
    requires i < |b| < TWO64
    ensures s == StrideAt(b, i, want)
  {
    hide Take, ToInt32, SegmentCompat.ChunkAt;
    var okTag, tag, j := Read(b, i);
    if !okTag {
      return Halt;
    }
    var num, wt := ToInt32(tag / 8), tag % 8;
    if wt == 2 {
      var ok, data, next := SegmentCompat.ReadChunk(b, j);
      if !ok {
        return Halt;
      }
      if num == want {
        return Hit(data);
      }
      return Skip(next);
    } else if wt == 0 {
      var okValue, v, next := Read(b, j);
      if !okValue {
        return Halt;
      }
      return Skip(next);
    } else if wt == 5 {
      if j + 4 > |b| {
        return Halt;
      }
      return Skip(j + 4);
    } else if wt == 1 {
      if j + 8 > |b| {
        return Halt;
      }
      return Skip(j + 8);
    }
    return Halt;
  }

  /** The source has no turn counter: where this one runs out, its loop goes on for ever. */
  method SdsField(b: seq<byte>, want: int) returns (w: Walk)
    requires |b| < TWO64
    ensures w == FieldOf(b, want)
  {
    hide StrideAt;
    var i: nat := 0;
    var turns: nat := |b| + 1;
    while i < |b|
      invariant 0 <= i <= |b|
      invariant WalkAt(b, i, want, turns) == FieldOf(b, want)
      decreases turns
    {
      if turns == 0 {
        return Endless;
      }
      turns := turns - 1;
      var s := ReadStride(b, i, want);
      match s {
        case Halt =>
          return Absent;
        case Hit(data) =>
          return Found(data);
        case Skip(next) =>
          i := next;
      }
    }
    return Absent;
  }

  // ---- when the walk ends ----

  function NextOf(b: seq<byte>, want: int, i: nat): Option<nat> {
    if i >= |b| || !StrideAt(b, i, want).Skip? then None else Some(StrideAt(b, i, want).next)
  }

  /** The positions the walk moves through. */
  ghost function Next(b: seq<byte>, want: int): Moves {
    (i: nat) => NextOf(b, want, i)
  }

  lemma {:induction false} EndlessIsLong(b: seq<byte>, i: nat, want: int, turns: nat)
    requires i <= |b|
    ensures WalkAt(b, i, want, turns).Endless? <==>
            After(Next(b, want), i, turns).Some? && After(Next(b, want), i, turns).value < |b|
    decreases turns
  {
    hide StrideAt;
    if i < |b| && turns > 0 {
      var s := StrideAt(b, i, want);
      if s.Skip? {
        EndlessIsLong(b, s.next, want, turns - 1);
      }
    }
  }

  /** The walk does not return iff it comes by some position twice. */
  lemma EndlessIff(b: seq<byte>, want: int)
    ensures FieldOf(b, want).Endless? <==> ComesBack(Next(b, want), 0)
    ensures (exists t: nat :: After(Next(b, want), 0, t).None?) <==> !ComesBack(Next(b, want), 0)
  {
    hide After, ComesBack, WalkAt, StrideAt;
    var next := Next(b, want);
    EndsIffNeverBack(next, 0, |b|);
    EndlessIsLong(b, 0, want, |b| + 1);
    if ComesBack(next, 0) {
      ComingBackNeverEnds(next, 0, |b| + 2);
      InsideBefore(next, 0, |b|, |b| + 1, |b| + 2);
    }
  }

  // ---- walks whose sums do not wrap ----

  /** The walk over the bytes still unread; none if a sum wraps on the way. */
  function WalkFrom(rest: seq<byte>, n: nat, want: int): Option<Walk>
    requires |rest| <= n
    decreases |rest|
  {
    if rest == [] then Some(Absent)
    else
      var tag := Take(rest);
      if tag.None? then Some(Absent)
      else
        var num, wt := ToInt32(tag.value.0 / 8), tag.value.0 % 8;
        var tail := tag.value.1;
        if wt == 2 then
          var c := SegmentCompat.TakeChunk(tail, n);
          if c.Overrun? then Some(Absent) else if c.Rewinds? then None
          else if num == want then Some(Found(c.data)) else WalkFrom(c.rest, n, want)
        else if wt == 0 then
          var v := Take(tail);
          if v.None? then Some(Absent) else WalkFrom(v.value.1, n, want)
        else if wt == 5 then if |tail| < 4 then Some(Absent) else WalkFrom(tail[4..], n, want)
        else if wt == 1 then if |tail| < 8 then Some(Absent) else WalkFrom(tail[8..], n, want)
        else Some(Absent)
  }

  /** What is unread after stride `s` from `i` is walked like what was unread before it. */
  ghost predicate StrideFits(b: seq<byte>, i: nat, want: int, s: Stride)
    requires i < |b|
  {
    match s
    case Halt => WalkFrom(b[i..], |b|, want) == Some(Absent)
    case Hit(data) => WalkFrom(b[i..], |b|, want) == Some(Found(data))
    case Skip(next) => i < next <= |b| && WalkFrom(b[i..], |b|, want) == WalkFrom(b[next..], |b|, want)
  }

  lemma LenStride(b: seq<byte>, i: nat, want: int, num: int, j: nat)
    requires i < j <= |b| < TWO64 && SegmentCompat.TakeChunk(b[j..], |b|) != SegmentCompat.Rewinds
    requires StrideAt(b, i, want) ==
             var c := SegmentCompat.ChunkAt(b, j);
             if c.None? then Halt else if num == want then Hit(c.value.0) else Skip(c.value.1)
    requires WalkFrom(b[i..], |b|, want) ==
             var c := SegmentCompat.TakeChunk(b[j..], |b|);
             if c.Overrun? then Some(Absent)
             else if num == want then Some(Found(c.data))
             else WalkFrom(c.rest, |b|, want)
    ensures StrideFits(b, i, want, StrideAt(b, i, want))
  {
    hide Take, ToInt32, SegmentCompat.ChunkAt, SegmentCompat.TakeChunk, StrideAt, WalkFrom;
    SegmentCompat.ChunkAgrees(b, j);
  }

  lemma VarintStride(b: seq<byte>, i: nat, want: int, j: nat)
    requires i < j <= |b|
    requires StrideAt(b, i, want) == var v := Take(b[j..]); if v.None? then Halt else Skip(|b| - |v.value.1|)
    requires WalkFrom(b[i..], |b|, want) ==
             var v := Take(b[j..]);
             if v.None? then Some(Absent) else WalkFrom(v.value.1, |b|, want)
    ensures StrideFits(b, i, want, StrideAt(b, i, want))
  {
    hide Take, ToInt32, StrideAt, WalkFrom;
    var v := Take(b[j..]);
    if v.Some? {
      SegmentCompat.SuffixOf(b, j, v.value.1);
    }
  }

  lemma FixedStride(b: seq<byte>, i: nat, want: int, j: nat, k: nat)
    requires i < j <= |b| && k > 0
    requires StrideAt(b, i, want) == if j + k > |b| then Halt else Skip(j + k)
    requires WalkFrom(b[i..], |b|, want) == if |b[j..]| < k then Some(Absent) else WalkFrom(b[j..][k..], |b|, want)
    ensures StrideFits(b, i, want, StrideAt(b, i, want))
  {
    hide StrideAt, WalkFrom;
    if j + k <= |b| {
      assert b[j..][k..] == b[j + k..];
    }
  }

  lemma HaltFits(b: seq<byte>, i: nat, want: int)
    requires i < |b| && WalkFrom(b[i..], |b|, want) == Some(Absent)
    ensures StrideFits(b, i, want, Halt)
  {
    hide WalkFrom;
  }

  lemma StrideAgrees(b: seq<byte>, i: nat, want: int)
    requires i < |b| < TWO64 && WalkFrom(b[i..], |b|, want).Some?
    ensures StrideFits(b, i, want, StrideAt(b, i, want))
  {
    hide Take, ToInt32, SegmentCompat.ChunkAt, SegmentCompat.TakeChunk, StrideFits;
    var tag := Take(b[i..]);
    if tag.None? {
      HaltFits(b, i, want);
    } else {
      SegmentCompat.SuffixOf(b, i, tag.value.1);
      var num, wt, j := ToInt32(tag.value.0 / 8), tag.value.0 % 8, |b| - |tag.value.1|;
      if wt == 2 {
        LenStride(b, i, want, num, j);
      } else if wt == 0 {
        VarintStride(b, i, want, j);
      } else if wt == 5 {
        FixedStride(b, i, want, j, 4);
      } else if wt == 1 {
        FixedStride(b, i, want, j, 8);
      } else {
        HaltFits(b, i, want);
      }
    }
  }

  lemma NothingUnread(b: seq<byte>, want: int)
    ensures WalkFrom(b[|b|..], |b|, want) == Some(Absent)
  {
  }

  /** Where no sum wraps, the walk goes straight through and ends. */
  lemma {:induction false} StraightWalk(b: seq<byte>, i: nat, want: int, turns: nat)
    requires i <= |b| < TWO64 && turns >= |b| - i && WalkFrom(b[i..], |b|, want).Some?
    ensures WalkAt(b, i, want, turns) == WalkFrom(b[i..], |b|, want).value
    decreases |b| - i
  {
    hide StrideAt, WalkFrom;
    if i == |b| {
      NothingUnread(b, want);
    } else {
      StrideAgrees(b, i, want);
      var s := StrideAt(b, i, want);
      if s.Skip? {
        StraightWalk(b, s.next, want, turns - 1);
      }
    }
  }

  /** A protobuf message as a list of fields. */
  datatype Field =
    | Varint(num: nat, value: nat)
    | Len(num: nat, data: seq<byte>)
    | Fixed32(num: nat, bytes: seq<byte>)
    | Fixed64(num: nat, bytes: seq<byte>)

  /** Field numbers have at most 29 bits. */
  predicate WellFormed(f: Field) {
    && 1 <= f.num < 0x2000_0000
    && (f.Varint? ==> f.value < TWO64)
    && (f.Fixed32? ==> |f.bytes| == 4)
    && (f.Fixed64? ==> |f.bytes| == 8)
  }

  function EncodeField(f: Field): seq<byte> {
    match f
    case Varint(num, value) => Encode(num * 8) + Encode(value)
    case Fixed64(num, bytes) => Encode(num * 8 + 1) + bytes
    case Len(num, data) => Encode(num * 8 + 2) + (Encode(|data|) + data)
    case Fixed32(num, bytes) => Encode(num * 8 + 5) + bytes
  }

  function EncodeFields(fs: seq<Field>): seq<byte> {
    if fs == [] then [] else EncodeField(fs[0]) + EncodeFields(fs[1..])
  }

  /** What the message says for a field number: its first length-delimited value. */
  function FirstLen(fs: seq<Field>, want: nat): Walk {
    if fs == [] then Absent
    else if fs[0].Len? && fs[0].num == want then Found(fs[0].data)
    else FirstLen(fs[1..], want)
  }

  lemma TagOfField(num: nat, wt: nat, tail: seq<byte>)
    requires num < 0x2000_0000 && wt < 8
    ensures Take(Encode(num * 8 + wt) + tail) == Some((num * 8 + wt, tail))
    ensures ToInt32((num * 8 + wt) / 8) == num && (num * 8 + wt) % 8 == wt
  {
    TakeEncoded(num * 8 + wt, tail);
  }

  lemma WalkLen(num: nat, data: seq<byte>, rest: seq<byte>, n: nat, want: nat)
    requires num < 0x2000_0000
    requires |Encode(num * 8 + 2) + (Encode(|data|) + data + rest)| <= n < TWO64
    ensures WalkFrom(Encode(num * 8 + 2) + (Encode(|data|) + data + rest), n, want) ==
            if num == want then Some(Found(data)) else WalkFrom(rest, n, want)
  {
    hide Take, Encode, ToInt32, SegmentCompat.TakeChunk;
    TagOfField(num, 2, Encode(|data|) + data + rest);
    SegmentCompat.ChunkReadsBack(data, rest, n);
  }

  lemma WalkVarint(num: nat, value: nat, rest: seq<byte>, n: nat, want: nat)
    requires num < 0x2000_0000 && value < TWO64
    requires |Encode(num * 8 + 0) + (Encode(value) + rest)| <= n
    ensures WalkFrom(Encode(num * 8 + 0) + (Encode(value) + rest), n, want) == WalkFrom(rest, n, want)
  {
    hide Take, Encode, ToInt32, SegmentCompat.TakeChunk;
    var tail := Encode(value) + rest;
    TagOfField(num, 0, tail);
    TakeEncoded(value, rest);
    assert Take(Encode(num * 8 + 0) + tail).value == (num * 8, tail);
  }

  lemma WalkFixed(num: nat, wt: nat, bytes: seq<byte>, rest: seq<byte>, n: nat, want: nat)
    requires num < 0x2000_0000 && ((wt == 5 && |bytes| == 4) || (wt == 1 && |bytes| == 8))
    requires |Encode(num * 8 + wt) + (bytes + rest)| <= n
    ensures WalkFrom(Encode(num * 8 + wt) + (bytes + rest), n, want) == WalkFrom(rest, n, want)
  {
    hide Take, Encode, ToInt32, SegmentCompat.TakeChunk;
    TagOfField(num, wt, bytes + rest);
    assert (bytes + rest)[|bytes|..] == rest;
  }

  lemma WalkOneField(f: Field, rest: seq<byte>, n: nat, want: nat)
    requires WellFormed(f) && |EncodeField(f) + rest| <= n < TWO64
    ensures WalkFrom(EncodeField(f) + rest, n, want) ==
            if f.Len? && f.num == want then Some(Found(f.data)) else WalkFrom(rest, n, want)
  {
    hide Encode, WalkFrom;
    var b := EncodeField(f) + rest;
    match f
    case Varint(num, value) =>
      assert b == Encode(num * 8 + 0) + (Encode(value) + rest);
      WalkVarint(num, value, rest, n, want);
    case Fixed64(num, bytes) =>
      assert b == Encode(num * 8 + 1) + (bytes + rest);
      WalkFixed(num, 1, bytes, rest, n, want);
    case Len(num, data) =>
      assert b == Encode(num * 8 + 2) + (Encode(|data|) + data + rest);
      WalkLen(num, data, rest, n, want);
    case Fixed32(num, bytes) =>
      assert b == Encode(num * 8 + 5) + (bytes + rest);
      WalkFixed(num, 5, bytes, rest, n, want);
  }

  lemma {:induction false} WalkOverFields(fs: seq<Field>, n: nat, want: nat)
    requires forall f :: f in fs ==> WellFormed(f)
    requires |EncodeFields(fs)| <= n < TWO64
    ensures WalkFrom(EncodeFields(fs), n, want) == Some(FirstLen(fs, want))
  {
    if fs != [] {
      WalkOneField(fs[0], EncodeFields(fs[1..]), n, want);
      WalkOverFields(fs[1..], n, want);
    }
  }

  /** On every well-formed message the walk returns the first value of the wanted number. */
  lemma WalkReadsFields(fs: seq<Field>, want: nat)
    requires forall f :: f in fs ==> WellFormed(f)
    requires |EncodeFields(fs)| < TWO64
    ensures FieldOf(EncodeFields(fs), want) == FirstLen(fs, want)
  {
    hide WalkFrom, WalkAt, EncodeFields, FirstLen;
    var b := EncodeFields(fs);
    WalkOverFields(fs, |b|, want);
    assert b[0..] == b;
    StraightWalk(b, 0, want, |b| + 1);
  }

  /** Field numbers are cut to 32 bits: 2^32 h more is the same field. */
  lemma WideNumberIsCut(h: nat, num: nat, data: seq<byte>)
    requires h < 0x2000_0000 && num < 0x8000_0000
    requires |Encode((0x1_0000_0000 * h + num) * 8 + 2) + (Encode(|data|) + data)| < TWO64
    ensures FieldOf(Encode((0x1_0000_0000 * h + num) * 8 + 2) + (Encode(|data|) + data), num) == Found(data)
  {
    hide Take, Encode, ToInt32, SegmentCompat.TakeChunk, WalkAt;
    var b := Encode((0x1_0000_0000 * h + num) * 8 + 2) + (Encode(|data|) + data);
    SegmentCompat.WideTag(h, num, Encode(|data|) + data);
    SegmentCompat.ChunkReadsBack(data, [], |b|);
    assert Encode(|data|) + data + [] == Encode(|data|) + data && b[0..] == b;
    StraightWalk(b, 0, num, |b| + 1);
  }

  /** Behind the fields a tag with a wire type that SDS does not use ends the walk, whatever follows. */
  lemma OtherWireEndsWalk(fs: seq<Field>, num: nat, wt: nat, tail: seq<byte>, want: nat)
    requires (forall f :: f in fs ==> WellFormed(f)) && num * 8 + wt < 128 && wt in {3, 4, 6, 7}
    requires |EncodeFields(fs) + ([num * 8 + wt] + tail)| < TWO64
    ensures FieldOf(EncodeFields(fs) + ([num * 8 + wt] + tail), want) == FirstLen(fs, want)
  {
    hide WalkFrom, WalkAt, EncodeFields, FirstLen;
    var rest := [num * 8 + wt] + tail;
    var b := EncodeFields(fs) + rest;
    EndsHere(num, wt, tail, |b|, want);
    WalkBefore(fs, rest, |b|, want);
    assert b[0..] == b;
    StraightWalk(b, 0, want, |b| + 1);
  }

  lemma EndsHere(num: nat, wt: nat, tail: seq<byte>, n: nat, want: nat)
    requires num * 8 + wt < 128 && wt in {3, 4, 6, 7} && |[num * 8 + wt] + tail| <= n
    ensures WalkFrom([num * 8 + wt] + tail, n, want) == Some(Absent)
  {
    hide Take, ToInt32;
    SegmentCompat.TagReadsBack(num, wt, tail);
  }

  lemma {:induction false} WalkBefore(fs: seq<Field>, rest: seq<byte>, n: nat, want: nat)
    requires (forall f :: f in fs ==> WellFormed(f)) && |EncodeFields(fs) + rest| <= n < TWO64
    requires WalkFrom(rest, n, want) == Some(Absent)
    ensures WalkFrom(EncodeFields(fs) + rest, n, want) == Some(FirstLen(fs, want))
  {
    hide WalkFrom, EncodeField;
    if fs == [] {
      assert EncodeFields(fs) + rest == rest;
    } else {
      assert EncodeFields(fs) + rest == EncodeField(fs[0]) + (EncodeFields(fs[1..]) + rest);
      WalkOneField(fs[0], EncodeFields(fs[1..]) + rest, n, want);
      WalkBefore(fs[1..], rest, n, want);
    }
  }

  // ---- the event payload ----

  datatype Json =
    | JString(text: seq<byte>)
    | JArray(items: seq<Json>)
    | JObject(members: map<string, Json>)
    | JInt(value: int)
    | JOther

  /** base64 text, one character per byte. */
  function Text(b: seq<byte>): string {
    seq(|b|, i requires 0 <= i < |b| => b[i] as char)
  }

  function Raw(s: string): seq<byte> {
    seq(|s|, i requires 0 <= i < |s| => s[i] as int % 256)
  }

  function DecodeText(b: seq<byte>): seq<byte> {
    Base64.Bytes(Base64.Readable(Text(b)))
  }

  function Chars(items: seq<Json>): seq<byte> {
    if items == [] then []
    else (if items[0].JInt? then [items[0].value % 256] else []) + Chars(items[1..])
  }

  function ToWire(v: Json): seq<byte> {
    match v
    case JString(t) => t
    case JArray(items) => Chars(items)
    case JObject(m) => if "_bytes" in m && m["_bytes"].JString? then DecodeText(m["_bytes"].text) else []
    case _ => []
  }

  /** The payload itself, or else its member "payload". */
  function WireBytes(v: Json): seq<byte> {
    var enc := ToWire(v);
    if enc == [] && v.JObject? && "payload" in v.members then ToWire(v.members["payload"]) else enc
  }

  function Ints(b: seq<byte>): seq<Json> {
    seq(|b|, i requires 0 <= i < |b| => JInt(b[i]))
  }

  lemma {:induction false} CharsOfInts(b: seq<byte>)
    ensures Chars(Ints(b)) == b
  {
    if b != [] {
      assert Ints(b)[1..] == Ints(b[1..]);
      CharsOfInts(b[1..]);
    }
  }

  lemma TextOfRaw(s: string)
    requires forall c :: c in s ==> c as int < 256
    ensures Text(Raw(s)) == s
  {
    forall i | 0 <= i < |s| ensures Text(Raw(s))[i] == s[i] {
      assert s[i] in s;
    }
  }

  lemma {:induction false} SymbolsAreAscii(v: seq<Base64.sextet>)
    ensures forall c :: c in Base64.Symbols(v) ==> c as int < 256
  {
    forall i | 0 <= i < |v| ensures Base64.Symbols(v)[i] as int < 256 {
    }
  }

  lemma UrlTextIsAscii(b: seq<byte>)
    ensures forall c :: c in Base64.UrlSafe(Base64.Rfc4648(b)) ==> c as int < 256
  {
    hide Base64.Sextets;
    SymbolsAreAscii(Base64.Sextets(b));
    var s := Base64.Rfc4648(b);
    forall i | 0 <= i < |s| ensures s[i] as int < 256 {
      assert i < |Base64.Symbols(Base64.Sextets(b))| ==> s[i] in Base64.Symbols(Base64.Sextets(b));
    }
  }

  /** However the delivery module spells the bytes of an event, the handler sees the same bytes. */
  lemma SpellingsAgree(b: seq<byte>)
    ensures var spelled := JObject(map["_bytes" := JString(Raw(Base64.UrlSafe(Base64.Rfc4648(b))))]);
            && WireBytes(JString(b)) == b
            && WireBytes(JArray(Ints(b))) == b
            && WireBytes(spelled) == b
            && WireBytes(JObject(map["payload" := spelled])) == b
  {
    hide Base64.UrlSafe, Base64.Rfc4648, Base64.Bytes, Base64.Readable, Raw, Text;
    CharsOfInts(b);
    UrlTextIsAscii(b);
    TextOfRaw(Base64.UrlSafe(Base64.Rfc4648(b)));
    Base64.AllSpellingsDecode(b);
    var spelled := JObject(map["_bytes" := JString(Raw(Base64.UrlSafe(Base64.Rfc4648(b))))]);
    assert ToWire(spelled) == b;
    assert "_bytes" != "payload";
  }

  lemma {:induction false} IntsBefore(a: seq<byte>, items: seq<Json>)
    ensures Chars(Ints(a) + items) == a + Chars(items)
    decreases |a|
  {
    if a == [] {
      assert Ints(a) + items == items;
    } else {
      assert (Ints(a) + items)[1..] == Ints(a[1..]) + items;
      IntsBefore(a[1..], items);
    }
  }

  /** Of an array only the integers count. */
  lemma IntegersCount(a: seq<byte>, b: seq<byte>, x: Json)
    requires !x.JInt?
    ensures WireBytes(JArray(Ints(a) + [x] + Ints(b))) == a + b
  {
    hide DecodeText;
    assert Ints(a) + [x] + Ints(b) == Ints(a) + ([x] + Ints(b));
    IntsBefore(a, [x] + Ints(b));
    OtherFirst(x, Ints(b));
    CharsOfInts(b);
    hide Chars, Ints;
  }

  lemma OtherFirst(x: Json, items: seq<Json>)
    requires !x.JInt?
    ensures Chars([x] + items) == Chars(items)
  {
    assert ([x] + items)[1..] == items;
  }

  /** Of an object its own bytes, and only if there are none its payload; of anything else nothing. */
  lemma OwnBytesCount(x: Json, t: seq<byte>)
    requires DecodeText(t) != []
    ensures WireBytes(JObject(map["_bytes" := JString(t), "payload" := x])) == DecodeText(t)
    ensures WireBytes(JOther) == [] && WireBytes(JInt(7)) == []
  {
    hide DecodeText, Chars;
    assert "_bytes" != "payload";
    var m: map<string, Json> := map["_bytes" := JString(t), "payload" := x];
    assert m["_bytes"] == JString(t);
  }

  // ---- the handler ----

  datatype Verdict =
    | Dropped
    | DroppedSegment  // part of a multi-segment set; counted
    | Forwarded(topic: seq<byte>, sender: seq<byte>, sealed: seq<byte>)
    | Stuck           // a field walk or a segment scan does not end

  const SLASH: byte := 0x2F

  function OrEmpty(w: Walk): seq<byte> {
    if w.Found? then w.data else []
  }

  /** The tail of the handler: empty frames are not handed up. */
  function Handed(topic: seq<byte>, sender: seq<byte>, sealed: seq<byte>): Verdict {
    if sealed == [] then Dropped else Forwarded(topic, sender, sealed)
  }

  /** The branch for an SDS message `enc` with topic `f4` and content `f5`. */
  function SdsVerdict(keccak: SegmentCompat.Hash, enc: seq<byte>, f4: seq<byte>, f5: seq<byte>, sender: seq<byte>)
    : Verdict
  {
    var sealed := SegmentCompat.Unwrap(keccak, f5);
    if sealed.None? || SegmentCompat.Scanned(sealed.value).Endless? then Stuck
    else if SegmentCompat.IsSegmentWrapped(sealed.value) then DroppedSegment
    else
      var w7 := FieldOf(enc, 7);
      if w7.Endless? then Stuck
      else Handed(f4, if OrEmpty(w7) != [] then OrEmpty(w7) else sender, sealed.value)
  }

  function Verdicts(keccak: SegmentCompat.Hash, topic: seq<byte>, sender: seq<byte>, payload: Json): Verdict {
    var enc := WireBytes(payload);
    var w4, w5 := FieldOf(enc, 4), FieldOf(enc, 5);
    if enc == [] then Dropped
    else if w4.Endless? || w5.Endless? then Stuck
    else
      var f4, f5 := OrEmpty(w4), OrEmpty(w5);
      if f5 != [] && f4 != [] && f4[0] == SLASH then SdsVerdict(keccak, enc, f4, f5, sender)
      else Handed(topic, sender, DecodeText(enc))
  }

  class DeliveryReceiver {
    const keccak: SegmentCompat.Hash
    var rx: nat
    var rxSegmented: nat
    var frames: seq<Verdict>

    constructor (keccak: SegmentCompat.Hash)
      ensures this.keccak == keccak && rx == rxSegmented == 0 && frames == []
    {
      this.keccak := keccak;
      rx, rxSegmented, frames := 0, 0, [];
    }

    /** `frames` lists the calls of `onFrame`. */
    method Handle(topic: seq<byte>, sender: seq<byte>, payload: Json) returns (v: Verdict)
      requires |WireBytes(payload)| < TWO64
      modifies this
      ensures v == Verdicts(keccak, topic, sender, payload)
      ensures frames == old(frames) + if v.Forwarded? then [v] else []
      ensures rx == old(rx) + if v.Forwarded? then 1 else 0
      ensures rxSegmented == old(rxSegmented) + if v.DroppedSegment? then 1 else 0
    {
      hide FieldOf, WireBytes, DecodeText, SegmentCompat.Scanned, SegmentCompat.Unwrap;
      var enc := WireBytes(payload);
      if enc == [] {
        return Dropped;
      }
      var snd, tpc := sender, topic;
      var w4 := SdsField(enc, 4);
      var w5 := SdsField(enc, 5);
      if w4.Endless? || w5.Endless? {
        return Stuck;
      }
      var f4, f5 := OrEmpty(w4), OrEmpty(w5);
      var sealed: seq<byte>;
      if f5 != [] && f4 != [] && f4[0] == SLASH {
        tpc := f4;
        var unwrapped := SegmentCompat.Unwrap(keccak, f5);
        if unwrapped.None? || SegmentCompat.Scanned(unwrapped.value).Endless? {
          return Stuck;
        }
        sealed := unwrapped.value;
        if SegmentCompat.IsSegmentWrapped(sealed) {
          rxSegmented := rxSegmented + 1;
          return DroppedSegment;
        }
        var w7 := SdsField(enc, 7);
        if w7.Endless? {
          return Stuck;
        }
        if OrEmpty(w7) != [] {
          snd := OrEmpty(w7);
        }
      } else {
        sealed := DecodeText(enc);
      }
      if sealed == [] {
        return Dropped;
      }
      rx := rx + 1;
      v := Forwarded(tpc, snd, sealed);
      frames := frames + [v];
    }
  }

  // ---- payloads that are no SDS message ----

  /**
    A payload with no content, or none under a topic that starts with a slash, is taken for base64 text and handed up
    under the topic and sender of the event, unless it decodes to nothing.
  */
  lemma HandlesPlain(keccak: SegmentCompat.Hash, topic: seq<byte>, sender: seq<byte>, payload: Json)
    requires var enc := WireBytes(payload);
             && enc != [] && !FieldOf(enc, 4).Endless? && !FieldOf(enc, 5).Endless?
             && (!FieldOf(enc, 5).Found? || FieldOf(enc, 5).data == []
                 || !FieldOf(enc, 4).Found? || FieldOf(enc, 4).data == [] || FieldOf(enc, 4).data[0] != 0x2F)
    ensures var b := DecodeText(WireBytes(payload));
            Verdicts(keccak, topic, sender, payload) == if b == [] then Dropped else Forwarded(topic, sender, b)
  {
    hide FieldOf, WireBytes, DecodeText;
  }

  /** The characters of both base64 alphabets, and '=', are among these. */
  predicate TextByte(x: byte) {
    0x2B <= x < 0x80
  }

  ghost predicate AllText(t: seq<byte>) {
    forall i :: 0 <= i < |t| ==> TextByte(t[i])
  }

  /** A byte below 128 is a varint by itself. */
  lemma TakeSmall(x: byte, tail: seq<byte>)
    requires x < 128
    ensures Take([x] + tail) == Some((x as nat, tail))
  {
    assert Encode(x) == [x];
    TakeEncoded(x, tail);
  }

  lemma TextTag(x: byte)
    requires TextByte(x)
    ensures ToInt32(x / 8) == x / 8 && x / 8 != 4
    ensures x % 8 == 2 ==> x / 8 != 5
  {
  }

  /** In text no turn of the walk finds field 4 or 5, and every turn leads forward. */
  lemma TextStride(t: seq<byte>, i: nat, want: int)
    requires AllText(t) && |t| <= TWO64 - 128 && i < |t| && (want == 4 || want == 5)
    ensures var s := StrideAt(t, i, want); s.Halt? || (s.Skip? && s.next > i)
  {
    hide Take, ToInt32, SegmentCompat.Substr;
    assert t[i..] == [t[i]] + t[i + 1..];
    TakeSmall(t[i], t[i + 1..]);
    TextTag(t[i]);
    if i + 1 < |t| {
      assert t[i + 1..] == [t[i + 1]] + t[i + 2..];
      TakeSmall(t[i + 1], t[i + 2..]);
    } else {
      NothingToTake(0, 0);
    }
  }

  lemma {:induction false} TextWalk(t: seq<byte>, i: nat, want: int, turns: nat)
    requires AllText(t) && |t| <= TWO64 - 128 && (want == 4 || want == 5)
    requires i <= |t| && turns >= |t| - i
    ensures WalkAt(t, i, want, turns) == Absent
    decreases turns
  {
    hide StrideAt, AllText;
    if i < |t| {
      TextStride(t, i, want);
      var s := StrideAt(t, i, want);
      if s.Skip? {
        TextWalk(t, s.next, want, turns - 1);
      }
    }
  }

  /** No text of base64 characters is mistaken for an SDS message: it is decoded and handed up. */
  lemma TextIsHandedUp(keccak: SegmentCompat.Hash, topic: seq<byte>, sender: seq<byte>, payload: Json)
    requires AllText(WireBytes(payload)) && |WireBytes(payload)| <= TWO64 - 128
    requires DecodeText(WireBytes(payload)) != []
    ensures Verdicts(keccak, topic, sender, payload) ==
            Forwarded(topic, sender, DecodeText(WireBytes(payload)))
  {
    hide WalkAt, WireBytes, DecodeText, AllText;
    var enc := WireBytes(payload);
    NothingDecodes();
    TextWalk(enc, 0, 4, |enc| + 1);
    TextWalk(enc, 0, 5, |enc| + 1);
    HandlesPlain(keccak, topic, sender, payload);
  }

  lemma NothingDecodes()
    ensures DecodeText([]) == []
  {
  }

  lemma {:induction false} SymbolsAreText(v: seq<Base64.sextet>)
    ensures forall i :: 0 <= i < |v| ==> TextByte(Base64.Symbols(v)[i] as int % 256)
  {
  }

  lemma Base64IsText(b: seq<byte>)
    ensures AllText(Raw(Base64.Rfc4648(b)))
    ensures forall c :: c in Base64.Rfc4648(b) ==> c as int < 256
  {
    hide Base64.Sextets;
    SymbolsAreText(Base64.Sextets(b));
    SymbolsAreAscii(Base64.Sextets(b));
  }

  /** So the base64 text of any bytes is forwarded as these bytes, under the topic and sender of the event. */
  lemma Base64IsHandedUp(keccak: SegmentCompat.Hash, topic: seq<byte>, sender: seq<byte>, b: seq<byte>)
    requires b != [] && |Raw(Base64.Rfc4648(b))| <= TWO64 - 128
    ensures Verdicts(keccak, topic, sender, JString(Raw(Base64.Rfc4648(b)))) == Forwarded(topic, sender, b)
  {
    hide Base64.Rfc4648, Base64.Bytes, Base64.Readable, Raw, Text, AllText, Verdicts;
    var payload := JString(Raw(Base64.Rfc4648(b)));
    Base64IsText(b);
    TextOfRaw(Base64.Rfc4648(b));
    Base64.RoundTrip(b);
    TextIsHandedUp(keccak, topic, sender, payload);
  }

  // ---- two library generations ----

  /** An SDS message as the delivery library builds it: any well-formed fields, the first of each number counts. */
  ghost predicate Carries(fs: seq<Field>, topic: seq<byte>, content: seq<byte>, payload: Json) {
    && (forall f :: f in fs ==> WellFormed(f))
    && |EncodeFields(fs)| < TWO64 && WireBytes(payload) == EncodeFields(fs)
    && topic != [] && topic[0] == SLASH && FirstLen(fs, 4) == Found(topic)
    && FirstLen(fs, 5) == Found(content)
  }

  function SenderOf(fs: seq<Field>, sender: seq<byte>): seq<byte> {
    var s7 := OrEmpty(FirstLen(fs, 7));
    if s7 != [] then s7 else sender
  }

  lemma {:induction false} FoundIsSmaller(fs: seq<Field>, want: nat)
    requires FirstLen(fs, want).Found?
    ensures |FirstLen(fs, want).data| < |EncodeFields(fs)|
  {
    hide Encode;
    if !(fs[0].Len? && fs[0].num == want) {
      FoundIsSmaller(fs[1..], want);
    }
  }

  lemma {:induction false} NeverEndless(fs: seq<Field>, want: nat)
    ensures !FirstLen(fs, want).Endless?
  {
    if fs != [] {
      NeverEndless(fs[1..], want);
    }
  }

  /** What the handler makes of an SDS message with content `content`. */
  lemma HandlesContent(keccak: SegmentCompat.Hash, fs: seq<Field>, topic: seq<byte>, content: seq<byte>,
                       eventTopic: seq<byte>, sender: seq<byte>, payload: Json)
    requires Carries(fs, topic, content, payload) && content != []
    ensures var sealed := SegmentCompat.Unwrap(keccak, content);
            Verdicts(keccak, eventTopic, sender, payload) ==
            if sealed.None? || SegmentCompat.Scanned(sealed.value).Endless? then Stuck
            else if SegmentCompat.IsSegmentWrapped(sealed.value) then DroppedSegment
            else if sealed.value == [] then Dropped
            else Forwarded(topic, SenderOf(fs, sender), sealed.value)
  {
    hide FieldOf, WireBytes, DecodeText, SegmentCompat.Scanned, SegmentCompat.Unwrap, EncodeFields, FirstLen;
    FoundIsSmaller(fs, 4);
    WalkReadsFields(fs, 4);
    WalkReadsFields(fs, 5);
    WalkReadsFields(fs, 7);
    NeverEndless(fs, 7);
  }

  /**
    Two generations of the delivery library agree: the handler hands up the same topic, sender and payload
    p whether an SDS message carries p as it is or wrapped as a single segment. This holds for exactly the
    payloads that are not empty and whose own scan as a segment ends without finding one.
  */
  lemma GenerationsAgreeIff(keccak: SegmentCompat.Hash, raw: seq<Field>, wrapped: seq<Field>, p: seq<byte>,
                            topic: seq<byte>, eventTopic: seq<byte>, sender: seq<byte>, from: seq<byte>,
                            rawEvent: Json, wrappedEvent: Json)
    requires |keccak(p)| == 32
    requires Carries(raw, topic, p, rawEvent) && SenderOf(raw, sender) == from
    requires Carries(wrapped, topic, SegmentCompat.WrapSingle(keccak, p), wrappedEvent)
    requires SenderOf(wrapped, sender) == from
    ensures && Verdicts(keccak, eventTopic, sender, rawEvent) == Forwarded(topic, from, p)
            && Verdicts(keccak, eventTopic, sender, wrappedEvent) == Forwarded(topic, from, p)
       <==> && p != [] && !SegmentCompat.IsSegmentWrapped(p)
            && !(p[0] == 0x0A && ComesBack(SegmentCompat.Next(p), 0))
  {
    hide FieldOf, WireBytes, EncodeFields, FirstLen, Verdicts, SenderOf;
    hide SegmentCompat.Scanned, SegmentCompat.WrapSingle;
    hide ComesBack, SegmentCompat.Next;
    FoundIsSmaller(wrapped, 5);
    SegmentCompat.UnwrapInvertsWrap(keccak, p);
    SegmentCompat.WrapIsLonger(keccak, p);
    HandlesContent(keccak, wrapped, topic, SegmentCompat.WrapSingle(keccak, p), eventTopic, sender, wrappedEvent);
    if p != [] {
      SegmentCompat.EndlessIff(p);
      HandlesContent(keccak, raw, topic, p, eventTopic, sender, rawEvent);
    } else {
      NothingForwardedEmpty(keccak, eventTopic, sender, rawEvent);
    }
  }

  lemma NothingForwardedEmpty(keccak: SegmentCompat.Hash, topic: seq<byte>, sender: seq<byte>, payload: Json)
    ensures var v := Verdicts(keccak, topic, sender, payload); v.Forwarded? ==> v.sealed != []
  {
    hide FieldOf, WireBytes, DecodeText, SegmentCompat.Scanned, SegmentCompat.Unwrap;
  }

  /** In particular for every payload that does not start with the byte 0x0A, as no base64 text does. */
  lemma GenerationsAgree(keccak: SegmentCompat.Hash, raw: seq<Field>, wrapped: seq<Field>, p: seq<byte>,
                         topic: seq<byte>, eventTopic: seq<byte>, sender: seq<byte>, from: seq<byte>,
                         rawEvent: Json, wrappedEvent: Json)
    requires |keccak(p)| == 32 && p != [] && p[0] != 0x0A
    requires Carries(raw, topic, p, rawEvent) && SenderOf(raw, sender) == from
    requires Carries(wrapped, topic, SegmentCompat.WrapSingle(keccak, p), wrappedEvent)
    requires SenderOf(wrapped, sender) == from
    ensures Verdicts(keccak, eventTopic, sender, rawEvent) == Forwarded(topic, from, p)
    ensures Verdicts(keccak, eventTopic, sender, wrappedEvent) == Forwarded(topic, from, p)
  {
    hide Verdicts, SegmentCompat.WrapSingle, Carries, SenderOf;
    SegmentCompat.UnwrapChangesIff(keccak, p);
    GenerationsAgreeIff(keccak, raw, wrapped, p, topic, eventTopic, sender, from, rawEvent, wrappedEvent);
  }

  // ---- an event that gets the handler stuck ----

  /** The walk goes round for ever on the bytes on which the segment scan does. */
  lemma SomeWalkNeverEnds(want: int)
    requires want != 1
    ensures FieldOf([0x0A] + Encode(TWO64 - 11), want).Endless?
  {
    hide Take, Encode, ToInt32, After, WalkAt, Pow2;
    var v := TWO64 - 11;
    var b := [0x0A] + Encode(v);
    SegmentCompat.LastLength();
    SegmentCompat.TagReadsBack(1, 2, Encode(v));
    TakeEncoded(v, []);
    assert Encode(v) + [] == Encode(v);
    assert b[0..] == b && b[1..] == Encode(v);
    assert NextOf(b, want, 0) == Some(0);
    SegmentCompat.StandsStill(Next(b, want), 0);
    EndlessIff(b, want);
  }

  lemma SomeEventGetsStuck(keccak: SegmentCompat.Hash, topic: seq<byte>, sender: seq<byte>)
    ensures Verdicts(keccak, topic, sender, JString([0x0A] + Encode(TWO64 - 11))) == Stuck
  {
    hide FieldOf, Encode, DecodeText;
    SomeWalkNeverEnds(4);
  }

  /** The segment scan of `b` comes by some position twice. */
  ghost predicate ScanGoesRound(b: seq<byte>) {
    b != [] && b[0] == 0x0A && ComesBack(SegmentCompat.Next(b), 0)
  }

  /** Content `c` of the message `enc` keeps the handler busy: its scan, that of its payload or the walk for 7. */
  ghost predicate ContentSticks(keccak: SegmentCompat.Hash, enc: seq<byte>, c: seq<byte>) {
    var p := SegmentCompat.Unwrap(keccak, c);
    || ScanGoesRound(c)
    || (p.Some? && ScanGoesRound(p.value))
    || (p.Some? && !SegmentCompat.IsSegmentWrapped(p.value) && ComesBack(Next(enc, 7), 0))
  }

  /** The handler gets stuck exactly on the events one of whose walks or scans comes by some position twice. */
  lemma StuckIff(keccak: SegmentCompat.Hash, topic: seq<byte>, sender: seq<byte>, payload: Json)
    ensures var enc := WireBytes(payload);
            Verdicts(keccak, topic, sender, payload) == Stuck <==>
            && enc != []
            && (|| ComesBack(Next(enc, 4), 0) || ComesBack(Next(enc, 5), 0)
                || (exists t, c :: && FieldOf(enc, 4) == Found(t) && t != [] && t[0] == 0x2F
                                   && FieldOf(enc, 5) == Found(c) && c != [] && ContentSticks(keccak, enc, c)))
  {
    hide FieldOf, WireBytes, DecodeText, ComesBack, SegmentCompat.IsSegmentWrapped, SegmentCompat.Scanned;
    hide SegmentCompat.Next;
    var enc := WireBytes(payload);
    EndlessIff(enc, 4);
    EndlessIff(enc, 5);
    EndlessIff(enc, 7);
    var w4, w5 := FieldOf(enc, 4), FieldOf(enc, 5);
    if w4.Found? && w5.Found? {
      SegmentCompat.EndlessIff(w5.data);
      var p := SegmentCompat.Unwrap(keccak, w5.data);
      if p.Some? {
        SegmentCompat.EndlessIff(p.value);
      }
    }
  }
}
