/**
  Recognising the LIP-243 SegmentMessage wrapper (`core/src/segment_compat.hpp`). The Keccak-256 hash is a
  parameter here; its sponge is in `Keccak`.
*/
module SegmentCompat {
  import opened Prelude
  import opened Varint
  import opened Positions

  type Hash = seq<byte> -> seq<byte>

  datatype Fields = Fields(
    hash: Option<seq<byte>>, payload: seq<byte>,
    length: nat, index: nat, dataCount: nat, parityCount: nat, isParity: bool)

  const NO_FIELDS: Fields := Fields(None, [], 0, 0, 0, 0, false)

  /** How a scan ends: at the end of the bytes, at something that is not a SegmentMessage, or never. */
  datatype Scan = Clean(fields: Fields) | Foreign | Endless

  function SetLen(f: Fields, num: int, data: seq<byte>): Fields {
    if num == 1 then f.(hash := Some(data)) else f.(payload := data)
  }

  function SetVar(f: Fields, num: int, v: nat): Fields {
    if num == 2 then f.(length := v)
    else if num == 3 then f.(index := v)
    else if num == 4 then f.(dataCount := v)
    else if num == 5 then f.(parityCount := v)
    else f.(isParity := v != 0)
  }

  // ---- the scan, by position ----

  /** `substr(k, ln)`, which stops at the end of the bytes. */
  function Substr(b: seq<byte>, k: nat, ln: nat): (r: seq<byte>)
    requires k <= |b|
    ensures |r| <= |b| - k
  {
    if ln <= |b| - k then b[k..k + ln] else b[k..]
  }

  /**
    One length-delimited field whose length starts at `j`, and where the reader goes on. The 64-bit sum of
    position and length is what is compared with the size and what becomes the next position: if it wraps,
    the field is the rest of the bytes and the reader goes on at an earlier position.
  */
  function ChunkAt(b: seq<byte>, j: nat): (c: Option<(seq<byte>, nat)>)
    requires j <= |b|
    ensures c.Some? ==> c.value.1 <= |b| && j + |c.value.0| < |b|
  {
    var ln := Take(b[j..]);
    if ln.None? then None
    else
      var (len, tail) := ln.value;
      var k := |b| - |tail|;
      if Sum64(k, len) > |b| then None else Some((Substr(b, k, len), Sum64(k, len)))
  }

  /** What one turn of the field loop does at a position: stop, or read a field and go on at `next`. */
  datatype Turn = Stop | Len(num: int, data: seq<byte>, next: nat) | Var(num: int, v: nat, next: nat)

  function TurnAt(b: seq<byte>, i: nat): (t: Turn)
    requires i < |b|
    ensures !t.Stop? ==> t.next <= |b|
    ensures t.Len? ==> |t.data| < |b|
  {
    var tag := Take(b[i..]);
    if tag.None? then Stop
    else
      var num, wt := ToInt32(tag.value.0 / 8), tag.value.0 % 8;
      var j := |b| - |tag.value.1|;
      if wt == 2 && (num == 1 || num == 7) then
        var c := ChunkAt(b, j);
        if c.None? then Stop else Len(num, c.value.0, c.value.1)
      else if wt == 0 && 2 <= num <= 6 then
        var v := Take(b[j..]);
        if v.None? then Stop else Var(num, v.value.0, |b| - |v.value.1|)
      else Stop
  }

  /** The field loop from position `i`, given up after `turns` turns. */
  function ScanAt(b: seq<byte>, i: nat, f: Fields, turns: nat): Scan
    requires i <= |b|
    decreases turns
  {
    if i == |b| then Clean(f)
    else if turns == 0 then Endless
    else
      match TurnAt(b, i)
      case Stop => Foreign
      case Len(num, data, next) => ScanAt(b, next, SetLen(f, num, data), turns - 1)
      case Var(num, v, next) => ScanAt(b, next, SetVar(f, num, v), turns - 1)
  }

  /** A scan that has not ended after more turns than there are positions never ends (`EndlessIff`). */
  function Scanned(b: seq<byte>): Scan {
    if b == [] || b[0] != 0x0A then Foreign else ScanAt(b, 0, NO_FIELDS, |b| + 1)
  }

  predicate Ok(s: Scan) {
    s.Clean? && s.fields.hash.Some? && |s.fields.hash.value| == 32 && s.fields.dataCount >= 1
  }

  predicate IsSegmentWrapped(b: seq<byte>) {
    Ok(Scanned(b))
  }

  /** A complete single segment whose length and hash fields match its payload. */
  predicate IsVerifiedSingle(keccak: Hash, b: seq<byte>) {
    && Ok(Scanned(b))
    && var f := Scanned(b).fields;
       && f.dataCount == 1 && f.index == 0 && !f.isParity && f.parityCount == 0
       && f.length == |f.payload| && keccak(f.payload) == f.hash.value
  }

  /** `unwrapSingleSegment`; none if it does not return. */
  function Unwrap(keccak: Hash, b: seq<byte>): Option<seq<byte>> {
    if Scanned(b).Endless? then None
    else if IsVerifiedSingle(keccak, b) then Some(Scanned(b).fields.payload)
    else Some(b)
  }

  // ---- the imperative parser ----

  method ReadChunk(b: seq<byte>, start: nat) returns (ok: bool, data: seq<byte>, i: nat)
    requires start <= |b| < TWO64
    ensures ok == ChunkAt(b, start).Some?
    ensures ok ==> ChunkAt(b, start).value == (data, i)
  {
    hide Take;
    var okLength, ln, k := Read(b, start);
    if !okLength || Sum64(k, ln) > |b| {
      return false, [], k;
    }
    data := if ln <= |b| - k then b[k..k + ln] else b[k..];
    return true, data, Sum64(k, ln);
  }

  /** The body of the field loop. */
  method ReadTurn(b: seq<byte>, i: nat) returns (t: Turn)
    requires i < |b| < TWO64
    ensures t == TurnAt(b, i)
  {
    hide ChunkAt, Take, ToInt32;
    var okTag, tag, j := Read(b, i);
    if !okTag {
      return Stop;
    }
    var num, wt := ToInt32(tag / 8), tag % 8;
    if wt == 2 && (num == 1 || num == 7) {
      var ok, data, next := ReadChunk(b, j);
      if !ok {
        return Stop;
      }
      return Len(num, data, next);
    } else if wt == 0 && 2 <= num <= 6 {
      var okValue, v, next := Read(b, j);
      if !okValue {
        return Stop;
      }
      return Var(num, v, next);
    }
    return Stop;
  }

  /** The source has no turn counter: where this one runs out, its loop goes on for ever. */
  method ParseSegment(b: seq<byte>) returns (s: Scan)
    requires |b| < TWO64
    ensures s == Scanned(b)
  {
    hide TurnAt, SetLen, SetVar;
    if |b| == 0 || b[0] != 0x0A {
      return Foreign;
    }
    var i: nat, f := 0, NO_FIELDS;
    var turns: nat := |b| + 1;
    while i < |b|
      invariant 0 <= i <= |b|
      invariant ScanAt(b, i, f, turns) == Scanned(b)
      decreases turns
    {
      if turns == 0 {
        return Endless;
      }
      turns := turns - 1;
      var t := ReadTurn(b, i);
      match t {
        case Stop =>
          return Foreign;
        case Len(num, data, next) =>
          f := SetLen(f, num, data);
          i := next;
        case Var(num, v, next) =>
          f := SetVar(f, num, v);
          i := next;
      }
    }
    return Clean(f);
  }

  // ---- when the scan ends ----

  function NextOf(b: seq<byte>, i: nat): Option<nat> {
    if i >= |b| || TurnAt(b, i).Stop? then None else Some(TurnAt(b, i).next)
  }

  /** The positions the loop moves through. */
  ghost function Next(b: seq<byte>): Moves {
    (i: nat) => NextOf(b, i)
  }

  lemma {:induction false} EndlessIsLong(b: seq<byte>, i: nat, f: Fields, turns: nat)
    requires i <= |b|
    ensures ScanAt(b, i, f, turns).Endless? <==>
            After(Next(b), i, turns).Some? && After(Next(b), i, turns).value < |b|
    decreases turns
  {
    hide TurnAt, SetLen, SetVar;
    if i < |b| && turns > 0 {
      match TurnAt(b, i)
      case Stop =>
      case Len(num, data, next) => EndlessIsLong(b, next, SetLen(f, num, data), turns - 1);
      case Var(num, v, next) => EndlessIsLong(b, next, SetVar(f, num, v), turns - 1);
    }
  }

  /** The parser does not return iff its loop comes by some position twice. */
  lemma EndlessIff(b: seq<byte>)
    ensures Scanned(b).Endless? <==> b != [] && b[0] == 0x0A && ComesBack(Next(b), 0)
    ensures (exists t: nat :: After(Next(b), 0, t).None?) <==> !ComesBack(Next(b), 0)
  {
    hide After, ComesBack, ScanAt, TurnAt;
    EndsIffNeverBack(Next(b), 0, |b|);
    EndlessIsLong(b, 0, NO_FIELDS, |b| + 1);
    if ComesBack(Next(b), 0) {
      ComingBackNeverEnds(Next(b), 0, |b| + 2);
      InsideBefore(Next(b), 0, |b|, |b| + 1, |b| + 2);
    }
  }

  // ---- scans whose sums do not wrap ----

  /** A length-delimited field at the front of the bytes still unread, of `n` in all. */
  datatype Chunk = Data(data: seq<byte>, rest: seq<byte>) | Overrun | Rewinds

  function TakeChunk(rest: seq<byte>, n: nat): (c: Chunk)
    requires |rest| <= n
    ensures c.Data? ==> |c.rest| < |rest| && |c.data| < |rest|
  {
    var ln := Take(rest);
    if ln.None? then Overrun
    else
      var (len, tail) := ln.value;
      if Sum64(n - |tail|, len) > n then Overrun
      else if len > |tail| then Rewinds
      else Data(tail[..len], tail[len..])
  }

  /** The scan of the bytes still unread; none if a sum wraps on the way. */
  function ScanFrom(rest: seq<byte>, n: nat, f: Fields): Option<Scan>
    requires |rest| <= n
    decreases |rest|
  {
    if rest == [] then Some(Clean(f))
    else
      var tag := Take(rest);
      if tag.None? then Some(Foreign)
      else
        var num, wt := ToInt32(tag.value.0 / 8), tag.value.0 % 8;
        var tail := tag.value.1;
        if wt == 2 && (num == 1 || num == 7) then
          var c := TakeChunk(tail, n);
          if c.Overrun? then Some(Foreign) else if c.Rewinds? then None
          else ScanFrom(c.rest, n, SetLen(f, num, c.data))
        else if wt == 0 && 2 <= num <= 6 then
          var v := Take(tail);
          if v.None? then Some(Foreign) else ScanFrom(v.value.1, n, SetVar(f, num, v.value.0))
        else Some(Foreign)
  }

  lemma SuffixOf(b: seq<byte>, i: nat, tail: seq<byte>)
    requires i <= |b| && |tail| <= |b| - i && tail == b[i..][|b| - i - |tail|..]
    ensures tail == b[|b| - |tail|..]
  {
  }

  /** The chunk at a position and the chunk at the front of what is unread there. */
  lemma ChunkAgrees(b: seq<byte>, j: nat)
    requires j <= |b| < TWO64
    ensures match TakeChunk(b[j..], |b|)
            case Overrun => ChunkAt(b, j) == None
            case Rewinds => true
            case Data(data, rest) =>
              |rest| < |b| - j && rest == b[|b| - |rest|..] && ChunkAt(b, j) == Some((data, |b| - |rest|))
  {
    hide Take;
    var ln := Take(b[j..]);
    if ln.Some? {
      var (len, tail) := ln.value;
      SuffixOf(b, j, tail);
      if len <= |tail| {
        var k := |b| - |tail|;
        assert tail[..len] == b[k..k + len] && tail[len..] == b[k + len..];
      }
    }
  }

  /** What is unread after turn `t` at `i` scans like what was unread before it. */
  ghost predicate TurnFits(b: seq<byte>, i: nat, f: Fields, t: Turn)
    requires i < |b|
  {
    if t.Stop? then ScanFrom(b[i..], |b|, f) == Some(Foreign)
    else
      && i < t.next <= |b|
      && ScanFrom(b[i..], |b|, f) ==
         ScanFrom(b[t.next..], |b|, if t.Len? then SetLen(f, t.num, t.data) else SetVar(f, t.num, t.v))
  }

  lemma LenAgrees(b: seq<byte>, i: nat, f: Fields, num: int, j: nat)
    requires i < j <= |b| < TWO64 && TakeChunk(b[j..], |b|) != Rewinds
    requires TurnAt(b, i) ==
             var c := ChunkAt(b, j);
             if c.None? then Stop else Len(num, c.value.0, c.value.1)
    requires ScanFrom(b[i..], |b|, f) ==
             var c := TakeChunk(b[j..], |b|);
             if c.Overrun? then Some(Foreign) else ScanFrom(c.rest, |b|, SetLen(f, num, c.data))
    ensures TurnFits(b, i, f, TurnAt(b, i))
  {
    hide Take, ToInt32, ChunkAt, TakeChunk, SetLen, SetVar, TurnAt, ScanFrom;
    ChunkAgrees(b, j);
  }

  lemma VarAgrees(b: seq<byte>, i: nat, f: Fields, num: int, j: nat)
    requires i < j <= |b|
    requires TurnAt(b, i) ==
             var v := Take(b[j..]);
             if v.None? then Stop else Var(num, v.value.0, |b| - |v.value.1|)
    requires ScanFrom(b[i..], |b|, f) ==
             var v := Take(b[j..]);
             if v.None? then Some(Foreign) else ScanFrom(v.value.1, |b|, SetVar(f, num, v.value.0))
    ensures TurnFits(b, i, f, TurnAt(b, i))
  {
    hide Take, ToInt32, SetLen, SetVar, TurnAt, ScanFrom;
    var v := Take(b[j..]);
    if v.Some? {
      SuffixOf(b, j, v.value.1);
    }
  }

  lemma TurnAgrees(b: seq<byte>, i: nat, f: Fields)
    requires i < |b| < TWO64 && ScanFrom(b[i..], |b|, f).Some?
    ensures TurnFits(b, i, f, TurnAt(b, i))
  {
    hide Take, ToInt32, ChunkAt, TakeChunk, SetLen, SetVar, TurnFits;
    var tag := Take(b[i..]);
    if tag.None? {
      StopFits(b, i, f);
    } else {
      SuffixOf(b, i, tag.value.1);
      var num, wt, j := ToInt32(tag.value.0 / 8), tag.value.0 % 8, |b| - |tag.value.1|;
      if wt == 2 && (num == 1 || num == 7) {
        LenAgrees(b, i, f, num, j);
      } else if wt == 0 && 2 <= num <= 6 {
        VarAgrees(b, i, f, num, j);
      } else {
        StopFits(b, i, f);
      }
    }
  }

  lemma StopFits(b: seq<byte>, i: nat, f: Fields)
    requires i < |b| && ScanFrom(b[i..], |b|, f) == Some(Foreign)
    ensures TurnFits(b, i, f, Stop)
  {
    hide ScanFrom;
  }

  lemma NothingUnread(b: seq<byte>, f: Fields)
    ensures ScanFrom(b[|b|..], |b|, f) == Some(Clean(f))
  {
  }

  /** Where no sum wraps, the scan goes straight through and ends. */
  lemma {:induction false} StraightScan(b: seq<byte>, i: nat, f: Fields, turns: nat)
    requires i <= |b| < TWO64 && turns >= |b| - i && ScanFrom(b[i..], |b|, f).Some?
    ensures ScanAt(b, i, f, turns) == ScanFrom(b[i..], |b|, f).value
    decreases |b| - i
  {
    hide TurnAt, SetLen, SetVar, ScanFrom;
    if i == |b| {
      NothingUnread(b, f);
    } else {
      TurnAgrees(b, i, f);
      var t := TurnAt(b, i);
      if !t.Stop? {
        StraightScan(b, t.next, if t.Len? then SetLen(f, t.num, t.data) else SetVar(f, t.num, t.v), turns - 1);
      }
    }
  }

  // ---- canonical encoding ----

  datatype Message = Message(
    hash: seq<byte>, length: nat, index: nat, dataCount: nat, parityCount: Option<nat>, isParity: bool,
    payload: seq<byte>)

  function VarField(num: byte, v: nat): seq<byte>
    requires num < 16
  {
    [num * 8] + Encode(v)
  }

  function LenField(num: byte, data: seq<byte>): seq<byte>
    requires num < 15
  {
    [num * 8 + 2] + Encode(|data|) + data
  }

  /** proto3 leaves out fields that hold their default. */
  function OptVar(num: byte, v: nat): seq<byte>
    requires num < 16
  {
    if v == 0 then [] else VarField(num, v)
  }

  function EncodeMessage(m: Message): seq<byte> {
    LenField(1, m.hash) +
    (OptVar(2, m.length) +
     (OptVar(3, m.index) +
      (OptVar(4, m.dataCount) +
       ((if m.parityCount.Some? then VarField(5, m.parityCount.value) else []) +
        (OptVar(6, if m.isParity then 1 else 0) +
         (if m.payload == [] then [] else LenField(7, m.payload)))))))
  }

  function FieldsOf(m: Message): Fields {
    Fields(Some(m.hash), m.payload, m.length, m.index, m.dataCount,
           if m.parityCount.Some? then m.parityCount.value else 0, m.isParity)
  }

  predicate Fits64(m: Message) {
    && m.length < TWO64 && m.index < TWO64 && m.dataCount < TWO64
    && (m.parityCount.Some? ==> m.parityCount.value < TWO64)
    && |EncodeMessage(m)| < TWO64
  }

  lemma TagReadsBack(num: nat, wt: nat, tail: seq<byte>)
    requires num * 8 + wt < 128 && wt < 8
    ensures Take([num * 8 + wt] + tail) == Some((num * 8 + wt, tail))
    ensures ToInt32((num * 8 + wt) / 8) == num && (num * 8 + wt) % 8 == wt
  {
    assert Encode(num * 8 + wt) == [num * 8 + wt];
    TakeEncoded(num * 8 + wt, tail);
  }

  lemma ScanVar(num: byte, v: nat, rest: seq<byte>, n: nat, f: Fields)
    requires 2 <= num <= 6 && v < TWO64 && |VarField(num, v) + rest| <= n
    ensures ScanFrom(VarField(num, v) + rest, n, f) == ScanFrom(rest, n, SetVar(f, num, v))
  {
    hide Take, Encode, TakeChunk, ToInt32, SetVar, SetLen;
    assert VarField(num, v) + rest == [num * 8 + 0] + (Encode(v) + rest);
    TagReadsBack(num, 0, Encode(v) + rest);
    TakeEncoded(v, rest);
  }

  lemma ChunkReadsBack(data: seq<byte>, rest: seq<byte>, n: nat)
    requires |Encode(|data|) + data + rest| <= n < TWO64
    ensures TakeChunk(Encode(|data|) + data + rest, n) == Data(data, rest)
  {
    hide Take, Encode;
    assert Encode(|data|) + data + rest == Encode(|data|) + (data + rest);
    TakeEncoded(|data|, data + rest);
    assert (data + rest)[..|data|] == data && (data + rest)[|data|..] == rest;
  }

  lemma ScanLen(num: byte, data: seq<byte>, rest: seq<byte>, n: nat, f: Fields)
    requires num == 1 || num == 7
    requires |LenField(num, data) + rest| <= n < TWO64
    ensures ScanFrom(LenField(num, data) + rest, n, f) == ScanFrom(rest, n, SetLen(f, num, data))
  {
    hide Take, Encode, TakeChunk, ToInt32, SetVar, SetLen;
    assert LenField(num, data) + rest == [num * 8 + 2] + (Encode(|data|) + data + rest);
    TagReadsBack(num, 2, Encode(|data|) + data + rest);
    ChunkReadsBack(data, rest, n);
  }

  lemma ScanOpt(num: byte, v: nat, rest: seq<byte>, n: nat, f: Fields)
    requires 2 <= num <= 6 && v < TWO64 && |OptVar(num, v) + rest| <= n
    requires v == 0 ==> SetVar(f, num, 0) == f
    ensures ScanFrom(OptVar(num, v) + rest, n, f) == ScanFrom(rest, n, SetVar(f, num, v))
  {
    hide ScanFrom, VarField;
    if v == 0 {
      assert [] + rest == rest;
    } else {
      ScanVar(num, v, rest, n, f);
    }
  }

  /** The encoding up to the payload. */
  function Header(m: Message): seq<byte> {
    LenField(1, m.hash) +
    (OptVar(2, m.length) +
     (OptVar(3, m.index) +
      (OptVar(4, m.dataCount) +
       ((if m.parityCount.Some? then VarField(5, m.parityCount.value) else []) +
        OptVar(6, if m.isParity then 1 else 0)))))
  }

  lemma HeaderAndPayload(m: Message)
    ensures EncodeMessage(m) == Header(m) + if m.payload == [] then [] else LenField(7, m.payload)
    ensures Header(m) != [] && Header(m)[0] == 0x0A
  {
    hide VarField, OptVar, Encode;
  }

  /** The scan of a header, with anything behind it. */
  lemma ScanHeader(m: Message, rest: seq<byte>)
    requires Fits64(m) && |Header(m) + rest| < TWO64
    ensures ScanFrom(Header(m) + rest, |Header(m) + rest|, NO_FIELDS) ==
            ScanFrom(rest, |Header(m) + rest|, FieldsOf(m).(payload := []))
  {
    hide ScanFrom, VarField, OptVar;
    var n := |Header(m) + rest|;
    var r6 := OptVar(6, if m.isParity then 1 else 0) + rest;
    var r5 := (if m.parityCount.Some? then VarField(5, m.parityCount.value) else []) + r6;
    var r4 := OptVar(4, m.dataCount) + r5;
    var r3 := OptVar(3, m.index) + r4;
    var r2 := OptVar(2, m.length) + r3;
    assert Header(m) + rest == LenField(1, m.hash) + r2;
    var f1 := SetLen(NO_FIELDS, 1, m.hash);
    ScanLen(1, m.hash, r2, n, NO_FIELDS);
    ScanOpt(2, m.length, r3, n, f1);
    var f2 := SetVar(f1, 2, m.length);
    ScanOpt(3, m.index, r4, n, f2);
    var f3 := SetVar(f2, 3, m.index);
    ScanOpt(4, m.dataCount, r5, n, f3);
    var f4 := SetVar(f3, 4, m.dataCount);
    var f5 := f4;
    if m.parityCount.Some? {
      ScanVar(5, m.parityCount.value, r6, n, f4);
      f5 := SetVar(f4, 5, m.parityCount.value);
    } else {
      assert [] + r6 == r6;
    }
    ScanOpt(6, if m.isParity then 1 else 0, rest, n, f5);
  }

  lemma ScanMessage(m: Message)
    requires Fits64(m)
    ensures EncodeMessage(m) != [] && EncodeMessage(m)[0] == 0x0A
    ensures ScanFrom(EncodeMessage(m), |EncodeMessage(m)|, NO_FIELDS) == Some(Clean(FieldsOf(m)))
  {
    HeaderAndPayload(m);
    hide ScanFrom, EncodeMessage, Header;
    var rest := if m.payload == [] then [] else LenField(7, m.payload);
    ScanHeader(m, rest);
    ScanEnd(m.payload, |EncodeMessage(m)|, FieldsOf(m).(payload := []));
  }

  /** Every field of a canonically encoded SegmentMessage is read back. */
  lemma ParseInvertsEncode(m: Message)
    requires Fits64(m)
    ensures Scanned(EncodeMessage(m)) == Clean(FieldsOf(m))
    ensures IsSegmentWrapped(EncodeMessage(m)) <==> |m.hash| == 32 && m.dataCount >= 1
  {
    hide ScanFrom, ScanAt, EncodeMessage;
    var b := EncodeMessage(m);
    ScanMessage(m);
    assert b[0..] == b;
    StraightScan(b, 0, NO_FIELDS, |b| + 1);
  }

  lemma ScanEnd(payload: seq<byte>, n: nat, f: Fields)
    requires f.payload == [] && |if payload == [] then [] else LenField(7, payload)| <= n < TWO64
    ensures ScanFrom(if payload == [] then [] else LenField(7, payload), n, f) == Some(Clean(f.(payload := payload)))
  {
    if payload != [] {
      hide LenField;
      assert LenField(7, payload) + [] == LenField(7, payload);
      ScanLen(7, payload, [], n, f);
    }
  }

  // ---- single segments ----

  /** What a library of the new generation sends for a payload that fits one segment. */
  function WrapSingle(keccak: Hash, p: seq<byte>): seq<byte> {
    EncodeMessage(SingleOf(keccak, p))
  }

  function SingleOf(keccak: Hash, p: seq<byte>): Message {
    Message(keccak(p), |p|, 0, 1, None, false, p)
  }

  /** Unwrapping undoes single-segment wrapping, for every payload, empty or not. */
  lemma UnwrapInvertsWrap(keccak: Hash, p: seq<byte>)
    requires |keccak(p)| == 32 && |WrapSingle(keccak, p)| < TWO64
    ensures Unwrap(keccak, WrapSingle(keccak, p)) == Some(p)
    ensures IsSegmentWrapped(WrapSingle(keccak, p))
  {
    hide EncodeMessage, Scanned;
    var m := SingleOf(keccak, p);
    WrapIsLonger(keccak, p);
    ParseInvertsEncode(m);
  }

  lemma WrapIsLonger(keccak: Hash, p: seq<byte>)
    ensures |WrapSingle(keccak, p)| > |p|
  {
  }

  /** A payload is always shorter than the bytes it is found in. */
  lemma {:induction false} PayloadInside(b: seq<byte>, i: nat, f: Fields, turns: nat)
    requires i <= |b| && |f.payload| < |b|
    ensures ScanAt(b, i, f, turns).Clean? ==> |ScanAt(b, i, f, turns).fields.payload| < |b|
    decreases turns
  {
    hide TurnAt;
    if i < |b| && turns > 0 {
      match TurnAt(b, i)
      case Stop =>
      case Len(num, data, next) => PayloadInside(b, next, SetLen(f, num, data), turns - 1);
      case Var(num, v, next) => PayloadInside(b, next, SetVar(f, num, v), turns - 1);
    }
  }

  /**
    Bytes come back as they are exactly when the parser returns and they are not a complete single segment
    with matching length and hash.
  */
  lemma UnwrapChangesIff(keccak: Hash, b: seq<byte>)
    ensures Unwrap(keccak, b) == Some(b) <==>
            !IsVerifiedSingle(keccak, b) && !(b != [] && b[0] == 0x0A && ComesBack(Next(b), 0))
    ensures Unwrap(keccak, b) == None <==> b != [] && b[0] == 0x0A && ComesBack(Next(b), 0)
    ensures b == [] || b[0] != 0x0A ==> Unwrap(keccak, b) == Some(b) && !IsSegmentWrapped(b)
  {
    hide ScanAt, ComesBack, Next;
    EndlessIff(b);
    if b != [] {
      PayloadInside(b, 0, NO_FIELDS, |b| + 1);
    }
  }

  /**
    For all bytes: what comes back is something else than the bytes exactly when it is the payload p of a scan
    whose hash is the Keccak of p, whose length is that of p, and which is the only data segment of its message.
  */
  lemma UnwrappedIff(keccak: Hash, b: seq<byte>, p: seq<byte>)
    requires p != b
    ensures Unwrap(keccak, b) == Some(p) <==>
            && b != [] && b[0] == 0x0A && |keccak(p)| == 32
            && Scanned(b) == Clean(Fields(Some(keccak(p)), p, |p|, 0, 1, 0, false))
  {
    hide ScanAt;
  }

  /** The message is a single data segment, whole, with the length and the hash of its payload. */
  predicate IsWhole(keccak: Hash, m: Message) {
    && |m.hash| == 32 && m.dataCount == 1 && m.index == 0 && !m.isParity
    && (m.parityCount == None || m.parityCount == Some(0))
    && m.length == |m.payload| && keccak(m.payload) == m.hash
  }

  /** For all canonically encoded messages: a whole single segment gives its payload, any other comes back as it is. */
  lemma UnwrapEncodedIff(keccak: Hash, m: Message)
    requires Fits64(m)
    ensures Unwrap(keccak, EncodeMessage(m)) == Some(m.payload) <==> IsWhole(keccak, m)
    ensures !IsWhole(keccak, m) ==> Unwrap(keccak, EncodeMessage(m)) == Some(EncodeMessage(m))
  {
    PayloadShorter(m);
    hide EncodeMessage, Scanned;
    ParseInvertsEncode(m);
  }

  lemma PayloadShorter(m: Message)
    ensures |EncodeMessage(m)| > |m.payload|
  {
    hide OptVar, VarField, Encode;
  }

  /** The wire format, byte by byte: a single segment of fewer than 128 bytes. */
  lemma ShortSegmentBytes(keccak: Hash, p: seq<byte>)
    requires |keccak(p)| == 32 && 1 <= |p| < 128
    ensures WrapSingle(keccak, p) ==
            [0x0A, 0x20] + keccak(p) + [0x10, |p|, 0x20, 0x01, 0x3A, |p|] + p
  {
    hide TakeChunk;
    assert Encode(32) == [32] && Encode(|p|) == [|p|] && Encode(1) == [1];
    assert LenField(1, keccak(p)) == [0x0A, 0x20] + keccak(p);
    assert OptVar(2, |p|) == [0x10, |p|];
    assert OptVar(3, 0) == [] && OptVar(4, 1) == [0x20, 0x01] && OptVar(6, 0) == [];
    assert LenField(7, p) == [0x3A, |p|] + p;
  }

  // ---- fields that come again ----

  lemma ScanOver(m: Message, rest: seq<byte>)
    requires Fits64(m) && |EncodeMessage(m) + rest| < TWO64
    ensures ScanFrom(EncodeMessage(m) + rest, |EncodeMessage(m) + rest|, NO_FIELDS) ==
            ScanFrom(rest, |EncodeMessage(m) + rest|, FieldsOf(m))
  {
    HeaderAndPayload(m);
    hide ScanFrom, EncodeMessage, Header, LenField;
    var n, f := |EncodeMessage(m) + rest|, FieldsOf(m).(payload := []);
    if m.payload == [] {
      assert EncodeMessage(m) == Header(m);
      ScanHeader(m, rest);
    } else {
      assert EncodeMessage(m) + rest == Header(m) + (LenField(7, m.payload) + rest);
      ScanHeader(m, LenField(7, m.payload) + rest);
      ScanLen(7, m.payload, rest, n, f);
    }
  }

  lemma ScannedOver(m: Message, rest: seq<byte>, f: Fields)
    requires Fits64(m) && |EncodeMessage(m) + rest| < TWO64
    requires ScanFrom(rest, |EncodeMessage(m) + rest|, FieldsOf(m)) == Some(Clean(f))
    ensures Scanned(EncodeMessage(m) + rest) == Clean(f)
  {
    hide ScanFrom, ScanAt, EncodeMessage;
    var b := EncodeMessage(m) + rest;
    ScanMessage(m);
    ScanOver(m, rest);
    assert b[0..] == b && b[0] == 0x0A;
    StraightScan(b, 0, NO_FIELDS, |b| + 1);
  }

  /** Of a field that comes again the last value counts; any number but 0 makes a parity segment. */
  lemma LastValueCounts(m: Message, v: nat, p: seq<byte>)
    requires Fits64(m) && v < TWO64
    ensures |EncodeMessage(m) + VarField(6, v)| < TWO64 ==>
              Scanned(EncodeMessage(m) + VarField(6, v)) == Clean(FieldsOf(m).(isParity := v != 0))
    ensures |EncodeMessage(m) + VarField(4, v)| < TWO64 ==>
              Scanned(EncodeMessage(m) + VarField(4, v)) == Clean(FieldsOf(m).(dataCount := v))
    ensures |EncodeMessage(m) + LenField(7, p)| < TWO64 ==>
              Scanned(EncodeMessage(m) + LenField(7, p)) == Clean(FieldsOf(m).(payload := p))
    ensures |EncodeMessage(m) + LenField(1, p)| < TWO64 ==>
              Scanned(EncodeMessage(m) + LenField(1, p)) == Clean(FieldsOf(m).(hash := Some(p)))
  {
    hide Scanned, EncodeMessage, Fits64, VarField, LenField;
    var f := FieldsOf(m);
    if |EncodeMessage(m) + VarField(6, v)| < TWO64 {
      LastVar(m, 6, v, f.(isParity := v != 0));
    }
    if |EncodeMessage(m) + VarField(4, v)| < TWO64 {
      LastVar(m, 4, v, f.(dataCount := v));
    }
    if |EncodeMessage(m) + LenField(7, p)| < TWO64 {
      LastLen(m, 7, p, f.(payload := p));
    }
    if |EncodeMessage(m) + LenField(1, p)| < TWO64 {
      LastLen(m, 1, p, f.(hash := Some(p)));
    }
  }

  lemma LastVar(m: Message, num: byte, v: nat, f: Fields)
    requires Fits64(m) && v < TWO64 && 2 <= num <= 6 && |EncodeMessage(m) + VarField(num, v)| < TWO64
    requires f == SetVar(FieldsOf(m), num, v)
    ensures Scanned(EncodeMessage(m) + VarField(num, v)) == Clean(f)
  {
    hide ScanFrom, EncodeMessage, VarField, SetVar, Scanned;
    var n := |EncodeMessage(m) + VarField(num, v)|;
    assert VarField(num, v) + [] == VarField(num, v);
    ScanVar(num, v, [], n, FieldsOf(m));
    NothingBehind(n, f);
    ScannedOver(m, VarField(num, v), f);
  }

  lemma LastLen(m: Message, num: byte, p: seq<byte>, f: Fields)
    requires Fits64(m) && (num == 1 || num == 7) && |EncodeMessage(m) + LenField(num, p)| < TWO64
    requires f == SetLen(FieldsOf(m), num, p)
    ensures Scanned(EncodeMessage(m) + LenField(num, p)) == Clean(f)
  {
    hide ScanFrom, EncodeMessage, LenField, SetLen, Scanned;
    var n := |EncodeMessage(m) + LenField(num, p)|;
    assert LenField(num, p) + [] == LenField(num, p);
    ScanLen(num, p, [], n, FieldsOf(m));
    NothingBehind(n, f);
    ScannedOver(m, LenField(num, p), f);
  }

  lemma NothingBehind(n: nat, f: Fields)
    ensures ScanFrom([], n, f) == Some(Clean(f))
  {
  }

  // ---- what is no SegmentMessage ----

  /** A header followed by something that does not scan. */
  lemma ForeignBehind(keccak: Hash, m: Message, rest: seq<byte>)
    requires Fits64(m) && |Header(m) + rest| < TWO64
    requires ScanFrom(rest, |Header(m) + rest|, FieldsOf(m).(payload := [])) == Some(Foreign)
    ensures var b := Header(m) + rest;
            Scanned(b) == Foreign && !IsSegmentWrapped(b) && Unwrap(keccak, b) == Some(b)
  {
    hide ScanFrom, ScanAt, Header;
    var b := Header(m) + rest;
    HeaderAndPayload(m);
    ScanHeader(m, rest);
    assert b[0..] == b && b[0] == 0x0A;
    StraightScan(b, 0, NO_FIELDS, |b| + 1);
  }

  /** A field with another number or wire type: whatever stands before and after it, this is no SegmentMessage. */
  lemma OtherFieldIsForeign(keccak: Hash, m: Message, num: nat, wt: nat, tail: seq<byte>)
    requires Fits64(m) && num * 8 + wt < 128 && wt < 8
    requires !(wt == 2 && (num == 1 || num == 7)) && !(wt == 0 && 2 <= num <= 6)
    requires |Header(m) + ([num * 8 + wt] + tail)| < TWO64
    ensures var b := Header(m) + ([num * 8 + wt] + tail);
            Scanned(b) == Foreign && !IsSegmentWrapped(b) && Unwrap(keccak, b) == Some(b)
  {
    hide Take, ToInt32, Scanned, Unwrap, Header, TakeChunk;
    TagReadsBack(num, wt, tail);
    ForeignBehind(keccak, m, [num * 8 + wt] + tail);
  }

  /** The length and data of a field, cut off somewhere before the end. */
  lemma CutChunk(p: seq<byte>, j: nat, n: nat)
    requires j < |Encode(|p|) + p| && j <= n && n + |Encode(|p|) + p| - j < TWO64
    ensures TakeChunk((Encode(|p|) + p)[..j], n) == Overrun
  {
    hide Take, Encode;
    var e := Encode(|p|);
    if j < |e| {
      assert (e + p)[..j] == e[..j];
      CutVarint(|p|, j);
    } else {
      assert (e + p)[..j] == e + p[..j - |e|];
      TakeEncoded(|p|, p[..j - |e|]);
    }
  }

  /** The front of a length-delimited field, cut off somewhere before its end. */
  lemma CutField(p: seq<byte>, k: nat, n: nat, f: Fields)
    requires 0 < k < |LenField(7, p)| && k <= n && n + |LenField(7, p)| - k < TWO64
    ensures ScanFrom(LenField(7, p)[..k], n, f) == Some(Foreign)
  {
    hide Take, Encode, ToInt32, SetLen, SetVar, TakeChunk;
    var rest := (Encode(|p|) + p)[..k - 1];
    assert LenField(7, p)[..k] == [7 * 8 + 2] + rest;
    TagReadsBack(7, 2, rest);
    CutChunk(p, k - 1, n);
  }

  /** A segment whose payload is cut short is none, and comes back as it is. */
  lemma TruncatedIsForeign(keccak: Hash, m: Message, k: nat)
    requires Fits64(m) && m.payload != [] && |Header(m)| < k < |EncodeMessage(m)|
    ensures var b := EncodeMessage(m)[..k];
            Scanned(b) == Foreign && !IsSegmentWrapped(b) && Unwrap(keccak, b) == Some(b)
  {
    HeaderAndPayload(m);
    hide ScanFrom, Scanned, Unwrap, Header, EncodeMessage, LenField;
    var j := k - |Header(m)|;
    var rest := LenField(7, m.payload)[..j];
    assert EncodeMessage(m)[..k] == Header(m) + rest;
    CutField(m.payload, j, k, FieldsOf(m).(payload := []));
    ForeignBehind(keccak, m, rest);
  }

  /** Nor is one that ends within a number or within a tag. */
  lemma UnfinishedIsForeign(keccak: Hash, m: Message, num: byte, v: nat, k: nat, rest: seq<byte>)
    requires Fits64(m) && 2 <= num <= 6 && 0 < k < |VarField(num, v)| && rest != [] && Take(rest) == None
    requires |Header(m)| + k < TWO64 && |Header(m) + rest| < TWO64
    ensures Unwrap(keccak, Header(m) + VarField(num, v)[..k]) == Some(Header(m) + VarField(num, v)[..k])
    ensures Scanned(Header(m) + VarField(num, v)[..k]) == Scanned(Header(m) + rest) == Foreign
  {
    hide Scanned, Unwrap, Header, ScanFrom;
    var cut := VarField(num, v)[..k];
    CutVar(num, v, k, |Header(m) + cut|, FieldsOf(m).(payload := []));
    ForeignBehind(keccak, m, cut);
    UnfinishedTag(rest, |Header(m) + rest|, FieldsOf(m).(payload := []));
    ForeignBehind(keccak, m, rest);
  }

  lemma UnfinishedTag(rest: seq<byte>, n: nat, f: Fields)
    requires rest != [] && Take(rest) == None && |rest| <= n
    ensures ScanFrom(rest, n, f) == Some(Foreign)
  {
    hide Take;
  }

  lemma CutVar(num: byte, v: nat, k: nat, n: nat, f: Fields)
    requires 2 <= num <= 6 && 0 < k < |VarField(num, v)| && k <= n
    ensures ScanFrom(VarField(num, v)[..k], n, f) == Some(Foreign)
  {
    hide Take, Encode, ToInt32, SetLen, SetVar, TakeChunk;
    var e := Encode(v);
    assert VarField(num, v)[..k] == [num * 8 + 0] + e[..k - 1];
    TagReadsBack(num, 0, e[..k - 1]);
    CutVarint(v, k - 1);
  }

  /** Field numbers are cut to 32 bits: 7 + 2^32 h is the payload as well. */
  lemma WideNumberIsCut(m: Message, h: nat, p: seq<byte>)
    requires Fits64(m) && h < 0x2000_0000
    requires |Header(m) + (Encode((0x1_0000_0000 * h + 7) * 8 + 2) + (Encode(|p|) + p))| < TWO64
    ensures Scanned(Header(m) + (Encode((0x1_0000_0000 * h + 7) * 8 + 2) + (Encode(|p|) + p))) ==
            Clean(FieldsOf(m).(payload := p))
  {
    hide Scanned, Header, ScanFrom, Encode, FieldsOf;
    var rest := Encode((0x1_0000_0000 * h + 7) * 8 + 2) + (Encode(|p|) + p);
    var f := FieldsOf(m).(payload := []);
    WidePayload(h, p, |Header(m) + rest|, f);
    CleanBehind(m, rest, f.(payload := p));
  }

  /** A header followed by something that scans to the end. */
  lemma CleanBehind(m: Message, rest: seq<byte>, f: Fields)
    requires Fits64(m) && |Header(m) + rest| < TWO64
    requires ScanFrom(rest, |Header(m) + rest|, FieldsOf(m).(payload := [])) == Some(Clean(f))
    ensures Scanned(Header(m) + rest) == Clean(f)
  {
    hide ScanFrom, ScanAt, Header;
    var b := Header(m) + rest;
    HeaderAndPayload(m);
    ScanHeader(m, rest);
    assert b[0..] == b && b[0] == 0x0A;
    StraightScan(b, 0, NO_FIELDS, |b| + 1);
  }

  lemma WidePayload(h: nat, p: seq<byte>, n: nat, f: Fields)
    requires h < 0x2000_0000
    requires |Encode((0x1_0000_0000 * h + 7) * 8 + 2) + (Encode(|p|) + p)| <= n < TWO64
    ensures ScanFrom(Encode((0x1_0000_0000 * h + 7) * 8 + 2) + (Encode(|p|) + p), n, f) ==
            Some(Clean(f.(payload := p)))
  {
    hide Take, Encode, ToInt32, TakeChunk;
    WideTag(h, 7, Encode(|p|) + p);
    ChunkReadsBack(p, [], n);
    assert Encode(|p|) + p + [] == Encode(|p|) + p;
  }

  /** A tag with 32 or more bits of field number. */
  lemma WideTag(h: nat, num: nat, tail: seq<byte>)
    requires h < 0x2000_0000 && num < 0x8000_0000
    ensures var tag := (0x1_0000_0000 * h + num) * 8 + 2;
            && Take(Encode(tag) + tail) == Some((tag, tail)) && Encode(tag) != []
            && ToInt32(tag / 8) == num && tag % 8 == 2
  {
    var tag := (0x1_0000_0000 * h + num) * 8 + 2;
    assert tag / 8 == 0x1_0000_0000 * h + num;
    TakeEncoded(tag, tail);
    hide Encode, Take;
  }

  /** A length whose sum with the position wraps: the field is all the rest, and the reader goes on before it. */
  lemma RewindTakesTheRest(b: seq<byte>, j: nat, len: nat, tail: seq<byte>)
    requires j <= |b| < TWO64 && b[j..] == Encode(len) + tail && len < TWO64 && |b| - |tail| + len >= TWO64
    ensures ChunkAt(b, j) == Some((tail, |b| - |tail| + len - TWO64))
  {
    hide Take, Encode;
    TakeEncoded(len, tail);
    assert tail == b[|b| - |tail|..];
  }

  // ---- a scan that does not end ----

  lemma {:induction false} EncodedLength(v: nat, k: nat)
    requires k >= 1 && v < Pow2(7 * k) && (k >= 2 ==> Pow2(7 * (k - 1)) <= v)
    ensures |Encode(v)| == k
    decreases k
  {
    hide Pow2;
    Pow2Seven(7 * (k - 1));
    if k == 1 {
      PowZero();
    } else {
      Pow2Seven(7 * (k - 2));
      assert 7 * (k - 1) == 7 * (k - 2) + 7 && 7 * k == 7 * (k - 1) + 7;
      AtLeast128(Pow2(7 * (k - 2)), v);
      EncodedLength(v / 128, k - 1);
    }
  }

  lemma PowZero()
    ensures Pow2(0) == 1
  {
  }

  lemma AtLeast128(p: nat, v: nat)
    requires p > 0 && v >= 128 * p
    ensures v >= 128 && v / 128 >= p
  {
  }

  lemma LastLength()
    ensures |Encode(TWO64 - 11)| == 10
  {
    hide Pow2, Encode;
    Pow264();
    Pow2Seven(63);
    PowPrevious(63);
    EncodedLength(TWO64 - 11, 10);
  }

  lemma PowPrevious(n: nat)
    ensures Pow2(n + 1) == 2 * Pow2(n)
  {
  }

  /** A length that leads back to the start: eleven bytes on which the source's loop goes round for ever. */
  lemma SomeScanNeverEnds()
    ensures var b := [0x0A] + Encode(TWO64 - 11); |b| == 11 && Next(b)(0) == Some(0) && Scanned(b).Endless?
  {
    hide Take, Encode, ToInt32, After, ScanAt, Pow2;
    var v := TWO64 - 11;
    var b := [0x0A] + Encode(v);
    LastLength();
    TagReadsBack(1, 2, Encode(v));
    TakeEncoded(v, []);
    assert Encode(v) + [] == Encode(v);
    assert b[0..] == b && b[1..] == Encode(v);
    assert NextOf(b, 0) == Some(0);
    StandsStill(Next(b), 0);
    EndlessIff(b);
  }

  lemma StandsStill(next: Moves, i: nat)
    requires next(i) == Some(i)
    ensures ComesBack(next, i)
  {
    assert After(next, i, 0) == Some(i) && After(next, i, 1) == Some(i);
  }
}
