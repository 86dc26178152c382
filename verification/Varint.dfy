/**
  The 64-bit base-128 varints both hand-written protobuf readers use (`core/src/segment_compat.hpp`,
  `core/src/delivery_bearer.hpp`).
*/
module Varint {
  import opened Prelude

  const TWO64: nat := 0x1_0000_0000_0000_0000

  /**
    One varint off the front of `rest`: its value and what follows. `r` holds the bits read so far, all
    below bit `sh`, so or-ing the next seven in is adding them; bits shifted past the 64th are lost.
  */
  function TakeFrom(rest: seq<byte>, r: nat, sh: nat): (t: Option<(nat, seq<byte>)>)
    ensures t.Some? ==> t.value.0 < TWO64 && |t.value.1| < |rest| && t.value.1 == rest[|rest| - |t.value.1|..]
  {
    if rest == [] then None
    else
      var r' := (r + rest[0] % 128 * Pow2(sh)) % TWO64;
      if rest[0] < 128 then Some((r', rest[1..]))
      else if sh + 7 > 63 then None
      else TakeFrom(rest[1..], r', sh + 7)
  }

  function Take(rest: seq<byte>): (t: Option<(nat, seq<byte>)>)
    ensures t.Some? ==> t.value.0 < TWO64 && |t.value.1| < |rest| && t.value.1 == rest[|rest| - |t.value.1|..]
  {
    TakeFrom(rest, 0, 0)
  }

  /** The reading loop, which leaves the index behind the varint. */
  method Read(b: seq<byte>, start: nat) returns (ok: bool, v: nat, i: nat)
    requires start <= |b|
    ensures ok == Take(b[start..]).Some?
    ensures ok ==> start < i <= |b| && Take(b[start..]).value == (v, b[i..])
  {
    hide Pow2, TakeFrom;
    i, v := start, 0;
    var r: nat, sh: nat := 0, 0;
    while i < |b|
      invariant start <= i <= |b| && sh <= 63
      invariant TakeFrom(b[i..], r, sh) == Take(b[start..])
    {
      var x := b[i];
      TakeNext(b, i, r, sh);
      i := i + 1;
      r := (r + x % 128 * Pow2(sh)) % TWO64;
      if x < 128 {
        return true, r, i;
      }
      sh := sh + 7;
      if sh > 63 {
        return false, 0, i;
      }
    }
    NothingToTake(r, sh);
    return false, 0, i;
  }

  /** One turn of the loop. */
  lemma TakeNext(b: seq<byte>, i: nat, r: nat, sh: nat)
    requires i < |b|
    ensures var r' := (r + b[i] % 128 * Pow2(sh)) % TWO64;
            TakeFrom(b[i..], r, sh) == if b[i] < 128 then Some((r', b[i + 1..]))
                                       else if sh + 7 > 63 then None
                                       else TakeFrom(b[i + 1..], r', sh + 7)
  {
    hide Pow2;
    assert b[i..][0] == b[i] && b[i..][1..] == b[i + 1..];
  }

  lemma NothingToTake(r: nat, sh: nat)
    ensures TakeFrom([], r, sh) == None
  {
  }

  function Encode(v: nat): (e: seq<byte>)
    ensures e != []
  {
    if v < 128 then [v] else [v % 128 + 128] + Encode(v / 128)
  }

  lemma {:induction false} Pow2Mono(a: nat, b: nat)
    requires a <= b
    ensures Pow2(a) <= Pow2(b)
    decreases b
  {
    if a < b {
      Pow2Mono(a, b - 1);
    }
  }

  lemma Pow2Seven(n: nat)
    ensures Pow2(n + 7) == 128 * Pow2(n)
  {
    assert Pow2(n + 2) == 4 * Pow2(n);
    assert Pow2(n + 4) == 4 * Pow2(n + 2);
    assert Pow2(n + 6) == 4 * Pow2(n + 4);
  }

  lemma Pow2One()
    ensures Pow2(1) == 2
  {
  }

  lemma Pow264()
    ensures Pow2(64) == TWO64
  {
    hide Pow2;
    Pow2One();
    Pow2Seven(1); Pow2Seven(8); Pow2Seven(15); Pow2Seven(22); Pow2Seven(29);
    Pow2Seven(36); Pow2Seven(43); Pow2Seven(50); Pow2Seven(57);
  }

  /** Another seven bits fit whenever the rest of the value needs them. */
  lemma RoomForMore(v: nat, sh: nat)
    requires v >= 128 && v * Pow2(sh) < TWO64
    ensures sh + 7 < 64
  {
    if sh + 7 >= 64 {
      Pow2Seven(sh);
      Times(128, v, Pow2(sh));
      Pow2Mono(64, sh + 7);
      Pow264();
    }
  }

  lemma SplitValue(v: nat, p: nat)
    ensures v * p == v % 128 * p + v / 128 * (128 * p)
    ensures v % 128 * p <= v * p
  {
    assert v == v % 128 + v / 128 * 128;
    assert v / 128 * 128 * p == v / 128 * (128 * p);
    assert v / 128 * 128 * p >= 0;
  }

  /** One byte of a varint. */
  lemma TakeByte(x: byte, tail: seq<byte>, r: nat, sh: nat)
    requires r + x % 128 * Pow2(sh) < TWO64
    ensures x < 128 ==> TakeFrom([x] + tail, r, sh) == Some((r + x * Pow2(sh), tail))
    ensures x >= 128 && sh + 7 <= 63 ==> TakeFrom([x] + tail, r, sh) == TakeFrom(tail, r + x % 128 * Pow2(sh), sh + 7)
  {
    hide Pow2;
    var b := [x] + tail;
    assert b[0] == x && b[1..] == tail;
    BelowStays(r + x % 128 * Pow2(sh));
  }

  lemma BelowStays(n: nat)
    requires n < TWO64
    ensures n % TWO64 == n
  {
  }

  lemma {:induction false} TakeFromEncoded(v: nat, tail: seq<byte>, r: nat, sh: nat)
    requires r + v * Pow2(sh) < TWO64
    ensures TakeFrom(Encode(v) + tail, r, sh) == Some((r + v * Pow2(sh), tail))
    decreases v
  {
    hide TakeFrom, Pow2;
    var p := Pow2(sh);
    SplitValue(v, p);
    if v < 128 {
      TakeByte(v, tail, r, sh);
    } else {
      var rest := Encode(v / 128) + tail;
      assert Encode(v) + tail == [v % 128 + 128] + rest;
      RoomForMore(v, sh);
      Pow2Seven(sh);
      TakeByte(v % 128 + 128, rest, r, sh);
      TakeFromEncoded(v / 128, tail, r + v % 128 * p, sh + 7);
    }
  }

  /** Every 64-bit value reads back, whatever follows it. */
  lemma TakeEncoded(v: nat, tail: seq<byte>)
    requires v < TWO64
    ensures Take(Encode(v) + tail) == Some((v, tail))
  {
    assert v * Pow2(0) == v;
    TakeFromEncoded(v, tail, 0, 0);
  }

  /** A varint cut off before its end is none. */
  lemma {:induction false} CutVarintFrom(v: nat, j: nat, r: nat, sh: nat)
    requires j < |Encode(v)|
    ensures TakeFrom(Encode(v)[..j], r, sh) == None
    decreases j
  {
    hide Pow2;
    if j > 0 {
      var b := Encode(v)[..j];
      assert b[0] == Encode(v)[0] && b[1..] == Encode(v / 128)[..j - 1];
      CutVarintFrom(v / 128, j - 1, (r + b[0] % 128 * Pow2(sh)) % TWO64, sh + 7);
    }
  }

  lemma CutVarint(v: nat, j: nat)
    requires j < |Encode(v)|
    ensures Take(Encode(v)[..j]) == None
  {
    CutVarintFrom(v, j, 0, 0);
  }

  /** The number whose digits to the base 128 are the lower seven bits of the bytes, the lowest digit first. */
  function Base128(b: seq<byte>): nat {
    if b == [] then 0 else b[0] % 128 + 128 * Base128(b[1..])
  }

  /** The first byte that announces no other one, if it is one of the first ten. */
  ghost predicate LastByte(b: seq<byte>, k: nat) {
    k < |b| && k <= 9 && b[k] < 128 && forall i :: 0 <= i < k ==> b[i] >= 128
  }

  lemma DigitsShift(r: nat, d: nat, p: nat, rest: nat)
    ensures ((r + d * p) % TWO64 + 128 * p * rest) % TWO64 == (r + p * (d + 128 * rest)) % TWO64
  {
    var x := r + d * p;
    assert r + p * (d + 128 * rest) == x + 128 * p * rest;
    assert x == x / TWO64 * TWO64 + x % TWO64;
    SameRest(x % TWO64 + 128 * p * rest, x / TWO64);
  }

  lemma SameRest(x: nat, q: nat)
    ensures (x + q * TWO64) % TWO64 == x % TWO64
  {
  }

  lemma {:induction false} TakeFromDigits(b: seq<byte>, r: nat, sh: nat, k: nat)
    requires k < |b| && b[k] < 128 && sh + 7 * k <= 63 && forall i :: 0 <= i < k ==> b[i] >= 128
    ensures TakeFrom(b, r, sh) == Some(((r + Pow2(sh) * Base128(b[..k + 1])) % TWO64, b[k + 1..]))
    decreases k
  {
    hide Pow2;
    var d, tail := b[0] % 128, b[1..];
    assert b[..k + 1][0] == b[0] && b[..k + 1][1..] == tail[..k];
    DigitsShift(r, d, Pow2(sh), Base128(tail[..k]));
    if k == 0 {
      assert tail[..0] == [];
    } else {
      forall i | 0 <= i < k - 1 ensures tail[i] >= 128 {
        assert tail[i] == b[i + 1];
      }
      Pow2Seven(sh);
      TakeFromDigits(tail, (r + d * Pow2(sh)) % TWO64, sh + 7, k - 1);
      assert tail[k..] == b[k + 1..];
    }
  }

  /**
    What a varint is, for all bytes: one of the first ten announces no other one, and the bytes up to it are the
    digits of the value, of which the lower 64 bits are kept. Leading zero digits are allowed.
  */
  lemma TakeIff(b: seq<byte>)
    ensures Take(b).Some? <==> exists k: nat :: LastByte(b, k)
    ensures forall k: nat :: LastByte(b, k) ==> Take(b) == Some((Base128(b[..k + 1]) % TWO64, b[k + 1..]))
  {
    hide TakeFrom, Base128;
    forall k: nat | LastByte(b, k) ensures Take(b) == Some((Base128(b[..k + 1]) % TWO64, b[k + 1..])) {
      TakeFromDigits(b, 0, 0, k);
      PowZero(Base128(b[..k + 1]));
    }
    if forall k: nat :: !LastByte(b, k) {
      NoLastByte(b, 0);
      NoneTaken(b, 0, 0);
    }
  }

  lemma PowZero(x: nat)
    ensures 0 + Pow2(0) * x == x
  {
  }

  lemma {:induction false} NoLastByte(b: seq<byte>, n: nat)
    requires n <= 10 && (forall k: nat :: !LastByte(b, k)) && forall i :: 0 <= i < n && i < |b| ==> b[i] >= 128
    ensures forall i :: 0 <= i < 10 && i < |b| ==> b[i] >= 128
    decreases 10 - n
  {
    if n < 10 {
      assert !LastByte(b, n);
      NoLastByte(b, n + 1);
    }
  }

  lemma {:induction false} NoneTaken(b: seq<byte>, r: nat, sh: nat)
    requires forall i :: 0 <= i < |b| && 7 * i + sh <= 63 ==> b[i] >= 128
    requires sh <= 63
    ensures TakeFrom(b, r, sh) == None
    decreases |b|
  {
    hide Pow2;
    if b != [] && sh + 7 <= 63 {
      forall i | 0 <= i < |b| - 1 && 7 * i + sh + 7 <= 63 ensures b[1..][i] >= 128 {
        assert b[1..][i] == b[i + 1];
      }
      NoneTaken(b[1..], (r + b[0] % 128 * Pow2(sh)) % TWO64, sh + 7);
    }
  }

  /** Seven bits to the byte, the lowest first. */
  lemma VarintBytes()
    ensures Encode(300) == [0xAC, 0x02] && Encode(127) == [0x7F] && Encode(128) == [0x80, 0x01]
  {
  }

  /** The 64-bit sum the length checks compare with the buffer size. */
  function Sum64(i: nat, ln: nat): nat {
    (i + ln) % TWO64
  }

  /**
    The check `i + ln > n` rejects every length that runs past the buffer exactly when the sum does not
    wrap: a length it lets through leads forward, to i + ln, iff i + ln is below 2^64, and otherwise back.
  */
  lemma CheckAdvancesIffNoWrap(i: nat, n: nat, ln: nat)
    requires i <= n < TWO64 && ln < TWO64 && Sum64(i, ln) <= n
    ensures i + ln < TWO64 <==> i <= Sum64(i, ln)
    ensures i + ln < TWO64 <==> ln <= n - i
    ensures Sum64(11, TWO64 - 11) == 0
  {
  }
}
