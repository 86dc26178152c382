/**
  BIP-39 in numbers, without a word about bits: the words of a phrase are the digits, in base 2048, of the entropy
  followed by the first bits of its hash.
*/
module Bip39Numbers {
  import opened Prelude
  import opened Bip39

  /** The number the indices are the digits of. */
  function Base2048(idx: seq<nat>): nat {
    if idx == [] then 0 else 2048 * Base2048(idx[..|idx| - 1]) + idx[|idx| - 1]
  }

  function BigEndian(b: Bytes): nat {
    if b == [] then 0 else 256 * BigEndian(b[..|b| - 1]) + b[|b| - 1] as nat
  }

  // ---- bits as numbers ----

  lemma {:induction false} Appended(a: seq<bool>, b: seq<bool>)
    ensures FromBits(a + b) == FromBits(a) * Pow2(|b|) + FromBits(b)
    decreases |b|
  {
    if b == [] {
      assert a + b == a;
      NoBits();
    } else {
      hide FromBits, Pow2;
      var front, c := b[..|b| - 1], b[|b| - 1];
      assert b == front + [c] && a + b == (a + front) + [c];
      Appended(a, front);
      OneMoreBit(a + front, c);
      OneMoreBit(front, c);
      PowNext(|front|);
      Doubled(FromBits(a), Pow2(|front|), FromBits(front));
    }
  }

  lemma NoBits()
    ensures FromBits([]) == 0 && Pow2(0) == 1
  {
  }

  lemma PowNext(n: nat)
    ensures Pow2(n + 1) == 2 * Pow2(n)
  {
  }

  lemma Doubled(x: nat, p: nat, y: nat)
    ensures 2 * (x * p + y) == x * (2 * p) + 2 * y
  {
  }

  lemma OneMoreBit(s: seq<bool>, c: bool)
    ensures FromBits(s + [c]) == 2 * FromBits(s) + if c then 1 else 0
  {
    assert (s + [c])[..|s|] == s;
  }

  lemma {:induction false} SameNumber(a: seq<bool>, b: seq<bool>)
    requires |a| == |b| && FromBits(a) == FromBits(b)
    ensures a == b
    decreases |a|
  {
    if a != [] {
      FromBitsHalf(a);
      FromBitsHalf(b);
      SameNumber(a[..|a| - 1], b[..|b| - 1]);
      assert a == a[..|a| - 1] + [a[|a| - 1]] && b == b[..|b| - 1] + [b[|b| - 1]];
    }
  }

  lemma Power11()
    ensures Pow2(11) == 2048 && Pow2(8) == 256
  {
    assert Pow2(4) == 16;
    assert Pow2(8) == 16 * Pow2(4);
  }

  /** The bits of the indices make up the number they are the digits of. */
  lemma {:induction false} DigitsOfBits(idx: seq<nat>)
    requires forall i :: i in idx ==> i < 2048
    ensures FromBits(AllBits(idx)) == Base2048(idx)
    decreases |idx|
  {
    if idx == [] {
      assert AllBits(idx) == [];
    } else {
      hide FromBits, IntBit, Pow2;
      var front, last := idx[..|idx| - 1], idx[|idx| - 1];
      assert idx == front + [last];
      FrontBelow(idx, front, last);
      hide AllBits, ToBits;
      DigitsOfBits(front);
      LastDigit(idx);
      Appended(AllBits(front), ToBits(last, 11));
      ToBitsLength(last, 11);
      Power11();
      NumberReadBack(last, 11);
    }
  }

  lemma FrontBelow(idx: seq<nat>, front: seq<nat>, last: nat)
    requires idx == front + [last] && forall i :: i in idx ==> i < 2048
    ensures last < 2048 && forall i :: i in front ==> i < 2048
  {
    assert idx[|front|] in idx;
    forall i | i in front ensures i < 2048 {
      assert i in idx;
    }
  }

  lemma ToBitsLength(v: nat, n: nat)
    ensures |ToBits(v, n)| == n
  {
  }

  lemma LastDigit(idx: seq<nat>)
    requires idx != []
    ensures AllBits(idx) == AllBits(idx[..|idx| - 1]) + ToBits(idx[|idx| - 1], 11)
  {
    hide IntBit;
    var n := |idx| - 1;
    forall p | 0 <= p < 11 * |idx|
      ensures AllBits(idx)[p] == (AllBits(idx[..n]) + ToBits(idx[n], 11))[p]
    {
      if p >= 11 * n {
        Div(11, n, p - 11 * n);
      }
    }
  }

  lemma ByteNumber(x: bv8)
    ensures (if ByteBit(x, 0) then 128 else 0) + (if ByteBit(x, 1) then 64 else 0) + (if ByteBit(x, 2) then 32 else 0)
            + (if ByteBit(x, 3) then 16 else 0) + (if ByteBit(x, 4) then 8 else 0) + (if ByteBit(x, 5) then 4 else 0)
            + (if ByteBit(x, 6) then 2 else 0) + (if ByteBit(x, 7) then 1 else 0) == x as nat
  {
  }

  lemma FourBits(s: seq<bool>)
    requires |s| == 4
    ensures FromBits(s) ==
            (if s[0] then 8 else 0) + (if s[1] then 4 else 0) + (if s[2] then 2 else 0) + if s[3] then 1 else 0
  {
    hide FromBits;
    NoBits();
    OneMoreBit([], s[0]);
    OneMoreBit([s[0]], s[1]);
    OneMoreBit([s[0], s[1]], s[2]);
    OneMoreBit([s[0], s[1], s[2]], s[3]);
    assert [] + [s[0]] == [s[0]] && [s[0]] + [s[1]] == [s[0], s[1]];
    assert [s[0], s[1]] + [s[2]] == [s[0], s[1], s[2]] && [s[0], s[1], s[2]] + [s[3]] == s;
  }

  lemma EightBits(s: seq<bool>)
    requires |s| == 8
    ensures FromBits(s) ==
            (if s[0] then 128 else 0) + (if s[1] then 64 else 0) + (if s[2] then 32 else 0) + (if s[3] then 16 else 0)
            + (if s[4] then 8 else 0) + (if s[5] then 4 else 0) + (if s[6] then 2 else 0) + if s[7] then 1 else 0
  {
    hide FromBits, Pow2;
    FourBits(s[..4]);
    FourBits(s[4..]);
    Appended(s[..4], s[4..]);
    assert s == s[..4] + s[4..];
    SmallPower();
  }

  lemma BitsOfByte(x: bv8)
    ensures |BitsOf([x])| == 8 && FromBits(BitsOf([x])) == x as nat
  {
    hide ByteBit, FromBits;
    ByteNumber(x);
    EightBits(BitsOf([x]));
  }

  lemma BitsOfSnoc(b: Bytes, x: bv8)
    ensures BitsOf(b + [x]) == BitsOf(b) + BitsOf([x])
  {
    hide ByteBit;
    forall p: nat | p < 8 * |b| + 8 ensures BitsOf(b + [x])[p] == (BitsOf(b) + BitsOf([x]))[p] {
      if p >= 8 * |b| {
        Div(8, |b|, p - 8 * |b|);
      }
    }
  }

  /** The bits of bytes make up the number the bytes are the digits of. */
  lemma {:induction false} NumberOfBytes(b: Bytes)
    ensures FromBits(BitsOf(b)) == BigEndian(b)
    decreases |b|
  {
    if b == [] {
      assert BitsOf(b) == [];
      NoBits();
    } else {
      hide FromBits, BitsOf, Pow2;
      var front, x := b[..|b| - 1], b[|b| - 1];
      assert b == front + [x];
      NumberOfBytes(front);
      BitsOfSnoc(front, x);
      BitsOfByte(x);
      Appended(BitsOf(front), BitsOf([x]));
      Power11();
    }
  }

  /** The first bits of some bytes are the highest of the first byte. */
  lemma FirstBits(h: Bytes, n: nat)
    requires h != [] && n <= 8
    ensures n <= |BitsOf(h)| && FromBits(BitsOf(h)[..n]) == h[0] as nat / Pow2(8 - n)
  {
    hide FromBits, Pow2, Bit;
    var first := BitsOf([h[0]]);
    BitsOfByte(h[0]);
    FirstByteBits(h, n);
    assert first == first[..n] + first[n..];
    Appended(first[..n], first[n..]);
    FromBitsBelow(first[n..]);
    HighPart(FromBits(first[..n]), Pow2(8 - n), FromBits(first[n..]));
  }

  lemma HighPart(a: nat, p: nat, b: nat)
    requires b < p
    ensures (a * p + b) / p == a
  {
    Div(p, a, b);
    assert a * p == p * a;
  }

  lemma FirstByteBits(h: Bytes, n: nat)
    requires h != [] && n <= 8
    ensures |BitsOf([h[0]])| == 8 && n <= |BitsOf(h)| && BitsOf(h)[..n] == BitsOf([h[0]])[..n]
  {
    hide ByteBit;
  }

  // ---- what generation and validation promise ----

  /** The number of a phrase with entropy `ent`: the entropy, and the first `n` bits of its hash. */
  ghost function PhraseNumber(sha: Sha, ent: Bytes, n: nat): int
    requires IsSha(sha) && n <= 8
  {
    BigEndian(ent) * Pow2(n) + sha(ent)[0] as nat / Pow2(8 - n)
  }

  lemma NumberOfPhrase(sha: Sha, ent: Bytes, n: nat)
    requires IsSha(sha) && n <= 8
    ensures FromBits(BitsOf(ent) + BitsOf(sha(ent))[..n]) == PhraseNumber(sha, ent, n)
  {
    hide FromBits, BitsOf, Pow2;
    FirstBits(sha(ent), n);
    NumberOfBytes(ent);
    Appended(BitsOf(ent), BitsOf(sha(ent))[..n]);
  }

  /** The twelve words generated are the digits of the entropy times 16 plus the first four bits of its hash. */
  lemma NewPhraseNumber(sha: Sha, ent: Bytes)
    requires IsSha(sha) && |ent| == 16
    ensures |NewIndices(sha, ent)| == 12
    ensures Base2048(NewIndices(sha, ent)) == BigEndian(ent) * 16 + sha(ent)[0] as nat / 16
  {
    hide FromBits, BitsOf, Pow2, AllBits, Indices, ByteBit;
    NewIsValid(sha, ent);
    Power11();
    SmallPower();
    BitsOfLength(ent);
    BitsOfLength(sha(ent));
    AllBitsOfIndices(BitsOf(ent) + BitsOf(sha(ent))[..4]);
    DigitsOfBits(NewIndices(sha, ent));
    NumberOfPhrase(sha, ent, 4);
  }

  lemma SmallPower()
    ensures Pow2(4) == 16
  {
  }

  lemma BitsOfLength(b: Bytes)
    ensures |BitsOf(b)| == 8 * |b|
  {
  }

  lemma PackedBits(bits: seq<bool>)
    requires |bits| % 8 == 0
    ensures |Pack(bits)| == |bits| / 8 && BitsOf(Pack(bits)) == bits
  {
    hide Bit, Pack;
    PackLength(bits);
    forall p: nat | p < |bits| ensures BitsOf(Pack(bits))[p] == bits[p] {
      PackBits(bits, p);
    }
  }

  /** What `ValidIndices` compares. */
  lemma ValidParts(sha: Sha, idx: seq<nat>)
    requires IsSha(sha) && |idx| % 3 == 0 && 12 <= |idx| <= 24
    ensures var e, n := EntropyBits(|idx|), |idx| / 3;
            && e == 32 * n && 4 <= n <= 8 && |AllBits(idx)| == e + n
            && (ValidIndices(sha, idx) <==> AllBits(idx)[e..] == BitsOf(sha(Pack(AllBits(idx)[..e])))[..n])
  {
    hide Pack, Bit, IntBit;
  }

  lemma ValidHasNumber(sha: Sha, idx: seq<nat>) returns (ent: Bytes)
    requires IsSha(sha) && ValidIndices(sha, idx) && forall i :: i in idx ==> i < 2048
    ensures |idx| % 3 == 0 && 12 <= |idx| <= 24
    ensures |ent| == 4 * (|idx| / 3) && Base2048(idx) == PhraseNumber(sha, ent, |idx| / 3)
  {
    OtherSizes(sha, idx);
    hide ValidIndices, AllBits, BitsOf, Pack, FromBits, PhraseNumber, EntropyBits, Base2048;
    ValidParts(sha, idx);
    var bits, e, n := AllBits(idx), EntropyBits(|idx|), |idx| / 3;
    ent := Pack(bits[..e]);
    PackedBits(bits[..e]);
    assert bits == bits[..e] + bits[e..];
    DigitsOfBits(idx);
    NumberOfPhrase(sha, ent, n);
  }

  lemma NumberIsValid(sha: Sha, idx: seq<nat>, ent: Bytes)
    requires IsSha(sha) && |idx| % 3 == 0 && 12 <= |idx| <= 24 && forall i :: i in idx ==> i < 2048
    requires |ent| == 4 * (|idx| / 3) && Base2048(idx) == PhraseNumber(sha, ent, |idx| / 3)
    ensures ValidIndices(sha, idx)
  {
    hide ValidIndices, AllBits, BitsOf, Pack, FromBits, PhraseNumber, EntropyBits, Base2048;
    ValidParts(sha, idx);
    var bits, e, n := AllBits(idx), EntropyBits(|idx|), |idx| / 3;
    DigitsOfBits(idx);
    NumberOfPhrase(sha, ent, n);
    BitsOfLength(ent);
    BitsOfLength(sha(ent));
    var want := BitsOf(ent) + BitsOf(sha(ent))[..n];
    SameNumber(bits, want);
    assert want[..e] == BitsOf(ent) && want[e..] == BitsOf(sha(ent))[..n];
    PackOfBits(ent);
  }

  /**
    For every length: indices are valid iff there are 12, 15, 18, 21 or 24 of them and they are the digits of some
    entropy of 32 bits for every three words, followed by the first bits of its hash, one for every three words.
  */
  lemma ValidIffNumber(sha: Sha, idx: seq<nat>)
    requires IsSha(sha) && forall i :: i in idx ==> i < 2048
    ensures ValidIndices(sha, idx) <==>
            && |idx| % 3 == 0 && 12 <= |idx| <= 24
            && exists ent: Bytes :: |ent| == 4 * (|idx| / 3) && Base2048(idx) == PhraseNumber(sha, ent, |idx| / 3)
  {
    hide ValidIndices, PhraseNumber, Base2048;
    if ValidIndices(sha, idx) {
      var ent := ValidHasNumber(sha, idx);
    }
    if |idx| % 3 == 0 && 12 <= |idx| <= 24 {
      forall ent: Bytes | |ent| == 4 * (|idx| / 3) && Base2048(idx) == PhraseNumber(sha, ent, |idx| / 3)
        ensures ValidIndices(sha, idx)
      {
        NumberIsValid(sha, idx, ent);
      }
    }
  }
}
