/**
  BIP-39 recovery phrases (`core/src/loam_vault.hpp`): generation, normalisation and validation. SHA-256
  and the word list are parameters; bytes are bit vectors here because the source works on their bits.
*/
module Bip39 {
  import opened Prelude

  type Bytes = seq<bv8>

  type Sha = Bytes -> Bytes

  ghost predicate IsSha(sha: Sha) {
    forall x :: |sha(x)| == 32
  }

  // ---- bits ----

  /** `0x80 >> j` */
  function Mask(j: nat): bv8
    requires j < 8
  {
    if j == 0 then 0x80 else if j == 1 then 0x40 else if j == 2 then 0x20 else if j == 3 then 0x10
    else if j == 4 then 0x08 else if j == 5 then 0x04 else if j == 6 then 0x02 else 0x01
  }

  predicate ByteBit(x: bv8, j: nat)
    requires j < 8
  {
    x & Mask(j) != 0
  }

  function SetByteBit(x: bv8, j: nat): bv8
    requires j < 8
  {
    x | Mask(j)
  }

  predicate Bit(b: Bytes, p: nat)
    requires p < 8 * |b|
  {
    ByteBit(b[p / 8], p % 8)
  }

  function BitsOf(b: Bytes): seq<bool> {
    seq(8 * |b|, p requires 0 <= p < 8 * |b| => Bit(b, p))
  }

  function Byte8(a: bool, b: bool, c: bool, d: bool, e: bool, f: bool, g: bool, h: bool): bv8 {
    (if a then 0x80 else 0) | (if b then 0x40 else 0) | (if c then 0x20 else 0) | (if d then 0x10 else 0)
    | (if e then 0x08 else 0) | (if f then 0x04 else 0) | (if g then 0x02 else 0) | (if h then 0x01 else 0)
  }

  /** Eight bits to the byte, most significant first. */
  function Pack(bits: seq<bool>): Bytes {
    seq(|bits| / 8, i requires 0 <= i < |bits| / 8 =>
      Byte8(bits[8 * i], bits[8 * i + 1], bits[8 * i + 2], bits[8 * i + 3],
            bits[8 * i + 4], bits[8 * i + 5], bits[8 * i + 6], bits[8 * i + 7]))
  }

  lemma SetOneBit(x: bv8, j: nat, k: nat)
    requires j < 8 && k < 8
    ensures ByteBit(SetByteBit(x, j), k) == (j == k || ByteBit(x, k))
  {
  }

  lemma NoBitsInZero(j: nat)
    requires j < 8
    ensures !ByteBit(0, j)
  {
  }

  lemma SameBitsSameByte(x: bv8, y: bv8)
    requires ByteBit(x, 0) == ByteBit(y, 0) && ByteBit(x, 1) == ByteBit(y, 1)
    requires ByteBit(x, 2) == ByteBit(y, 2) && ByteBit(x, 3) == ByteBit(y, 3)
    requires ByteBit(x, 4) == ByteBit(y, 4) && ByteBit(x, 5) == ByteBit(y, 5)
    requires ByteBit(x, 6) == ByteBit(y, 6) && ByteBit(x, 7) == ByteBit(y, 7)
    ensures x == y
  {
  }

  lemma Byte8Bits(a: bool, b: bool, c: bool, d: bool, e: bool, f: bool, g: bool, h: bool)
    ensures var x := Byte8(a, b, c, d, e, f, g, h);
            && ByteBit(x, 0) == a && ByteBit(x, 1) == b && ByteBit(x, 2) == c && ByteBit(x, 3) == d
            && ByteBit(x, 4) == e && ByteBit(x, 5) == f && ByteBit(x, 6) == g && ByteBit(x, 7) == h
  {
  }

  lemma PackBits(bits: seq<bool>, p: nat)
    requires |bits| % 8 == 0 && p < |bits|
    ensures |Pack(bits)| == |bits| / 8 && p < 8 * |Pack(bits)| && Bit(Pack(bits), p) == bits[p]
  {
    hide ByteBit, Pack;
    PackLength(bits);
    PackedByte(bits, p / 8, p % 8);
  }

  lemma PackedByte(bits: seq<bool>, i: nat, j: nat)
    requires i < |bits| / 8 && j < 8
    ensures |Pack(bits)| == |bits| / 8 && ByteBit(Pack(bits)[i], j) == bits[8 * i + j]
  {
    hide Byte8, ByteBit;
    Byte8Bit(bits[8 * i..8 * i + 8], j);
  }

  lemma Byte8Bit(s: seq<bool>, j: nat)
    requires |s| == 8 && j < 8
    ensures ByteBit(Byte8(s[0], s[1], s[2], s[3], s[4], s[5], s[6], s[7]), j) == s[j]
  {
    hide Byte8, ByteBit;
    Byte8Bits(s[0], s[1], s[2], s[3], s[4], s[5], s[6], s[7]);
  }

  lemma ByteFromBits(b: Bytes, c: Bytes, i: nat)
    requires |b| == |c| && i < |b|
    requires forall p :: 0 <= p < 8 * |b| ==> Bit(b, p) == Bit(c, p)
    ensures b[i] == c[i]
  {
    hide ByteBit;
    forall j: nat | j < 8 ensures ByteBit(b[i], j) == ByteBit(c[i], j) {
      Div(8, i, j);
      assert Bit(b, 8 * i + j) == Bit(c, 8 * i + j);
    }
    SameBitsSameByte(b[i], c[i]);
  }

  /** Bytes are determined by their bits, so unpacking and packing are inverse. */
  lemma SameBits(b: Bytes, c: Bytes)
    requires |b| == |c|
    requires forall p :: 0 <= p < 8 * |b| ==> Bit(b, p) == Bit(c, p)
    ensures b == c
  {
    forall i | 0 <= i < |b| ensures b[i] == c[i] {
      ByteFromBits(b, c, i);
    }
  }

  lemma PackOfBits(b: Bytes)
    ensures Pack(BitsOf(b)) == b
  {
    hide ByteBit, Byte8, Pack;
    Div(8, |b|, 0);
    var c := Pack(BitsOf(b));
    PackLength(BitsOf(b));
    forall p | 0 <= p < 8 * |b| ensures Bit(b, p) == Bit(c, p) {
      PackBits(BitsOf(b), p);
    }
    SameBits(b, c);
  }

  lemma PackLength(bits: seq<bool>)
    ensures |Pack(bits)| == |bits| / 8
  {
  }

  // ---- eleven-bit numbers ----

  /** `v & (1 << m)` */
  predicate IntBit(v: nat, m: nat) {
    v / Pow2(m) % 2 == 1
  }

  /** `v |= 1 << m` */
  function SetIntBit(v: nat, m: nat): nat {
    if IntBit(v, m) then v else v + Pow2(m)
  }

  /** Most significant bit first. */
  function FromBits(bits: seq<bool>): nat {
    if bits == [] then 0 else 2 * FromBits(bits[..|bits| - 1]) + if bits[|bits| - 1] then 1 else 0
  }

  lemma {:induction false} FromBitsBelow(bits: seq<bool>)
    ensures FromBits(bits) < Pow2(|bits|)
    decreases |bits|
  {
    if bits != [] {
      FromBitsBelow(bits[..|bits| - 1]);
    }
  }

  lemma HalfQuotient(a: nat, c: nat, p: nat)
    requires c < 2 && p > 0
    ensures (2 * a + c) / (2 * p) == a / p
  {
    assert a == p * (a / p) + a % p;
    assert 2 * a + c == 2 * p * (a / p) + (2 * (a % p) + c);
    Div(2 * p, a / p, 2 * (a % p) + c);
  }

  lemma HalfBit(v: nat, m: nat)
    ensures IntBit(v, m + 1) == IntBit(v / 2, m)
  {
    HalfQuotient(v / 2, v % 2, Pow2(m));
    assert v == 2 * (v / 2) + v % 2;
  }

  lemma LowestBit(v: nat)
    ensures IntBit(v, 0) == (v % 2 == 1)
  {
  }

  lemma FromBitsHalf(bits: seq<bool>)
    requires bits != []
    ensures FromBits(bits) / 2 == FromBits(bits[..|bits| - 1])
    ensures FromBits(bits) % 2 == if bits[|bits| - 1] then 1 else 0
  {
  }

  /** The bits a number was put together from can be read off it again. */
  lemma {:induction false} BitsReadBack(bits: seq<bool>, j: nat)
    requires j < |bits|
    ensures IntBit(FromBits(bits), |bits| - 1 - j) == bits[j]
    decreases |bits|
  {
    hide IntBit, FromBits;
    FromBitsHalf(bits);
    if j < |bits| - 1 {
      BitsReadBack(bits[..|bits| - 1], j);
      HalfBit(FromBits(bits), |bits| - 2 - j);
    } else {
      LowestBit(FromBits(bits));
    }
  }

  function ToBits(v: nat, n: nat): seq<bool> {
    seq(n, j requires 0 <= j < n => IntBit(v, n - 1 - j))
  }

  /** And a number below 2^n is put together from its n bits. */
  lemma {:induction false} NumberReadBack(v: nat, n: nat)
    requires v < Pow2(n)
    ensures FromBits(ToBits(v, n)) == v
    decreases n
  {
    if n > 0 {
      NumberReadBack(v / 2, n - 1);
      var bits := ToBits(v, n);
      forall j: nat | j < n - 1 ensures bits[j] == ToBits(v / 2, n - 1)[j] {
        HalfBit(v, n - 2 - j);
        assert n - 2 - j + 1 == n - 1 - j;
      }
      assert bits[..n - 1] == ToBits(v / 2, n - 1);
      assert bits[n - 1] == IntBit(v, 0) && Pow2(0) == 1;
    }
  }

  // ---- phrases as word indices ----

  /** The bits of all indices, eleven each. */
  function AllBits(idx: seq<nat>): seq<bool> {
    seq(11 * |idx|, p requires 0 <= p < 11 * |idx| => IntBit(idx[p / 11], 10 - p % 11))
  }

  function Indices(bits: seq<bool>): seq<nat> {
    seq(|bits| / 11, k requires 0 <= k < |bits| / 11 => FromBits(bits[11 * k..11 * k + 11]))
  }

  /** How many bits of an n-word phrase are entropy; the rest is checksum. */
  function EntropyBits(n: nat): (e: nat)
    requires n % 3 == 0
    ensures e % 32 == 0 && 11 * n == e + n / 3
  {
    var m := n / 3;
    Div(32, m, 0);
    32 * m
  }

  /** A number of words the standard knows, and a checksum that is the beginning of the hash. */
  predicate ValidIndices(sha: Sha, idx: seq<nat>) {
    && |idx| % 3 == 0 && 12 <= |idx| <= 24
    && var bits, e := AllBits(idx), EntropyBits(|idx|);
       var h := BitsOf(sha(Pack(bits[..e])));
       |idx| / 3 <= |h| && bits[e..] == h[..|idx| / 3]
  }

  /** Entropy and four bits of its hash, cut into twelve indices. */
  function NewIndices(sha: Sha, ent: Bytes): seq<nat>
    requires |ent| == 16 && |sha(ent)| == 32
  {
    Indices(BitsOf(ent) + BitsOf(sha(ent))[..4])
  }

  lemma {:induction false} AllBitsOfIndices(bits: seq<bool>)
    requires |bits| % 11 == 0
    ensures AllBits(Indices(bits)) == bits
    ensures forall i :: i in Indices(bits) ==> i < Pow2(11)
  {
    hide FromBits, IntBit, Pow2;
    var idx := Indices(bits);
    assert 11 * |idx| == |bits|;
    forall k | 0 <= k < |idx| ensures idx[k] < Pow2(11) {
      FromBitsBelow(bits[11 * k..11 * k + 11]);
    }
    forall p | 0 <= p < |bits| ensures AllBits(idx)[p] == bits[p] {
      var k, j := p / 11, p % 11;
      assert p == 11 * k + j;
      BitsReadBack(bits[11 * k..11 * k + 11], j);
    }
  }

  lemma IndicesOfAllBits(idx: seq<nat>)
    requires forall i :: i in idx ==> i < Pow2(11)
    ensures Indices(AllBits(idx)) == idx
  {
    hide FromBits, IntBit, Pow2;
    Div(11, |idx|, 0);
    forall k | 0 <= k < |idx| ensures Indices(AllBits(idx))[k] == idx[k] {
      IndexOfAllBits(idx, k);
    }
  }

  lemma IndexOfAllBits(idx: seq<nat>, k: nat)
    requires k < |idx| && forall i :: i in idx ==> i < Pow2(11)
    ensures FromBits(AllBits(idx)[11 * k..11 * k + 11]) == idx[k]
  {
    hide FromBits, IntBit, Pow2;
    forall j: nat | j < 11 ensures AllBits(idx)[11 * k + j] == ToBits(idx[k], 11)[j] {
      Div(11, k, j);
    }
    assert AllBits(idx)[11 * k..11 * k + 11] == ToBits(idx[k], 11);
    assert idx[k] in idx;
    NumberReadBack(idx[k], 11);
  }

  lemma NewIsValid(sha: Sha, ent: Bytes)
    requires |ent| == 16 && |sha(ent)| == 32
    ensures ValidIndices(sha, NewIndices(sha, ent))
    ensures |NewIndices(sha, ent)| == 12 && forall i :: i in NewIndices(sha, ent) ==> i < Pow2(11)
  {
    hide FromBits, IntBit, Pow2, Bit, Pack;
    var bits := BitsOf(ent) + BitsOf(sha(ent))[..4];
    assert |bits| == 132;
    AllBitsOfIndices(bits);
    PackOfBits(ent);
    assert bits[..128] == BitsOf(ent) && bits[128..] == BitsOf(sha(ent))[..4];
    assert EntropyBits(12) == 128;
  }

  /** Twelve valid indices come from some entropy. */
  lemma ValidIsNew(sha: Sha, idx: seq<nat>) returns (ent: Bytes)
    requires IsSha(sha) && |idx| == 12 && ValidIndices(sha, idx)
    requires forall i :: i in idx ==> i < Pow2(11)
    ensures |ent| == 16 && idx == NewIndices(sha, ent)
  {
    hide FromBits, IntBit, Pow2, Bit, Pack;
    var bits := AllBits(idx);
    assert EntropyBits(12) == 128;
    ent := Pack(bits[..128]);
    PackLength(bits[..128]);
    forall p | 0 <= p < 128 ensures BitsOf(ent)[p] == bits[p] {
      PackBits(bits[..128], p);
    }
    assert BitsOf(ent) == bits[..128];
    assert bits == BitsOf(ent) + BitsOf(sha(ent))[..4];
    IndicesOfAllBits(idx);
  }

  // ---- phrases as text ----

  predicate IsSpace(c: char) {
    c == ' ' || c == '\t' || c == '\n' || c == '\r'
  }

  /** `tolower` in the C locale. */
  function Lower(c: char): char {
    if 'A' <= c <= 'Z' then (c as int + 32) as char else c
  }

  /** The words of a text, in lower case; `cur` is the word being read. */
  function Split(s: string, cur: string): seq<string> {
    if s == "" then if cur == "" then [] else [cur]
    else if IsSpace(s[0]) then (if cur == "" then [] else [cur]) + Split(s[1..], "")
    else Split(s[1..], cur + [Lower(s[0])])
  }

  function Join(ws: seq<string>): string {
    if ws == [] then ""
    else if |ws| == 1 then ws[0]
    else Join(ws[..|ws| - 1]) + " " + ws[|ws| - 1]
  }

  function Normalize(s: string): string {
    Join(Split(s, ""))
  }

  /** What normalisation leaves alone: a non-empty word in lower case without white space. */
  predicate Clean(w: string) {
    w != "" && forall c :: c in w ==> !IsSpace(c) && Lower(c) == c
  }

  predicate AllClean(ws: seq<string>) {
    forall w :: w in ws ==> Clean(w)
  }

  lemma {:induction false} SplitIsClean(s: string, cur: string)
    requires cur == "" || Clean(cur)
    ensures AllClean(Split(s, cur))
    decreases |s|
  {
    if s != "" {
      if IsSpace(s[0]) {
        SplitIsClean(s[1..], "");
      } else {
        assert Clean(cur + [Lower(s[0])]);
        SplitIsClean(s[1..], cur + [Lower(s[0])]);
      }
    }
  }

  /** A clean word is read in one go. */
  lemma {:induction false} SplitWord(w: string, cur: string, tail: string)
    requires forall c :: c in w ==> !IsSpace(c) && Lower(c) == c
    ensures Split(w + tail, cur) == Split(tail, cur + w)
    decreases |w|
  {
    if w == "" {
      assert w + tail == tail && cur + w == cur;
    } else {
      assert w[0] in w;
      assert (w + tail)[1..] == w[1..] + tail;
      assert cur + [w[0]] + w[1..] == cur + w;
      SplitWord(w[1..], cur + [w[0]], tail);
    }
  }

  /** A word ends at white space or at the end of the text. */
  lemma WordEnds(w: string, tail: string)
    requires w != "" && (tail == "" || IsSpace(tail[0]))
    ensures Split(tail, w) == [w] + Split(tail, "")
  {
    hide Lower;
    assert [w] + [] == [w];
  }

  lemma SkipSpace(s: string)
    ensures Split(" " + s, "") == Split(s, "")
  {
    hide Lower;
    assert (" " + s)[1..] == s;
    assert [] + Split(s, "") == Split(s, "");
  }

  lemma NextWord(w: string, tail: string)
    requires Clean(w) && (tail == "" || IsSpace(tail[0]))
    ensures Split(w + tail, "") == [w] + Split(tail, "")
    ensures Split(" " + w + tail, "") == [w] + Split(tail, "")
  {
    hide Split, IsSpace, Lower;
    SplitWord(w, "", tail);
    WordEnds(w, tail);
    SkipSpace(w + tail);
    assert "" + w == w;
    assert " " + w + tail == " " + (w + tail);
  }

  /** Reading joined words, with anything that starts a new word behind them. */
  lemma {:induction false} SplitJoined(ws: seq<string>, tail: string)
    requires AllClean(ws) && ws != [] && (tail == "" || IsSpace(tail[0]))
    ensures Split(Join(ws) + tail, "") == ws + Split(tail, "")
    decreases |ws|
  {
    hide Split, Clean;
    var front, last := ws[..|ws| - 1], ws[|ws| - 1];
    assert last in ws;
    NextWord(last, tail);
    if |ws| == 1 {
      assert ws == [last];
    } else {
      var rest := " " + last + tail;
      assert Join(ws) + tail == Join(front) + rest;
      SplitJoined(front, rest);
      assert front + ([last] + Split(tail, "")) == ws + Split(tail, "");
    }
  }

  lemma SplitJoin(ws: seq<string>)
    requires AllClean(ws)
    ensures Split(Join(ws), "") == ws
  {
    if ws != [] {
      SplitJoined(ws, "");
      assert Join(ws) + "" == Join(ws) && ws + [] == ws;
    }
  }

  /** Normalising twice is normalising once; what is normalised keeps its words. */
  lemma NormalizeIdempotent(s: string)
    ensures Split(Normalize(s), "") == Split(s, "")
    ensures Normalize(Normalize(s)) == Normalize(s)
  {
    SplitIsClean(s, "");
    SplitJoin(Split(s, ""));
  }

  /** Words in lower case, one space between two of them, and none before the first or behind the last. */
  lemma NormalizedExample()
    ensures Normalize("\tA\n b\r") == "a b"
  {
    hide Split;
    SplitExample();
    assert Join(["a", "b"]) == "a" + " " + "b" by {
      assert ["a", "b"][..1] == ["a"];
    }
  }

  lemma ReadLetter(c: char, rest: string, cur: string)
    requires !IsSpace(c)
    ensures Split([c] + rest, cur) == Split(rest, cur + [Lower(c)])
  {
    hide Lower, IsSpace;
    assert ([c] + rest)[1..] == rest;
  }

  lemma ReadSpace(c: char, rest: string, cur: string)
    requires IsSpace(c)
    ensures Split([c] + rest, cur) == (if cur == "" then [] else [cur]) + Split(rest, "")
  {
    hide Lower, IsSpace;
    assert ([c] + rest)[1..] == rest;
  }

  lemma SplitExample()
    ensures Split("\tA\n b\r", "") == ["a", "b"]
  {
    LastWord();
    hide Split;
    ReadSpace('\t', "A\n b\r", "");
    ReadLetter('A', "\n b\r", "");
    ReadSpace('\n', " b\r", "a");
    ReadSpace(' ', "b\r", "");
    assert ['\t'] + "A\n b\r" == "\tA\n b\r" && ['A'] + "\n b\r" == "A\n b\r" && "" + ['a'] == "a";
    assert ['\n'] + " b\r" == "\n b\r" && [' '] + "b\r" == " b\r";
  }

  lemma LastWord()
    ensures Split("b\r", "") == ["b"]
  {
    ReadLetter('b', "\r", "");
    ReadSpace('\r', "", "b");
    assert ['b'] + "\r" == "b\r" && ['\r'] + "" == "\r" && "" + ['b'] == "b";
  }

  // ---- validity and generation ----

  /** 2048 different words that normalisation leaves alone. */
  ghost predicate IsWordList(list: seq<string>) {
    |list| == Pow2(11) && AllClean(list) && NoDup(list)
  }

  function WordIndex(list: seq<string>, w: string): (i: int)
    ensures if i < 0 then w !in list else i < |list| && list[i] == w
  {
    FirstIndex(list, w, 0)
  }

  function FirstIndex(list: seq<string>, w: string, from: nat): (i: int)
    requires from <= |list| && w !in list[..from]
    ensures if i < 0 then w !in list else i < |list| && list[i] == w
    decreases |list| - from
  {
    if from == |list| then assert list[..from] == list; -1
    else if list[from] == w then from
    else
      assert list[..from + 1] == list[..from] + [list[from]];
      FirstIndex(list, w, from + 1)
  }

  predicate AllKnown(list: seq<string>, ws: seq<string>) {
    forall w :: w in ws ==> WordIndex(list, w) >= 0
  }

  function IndicesOf(list: seq<string>, ws: seq<string>): seq<nat>
    requires AllKnown(list, ws)
  {
    seq(|ws|, k requires 0 <= k < |ws| => assert ws[k] in ws; WordIndex(list, ws[k]))
  }

  predicate ValidMnemonic(sha: Sha, list: seq<string>, phrase: string) {
    var ws := Split(phrase, "");
    AllKnown(list, ws) && ValidIndices(sha, IndicesOf(list, ws))
  }

  function WordsAt(list: seq<string>, idx: seq<nat>): seq<string>
    requires forall i :: i in idx ==> i < |list|
  {
    seq(|idx|, k requires 0 <= k < |idx| => assert idx[k] in idx; list[idx[k]])
  }

  /** The phrase for 128 bits of entropy. */
  ghost predicate IsNewMnemonic(sha: Sha, list: seq<string>, ent: Bytes, phrase: string)
    requires IsSha(sha) && IsWordList(list)
  {
    |ent| == 16 &&
    var idx := NewIndices(sha, ent);
    NewIsValid(sha, ent);
    phrase == Join(WordsAt(list, idx))
  }

  lemma IndicesOfWords(list: seq<string>, idx: seq<nat>)
    requires IsWordList(list) && forall i :: i in idx ==> i < |list|
    ensures AllClean(WordsAt(list, idx)) && AllKnown(list, WordsAt(list, idx))
    ensures IndicesOf(list, WordsAt(list, idx)) == idx
  {
    hide Pow2;
    var ws := WordsAt(list, idx);
    forall w | w in ws ensures w in list {
      var k :| 0 <= k < |ws| && ws[k] == w;
      assert idx[k] in idx;
      assert list[idx[k]] == w;
    }
    forall k | 0 <= k < |idx| ensures IndicesOf(list, ws)[k] == idx[k] {
      assert idx[k] in idx;
      var i := WordIndex(list, ws[k]);
      assert list[i] == list[idx[k]];
    }
  }

  /** Every generated phrase passes validation. */
  lemma NewMnemonicIsValid(sha: Sha, list: seq<string>, ent: Bytes, phrase: string)
    requires IsSha(sha) && IsWordList(list) && IsNewMnemonic(sha, list, ent, phrase)
    ensures ValidMnemonic(sha, list, phrase)
    ensures Normalize(phrase) == phrase
  {
    hide ValidIndices, Pow2, NewIndices;
    NewIsValid(sha, ent);
    IndicesOfWords(list, NewIndices(sha, ent));
    SplitJoin(WordsAt(list, NewIndices(sha, ent)));
  }

  /** Validity does not depend on case and spacing. */
  lemma ValidityUnderNormalize(sha: Sha, list: seq<string>, phrase: string)
    ensures ValidMnemonic(sha, list, Normalize(phrase)) <==> ValidMnemonic(sha, list, phrase)
  {
    hide ValidIndices;
    NormalizeIdempotent(phrase);
  }

  predicate White(c: char) {
    c == ' ' || c == '\t' || c == '\n' || c == '\r'
  }

  /** The same letter in upper or lower case, or the same character. */
  predicate SameLetter(c: char, d: char) {
    || c == d
    || ('A' <= c <= 'Z' && d as int == c as int + 32)
    || ('A' <= d <= 'Z' && c as int == d as int + 32)
  }

  /** Phrases that differ only in the case of letters and in which white space separates the words. */
  ghost predicate SameToTheEye(a: string, b: string) {
    |a| == |b| && forall i :: 0 <= i < |a| ==> (White(a[i]) && White(b[i])) || SameLetter(a[i], b[i])
  }

  lemma {:induction false} SameSplit(a: string, b: string, cur: string)
    requires SameToTheEye(a, b)
    ensures Split(a, cur) == Split(b, cur)
    decreases |a|
  {
    if a != "" {
      assert SameToTheEye(a[1..], b[1..]);
      assert (White(a[0]) && White(b[0])) || SameLetter(a[0], b[0]);
      if White(a[0]) {
        SameSplit(a[1..], b[1..], "");
      } else {
        SameSplit(a[1..], b[1..], cur + [Lower(a[0])]);
      }
    }
  }

  /** Such phrases normalise to the same, and are valid or not together. */
  lemma ValidityIgnoresCase(sha: Sha, list: seq<string>, a: string, b: string)
    requires SameToTheEye(a, b)
    ensures Normalize(a) == Normalize(b)
    ensures ValidMnemonic(sha, list, a) <==> ValidMnemonic(sha, list, b)
  {
    hide ValidIndices, Split;
    SameSplit(a, b, "");
  }

  /** A twelve-word phrase is valid exactly when it normalises to one that could have been generated. */
  lemma TwelveWordsValidIff(sha: Sha, list: seq<string>, phrase: string)
    requires IsSha(sha) && IsWordList(list) && |Split(phrase, "")| == 12
    ensures ValidMnemonic(sha, list, phrase) <==> exists ent :: IsNewMnemonic(sha, list, ent, Normalize(phrase))
  {
    hide ValidIndices, Pow2, NewIndices;
    if ValidMnemonic(sha, list, phrase) {
      var ws := Split(phrase, "");
      var idx := IndicesOf(list, ws);
      forall i | i in idx ensures i < Pow2(11) {
        var k :| 0 <= k < |idx| && idx[k] == i;
        assert ws[k] in ws;
      }
      var ent := ValidIsNew(sha, idx);
      assert WordsAt(list, idx) == ws;
      assert IsNewMnemonic(sha, list, ent, Normalize(phrase));
    }
    if exists ent :: IsNewMnemonic(sha, list, ent, Normalize(phrase)) {
      var ent :| IsNewMnemonic(sha, list, ent, Normalize(phrase));
      NewMnemonicIsValid(sha, list, ent, Normalize(phrase));
      ValidityUnderNormalize(sha, list, phrase);
    }
  }

  // ---- the loops ----

  lemma {:induction false} JoinedIsEmptyIff(ws: seq<string>)
    requires AllClean(ws)
    ensures Join(ws) == "" <==> ws == []
  {
    if ws != [] {
      assert ws[|ws| - 1] in ws;
    }
  }

  lemma JoinAppend(ws: seq<string>, w: string)
    ensures Join(ws + [w]) == if ws == [] then w else Join(ws) + " " + w
  {
    assert (ws + [w])[..|ws|] == ws;
  }

  /** The `flush` lambda: the word read so far is appended behind a single space. */
  method Flush(out: string, cur: string, ghost ws: seq<string>) returns (out': string)
    requires AllClean(ws) && out == Join(ws)
    ensures out' == Join(ws + if cur == "" then [] else [cur])
  {
    out' := out;
    JoinedIsEmptyIff(ws);
    assert ws + [] == ws;
    if cur != "" {
      JoinAppend(ws, cur);
      if out' != "" {
        out' := out' + " ";
      }
      out' := out' + cur;
    }
  }

  method NormalizeMnemonic(s: string) returns (out: string)
    ensures out == Normalize(s)
  {
    hide Join;
    out := "";
    var cur := "";
    ghost var ws: seq<string> := [];
    EmptyJoin();
    assert s[0..] == s && ws + Split(s, "") == Split(s, "");
    for i := 0 to |s|
      invariant AllClean(ws) && (cur == "" || Clean(cur))
      invariant out == Join(ws) && ws + Split(s[i..], cur) == Split(s, "")
    {
      assert s[i..][0] == s[i] && s[i..][1..] == s[i + 1..];
      if IsSpace(s[i]) {
        out := Flush(out, cur, ws);
        ghost var word: seq<string> := if cur == "" then [] else [cur];
        assert ws + (word + Split(s[i + 1..], "")) == ws + word + Split(s[i + 1..], "");
        ws := ws + word;
        cur := "";
      } else {
        cur := cur + [Lower(s[i])];
      }
    }
    out := Flush(out, cur, ws);
  }

  lemma EmptyJoin()
    ensures Join([]) == ""
  {
  }

  method FindWord(list: seq<string>, w: string) returns (i: int)
    ensures i == WordIndex(list, w)
  {
    assert w !in list[..0];
    for k := 0 to |list|
      invariant w !in list[..k] && FirstIndex(list, w, k) == WordIndex(list, w)
    {
      if w == list[k] {
        return k;
      }
      assert list[..k + 1] == list[..k] + [list[k]];
    }
    return -1;
  }

  /** The characters of a normalised phrase: single spaces and what normalisation leaves alone. */
  predicate Plain(s: string) {
    forall c :: c in s ==> c == ' ' || (!IsSpace(c) && Lower(c) == c)
  }

  lemma {:induction false} JoinedIsPlain(ws: seq<string>)
    requires AllClean(ws)
    ensures Plain(Join(ws))
    decreases |ws|
  {
    if ws != [] {
      assert ws[|ws| - 1] in ws;
      if |ws| > 1 {
        JoinedIsPlain(ws[..|ws| - 1]);
      }
    }
  }

  lemma KnownAppend(list: seq<string>, ws: seq<string>, w: string)
    requires AllKnown(list, ws) && WordIndex(list, w) >= 0
    ensures AllKnown(list, ws + [w]) && IndicesOf(list, ws + [w]) == IndicesOf(list, ws) + [WordIndex(list, w)]
  {
    hide WordIndex;
    forall k | 0 <= k < |ws + [w]| ensures (ws + [w])[k] in ws + [w] {
    }
  }

  /** The words of a phrase as indices; fails at the first unknown word. */
  method ReadIndices(list: seq<string>, phrase: string) returns (ok: bool, idx: seq<nat>)
    ensures ok <==> AllKnown(list, Split(phrase, ""))
    ensures ok ==> idx == IndicesOf(list, Split(phrase, ""))
  {
    hide WordIndex, IndicesOf, Join;
    var normal := NormalizeMnemonic(phrase);
    var p := normal + " ";
    ghost var words := Split(phrase, "");
    PhraseWords(phrase);
    assert p[0..] == p && [] + Split(p, "") == Split(p, "");
    var w := "";
    idx := [];
    ghost var ws: seq<string> := [];
    NoIndices(list);
    for j := 0 to |p|
      invariant ws + Split(p[j..], w) == words
      invariant AllKnown(list, ws) && idx == IndicesOf(list, ws)
      invariant j > 0 && p[j - 1] == ' ' ==> w == ""
    {
      assert p[j] in p && p[j..][0] == p[j] && p[j..][1..] == p[j + 1..];
      if p[j] == ' ' {
        if w != "" {
          var i := FindWord(list, w);
          assert ws + ([w] + Split(p[j + 1..], "")) == ws + [w] + Split(p[j + 1..], "");
          if i < 0 {
            assert w in words by {
              assert words[|ws|] == w;
            }
            return false, [];
          }
          KnownAppend(list, ws, w);
          idx := idx + [i];
          ws := ws + [w];
          w := "";
        } else {
          assert [] + Split(p[j + 1..], "") == Split(p[j + 1..], "");
        }
      } else {
        w := w + [p[j]];
      }
    }
    assert ws + [] == ws;
    return true, idx;
  }

  lemma PhraseWords(phrase: string)
    ensures Split(Normalize(phrase) + " ", "") == Split(phrase, "")
    ensures Plain(Normalize(phrase) + " ")
  {
    hide Join;
    var ws := Split(phrase, "");
    SplitIsClean(phrase, "");
    JoinedIsPlain(ws);
    OneSpace();
    if ws == [] {
      EmptyJoin();
      assert "" + " " == " ";
    } else {
      SplitJoined(ws, " ");
      assert ws + [] == ws;
    }
  }

  lemma OneSpace()
    ensures Split(" ", "") == []
  {
  }

  lemma NoIndices(list: seq<string>)
    ensures AllKnown(list, []) && IndicesOf(list, []) == []
  {
  }

  /** Bits `0 .. n` of the array are those of the indices, the rest is still zero. */
  ghost predicate Holds(b: Bytes, idx: seq<nat>, n: nat) {
    && n <= 11 * |idx| <= 8 * |b|
    && forall p: nat :: p < 8 * |b| ==> Bit(b, p) == (p < n && AllBits(idx)[p])
  }

  lemma SetBitAt(b: Bytes, pos: nat)
    requires pos < 8 * |b|
    ensures forall p: nat :: p < 8 * |b| ==>
              Bit(b[pos / 8 := SetByteBit(b[pos / 8], pos % 8)], p) == (p == pos || Bit(b, p))
  {
    hide ByteBit, SetByteBit;
    var c := b[pos / 8 := SetByteBit(b[pos / 8], pos % 8)];
    forall p: nat | p < 8 * |b| ensures Bit(c, p) == (p == pos || Bit(b, p)) {
      SetOneBit(b[pos / 8], pos % 8, p % 8);
      if p / 8 == pos / 8 {
        assert p == 8 * (p / 8) + p % 8 && pos == 8 * (pos / 8) + pos % 8;
      }
    }
  }

  lemma HoldsStep(b: Bytes, idx: seq<nat>, n: nat)
    requires Holds(b, idx, n) && n < 11 * |idx|
    ensures Holds(if AllBits(idx)[n] then b[n / 8 := SetByteBit(b[n / 8], n % 8)] else b, idx, n + 1)
  {
    hide ByteBit, SetByteBit, IntBit;
    SetBitAt(b, n);
    hide Bit;
  }

  lemma BitOfIndex(idx: seq<nat>, k: nat, j: nat)
    requires k < |idx| && j < 11
    ensures 11 * k + j < 11 * |idx| && AllBits(idx)[11 * k + j] == IntBit(idx[k], 10 - j)
  {
    hide IntBit;
    Div(11, k, j);
  }

  /** The bytes the nested loops of `validMnemonic` fill. */
  method PackIndices(idx: seq<nat>) returns (b: Bytes)
    ensures |b| == (11 * |idx| + 7) / 8 && Holds(b, idx, 11 * |idx|)
  {
    hide IntBit, Bit, SetByteBit;
    b := seq((11 * |idx| + 7) / 8, i => 0);
    NothingSet(b);
    for k := 0 to |idx|
      invariant |b| == (11 * |idx| + 7) / 8 && Holds(b, idx, 11 * k)
    {
      for j := 0 to 11
        invariant |b| == (11 * |idx| + 7) / 8 && Holds(b, idx, 11 * k + j)
      {
        BitOfIndex(idx, k, j);
        HoldsStep(b, idx, 11 * k + j);
        if IntBit(idx[k], 10 - j) {
          var pos := k * 11 + j;
          b := b[pos / 8 := SetByteBit(b[pos / 8], pos % 8)];
        }
      }
    }
  }

  lemma NothingSet(b: Bytes)
    requires forall i :: 0 <= i < |b| ==> b[i] == 0
    ensures forall p: nat :: p < 8 * |b| ==> !Bit(b, p)
  {
    hide ByteBit;
    forall p: nat | p < 8 * |b| ensures !Bit(b, p) {
      NoBitsInZero(p % 8);
    }
  }

  /** The entropy bytes in front of the checksum. */
  lemma EntropyBytes(b: Bytes, idx: seq<nat>, e: nat)
    requires Holds(b, idx, 11 * |idx|) && e % 8 == 0 && e <= 11 * |idx|
    ensures e / 8 <= |b| && b[..e / 8] == Pack(AllBits(idx)[..e])
  {
    hide Pack, ByteBit, IntBit;
    var bits := AllBits(idx)[..e];
    PackLength(bits);
    forall p | 0 <= p < e ensures Bit(b[..e / 8], p) == Bit(Pack(bits), p) {
      PackBits(bits, p);
      assert Bit(b, p) == AllBits(idx)[p];
    }
    SameBits(b[..e / 8], Pack(bits));
  }

  lemma OtherSizes(sha: Sha, idx: seq<nat>)
    ensures ValidIndices(sha, idx) ==> |idx| % 3 == 0 && 12 <= |idx| <= 24
  {
    hide AllBits, Pack, BitsOf;
  }

  lemma ChecksumSize(n: nat)
    requires n % 3 == 0
    ensures n * 11 / 33 == n / 3 && n * 11 - n * 11 / 33 == EntropyBits(n) && EntropyBits(n) % 8 == 0
  {
    var m := n / 3;
    assert n == 3 * m;
    Div(33, m, 0);
    Div(8, 4 * m, 0);
  }

  lemma ValidIffChecksum(sha: Sha, idx: seq<nat>, h: Bytes)
    requires |idx| % 3 == 0 && 12 <= |idx| <= 24
    requires h == sha(Pack(AllBits(idx)[..EntropyBits(|idx|)])) && |h| == 32
    ensures |AllBits(idx)| == 11 * |idx| == EntropyBits(|idx|) + |idx| / 3 && |BitsOf(h)| == 256
    ensures ValidIndices(sha, idx) <==> AllBits(idx)[EntropyBits(|idx|)..] == BitsOf(h)[..|idx| / 3]
  {
    hide Pack, Bit, IntBit, EntropyBits;
  }

  lemma ChecksumBit(b: Bytes, idx: seq<nat>, h: Bytes, e: nat, j: nat)
    requires Holds(b, idx, 11 * |idx|) && e + j < 11 * |idx| && j < 8 * |h|
    ensures e + j < |AllBits(idx)| && AllBits(idx)[e..][j] == Bit(b, e + j)
    ensures j < |BitsOf(h)| && BitsOf(h)[j] == Bit(h, j)
  {
    hide Bit, IntBit;
  }

  method CheckIndices(sha: Sha, idx: seq<nat>) returns (ok: bool)
    requires IsSha(sha)
    ensures ok <==> ValidIndices(sha, idx)
  {
    hide Pack, Bit, IntBit, AllBits, BitsOf, EntropyBits, ValidIndices;
    OtherSizes(sha, idx);
    if |idx| % 3 != 0 || |idx| < 12 || |idx| > 24 {
      return false;
    }
    var bits := |idx| * 11;
    var csBits := bits / 33;
    var entBits := bits - csBits;
    ChecksumSize(|idx|);
    var b := PackIndices(idx);
    EntropyBytes(b, idx, entBits);
    var h := sha(b[..entBits / 8]);
    ValidIffChecksum(sha, idx, h);
    ghost var got, want := AllBits(idx)[entBits..], BitsOf(h)[..csBits];
    for j := 0 to csBits
      invariant got[..j] == want[..j]
    {
      ChecksumBit(b, idx, h, entBits, j);
      if Bit(h, j) != Bit(b, entBits + j) {
        assert got != want;
        return false;
      }
      assert got[..j + 1] == got[..j] + [got[j]] && want[..j + 1] == want[..j] + [want[j]];
    }
    assert got[..csBits] == got && want[..csBits] == want;
    return true;
  }

  method IsValidMnemonic(sha: Sha, list: seq<string>, phrase: string) returns (ok: bool)
    requires IsSha(sha)
    ensures ok <==> ValidMnemonic(sha, list, phrase)
  {
    hide ValidIndices, AllKnown, IndicesOf, Split;
    var known, idx := ReadIndices(list, phrase);
    if !known {
      return false;
    }
    ok := CheckIndices(sha, idx);
  }

  // ---- generation ----

  /** Reading eleven bits into a number, most significant first. */
  lemma FromBitsStep(bits: seq<bool>, j: nat)
    requires j < |bits|
    ensures FromBits(bits[..j + 1]) == 2 * FromBits(bits[..j]) + if bits[j] then 1 else 0
  {
    assert bits[..j + 1][..j] == bits[..j];
  }

  lemma OrIsAdd(a: nat, m: nat)
    ensures SetIntBit(a * Pow2(m + 1), m) == (2 * a + 1) * Pow2(m)
    ensures a * Pow2(m + 1) == 2 * a * Pow2(m)
  {
    var p := Pow2(m);
    assert Pow2(m + 1) == 2 * p;
    assert a * (2 * p) == p * (2 * a) + 0;
    Div(p, 2 * a, 0);
    assert (2 * a + 1) * p == 2 * a * p + p;
  }

  /** The inner loop of `newMnemonic`. */
  method ReadIndex(b: Bytes, k: nat) returns (v: nat)
    requires 11 * k + 11 <= 8 * |b|
    ensures v == FromBits(BitsOf(b)[11 * k..11 * k + 11])
  {
    hide Bit, FromBits, SetIntBit, ReadSoFar;
    ghost var bits := BitsOf(b)[11 * k..11 * k + 11];
    v := 0;
    ReadEnds(bits);
    for j := 0 to 11
      invariant v == ReadSoFar(bits, j)
    {
      var pos := k * 11 + j;
      ReadStep(bits, j);
      assert bits[j] == Bit(b, pos);
      if Bit(b, pos) {
        v := SetIntBit(v, 10 - j);
      }
    }
  }

  /** The bits read so far, in their places in the eleven-bit number. */
  function ReadSoFar(bits: seq<bool>, j: nat): nat
    requires |bits| == 11 && j <= 11
  {
    FromBits(bits[..j]) * Pow2(11 - j)
  }

  lemma ReadEnds(bits: seq<bool>)
    requires |bits| == 11
    ensures ReadSoFar(bits, 0) == 0 && ReadSoFar(bits, 11) == FromBits(bits)
  {
    assert bits[..11] == bits && Pow2(0) == 1;
  }

  lemma ReadStep(bits: seq<bool>, j: nat)
    requires |bits| == 11 && j < 11
    ensures ReadSoFar(bits, j + 1) ==
            if bits[j] then SetIntBit(ReadSoFar(bits, j), 10 - j) else ReadSoFar(bits, j)
  {
    hide FromBits, SetIntBit, Pow2;
    FromBitsStep(bits, j);
    OrIsAdd(FromBits(bits[..j]), 10 - j);
  }

  method NewMnemonic(sha: Sha, list: seq<string>, entropy: Bytes) returns (out: string)
    requires IsSha(sha) && IsWordList(list) && |entropy| == 16
    ensures IsNewMnemonic(sha, list, entropy, out)
  {
    hide Pow2, Bit, FromBits, Join, ValidIndices;
    var h := sha(entropy);
    var ent := entropy + [h[0]];
    ghost var idx := NewIndices(sha, entropy);
    NewIsValid(sha, entropy);
    FirstHashByte(entropy, h);
    ghost var words := WordsAt(list, idx);
    IndicesOfWords(list, idx);
    out := "";
    EmptyJoin();
    for k := 0 to 12
      invariant out == Join(words[..k])
    {
      var v := ReadIndex(ent, k);
      NewIndexAt(sha, entropy, k);
      SliceOfPrefix(BitsOf(ent), 132, 11 * k, 11 * k + 11);
      assert v == idx[k] && idx[k] in idx && words[k] == list[v];
      assert words[..k + 1] == words[..k] + [words[k]];
      JoinAppend(words[..k], words[k]);
      if k > 0 {
        out := out + " ";
      }
      out := out + list[v];
    }
    assert words[..12] == words;
  }

  lemma SliceOfPrefix(bits: seq<bool>, n: nat, i: nat, j: nat)
    requires i <= j <= n <= |bits|
    ensures bits[..n][i..j] == bits[i..j]
  {
  }

  lemma NewIndexAt(sha: Sha, ent: Bytes, k: nat)
    requires |ent| == 16 && |sha(ent)| == 32 && k < 12
    ensures |NewIndices(sha, ent)| == 12
    ensures NewIndices(sha, ent)[k] == FromBits((BitsOf(ent) + BitsOf(sha(ent))[..4])[11 * k..11 * k + 11])
  {
    hide FromBits, Bit;
  }

  /** The first four bits behind the entropy are the first four of the hash. */
  lemma FirstHashByte(ent: Bytes, h: Bytes)
    requires |ent| == 16 && |h| == 32
    ensures BitsOf(ent + [h[0]])[..132] == BitsOf(ent) + BitsOf(h)[..4]
  {
    hide ByteBit;
    var a, b := BitsOf(ent + [h[0]])[..132], BitsOf(ent) + BitsOf(h)[..4];
    forall p | 0 <= p < 132 ensures a[p] == b[p] {
      if p >= 128 {
        Div(8, 16, p - 128);
      }
    }
  }
}
