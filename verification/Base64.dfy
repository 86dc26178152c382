/** base64 as the bearers use it (`core/src/multibearer.hpp`), against sections 4 and 5 of RFC 4648. */
module Base64 {
  import opened Prelude

  type sextet = i: int | 0 <= i < 64

  /** Table 1 of RFC 4648, which the source spells out as a string of 64 characters. */
  function Symbol(i: sextet): char {
    if i < 26 then 'A' + i as char
    else if i < 52 then 'a' + (i - 26) as char
    else if i < 62 then '0' + (i - 52) as char
    else if i == 62 then '+' else '/'
  }

  /** The decoder's table: -1 outside both alphabets, '-' and '_' as in table 2. */
  function Value(c: char): (v: int)
    ensures -1 <= v < 64
  {
    if 'A' <= c <= 'Z' then c as int - 'A' as int
    else if 'a' <= c <= 'z' then c as int - 'a' as int + 26
    else if '0' <= c <= '9' then c as int - '0' as int + 52
    else if c == '+' || c == '-' then 62
    else if c == '/' || c == '_' then 63
    else -1
  }

  // ---- the standard ----

  function Group(p: byte, q: byte, r: byte): seq<sextet> {
    [p / 4, p % 4 * 16 + q / 16, q % 16 * 4 + r / 64, r % 64]
  }

  /** The sextets of section 4: three bytes make four, a rest of one or two makes two or three. */
  function Sextets(x: seq<byte>): seq<sextet> {
    if |x| == 0 then []
    else if |x| == 1 then [x[0] / 4, x[0] % 4 * 16]
    else if |x| == 2 then [x[0] / 4, x[0] % 4 * 16 + x[1] / 16, x[1] % 16 * 4]
    else Group(x[0], x[1], x[2]) + Sextets(x[3..])
  }

  function Symbols(s: seq<sextet>): string {
    seq(|s|, i requires 0 <= i < |s| => Symbol(s[i]))
  }

  /** Padding to a multiple of four symbols. */
  function Padded(s: string): string {
    s + if |s| % 4 == 0 then "" else if |s| % 4 == 1 then "===" else if |s| % 4 == 2 then "==" else "="
  }

  function Rfc4648(x: seq<byte>): string {
    Padded(Symbols(Sextets(x)))
  }

  function First(a: int, b: int): int {
    a * 4 + b / 16
  }

  function Second(b: int, c: int): int {
    b % 16 * 16 + c / 4
  }

  function Third(c: int, d: int): int {
    c % 4 * 64 + d
  }

  /** Four sextets make three bytes, a rest of two or three makes one or two. */
  function Bytes(s: seq<sextet>): seq<byte> {
    if |s| < 2 then []
    else if |s| == 2 then [First(s[0], s[1])]
    else if |s| == 3 then [First(s[0], s[1]), Second(s[1], s[2])]
    else [First(s[0], s[1]), Second(s[1], s[2]), Third(s[2], s[3])] + Bytes(s[4..])
  }

  /** What a lenient decoder reads: everything up to the first character outside the alphabets. */
  function Readable(s: string): seq<sextet> {
    if s == "" || Value(s[0]) == -1 then [] else [Value(s[0])] + Readable(s[1..])
  }

  // ---- the loops ----

  /** `int val` is 32 bits wide and wraps. */
  function Wrap(v: nat): nat {
    v % 0x1_0000_0000
  }

  lemma SmallPowers()
    ensures Pow2(2) == 4 && Pow2(4) == 16 && Pow2(6) == 64
  {
    assert Pow2(2) == 4;
    assert Pow2(4) == 16;
  }

  function Low6(v: nat, bits: nat): sextet {
    v / Pow2(bits) % 64
  }

  function Low8(v: nat, bits: nat): byte {
    v / Pow2(bits) % 256
  }

  /** The sextets finished after the first `i` bytes: full groups, then what the rest has completed. */
  function Finished(x: seq<byte>, i: nat): seq<sextet>
    requires i <= |x|
  {
    if i < 3 then
      if i == 0 then [] else if i == 1 then [x[0] / 4] else [x[0] / 4, x[0] % 4 * 16 + x[1] / 16]
    else Group(x[0], x[1], x[2]) + Finished(x[3..], i - 3)
  }

  lemma FinishedFew(x: seq<byte>, i: nat)
    requires i < 3 && i < |x|
    ensures Finished(x, i + 1) == Finished(x, i) +
            if i % 3 == 0 then [x[i] / 4]
            else if i % 3 == 1 then [x[i - 1] % 4 * 16 + x[i] / 16]
            else [x[i - 1] % 16 * 4 + x[i] / 64, x[i] % 64]
  {
  }

  lemma FinishedMore(x: seq<byte>, i: nat)
    requires 3 <= i <= |x|
    ensures Finished(x, i) == Group(x[0], x[1], x[2]) + Finished(x[3..], i - 3)
  {
    hide Group;
  }

  lemma {:induction false} FinishedStep(x: seq<byte>, i: nat)
    requires i < |x|
    ensures Finished(x, i + 1) == Finished(x, i) +
            if i % 3 == 0 then [x[i] / 4]
            else if i % 3 == 1 then [x[i - 1] % 4 * 16 + x[i] / 16]
            else [x[i - 1] % 16 * 4 + x[i] / 64, x[i] % 64]
    decreases i
  {
    hide Finished, Group;
    if i < 3 {
      FinishedFew(x, i);
    } else {
      var y := x[3..];
      FinishedStep(y, i - 3);
      FinishedMore(x, i);
      FinishedMore(x, i + 1);
      assert (i - 3) % 3 == i % 3 && y[i - 3] == x[i];
      assert i % 3 != 0 ==> y[i - 4] == x[i - 1];
    }
  }

  /** The last symbol's worth of bits of an incomplete group. */
  function Leftover(x: seq<byte>): seq<sextet> {
    if |x| % 3 == 0 then []
    else if |x| % 3 == 1 then [x[|x| - 1] % 4 * 16]
    else [x[|x| - 1] % 16 * 4]
  }

  lemma FinishedEndFew(x: seq<byte>)
    requires |x| < 3
    ensures Sextets(x) == Finished(x, |x|) + Leftover(x)
  {
    hide Finished, Sextets, Leftover;
    LeftoverFew(x);
    SextetsFew(x);
    FinishedAllFew(x);
  }

  lemma SextetsFew(x: seq<byte>)
    requires |x| < 3
    ensures |x| == 0 ==> Sextets(x) == []
    ensures |x| == 1 ==> Sextets(x) == [x[0] / 4] + [x[0] % 4 * 16]
    ensures |x| == 2 ==> Sextets(x) == [x[0] / 4, x[0] % 4 * 16 + x[1] / 16] + [x[1] % 16 * 4]
  {
    hide Group;
  }

  lemma FinishedAllFew(x: seq<byte>)
    requires |x| < 3
    ensures |x| == 0 ==> Finished(x, |x|) == []
    ensures |x| == 1 ==> Finished(x, |x|) == [x[0] / 4]
    ensures |x| == 2 ==> Finished(x, |x|) == [x[0] / 4, x[0] % 4 * 16 + x[1] / 16]
  {
    hide Group;
  }

  lemma LeftoverFew(x: seq<byte>)
    requires |x| < 3
    ensures Leftover(x) == if |x| == 0 then [] else if |x| == 1 then [x[0] % 4 * 16] else [x[1] % 16 * 4]
  {
  }

  lemma SextetsMore(x: seq<byte>)
    requires |x| >= 3
    ensures Sextets(x) == Group(x[0], x[1], x[2]) + Sextets(x[3..])
  {
    hide Group;
  }

  lemma {:induction false} FinishedEnd(x: seq<byte>)
    ensures Sextets(x) == Finished(x, |x|) + Leftover(x)
  {
    hide Finished, Group, Sextets;
    if |x| < 3 {
      FinishedEndFew(x);
    } else {
      var y := x[3..];
      FinishedEnd(y);
      FinishedMore(x, |x|);
      SextetsMore(x);
      assert |y| % 3 == |x| % 3;
      assert |x| % 3 != 0 ==> y[|y| - 1] == x[|x| - 1];
    }
  }

  /** The bits not yet written are still in the accumulator, whatever has wrapped out of it. */
  ghost predicate Carries(x: seq<byte>, i: nat, val: nat, bits: int)
    requires i <= |x|
  {
    && bits == -6 + 2 * (i % 3)
    && (i % 3 == 1 ==> val % 4 == x[i - 1] % 4)
    && (i % 3 == 2 ==> val % 16 == x[i - 1] % 16)
  }

  /** A remainder by d keeps the remainder by any factor of d. */
  lemma ModMod(n: nat, e: nat, f: nat)
    requires e > 0 && f > 0
    ensures n % (e * f) % e == n % e
  {
    var d := e * f;
    assert n == d * (n / d) + n % d;
    assert d * (n / d) == e * (f * (n / d));
    var m := n % d;
    assert m == e * (m / e) + m % e;
    Div(e, f * (n / d) + m / e, m % e);
    assert e * (f * (n / d) + m / e) == e * (f * (n / d)) + e * (m / e);
  }

  lemma FirstSymbol(v: nat, a: nat, b: nat, p: byte)
    requires v == 4096 * a + 256 * b + p
    ensures v / 4 % 64 == p / 4 && v % 4 == p % 4
  {
    Div(4, 64 * (16 * a + b) + p / 4, p % 4);
    Div(64, 16 * a + b, p / 4);
  }

  lemma SecondSymbol(v: nat, a: nat, b: nat, p: byte)
    requires v == 4096 * a + 256 * b + p
    ensures v / 16 % 64 == b % 4 * 16 + p / 16 && v % 16 == p % 16
  {
    Div(16, 64 * (4 * a + b / 4) + (b % 4 * 16 + p / 16), p % 16);
    Div(64, 4 * a + b / 4, b % 4 * 16 + p / 16);
  }

  lemma ThirdSymbol(v: nat, a: nat, b: nat, p: byte)
    requires v == 4096 * a + 256 * b + p && b < 16
    ensures v / 64 % 64 == b * 4 + p / 64 && v % 64 == p % 64
  {
    Div(64, 64 * a + (b * 4 + p / 64), p % 64);
    Div(64, a, b * 4 + p / 64);
  }

  lemma FirstByte(v: nat, a: nat, b: nat, c: sextet)
    requires v == 4096 * a + 64 * b + c && b < 64
    ensures v / 16 % 256 == First(b, c) && v % 16 == c % 16
  {
    Div(16, 256 * a + (b * 4 + c / 16), c % 16);
    Div(256, a, b * 4 + c / 16);
  }

  lemma SecondByte(v: nat, a: nat, b: nat, c: sextet)
    requires v == 4096 * a + 64 * b + c
    ensures v / 4 % 256 == Second(b, c) && v % 4 == c % 4
  {
    Div(4, 256 * (4 * a + b / 16) + (b % 16 * 16 + c / 4), c % 4);
    Div(256, 4 * a + b / 16, b % 16 * 16 + c / 4);
  }

  lemma ThirdByte(v: nat, a: nat, b: nat, c: sextet)
    requires v == 4096 * a + 64 * b + c
    ensures v % 256 == Third(b, c) && v % 64 == c
  {
    Div(256, 16 * a + b / 4, b % 4 * 64 + c);
    Div(64, 64 * a + b, c);
  }

  /** Only the accumulator modulo 4096 is ever read; wrapping does not touch that. */
  lemma Shifted(before: nat, shift: nat, low: nat, p: nat) returns (a: nat)
    requires (shift == 256 && low == 16) || (shift == 64 && low == 64)
    requires p < shift
    ensures Wrap(before * shift + p) == 4096 * a + shift * (before % low) + p
  {
    var n := before * shift + p;
    var q := n / 0x1_0000_0000;
    assert before == low * (before / low) + before % low;
    assert n == 4096 * (before / low) + shift * (before % low) + p;
    var d := before / low - 0x10_0000 * q;
    assert Wrap(n) == 4096 * d + shift * (before % low) + p;
    a := d;
  }

  lemma SymbolsAppend(a: seq<sextet>, b: seq<sextet>)
    ensures Symbols(a + b) == Symbols(a) + Symbols(b)
  {
  }

  /** What the accumulator shows after one more byte. */
  lemma EncodeShows(x: seq<byte>, i: nat, before: nat, bits: int)
    requires i < |x| && Carries(x, i, before, bits)
    ensures var v := Wrap(before * 256 + x[i]);
            && (i % 3 == 0 ==> Low6(v, 2) == x[i] / 4 && v % 4 == x[i] % 4)
            && (i % 3 == 1 ==> Low6(v, 4) == x[i - 1] % 4 * 16 + x[i] / 16 && v % 16 == x[i] % 16)
            && (i % 3 == 2 ==> Low6(v, 6) == x[i - 1] % 16 * 4 + x[i] / 64 && Low6(v, 0) == x[i] % 64)
  {
    SmallPowers();
    var v := Wrap(before * 256 + x[i]);
    var a := Shifted(before, 256, 16, x[i]);
    hide Wrap;
    var b := before % 16;
    ModMod(before, 4, 4);
    if i % 3 == 0 {
      FirstSymbol(v, a, b, x[i]);
    } else if i % 3 == 1 {
      SecondSymbol(v, a, b, x[i]);
    } else {
      ThirdSymbol(v, a, b, x[i]);
    }
  }

  /** The sextets one byte completes, read at shift `start` and, after a third byte, at shift 0. */
  function Completed(v: nat, start: nat): seq<sextet> {
    if start == 6 then [Low6(v, 6), Low6(v, 0)] else [Low6(v, start)]
  }

  lemma EncodeStep(x: seq<byte>, i: nat, before: nat, bits: int)
    requires i < |x| && Carries(x, i, before, bits)
    ensures bits + 8 in {2, 4, 6}
    ensures var v := Wrap(before * 256 + x[i]);
            && Finished(x, i + 1) == Finished(x, i) + Completed(v, bits + 8)
            && Carries(x, i + 1, v, if bits + 8 == 6 then -6 else bits + 2)
  {
    hide Wrap, Low6, Finished;
    FinishedStep(x, i);
    EncodeShows(x, i, before, bits);
    assert (i + 1) % 3 == if i % 3 == 2 then 0 else i % 3 + 1;
  }

  /** Finishing off: the last symbol of an incomplete group. */
  lemma EncodeRest(x: seq<byte>, val: nat, bits: int)
    requires Carries(x, |x|, val, bits)
    ensures -6 <= bits <= -2
    ensures Sextets(x) == Finished(x, |x|) + if bits > -6 then [Low6(Wrap(val * 256), bits + 8)] else []
  {
    hide Wrap, Sextets, Finished, Low6, Carries, Leftover;
    FinishedEnd(x);
    RestShows(x, val, bits);
  }

  lemma RestShows(x: seq<byte>, val: nat, bits: int)
    requires Carries(x, |x|, val, bits)
    ensures -6 <= bits <= -2
    ensures Leftover(x) == if bits > -6 then [Low6(Wrap(val * 256), bits + 8)] else []
  {
    hide Wrap, Low6;
    if |x| % 3 == 1 {
      FourBitsLeft(val, x[|x| - 1]);
    } else if |x| % 3 == 2 {
      TwoBitsLeft(val, x[|x| - 1]);
    }
  }

  lemma FourBitsLeft(val: nat, last: byte)
    requires val % 4 == last % 4
    ensures Low6(Wrap(val * 256), 4) == last % 4 * 16
  {
    SmallPowers();
    var a := Shifted(val, 256, 16, 0);
    ModMod(val, 4, 4);
    SecondSymbol(Wrap(val * 256), a, val % 16, 0);
  }

  lemma TwoBitsLeft(val: nat, last: byte)
    requires val % 16 == last % 16
    ensures Low6(Wrap(val * 256), 6) == last % 16 * 4
  {
    SmallPowers();
    var a := Shifted(val, 256, 16, 0);
    ThirdSymbol(Wrap(val * 256), a, val % 16, 0);
  }

  method Encode(x: seq<byte>) returns (out: string)
    ensures out == Rfc4648(x)
  {
    hide Low6, Wrap, Symbol, Finished, Carries, Sextets;
    out := "";
    var val: nat, bits: int := 0, -6;
    NothingFinished(x);
    for i := 0 to |x|
      invariant out == Symbols(Finished(x, i)) && Carries(x, i, val, bits)
    {
      EncodeStep(x, i, val, bits);
      val := Wrap(val * 256 + x[i]);
      bits := bits + 8;
      ghost var start, base := bits, out;
      SymbolsAppend(Finished(x, i), Completed(val, start));
      while bits >= 0
        invariant bits == start || (bits == start - 6 && out == base + Symbols([Low6(val, start)]))
               || (bits == -6 && start == 6 && out == base + Symbols(Completed(val, 6)))
        invariant bits == start ==> out == base
        decreases bits
      {
        out := out + [Symbol(Low6(val, bits))];
        bits := bits - 6;
      }
    }
    EncodeRest(x, val, bits);
    SymbolsAppend(Finished(x, |x|), if bits > -6 then [Low6(Wrap(val * 256), bits + 8)] else []);
    if bits > -6 {
      out := out + [Symbol(Low6(Wrap(val * 256), bits + 8))];
    }
    out := Pad(out);
  }

  lemma NothingFinished(x: seq<byte>)
    ensures Finished(x, 0) == [] && Symbols([]) == "" && Carries(x, 0, 0, -6)
  {
  }

  method Pad(s: string) returns (out: string)
    ensures out == Padded(s)
  {
    out := s;
    while |out| % 4 != 0
      invariant Padded(out) == Padded(s)
      decreases (4 - |out| % 4) % 4
    {
      out := out + "=";
    }
  }

  // ---- decoding ----

  lemma {:induction false} BytesStep(s: seq<sextet>, v: sextet)
    ensures Bytes(s + [v]) == Bytes(s) +
            if |s| % 4 == 0 then []
            else if |s| % 4 == 1 then [First(s[|s| - 1], v)]
            else if |s| % 4 == 2 then [Second(s[|s| - 1], v)]
            else [Third(s[|s| - 1], v)]
    decreases |s|
  {
    hide First, Second, Third;
    if |s| >= 4 {
      assert (s + [v])[4..] == s[4..] + [v];
      BytesStep(s[4..], v);
      assert (|s| - 4) % 4 == |s| % 4;
    }
  }

  ghost predicate Holds(s: seq<sextet>, val: nat, bits: int) {
    match |s| % 4
    case 0 => bits == -8
    case 1 => bits == -2 && val % 64 == s[|s| - 1]
    case 2 => bits == -4 && val % 16 == s[|s| - 1] % 16
    case _ => bits == -6 && val % 4 == s[|s| - 1] % 4
  }

  lemma DecodeShows(s: seq<sextet>, before: nat, bits: int, v: sextet)
    requires Holds(s, before, bits)
    ensures var val := Wrap(before * 64 + v);
            && (|s| % 4 == 0 ==> val % 64 == v)
            && (|s| % 4 == 1 ==> val % 16 == v % 16 && Low8(val, 4) == First(s[|s| - 1], v))
            && (|s| % 4 == 2 ==> val % 4 == v % 4 && Low8(val, 2) == Second(s[|s| - 1], v))
            && (|s| % 4 == 3 ==> Low8(val, 0) == Third(s[|s| - 1], v))
  {
    var val, b := Wrap(before * 64 + v), before % 64;
    var a := Shifted(before, 64, 64, v);
    Shows8(val);
    hide Wrap, First, Second, Third, Low8;
    if |s| % 4 == 1 {
      FirstByte(val, a, b, v);
    } else if |s| % 4 == 2 {
      SecondByte(val, a, b, v);
      SecondOnly(b, before, s[|s| - 1], v);
    } else {
      ThirdByte(val, a, b, v);
      if |s| % 4 == 3 {
        ThirdOnly(b, before, s[|s| - 1], v);
      }
    }
  }

  lemma Shows8(v: nat)
    ensures Low8(v, 4) == v / 16 % 256 && Low8(v, 2) == v / 4 % 256 && Low8(v, 0) == v % 256
  {
    SmallPowers();
  }

  lemma SecondOnly(b: int, before: nat, last: int, v: int)
    requires b == before % 64 && before % 16 == last % 16
    ensures Second(b, v) == Second(last, v)
  {
    ModMod(before, 16, 4);
  }

  lemma ThirdOnly(b: int, before: nat, last: int, v: int)
    requires b == before % 64 && before % 4 == last % 4
    ensures Third(b, v) == Third(last, v)
  {
    ModMod(before, 4, 16);
  }

  /** One more sextet: the byte it completes, if any, and what is left over. */
  lemma DecodeStep(s: seq<sextet>, before: nat, bits: int, v: sextet)
    requires Holds(s, before, bits)
    ensures var val := Wrap(before * 64 + v);
            if bits + 6 >= 0
            then Bytes(s + [v]) == Bytes(s) + [Low8(val, bits + 6)] && Holds(s + [v], val, bits - 2)
            else Bytes(s + [v]) == Bytes(s) && Holds(s + [v], val, bits + 6)
  {
    hide Bytes, Wrap, Low8, First, Second, Third;
    BytesStep(s, v);
    DecodeShows(s, before, bits, v);
    assert Bytes(s) + [] == Bytes(s);
    assert |s + [v]| % 4 == if |s| % 4 == 3 then 0 else |s| % 4 + 1;
  }

  method Decode(s: string) returns (out: seq<byte>)
    ensures out == Bytes(Readable(s))
  {
    hide Low8, Wrap, Value, Bytes, Holds;
    out := [];
    var val: nat, bits: int := 0, -8;
    ghost var read: seq<sextet> := [];
    NothingRead(s);
    EqualsIsUnreadable();
    for i := 0 to |s|
      invariant read + Readable(s[i..]) == Readable(s)
      invariant out == Bytes(read) && Holds(read, val, bits)
    {
      var c := s[i];
      assert s[i..][0] == c && s[i..][1..] == s[i + 1..];
      if c == '=' || Value(c) == -1 {
        assert read + [] == read;
        return;
      }
      var v: sextet := Value(c);
      DecodeStep(read, val, bits, v);
      val := Wrap(val * 64 + v);
      bits := bits + 6;
      if bits >= 0 {
        out := out + [Low8(val, bits)];
        bits := bits - 8;
      }
      assert read + ([v] + Readable(s[i + 1..])) == read + [v] + Readable(s[i + 1..]);
      read := read + [v];
    }
    assert read + [] == read;
  }

  lemma NothingRead(s: string)
    ensures Bytes([]) == [] && Holds([], 0, -8) && [] + Readable(s[0..]) == Readable(s)
  {
    assert s[0..] == s;
  }

  lemma EqualsIsUnreadable()
    ensures Value('=') == -1
  {
  }

  // ---- what the pair promises ----

  /** Table 1 of RFC 4648. */
  const ALPHABET: string :=
    "ABCDEFGHIJKLM" + "NOPQRSTUVWXYZ" + "abcdefghijklm" + "nopqrstuvwxyz" + "0123456789+/"

  lemma FirstLetters(v: sextet)
    requires v < 26
    ensures Symbol(v) == ALPHABET[v]
  {
    assert ALPHABET[v] == if v < 13 then "ABCDEFGHIJKLM"[v] else "NOPQRSTUVWXYZ"[v - 13];
  }

  lemma NextLetters(v: sextet)
    requires 26 <= v < 52
    ensures Symbol(v) == ALPHABET[v]
  {
    assert ALPHABET[v] == if v < 39 then "abcdefghijklm"[v - 26] else "nopqrstuvwxyz"[v - 39];
  }

  lemma LastSymbols(v: sextet)
    requires 52 <= v
    ensures Symbol(v) == ALPHABET[v]
  {
    assert ALPHABET[v] == "0123456789+/"[v - 52];
  }

  /** The symbols written are those of the standard alphabet, in its order. */
  lemma SymbolsOfTheStandard(v: sextet)
    ensures |ALPHABET| == 64 && Symbol(v) == ALPHABET[v]
  {
    hide Symbol;
    if v < 26 {
      FirstLetters(v);
    } else if v < 52 {
      NextLetters(v);
    } else {
      LastSymbols(v);
    }
  }

  /** And only these are read, besides the two of the URL-safe alphabet. */
  lemma OnlyAlphabetsAreRead(c: char)
    ensures Value(c) >= 0 ==> c == Symbol(Value(c)) || (c == '-' && Value(c) == 62) || (c == '_' && Value(c) == 63)
    ensures Value('-') == 62 && Value('_') == 63
  {
  }

  /** The test vectors of section 10 of RFC 4648: "f", "fo", "foo", "foob", "fooba" and "foobar". */
  lemma TestVectors()
    ensures Rfc4648([]) == "" && Rfc4648([102]) == "Zg==" && Rfc4648([102, 111]) == "Zm8="
    ensures Rfc4648([102, 111, 111]) == "Zm9v" && Rfc4648([102, 111, 111, 98]) == "Zm9vYg=="
    ensures Rfc4648([102, 111, 111, 98, 97]) == "Zm9vYmE=" && Rfc4648([102, 111, 111, 98, 97, 114]) == "Zm9vYmFy"
  {
    ShortVectors();
    LongVectors();
  }

  lemma ShortVectors()
    ensures Rfc4648([]) == "" && Rfc4648([102]) == "Zg==" && Rfc4648([102, 111]) == "Zm8="
  {
    assert Sextets([102]) == [25, 32] && Sextets([102, 111]) == [25, 38, 60];
    assert Symbols([25, 32]) == "Zg" && Symbols([25, 38, 60]) == "Zm8";
  }

  lemma Foo(tail: seq<byte>)
    ensures Sextets([102, 111, 111] + tail) == [25, 38, 61, 47] + Sextets(tail)
    ensures Symbols([25, 38, 61, 47]) == "Zm9v"
  {
    var x := [102, 111, 111] + tail;
    assert x[3..] == tail && Group(102, 111, 111) == [25, 38, 61, 47];
  }

  lemma Bar()
    ensures Sextets([]) == [] && Sextets([98]) == [24, 32] && Sextets([98, 97]) == [24, 38, 4]
    ensures Sextets([98, 97, 114]) == [24, 38, 5, 50]
    ensures Symbols([24, 32]) == "Yg" && Symbols([24, 38, 4]) == "YmE" && Symbols([24, 38, 5, 50]) == "YmFy"
  {
    assert [98, 97, 114][3..] == [];
  }

  lemma LongVectors()
    ensures Rfc4648([102, 111, 111]) == "Zm9v" && Rfc4648([102, 111, 111, 98]) == "Zm9vYg=="
    ensures Rfc4648([102, 111, 111, 98, 97]) == "Zm9vYmE=" && Rfc4648([102, 111, 111, 98, 97, 114]) == "Zm9vYmFy"
  {
    hide Symbols, Sextets;
    Foo([]);
    Foo([98]);
    Foo([98, 97]);
    Foo([98, 97, 114]);
    Bar();
    var foo: seq<sextet> := [25, 38, 61, 47];
    SymbolsAppend(foo, [24, 32]);
    SymbolsAppend(foo, [24, 38, 4]);
    SymbolsAppend(foo, [24, 38, 5, 50]);
    assert [102, 111, 111] + [] == [102, 111, 111] && foo + [] == foo;
    assert [102, 111, 111] + [98] == [102, 111, 111, 98];
    assert [102, 111, 111] + [98, 97] == [102, 111, 111, 98, 97];
    assert [102, 111, 111] + [98, 97, 114] == [102, 111, 111, 98, 97, 114];
  }

  lemma SymbolReadsBack(v: sextet)
    ensures Value(Symbol(v)) == v
  {
  }

  /** Unpacking a packed group gives the bytes back. */
  lemma {:induction false} BytesOfSextets(x: seq<byte>)
    ensures Bytes(Sextets(x)) == x
  {
    if |x| >= 3 {
      var s := Sextets(x);
      assert s[..4] == Group(x[0], x[1], x[2]) && s[4..] == Sextets(x[3..]);
      GroupBack(x[0], x[1], x[2]);
      BytesOfSextets(x[3..]);
      assert x == [x[0], x[1], x[2]] + x[3..];
    } else if |x| == 1 {
      assert x == [x[0]];
    } else if |x| == 2 {
      assert x == [x[0], x[1]];
    }
  }

  lemma GroupBack(p: byte, q: byte, r: byte)
    ensures var g := Group(p, q, r);
            First(g[0], g[1]) == p && Second(g[1], g[2]) == q && Third(g[2], g[3]) == r
  {
  }

  lemma {:induction false} ReadableSymbols(v: seq<sextet>, tail: string)
    requires tail == "" || Value(tail[0]) == -1
    ensures Readable(Symbols(v) + tail) == v
  {
    if v == [] {
      assert Symbols(v) + tail == tail;
    } else {
      SymbolReadsBack(v[0]);
      assert (Symbols(v) + tail)[1..] == Symbols(v[1..]) + tail;
      ReadableSymbols(v[1..], tail);
    }
  }

  /** decode(encode(x)) == x, for every byte string. */
  lemma RoundTrip(x: seq<byte>)
    ensures Bytes(Readable(Rfc4648(x))) == x
  {
    var v := Sextets(x);
    var tail := Padded(Symbols(v))[|Symbols(v)|..];
    assert Rfc4648(x) == Symbols(v) + tail;
    EqualsIsUnreadable();
    ReadableSymbols(v, tail);
    BytesOfSextets(x);
  }

  /** Section 5: the URL-safe alphabet replaces two symbols. */
  function UrlSafe(s: string): string {
    seq(|s|, i requires 0 <= i < |s| => if s[i] == '+' then '-' else if s[i] == '/' then '_' else s[i])
  }

  function Unpadded(s: string): string {
    if s != "" && s[|s| - 1] == '=' then Unpadded(s[..|s| - 1]) else s
  }

  lemma {:induction false} UrlSafeReadsTheSame(s: string)
    ensures Readable(UrlSafe(s)) == Readable(s)
  {
    if s != "" {
      assert UrlSafe(s)[1..] == UrlSafe(s[1..]);
      UrlSafeReadsTheSame(s[1..]);
    }
  }

  lemma {:induction false} DropPadReads(s: string)
    ensures Readable(s + "=") == Readable(s)
  {
    if s == "" {
      assert s + "=" == "=";
    } else {
      assert (s + "=")[1..] == s[1..] + "=";
      DropPadReads(s[1..]);
    }
  }

  lemma {:induction false} UnpaddedReadsTheSame(s: string)
    ensures Readable(Unpadded(s)) == Readable(s)
    decreases |s|
  {
    if s != "" && s[|s| - 1] == '=' {
      var t := s[..|s| - 1];
      assert s == t + "=";
      DropPadReads(t);
      UnpaddedReadsTheSame(t);
    }
  }

  /** Both spellings, padded or not, of the same bytes decode to them. */
  lemma AllSpellingsDecode(x: seq<byte>)
    ensures Bytes(Readable(UrlSafe(Rfc4648(x)))) == x
    ensures Bytes(Readable(Unpadded(Rfc4648(x)))) == x
    ensures Bytes(Readable(Unpadded(UrlSafe(Rfc4648(x))))) == x
  {
    RoundTrip(x);
    UrlSafeReadsTheSame(Rfc4648(x));
    UnpaddedReadsTheSame(Rfc4648(x));
    UnpaddedReadsTheSame(UrlSafe(Rfc4648(x)));
  }

  // ---- whatever is decoded ----

  /** The sextets with the bits that make up no whole byte cleared, or dropped if they are all of one sextet. */
  function WholeBytes(v: seq<sextet>): seq<sextet> {
    if |v| % 4 == 1 then v[..|v| - 1]
    else if |v| % 4 == 2 then v[|v| - 1 := v[|v| - 1] - v[|v| - 1] % 16]
    else if |v| % 4 == 3 then v[|v| - 1 := v[|v| - 1] - v[|v| - 1] % 4]
    else v
  }

  lemma FirstParts(a: sextet, b: sextet)
    ensures var f := First(a, b); 0 <= f < 256 && f / 4 == a && f % 4 == b / 16
  {
  }

  lemma SecondParts(b: sextet, c: sextet)
    ensures var s := Second(b, c); 0 <= s < 256 && s / 16 == b % 16 && s % 16 == c / 4
  {
  }

  lemma ThirdParts(c: sextet, d: sextet)
    ensures var t := Third(c, d); 0 <= t < 256 && t / 64 == c % 4 && t % 64 == d
  {
  }

  lemma GroupForth(a: sextet, b: sextet, c: sextet, d: sextet)
    ensures 0 <= First(a, b) < 256 && 0 <= Second(b, c) < 256 && 0 <= Third(c, d) < 256
    ensures Group(First(a, b), Second(b, c), Third(c, d)) == [a, b, c, d]
  {
    FirstParts(a, b);
    SecondParts(b, c);
    ThirdParts(c, d);
    hide First, Second, Third;
    Parts(b, c);
  }

  lemma Parts(b: sextet, c: sextet)
    ensures b / 16 * 16 + b % 16 == b && b / 16 * 16 == b - b % 16
    ensures c / 4 * 4 + c % 4 == c && c / 4 * 4 == c - c % 4
  {
  }

  lemma OneByteForth(a: sextet, b: sextet)
    ensures 0 <= First(a, b) < 256 && Sextets([First(a, b)]) == [a, b - b % 16]
  {
    FirstParts(a, b);
    Parts(b, 0);
    hide First, Sextets;
    SextetsFew([First(a, b)]);
  }

  lemma TwoBytesForth(a: sextet, b: sextet, c: sextet)
    ensures 0 <= First(a, b) < 256 && 0 <= Second(b, c) < 256
    ensures Sextets([First(a, b), Second(b, c)]) == [a, b, c - c % 4]
  {
    FirstParts(a, b);
    SecondParts(b, c);
    Parts(b, c);
    hide First, Second, Sextets;
    SextetsFew([First(a, b), Second(b, c)]);
  }

  lemma WholeFew(v: seq<sextet>)
    ensures |v| < 2 ==> |v| % 4 == |v| && WholeBytes(v) == []
    ensures |v| == 2 ==> WholeBytes(v) == [v[0], v[1] - v[1] % 16]
    ensures |v| == 3 ==> WholeBytes(v) == [v[0], v[1], v[2] - v[2] % 4]
  {
  }

  lemma BytesFew(v: seq<sextet>)
    ensures |v| < 2 ==> Bytes(v) == []
    ensures |v| == 2 ==> Bytes(v) == [First(v[0], v[1])]
    ensures |v| == 3 ==> Bytes(v) == [First(v[0], v[1]), Second(v[1], v[2])]
  {
    hide First, Second, Third;
  }

  lemma EncodingOfFew(v: seq<sextet>)
    requires |v| < 4
    ensures Sextets(Bytes(v)) == WholeBytes(v)
  {
    hide First, Second, Sextets, Bytes, WholeBytes;
    WholeFew(v);
    BytesFew(v);
    if |v| < 2 {
      SextetsFew([]);
    } else if |v| == 2 {
      OneByteForth(v[0], v[1]);
    } else {
      TwoBytesForth(v[0], v[1], v[2]);
    }
  }

  lemma WholeBytesBehind(front: seq<sextet>, tail: seq<sextet>)
    requires |front| == 4
    ensures WholeBytes(front + tail) == front + WholeBytes(tail)
  {
  }

  lemma BytesMore(v: seq<sextet>)
    requires |v| >= 4
    ensures Bytes(v) == [First(v[0], v[1]), Second(v[1], v[2]), Third(v[2], v[3])] + Bytes(v[4..])
  {
    hide First, Second, Third;
  }

  /** The bytes decoded are, for every text, those whose encoding is what was read, but for such bits. */
  lemma {:induction false} EncodingOfDecoded(v: seq<sextet>)
    ensures Sextets(Bytes(v)) == WholeBytes(v)
    decreases |v|
  {
    if |v| < 4 {
      EncodingOfFew(v);
    } else {
      hide Sextets, Bytes, WholeBytes, First, Second, Third, Group;
      GroupForth(v[0], v[1], v[2], v[3]);
      EncodingOfDecoded(v[4..]);
      BytesMore(v);
      var b := Bytes(v);
      assert b[3..] == Bytes(v[4..]);
      SextetsMore(b);
      assert v == [v[0], v[1], v[2], v[3]] + v[4..];
      WholeBytesBehind([v[0], v[1], v[2], v[3]], v[4..]);
    }
  }
}
