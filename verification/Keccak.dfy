/**
  Keccak-256 with the original padding (`core/src/segment_compat.hpp`): the permutation worked out in place
  on 25 lanes, and the sponge around it, against sections 3, 4 and 5.1 of FIPS 202.
*/
module Keccak {
  import opened Prelude

  type Lanes = s: seq<bv64> | |s| == 25 witness seq(25, i => 0)

  const RATE: nat := 136

  // ---- the permutation, as the standard composes it ----

  function Rotl(x: bv64, s: bv64): bv64
    requires s < 64
  {
    if s == 0 then x else (x << s) | (x >> (64 - s))
  }

  function Xor(a: bv64, b: bv64): bv64 {
    a ^ b
  }

  function Mix(a: bv64, b: bv64, c: bv64): bv64 {
    a ^ (!b & c)
  }

  const RC: seq<bv64> := [
    0x0000000000000001, 0x0000000000008082, 0x800000000000808a, 0x8000000080008000,
    0x000000000000808b, 0x0000000080000001, 0x8000000080008081, 0x8000000000008009,
    0x000000000000008a, 0x0000000000000088, 0x0000000080008009, 0x000000008000000a,
    0x000000008000808b, 0x800000000000008b, 0x8000000000008089, 0x8000000000008003,
    0x8000000000008002, 0x8000000000000080, 0x000000000000800a, 0x800000008000000a,
    0x8000000080008081, 0x8000000000008080, 0x0000000080000001, 0x8000000080008008]

  const OFFSETS: seq<bv64> := [
    0, 1, 62, 28, 27, 36, 44, 6, 55, 20, 3, 10, 43, 25, 39, 41, 45, 15, 21, 8, 18, 2, 61, 56, 14]

  function RoundConstant(round: nat): bv64
    requires round < 24
  {
    RC[round]
  }

  function Offset(i: nat): (r: bv64)
    requires i < 25
    ensures r < 64
  {
    OFFSETS[i]
  }

  /** The offset of a lane, as a number. */
  function Places(i: nat): nat
    requires i < 25
  {
    Offset(i) as nat
  }

  /** Lane (x, y) is at x + 5y. */
  function Column(s: Lanes, x: nat): bv64
    requires x < 5
  {
    Xor(Xor(Xor(Xor(s[x], s[x + 5]), s[x + 10]), s[x + 15]), s[x + 20])
  }

  function Spread(s: Lanes, x: nat): bv64
    requires x < 5
  {
    Xor(Column(s, (x + 4) % 5), Rotl(Column(s, (x + 1) % 5), 1))
  }

  function Theta(s: Lanes): Lanes {
    seq(25, i requires 0 <= i < 25 => Xor(s[i], Spread(s, i % 5)))
  }

  function Rho(s: Lanes): Lanes {
    seq(25, i requires 0 <= i < 25 => Rotl(s[i], Offset(i)))
  }

  /** The lane that the standard fetches to place `i`: (x, y) from ((x + 3y) mod 5, x). */
  function SourceX(i: nat): (x: nat)
    ensures x < 5
  {
    (i % 5 + 3 * (i / 5)) % 5
  }

  function Pi(s: Lanes): Lanes {
    seq(25, i requires 0 <= i < 25 => s[SourceX(i) + 5 * (i % 5)])
  }

  /** The lane `k` places further along the same row. */
  function Along(i: nat, k: nat): (j: nat)
    requires i < 25
    ensures j < 25
  {
    (i % 5 + k) % 5 + 5 * (i / 5)
  }

  function Chi(s: Lanes): Lanes {
    seq(25, i requires 0 <= i < 25 => Mix(s[i], s[Along(i, 1)], s[Along(i, 2)]))
  }

  function Iota(s: Lanes, round: nat): Lanes
    requires round < 24
  {
    s[0 := Xor(s[0], RoundConstant(round))]
  }

  function Round(s: Lanes, round: nat): Lanes
    requires round < 24
  {
    Iota(Chi(Pi(Rho(Theta(s)))), round)
  }

  /** The state after the first `n` rounds. */
  function Rounds(s: Lanes, n: nat): Lanes
    requires n <= 24
  {
    if n == 0 then s else Round(Rounds(s, n - 1), n - 1)
  }

  function Permute(s: Lanes): Lanes {
    Rounds(s, 24)
  }

  /** The path along which section 3.2.2 of FIPS 202 assigns the rotation offsets. */
  function Walk(t: nat): (nat, nat) {
    if t == 0 then (1, 0) else var (x, y) := Walk(t - 1); (y, (2 * x + 3 * y) % 5)
  }

  ghost predicate OffsetRule(t: nat, p: (nat, nat)) {
    p.0 < 5 && p.1 < 5 && Places(p.0 + 5 * p.1) == (t + 1) * (t + 2) / 2 % 64
  }

  lemma WalkStarts()
    ensures Walk(0) == (1, 0)
  {
  }

  /** From (x, y) the path goes on to (y, 2x + 3y). */
  lemma WalkStep(t: nat, x: nat, y: nat, z: nat)
    requires Walk(t) == (x, y) && z == (2 * x + 3 * y) % 5
    ensures Walk(t + 1) == (y, z)
  {
  }

  lemma Offsets1()
    ensures Offset(1) == 1 && Places(1) == 1
    ensures Offset(2) == 62 && Places(2) == 62
    ensures Offset(3) == 28 && Places(3) == 28
    ensures Offset(4) == 27 && Places(4) == 27
    ensures Offset(5) == 36 && Places(5) == 36
    ensures Offset(6) == 44 && Places(6) == 44
  {
  }

  lemma Offsets7()
    ensures Offset(7) == 6 && Places(7) == 6
    ensures Offset(8) == 55 && Places(8) == 55
    ensures Offset(9) == 20 && Places(9) == 20
    ensures Offset(10) == 3 && Places(10) == 3
    ensures Offset(11) == 10 && Places(11) == 10
    ensures Offset(12) == 43 && Places(12) == 43
  {
  }

  lemma Offsets13()
    ensures Offset(13) == 25 && Places(13) == 25
    ensures Offset(14) == 39 && Places(14) == 39
    ensures Offset(15) == 41 && Places(15) == 41
    ensures Offset(16) == 45 && Places(16) == 45
    ensures Offset(17) == 15 && Places(17) == 15
    ensures Offset(18) == 21 && Places(18) == 21
  {
  }

  lemma Offsets19()
    ensures Offset(19) == 8 && Places(19) == 8
    ensures Offset(20) == 18 && Places(20) == 18
    ensures Offset(21) == 2 && Places(21) == 2
    ensures Offset(22) == 61 && Places(22) == 61
    ensures Offset(23) == 56 && Places(23) == 56
    ensures Offset(24) == 14 && Places(24) == 14
  {
  }

  lemma FirstSteps()
    ensures Walk(0) == (1, 0) && Walk(1) == (0, 2) && Walk(2) == (2, 1) && Walk(3) == (1, 2)
    ensures Walk(4) == (2, 3) && Walk(5) == (3, 3) && Walk(6) == (3, 0) && Walk(7) == (0, 1)
  {
    hide Walk;
    WalkStarts();
    WalkStep(0, 1, 0, 2);
    WalkStep(1, 0, 2, 1);
    WalkStep(2, 2, 1, 2);
    WalkStep(3, 1, 2, 3);
    WalkStep(4, 2, 3, 3);
    WalkStep(5, 3, 3, 0);
    WalkStep(6, 3, 0, 1);
  }

  lemma OnPath0()
    ensures OffsetRule(0, (1, 0)) && OffsetRule(1, (0, 2))
    ensures OffsetRule(2, (2, 1)) && OffsetRule(3, (1, 2))
  {
    hide Places;
    Offsets1();
    Offsets7();
    Offsets13();
    Offsets19();
  }

  lemma OnPath4()
    ensures OffsetRule(4, (2, 3)) && OffsetRule(5, (3, 3))
    ensures OffsetRule(6, (3, 0)) && OffsetRule(7, (0, 1))
  {
    hide Places;
    Offsets1();
    Offsets7();
    Offsets13();
    Offsets19();
  }

  lemma SecondSteps()
    requires Walk(7) == (0, 1)
    ensures Walk(8) == (1, 3) && Walk(9) == (3, 1) && Walk(10) == (1, 4) && Walk(11) == (4, 4)
    ensures Walk(12) == (4, 0) && Walk(13) == (0, 3) && Walk(14) == (3, 4) && Walk(15) == (4, 3)
  {
    hide Walk;
    WalkStep(7, 0, 1, 3);
    WalkStep(8, 1, 3, 1);
    WalkStep(9, 3, 1, 4);
    WalkStep(10, 1, 4, 4);
    WalkStep(11, 4, 4, 0);
    WalkStep(12, 4, 0, 3);
    WalkStep(13, 0, 3, 4);
    WalkStep(14, 3, 4, 3);
  }

  lemma OnPath8()
    ensures OffsetRule(8, (1, 3)) && OffsetRule(9, (3, 1))
    ensures OffsetRule(10, (1, 4)) && OffsetRule(11, (4, 4))
  {
    hide Places;
    Offsets1();
    Offsets7();
    Offsets13();
    Offsets19();
  }

  lemma OnPath12()
    ensures OffsetRule(12, (4, 0)) && OffsetRule(13, (0, 3))
    ensures OffsetRule(14, (3, 4)) && OffsetRule(15, (4, 3))
  {
    hide Places;
    Offsets1();
    Offsets7();
    Offsets13();
    Offsets19();
  }

  lemma ThirdSteps()
    requires Walk(15) == (4, 3)
    ensures Walk(16) == (3, 2) && Walk(17) == (2, 2) && Walk(18) == (2, 0) && Walk(19) == (0, 4)
    ensures Walk(20) == (4, 2) && Walk(21) == (2, 4) && Walk(22) == (4, 1) && Walk(23) == (1, 1)
  {
    hide Walk;
    WalkStep(15, 4, 3, 2);
    WalkStep(16, 3, 2, 2);
    WalkStep(17, 2, 2, 0);
    WalkStep(18, 2, 0, 4);
    WalkStep(19, 0, 4, 2);
    WalkStep(20, 4, 2, 4);
    WalkStep(21, 2, 4, 1);
    WalkStep(22, 4, 1, 1);
  }

  lemma OnPath16()
    ensures OffsetRule(16, (3, 2)) && OffsetRule(17, (2, 2))
    ensures OffsetRule(18, (2, 0)) && OffsetRule(19, (0, 4))
  {
    hide Places;
    Offsets1();
    Offsets7();
    Offsets13();
    Offsets19();
  }

  lemma OnPath20()
    ensures OffsetRule(20, (4, 2)) && OffsetRule(21, (2, 4))
    ensures OffsetRule(22, (4, 1)) && OffsetRule(23, (1, 1))
  {
    hide Places;
    Offsets1();
    Offsets7();
    Offsets13();
    Offsets19();
  }

  lemma FirstThird(t: nat)
    requires t < 8
    ensures OffsetRule(t, Walk(t)) && Walk(7) == (0, 1)
  {
    hide Walk, OffsetRule;
    FirstSteps();
    OnPath0();
    OnPath4();
  }

  lemma SecondThird(t: nat)
    requires 8 <= t < 16 && Walk(7) == (0, 1)
    ensures OffsetRule(t, Walk(t)) && Walk(15) == (4, 3)
  {
    hide Walk, OffsetRule;
    SecondSteps();
    OnPath8();
    OnPath12();
  }

  lemma ThirdThird(t: nat)
    requires 16 <= t < 24 && Walk(15) == (4, 3)
    ensures OffsetRule(t, Walk(t))
  {
    hide Walk, OffsetRule;
    ThirdSteps();
    OnPath16();
    OnPath20();
  }

  /** The table of offsets is the one of the standard: (t + 1)(t + 2) / 2 for the t-th lane of the path. */
  lemma OffsetsFollowTheStandard(t: nat)
    requires t < 24
    ensures OffsetRule(t, Walk(t))
  {
    hide Walk, OffsetRule;
    FirstThird(if t < 8 then t else 0);
    SecondThird(if 8 <= t < 16 then t else 8);
    if t >= 16 {
      ThirdThird(t);
    }
  }

  // ---- the round constants ----

  /** One step of the shift register of Algorithm 5 in FIPS 202; bit i of the byte is R[i]. */
  function Shifted(r: bv8): bv8 {
    (r << 1) ^ (if r & 0x80 != 0 then 0x71 else 0)
  }

  function Register(t: nat): bv8 {
    if t == 0 then 1 else Shifted(Register(t - 1))
  }

  function Seven(r: bv8): bv8 {
    Shifted(Shifted(Shifted(Shifted(Shifted(Shifted(Shifted(r)))))))
  }

  function LowBit(r: bv8): bv64 {
    (r & 1) as bv64
  }

  /** Algorithm 6: bit 2^j - 1 of the constant is the low bit of the register j steps on. */
  function ConstantFrom(r: bv8): bv64 {
    var r1 := Shifted(r);
    var r2 := Shifted(r1);
    var r3 := Shifted(r2);
    var r4 := Shifted(r3);
    var r5 := Shifted(r4);
    var r6 := Shifted(r5);
    LowBit(r) | (LowBit(r1) << 1) | (LowBit(r2) << 3) | (LowBit(r3) << 7) |
    (LowBit(r4) << 15) | (LowBit(r5) << 31) | (LowBit(r6) << 63)
  }

  lemma RegisterStarts()
    ensures Register(0) == 1
  {
  }

  lemma RegisterStep(t: nat)
    ensures Register(t + 1) == Shifted(Register(t))
  {
  }

  lemma SevenSteps(t: nat)
    ensures Register(t + 7) == Seven(Register(t))
  {
    hide Register, Shifted;
    RegisterStep(t);
    RegisterStep(t + 1);
    RegisterStep(t + 2);
    RegisterStep(t + 3);
    RegisterStep(t + 4);
    RegisterStep(t + 5);
    RegisterStep(t + 6);
  }

  lemma FirstRegisters()
    ensures Register(0) == 0x01 && Register(7) == 0x80 && Register(14) == 0xd8 && Register(21) == 0x1a
    ensures Register(28) == 0xdf && Register(35) == 0x09 && Register(42) == 0x35 && Register(49) == 0x4f
    ensures Register(56) == 0xca
  {
    hide Register, Seven;
    RegisterStarts();
    FirstSevens();
    SevenSteps(0);
    SevenSteps(7);
    SevenSteps(14);
    SevenSteps(21);
    SevenSteps(28);
    SevenSteps(35);
    SevenSteps(42);
    SevenSteps(49);
  }

  lemma FirstSevens()
    ensures Seven(0x01) == 0x80 && Seven(0x80) == 0xd8 && Seven(0xd8) == 0x1a && Seven(0x1a) == 0xdf
    ensures Seven(0xdf) == 0x09 && Seven(0x09) == 0x35 && Seven(0x35) == 0x4f && Seven(0x4f) == 0xca
  {
  }

  lemma SecondRegisters()
    requires Register(56) == 0xca
    ensures Register(63) == 0x70 && Register(70) == 0x41 && Register(77) == 0xec && Register(84) == 0xd5
    ensures Register(91) == 0xcd && Register(98) == 0x63 && Register(105) == 0xab && Register(112) == 0xaa
  {
    hide Register, Seven;
    SecondSevens();
    SevenSteps(56);
    SevenSteps(63);
    SevenSteps(70);
    SevenSteps(77);
    SevenSteps(84);
    SevenSteps(91);
    SevenSteps(98);
    SevenSteps(105);
  }

  lemma SecondSevens()
    ensures Seven(0xca) == 0x70 && Seven(0x70) == 0x41 && Seven(0x41) == 0xec && Seven(0xec) == 0xd5
    ensures Seven(0xd5) == 0xcd && Seven(0xcd) == 0x63 && Seven(0x63) == 0xab && Seven(0xab) == 0xaa
  {
  }

  lemma ThirdRegisters()
    requires Register(112) == 0xaa
    ensures Register(119) == 0x2a && Register(126) == 0xf2 && Register(133) == 0xe8 && Register(140) == 0x37
    ensures Register(147) == 0x3e && Register(154) == 0x0b && Register(161) == 0x44
  {
    hide Register, Seven;
    ThirdSevens();
    SevenSteps(112);
    SevenSteps(119);
    SevenSteps(126);
    SevenSteps(133);
    SevenSteps(140);
    SevenSteps(147);
    SevenSteps(154);
  }

  lemma ThirdSevens()
    ensures Seven(0xaa) == 0x2a && Seven(0x2a) == 0xf2 && Seven(0xf2) == 0xe8 && Seven(0xe8) == 0x37
    ensures Seven(0x37) == 0x3e && Seven(0x3e) == 0x0b && Seven(0x0b) == 0x44
  {
  }

  lemma Table0()
    ensures RoundConstant(0) == 0x0000000000000001
    ensures RoundConstant(1) == 0x0000000000008082
    ensures RoundConstant(2) == 0x800000000000808a
    ensures RoundConstant(3) == 0x8000000080008000
  {
  }

  lemma Table4()
    ensures RoundConstant(4) == 0x000000000000808b
    ensures RoundConstant(5) == 0x0000000080000001
    ensures RoundConstant(6) == 0x8000000080008081
    ensures RoundConstant(7) == 0x8000000000008009
  {
  }

  lemma FirstConstants()
    ensures ConstantFrom(0x01) == 0x0000000000000001 && ConstantFrom(0x80) == 0x0000000000008082
    ensures ConstantFrom(0xd8) == 0x800000000000808a && ConstantFrom(0x1a) == 0x8000000080008000
    ensures ConstantFrom(0xdf) == 0x000000000000808b && ConstantFrom(0x09) == 0x0000000080000001
    ensures ConstantFrom(0x35) == 0x8000000080008081 && ConstantFrom(0x4f) == 0x8000000000008009
  {
  }

  lemma Table8()
    ensures RoundConstant(8) == 0x000000000000008a
    ensures RoundConstant(9) == 0x0000000000000088
    ensures RoundConstant(10) == 0x0000000080008009
    ensures RoundConstant(11) == 0x000000008000000a
  {
  }

  lemma Table12()
    ensures RoundConstant(12) == 0x000000008000808b
    ensures RoundConstant(13) == 0x800000000000008b
    ensures RoundConstant(14) == 0x8000000000008089
    ensures RoundConstant(15) == 0x8000000000008003
  {
  }

  lemma SecondConstants()
    ensures ConstantFrom(0xca) == 0x000000000000008a && ConstantFrom(0x70) == 0x0000000000000088
    ensures ConstantFrom(0x41) == 0x0000000080008009 && ConstantFrom(0xec) == 0x000000008000000a
    ensures ConstantFrom(0xd5) == 0x000000008000808b && ConstantFrom(0xcd) == 0x800000000000008b
    ensures ConstantFrom(0x63) == 0x8000000000008089 && ConstantFrom(0xab) == 0x8000000000008003
  {
  }

  lemma Table16()
    ensures RoundConstant(16) == 0x8000000000008002
    ensures RoundConstant(17) == 0x8000000000000080
    ensures RoundConstant(18) == 0x000000000000800a
    ensures RoundConstant(19) == 0x800000008000000a
  {
  }

  lemma Table20()
    ensures RoundConstant(20) == 0x8000000080008081
    ensures RoundConstant(21) == 0x8000000000008080
    ensures RoundConstant(22) == 0x0000000080000001
    ensures RoundConstant(23) == 0x8000000080008008
  {
  }

  lemma ThirdConstants()
    ensures ConstantFrom(0xaa) == 0x8000000000008002 && ConstantFrom(0x2a) == 0x8000000000000080
    ensures ConstantFrom(0xf2) == 0x000000000000800a && ConstantFrom(0xe8) == 0x800000008000000a
    ensures ConstantFrom(0x37) == 0x8000000080008081 && ConstantFrom(0x3e) == 0x8000000000008080
    ensures ConstantFrom(0x0b) == 0x0000000080000001 && ConstantFrom(0x44) == 0x8000000080008008
  {
  }

  ghost predicate ConstantRule(round: nat) {
    round < 24 && RoundConstant(round) == ConstantFrom(Register(7 * round))
  }

  lemma FirstRule()
    ensures ConstantRule(0) && ConstantRule(1) && ConstantRule(2) && ConstantRule(3)
    ensures ConstantRule(4) && ConstantRule(5) && ConstantRule(6) && ConstantRule(7)
    ensures Register(56) == 0xca
  {
    hide Register, RoundConstant, ConstantFrom;
    FirstRegisters();
    FirstConstants();
    Table0();
    Table4();
  }

  lemma SecondRule()
    requires Register(56) == 0xca
    ensures ConstantRule(8) && ConstantRule(9) && ConstantRule(10) && ConstantRule(11)
    ensures ConstantRule(12) && ConstantRule(13) && ConstantRule(14) && ConstantRule(15)
    ensures Register(112) == 0xaa
  {
    hide Register, RoundConstant, ConstantFrom;
    SecondRegisters();
    SecondConstants();
    Table8();
    Table12();
  }

  lemma ThirdRule()
    requires Register(112) == 0xaa
    ensures ConstantRule(16) && ConstantRule(17) && ConstantRule(18) && ConstantRule(19)
    ensures ConstantRule(20) && ConstantRule(21) && ConstantRule(22) && ConstantRule(23)
  {
    hide Register, RoundConstant, ConstantFrom;
    ThirdRegisters();
    ThirdConstants();
    Table16();
    Table20();
  }

  /** The table of round constants is the one of the standard: round i reads the register after 7i steps. */
  lemma RoundConstantsFollowTheStandard(round: nat)
    requires round < 24
    ensures ConstantRule(round)
  {
    hide ConstantRule, Register;
    FirstRule();
    SecondRule();
    ThirdRule();
  }

  // ---- the permutation, in place ----

  method ThetaInPlace(st: array<bv64>)
    requires st.Length == 25
    modifies st
    ensures st[..] == Theta(old(st[..]))
  {
    hide Rotl, Xor, Spread, Theta;
    ghost var s: Lanes := st[..];
    var d := Spreads(st);
    for i := 0 to 25
      invariant forall k :: 0 <= k < 5 ==> d[k] == Spread(s, k)
      invariant forall k :: 0 <= k < i ==> st[k] == Xor(s[k], Spread(s, k % 5))
      invariant forall k :: i <= k < 25 ==> st[k] == s[k]
    {
      st[i] := Xor(st[i], d[i % 5]);
    }
    forall i | 0 <= i < 25 ensures st[i] == Theta(s)[i] {
      ThetaAt(s, i);
    }
    assert st[..] == Theta(s);
  }

  lemma ThetaAt(s: Lanes, i: nat)
    requires i < 25
    ensures Theta(s)[i] == Xor(s[i], Spread(s, i % 5))
  {
    hide Xor, Spread;
  }

  method Columns(st: array<bv64>) returns (c: array<bv64>)
    requires st.Length == 25
    ensures fresh(c) && c.Length == 5 && forall k :: 0 <= k < 5 ==> c[k] == Column(st[..], k)
  {
    hide Xor, Column;
    ghost var s: Lanes := st[..];
    c := new bv64[5];
    for x := 0 to 5
      invariant st[..] == s
      invariant forall k :: 0 <= k < x ==> c[k] == Column(s, k)
    {
      ColumnAt(s, x);
      c[x] := Xor(Xor(Xor(Xor(st[x], st[x + 5]), st[x + 10]), st[x + 15]), st[x + 20]);
    }
  }

  lemma ColumnAt(s: Lanes, x: nat)
    requires x < 5
    ensures Column(s, x) == Xor(Xor(Xor(Xor(s[x], s[x + 5]), s[x + 10]), s[x + 15]), s[x + 20])
  {
    hide Xor;
  }

  method Spreads(st: array<bv64>) returns (d: array<bv64>)
    requires st.Length == 25
    ensures fresh(d) && d.Length == 5 && forall k :: 0 <= k < 5 ==> d[k] == Spread(st[..], k)
  {
    hide Rotl, Xor, Column;
    ghost var s: Lanes := st[..];
    var c := Columns(st);
    d := new bv64[5];
    for x := 0 to 5
      invariant st[..] == s
      invariant forall k :: 0 <= k < 5 ==> c[k] == Column(s, k)
      invariant forall k :: 0 <= k < x ==> d[k] == Spread(s, k)
    {
      d[x] := Xor(c[(x + 4) % 5], Rotl(c[(x + 1) % 5], 1));
    }
  }

  /** Scattering lane (x, y) to place y + 5((2x + 3y) mod 5) is what fetching undoes. */
  lemma ScatterIsFetch(x: nat, y: nat)
    requires x < 5 && y < 5
    ensures var t := y + 5 * ((2 * x + 3 * y) % 5); t < 25 && t % 5 == y && SourceX(t) == x
  {
    var n := 2 * x + 3 * y;
    var z := n % 5;
    Div(5, z, y);
    assert y + 3 * z == 5 * (x + 2 * y - 3 * (n / 5)) + x;
    Div(5, x + 2 * y - 3 * (n / 5), x);
  }

  /** The row of a place can be told from its column and the column its lane is fetched from. */
  lemma FetchIsScatter(t: nat)
    requires t < 25
    ensures t == t % 5 + 5 * ((2 * SourceX(t) + 3 * (t % 5)) % 5)
  {
    var y, p := t % 5, t / 5;
    var n := y + 3 * p;
    assert 2 * (n % 5) + 3 * y == 5 * (y + p - 2 * (n / 5)) + p;
    Div(5, y + p - 2 * (n / 5), p);
  }

  lemma FetchedOnce(t: nat, u: nat)
    requires t < 25 && u < 25 && SourceX(t) == SourceX(u) && t % 5 == u % 5
    ensures t == u
  {
    hide SourceX;
    FetchIsScatter(t);
    FetchIsScatter(u);
  }

  lemma PiRhoAt(s: Lanes, t: nat, x: nat, y: nat)
    requires t < 25 && x < 5 && y < 5 && SourceX(t) == x && t % 5 == y
    ensures Pi(Rho(s))[t] == Rotl(s[x + 5 * y], Offset(x + 5 * y))
  {
    hide Rotl, Offset, SourceX;
  }

  method RhoPiInto(st: array<bv64>, b: array<bv64>)
    requires st.Length == 25 && b.Length == 25 && st != b
    modifies b
    ensures b[..] == Pi(Rho(st[..]))
  {
    hide Rotl, Offset, SourceX, Pi, Rho;
    ghost var s: Lanes := st[..];
    for x: nat := 0 to 5
      invariant st[..] == s
      invariant forall t: nat :: t < 25 && SourceX(t) < x ==> b[t] == Pi(Rho(s))[t]
    {
      for y: nat := 0 to 5
        invariant st[..] == s
        invariant forall t: nat ::
                    t < 25 && (SourceX(t) < x || (SourceX(t) == x && t % 5 < y)) ==> b[t] == Pi(Rho(s))[t]
      {
        ScatterIsFetch(x, y);
        PiRhoAt(s, y + 5 * ((2 * x + 3 * y) % 5), x, y);
        forall t: nat | t < 25 && SourceX(t) == x && t % 5 == y ensures t == y + 5 * ((2 * x + 3 * y) % 5) {
          FetchedOnce(t, y + 5 * ((2 * x + 3 * y) % 5));
        }
        b[y + 5 * ((2 * x + 3 * y) % 5)] := Rotl(st[x + 5 * y], Offset(x + 5 * y));
      }
    }
    assert b[..] == Pi(Rho(s));
  }

  lemma RowAndColumn(x: nat, y: nat)
    requires x < 5 && y < 5
    ensures (x + 5 * y) % 5 == x && (x + 5 * y) / 5 == y
  {
    Div(5, y, x);
    assert x + 5 * y == 5 * y + x;
  }

  lemma ChiAt(s: Lanes, x: nat, y: nat)
    requires x < 5 && y < 5
    ensures Chi(s)[x + 5 * y] == Mix(s[x + 5 * y], s[(x + 1) % 5 + 5 * y], s[(x + 2) % 5 + 5 * y])
  {
    hide Mix;
    RowAndColumn(x, y);
    assert Along(x + 5 * y, 1) == (x + 1) % 5 + 5 * y;
    assert Along(x + 5 * y, 2) == (x + 2) % 5 + 5 * y;
    hide Along;
  }

  method ChiFrom(b: array<bv64>, st: array<bv64>)
    requires st.Length == 25 && b.Length == 25 && st != b
    modifies st
    ensures st[..] == Chi(b[..])
  {
    hide Chi, Mix;
    ghost var s: Lanes := b[..];
    for x: nat := 0 to 5
      invariant b[..] == s
      invariant forall i :: 0 <= i < 25 && i % 5 < x ==> st[i] == Chi(s)[i]
    {
      for y: nat := 0 to 5
        invariant b[..] == s
        invariant forall i :: 0 <= i < 25 && (i % 5 < x || (i % 5 == x && i / 5 < y)) ==> st[i] == Chi(s)[i]
      {
        ChiAt(s, x, y);
        RowAndColumn(x, y);
        st[x + 5 * y] := Mix(b[x + 5 * y], b[(x + 1) % 5 + 5 * y], b[(x + 2) % 5 + 5 * y]);
      }
    }
    assert st[..] == Chi(s);
  }

  method KeccakF(st: array<bv64>)
    requires st.Length == 25
    modifies st
    ensures st[..] == Permute(old(st[..]))
  {
    hide Theta, Rho, Pi, Chi, Xor, RoundConstant;
    ghost var s: Lanes := st[..];
    for round := 0 to 24
      invariant st[..] == Rounds(s, round)
    {
      ThetaInPlace(st);
      var b := new bv64[25];
      RhoPiInto(st, b);
      ChiFrom(b, st);
      ghost var mixed: Lanes := st[..];
      st[0] := Xor(st[0], RoundConstant(round));
      assert st[..] == Iota(mixed, round);
    }
  }

  // ---- the sponge ----

  /** Eight times `b`, as the amount of a shift. */
  function Shift(b: nat): (s: bv64)
    requires b < 8
    ensures s <= 56
  {
    [0, 8, 16, 24, 32, 40, 48, 56][b]
  }

  /** Byte `x` at place `b` of a lane, which is little-endian. */
  function Up(x: bv8, b: nat): bv64
    requires b < 8
  {
    (x as bv64) << Shift(b)
  }

  function Or(v: bv64, w: bv64): bv64 {
    v | w
  }

  /** The first `b` bytes of lane `i` of a block. */
  function LanePart(blk: seq<bv8>, i: nat, b: nat): bv64
    requires b <= 8 && 8 * i + b <= |blk|
  {
    if b == 0 then 0 else Or(LanePart(blk, i, b - 1), Up(blk[8 * i + b - 1], b - 1))
  }

  function XorBlock(st: Lanes, blk: seq<bv8>): Lanes
    requires |blk| == RATE
  {
    seq(25, i requires 0 <= i < 25 => if i < 17 then Xor(st[i], LanePart(blk, i, 8)) else st[i])
  }

  /** Byte `k` of a lane. */
  function ByteOf(lane: bv64, k: nat): bv8
    requires k < 8
  {
    ((lane >> Shift(k)) & 0xff) as bv8
  }

  lemma NextBlock(n: nat)
    requires n > 0 && n % RATE == 0
    ensures n >= RATE && (n - RATE) % RATE == 0
  {
    assert n == RATE * (n / RATE);
    Div(RATE, n / RATE - 1, 0);
  }

  /** Absorbing a message of whole blocks. */
  function AbsorbAll(st: Lanes, m: seq<bv8>): Lanes
    requires |m| % RATE == 0
    decreases |m|
  {
    if m == [] then st
    else
      NextBlock(|m|);
      AbsorbAll(Permute(XorBlock(st, m[..RATE])), m[RATE..])
  }

  function Zeros(n: nat): (z: seq<bv8>)
    ensures |z| == n && forall i :: 0 <= i < n ==> z[i] == 0
  {
    if n == 0 then [] else Zeros(n - 1) + [0]
  }

  /** pad10*1 behind the one-bit suffix: 0x01 ... 0x80, or 0x81 when a single byte is missing. */
  function Padding(n: nat): (p: seq<bv8>)
    ensures |p| == RATE - n % RATE
  {
    if n % RATE == RATE - 1 then [0x81] else [0x01] + Zeros(RATE - 2 - n % RATE) + [0x80]
  }

  function Padded(m: seq<bv8>): (p: seq<bv8>)
    ensures |p| % RATE == 0
  {
    WholeBlocks(|m|);
    m + Padding(|m|)
  }

  lemma WholeBlocks(n: nat)
    ensures (n + RATE - n % RATE) % RATE == 0
  {
    assert n == RATE * (n / RATE) + n % RATE;
    Div(RATE, n / RATE + 1, 0);
  }

  function ZeroLanes(): Lanes {
    seq(25, i => 0)
  }

  function Squeeze(st: Lanes): seq<bv8> {
    seq(32, i requires 0 <= i < 32 => ByteOf(st[i / 8], i % 8))
  }

  /** Keccak-256 as a sponge over the padded message. */
  function Digest(m: seq<bv8>): seq<bv8> {
    Squeeze(AbsorbAll(ZeroLanes(), Padded(m)))
  }

  // ---- the sponge, in place ----

  /** The `absorb` lambda. */
  method Absorb(st: array<bv64>, blk: seq<bv8>)
    requires st.Length == 25 && |blk| == RATE
    modifies st
    ensures st[..] == Permute(XorBlock(old(st[..]), blk))
  {
    hide Permute, Xor, Or, Up;
    ghost var s: Lanes := st[..];
    for i: nat := 0 to RATE / 8
      invariant forall k :: 0 <= k < i ==> st[k] == Xor(s[k], LanePart(blk, k, 8))
      invariant forall k :: i <= k < 25 ==> st[k] == s[k]
    {
      var w: bv64 := 0;
      for b: nat := 0 to 8
        invariant w == LanePart(blk, i, b)
      {
        w := Or(w, Up(blk[i * 8 + b], b));
      }
      st[i] := Xor(st[i], w);
    }
    hide LanePart;
    assert st[..] == XorBlock(s, blk);
    KeccakF(st);
  }

  function XorByte(a: bv8, b: bv8): bv8 {
    a ^ b
  }

  lemma PaddingBytes()
    ensures XorByte(0, 0x01) == 0x01 && XorByte(0, 0x80) == 0x80 && XorByte(0x01, 0x80) == 0x81
  {
  }

  /** The last block: the remaining bytes, padded in place. */
  method LastBlock(tail: seq<bv8>) returns (last: seq<bv8>)
    requires |tail| < RATE
    ensures last == tail + Padding(|tail|)
  {
    hide XorByte, Zeros, Padding;
    PaddingBytes();
    var a := new bv8[RATE](i => 0);
    for i := 0 to |tail|
      invariant forall k :: 0 <= k < i ==> a[k] == tail[k]
      invariant forall k :: i <= k < RATE ==> a[k] == 0
    {
      a[i] := tail[i];
    }
    a[|tail|] := XorByte(a[|tail|], 0x01);
    a[RATE - 1] := XorByte(a[RATE - 1], 0x80);
    last := a[..];
    PaddedBlock(tail, last);
  }

  /** The block that ends in the padding, byte by byte. */
  lemma PaddedBlock(tail: seq<bv8>, last: seq<bv8>)
    requires |tail| < RATE == |last| && last[..|tail|] == tail
    requires last[|tail|] == if |tail| == RATE - 1 then 0x81 else 0x01
    requires |tail| < RATE - 1 ==> last[RATE - 1] == 0x80
    requires forall k :: |tail| < k < RATE - 1 ==> last[k] == 0
    ensures last == tail + Padding(|tail|)
  {
    assert |tail| % RATE == |tail|;
  }

  lemma PaddingRepeats(n: nat)
    requires n >= RATE
    ensures Padding(n) == Padding(n - RATE)
  {
    assert n - RATE == RATE * (n / RATE - 1) + n % RATE;
    Div(RATE, n / RATE - 1, n % RATE);
  }

  lemma AbsorbPadded(st: Lanes, m: seq<bv8>)
    ensures AbsorbAll(st, Padded(m)) ==
            if |m| >= RATE then AbsorbAll(Permute(XorBlock(st, m[..RATE])), Padded(m[RATE..]))
            else Permute(XorBlock(st, m + Padding(|m|)))
  {
    hide Permute, XorBlock, Padding;
    var p := Padded(m);
    NextBlock(|p|);
    if |m| >= RATE {
      PaddingRepeats(|m|);
      assert p[..RATE] == m[..RATE] && p[RATE..] == Padded(m[RATE..]);
    } else {
      assert p[..RATE] == p && p[RATE..] == [];
    }
  }

  method Keccak256(input: seq<bv8>) returns (out: seq<bv8>)
    ensures out == Digest(input)
  {
    hide Permute, XorBlock, Padding, Padded, AbsorbAll, ByteOf;
    var st := new bv64[25](i => 0);
    assert st[..] == ZeroLanes();
    var pos := 0;
    assert input[0..] == input;
    while |input| - pos >= RATE
      invariant 0 <= pos <= |input|
      invariant AbsorbAll(st[..], Padded(input[pos..])) == AbsorbAll(ZeroLanes(), Padded(input))
    {
      AbsorbPadded(st[..], input[pos..]);
      assert input[pos..][..RATE] == input[pos..pos + RATE] && input[pos..][RATE..] == input[pos + RATE..];
      Absorb(st, input[pos..pos + RATE]);
      pos := pos + RATE;
    }
    AbsorbPadded(st[..], input[pos..]);
    var last := LastBlock(input[pos..]);
    Absorb(st, last);
    ghost var final: Lanes := st[..];
    out := [];
    for i := 0 to 32
      invariant st[..] == final && out == Squeeze(final)[..i]
    {
      out := out + [ByteOf(st[i / 8], i % 8)];
    }
  }

  // ---- the padding is injective ----

  /** Where the padding starts can be read off the padded message. */
  lemma PaddingMark(m: seq<bv8>, k: nat)
    requires |m| <= k < |Padded(m)|
    ensures Padded(m)[k] ==
            if |m| == |Padded(m)| - 1 then 0x81
            else if k == |m| then 0x01 else if k == |Padded(m)| - 1 then 0x80 else 0
  {
    hide Zeros;
  }

  lemma NotShorter(a: seq<bv8>, b: seq<bv8>)
    requires Padded(a) == Padded(b)
    ensures |a| >= |b|
  {
    hide Padding, Padded;
    if |a| < |b| {
      PaddingLengths(a);
      PaddingLengths(b);
      PaddingMark(a, |b|);
      PaddingMark(b, |b|);
    }
  }

  lemma PaddingLengths(m: seq<bv8>)
    ensures |m| < |Padded(m)| && Padded(m)[..|m|] == m
  {
  }

  /** Different messages are padded differently, so the sponge tells them apart block by block. */
  lemma PaddingIsInjective(a: seq<bv8>, b: seq<bv8>)
    requires Padded(a) == Padded(b)
    ensures a == b
  {
    NotShorter(a, b);
    NotShorter(b, a);
    PaddingLengths(a);
    PaddingLengths(b);
  }
}
