/**
  The step mappings of Keccak and the order of its bytes, bit by bit, as sections 3.2 and B.1 of FIPS 202 state
  them: the functions of `Keccak` do to every bit what the standard asks.
*/
module KeccakBits {
  import opened Prelude
  import opened Keccak

  /** The lane turned by one place towards its lowest bit. */
  function Right(lane: bv64): bv64 {
    (lane >> 1) | (lane << 63)
  }

  predicate Low(lane: bv64) {
    lane & 1 != 0
  }

  /** Bit z of a lane; places are counted modulo 64. */
  predicate Bit(lane: bv64, z: nat)
    decreases z
  {
    if z == 0 then Low(lane) else Bit(Right(lane), z - 1)
  }

  predicate ByteBit(b: bv8, j: nat)
    decreases j
  {
    if j == 0 then b & 1 != 0 else ByteBit(b >> 1, j - 1)
  }

  function Turns(lane: bv64, n: nat): bv64
    decreases n
  {
    if n == 0 then lane else Turns(Right(lane), n - 1)
  }

  lemma {:induction false} BitTurned(lane: bv64, z: nat, n: nat)
    ensures Bit(lane, z + n) == Bit(Turns(lane, n), z)
    decreases n
  {
    hide Right, Low;
    if n > 0 {
      assert z + n - 1 == z + (n - 1);
      BitTurned(Right(lane), z, n - 1);
    }
  }

  lemma {:induction false} TurnsAdd(lane: bv64, m: nat, n: nat)
    ensures Turns(Turns(lane, m), n) == Turns(lane, m + n)
    decreases m
  {
    hide Right;
    if m > 0 {
      TurnsAdd(Right(lane), m - 1, n);
    }
  }

  // ---- single words ----

  lemma XorWord(a: bv64, b: bv64)
    ensures Right(Xor(a, b)) == Xor(Right(a), Right(b)) && Low(Xor(a, b)) == (Low(a) != Low(b))
  {
  }

  lemma {:induction false} XorBit(a: bv64, b: bv64, z: nat)
    ensures Bit(Xor(a, b), z) == (Bit(a, z) != Bit(b, z))
    decreases z
  {
    hide Xor, Right, Low;
    XorWord(a, b);
    if z > 0 {
      XorBit(Right(a), Right(b), z - 1);
    }
  }

  lemma MixWord(a: bv64, b: bv64, c: bv64)
    ensures Right(Mix(a, b, c)) == Mix(Right(a), Right(b), Right(c))
    ensures Low(Mix(a, b, c)) == (Low(a) != (!Low(b) && Low(c)))
  {
  }

  lemma {:induction false} MixBit(a: bv64, b: bv64, c: bv64, z: nat)
    ensures Bit(Mix(a, b, c), z) == (Bit(a, z) != (!Bit(b, z) && Bit(c, z)))
    decreases z
  {
    hide Mix, Right, Low;
    MixWord(a, b, c);
    if z > 0 {
      MixBit(Right(a), Right(b), Right(c), z - 1);
    }
  }

  lemma OrWord(a: bv64, b: bv64)
    ensures Right(Or(a, b)) == Or(Right(a), Right(b)) && Low(Or(a, b)) == (Low(a) || Low(b))
  {
  }

  lemma {:induction false} OrBit(a: bv64, b: bv64, z: nat)
    ensures Bit(Or(a, b), z) == (Bit(a, z) || Bit(b, z))
    decreases z
  {
    hide Or, Right, Low;
    OrWord(a, b);
    if z > 0 {
      OrBit(Right(a), Right(b), z - 1);
    }
  }

  // ---- rotation ----

  /** Eight turns at once. */
  function Eight(lane: bv64): bv64 {
    (lane >> 8) | (lane << 56)
  }

  function Eights(lane: bv64, k: nat): bv64
    decreases k
  {
    if k == 0 then lane else Eights(Eight(lane), k - 1)
  }

  lemma EightIs(lane: bv64)
    ensures Turns(lane, 8) == Eight(lane) && Turns(lane, 0) == lane
  {
  }

  lemma {:induction false} TurnsOfEight(lane: bv64, k: nat)
    ensures Turns(lane, 8 * k) == Eights(lane, k)
    decreases k
  {
    hide Turns, Eight;
    EightIs(lane);
    if k > 0 {
      TurnsAdd(lane, 8, 8 * (k - 1));
      TurnsOfEight(Eight(lane), k - 1);
    }
  }

  lemma InEights(lane: bv64, k: nat, r: nat)
    ensures Turns(lane, 8 * k + r) == Turns(Eights(lane, k), r)
  {
    hide Turns, Eights;
    TurnsOfEight(lane, k);
    TurnsAdd(lane, 8 * k, r);
  }

  lemma Turned1(x: bv64)
    ensures Turns(Eights(Rotl(x, 1), 0), 1) == x
  {
    assert Rotl(x, 1) == (x << 1) | (x >> 63);
  }

  lemma Shifts62(x: bv64)
    ensures Turns(Eights((x << 62) | (x >> 2), 7), 6) == x
  {
  }

  lemma Turned62(x: bv64)
    ensures Turns(Eights(Rotl(x, 62), 7), 6) == x
  {
    hide Turns, Eights;
    Shifts62(x);
    assert Rotl(x, 62) == (x << 62) | (x >> 2);
  }

  lemma Turned28(x: bv64)
    ensures Turns(Eights(Rotl(x, 28), 3), 4) == x
  {
    assert Rotl(x, 28) == (x << 28) | (x >> 36);
  }

  lemma Turned27(x: bv64)
    ensures Turns(Eights(Rotl(x, 27), 3), 3) == x
  {
    assert Rotl(x, 27) == (x << 27) | (x >> 37);
  }

  lemma Turned36(x: bv64)
    ensures Turns(Eights(Rotl(x, 36), 4), 4) == x
  {
    assert Rotl(x, 36) == (x << 36) | (x >> 28);
  }

  lemma Turned44(x: bv64)
    ensures Turns(Eights(Rotl(x, 44), 5), 4) == x
  {
    assert Rotl(x, 44) == (x << 44) | (x >> 20);
  }

  lemma Turned6(x: bv64)
    ensures Turns(Eights(Rotl(x, 6), 0), 6) == x
  {
    assert Rotl(x, 6) == (x << 6) | (x >> 58);
  }

  lemma Shifts55(x: bv64)
    ensures Turns(Eights((x << 55) | (x >> 9), 6), 7) == x
  {
  }

  lemma Turned55(x: bv64)
    ensures Turns(Eights(Rotl(x, 55), 6), 7) == x
  {
    hide Turns, Eights;
    Shifts55(x);
    assert Rotl(x, 55) == (x << 55) | (x >> 9);
  }

  lemma Turned20(x: bv64)
    ensures Turns(Eights(Rotl(x, 20), 2), 4) == x
  {
    assert Rotl(x, 20) == (x << 20) | (x >> 44);
  }

  lemma Turned3(x: bv64)
    ensures Turns(Eights(Rotl(x, 3), 0), 3) == x
  {
    assert Rotl(x, 3) == (x << 3) | (x >> 61);
  }

  lemma Turned10(x: bv64)
    ensures Turns(Eights(Rotl(x, 10), 1), 2) == x
  {
    assert Rotl(x, 10) == (x << 10) | (x >> 54);
  }

  lemma Shifts43(x: bv64)
    ensures Turns(Eights((x << 43) | (x >> 21), 5), 3) == x
  {
  }

  lemma Turned43(x: bv64)
    ensures Turns(Eights(Rotl(x, 43), 5), 3) == x
  {
    hide Turns, Eights;
    Shifts43(x);
    assert Rotl(x, 43) == (x << 43) | (x >> 21);
  }

  lemma Turned25(x: bv64)
    ensures Turns(Eights(Rotl(x, 25), 3), 1) == x
  {
    assert Rotl(x, 25) == (x << 25) | (x >> 39);
  }

  lemma Turned39(x: bv64)
    ensures Turns(Eights(Rotl(x, 39), 4), 7) == x
  {
    assert Rotl(x, 39) == (x << 39) | (x >> 25);
  }

  lemma Turned41(x: bv64)
    ensures Turns(Eights(Rotl(x, 41), 5), 1) == x
  {
    assert Rotl(x, 41) == (x << 41) | (x >> 23);
  }

  lemma Turned45(x: bv64)
    ensures Turns(Eights(Rotl(x, 45), 5), 5) == x
  {
    assert Rotl(x, 45) == (x << 45) | (x >> 19);
  }

  lemma Turned15(x: bv64)
    ensures Turns(Eights(Rotl(x, 15), 1), 7) == x
  {
    assert Rotl(x, 15) == (x << 15) | (x >> 49);
  }

  lemma Turned21(x: bv64)
    ensures Turns(Eights(Rotl(x, 21), 2), 5) == x
  {
    assert Rotl(x, 21) == (x << 21) | (x >> 43);
  }

  lemma Turned8(x: bv64)
    ensures Turns(Eights(Rotl(x, 8), 1), 0) == x
  {
    assert Rotl(x, 8) == (x << 8) | (x >> 56);
  }

  lemma Turned18(x: bv64)
    ensures Turns(Eights(Rotl(x, 18), 2), 2) == x
  {
    assert Rotl(x, 18) == (x << 18) | (x >> 46);
  }

  lemma Turned2(x: bv64)
    ensures Turns(Eights(Rotl(x, 2), 0), 2) == x
  {
    assert Rotl(x, 2) == (x << 2) | (x >> 62);
  }

  lemma Shifts61(x: bv64)
    ensures Turns(Eights((x << 61) | (x >> 3), 7), 5) == x
  {
  }

  lemma Turned61(x: bv64)
    ensures Turns(Eights(Rotl(x, 61), 7), 5) == x
  {
    hide Turns, Eights;
    Shifts61(x);
    assert Rotl(x, 61) == (x << 61) | (x >> 3);
  }

  lemma Turned56(x: bv64)
    ensures Turns(Eights(Rotl(x, 56), 7), 0) == x
  {
    assert Rotl(x, 56) == (x << 56) | (x >> 8);
  }

  lemma Turned14(x: bv64)
    ensures Turns(Eights(Rotl(x, 14), 1), 6) == x
  {
    assert Rotl(x, 14) == (x << 14) | (x >> 50);
  }

  lemma NotTurned(x: bv64)
    ensures Offset(0) == 0 && Places(0) == 0 && Rotl(x, 0) == x && Turns(x, 0) == x
  {
  }

  /** Turning a lane back by its offset undoes the rotation. */
  lemma TurnedByOffset(x: bv64, i: nat)
    requires i < 25
    ensures Turns(Rotl(x, Offset(i)), Places(i)) == x
  {
    hide Rotl, Turns, Eights, Offset, Places;
    Offsets1();
    Offsets7();
    Offsets13();
    Offsets19();
    match i
    case 0 => NotTurned(x);
    case 1 => Turned1(x); InEights(Rotl(x, 1), 0, 1);
    case 2 => Turned62(x); InEights(Rotl(x, 62), 7, 6);
    case 3 => Turned28(x); InEights(Rotl(x, 28), 3, 4);
    case 4 => Turned27(x); InEights(Rotl(x, 27), 3, 3);
    case 5 => Turned36(x); InEights(Rotl(x, 36), 4, 4);
    case 6 => Turned44(x); InEights(Rotl(x, 44), 5, 4);
    case 7 => Turned6(x); InEights(Rotl(x, 6), 0, 6);
    case 8 => Turned55(x); InEights(Rotl(x, 55), 6, 7);
    case 9 => Turned20(x); InEights(Rotl(x, 20), 2, 4);
    case 10 => Turned3(x); InEights(Rotl(x, 3), 0, 3);
    case 11 => Turned10(x); InEights(Rotl(x, 10), 1, 2);
    case 12 => Turned43(x); InEights(Rotl(x, 43), 5, 3);
    case 13 => Turned25(x); InEights(Rotl(x, 25), 3, 1);
    case 14 => Turned39(x); InEights(Rotl(x, 39), 4, 7);
    case 15 => Turned41(x); InEights(Rotl(x, 41), 5, 1);
    case 16 => Turned45(x); InEights(Rotl(x, 45), 5, 5);
    case 17 => Turned15(x); InEights(Rotl(x, 15), 1, 7);
    case 18 => Turned21(x); InEights(Rotl(x, 21), 2, 5);
    case 19 => Turned8(x); InEights(Rotl(x, 8), 1, 0);
    case 20 => Turned18(x); InEights(Rotl(x, 18), 2, 2);
    case 21 => Turned2(x); InEights(Rotl(x, 2), 0, 2);
    case 22 => Turned61(x); InEights(Rotl(x, 61), 7, 5);
    case 23 => Turned56(x); InEights(Rotl(x, 56), 7, 0);
    case 24 => Turned14(x); InEights(Rotl(x, 14), 1, 6);
  }

  lemma RotlBit(x: bv64, i: nat, z: nat)
    requires i < 25
    ensures Bit(Rotl(x, Offset(i)), z + Places(i)) == Bit(x, z)
  {
    hide Rotl, Bit, Turns, Offset, Places;
    BitTurned(Rotl(x, Offset(i)), z, Places(i));
    TurnedByOffset(x, i);
  }

  /** Places are counted modulo 64. */
  lemma PlacesWrap(lane: bv64, z: nat)
    ensures Bit(lane, z + 64) == Bit(lane, z)
  {
    hide Bit, Turns;
    BitTurned(lane, z, 64);
    TurnsOfEight(lane, 8);
    AllTheWay(lane);
  }

  lemma AllTheWay(lane: bv64)
    ensures Eights(lane, 8) == lane
  {
  }

  // ---- the step mappings ----

  /** The parity of column x at place z: section 3.2.1. */
  predicate Parity(s: Lanes, x: nat, z: nat)
    requires x < 5
  {
    Bit(s[x], z) != (Bit(s[x + 5], z) != (Bit(s[x + 10], z) != (Bit(s[x + 15], z) != Bit(s[x + 20], z))))
  }

  lemma ColumnBit(s: Lanes, x: nat, z: nat)
    requires x < 5
    ensures Bit(Column(s, x), z) == Parity(s, x, z)
  {
    hide Bit, Xor;
    var a := Xor(s[x], s[x + 5]);
    var b := Xor(a, s[x + 10]);
    var c := Xor(b, s[x + 15]);
    XorBit(s[x], s[x + 5], z);
    XorBit(a, s[x + 10], z);
    XorBit(b, s[x + 15], z);
    XorBit(c, s[x + 20], z);
  }

  /** Theta flips a bit by the parities of the column before it and, one place further down, of the one after it. */
  lemma ThetaBits(s: Lanes, x: nat, y: nat, z: nat)
    requires x < 5 && y < 5
    ensures Bit(Theta(s)[x + 5 * y], z + 1) ==
            (Bit(s[x + 5 * y], z + 1) != (Parity(s, (x + 4) % 5, z + 1) != Parity(s, (x + 1) % 5, z)))
  {
    hide Bit, Xor, Rotl, Column, Parity, Theta, Offset, Places;
    RowAndColumn(x, y);
    ThetaAt(s, x + 5 * y);
    XorBit(s[x + 5 * y], Spread(s, x), z + 1);
    var before, after := Column(s, (x + 4) % 5), Column(s, (x + 1) % 5);
    XorBit(before, Rotl(after, 1), z + 1);
    RotlBit(after, 1, z);
    Offsets1();
    ColumnBit(s, (x + 4) % 5, z + 1);
    ColumnBit(s, (x + 1) % 5, z);
  }

  /** Rho moves every bit by the offset of its lane: section 3.2.2. */
  lemma RhoBits(s: Lanes, i: nat, z: nat)
    requires i < 25
    ensures Bit(Rho(s)[i], z + Places(i)) == Bit(s[i], z)
  {
    hide Bit, Rotl, Offset, Places;
    RotlBit(s[i], i, z);
  }

  /** Pi fetches lane (x, y) from (x + 3y, x): section 3.2.3. */
  lemma PiLanes(s: Lanes, x: nat, y: nat)
    requires x < 5 && y < 5
    ensures Pi(s)[x + 5 * y] == s[(x + 3 * y) % 5 + 5 * x]
  {
    RowAndColumn(x, y);
  }

  /** Chi flips a bit iff the next one in its row is 0 and the one after that is 1: section 3.2.4. */
  lemma ChiBits(s: Lanes, x: nat, y: nat, z: nat)
    requires x < 5 && y < 5
    ensures Bit(Chi(s)[x + 5 * y], z) ==
            (Bit(s[x + 5 * y], z) != (!Bit(s[(x + 1) % 5 + 5 * y], z) && Bit(s[(x + 2) % 5 + 5 * y], z)))
  {
    hide Bit, Mix, Chi;
    ChiAt(s, x, y);
    MixBit(s[x + 5 * y], s[(x + 1) % 5 + 5 * y], s[(x + 2) % 5 + 5 * y], z);
  }

  /** Iota flips the bits of the round constant in lane (0, 0) and no others: section 3.2.5. */
  lemma IotaBits(s: Lanes, round: nat, i: nat, z: nat)
    requires round < 24 && i < 25
    ensures Bit(Iota(s, round)[i], z) == (Bit(s[i], z) != (i == 0 && Bit(RoundConstant(round), z)))
  {
    hide Bit, Xor, RoundConstant;
    XorBit(s[0], RoundConstant(round), z);
  }

  /** Iota comes last: nothing spreads out of the state of zeros but the constant of the round. */
  lemma RoundOfZeros(round: nat)
    requires round < 24
    ensures Round(ZeroLanes(), round) == ZeroLanes()[0 := RoundConstant(round)]
  {
    hide RoundConstant, Theta, Rho, Pi, Chi, Xor;
    ThetaOfZeros();
    RhoOfZeros();
    PiChiOfZeros();
    XorZero(RoundConstant(round));
  }

  lemma ThetaOfZeros()
    ensures Theta(ZeroLanes()) == ZeroLanes()
  {
    XorZero(0);
    ZeroTurned(1);
    hide Xor, Rotl;
  }

  lemma RhoOfZeros()
    ensures Rho(ZeroLanes()) == ZeroLanes()
  {
    hide Rotl, Offset;
    forall i: nat | i < 25 ensures Rho(ZeroLanes())[i] == 0 {
      ZeroTurned(Offset(i));
    }
  }

  lemma PiChiOfZeros()
    ensures Pi(ZeroLanes()) == ZeroLanes() && Chi(ZeroLanes()) == ZeroLanes()
  {
    MixZero();
    hide Mix;
  }

  lemma XorZero(c: bv64)
    ensures Xor(0, c) == c
  {
  }

  lemma MixZero()
    ensures Mix(0, 0, 0) == 0
  {
  }

  lemma ZeroTurned(s: bv64)
    requires s < 64
    ensures Rotl(0, s) == 0
  {
  }

  /** Keccak-f[1600] has 12 + 2 * 6 rounds, and the rate leaves a capacity of twice the length of the digest. */
  lemma Sizes(s: Lanes, m: seq<bv8>)
    ensures Permute(s) == Rounds(s, 12 + 2 * 6)
    ensures 8 * RATE == 1600 - 2 * 256 && 8 * |Digest(m)| == 256
  {
    hide Rounds;
  }

  // ---- bytes and lanes ----

  function Lowest(lane: bv64): bv8 {
    (lane & 0xff) as bv8
  }

  /** The lowest bits of a lane are those of its lowest byte. */
  lemma LowestBits(lane: bv64, j: nat)
    requires j < 8
    ensures Bit(lane, j) == ByteBit(Lowest(lane), j)
  {
    if j == 0 {
    } else if j == 1 {
    } else if j == 2 {
    } else if j == 3 {
    } else if j == 4 {
    } else if j == 5 {
    } else if j == 6 {
    } else {
    }
  }

  lemma LowestByte(lane: bv64)
    ensures ByteOf(lane, 0) == Lowest(lane)
  {
  }

  lemma ByteBelow(lane: bv64, k: nat)
    requires k < 3
    ensures ByteOf(lane, k + 1) == ByteOf(Eight(lane), k)
  {
    if k == 0 {
    } else if k == 1 {
    } else {
    }
  }

  lemma ByteAbove(lane: bv64, k: nat)
    requires 3 <= k < 7
    ensures ByteOf(lane, k + 1) == ByteOf(Eight(lane), k)
  {
    if k == 3 {
    } else if k == 4 {
    } else if k == 5 {
    } else {
    }
  }

  lemma {:induction false} ByteOfIs(lane: bv64, k: nat)
    requires k < 8
    ensures ByteOf(lane, k) == Lowest(Eights(lane, k))
    decreases k
  {
    hide ByteOf, Lowest, Eight;
    if k == 0 {
      LowestByte(lane);
    } else {
      if k <= 3 {
        ByteBelow(lane, k - 1);
      } else {
        ByteAbove(lane, k - 1);
      }
      ByteOfIs(Eight(lane), k - 1);
    }
  }

  /** Byte k of a lane holds its bits 8k to 8k + 7. */
  lemma ByteOfBit(lane: bv64, k: nat, j: nat)
    requires k < 8 && j < 8
    ensures ByteBit(ByteOf(lane, k), j) == Bit(lane, 8 * k + j)
  {
    hide Bit, ByteBit, ByteOf, Eights, Lowest, Turns;
    ByteOfIs(lane, k);
    LowestBits(Eights(lane, k), j);
    TurnsOfEight(lane, k);
    BitTurned(lane, j, 8 * k);
  }

  lemma UpEight(x: bv8, b: nat)
    requires b < 8
    ensures Eight(Up(x, b)) == Up(x, if b == 0 then 7 else b - 1)
  {
    if b == 0 {
    } else if b == 1 {
    } else if b == 2 {
    } else if b == 3 {
    } else if b == 4 {
    } else if b == 5 {
    } else if b == 6 {
    } else {
    }
  }

  lemma {:induction false} UpEights(x: bv8, b: nat, k: nat)
    requires b < 8 && k < 8
    ensures Eights(Up(x, b), k) == Up(x, if k <= b then b - k else b + 8 - k)
    decreases k
  {
    hide Up, Eight;
    if k > 0 {
      UpEight(x, b);
      UpEights(x, if b == 0 then 7 else b - 1, k - 1);
    }
  }

  lemma LowestOfUp(x: bv8, b: nat)
    requires b < 8
    ensures Lowest(Up(x, b)) == if b == 0 then x else 0
  {
    if b == 0 {
    } else if b == 1 {
    } else if b == 2 {
    } else if b == 3 {
    } else if b == 4 {
    } else if b == 5 {
    } else if b == 6 {
    } else {
    }
  }

  lemma {:induction false} NoByteBit(j: nat)
    ensures !ByteBit(0, j)
    decreases j
  {
    if j > 0 {
      NoByteBit(j - 1);
      assert (0 as bv8) >> 1 == 0;
    }
  }

  /** A byte shifted up shows at its own place and nowhere else. */
  lemma UpBit(x: bv8, b: nat, k: nat, j: nat)
    requires b < 8 && k < 8 && j < 8
    ensures Bit(Up(x, b), 8 * k + j) == (k == b && ByteBit(x, j))
  {
    hide Bit, ByteBit, Up, Eights, Lowest, Turns;
    BitTurned(Up(x, b), j, 8 * k);
    TurnsOfEight(Up(x, b), k);
    UpEights(x, b, k);
    var c := if k <= b then b - k else b + 8 - k;
    LowestBits(Up(x, c), j);
    LowestOfUp(x, c);
    NoByteBit(j);
  }

  lemma {:induction false} LanePartBit(blk: seq<bv8>, i: nat, b: nat, k: nat, j: nat)
    requires b <= 8 && 8 * i + 8 <= |blk| && k < 8 && j < 8
    ensures Bit(LanePart(blk, i, b), 8 * k + j) == (k < b && ByteBit(blk[8 * i + k], j))
    decreases b
  {
    hide Bit, ByteBit, Up, Or;
    if b == 0 {
      NoBit(8 * k + j);
    } else {
      LanePartBit(blk, i, b - 1, k, j);
      UpBit(blk[8 * i + b - 1], b - 1, k, j);
      OrBit(LanePart(blk, i, b - 1), Up(blk[8 * i + b - 1], b - 1), 8 * k + j);
    }
  }

  lemma {:induction false} NoBit(z: nat)
    ensures !Bit(0, z)
    decreases z
  {
    if z > 0 {
      NoBit(z - 1);
      assert Right(0) == 0;
    }
  }

  /** A block flips the bits of the first 17 lanes, byte k of a lane holding its bits 8k to 8k + 7. */
  lemma AbsorbBits(s: Lanes, blk: seq<bv8>, i: nat, k: nat, j: nat)
    requires |blk| == RATE && i < 25 && k < 8 && j < 8
    ensures Bit(XorBlock(s, blk)[i], 8 * k + j) ==
            (Bit(s[i], 8 * k + j) != (i < 17 && ByteBit(blk[8 * i + k], j)))
  {
    hide Bit, ByteBit, Xor, LanePart;
    if i < 17 {
      LanePartBit(blk, i, 8, k, j);
      XorBit(s[i], LanePart(blk, i, 8), 8 * k + j);
    }
  }

  /** The digest is read off the first four lanes in the same order. */
  lemma SqueezeBits(s: Lanes, i: nat, k: nat, j: nat)
    requires i < 4 && k < 8 && j < 8
    ensures ByteBit(Squeeze(s)[8 * i + k], j) == Bit(s[i], 8 * k + j)
  {
    hide Bit, ByteBit, ByteOf;
    Div(8, i, k);
    ByteOfBit(s[i], k, j);
  }
}
