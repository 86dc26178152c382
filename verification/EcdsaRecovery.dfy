/**
  ECDSA public-key recovery, low-S signatures and the two-signature enrolment
  (`core/src/loam_identity.hpp`, `core/src/loam_core_impl.cpp`), after section 4.1 of SEC 1.
*/
module EcdsaRecovery {
  import opened Prelude
  import opened ModArith

  /**
    A curve group of prime order n. Every point is k times the generator for one k below n, and stands for
    that k here; 0 is the point at infinity. `x` and `odd` give the x coordinate and the parity of the y
    coordinate, `inv` the inverse modulo n. The curve arithmetic itself is the library's.
  */
  datatype Curve = Curve(n: nat, inv: nat -> nat, x: nat -> nat, odd: nat -> bool)

  ghost predicate IsCurve(c: Curve) {
    && c.n > 2
    && (forall a :: 1 <= a < c.n ==> 1 <= c.inv(a) < c.n && Cong(c.inv(a) * a, 1, c.n))
    // a point and its negation share x and differ in the parity of y; no other point has that x
    && (forall k :: 1 <= k < c.n ==> c.x(c.n - k) == c.x(k) && c.odd(c.n - k) != c.odd(k))
    && (forall j, k :: 1 <= j < c.n && 1 <= k < c.n && c.x(j) == c.x(k) ==> j == k || j == c.n - k)
  }

  lemma InverseFact(c: Curve, a: nat)
    requires IsCurve(c) && 1 <= a < c.n
    ensures 1 <= c.inv(a) < c.n && Cong(c.inv(a) * a, 1, c.n)
  {
  }

  // ---- recovery ----

  ghost predicate Decodes(c: Curve, x: nat, odd: bool, k: nat) {
    1 <= k < c.n && c.x(k) == x && c.odd(k) == odd
  }

  /** Decompressing a point: the one with this x and parity, if there is one. */
  ghost function PointAt(c: Curve, x: nat, odd: bool): Option<nat> {
    if exists k :: Decodes(c, x, odd, k) then
      var k :| Decodes(c, x, odd, k);
      Some(k)
    else None
  }

  /** (-e / r) G + (s / r) R, for the residue r of an x coordinate. */
  ghost function KeyFrom(c: Curve, e: nat, r: nat, s: nat, point: nat): nat
    requires IsCurve(c)
  {
    var rinv := c.inv(r % c.n);
    var sr, er := s * rinv % c.n, e * rinv % c.n;
    ((c.n - er) % c.n + sr * point) % c.n
  }

  /**
    `ecdsaRecover` after parsing: recovery id v (0..3, or with the offset 27), r and s, digest e. The point
    at infinity has no compressed form of 33 bytes. An r that is a multiple of n has no inverse, and what the
    library makes of a missing one is not modelled.
  */
  ghost function Recover(c: Curve, e: nat, r: nat, s: nat, recoveryId: nat): Option<nat>
    requires IsCurve(c)
  {
    var v := if recoveryId >= 27 then recoveryId - 27 else recoveryId;
    if v > 3 || r % c.n == 0 then None
    else
      var point := PointAt(c, if v >= 2 then r + c.n else r, v % 2 == 1);
      if point.None? then None
      else
        var q := KeyFrom(c, e, r, s, point.value);
        if q == 0 then None else Some(q)
  }

  /** `recoverCandidates`: the keys for recovery ids 0 and 1. */
  ghost function Candidates(c: Curve, e: nat, r: nat, s: nat): seq<nat>
    requires IsCurve(c)
  {
    var q0, q1 := Recover(c, e, r, s, 0), Recover(c, e, r, s, 1);
    (if q0.Some? then [q0.value] else []) + (if q1.Some? then [q1.value] else [])
  }

  // ---- signing and verifying, as the standard has them ----

  /** (r, s) is the signature of digest e by key d with nonce k. */
  ghost predicate IsSignature(c: Curve, d: nat, k: nat, e: nat, r: nat, s: nat)
    requires IsCurve(c)
  {
    && 1 <= d < c.n && 1 <= k < c.n
    && r == c.x(k) % c.n && 1 <= r < c.n
    && s == c.inv(k) * (e + r * d) % c.n && 1 <= s < c.n
  }

  ghost predicate Verifies(c: Curve, q: nat, e: nat, r: nat, s: nat)
    requires IsCurve(c)
  {
    && 1 <= r < c.n && 1 <= s < c.n
    && var u := (e * c.inv(s) + r * c.inv(s) * q) % c.n;
       u != 0 && c.x(u) % c.n == r
  }

  /**
    The low-S step of `ecdsaSignLowS` and `compact64LowS`. Nothing checks that s is below the order; for a greater
    one the difference is negative, and what is written out is its absolute value.
  */
  function LowS(n: nat, s: nat): nat {
    if s <= n / 2 then s else if s <= n then n - s else s - n
  }

  // ---- what recovery computes ----

  lemma PointIsUnique(c: Curve, k: nat)
    requires IsCurve(c) && 1 <= k < c.n
    ensures PointAt(c, c.x(k), c.odd(k)) == Some(k)
  {
    assert Decodes(c, c.x(k), c.odd(k), k);
  }

  /** The key recovered through a point R is the one q with r q = s R - e. */
  lemma KeyEquation(c: Curve, e: nat, r: nat, s: nat, point: nat)
    requires IsCurve(c) && 1 <= r < c.n
    ensures KeyFrom(c, e, r, s, point) < c.n
    ensures Cong(r * KeyFrom(c, e, r, s, point), s * point - e, c.n)
  {
    hide Cong, IsCurve, KeyFrom;
    var n, ri := c.n, c.inv(r);
    var q, t := KeyFrom(c, e, r, s, point), s * point - e;
    KeySum(c, e, r, s, point);
    CongScale(q, -(e * ri) + point * (s * ri), r, n);
    RegroupKey(r, ri, e, s, point);
    InverseFact(c, r);
    CongScale(ri * r, 1, t, n);
    CongTrans(r * q, t * (ri * r), t, n);
  }

  /** The sum that recovery computes, with 1 / r multiplied out. */
  lemma KeySum(c: Curve, e: nat, r: nat, s: nat, point: nat)
    requires IsCurve(c) && 1 <= r < c.n
    ensures KeyFrom(c, e, r, s, point) < c.n
    ensures Cong(KeyFrom(c, e, r, s, point), -(e * c.inv(r)) + point * (s * c.inv(r)), c.n)
  {
    hide Cong, IsCurve;
    var n, ri := c.n, c.inv(r);
    assert r % n == r;
    var sr, er := s * ri % n, e * ri % n;
    var sum := (n - er) % n + sr * point;
    CongMod(s * ri, n);
    CongScale(sr, s * ri, point, n);
    NegatedRest(e * ri, n);
    CongAdd((n - er) % n, -(e * ri), point * sr, point * (s * ri), n);
    assert sr * point == point * sr;
    CongMod(sum, n);
    CongTrans(KeyFrom(c, e, r, s, point), sum, -(e * ri) + point * (s * ri), n);
  }

  lemma NegatedRest(a: int, n: int)
    requires n > 0
    ensures Cong((n - a % n) % n, -a, n)
  {
    hide Cong;
    var rest := a % n;
    CongMod(a, n);
    CongNeg(rest, a, n);
    CongMinus(rest, n);
    CongMod(n - rest, n);
    CongTrans((n - rest) % n, n - rest, -rest, n);
    CongTrans((n - rest) % n, -rest, -a, n);
  }

  lemma RegroupKey(r: int, ri: int, e: int, s: int, p: int)
    ensures r * (-(e * ri) + p * (s * ri)) == (s * p - e) * (ri * r)
  {
    assert p * (s * ri) == s * p * ri;
    assert -(e * ri) + s * p * ri == (s * p - e) * ri;
    assert r * ((s * p - e) * ri) == (s * p - e) * (ri * r);
  }

  /** Hence it is the only one. */
  lemma KeyIsDetermined(c: Curve, e: nat, r: nat, s: nat, point: nat, q: nat)
    requires IsCurve(c) && 1 <= r < c.n && q < c.n
    requires Cong(r * q, s * point - e, c.n)
    ensures q == KeyFrom(c, e, r, s, point)
  {
    hide Cong, IsCurve, KeyFrom;
    var p := KeyFrom(c, e, r, s, point);
    KeyEquation(c, e, r, s, point);
    CongSym(r * p, s * point - e, c.n);
    CongTrans(r * q, s * point - e, r * p, c.n);
    InverseFact(c, r);
    CongCancel(q, p, r, c.inv(r), c.n);
    CongSame(q, p, c.n);
  }

  lemma SignatureParts(c: Curve, d: nat, k: nat, e: nat, r: nat, s: nat)
    requires IsCurve(c) && IsSignature(c, d, k, e, r, s)
    ensures 1 <= d < c.n && 1 <= k < c.n && 1 <= r < c.n && 1 <= s < c.n && r == c.x(k) % c.n
    ensures Cong(s, c.inv(k) * (e + r * d), c.n)
  {
    hide Cong;
    CongMod(c.inv(k) * (e + r * d), c.n);
  }

  /** An x coordinate below the order is r itself. */
  lemma SmallCoordinate(c: Curve, d: nat, k: nat, e: nat, r: nat, s: nat)
    requires IsCurve(c) && IsSignature(c, d, k, e, r, s) && c.x(k) < c.n
    ensures 1 <= d < c.n && 1 <= k < c.n && 1 <= r < c.n && r == c.x(k)
  {
    hide IsCurve, IsSignature, Cong;
    SignatureParts(c, d, k, e, r, s);
    ReducedOnce(c.x(k), c.n);
  }

  /** s k = e + r d, which is what the signature equation says. */
  lemma SignatureEquation(c: Curve, d: nat, k: nat, e: nat, r: nat, s: nat)
    requires IsCurve(c) && IsSignature(c, d, k, e, r, s)
    ensures Cong(s * k, e + r * d, c.n)
    ensures Cong(s * k - e, r * d, c.n)
  {
    hide Cong, IsCurve, IsSignature;
    SignatureParts(c, d, k, e, r, s);
    InverseFact(c, k);
    CongUndoInverse(s, c.inv(k), k, e + r * d, c.n);
    CongShift(s * k, e + r * d, 0 - e, c.n);
  }

  /** Through the nonce point itself the signer's key comes back. */
  lemma KeyThroughNonce(c: Curve, d: nat, k: nat, e: nat, r: nat, s: nat)
    requires IsCurve(c) && IsSignature(c, d, k, e, r, s)
    ensures KeyFrom(c, e, r, s, k) == d
  {
    hide Cong, IsCurve, KeyFrom;
    SignatureEquation(c, d, k, e, r, s);
    CongSym(s * k - e, r * d, c.n);
    KeyIsDetermined(c, e, r, s, k, d);
  }

  /** And through no other point. */
  lemma OnlyThroughNonce(c: Curve, d: nat, k: nat, e: nat, r: nat, s: nat, point: nat)
    requires IsCurve(c) && IsSignature(c, d, k, e, r, s)
    requires 1 <= point < c.n && KeyFrom(c, e, r, s, point) == d
    ensures point == k
  {
    hide Cong, IsCurve, KeyFrom;
    var n := c.n;
    SignatureEquation(c, d, k, e, r, s);
    KeyEquation(c, e, r, s, point);
    CongSym(r * d, s * point - e, n);
    CongSym(s * k - e, r * d, n);
    CongTrans(s * point - e, r * d, s * k - e, n);
    CongShift(s * point - e, s * k - e, e, n);
    InverseFact(c, s);
    CongCancel(point, k, s, c.inv(s), n);
    CongSame(point, k, n);
  }

  /** p is a point with x coordinate r, and q the key recovered through it. */
  ghost predicate Through(c: Curve, e: nat, r: nat, s: nat, p: nat, q: nat)
    requires IsCurve(c)
  {
    1 <= p < c.n && c.x(p) == r && KeyFrom(c, e, r, s, p) == q
  }

  lemma CandidateThrough(c: Curve, e: nat, r: nat, s: nat, q: nat)
    requires IsCurve(c) && 1 <= r < c.n
    ensures q in Candidates(c, e, r, s) <==> q != 0 && exists p :: Through(c, e, r, s, p, q)
  {
    hide KeyFrom, Recover, IsCurve, Through;
    RecoverThrough(c, e, r, s, 0);
    RecoverThrough(c, e, r, s, 1);
    if q != 0 && exists p :: Through(c, e, r, s, p, q) {
      var p :| Through(c, e, r, s, p, q);
      ThroughRecovers(c, e, r, s, p, q);
    }
  }

  lemma RecoverThrough(c: Curve, e: nat, r: nat, s: nat, v: nat)
    requires IsCurve(c) && 1 <= r < c.n && v <= 1
    ensures var q := Recover(c, e, r, s, v); q.Some? ==> q.value != 0 && exists p :: Through(c, e, r, s, p, q.value)
  {
    hide KeyFrom, IsCurve;
    var q := Recover(c, e, r, s, v);
    if q.Some? {
      assert Through(c, e, r, s, PointAt(c, r, v == 1).value, q.value);
    }
  }

  lemma ThroughRecovers(c: Curve, e: nat, r: nat, s: nat, p: nat, q: nat)
    requires IsCurve(c) && 1 <= r < c.n && q != 0 && Through(c, e, r, s, p, q)
    ensures Recover(c, e, r, s, if c.odd(p) then 1 else 0) == Some(q)
  {
    hide KeyFrom, IsCurve, PointAt;
    ReducedOnce(r, c.n);
    PointIsUnique(c, p);
  }

  // ---- the main results ----

  /**
    The signer's key is among the candidates exactly when the x coordinate of the nonce point is below the
    group order, that is, when reducing it to r has lost nothing.
  */
  lemma SignerIsCandidateIff(c: Curve, d: nat, k: nat, e: nat, r: nat, s: nat)
    requires IsCurve(c) && IsSignature(c, d, k, e, r, s)
    ensures d in Candidates(c, e, r, s) <==> c.x(k) < c.n
  {
    hide KeyFrom, Candidates, IsCurve, Cong, IsSignature;
    SignatureParts(c, d, k, e, r, s);
    CandidateThrough(c, e, r, s, d);
    if c.x(k) < c.n {
      SmallCoordinate(c, d, k, e, r, s);
      KeyThroughNonce(c, d, k, e, r, s);
      assert Through(c, e, r, s, k, d);
    }
    if d in Candidates(c, e, r, s) {
      var p :| Through(c, e, r, s, p, d);
      OnlyThroughNonce(c, d, k, e, r, s, p);
    }
  }

  /** With the right recovery id the signer's key is always recovered, if x coordinates are below 2n. */
  lemma SomeRecoveryIdFindsSigner(c: Curve, d: nat, k: nat, e: nat, r: nat, s: nat)
    requires IsCurve(c) && IsSignature(c, d, k, e, r, s) && c.x(k) < 2 * c.n
    ensures Recover(c, e, r, s, (if c.x(k) < c.n then 0 else 2) + if c.odd(k) then 1 else 0) == Some(d)
  {
    hide KeyFrom, IsCurve, Cong, PointAt, IsSignature;
    KeyThroughNonce(c, d, k, e, r, s);
    UnreducedCoordinate(c, d, k, e, r, s);
    PointIsUnique(c, k);
  }

  lemma UnreducedCoordinate(c: Curve, d: nat, k: nat, e: nat, r: nat, s: nat)
    requires IsCurve(c) && IsSignature(c, d, k, e, r, s) && c.x(k) < 2 * c.n
    ensures 1 <= d < c.n && 1 <= k < c.n && 1 <= r < c.n && r % c.n == r
    ensures c.x(k) == if c.x(k) < c.n then r else r + c.n
  {
    hide IsCurve, IsSignature, Cong;
    SignatureParts(c, d, k, e, r, s);
    ReducedOnce(c.x(k), c.n);
    ReducedOnce(r, c.n);
  }

  /** Recovery ids count from 0 or from 27, and there are four of them. */
  lemma RecoveryIds(c: Curve, e: nat, r: nat, s: nat, v: nat)
    requires IsCurve(c)
    ensures v <= 3 ==> Recover(c, e, r, s, 27 + v) == Recover(c, e, r, s, v)
    ensures 4 <= v < 27 || v > 30 ==> Recover(c, e, r, s, v) == None
  {
    hide KeyFrom, IsCurve, PointAt;
  }

  lemma ReducedOnce(x: nat, n: nat)
    requires 0 < n && x < 2 * n
    ensures x == if x < n then x % n else x % n + n
  {
    if x >= n {
      Div(n, 1, x - n);
    }
  }

  lemma NegatedKey(c: Curve, e: nat, r: nat, s: nat, point: nat)
    requires IsCurve(c) && 1 <= r < c.n && 1 <= s < c.n && 1 <= point < c.n
    ensures KeyFrom(c, e, r, c.n - s, c.n - point) == KeyFrom(c, e, r, s, point)
  {
    hide KeyFrom, IsCurve, Cong;
    var n, q := c.n, KeyFrom(c, e, r, s, point);
    KeyEquation(c, e, r, s, point);
    NegatedProduct(n, s, point);
    CongSym((n - s) * (n - point), s * point, n);
    CongShift(s * point, (n - s) * (n - point), 0 - e, n);
    CongTrans(r * q, s * point - e, (n - s) * (n - point) - e, n);
    KeyIsDetermined(c, e, r, n - s, n - point, q);
  }

  lemma NegatedProduct(n: nat, s: int, p: int)
    ensures Cong((n - s) * (n - p), s * p, n)
  {
    assert (n - s) * (n - p) == n * n - n * p - s * n + s * p;
    assert n * (n - p - s) == n * n - n * p - n * s;
    CongBy((n - s) * (n - p), s * p, n, n - p - s);
  }

  lemma CandidatesUnderNegation(c: Curve, e: nat, r: nat, s: nat, q: nat)
    requires IsCurve(c) && 1 <= r < c.n && 1 <= s < c.n
    requires q in Candidates(c, e, r, s)
    ensures q in Candidates(c, e, r, c.n - s)
  {
    hide KeyFrom, Candidates, Cong, IsCurve;
    CandidateThrough(c, e, r, s, q);
    CandidateThrough(c, e, r, c.n - s, q);
    var p :| Through(c, e, r, s, p, q);
    NegatedKey(c, e, r, s, p);
    SharedX(c, p);
    assert Through(c, e, r, c.n - s, c.n - p, q);
  }

  /** The candidates do not change when s is replaced by n - s, so low-S signatures recover the same keys. */
  lemma SameCandidatesForLowS(c: Curve, e: nat, r: nat, s: nat, q: nat)
    requires IsCurve(c) && 1 <= r < c.n && 1 <= s < c.n
    ensures q in Candidates(c, e, r, c.n - s) <==> q in Candidates(c, e, r, s)
    ensures q in Candidates(c, e, r, LowS(c.n, s)) <==> q in Candidates(c, e, r, s)
  {
    if q in Candidates(c, e, r, s) {
      CandidatesUnderNegation(c, e, r, s, q);
    }
    if q in Candidates(c, e, r, c.n - s) {
      CandidatesUnderNegation(c, e, r, c.n - s, q);
    }
  }

  /**
    The step gives a low s that can be part of a signature for every s but 0, n and those above n + n / 2; it is
    idempotent on these, and the same for s and n - s.
  */
  lemma LowSIsLow(n: nat, s: nat)
    requires n % 2 == 1
    ensures 1 <= LowS(n, s) <= n / 2 <==> s != 0 && s != n && s <= n + n / 2
    ensures LowS(n, s) <= n / 2 ==> LowS(n, LowS(n, s)) == LowS(n, s)
    ensures s <= n ==> LowS(n, n - s) == LowS(n, s)
  {
  }

  // ---- verification ----

  lemma InverseOfNegation(c: Curve, s: nat)
    requires IsCurve(c) && 1 <= s < c.n
    ensures c.inv(c.n - s) == c.n - c.inv(s)
  {
    hide Cong, IsCurve;
    InverseFact(c, s);
    InverseFact(c, c.n - s);
    NegatedProduct(c.n, c.inv(s), s);
    SameInverse(c.n - c.inv(s), c.inv(c.n - s), c.n - s, c.inv(s) * s, c.n);
  }

  /** An element has one inverse. */
  lemma SameInverse(u: int, v: int, a: int, one: int, n: nat)
    requires 0 <= u < n && 0 <= v < n
    requires Cong(u * a, one, n) && Cong(one, 1, n) && Cong(v * a, 1, n)
    ensures v == u
  {
    hide Cong;
    CongTrans(u * a, one, 1, n);
    CongSym(v * a, 1, n);
    CongTrans(u * a, 1, v * a, n);
    assert u * a == a * u && v * a == a * v;
    CongCancel(u, v, a, v, n);
    CongSame(u, v, n);
  }

  ghost function VerifyPoint(c: Curve, q: nat, e: nat, r: nat, s: nat): nat
    requires IsCurve(c)
  {
    (e * c.inv(s) + r * c.inv(s) * q) % c.n
  }

  lemma VerifyPointIs(c: Curve, q: nat, e: nat, r: nat, s: nat)
    requires IsCurve(c)
    ensures VerifyPoint(c, q, e, r, s) < c.n
    ensures Cong(VerifyPoint(c, q, e, r, s), c.inv(s) * (e + r * q), c.n)
  {
    hide Cong;
    var si := c.inv(s);
    assert r * si * q == si * (r * q);
    assert e * si + r * si * q == si * (e + r * q);
    CongMod(si * (e + r * q), c.n);
  }

  lemma NegatedResidue(u: int, v: int, n: nat)
    requires 0 <= u < n && 0 <= v < n && Cong(v, -u, n)
    ensures v == if u == 0 then 0 else n - u
  {
    hide Cong;
    if u == 0 {
      CongSame(v, 0, n);
    } else {
      CongMinus(u, n);
      CongSym(n - u, -u, n);
      CongTrans(v, -u, n - u, n);
      CongSame(v, n - u, n);
    }
  }

  /** Replacing s by n - s negates the point a verifier computes. */
  lemma NegatedVerifyPoint(c: Curve, q: nat, e: nat, r: nat, s: nat)
    requires IsCurve(c) && 1 <= s < c.n
    ensures VerifyPoint(c, q, e, r, c.n - s) ==
            if VerifyPoint(c, q, e, r, s) == 0 then 0 else c.n - VerifyPoint(c, q, e, r, s)
  {
    hide IsCurve, Cong, VerifyPoint;
    var n, si := c.n, c.inv(s);
    var u, v := VerifyPoint(c, q, e, r, s), VerifyPoint(c, q, e, r, n - s);
    InverseOfNegation(c, s);
    VerifyPointIs(c, q, e, r, s);
    VerifyPointIs(c, q, e, r, n - s);
    NegatedMultiple(si, e + r * q, u, v, n);
    NegatedResidue(u, v, n);
  }

  lemma NegatedMultiple(si: int, t: int, u: int, v: int, n: nat)
    requires Cong(u, si * t, n) && Cong(v, (n - si) * t, n)
    ensures Cong(v, -u, n)
  {
    hide Cong;
    CongMinus(si, n);
    CongScale(n - si, -si, t, n);
    assert t * (n - si) == (n - si) * t && t * -si == -(si * t);
    CongTrans(v, (n - si) * t, -(si * t), n);
    CongNeg(u, si * t, n);
    CongSym(-u, -(si * t), n);
    CongTrans(v, -(si * t), -u, n);
  }

  /**
    For every s: the low-S form verifies iff the signature does, or would if an s above the order were reduced
    by it.
  */
  lemma LowSVerifiesIff(c: Curve, q: nat, e: nat, r: nat, s: nat)
    requires IsCurve(c)
    ensures Verifies(c, q, e, r, LowS(c.n, s)) <==> Verifies(c, q, e, r, if s > c.n then s - c.n else s)
  {
    if 1 <= s < c.n {
      NegatedVerifyPoint(c, q, e, r, s);
    }
  }

  /** What has been signed verifies under the signer's key: the verifier finds the nonce point again. */
  lemma SignedVerifies(c: Curve, d: nat, k: nat, e: nat, r: nat, s: nat)
    requires IsCurve(c) && IsSignature(c, d, k, e, r, s)
    ensures Verifies(c, d, e, r, s) && VerifyPoint(c, d, e, r, s) == k
  {
    VerifierFindsNonce(c, d, k, e, r, s);
    hide IsCurve;
  }

  lemma VerifierFindsNonce(c: Curve, d: nat, k: nat, e: nat, r: nat, s: nat)
    requires IsCurve(c) && IsSignature(c, d, k, e, r, s)
    ensures VerifyPoint(c, d, e, r, s) == k
  {
    hide IsCurve, Cong, VerifyPoint, IsSignature;
    var n := c.n;
    SignatureParts(c, d, k, e, r, s);
    SignatureEquation(c, d, k, e, r, s);
    CongSym(s * k, e + r * d, n);
    InverseFact(c, s);
    CongApplyInverse(e + r * d, s, c.inv(s), k, n);
    VerifyPointIs(c, d, e, r, s);
    CongTrans(VerifyPoint(c, d, e, r, s), c.inv(s) * (e + r * d), k, n);
    CongSame(VerifyPoint(c, d, e, r, s), k, n);
  }

  // ---- enrolment ----

  ghost predicate OnlyPair(a: seq<nat>, b: seq<nat>, i: int, j: int) {
    && 0 <= i < |a| && 0 <= j < |b| && a[i] == b[j]
    && forall k, l :: 0 <= k < |a| && 0 <= l < |b| && a[k] == b[l] ==> k == i && l == j
  }

  /** The nested loop of `enrollKeycard`: the common key, if exactly one pair of candidates agrees. */
  method Intersect(a: seq<nat>, b: seq<nat>) returns (match_: Option<nat>)
    ensures match_.Some? ==> exists i, j :: OnlyPair(a, b, i, j) && a[i] == match_.value
    ensures match_.None? ==> !exists i, j :: OnlyPair(a, b, i, j)
  {
    var n, found := 0, 0;
    ghost var i0, j0, i1, j1 := 0, 0, 0, 0;
    for i := 0 to |a|
      invariant n >= 0
      invariant n == 0 ==> forall k, l :: 0 <= k < i && 0 <= l < |b| ==> a[k] != b[l]
      invariant n == 1 ==> 0 <= i0 < i && 0 <= j0 < |b| && a[i0] == b[j0] == found
      invariant n == 1 ==> forall k, l :: 0 <= k < i && 0 <= l < |b| && a[k] == b[l] ==> k == i0 && l == j0
      invariant n >= 2 ==> 0 <= i0 < i && 0 <= i1 < i && 0 <= j0 < |b| && 0 <= j1 < |b|
      invariant n >= 2 ==> a[i0] == b[j0] && a[i1] == b[j1] && (i0, j0) != (i1, j1)
    {
      for j := 0 to |b|
        invariant n >= 0
        invariant n == 0 ==> forall k, l :: 0 <= k <= i && 0 <= l < |b| && (k < i || l < j) ==> a[k] != b[l]
        invariant n == 1 ==> 0 <= i0 <= i && 0 <= j0 < |b| && (i0 < i || j0 < j) && a[i0] == b[j0] == found
        invariant n == 1 ==> forall k, l ::
                    0 <= k <= i && 0 <= l < |b| && (k < i || l < j) && a[k] == b[l] ==> k == i0 && l == j0
        invariant n >= 2 ==> 0 <= i0 <= i && 0 <= i1 <= i && 0 <= j0 < |b| && 0 <= j1 < |b|
        invariant n >= 2 ==> a[i0] == b[j0] && a[i1] == b[j1] && (i0, j0) != (i1, j1)
      {
        if a[i] == b[j] {
          if n == 0 {
            i0, j0 := i, j;
          } else if n == 1 {
            i1, j1 := i, j;
          }
          found := a[i];
          n := n + 1;
        }
      }
    }
    if n != 1 {
      return None;
    }
    assert OnlyPair(a, b, i0, j0);
    return Some(found);
  }

  /** The two candidates of one signature are different keys. */
  lemma CandidatesDiffer(c: Curve, e: nat, r: nat, s: nat)
    requires IsCurve(c) && 1 <= r < c.n && 1 <= s < c.n
    ensures NoDup(Candidates(c, e, r, s))
  {
    hide KeyFrom;
    OrderIsOdd(c);
    ReducedOnce(r, c.n);
    var q0, q1 := Recover(c, e, r, s, 0), Recover(c, e, r, s, 1);
    if q0.Some? && q1.Some? && q0.value == q1.value {
      var p, m := PointAt(c, r, false).value, PointAt(c, r, true).value;
      SamePoint(c, e, r, s, p, m);
    }
  }

  lemma SamePoint(c: Curve, e: nat, r: nat, s: nat, p: nat, m: nat)
    requires IsCurve(c) && 1 <= r < c.n && 1 <= s < c.n && 1 <= p < c.n && 1 <= m < c.n
    requires KeyFrom(c, e, r, s, p) == KeyFrom(c, e, r, s, m)
    ensures p == m
  {
    hide KeyFrom, Cong, IsCurve;
    var n, q := c.n, KeyFrom(c, e, r, s, p);
    KeyEquation(c, e, r, s, p);
    KeyEquation(c, e, r, s, m);
    CongSym(r * q, s * p - e, n);
    CongTrans(s * p - e, r * q, s * m - e, n);
    CongShift(s * p - e, s * m - e, e, n);
    InverseFact(c, s);
    CongCancel(p, m, s, c.inv(s), n);
    CongSame(p, m, n);
  }

  /** A point and its negation differ, so the order is odd. */
  lemma OrderIsOdd(c: Curve)
    requires IsCurve(c)
    ensures c.n % 2 == 1
  {
    NegationFact(c, c.n / 2);
  }

  lemma NegationFact(c: Curve, k: nat)
    requires IsCurve(c) && 1 <= k < c.n
    ensures c.odd(c.n - k) != c.odd(k)
  {
  }

  /** The key recovered through the negated nonce point: the signature's other candidate. */
  ghost function OtherKey(c: Curve, k: nat, e: nat, r: nat, s: nat): nat
    requires IsCurve(c) && k <= c.n
  {
    KeyFrom(c, e, r, s, c.n - k)
  }

  /** r (q + d) = -2 e for the signer's key d and the other candidate q. */
  lemma OtherEquation(c: Curve, d: nat, k: nat, e: nat, r: nat, s: nat)
    requires IsCurve(c) && IsSignature(c, d, k, e, r, s) && k <= c.n
    ensures OtherKey(c, k, e, r, s) < c.n
    ensures Cong(r * (OtherKey(c, k, e, r, s) + d), -2 * e, c.n)
  {
    hide Cong, IsCurve, KeyFrom, IsSignature;
    var n, q := c.n, OtherKey(c, k, e, r, s);
    SignatureParts(c, d, k, e, r, s);
    SignatureEquation(c, d, k, e, r, s);
    CongSym(s * k - e, r * d, n);
    KeyEquation(c, e, r, s, n - k);
    CongAdd(r * q, s * (n - k) - e, r * d, s * k - e, n);
    assert r * (q + d) == r * q + r * d;
    OnceAround(n, s, k, e);
    CongTrans(r * (q + d), s * (n - k) - e + (s * k - e), -2 * e, n);
  }

  lemma OnceAround(n: nat, s: int, k: int, e: int)
    ensures Cong(s * (n - k) - e + (s * k - e), -2 * e, n)
  {
    assert s * (n - k) + s * k == n * s;
    CongBy(s * (n - k) - e + (s * k - e), -2 * e, n, s);
  }

  lemma OtherIsZeroIff(c: Curve, d: nat, k: nat, e: nat, r: nat, s: nat)
    requires IsCurve(c) && IsSignature(c, d, k, e, r, s) && k <= c.n
    ensures OtherKey(c, k, e, r, s) == 0 <==> Cong(r * d, -2 * e, c.n)
  {
    hide Cong, IsCurve, OtherKey, IsSignature;
    var n, q := c.n, OtherKey(c, k, e, r, s);
    SignatureParts(c, d, k, e, r, s);
    OtherEquation(c, d, k, e, r, s);
    if q == 0 {
      assert r * (q + d) == r * d;
    }
    if Cong(r * d, -2 * e, n) {
      CongSym(r * d, -2 * e, n);
      CongTrans(r * (q + d), -2 * e, r * d, n);
      InverseFact(c, r);
      CongCancel(q + d, d, r, c.inv(r), n);
      CongShift(q + d, d, 0 - d, n);
      CongSame(q, 0, n);
    }
  }

  /** The other candidates of two signatures by one key agree iff e / r is the same for both. */
  lemma OthersAgreeIff(c: Curve, d: nat, kA: nat, eA: nat, rA: nat, sA: nat, kB: nat, eB: nat, rB: nat, sB: nat)
    requires IsCurve(c) && kA <= c.n && kB <= c.n
    requires IsSignature(c, d, kA, eA, rA, sA) && IsSignature(c, d, kB, eB, rB, sB)
    ensures OtherKey(c, kA, eA, rA, sA) == OtherKey(c, kB, eB, rB, sB) <==> Cong(eA * rB, eB * rA, c.n)
  {
    hide Cong, IsCurve, OtherKey, IsSignature;
    var qA, qB := OtherKey(c, kA, eA, rA, sA), OtherKey(c, kB, eB, rB, sB);
    SignatureParts(c, d, kA, eA, rA, sA);
    SignatureParts(c, d, kB, eB, rB, sB);
    OtherEquation(c, d, kA, eA, rA, sA);
    OtherEquation(c, d, kB, eB, rB, sB);
    if qA == qB {
      SameOther(c, qA + d, rA, eA, rB, eB);
    }
    if Cong(eA * rB, eB * rA, c.n) {
      SameQuotient(c, qA + d, qB + d, rA, eA, rB, eB);
      CongShift(qA + d, qB + d, 0 - d, c.n);
      CongSame(qA, qB, c.n);
    }
  }

  lemma SameOther(c: Curve, t: int, rA: int, eA: int, rB: int, eB: int)
    requires IsCurve(c) && Cong(rA * t, -2 * eA, c.n) && Cong(rB * t, -2 * eB, c.n)
    ensures Cong(eA * rB, eB * rA, c.n)
  {
    hide Cong, IsCurve;
    var n, u := c.n, rA * (rB * t);
    Crossed(rA, rB, t, eA, n);
    Crossed(rB, rA, t, eB, n);
    assert rB * (rA * t) == u;
    CongSym(u, -2 * (eA * rB), n);
    CongTrans(-2 * (eA * rB), u, -2 * (eB * rA), n);
    HalveNegated(c, eA * rB, eB * rA);
  }

  lemma SameQuotient(c: Curve, t: int, u: int, rA: nat, eA: int, rB: nat, eB: int)
    requires IsCurve(c) && Cong(rA * t, -2 * eA, c.n) && Cong(rB * u, -2 * eB, c.n)
    requires 1 <= rA < c.n && 1 <= rB < c.n && Cong(eA * rB, eB * rA, c.n)
    ensures Cong(t, u, c.n)
  {
    hide Cong, IsCurve;
    var n, x, y := c.n, rA * (rB * t), rA * (rB * u);
    Crossed(rA, rB, t, eA, n);
    Crossed(rB, rA, u, eB, n);
    assert rB * (rA * u) == y;
    CongScale(eA * rB, eB * rA, -2, n);
    CongTrans(x, -2 * (eA * rB), -2 * (eB * rA), n);
    CongSym(y, -2 * (eB * rA), n);
    CongTrans(x, -2 * (eB * rA), y, n);
    InverseFact(c, rA);
    InverseFact(c, rB);
    CongCancel(rB * t, rB * u, rA, c.inv(rA), n);
    CongCancel(t, u, rB, c.inv(rB), n);
  }

  /** r t = -2 e, multiplied by another factor. */
  lemma Crossed(r: int, f: int, t: int, e: int, n: nat)
    requires Cong(r * t, -2 * e, n)
    ensures Cong(r * (f * t), -2 * (e * f), n)
  {
    hide Cong;
    CongScale(r * t, -2 * e, f, n);
    assert f * (r * t) == r * (f * t);
    assert f * (-2 * e) == -2 * (e * f);
  }

  lemma HalveNegated(c: Curve, a: int, b: int)
    requires IsCurve(c) && Cong(-2 * a, -2 * b, c.n)
    ensures Cong(a, b, c.n)
  {
    hide Cong;
    InverseFact(c, 2);
    assert (0 - c.inv(2)) * -2 == c.inv(2) * 2;
    CongCancel(a, b, -2, 0 - c.inv(2), c.n);
  }

  /** Where the nonce coordinate is below the order, the candidates are the signer's key and the other one. */
  lemma CandidatesAre(c: Curve, d: nat, k: nat, e: nat, r: nat, s: nat, q: nat)
    requires IsCurve(c) && IsSignature(c, d, k, e, r, s) && c.x(k) < c.n && k <= c.n
    ensures q in Candidates(c, e, r, s) <==> q != 0 && (q == d || q == OtherKey(c, k, e, r, s))
  {
    hide KeyFrom, Candidates, Cong, IsCurve, IsSignature, Through, OtherKey;
    SmallCoordinate(c, d, k, e, r, s);
    CandidateThrough(c, e, r, s, q);
    KeyThroughNonce(c, d, k, e, r, s);
    BothThrough(c, k, e, r, s);
    if q in Candidates(c, e, r, s) {
      var p :| Through(c, e, r, s, p, q);
      ThroughOneOfBoth(c, k, e, r, s, p, q);
    }
  }

  lemma BothThrough(c: Curve, k: nat, e: nat, r: nat, s: nat)
    requires IsCurve(c) && 1 <= k < c.n && c.x(k) == r
    ensures Through(c, e, r, s, k, KeyFrom(c, e, r, s, k))
    ensures Through(c, e, r, s, c.n - k, OtherKey(c, k, e, r, s))
  {
    SharedX(c, k);
    hide KeyFrom, IsCurve;
  }

  lemma ThroughOneOfBoth(c: Curve, k: nat, e: nat, r: nat, s: nat, p: nat, q: nat)
    requires IsCurve(c) && 1 <= k < c.n && c.x(k) == r && Through(c, e, r, s, p, q)
    ensures q == KeyFrom(c, e, r, s, k) || q == OtherKey(c, k, e, r, s)
  {
    hide KeyFrom, IsCurve;
    SharedX(c, k);
  }

  lemma SharedX(c: Curve, k: nat)
    requires IsCurve(c) && 1 <= k < c.n
    ensures c.x(c.n - k) == c.x(k)
    ensures forall p :: 1 <= p < c.n && c.x(p) == c.x(k) ==> p == k || p == c.n - k
  {
    hide Cong;
  }

  lemma OtherIsNotSigner(c: Curve, d: nat, k: nat, e: nat, r: nat, s: nat)
    requires IsCurve(c) && IsSignature(c, d, k, e, r, s) && k <= c.n
    ensures OtherKey(c, k, e, r, s) != d
  {
    hide IsCurve, KeyFrom, Cong;
    OrderIsOdd(c);
    if OtherKey(c, k, e, r, s) == d {
      OnlyThroughNonce(c, d, k, e, r, s, c.n - k);
    }
  }

  /** The two signatures share a candidate besides the signer's key. */
  lemma SharedCandidateIff(c: Curve, d: nat, kA: nat, eA: nat, rA: nat, sA: nat, kB: nat, eB: nat, rB: nat, sB: nat)
    requires IsCurve(c) && c.x(kA) < c.n && c.x(kB) < c.n && kA <= c.n && kB <= c.n
    requires IsSignature(c, d, kA, eA, rA, sA) && IsSignature(c, d, kB, eB, rB, sB)
    ensures (exists q :: q in Candidates(c, eA, rA, sA) && q in Candidates(c, eB, rB, sB) && q != d) <==>
            Cong(eA * rB, eB * rA, c.n) && !Cong(rA * d, -2 * eA, c.n)
  {
    hide Candidates, IsSignature, Recover, IsCurve, Cong, OtherKey;
    var qA, qB := OtherKey(c, kA, eA, rA, sA), OtherKey(c, kB, eB, rB, sB);
    OthersAgreeIff(c, d, kA, eA, rA, sA, kB, eB, rB, sB);
    OtherIsZeroIff(c, d, kA, eA, rA, sA);
    OtherIsNotSigner(c, d, kA, eA, rA, sA);
    CandidatesAre(c, d, kA, eA, rA, sA, qA);
    CandidatesAre(c, d, kB, eB, rB, sB, qA);
    forall q | q in Candidates(c, eA, rA, sA) && q in Candidates(c, eB, rB, sB) && q != d
      ensures q == qA == qB && q != 0
    {
      CandidatesAre(c, d, kA, eA, rA, sA, q);
      CandidatesAre(c, d, kB, eB, rB, sB, q);
    }
  }

  /**
    Enrolment: two signatures by one key over two digests. The key that `Intersect` settles on is the
    signer's exactly when both nonce points have an x coordinate below the order and the two quotients e / r
    differ, or agree in the one value for which the other candidate is the point at infinity.
  */
  lemma EnrolsSignerIff(c: Curve, d: nat, kA: nat, eA: nat, rA: nat, sA: nat, kB: nat, eB: nat, rB: nat, sB: nat)
    requires IsCurve(c)
    requires IsSignature(c, d, kA, eA, rA, sA) && IsSignature(c, d, kB, eB, rB, sB)
    ensures var a, b := Candidates(c, eA, rA, sA), Candidates(c, eB, rB, sB);
            (exists i, j :: OnlyPair(a, b, i, j) && a[i] == d) <==>
            && c.x(kA) < c.n && c.x(kB) < c.n
            && (!Cong(eA * rB, eB * rA, c.n) || Cong(rA * d, -2 * eA, c.n))
  {
    var a, b := Candidates(c, eA, rA, sA), Candidates(c, eB, rB, sB);
    SignatureRange(c, d, kA, eA, rA, sA);
    SignatureRange(c, d, kB, eB, rB, sB);
    hide Candidates, IsSignature, Recover, IsCurve, Cong, OnlyPair;
    SignerIsCandidateIff(c, d, kA, eA, rA, sA);
    SignerIsCandidateIff(c, d, kB, eB, rB, sB);
    CandidatesDiffer(c, eA, rA, sA);
    CandidatesDiffer(c, eB, rB, sB);
    PairsOf(a, b, d);
    if c.x(kA) < c.n && c.x(kB) < c.n {
      SharedCandidateIff(c, d, kA, eA, rA, sA, kB, eB, rB, sB);
    }
  }

  lemma SignatureRange(c: Curve, d: nat, k: nat, e: nat, r: nat, s: nat)
    requires IsCurve(c) && IsSignature(c, d, k, e, r, s)
    ensures 1 <= r < c.n && 1 <= s < c.n && k <= c.n
  {
  }

  lemma PairsOf(a: seq<nat>, b: seq<nat>, d: nat)
    requires NoDup(a) && NoDup(b)
    ensures (exists i, j :: OnlyPair(a, b, i, j) && a[i] == d) <==>
            d in a && d in b && forall q :: q in a && q in b ==> q == d
  {
    if d in a && d in b && forall q :: q in a && q in b ==> q == d {
      var i: nat :| i < |a| && a[i] == d;
      var j: nat :| j < |b| && b[j] == d;
      forall k, l | 0 <= k < |a| && 0 <= l < |b| && a[k] == b[l] ensures k == i && l == j {
        assert a[k] in a && b[l] in b;
      }
      assert OnlyPair(a, b, i, j);
    }
    if exists i, j :: OnlyPair(a, b, i, j) && a[i] == d {
      var i, j :| OnlyPair(a, b, i, j) && a[i] == d;
      forall q | q in a && q in b ensures q == d {
        var k :| 0 <= k < |a| && a[k] == q;
        var l :| 0 <= l < |b| && b[l] == q;
      }
    }
  }

  /** So whenever both x coordinates are below the order, a key that enrolment finds is the signer's. */
  lemma EnrolledKeyIsSigners(c: Curve, d: nat, kA: nat, eA: nat, rA: nat, sA: nat, kB: nat, eB: nat, rB: nat, sB: nat,
                             i: int, j: int)
    requires IsCurve(c) && c.x(kA) < c.n && c.x(kB) < c.n
    requires IsSignature(c, d, kA, eA, rA, sA) && IsSignature(c, d, kB, eB, rB, sB)
    requires OnlyPair(Candidates(c, eA, rA, sA), Candidates(c, eB, rB, sB), i, j)
    ensures Candidates(c, eA, rA, sA)[i] == d
  {
    hide Candidates, IsCurve, IsSignature;
    SignerIsCandidateIff(c, d, kA, eA, rA, sA);
    SignerIsCandidateIff(c, d, kB, eB, rB, sB);
    var a, b := Candidates(c, eA, rA, sA), Candidates(c, eB, rB, sB);
    var k :| 0 <= k < |a| && a[k] == d;
    var l :| 0 <= l < |b| && b[l] == d;
  }

  // ---- the hypotheses can be met ----

  /** A group of three elements. */
  const TINY: Curve := Curve(3, a => a, k => 1, k => k == 1)

  lemma TinyIsCurve()
    ensures IsCurve(TINY)
  {
    CongBy(1, 1, 3, 0);
    CongBy(4, 1, 3, 1);
  }

  lemma TinySignature()
    ensures IsCurve(TINY) && IsSignature(TINY, 1, 1, 1, 1, 2) && Candidates(TINY, 1, 1, 2) == [1]
  {
    TinyIsCurve();
    hide IsCurve, Cong;
    TinyPoints();
  }

  lemma TinyPoints()
    requires IsCurve(TINY)
    ensures PointAt(TINY, 1, true) == Some(1) && PointAt(TINY, 1, false) == Some(2)
  {
    PointIsUnique(TINY, 1);
    PointIsUnique(TINY, 2);
  }

  // ---- enrolments that fail ----

  function SevenInverse(a: nat): nat {
    if a == 2 then 4 else if a == 3 then 5 else if a == 4 then 2 else if a == 5 then 3 else a
  }

  function SevenX(k: nat): nat {
    if k == 1 || k == 6 then 1 else if k == 2 || k == 5 then 2 else 8
  }

  /** A group of seven elements, of which two have an x coordinate above the order. */
  const SEVEN: Curve := Curve(7, SevenInverse, SevenX, k => k > 3)

  lemma SevenInverts(a: nat)
    requires 1 <= a < 7
    ensures 1 <= SevenInverse(a) < 7 && Cong(SevenInverse(a) * a, 1, 7)
  {
    CongBy(1, 1, 7, 0);
    CongBy(8, 1, 7, 1);
    CongBy(15, 1, 7, 2);
    CongBy(36, 1, 7, 5);
  }

  lemma SevenIsCurve()
    ensures IsCurve(SEVEN)
  {
    hide Cong, SevenInverse;
    forall a: nat | 1 <= a < 7 ensures 1 <= SEVEN.inv(a) < 7 && Cong(SEVEN.inv(a) * a, 1, 7) {
      SevenInverts(a);
    }
  }

  /** Two signatures by one key whose digests and r values have the same quotient share their second candidate. */
  lemma SameQuotientFails()
    ensures IsCurve(SEVEN) && IsSignature(SEVEN, 1, 1, 1, 1, 2) && IsSignature(SEVEN, 1, 2, 2, 2, 2)
    ensures SEVEN.x(1) < 7 && SEVEN.x(2) < 7
    ensures !exists i, j :: OnlyPair(Candidates(SEVEN, 1, 1, 2), Candidates(SEVEN, 2, 2, 2), i, j)
                         && Candidates(SEVEN, 1, 1, 2)[i] == 1
  {
    hide Candidates, OnlyPair;
    SevenIsCurve();
    SevenSignatures();
    CongBy(2, 2, 7, 0);
    NotCongruent();
    EnrolsSignerIff(SEVEN, 1, 1, 1, 1, 2, 2, 2, 2, 2);
  }

  lemma SevenSignatures()
    requires IsCurve(SEVEN)
    ensures IsSignature(SEVEN, 1, 1, 1, 1, 2) && IsSignature(SEVEN, 1, 2, 2, 2, 2) && IsSignature(SEVEN, 1, 3, 1, 1, 3)
  {
    hide IsCurve;
  }

  lemma NotCongruent()
    ensures !Cong(1 * 1, -2 * 1, 7)
  {
  }

  /** A nonce whose point has an x coordinate above the order: the signer's key is no candidate. */
  lemma GreatCoordinateFails(e: nat, r: nat, s: nat, k: nat)
    requires IsCurve(SEVEN) && IsSignature(SEVEN, 1, k, e, r, s)
    ensures IsSignature(SEVEN, 1, 3, 1, 1, 3) && SEVEN.x(3) >= 7
    ensures 1 !in Candidates(SEVEN, 1, 1, 3)
    ensures !exists i, j :: OnlyPair(Candidates(SEVEN, 1, 1, 3), Candidates(SEVEN, e, r, s), i, j)
                         && Candidates(SEVEN, 1, 1, 3)[i] == 1
  {
    hide Candidates, OnlyPair, Cong, IsCurve;
    SevenSignatures();
    SignerIsCandidateIff(SEVEN, 1, 3, 1, 1, 3);
    EnrolsSignerIff(SEVEN, 1, 3, 1, 1, 3, k, e, r, s);
  }
}
