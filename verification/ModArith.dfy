/** Congruence modulo n, with the quotient as a witness so that products stay manageable. */
module ModArith {
  import opened Prelude

  ghost predicate Cong(a: int, b: int, n: nat) {
    exists q: int :: a - b == n * q
  }

  lemma CongBy(a: int, b: int, n: nat, q: int)
    requires a - b == n * q
    ensures Cong(a, b, n)
  {
  }

  lemma CongRefl(a: int, n: nat)
    ensures Cong(a, a, n)
  {
    CongBy(a, a, n, 0);
  }

  lemma CongSym(a: int, b: int, n: nat)
    requires Cong(a, b, n)
    ensures Cong(b, a, n)
  {
    var q: int :| a - b == n * q;
    assert n * -q == -(n * q);
    CongBy(b, a, n, -q);
  }

  lemma CongTrans(a: int, b: int, c: int, n: nat)
    requires Cong(a, b, n) && Cong(b, c, n)
    ensures Cong(a, c, n)
  {
    var q: int :| a - b == n * q;
    var r: int :| b - c == n * r;
    assert n * (q + r) == n * q + n * r;
    CongBy(a, c, n, q + r);
  }

  lemma CongAdd(a: int, b: int, c: int, d: int, n: nat)
    requires Cong(a, b, n) && Cong(c, d, n)
    ensures Cong(a + c, b + d, n)
  {
    var q: int :| a - b == n * q;
    var r: int :| c - d == n * r;
    assert n * (q + r) == n * q + n * r;
    CongBy(a + c, b + d, n, q + r);
  }

  lemma CongScale(a: int, b: int, c: int, n: nat)
    requires Cong(a, b, n)
    ensures Cong(c * a, c * b, n)
  {
    var q: int :| a - b == n * q;
    assert c * a - c * b == c * (a - b) == c * (n * q) == n * (c * q);
    CongBy(c * a, c * b, n, c * q);
  }

  lemma CongNeg(a: int, b: int, n: nat)
    requires Cong(a, b, n)
    ensures Cong(-a, -b, n)
  {
    CongScale(a, b, -1, n);
  }

  /** A remainder is congruent to what it is the remainder of. */
  lemma CongMod(a: int, n: nat)
    requires n > 0
    ensures Cong(a % n, a, n)
  {
    assert a == n * (a / n) + a % n;
    assert n * -(a / n) == -(n * (a / n));
    CongBy(a % n, a, n, -(a / n));
  }

  lemma CongMinus(a: int, n: nat)
    ensures Cong(n - a, -a, n)
  {
    CongBy(n - a, -a, n, 1);
  }

  /** Residues are equal when they are congruent. */
  lemma CongSame(a: int, b: int, n: nat)
    requires 0 <= a < n && 0 <= b < n && Cong(a, b, n)
    ensures a == b
  {
    var q: int :| a - b == n * q;
    if q >= 1 {
      Grows(n, 1, q);
    } else if q <= -1 {
      Grows(n, q, -1);
    }
  }

  /** What has an inverse can be cancelled. */
  lemma CongCancel(a: int, b: int, c: int, ci: int, n: nat)
    requires Cong(ci * c, 1, n) && Cong(c * a, c * b, n)
    ensures Cong(a, b, n)
  {
    CongScale(c * a, c * b, ci, n);
    assert ci * (c * a) == a * (ci * c) && ci * (c * b) == b * (ci * c);
    CongScale(ci * c, 1, a, n);
    CongScale(ci * c, 1, b, n);
    CongSym(a * (ci * c), a * 1, n);
    CongTrans(a, a * (ci * c), b * (ci * c), n);
    CongTrans(a, b * (ci * c), b, n);
  }

  /** From s = k^-1 t to s k = t. */
  lemma CongUndoInverse(s: int, ki: int, k: int, t: int, n: nat)
    requires Cong(s, ki * t, n) && Cong(ki * k, 1, n)
    ensures Cong(s * k, t, n)
  {
    hide Cong;
    CongScale(s, ki * t, k, n);
    assert k * (ki * t) == t * (ki * k) && k * s == s * k;
    CongScale(ki * k, 1, t, n);
    CongTrans(s * k, t * (ki * k), t, n);
  }

  /** And back. */
  lemma CongApplyInverse(t: int, s: int, si: int, k: int, n: nat)
    requires Cong(t, s * k, n) && Cong(si * s, 1, n)
    ensures Cong(si * t, k, n)
  {
    hide Cong;
    CongScale(t, s * k, si, n);
    assert si * (s * k) == k * (si * s);
    CongScale(si * s, 1, k, n);
    CongTrans(si * t, k * (si * s), k, n);
  }

  lemma CongShift(a: int, b: int, c: int, n: nat)
    requires Cong(a, b, n)
    ensures Cong(a + c, b + c, n)
  {
    CongRefl(c, n);
    CongAdd(a, b, c, c, n);
  }
}
