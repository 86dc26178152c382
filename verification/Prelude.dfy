/** Bytes, options and a few sequence helpers used by every other module. */
module Prelude {
  type byte = b: int | 0 <= b < 256

  datatype Option<+T> = None | Some(value: T)

  /** The value the source stores when an integer is cast to a 32-bit `int`. */
  function ToInt32(n: int): (r: int)
    ensures -0x8000_0000 <= r < 0x8000_0000
    ensures -0x8000_0000 <= n < 0x8000_0000 ==> r == n
  {
    (n + 0x8000_0000) % 0x1_0000_0000 - 0x8000_0000
  }

  /** Two bytes, big-endian. */
  function Be16(hi: byte, lo: byte): nat {
    hi * 0x100 + lo
  }

  function Pow2(n: nat): (p: nat)
    ensures p > 0
  {
    if n == 0 then 1 else 2 * Pow2(n - 1)
  }

  function Elems<T(!new, ==)>(s: seq<T>): (r: set<T>)
    ensures forall x :: x in r <==> x in s
  {
    set x | x in s
  }

  ghost predicate NoDup<T(!new)>(s: seq<T>) {
    forall i, j :: 0 <= i < j < |s| ==> s[i] != s[j]
  }

  function RemoveAt<T(!new)>(s: seq<T>, i: nat): (r: seq<T>)
    requires i < |s|
    ensures |r| == |s| - 1
    ensures forall x :: x in r ==> x in s
    ensures forall x :: x in s ==> x in r || x == s[i]
  {
    var r := s[..i] + s[i + 1..];
    assert forall k :: 0 <= k < |s| ==> (if k < i then s[k] == r[k] else if k > i then s[k] == r[k - 1] else true);
    r
  }

  lemma HasFirst<T>(s: seq<T>)
    ensures s == [] || s[0] in s
  {
  }

  /** A sequence without repetition whose elements all lie in `u` is no longer than `u`. */
  lemma {:induction false} NoDupFits<T(!new)>(s: seq<T>, u: set<T>)
    requires NoDup(s)
    requires forall x :: x in s ==> x in u
    ensures |s| <= |u|
    ensures |s| == |u| ==> forall x :: x in u ==> x in s
    decreases |s|
  {
    if s == [] {
      assert |u| == 0 ==> u == {};
    } else {
      var t, x := s[..|s| - 1], s[|s| - 1];
      assert x !in t;
      NoDupFits(t, u - {x});
      assert forall y :: y in u ==> y in u - {x} || y == s[|s| - 1];
      assert forall y :: y in t ==> y in s;
    }
  }

  /** A set of numbers below n has at most n of them. */
  lemma {:induction false} Below(s: set<nat>, n: nat)
    requires forall i :: i in s ==> i < n
    ensures |s| <= n
    ensures |s| == n <==> forall i: nat :: i < n ==> i in s
    decreases n
  {
    if n == 0 {
      assert s == {};
    } else {
      var t := s - {n - 1};
      Below(t, n - 1);
      if n - 1 in s {
        assert s == t + {n - 1};
        assert forall i: nat :: i < n - 1 ==> (i in s <==> i in t);
      } else {
        assert s == t;
      }
    }
  }

  /** Quotient and remainder are determined by any representation with a small enough rest. */
  lemma Div(d: nat, q: int, r: nat)
    requires r < d
    ensures (d * q + r) / d == q && (d * q + r) % d == r
  {
    var n := d * q + r;
    var k, m := n / d, n % d;
    assert n == d * k + m;
    assert d * (q - k) == m - r;
    if q - k >= 1 {
      Grows(d, 1, q - k);
    } else if q - k <= -1 {
      Grows(d, q - k, -1);
    }
  }

  lemma Grows(d: nat, a: int, b: int)
    requires a <= b
    ensures d * a <= d * b
  {
  }

  lemma Times(a: nat, b: nat, d: nat)
    requires a <= b
    ensures a * d <= b * d
  {
  }
}
