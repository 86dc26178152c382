/** Scans that move from position to position of a buffer, and may move backwards: when do they end? */
module Positions {
  import opened Prelude

  /** The next position, or none where the scan ends. */
  type Moves = nat -> Option<nat>

  /** Where a scan from `i` is after `t` turns, if it gets that far. */
  ghost function After(next: Moves, i: nat, t: nat): Option<nat>
    decreases t
  {
    if t == 0 then Some(i) else if next(i).None? then None else After(next, next(i).value, t - 1)
  }

  /** At some position the scan comes by twice. */
  ghost predicate ComesBack(next: Moves, i: nat) {
    exists s: nat, t: nat :: s < t && After(next, i, s).Some? && After(next, i, s) == After(next, i, t)
  }

  ghost predicate EndsBefore(next: Moves, n: nat) {
    forall p: nat :: p >= n ==> next(p).None?
  }

  lemma {:induction false} AfterAfter(next: Moves, i: nat, s: nat, t: nat)
    ensures After(next, i, s + t) == if After(next, i, s).None? then None else After(next, After(next, i, s).value, t)
    decreases s
  {
    if s > 0 && next(i).Some? {
      AfterAfter(next, next(i).value, s - 1, t);
    }
  }

  /** Once round, always round. */
  lemma {:induction false} GoesRound(next: Moves, p: nat, c: nat, t: nat)
    requires c > 0 && After(next, p, c) == Some(p)
    ensures After(next, p, t).Some?
    decreases t
  {
    if t < c {
      AfterAfter(next, p, t, c - t);
    } else {
      AfterAfter(next, p, c, t - c);
      GoesRound(next, p, c, t - c);
    }
  }

  lemma ComingBackNeverEnds(next: Moves, i: nat, t: nat)
    requires ComesBack(next, i)
    ensures After(next, i, t).Some?
  {
    var s: nat, u: nat :| s < u && After(next, i, s).Some? && After(next, i, s) == After(next, i, u);
    var p := After(next, i, s).value;
    AfterAfter(next, i, s, u - s);
    if t < s {
      AfterAfter(next, i, t, s - t);
    } else {
      GoesRound(next, p, u - s, t - s);
      AfterAfter(next, i, s, t - s);
    }
  }

  lemma InsideBefore(next: Moves, i: nat, n: nat, s: nat, t: nat)
    requires EndsBefore(next, n) && s < t && After(next, i, t).Some?
    ensures After(next, i, s).Some? && After(next, i, s).value < n
  {
    AfterAfter(next, i, s, t - s);
  }

  /** More than n turns among n positions come by one of them twice. */
  lemma LongScansComeBack(next: Moves, i: nat, n: nat)
    requires EndsBefore(next, n) && After(next, i, n + 1).Some?
    ensures ComesBack(next, i)
  {
    hide EndsBefore, After;
    forall t: nat | t <= n ensures After(next, i, t).Some? && After(next, i, t).value < n {
      InsideBefore(next, i, n, t, n + 1);
    }
    var ps := seq(n + 1, t requires 0 <= t <= n => After(next, i, t).value);
    if NoDup(ps) {
      Below(Elems(ps), n);
      NoDupFits(ps, Elems(ps));
    } else {
      var s, t :| 0 <= s < t < |ps| && ps[s] == ps[t];
      assert ps[s] == After(next, i, s).value && ps[t] == After(next, i, t).value;
    }
  }

  /** A scan of n positions ends, within n turns, iff it comes by no position twice. */
  lemma EndsIffNeverBack(next: Moves, i: nat, n: nat)
    requires EndsBefore(next, n)
    ensures After(next, i, n + 1).None? <==> !ComesBack(next, i)
    ensures (exists t: nat :: After(next, i, t).None?) <==> !ComesBack(next, i)
  {
    if After(next, i, n + 1).Some? {
      LongScansComeBack(next, i, n);
    }
    if ComesBack(next, i) {
      forall t: nat ensures After(next, i, t).Some? {
        ComingBackNeverEnds(next, i, t);
      }
    }
  }
}
