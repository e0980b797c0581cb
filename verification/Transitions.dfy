/** Runs of a deterministic transition function. */
module Transitions {
  import opened Wrappers

  ghost function Iterate<S>(f: S -> Option<S>, s: S, n: nat): Option<S>
    decreases n
  {
    if n == 0 then Some(s)
    else
      match f(s)
      case None => None
      case Some(t) => Iterate(f, t, n - 1)
  }

  ghost predicate Reach<S>(f: S -> Option<S>, s: S, t: S) {
    exists n: nat :: Iterate(f, s, n) == Some(t)
  }

  lemma {:induction false} IterateAdd<S>(f: S -> Option<S>, s: S, m: nat, n: nat, t: S)
    requires Iterate(f, s, m) == Some(t)
    ensures Iterate(f, s, m + n) == Iterate(f, t, n)
    decreases m
  {
    if m > 0 {
      IterateAdd(f, f(s).value, m - 1, n, t);
    }
  }

  lemma ReachHere<S>(f: S -> Option<S>, s: S)
    ensures Reach(f, s, s)
  {
    assert Iterate(f, s, 0) == Some(s);
  }

  lemma ReachStep<S>(f: S -> Option<S>, s: S, t: S)
    requires f(s) == Some(t)
    ensures Reach(f, s, t)
  {
    assert Iterate(f, t, 0) == Some(t);
    assert Iterate(f, s, 1) == Some(t);
  }

  lemma ReachTrans<S>(f: S -> Option<S>, s: S, t: S, u: S)
    requires Reach(f, s, t) && Reach(f, t, u)
    ensures Reach(f, s, u)
  {
    var m: nat :| Iterate(f, s, m) == Some(t);
    var n: nat :| Iterate(f, t, n) == Some(u);
    IterateAdd(f, s, m, n, t);
  }

  /** At least `n` steps can be made. */
  ghost predicate Long<S>(f: S -> Option<S>, s: S, n: nat) {
    exists m: nat :: m >= n && Iterate(f, s, m).Some?
  }

  lemma LongAfter<S>(f: S -> Option<S>, s: S, t: S, n: nat)
    requires Reach(f, s, t) && Long(f, t, n)
    ensures Long(f, s, n)
  {
    var k: nat :| Iterate(f, s, k) == Some(t);
    var m: nat :| m >= n && Iterate(f, t, m).Some?;
    IterateAdd(f, s, k, m, t);
    assert Iterate(f, s, k + m).Some?;
  }

  lemma LongStep<S>(f: S -> Option<S>, s: S, t: S, n: nat)
    requires f(s) == Some(t) && Long(f, t, n)
    ensures Long(f, s, n + 1)
  {
    var m: nat :| m >= n && Iterate(f, t, m).Some?;
    assert Iterate(f, s, m + 1).Some?;
  }

  lemma LongHere<S>(f: S -> Option<S>, s: S)
    ensures Long(f, s, 0)
  {
    assert Iterate(f, s, 0).Some?;
  }

  /** A run that ends after `n` steps makes no more. */
  lemma EndsWithin<S>(f: S -> Option<S>, s: S, n: nat, t: S)
    requires Iterate(f, s, n) == Some(t) && f(t) == None
    ensures !Long(f, s, n + 1)
  {
    forall m: nat | m >= n + 1 ensures Iterate(f, s, m).None? {
      IterateAdd(f, s, n, m - n, t);
    }
  }

  lemma EndIsUnique<S>(f: S -> Option<S>, s: S, t: S, u: S)
    requires Reach(f, s, t) && Reach(f, s, u) && f(t) == None && f(u) == None
    ensures t == u
  {
    var m: nat :| Iterate(f, s, m) == Some(t);
    var n: nat :| Iterate(f, s, n) == Some(u);
    if m <= n {
      IterateAdd(f, s, m, n - m, t);
    } else {
      IterateAdd(f, s, n, m - n, u);
    }
  }
}
