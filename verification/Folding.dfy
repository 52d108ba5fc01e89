/** Running a step over the items of a list. */
module Folding {
  import opened Text

  /** The state after the first k items. */
  function Fold<S, X>(f: (S, X) -> S, s: S, xs: seq<X>, k: nat): S
    requires k <= |xs|
  {
    if k == 0 then s else f(Fold(f, s, xs, k - 1), xs[k - 1])
  }

  function All<S, X>(f: (S, X) -> S, s: S, xs: seq<X>): S {
    Fold(f, s, xs, |xs|)
  }

  /** A run seen through h is a run, when every step is. */
  lemma {:induction false} FoldMapped<S, T, X>(f: (S, X) -> S, g: (T, X) -> T, h: S -> T, s: S, xs: seq<X>, k: nat)
    requires k <= |xs| && forall a: S, x: X :: h(f(a, x)) == g(h(a), x)
    ensures h(Fold(f, s, xs, k)) == Fold(g, h(s), xs, k)
  {
    if k > 0 {
      FoldMapped(f, g, h, s, xs, k - 1);
      assert h(f(Fold(f, s, xs, k - 1), xs[k - 1])) == g(h(Fold(f, s, xs, k - 1)), xs[k - 1]);
    }
  }

  /** Two runs side by side: while every item is one of ok and the states have a meaning, the second run is the meaning
      of the first. */
  lemma {:induction false} FoldRelated<S, T, X>(f: (S, X) -> S, g: (T, X) -> T, h: S -> Option<T>, ok: X -> bool,
                                                s: S, t: T, xs: seq<X>, k: nat)
    requires k <= |xs| && h(s) == Some(t) && forall i :: 0 <= i < |xs| ==> ok(xs[i])
    requires forall a: S, x: X :: ok(x) && h(a).Some? ==> h(f(a, x)) == Some(g(h(a).value, x))
    ensures h(Fold(f, s, xs, k)) == Some(Fold(g, t, xs, k))
  {
    if k > 0 {
      FoldRelated(f, g, h, ok, s, t, xs, k - 1);
      assert ok(xs[k - 1]);
    }
  }

  /** The last item is taken last. */
  lemma AllLast<S, X>(f: (S, X) -> S, s: S, xs: seq<X>, n: nat)
    requires |xs| == n + 1
    ensures All(f, s, xs) == f(Fold(f, s, xs, n), xs[n])
  {
  }

  lemma {:induction false} FoldPrefix<S, X>(f: (S, X) -> S, s: S, a: seq<X>, b: seq<X>, k: nat)
    requires k <= |a|
    ensures Fold(f, s, a + b, k) == Fold(f, s, a, k)
  {
    if k > 0 {
      FoldPrefix(f, s, a, b, k - 1);
    }
  }

  lemma {:induction false} FoldSuffix<S, X>(f: (S, X) -> S, s: S, a: seq<X>, b: seq<X>, k: nat)
    requires k <= |b|
    ensures Fold(f, s, a + b, |a| + k) == Fold(f, All(f, s, a), b, k)
  {
    if k == 0 {
      FoldPrefix(f, s, a, b, |a|);
    } else {
      FoldSuffix(f, s, a, b, k - 1);
      assert (a + b)[|a| + k - 1] == b[k - 1];
    }
  }

  /** Two lists one after the other. */
  lemma AllAppend<S, X>(f: (S, X) -> S, s: S, a: seq<X>, b: seq<X>)
    ensures All(f, s, a + b) == All(f, All(f, s, a), b)
  {
    FoldSuffix(f, s, a, b, |b|);
  }

  lemma AllOne<S, X>(f: (S, X) -> S, s: S, x: X)
    ensures All(f, s, [x]) == f(s, x)
    ensures All(f, s, []) == s
  {
    assert Fold(f, s, [x], 0) == s;
  }

  /** f(0), f(1), up to f(n - 1). */
  function Listed<X>(f: int -> X, n: nat): (xs: seq<X>)
    ensures |xs| == n
  {
    if n == 0 then [] else Listed(f, n - 1) + [f(n - 1)]
  }

  lemma {:induction false} ListedAt<X>(f: int -> X, n: nat, k: nat)
    requires k < n
    ensures Listed(f, n)[k] == f(k)
  {
    if k < n - 1 {
      ListedAt(f, n - 1, k);
    }
  }
}
