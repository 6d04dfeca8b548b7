/** Sums over sequences. */
module Sums {

  function Sum<T>(xs: seq<T>, f: T -> int): int {
    if xs == [] then 0 else Sum(xs[..|xs| - 1], f) + f(xs[|xs| - 1])
  }

  lemma {:induction false} SumAppend<T>(xs: seq<T>, ys: seq<T>, f: T -> int)
    ensures Sum(xs + ys, f) == Sum(xs, f) + Sum(ys, f)
  {
    if ys == [] {
      assert xs + ys == xs;
    } else {
      assert (xs + ys)[..|xs + ys| - 1] == xs + ys[..|ys| - 1];
      SumAppend(xs, ys[..|ys| - 1], f);
    }
  }

  lemma SumOne<T>(x: T, f: T -> int)
    ensures Sum([x], f) == f(x)
  {
    assert [x][..0] == [];
  }

  lemma SumThree<T>(xs: seq<T>, ys: seq<T>, zs: seq<T>, f: T -> int)
    ensures Sum(xs + ys + zs, f) == Sum(xs, f) + Sum(ys, f) + Sum(zs, f)
  {
    SumAppend(xs + ys, zs, f);
    SumAppend(xs, ys, f);
  }

  lemma SumAround<T>(xs: seq<T>, i: nat, x: T, f: T -> int)
    requires i < |xs|
    ensures Sum(xs[i := x], f) == Sum(xs[..i], f) + f(x) + Sum(xs[i + 1..], f)
  {
    assert xs[i := x] == xs[..i] + [x] + xs[i + 1..];
    SumThree(xs[..i], [x], xs[i + 1..], f);
    SumOne(x, f);
  }

  /** Replacing one element changes a sum by the difference. */
  lemma SumUpdate<T>(xs: seq<T>, i: nat, x: T, f: T -> int)
    requires i < |xs|
    ensures Sum(xs[i := x], f) == Sum(xs, f) - f(xs[i]) + f(x)
  {
    SumAround(xs, i, x, f);
    SumAround(xs, i, xs[i], f);
    assert xs[i := xs[i]] == xs;
  }

  lemma SumRemove<T>(xs: seq<T>, i: nat, f: T -> int)
    requires i < |xs|
    ensures Sum(xs[..i] + xs[i + 1..], f) == Sum(xs, f) - f(xs[i])
  {
    SumAround(xs, i, xs[i], f);
    assert xs[i := xs[i]] == xs;
    SumAppend(xs[..i], xs[i + 1..], f);
  }

  lemma {:induction false} SumCopies<T>(n: nat, x: T, f: T -> int)
    ensures Sum(seq(n, _ => x), f) == n * f(x)
  {
    if n == 0 {
    } else {
      assert seq(n, _ => x)[..n - 1] == seq(n - 1, _ => x);
      SumCopies(n - 1, x, f);
    }
  }

  lemma {:induction false} SumNonNegative<T>(xs: seq<T>, f: T -> int)
    requires forall x :: f(x) >= 0
    ensures Sum(xs, f) >= 0
  {
    if xs == [] {
    } else {
      SumNonNegative(xs[..|xs| - 1], f);
    }
  }

  /** A sum of non-negative numbers is at least any of them. */
  lemma SumAtLeast<T>(xs: seq<T>, i: nat, f: T -> int)
    requires (forall x :: f(x) >= 0) && i < |xs|
    ensures Sum(xs, f) >= f(xs[i]) >= 0
  {
    SumRemove(xs, i, f);
    SumNonNegative(xs[..i] + xs[i + 1..], f);
  }

  lemma {:induction false} SumZero<T>(xs: seq<T>, f: T -> int)
    requires forall i :: 0 <= i < |xs| ==> f(xs[i]) == 0
    ensures Sum(xs, f) == 0
  {
    if xs == [] {
    } else {
      SumZero(xs[..|xs| - 1], f);
    }
  }
}
