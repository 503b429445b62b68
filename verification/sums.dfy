/**
  Finite sums over an index range, the arithmetic behind a matrix product.
  `Sum(n, f)` is f(0) + f(1) + ... + f(n-1), accumulated from zero.
 */
module Sums {

  function Sum(n: nat, f: nat -> real): real
    decreases n
  {
    if n == 0 then 0.0 else Sum(n - 1, f) + f(n - 1)
  }

  /** Sums of functions that agree on the range are equal. */
  lemma {:induction false} SumExt(n: nat, f: nat -> real, g: nat -> real)
    requires forall t: nat :: t < n ==> f(t) == g(t)
    ensures Sum(n, f) == Sum(n, g)
  {
    if n > 0 {
      SumExt(n - 1, f, g);
    }
  }

  /** A sum whose every term is zero is zero. */
  lemma {:induction false} SumZero(n: nat, f: nat -> real)
    requires forall t: nat :: t < n ==> f(t) == 0.0
    ensures Sum(n, f) == 0.0
  {
    if n > 0 {
      SumZero(n - 1, f);
    }
  }

  /** A sum with a single non-zero term at index k is that term. */
  lemma {:induction false} SumSingle(n: nat, f: nat -> real, k: nat)
    requires k < n
    requires forall t: nat :: t < n && t != k ==> f(t) == 0.0
    ensures Sum(n, f) == f(k)
  {
    if k == n - 1 {
      SumZero(n - 1, f);
    } else {
      SumSingle(n - 1, f, k);
    }
  }

  /** Linearity: if h = f + c*g on the range, then Sum h = Sum f + c * Sum g. */
  lemma {:induction false} SumLinear(n: nat, f: nat -> real, g: nat -> real, c: real, h: nat -> real)
    requires forall t: nat :: t < n ==> h(t) == f(t) + c * g(t)
    ensures Sum(n, h) == Sum(n, f) + c * Sum(n, g)
  {
    if n > 0 {
      SumLinear(n - 1, f, g, c, h);
    }
  }

  /** A constant factor can be taken out of a sum. */
  lemma {:induction false} SumScale(n: nat, f: nat -> real, c: real, h: nat -> real)
    requires forall t: nat :: t < n ==> h(t) == c * f(t)
    ensures Sum(n, h) == c * Sum(n, f)
  {
    if n > 0 {
      SumScale(n - 1, f, c, h);
    }
  }

  /**
    The order of summation in a double sum does not matter: if rowSum(t) sums
    f(t, _) and colSum(u) sums f(_, u), both totals agree.
   */
  lemma {:induction false} SumSwap(n: nat, m: nat, f: (nat, nat) -> real, rowSum: nat -> real, colSum: nat -> real)
    requires forall t: nat :: t < n ==> rowSum(t) == Sum(m, (u: nat) => f(t, u))
    requires forall u: nat :: u < m ==> colSum(u) == Sum(n, (t: nat) => f(t, u))
    ensures Sum(n, rowSum) == Sum(m, colSum)
    decreases n
  {
    if n == 0 {
      SumZero(m, colSum);
    } else {
      var shorter := (u: nat) => colSum(u) - f(n - 1, u);
      SumSwap(n - 1, m, f, rowSum, shorter);
      var last := (u: nat) => f(n - 1, u);
      SumLinear(m, shorter, last, 1.0, colSum);
      SumExt(m, last, (u: nat) => f(n - 1, u));
    }
  }

  /** Four-term sums written out, for fixed-size systems. */
  lemma SumFour(f: nat -> real)
    ensures Sum(4, f) == f(0) + f(1) + f(2) + f(3)
  {
    assert Sum(1, f) == f(0);
    assert Sum(2, f) == f(0) + f(1);
    assert Sum(3, f) == f(0) + f(1) + f(2);
  }
}
