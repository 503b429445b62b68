/**
  The outcome of a floating-point division, kept exact over the reals.
  Dividing by zero does not fail in CoreGraphics: x / 0 is an infinity
  carrying the sign of x, and 0 / 0 is NaN. Comparisons follow IEEE 754:
  the infinities sit below and above every finite value, and every
  comparison involving NaN is false.
 */
module Quotients {

  datatype Quotient = Finite(value: real) | Infinite(negative: bool) | Undefined

  /**
    x / y for a divisor that is never negative (every divisor in the rectangle
    helpers is a standardised width or height, so signed zero does not arise).
   */
  function Divide(x: real, y: real): (q: Quotient)
    requires y >= 0.0
    ensures q.Finite? <==> y != 0.0
    ensures q.Finite? ==> q.value * y == x
    ensures q == Undefined <==> x == 0.0 && y == 0.0
    ensures q.Infinite? ==> y == 0.0 && (q.negative <==> x < 0.0)
  {
    if y != 0.0 then Finite(x / y)
    else if x == 0.0 then Undefined
    else Infinite(x < 0.0)
  }

  /** A finite quotient is the one value v with v * y == x. */
  lemma DivideUnique(x: real, y: real, v: real)
    requires y > 0.0 && v * y == x
    ensures Divide(x, y) == Finite(v)
  {
    var q := x / y;
    assert q * y == x;
    assert (q - v) * y == 0.0;
  }

  /** The IEEE `<=`: false as soon as either side is NaN. */
  predicate LessEq(a: Quotient, b: Quotient) {
    if a.Undefined? || b.Undefined? then false
    else if a == Infinite(true) || b == Infinite(false) then true
    else if a == Infinite(false) || b == Infinite(true) then false
    else a.value <= b.value
  }

  /** The IEEE `<`. */
  predicate Less(a: Quotient, b: Quotient) {
    LessEq(a, b) && !LessEq(b, a)
  }

  /** The IEEE `==`: NaN equals nothing, not even itself. */
  predicate Equal(a: Quotient, b: Quotient) {
    LessEq(a, b) && LessEq(b, a)
  }

  /** On finite values the three comparisons are the ordinary ones on reals. */
  lemma FiniteComparisons(x: real, y: real)
    ensures LessEq(Finite(x), Finite(y)) <==> x <= y
    ensures Less(Finite(x), Finite(y)) <==> x < y
    ensures Equal(Finite(x), Finite(y)) <==> x == y
  {
  }

  /** NaN is unordered: no comparison with it holds. */
  lemma UndefinedUnordered(a: Quotient)
    ensures !LessEq(a, Undefined) && !LessEq(Undefined, a)
    ensures !Less(a, Undefined) && !Less(Undefined, a)
    ensures !Equal(a, Undefined) && !Equal(Undefined, a)
  {
  }

  /** Between ordered values exactly one of <, == and > holds. */
  lemma Trichotomy(a: Quotient, b: Quotient)
    requires a != Undefined && b != Undefined
    ensures Less(a, b) || Equal(a, b) || Less(b, a)
    ensures !(Less(a, b) && Equal(a, b)) && !(Less(a, b) && Less(b, a)) && !(Equal(a, b) && Less(b, a))
  {
  }
}
