/**
  The two-point similarity solver of the pinch view. Two reference points
  q1, q2 in image coordinates give a 4x4 linear system whose unknowns are
  (U, V, tx, ty); multiplying its inverse by the live points (q1', q2')
  yields the transform [U V -V U tx ty], a rotation-and-scale followed by a
  translation, which carries q1 to q1' and q2 to q2'.
 */
module Solver {
  import opened Wrappers
  import opened Sums
  import opened HXMatrix
  import opened Geometry
  import opened Affine
  import opened Products4

  // ---------------------------------------------------------------------------
  // The system and its closed-form inverse
  // ---------------------------------------------------------------------------

  /** The product of two reals, named so that squares stay single terms. */
  function Prod(a: real, b: real): real {
    a * b
  }

  /** Two reals of the same strict sign have a positive product. */
  lemma ProductPositive(a: real, b: real)
    requires (a > 0.0 && b > 0.0) || (a < 0.0 && b < 0.0)
    ensures Prod(a, b) > 0.0
  {
    if a < 0.0 {
      assert a * b == (-a) * (-b);
    }
  }

  /** A square is never negative, and positive unless its root is zero. */
  lemma SquareSign(v: real)
    ensures Prod(v, v) >= 0.0
    ensures v != 0.0 ==> Prod(v, v) > 0.0
  {
    if v != 0.0 {
      ProductPositive(v, v);
    }
  }

  /** The squared distance between the two reference points. */
  function Spread(q1: Point, q2: Point): real {
    Prod(q2.x - q1.x, q2.x - q1.x) + Prod(q2.y - q1.y, q2.y - q1.y)
  }

  /** The spread is positive exactly when the points differ, and zero otherwise. */
  lemma SpreadSign(q1: Point, q2: Point)
    ensures Spread(q1, q2) >= 0.0
    ensures Spread(q1, q2) > 0.0 <==> q1 != q2
  {
    SquareSign(q2.x - q1.x);
    SquareSign(q2.y - q1.y);
    if q1 == q2 {
      assert q2.x - q1.x == 0.0 && q2.y - q1.y == 0.0;
      assert Prod(0.0, 0.0) == 0.0;
    }
  }

  /**
    The inverse of the system, row-major, for reference points (x1, y1) and
    (x2, y2), in terms of u = (x2 - x1) / D and w = (y2 - y1) / D where D is
    the spread. Rows for U and V come from subtracting the two row pairs,
    rows for tx and ty from substituting back into the first pair.
   */
  function InverseEntries(x1: real, y1: real, u: real, w: real): (e: seq<real>)
    ensures |e| == 16
  {
    var P, Q := x1 * u + y1 * w, x1 * w - y1 * u;
    [-u,       -w,        u,  w,
      w,       -u,       -w,  u,
     1.0 + P,   Q,       -P, -Q,
     -Q,       1.0 + P,   Q, -P]
  }

  /** The entries of the system for reference points (x1, y1) and (x2, y2). */
  function SystemOf(x1: real, y1: real, x2: real, y2: real): (e: seq<real>)
    ensures |e| == 16
  {
    [x1, -y1, 1.0, 0.0,
     y1,  x1, 0.0, 1.0,
     x2, -y2, 1.0, 0.0,
     y2,  x2, 0.0, 1.0]
  }

  /** The tx and ty rows against the differences, regrouped by the two hypotheses. */
  lemma Regroup(x1: real, y1: real, x2: real, y2: real, u: real, w: real)
    requires u * (x2 - x1) + w * (y2 - y1) == 1.0
    requires w * (x2 - x1) == u * (y2 - y1)
    ensures (x1 * u + y1 * w) * (x2 - x1) + (x1 * w - y1 * u) * (y2 - y1) == x1
    ensures (x1 * u + y1 * w) * (y2 - y1) - (x1 * w - y1 * u) * (x2 - x1) == y1
  {
    var E, F := u * (x2 - x1) + w * (y2 - y1), w * (x2 - x1) - u * (y2 - y1);
    assert (x1 * u + y1 * w) * (x2 - x1) + (x1 * w - y1 * u) * (y2 - y1) == x1 * E + y1 * F;
    assert (x1 * u + y1 * w) * (y2 - y1) - (x1 * w - y1 * u) * (x2 - x1) == y1 * E - x1 * F;
  }

  lemma SystemTimesInverseRow0(x1: real, y1: real, x2: real, y2: real, u: real, w: real)
    requires u * (x2 - x1) + w * (y2 - y1) == 1.0
    requires w * (x2 - x1) == u * (y2 - y1)
    ensures forall j: nat :: j < 4 ==> Dot4(SystemOf(x1, y1, x2, y2), InverseEntries(x1, y1, u, w), 0, j) == Delta(0, j)
  {
  }

  lemma InverseTimesSystemRow0(x1: real, y1: real, x2: real, y2: real, u: real, w: real)
    requires u * (x2 - x1) + w * (y2 - y1) == 1.0
    requires w * (x2 - x1) == u * (y2 - y1)
    ensures forall j: nat :: j < 4 ==> Dot4(InverseEntries(x1, y1, u, w), SystemOf(x1, y1, x2, y2), 0, j) == Delta(0, j)
  {
    assert -u * x1 + -w * y1 + u * x2 + w * y2 == u * (x2 - x1) + w * (y2 - y1);
    assert -u * -y1 + -w * x1 + u * -y2 + w * x2 == w * (x2 - x1) - u * (y2 - y1);
  }

  lemma SystemTimesInverseRow1(x1: real, y1: real, x2: real, y2: real, u: real, w: real)
    requires u * (x2 - x1) + w * (y2 - y1) == 1.0
    requires w * (x2 - x1) == u * (y2 - y1)
    ensures forall j: nat :: j < 4 ==> Dot4(SystemOf(x1, y1, x2, y2), InverseEntries(x1, y1, u, w), 1, j) == Delta(1, j)
  {
  }

  lemma InverseTimesSystemRow1(x1: real, y1: real, x2: real, y2: real, u: real, w: real)
    requires u * (x2 - x1) + w * (y2 - y1) == 1.0
    requires w * (x2 - x1) == u * (y2 - y1)
    ensures forall j: nat :: j < 4 ==> Dot4(InverseEntries(x1, y1, u, w), SystemOf(x1, y1, x2, y2), 1, j) == Delta(1, j)
  {
    assert w * x1 + -u * y1 + -w * x2 + u * y2 == u * (y2 - y1) - w * (x2 - x1);
    assert w * -y1 + -u * x1 + -w * -y2 + u * x2 == u * (x2 - x1) + w * (y2 - y1);
  }

  lemma SystemTimesInverseRow2(x1: real, y1: real, x2: real, y2: real, u: real, w: real)
    requires u * (x2 - x1) + w * (y2 - y1) == 1.0
    requires w * (x2 - x1) == u * (y2 - y1)
    ensures forall j: nat :: j < 4 ==> Dot4(SystemOf(x1, y1, x2, y2), InverseEntries(x1, y1, u, w), 2, j) == Delta(2, j)
  {
    var P, Q := x1 * u + y1 * w, x1 * w - y1 * u;
    assert x2 * -u + -y2 * w + 1.0 * (1.0 + P) + 0.0 * -Q == 1.0 - (u * (x2 - x1) + w * (y2 - y1));
    assert x2 * -w + -y2 * -u + 1.0 * Q + 0.0 * (1.0 + P) == u * (y2 - y1) - w * (x2 - x1);
    assert x2 * u + -y2 * -w + 1.0 * -P + 0.0 * Q == u * (x2 - x1) + w * (y2 - y1);
    assert x2 * w + -y2 * u + 1.0 * -Q + 0.0 * -P == w * (x2 - x1) - u * (y2 - y1);
  }

  lemma InverseTimesSystemRow2(x1: real, y1: real, x2: real, y2: real, u: real, w: real)
    requires u * (x2 - x1) + w * (y2 - y1) == 1.0
    requires w * (x2 - x1) == u * (y2 - y1)
    ensures forall j: nat :: j < 4 ==> Dot4(InverseEntries(x1, y1, u, w), SystemOf(x1, y1, x2, y2), 2, j) == Delta(2, j)
  {
    var P, Q := x1 * u + y1 * w, x1 * w - y1 * u;
    Regroup(x1, y1, x2, y2, u, w);
    assert (1.0 + P) * x1 + Q * y1 + -P * x2 + -Q * y2 == x1 - (P * (x2 - x1) + Q * (y2 - y1));
    assert (1.0 + P) * -y1 + Q * x1 + -P * -y2 + -Q * x2 == -y1 + (P * (y2 - y1) - Q * (x2 - x1));
  }

  lemma SystemTimesInverseRow3(x1: real, y1: real, x2: real, y2: real, u: real, w: real)
    requires u * (x2 - x1) + w * (y2 - y1) == 1.0
    requires w * (x2 - x1) == u * (y2 - y1)
    ensures forall j: nat :: j < 4 ==> Dot4(SystemOf(x1, y1, x2, y2), InverseEntries(x1, y1, u, w), 3, j) == Delta(3, j)
  {
    var P, Q := x1 * u + y1 * w, x1 * w - y1 * u;
    assert y2 * -u + x2 * w + 0.0 * (1.0 + P) + 1.0 * -Q == w * (x2 - x1) - u * (y2 - y1);
    assert y2 * -w + x2 * -u + 0.0 * Q + 1.0 * (1.0 + P) == 1.0 - (u * (x2 - x1) + w * (y2 - y1));
    assert y2 * u + x2 * -w + 0.0 * -P + 1.0 * Q == u * (y2 - y1) - w * (x2 - x1);
    assert y2 * w + x2 * u + 0.0 * -Q + 1.0 * -P == u * (x2 - x1) + w * (y2 - y1);
  }

  lemma InverseTimesSystemRow3(x1: real, y1: real, x2: real, y2: real, u: real, w: real)
    requires u * (x2 - x1) + w * (y2 - y1) == 1.0
    requires w * (x2 - x1) == u * (y2 - y1)
    ensures forall j: nat :: j < 4 ==> Dot4(InverseEntries(x1, y1, u, w), SystemOf(x1, y1, x2, y2), 3, j) == Delta(3, j)
  {
    var P, Q := x1 * u + y1 * w, x1 * w - y1 * u;
    Regroup(x1, y1, x2, y2, u, w);
    assert -Q * x1 + (1.0 + P) * y1 + Q * x2 + -P * y2 == y1 - (P * (y2 - y1) - Q * (x2 - x1));
    assert -Q * -y1 + (1.0 + P) * x1 + Q * -y2 + -P * x2 == x1 - (P * (x2 - x1) + Q * (y2 - y1));
  }

  /** Every entry of the system times the closed form is a Kronecker delta. */
  lemma SystemTimesInverse(x1: real, y1: real, x2: real, y2: real, u: real, w: real)
    requires u * (x2 - x1) + w * (y2 - y1) == 1.0
    requires w * (x2 - x1) == u * (y2 - y1)
    ensures forall i: nat, j: nat :: i < 4 && j < 4 ==>
              Dot4(SystemOf(x1, y1, x2, y2), InverseEntries(x1, y1, u, w), i, j) == Delta(i, j)
  {
    SystemTimesInverseRow0(x1, y1, x2, y2, u, w);
    SystemTimesInverseRow1(x1, y1, x2, y2, u, w);
    SystemTimesInverseRow2(x1, y1, x2, y2, u, w);
    SystemTimesInverseRow3(x1, y1, x2, y2, u, w);
  }

  /** Every entry of the closed form times the system is a Kronecker delta. */
  lemma InverseTimesSystem(x1: real, y1: real, x2: real, y2: real, u: real, w: real)
    requires u * (x2 - x1) + w * (y2 - y1) == 1.0
    requires w * (x2 - x1) == u * (y2 - y1)
    ensures forall i: nat, j: nat :: i < 4 && j < 4 ==>
              Dot4(InverseEntries(x1, y1, u, w), SystemOf(x1, y1, x2, y2), i, j) == Delta(i, j)
  {
    InverseTimesSystemRow0(x1, y1, x2, y2, u, w);
    InverseTimesSystemRow1(x1, y1, x2, y2, u, w);
    InverseTimesSystemRow2(x1, y1, x2, y2, u, w);
    InverseTimesSystemRow3(x1, y1, x2, y2, u, w);
  }

  /** Both products of the system with the closed form are the identity. */
  lemma ClosedFormInverts(x1: real, y1: real, x2: real, y2: real, u: real, w: real)
    requires u * (x2 - x1) + w * (y2 - y1) == 1.0
    requires w * (x2 - x1) == u * (y2 - y1)
    ensures IsInverse(Create(4, 4, SystemOf(x1, y1, x2, y2)), Create(4, 4, InverseEntries(x1, y1, u, w)))
  {
    var a, b := SystemOf(x1, y1, x2, y2), InverseEntries(x1, y1, u, w);
    SystemTimesInverse(x1, y1, x2, y2, u, w);
    ProductIdentity4(a, b);
    InverseTimesSystem(x1, y1, x2, y2, u, w);
    ProductIdentity4(b, a);
  }

  /**
    Scaling the difference (a, b) by its squared length S gives a vector
    whose dot product with (c, d) = (a, b) is 1 and which is parallel to it.
    The copies c, d keep every product between two distinct names.
   */
  lemma Normalise(a: real, b: real, c: real, d: real, S: real)
    requires a == c && b == d && S != 0.0 && S == Prod(a, c) + Prod(b, d)
    ensures (a / S) * c + (b / S) * d == 1.0
    ensures (b / S) * c == (a / S) * d
  {
    assert (a / S) * c == (a * c) / S;
    assert (b / S) * d == (b * d) / S;
    assert (a * c) / S + (b * d) / S == (a * c + b * d) / S;
    assert S / S == 1.0;
    assert (b / S) * c == (b * c) / S;
    assert (a / S) * d == (a * d) / S;
  }

  // ---------------------------------------------------------------------------
  // The system of the view
  // ---------------------------------------------------------------------------

  /**
    The system matrix for reference points q1 and q2: the row pair
    (x, -y, 1, 0), (y, x, 0, 1) for each point, so that its product with
    (U, V, tx, ty) stacks the images of q1 and q2 under [U V -V U tx ty].
   */
  function SystemMatrix(q1: Point, q2: Point): Matrix {
    Create(4, 4, SystemOf(q1.x, q1.y, q2.x, q2.y))
  }

  /** The shape of every solution the view caches. */
  type Matrix4 = m: Matrix | m.rows == 4 && m.columns == 4 witness Grid(4, 4, seq(16, _ => 0.0))

  /**
    Solving for two reference points: the inverse of their system. The
    system is singular exactly when the points coincide, and then there is
    no solution.
   */
  function SolveSystem(q1: Point, q2: Point): (r: Option<Matrix4>)
    ensures r.Some? <==> q1 != q2
    ensures r.Some? ==> IsInverse(SystemMatrix(q1, q2), r.value)
  {
    if q1 == q2 then None
    else
      var S := Spread(q1, q2);
      SpreadSign(q1, q2);
      var u, w := (q2.x - q1.x) / S, (q2.y - q1.y) / S;
      Normalise(q2.x - q1.x, q2.y - q1.y, q2.x - q1.x, q2.y - q1.y, S);
      ClosedFormInverts(q1.x, q1.y, q2.x, q2.y, u, w);
      Some(Create(4, 4, InverseEntries(q1.x, q1.y, u, w)))
  }

  /** Equal reference points make rows 0 and 2 of the system, and so of any product with it, equal. */
  lemma CoincidentRows(q: Point, x: Matrix)
    requires x.rows == 4 && x.columns == 4
    ensures Get(Multiply(SystemMatrix(q, q), x), 0, 0) == Get(Multiply(SystemMatrix(q, q), x), 2, 0)
  {
    var m := SystemMatrix(q, q);
    forall t: nat | t < 4
      ensures Term(m, 0, x, 0)(t) == Term(m, 2, x, 0)(t)
    {
      CreateGet(4, 4, SystemOf(q.x, q.y, q.x, q.y), 0, t);
      CreateGet(4, 4, SystemOf(q.x, q.y, q.x, q.y), 2, t);
    }
    SumExt(4, Term(m, 0, x, 0), Term(m, 2, x, 0));
  }

  /** The system of two equal reference points has no inverse. */
  lemma CoincidentSingular(q: Point)
    ensures !Invertible(SystemMatrix(q, q))
  {
    var m := SystemMatrix(q, q);
    forall x: Matrix
      ensures !IsInverse(m, x)
    {
      if x.rows == 4 && x.columns == 4 {
        CoincidentRows(q, x);
        assert Get(HXMatrix.Identity(4), 0, 0) != Get(HXMatrix.Identity(4), 2, 0);
      }
    }
  }

  /** The system is invertible exactly when the two reference points differ. */
  lemma SystemInvertible(q1: Point, q2: Point)
    ensures Invertible(SystemMatrix(q1, q2)) <==> q1 != q2
    ensures q1 != q2 ==> SolveSystem(q1, q2) == Some(Inverse(SystemMatrix(q1, q2)))
  {
    if q1 == q2 {
      CoincidentSingular(q1);
    } else {
      InverseOf(SystemMatrix(q1, q2), SolveSystem(q1, q2).value);
    }
  }
  /** The determinant of a 3x3 matrix given row by row. */
  function Det3(a: real, b: real, c: real, d: real, e: real, f: real, g: real, h: real, i: real): real {
    a * (e * i - f * h) - b * (d * i - f * g) + c * (d * h - e * g)
  }

  /** The determinant of a row-major 4x4 entry list, expanded along the first row. */
  function Det4(e: seq<real>): real
    requires |e| == 16
  {
    e[0] * Det3(e[5], e[6], e[7], e[9], e[10], e[11], e[13], e[14], e[15])
    - e[1] * Det3(e[4], e[6], e[7], e[8], e[10], e[11], e[12], e[14], e[15])
    + e[2] * Det3(e[4], e[5], e[7], e[8], e[9], e[11], e[12], e[13], e[15])
    - e[3] * Det3(e[4], e[5], e[6], e[8], e[9], e[10], e[12], e[13], e[14])
  }

  /** The determinant of the system is the squared distance between the reference points. */
  lemma SystemDeterminant(q1: Point, q2: Point)
    ensures Det4(SystemMatrix(q1, q2).grid) == Spread(q1, q2)
  {
    var x1, y1, x2, y2 := q1.x, q1.y, q2.x, q2.y;
    assert Det3(x1, 0.0, 1.0, -y2, 1.0, 0.0, x2, 0.0, 1.0) == x1 - x2;
    assert Det3(y1, 0.0, 1.0, x2, 1.0, 0.0, y2, 0.0, 1.0) == y1 - y2;
    assert Det3(y1, x1, 1.0, x2, -y2, 0.0, y2, x2, 1.0) == x2 * x2 + y2 * y2 - x1 * x2 - y1 * y2;
    assert Prod(x2 - x1, x2 - x1) == x2 * x2 - 2.0 * x1 * x2 + x1 * x1;
    assert Prod(y2 - y1, y2 - y1) == y2 * y2 - 2.0 * y1 * y2 + y1 * y1;
  }

  // ---------------------------------------------------------------------------
  // From the solution to the transform
  // ---------------------------------------------------------------------------

  /** The live points stacked as the 4x1 right-hand side of the system. */
  function RightHandSide(q1': Point, q2': Point): Matrix {
    Create(4, 1, [q1'.x, q1'.y, q2'.x, q2'.y])
  }

  /**
    The transform for live points q1' and q2': with no solution the
    identity; otherwise (U, V, tx, ty) = solution * (q1', q2') gives
    [U V -V U tx ty], which never shears.
   */
  function ComputeTransform(solution: Option<Matrix>, q1': Point, q2': Point): (t: Transform)
    requires solution.Some? ==> solution.value.rows == 4 && solution.value.columns == 4
    ensures solution.None? ==> t == Affine.Identity
    ensures t.a == t.d && t.c == -t.b
  {
    match solution
    case None => Affine.Identity
    case Some(m) =>
      var c := Dot(m, RightHandSide(q1', q2'));
      var U, V, tx, ty := Get(c, 0, 0), Get(c, 1, 0), Get(c, 2, 0), Get(c, 3, 0);
      Transform(U, V, -V, U, tx, ty)
  }

  /** The transform without shear whose parameters (U, V, tx, ty) are the 4x1 column c. */
  function FromColumn(c: Matrix): (t: Transform)
    requires c.rows == 4 && c.columns == 1
    ensures t.a == t.d && t.c == -t.b
  {
    Transform(Get(c, 0, 0), Get(c, 1, 0), -Get(c, 1, 0), Get(c, 0, 0), Get(c, 2, 0), Get(c, 3, 0))
  }

  /** The coordinates of the images of q1 and q2, in the order of the right-hand side. */
  function Images(t: Transform, q1: Point, q2: Point): seq<real> {
    [Apply(t, q1).x, Apply(t, q1).y, Apply(t, q2).x, Apply(t, q2).y]
  }

  /** Rows 0 to 3 of the system applied to c are the coordinates of the images under FromColumn(c). */
  lemma SystemAppliedRow0(q1: Point, q2: Point, c: Matrix)
    requires c.rows == 4 && c.columns == 1
    ensures Get(Multiply(SystemMatrix(q1, q2), c), 0, 0) == Images(FromColumn(c), q1, q2)[0]
  {
    Product41Entry(SystemMatrix(q1, q2), c, 0);
  }

  lemma SystemAppliedRow1(q1: Point, q2: Point, c: Matrix)
    requires c.rows == 4 && c.columns == 1
    ensures Get(Multiply(SystemMatrix(q1, q2), c), 1, 0) == Images(FromColumn(c), q1, q2)[1]
  {
    Product41Entry(SystemMatrix(q1, q2), c, 1);
  }

  lemma SystemAppliedRow2(q1: Point, q2: Point, c: Matrix)
    requires c.rows == 4 && c.columns == 1
    ensures Get(Multiply(SystemMatrix(q1, q2), c), 2, 0) == Images(FromColumn(c), q1, q2)[2]
  {
    Product41Entry(SystemMatrix(q1, q2), c, 2);
  }

  lemma SystemAppliedRow3(q1: Point, q2: Point, c: Matrix)
    requires c.rows == 4 && c.columns == 1
    ensures Get(Multiply(SystemMatrix(q1, q2), c), 3, 0) == Images(FromColumn(c), q1, q2)[3]
  {
    Product41Entry(SystemMatrix(q1, q2), c, 3);
  }

  /** The system applied to the parameters of a transform stacks the images of q1 and q2. */
  lemma SystemApplied(q1: Point, q2: Point, c: Matrix)
    requires c.rows == 4 && c.columns == 1
    ensures Multiply(SystemMatrix(q1, q2), c) == Create(4, 1, Images(FromColumn(c), q1, q2))
  {
    var r := Multiply(SystemMatrix(q1, q2), c);
    var v := Images(FromColumn(c), q1, q2);
    var b := Create(4, 1, v);
    forall i: nat, j: nat | IndexIsValidFor(r, i, j)
      ensures Get(r, i, j) == Get(b, i, j)
    {
      if i == 0 {
        SystemAppliedRow0(q1, q2, c);
      } else if i == 1 {
        SystemAppliedRow1(q1, q2, c);
      } else if i == 2 {
        SystemAppliedRow2(q1, q2, c);
      } else {
        SystemAppliedRow3(q1, q2, c);
      }
      CreateGet(4, 1, v, i, 0);
    }
    Ext(r, b);
  }

  /** solution * rhs solves the system when the solution is its inverse. */
  lemma SolutionSolves(a: Matrix, w: Matrix, b: Matrix)
    requires IsInverse(a, w) && b.rows == a.rows
    ensures Multiply(a, Multiply(w, b)) == b
  {
    MultiplyAssociative(a, w, b);
    MultiplyIdentityLeft(b);
  }

  /** ComputeTransform reads the transform off the column solution * rhs. */
  lemma ComputeFromColumn(w: Matrix, q1': Point, q2': Point)
    requires w.rows == 4 && w.columns == 4
    ensures ComputeTransform(Some(w), q1', q2') == FromColumn(Multiply(w, RightHandSide(q1', q2')))
  {
  }

  /** Equal right-hand sides stack equal points. */
  lemma RightHandSideInjective(t: Transform, q1: Point, q2: Point, q1': Point, q2': Point)
    requires Create(4, 1, Images(t, q1, q2)) == RightHandSide(q1', q2')
    ensures Apply(t, q1) == q1' && Apply(t, q2) == q2'
  {
    assert Create(4, 1, Images(t, q1, q2)).grid == RightHandSide(q1', q2').grid;
  }

  /**
    Round trip: when the solution is the inverse of the system for q1 and
    q2, the computed transform carries q1 to q1' and q2 to q2'.
   */
  lemma TransformRoundTrip(q1: Point, q2: Point, w: Matrix, q1': Point, q2': Point)
    requires IsInverse(SystemMatrix(q1, q2), w)
    ensures Apply(ComputeTransform(Some(w), q1', q2'), q1) == q1'
    ensures Apply(ComputeTransform(Some(w), q1', q2'), q2) == q2'
  {
    var b := RightHandSide(q1', q2');
    var c := Multiply(w, b);
    ComputeFromColumn(w, q1', q2');
    SolutionSolves(SystemMatrix(q1, q2), w, b);
    SystemApplied(q1, q2, c);
    RightHandSideInjective(FromColumn(c), q1, q2, q1', q2');
  }

  /** The column of parameters (U, V, tx, ty) of a transform without shear. */
  function Parameters(t: Transform): (c: Matrix)
    requires t.a == t.d && t.c == -t.b
    ensures c.rows == 4 && c.columns == 1 && FromColumn(c) == t
  {
    var v := [t.a, t.b, t.tx, t.ty];
    CreateGet(4, 1, v, 0, 0);
    CreateGet(4, 1, v, 1, 0);
    CreateGet(4, 1, v, 2, 0);
    CreateGet(4, 1, v, 3, 0);
    Create(4, 1, v)
  }

  /** A solution of a system with an inverse is the inverse times the right-hand side. */
  lemma SolutionUnique(a: Matrix, w: Matrix, z: Matrix, b: Matrix)
    requires IsInverse(a, w) && z.rows == a.columns && Multiply(a, z) == b
    ensures Multiply(w, b) == z
  {
    MultiplyAssociative(w, a, z);
    MultiplyIdentityLeft(z);
  }

  /**
    The computed transform is the only one without shear that carries q1
    to q1' and q2 to q2': its parameters solve the same system, and the
    inverse leaves one solution.
   */
  lemma TransformUnique(q1: Point, q2: Point, w: Matrix, q1': Point, q2': Point, t: Transform)
    requires IsInverse(SystemMatrix(q1, q2), w)
    requires t.a == t.d && t.c == -t.b
    requires Apply(t, q1) == q1' && Apply(t, q2) == q2'
    ensures t == ComputeTransform(Some(w), q1', q2')
  {
    var z := Parameters(t);
    SystemApplied(q1, q2, z);
    assert Images(t, q1, q2) == [q1'.x, q1'.y, q2'.x, q2'.y];
    SolutionUnique(SystemMatrix(q1, q2), w, z, RightHandSide(q1', q2'));
    ComputeFromColumn(w, q1', q2');
  }

  /** A transform without shear that separates two points is nonsingular: its determinant is U^2 + V^2. */
  lemma SeparatingNonsingular(t: Transform, p: Point, q: Point)
    requires t.a == t.d && t.c == -t.b
    requires Apply(t, p) != Apply(t, q)
    ensures Nonsingular(t)
  {
    assert Det(t) == Prod(t.a, t.a) + Prod(t.b, t.b);
    SquareSign(t.a);
    SquareSign(t.b);
  }

  /**
    Two distinct reference points carried to two distinct live points give
    a transform that can be inverted, and it carries each reference point to
    its live point.
   */
  lemma PinchTransform(q1: Point, q2: Point, q1': Point, q2': Point)
    requires q1 != q2
    ensures SolveSystem(q1, q2).Some?
    ensures Apply(ComputeTransform(SolveSystem(q1, q2), q1', q2'), q1) == q1'
    ensures Apply(ComputeTransform(SolveSystem(q1, q2), q1', q2'), q2) == q2'
    ensures q1' != q2' ==> Nonsingular(ComputeTransform(SolveSystem(q1, q2), q1', q2'))
  {
    var w := SolveSystem(q1, q2).value;
    TransformRoundTrip(q1, q2, w, q1', q2');
    if q1' != q2' {
      SeparatingNonsingular(ComputeTransform(SolveSystem(q1, q2), q1', q2'), q1, q2);
    }
  }
}
