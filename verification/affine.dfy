/**
  CoreGraphics affine transforms, the part the view relies on: applying a
  transform to a point, the identity, and inversion. A transform
  [a b c d tx ty] maps (x, y) to (a x + c y + tx, b x + d y + ty).
  Inverting a singular transform (determinant 0) returns it unchanged.
 */
module Affine {
  import opened Geometry

  datatype Transform = Transform(a: real, b: real, c: real, d: real, tx: real, ty: real)

  const Identity: Transform := Transform(1.0, 0.0, 0.0, 1.0, 0.0, 0.0)

  /** CGPoint.applying(_:): the identity moves no point, and the origin goes to the translation. */
  function Apply(t: Transform, p: Point): (r: Point)
    ensures t == Identity ==> r == p
    ensures p == Point(0.0, 0.0) ==> r == Point(t.tx, t.ty)
  {
    Point(t.a * p.x + t.c * p.y + t.tx, t.b * p.x + t.d * p.y + t.ty)
  }

  function Det(t: Transform): real {
    t.a * t.d - t.b * t.c
  }

  predicate Nonsingular(t: Transform) {
    Det(t) != 0.0
  }

  /**
    The inverse formula for a transform with determinant D, written with
    k = 1 / D: the adjugate [d -b -c a] scaled by k, and the translation
    pulled back through it.
   */
  function ScaledAdjugate(t: Transform, k: real): Transform {
    Transform(t.d * k, -t.b * k, -t.c * k, t.a * k, (t.c * t.ty - t.d * t.tx) * k, (t.b * t.tx - t.a * t.ty) * k)
  }

  /**
    CGAffineTransform.inverted(): the inverse transform, or the transform
    itself when it is singular.
   */
  function Inverted(t: Transform): (r: Transform)
    ensures !Nonsingular(t) ==> r == t
  {
    if Det(t) == 0.0 then t else ScaledAdjugate(t, 1.0 / Det(t))
  }

  /** Dividing by D is multiplying by its reciprocal k. */
  lemma Reciprocal(D: real)
    requires D != 0.0
    ensures D * (1.0 / D) == 1.0
  {
  }

  /** The determinant of [d -b; -c a] scaled by k is k^2 (a d - b c). */
  lemma DetScaled(a: real, b: real, c: real, d: real, k: real)
    requires (a * d - b * c) * k == 1.0
    ensures ((d * k) * (a * k) - (-b * k) * (-c * k)) * (a * d - b * c) == 1.0
  {
    assert (d * k) * (a * k) - (-b * k) * (-c * k) == (a * d - b * c) * k * k;
  }

  /** The inverse of a nonsingular transform is nonsingular, with the reciprocal determinant. */
  lemma InvertedDet(t: Transform)
    requires Nonsingular(t)
    ensures Nonsingular(Inverted(t)) && Det(Inverted(t)) * Det(t) == 1.0
  {
    var k := 1.0 / Det(t);
    Reciprocal(Det(t));
    DetScaled(t.a, t.b, t.c, t.d, k);
  }

  /** The x coordinate of the inverse applied after t. */
  lemma UndoX(t: Transform, k: real, p: Point)
    requires Det(t) * k == 1.0
    ensures Apply(ScaledAdjugate(t, k), Apply(t, p)).x == p.x
  {
    var a, b, c, d, tx, ty, x, y := t.a, t.b, t.c, t.d, t.tx, t.ty, p.x, p.y;
    assert Apply(ScaledAdjugate(t, k), Apply(t, p)).x
        == (d * k) * (a * x + c * y + tx) + (-c * k) * (b * x + d * y + ty) + (c * ty - d * tx) * k;
    assert (d * k) * (a * x + c * y + tx) + (-c * k) * (b * x + d * y + ty) + (c * ty - d * tx) * k
        == ((a * d - b * c) * k) * x;
  }

  /** The y coordinate of the inverse applied after t. */
  lemma UndoY(t: Transform, k: real, p: Point)
    requires Det(t) * k == 1.0
    ensures Apply(ScaledAdjugate(t, k), Apply(t, p)).y == p.y
  {
    var a, b, c, d, tx, ty, x, y := t.a, t.b, t.c, t.d, t.tx, t.ty, p.x, p.y;
    assert Apply(ScaledAdjugate(t, k), Apply(t, p)).y
        == (-b * k) * (a * x + c * y + tx) + (a * k) * (b * x + d * y + ty) + (b * tx - a * ty) * k;
    assert (-b * k) * (a * x + c * y + tx) + (a * k) * (b * x + d * y + ty) + (b * tx - a * ty) * k
        == ((a * d - b * c) * k) * y;
  }

  /** The x coordinate of t applied after its inverse. */
  lemma RedoX(t: Transform, k: real, p: Point)
    requires Det(t) * k == 1.0
    ensures Apply(t, Apply(ScaledAdjugate(t, k), p)).x == p.x
  {
    var a, b, c, d, tx, ty, x, y := t.a, t.b, t.c, t.d, t.tx, t.ty, p.x, p.y;
    assert Apply(t, Apply(ScaledAdjugate(t, k), p)).x
        == a * ((d * k) * x + (-c * k) * y + (c * ty - d * tx) * k) + c * ((-b * k) * x + (a * k) * y + (b * tx - a * ty) * k) + tx;
    assert a * ((d * k) * x + (-c * k) * y + (c * ty - d * tx) * k) + c * ((-b * k) * x + (a * k) * y + (b * tx - a * ty) * k)
        == ((a * d - b * c) * k) * x - ((a * d - b * c) * k) * tx;
  }

  /** The y coordinate of t applied after its inverse. */
  lemma RedoY(t: Transform, k: real, p: Point)
    requires Det(t) * k == 1.0
    ensures Apply(t, Apply(ScaledAdjugate(t, k), p)).y == p.y
  {
    var a, b, c, d, tx, ty, x, y := t.a, t.b, t.c, t.d, t.tx, t.ty, p.x, p.y;
    assert Apply(t, Apply(ScaledAdjugate(t, k), p)).y
        == b * ((d * k) * x + (-c * k) * y + (c * ty - d * tx) * k) + d * ((-b * k) * x + (a * k) * y + (b * tx - a * ty) * k) + ty;
    assert b * ((d * k) * x + (-c * k) * y + (c * ty - d * tx) * k) + d * ((-b * k) * x + (a * k) * y + (b * tx - a * ty) * k)
        == ((a * d - b * c) * k) * y - ((a * d - b * c) * k) * ty;
  }

  /** The inverse of a nonsingular transform, written with k = 1 / det. */
  lemma InvertedByReciprocal(t: Transform) returns (k: real)
    requires Nonsingular(t)
    ensures Det(t) * k == 1.0
    ensures Inverted(t) == ScaledAdjugate(t, k)
  {
    k := 1.0 / Det(t);
    Reciprocal(Det(t));
  }

  /** Applying t and then its inverse gives back the point. */
  lemma UndoPoint(t: Transform, p: Point)
    requires Nonsingular(t)
    ensures Apply(Inverted(t), Apply(t, p)) == p
  {
    var k := InvertedByReciprocal(t);
    UndoX(t, k, p);
    UndoY(t, k, p);
  }

  /** Applying the inverse and then t gives back the point. */
  lemma RedoPoint(t: Transform, p: Point)
    requires Nonsingular(t)
    ensures Apply(t, Apply(Inverted(t), p)) == p
  {
    var k := InvertedByReciprocal(t);
    RedoX(t, k, p);
    RedoY(t, k, p);
  }

  /** The inverse undoes t on every point, in both orders. */
  lemma InvertedRoundTrip(t: Transform, p: Point)
    requires Nonsingular(t)
    ensures Apply(Inverted(t), Apply(t, p)) == p
    ensures Apply(t, Apply(Inverted(t), p)) == p
  {
    UndoPoint(t, p);
    RedoPoint(t, p);
  }

  /** A nonsingular transform is injective on points. */
  lemma ApplyInjective(t: Transform, p: Point, q: Point)
    requires Nonsingular(t) && Apply(t, p) == Apply(t, q)
    ensures p == q
  {
    InvertedRoundTrip(t, p);
    InvertedRoundTrip(t, q);
  }

  /** Two transforms that agree at (0,0), (1,0) and (0,1) are equal. */
  lemma TransformExt(t: Transform, u: Transform)
    requires Apply(t, Point(0.0, 0.0)) == Apply(u, Point(0.0, 0.0))
    requires Apply(t, Point(1.0, 0.0)) == Apply(u, Point(1.0, 0.0))
    requires Apply(t, Point(0.0, 1.0)) == Apply(u, Point(0.0, 1.0))
    ensures t == u
  {
  }

  /**
    Inverting twice gives back every transform, singular or not: for a
    nonsingular t, t and the double inverse both undo the inverse.
   */
  lemma InvertedInvolutive(t: Transform)
    ensures Inverted(Inverted(t)) == t
  {
    if Nonsingular(t) {
      var r := Inverted(t);
      var rr := Inverted(r);
      forall p: Point
        ensures Apply(rr, p) == Apply(t, p)
      {
        var q := Apply(t, p);
        InvertedDet(t);
        InvertedRoundTrip(t, p);
        InvertedRoundTrip(r, q);
        assert Apply(r, q) == p;
      }
      TransformExt(rr, t);
    }
  }

  /** The identity is its own inverse. */
  lemma InvertedIdentity()
    ensures Inverted(Identity) == Identity
  {
  }
}
