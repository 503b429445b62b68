/**
  The CoreGraphics value types the rectangle helpers and the view work with.
  A rectangle is an origin and a size whose components may be negative; the
  CoreGraphics accessors standardise it: `width` and `height` are the
  absolute values of the size, `minX`/`maxX` are the smaller and larger of
  the two edge coordinates and `midX` lies halfway between them.
 */
module Geometry {

  datatype Point = Point(x: real, y: real)

  datatype Size = Size(width: real, height: real)

  datatype Rect = Rect(origin: Point, size: Size)

  function Abs(v: real): (r: real)
    ensures r >= 0.0 && (r == v || r == -v)
  {
    if v < 0.0 then -v else v
  }

  function Min(a: real, b: real): (r: real)
    ensures r <= a && r <= b && (r == a || r == b)
  {
    if a <= b then a else b
  }

  function Max(a: real, b: real): (r: real)
    ensures r >= a && r >= b && (r == a || r == b)
  {
    if a <= b then b else a
  }

  function Width(r: Rect): real {
    Abs(r.size.width)
  }

  function Height(r: Rect): real {
    Abs(r.size.height)
  }

  function MinX(r: Rect): real {
    Min(r.origin.x, r.origin.x + r.size.width)
  }

  function MaxX(r: Rect): real {
    Max(r.origin.x, r.origin.x + r.size.width)
  }

  function MidX(r: Rect): real {
    r.origin.x + r.size.width / 2.0
  }

  function MinY(r: Rect): real {
    Min(r.origin.y, r.origin.y + r.size.height)
  }

  function MaxY(r: Rect): real {
    Max(r.origin.y, r.origin.y + r.size.height)
  }

  function MidY(r: Rect): real {
    r.origin.y + r.size.height / 2.0
  }

  /** The standardised extent: min and max are the mid value minus and plus half the width. */
  lemma Extent(r: Rect)
    ensures MinX(r) == MidX(r) - Width(r) / 2.0 && MaxX(r) == MidX(r) + Width(r) / 2.0
    ensures MinY(r) == MidY(r) - Height(r) / 2.0 && MaxY(r) == MidY(r) + Height(r) / 2.0
    ensures MaxX(r) - MinX(r) == Width(r) && MaxY(r) - MinY(r) == Height(r)
  {
  }

  /** p lies in the closed rectangle r. */
  predicate Contains(r: Rect, p: Point) {
    MinX(r) <= p.x <= MaxX(r) && MinY(r) <= p.y <= MaxY(r)
  }

  /** Every point of inner lies in outer. */
  predicate Inside(inner: Rect, outer: Rect) {
    MinX(outer) <= MinX(inner) && MaxX(inner) <= MaxX(outer) &&
    MinY(outer) <= MinY(inner) && MaxY(inner) <= MaxY(outer)
  }

  function Add(p: Point, q: Point): Point {
    Point(p.x + q.x, p.y + q.y)
  }

  function Midpoint(p: Point, q: Point): Point {
    Point((p.x + q.x) / 2.0, (p.y + q.y) / 2.0)
  }
}
