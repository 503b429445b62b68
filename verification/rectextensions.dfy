/**
  The CGRect extension: the nine box-drawing anchor operators, the aspect
  ratio and the orientation tests built on it, the three initialisers,
  centring, scaling, and the aspect-fit (`scaleIn`) and aspect-fill
  (`scaleAround`) factors together with the rectangles they produce.
 */
module RectExtensions {
  import opened Wrappers
  import opened Quotients
  import opened Geometry

  // ---------------------------------------------------------------------------
  // Anchor points:  ┌ ┬ ┐ / ├ ┼ ┤ / └ ┴ ┘
  // ---------------------------------------------------------------------------

  /** ┌: half a width left of and half a height above the centre. */
  function TopLeft(r: Rect): (p: Point)
    ensures p == Point(MidX(r) - Width(r) / 2.0, MidY(r) - Height(r) / 2.0)
  {
    Extent(r);
    Point(MinX(r), MinY(r))
  }

  /** ┐: half a width right of and half a height above the centre. */
  function TopRight(r: Rect): (p: Point)
    ensures p == Point(MidX(r) + Width(r) / 2.0, MidY(r) - Height(r) / 2.0)
  {
    Extent(r);
    Point(MaxX(r), MinY(r))
  }

  /** └: half a width left of and half a height below the centre. */
  function BottomLeft(r: Rect): (p: Point)
    ensures p == Point(MidX(r) - Width(r) / 2.0, MidY(r) + Height(r) / 2.0)
  {
    Extent(r);
    Point(MinX(r), MaxY(r))
  }

  /** ┘: half a width right of and half a height below the centre. */
  function BottomRight(r: Rect): (p: Point)
    ensures p == Point(MidX(r) + Width(r) / 2.0, MidY(r) + Height(r) / 2.0)
  {
    Extent(r);
    Point(MaxX(r), MaxY(r))
  }

  /** ├: half a width left of the centre, at its height. */
  function MidLeft(r: Rect): (p: Point)
    ensures p == Point(MidX(r) - Width(r) / 2.0, MidY(r))
  {
    Extent(r);
    Point(MinX(r), MidY(r))
  }

  /** ┤: half a width right of the centre, at its height. */
  function MidRight(r: Rect): (p: Point)
    ensures p == Point(MidX(r) + Width(r) / 2.0, MidY(r))
  {
    Extent(r);
    Point(MaxX(r), MidY(r))
  }

  /** ┬: half a height above the centre. */
  function TopMid(r: Rect): (p: Point)
    ensures p == Point(MidX(r), MidY(r) - Height(r) / 2.0)
  {
    Extent(r);
    Point(MidX(r), MinY(r))
  }

  /** ┴: half a height below the centre. */
  function BottomMid(r: Rect): (p: Point)
    ensures p == Point(MidX(r), MidY(r) + Height(r) / 2.0)
  {
    Extent(r);
    Point(MidX(r), MaxY(r))
  }

  /** ┼: as far from the left edge as from the right, and from the top as from the bottom. */
  function Center(r: Rect): (p: Point)
    ensures p.x - MinX(r) == MaxX(r) - p.x && p.y - MinY(r) == MaxY(r) - p.y
  {
    Extent(r);
    Point(MidX(r), MidY(r))
  }

  /** The four corners of r as stored: origin, origin + width, origin + height, origin + size. */
  function RawCorners(r: Rect): set<Point> {
    var x0, y0 := r.origin.x, r.origin.y;
    var x1, y1 := x0 + r.size.width, y0 + r.size.height;
    {Point(x0, y0), Point(x1, y0), Point(x0, y1), Point(x1, y1)}
  }

  /**
    The four corner operators name exactly the four stored corners, ┌ being
    the least and ┘ the greatest in both coordinates, whatever the signs of
    the stored size.
   */
  lemma CornersAreRawCorners(r: Rect)
    ensures {TopLeft(r), TopRight(r), BottomLeft(r), BottomRight(r)} == RawCorners(r)
    ensures forall p :: p in RawCorners(r) ==>
              TopLeft(r).x <= p.x <= BottomRight(r).x && TopLeft(r).y <= p.y <= BottomRight(r).y
  {
  }

  /** Edge anchors sit halfway along their edge and ┼ halfway along both diagonals and both medians. */
  lemma AnchorMidpoints(r: Rect)
    ensures TopMid(r) == Midpoint(TopLeft(r), TopRight(r))
    ensures BottomMid(r) == Midpoint(BottomLeft(r), BottomRight(r))
    ensures MidLeft(r) == Midpoint(TopLeft(r), BottomLeft(r))
    ensures MidRight(r) == Midpoint(TopRight(r), BottomRight(r))
    ensures Center(r) == Midpoint(TopLeft(r), BottomRight(r)) == Midpoint(TopRight(r), BottomLeft(r))
    ensures Center(r) == Midpoint(MidLeft(r), MidRight(r)) == Midpoint(TopMid(r), BottomMid(r))
  {
    Extent(r);
  }

  /** All nine anchors lie in the rectangle, and the corners span exactly its width and height. */
  lemma AnchorsInside(r: Rect)
    ensures Contains(r, TopLeft(r)) && Contains(r, TopRight(r)) && Contains(r, BottomLeft(r))
    ensures Contains(r, BottomRight(r)) && Contains(r, MidLeft(r)) && Contains(r, MidRight(r))
    ensures Contains(r, TopMid(r)) && Contains(r, BottomMid(r)) && Contains(r, Center(r))
    ensures TopRight(r).x - TopLeft(r).x == Width(r) && BottomLeft(r).y - TopLeft(r).y == Height(r)
  {
    Extent(r);
  }

  // ---------------------------------------------------------------------------
  // Aspect ratio and orientation
  // ---------------------------------------------------------------------------

  /** width / height under floating-point division. */
  function Aspect(r: Rect): (q: Quotient)
    ensures q.Finite? <==> Height(r) != 0.0
    ensures q.Finite? ==> q.value >= 0.0 && q.value * Height(r) == Width(r)
    ensures q == Undefined <==> Width(r) == 0.0 && Height(r) == 0.0
    ensures q.Infinite? ==> !q.negative
  {
    Divide(Width(r), Height(r))
  }

  /** The aspect compared with 1 is width compared with height; a zero height is never portrait or square. */
  lemma AspectAgainstOne(r: Rect)
    ensures Less(Aspect(r), Finite(1.0)) <==> Width(r) < Height(r)
    ensures Less(Finite(1.0), Aspect(r)) <==> Width(r) > Height(r)
    ensures Equal(Aspect(r), Finite(1.0)) <==> Width(r) == Height(r) && Height(r) > 0.0
  {
    if Height(r) > 0.0 {
      var v := Aspect(r).value;
      FiniteComparisons(v, 1.0);
      FiniteComparisons(1.0, v);
      RatioOrder(v, Width(r), Height(r));
    }
  }

  /** isPortrait: aspect < 1, which holds exactly when the rectangle is narrower than tall. */
  predicate IsPortrait(r: Rect): (b: bool)
    ensures b <==> Width(r) < Height(r)
  {
    AspectAgainstOne(r);
    Less(Aspect(r), Finite(1.0))
  }

  /** isLandscape: aspect > 1, which holds exactly when the rectangle is wider than tall (an infinite aspect included). */
  predicate IsLandscape(r: Rect): (b: bool)
    ensures b <==> Width(r) > Height(r)
  {
    AspectAgainstOne(r);
    Less(Finite(1.0), Aspect(r))
  }

  /** isSquare: aspect == 1, which holds exactly for equal, non-zero width and height. */
  predicate IsSquare(r: Rect): (b: bool)
    ensures b <==> Width(r) == Height(r) && Height(r) > 0.0
  {
    AspectAgainstOne(r);
    Equal(Aspect(r), Finite(1.0))
  }

  lemma AspectValue(r: Rect)
    requires Height(r) > 0.0
    ensures Aspect(r) == Finite(Width(r) / Height(r))
  {
  }

  /**
    Orientation compares width with height: with a positive height exactly
    one of the three tests holds. A zero height makes any positive width
    landscape (the aspect is +infinity) and a 0 x 0 rectangle has none of
    the three orientations (the aspect is NaN).
   */
  lemma Orientation(r: Rect)
    ensures Height(r) > 0.0 ==>
              (IsPortrait(r) <==> Width(r) < Height(r)) &&
              (IsLandscape(r) <==> Width(r) > Height(r)) &&
              (IsSquare(r) <==> Width(r) == Height(r))
    ensures Height(r) == 0.0 ==>
              !IsPortrait(r) && !IsSquare(r) && (IsLandscape(r) <==> Width(r) > 0.0)
    ensures !(IsPortrait(r) && IsLandscape(r)) && !(IsPortrait(r) && IsSquare(r)) && !(IsLandscape(r) && IsSquare(r))
    ensures IsPortrait(r) || IsLandscape(r) || IsSquare(r) <==> Width(r) != 0.0 || Height(r) != 0.0
  {
  }

  /** A ratio v = w / h with h > 0 compares with 1 as w compares with h. */
  lemma RatioOrder(v: real, w: real, h: real)
    requires h > 0.0 && v * h == w
    ensures (v < 1.0 <==> w < h) && (v == 1.0 <==> w == h) && (v > 1.0 <==> w > h)
  {
    assert (v - 1.0) * h == w - h;
    if v < 1.0 {
      assert (1.0 - v) * h > 0.0;
    } else if v > 1.0 {
      assert (v - 1.0) * h > 0.0;
    }
  }

  // ---------------------------------------------------------------------------
  // Initialisers
  // ---------------------------------------------------------------------------

  /** init(size:): a rectangle of the given size at the origin. */
  function FromSize(s: Size): (r: Rect)
    ensures r.origin == Point(0.0, 0.0) && r.size == s
    ensures Width(r) == Abs(s.width) && Height(r) == Abs(s.height)
    ensures s.width >= 0.0 && s.height >= 0.0 ==> TopLeft(r) == Point(0.0, 0.0)
  {
    Rect(Point(0.0, 0.0), s)
  }

  /** Whatever the signs of the size, the rectangle built from it is centred on half the size. */
  lemma FromSizeCenter(s: Size)
    ensures Center(FromSize(s)) == Point(s.width / 2.0, s.height / 2.0)
  {
  }

  /** centerOn(point:): same width and height, standardised, with centre p. */
  function CenterOnPoint(r: Rect, p: Point): (c: Rect)
    ensures Center(c) == p
    ensures Width(c) == Width(r) && Height(c) == Height(r)
    ensures c.size.width >= 0.0 && c.size.height >= 0.0
  {
    Rect(Point(p.x - Width(r) / 2.0, p.y - Height(r) / 2.0), Size(Width(r), Height(r)))
  }

  /** centerOn(rect:): centre on ┼ of the other rectangle. */
  function CenterOnRect(r: Rect, other: Rect): (c: Rect)
    ensures Center(c) == Center(other)
    ensures Width(c) == Width(r) && Height(c) == Height(r)
  {
    CenterOnPoint(r, Center(other))
  }

  /** Centring is idempotent and only the target centre matters. */
  lemma CenterOnTwice(r: Rect, p: Point, q: Point)
    ensures CenterOnPoint(CenterOnPoint(r, p), q) == CenterOnPoint(r, q)
  {
  }

  /** init(size:centeredOn:): the size, standardised, centred on p. */
  function FromSizeCenteredOn(s: Size, p: Point): (r: Rect)
    ensures Center(r) == p
    ensures Width(r) == Abs(s.width) && Height(r) == Abs(s.height)
  {
    CenterOnPoint(FromSize(s), p)
  }

  /** init(square:centeredOn:): an s x s square (|s| on a side) centred on p. */
  function SquareCenteredOn(s: real, p: Point): (r: Rect)
    ensures Center(r) == p
    ensures Width(r) == Abs(s) && Height(r) == Abs(s)
    ensures s != 0.0 ==> IsSquare(r)
  {
    var r := Rect(Point(p.x - s / 2.0, p.y - s / 2.0), Size(s, s));
    Orientation(r);
    r
  }

  /** Centring a square on p gives the same rectangle as the square initialiser, for s >= 0. */
  lemma SquareIsSizeCenteredOn(s: real, p: Point)
    requires s >= 0.0
    ensures SquareCenteredOn(s, p) == FromSizeCenteredOn(Size(s, s), p)
  {
  }

  // ---------------------------------------------------------------------------
  // Scaling
  // ---------------------------------------------------------------------------

  /** scale(_:): the stored origin with the standardised width and height multiplied by s. */
  function Scale(r: Rect, s: real): (c: Rect)
    ensures c.origin == r.origin
    ensures s >= 0.0 ==> Width(c) == Width(r) * s && Height(c) == Height(r) * s
    ensures s >= 0.0 && r.size.width >= 0.0 && r.size.height >= 0.0 ==> TopLeft(c) == TopLeft(r)
  {
    Rect(r.origin, Size(Width(r) * s, Height(r) * s))
  }

  /** Scaling by 1 is the identity on rectangles whose stored size is not negative. */
  lemma ScaleOne(r: Rect)
    requires r.size.width >= 0.0 && r.size.height >= 0.0
    ensures Scale(r, 1.0) == r
  {
  }

  /** Scaling by s and then by t is scaling by s * t, for s >= 0. */
  lemma ScaleCompose(r: Rect, s: real, t: real)
    requires s >= 0.0
    ensures Scale(Scale(r, s), t) == Scale(r, s * t)
  {
    var w, h := Width(r), Height(r);
    assert w * s * t == w * (s * t);
    assert h * s * t == h * (s * t);
  }

  /** Scaling keeps the aspect ratio whenever the factor is positive. */
  lemma ScaleKeepsAspect(r: Rect, s: real)
    requires s > 0.0
    ensures Aspect(Scale(r, s)) == Aspect(r)
  {
    var w, h := Width(r), Height(r);
    var c := Scale(r, s);
    assert Width(c) == w * s && Height(c) == h * s;
    if h != 0.0 {
      var v := Aspect(r).value;
      assert v * h == w;
      assert v * (h * s) == w * s;
      PositiveProduct(h, s);
      DivideUnique(w * s, h * s, v);
    } else {
      assert h * s == 0.0;
      if w != 0.0 {
        PositiveProduct(w, s);
      }
    }
  }

  /** A positive factor keeps a value's sign. */
  lemma PositiveProduct(w: real, s: real)
    requires s > 0.0 && w >= 0.0
    ensures w * s >= 0.0 && (w * s == 0.0 <==> w == 0.0)
  {
    if w > 0.0 {
      assert w * s > 0.0;
    }
  }

  /** Dividing an inequality by a positive factor. */
  lemma ScaleBelow(a: real, b: real, k: real)
    requires k > 0.0 && a * k <= b * k
    ensures a <= b
  {
    assert (b - a) * k == b * k - a * k;
  }

  /** r.aspect <= self.aspect, decided on the standardised sizes without division. */
  lemma AspectOrder(self: Rect, r: Rect)
    requires Width(self) > 0.0 && Height(self) > 0.0 && Width(r) > 0.0 && Height(r) > 0.0
    ensures LessEq(Aspect(r), Aspect(self)) <==> Width(r) * Height(self) <= Width(self) * Height(r)
  {
    var w, h, rw, rh := Width(self), Height(self), Width(r), Height(r);
    var a, b := Aspect(r).value, Aspect(self).value;
    assert a * rh == rw && b * h == w;
    assert a * (rh * h) == rw * h;
    assert b * (rh * h) == w * rh;
    if a <= b {
      assert a * (rh * h) <= b * (rh * h);
    } else {
      assert b * (rh * h) < a * (rh * h);
    }
  }

  /**
    scaleAround(rect:): the factor that makes self cover r (aspect fill). A
    finite factor is never negative and matches r exactly on one axis; it is
    finite whenever self has a positive size, and never for a 0 x 0 self.
   */
  function ScaleAround(self: Rect, r: Rect): (q: Quotient)
    ensures q.Finite? ==> q.value >= 0.0 && (Width(self) * q.value == Width(r) || Height(self) * q.value == Height(r))
    ensures Width(self) > 0.0 && Height(self) > 0.0 ==> q.Finite?
    ensures Width(self) == 0.0 && Height(self) == 0.0 ==> !q.Finite?
  {
    if LessEq(Aspect(r), Aspect(self)) then Divide(Height(r), Height(self)) else Divide(Width(r), Width(self))
  }

  /**
    scaleIn(rect:): the factor that makes self fit in r (aspect fit). A
    finite factor is never negative and matches r exactly on one axis; it is
    finite whenever self has a positive size, and never for a 0 x 0 self.
   */
  function ScaleIn(self: Rect, r: Rect): (q: Quotient)
    ensures q.Finite? ==> q.value >= 0.0 && (Width(self) * q.value == Width(r) || Height(self) * q.value == Height(r))
    ensures Width(self) > 0.0 && Height(self) > 0.0 ==> q.Finite?
    ensures Width(self) == 0.0 && Height(self) == 0.0 ==> !q.Finite?
  {
    if LessEq(Aspect(r), Aspect(self)) then Divide(Width(r), Width(self)) else Divide(Height(r), Height(self))
  }

  /** A w x h size scaled by t fits in rw x rh. */
  predicate FitsWithin(w: real, h: real, rw: real, rh: real, t: real) {
    w * t <= rw && h * t <= rh
  }

  /** A w x h size scaled by t covers rw x rh. */
  predicate CoversAll(w: real, h: real, rw: real, rh: real, t: real) {
    w * t >= rw && h * t >= rh
  }

  /** self scaled by t fits in r. */
  predicate ScaledFits(self: Rect, r: Rect, t: real) {
    FitsWithin(Width(self), Height(self), Width(r), Height(r), t)
  }

  /** self scaled by t covers r. */
  predicate ScaledCovers(self: Rect, r: Rect, t: real) {
    CoversAll(Width(self), Height(self), Width(r), Height(r), t)
  }

  lemma PositiveFactor(k: real, s: real)
    requires k > 0.0 && k * s > 0.0
    ensures s > 0.0
  {
    ScaleBelow(0.0, s, k);
  }

  /**
    The fit factor over sizes: rw / w when r is relatively taller than self,
    rh / h otherwise. It fits, is tight on one axis, and is the largest factor
    that fits.
   */
  lemma FitFactor(w: real, h: real, rw: real, rh: real, s: real)
    requires w > 0.0 && h > 0.0 && rw > 0.0 && rh > 0.0
    requires if rw * h <= w * rh then w * s == rw else h * s == rh
    ensures s > 0.0 && FitsWithin(w, h, rw, rh, s) && (w * s == rw || h * s == rh)
    ensures forall t: real :: FitsWithin(w, h, rw, rh, t) ==> t <= s
  {
    if rw * h <= w * rh {
      assert h * s * w == h * rw;
      ScaleBelow(h * s, rh, w);
      PositiveFactor(w, s);
    } else {
      assert w * s * h == w * rh;
      ScaleBelow(w * s, rw, h);
      PositiveFactor(h, s);
    }
    forall t: real | FitsWithin(w, h, rw, rh, t)
      ensures t <= s
    {
      if rw * h <= w * rh {
        ScaleBelow(t, s, w);
      } else {
        ScaleBelow(t, s, h);
      }
    }
  }

  /**
    The fill factor over sizes: rh / h when r is relatively taller than self,
    rw / w otherwise. It covers, is tight on one axis, and is the smallest
    factor that covers.
   */
  lemma FillFactor(w: real, h: real, rw: real, rh: real, s: real)
    requires w > 0.0 && h > 0.0 && rw > 0.0 && rh > 0.0
    requires if rw * h <= w * rh then h * s == rh else w * s == rw
    ensures s > 0.0 && CoversAll(w, h, rw, rh, s) && (w * s == rw || h * s == rh)
    ensures forall t: real :: CoversAll(w, h, rw, rh, t) ==> s <= t
  {
    if rw * h <= w * rh {
      assert w * s * h == w * rh;
      ScaleBelow(rw, w * s, h);
      PositiveFactor(h, s);
    } else {
      assert h * s * w == h * rw;
      ScaleBelow(rh, h * s, w);
      PositiveFactor(w, s);
    }
    forall t: real | CoversAll(w, h, rw, rh, t)
      ensures s <= t
    {
      if rw * h <= w * rh {
        ScaleBelow(s, t, h);
      } else {
        ScaleBelow(s, t, w);
      }
    }
  }

  /** For positive sizes the fit factor is finite and is the ratio of the axis the aspects select. */
  lemma ScaleInFactor(self: Rect, r: Rect)
    requires Width(self) > 0.0 && Height(self) > 0.0 && Width(r) > 0.0 && Height(r) > 0.0
    ensures ScaleIn(self, r).Finite?
    ensures var s, w, h, rw, rh := ScaleIn(self, r).value, Width(self), Height(self), Width(r), Height(r);
      if rw * h <= w * rh then w * s == rw else h * s == rh
  {
    AspectOrder(self, r);
    var w, h, rw, rh := Width(self), Height(self), Width(r), Height(r);
    var q := ScaleIn(self, r);
    if LessEq(Aspect(r), Aspect(self)) {
      assert q == Divide(rw, w);
      assert q.value * w == w * q.value;
    } else {
      assert q == Divide(rh, h);
      assert q.value * h == h * q.value;
    }
  }

  /** For positive sizes the fill factor is finite and is the ratio of the axis the aspects select. */
  lemma ScaleAroundFactor(self: Rect, r: Rect)
    requires Width(self) > 0.0 && Height(self) > 0.0 && Width(r) > 0.0 && Height(r) > 0.0
    ensures ScaleAround(self, r).Finite?
    ensures var s, w, h, rw, rh := ScaleAround(self, r).value, Width(self), Height(self), Width(r), Height(r);
      if rw * h <= w * rh then h * s == rh else w * s == rw
  {
    AspectOrder(self, r);
    var w, h, rw, rh := Width(self), Height(self), Width(r), Height(r);
    var q := ScaleAround(self, r);
    if LessEq(Aspect(r), Aspect(self)) {
      assert q == Divide(rh, h);
      assert q.value * h == h * q.value;
    } else {
      assert q == Divide(rw, w);
      assert q.value * w == w * q.value;
    }
  }

  /**
    Aspect fit: for positive sizes the factor is finite and positive, the
    scaled size fits in r with equality on at least one axis, and no larger
    factor fits.
   */
  lemma ScaleInFits(self: Rect, r: Rect)
    requires Width(self) > 0.0 && Height(self) > 0.0 && Width(r) > 0.0 && Height(r) > 0.0
    ensures ScaleIn(self, r).Finite?
    ensures var s := ScaleIn(self, r).value;
      s > 0.0 && ScaledFits(self, r, s) &&
      (Width(self) * s == Width(r) || Height(self) * s == Height(r))
    ensures var s := ScaleIn(self, r).value;
      forall t: real :: ScaledFits(self, r, t) ==> t <= s
  {
    ScaleInFactor(self, r);
    FitFactor(Width(self), Height(self), Width(r), Height(r), ScaleIn(self, r).value);
  }

  /**
    Aspect fill: for positive sizes the factor is finite and positive, the
    scaled size covers r with equality on at least one axis, and no smaller
    factor covers.
   */
  lemma ScaleAroundCovers(self: Rect, r: Rect)
    requires Width(self) > 0.0 && Height(self) > 0.0 && Width(r) > 0.0 && Height(r) > 0.0
    ensures ScaleAround(self, r).Finite?
    ensures var s := ScaleAround(self, r).value;
      s > 0.0 && ScaledCovers(self, r, s) &&
      (Width(self) * s == Width(r) || Height(self) * s == Height(r))
    ensures var s := ScaleAround(self, r).value;
      forall t: real :: ScaledCovers(self, r, t) ==> s <= t
  {
    ScaleAroundFactor(self, r);
    FillFactor(Width(self), Height(self), Width(r), Height(r), ScaleAround(self, r).value);
  }

  /** c is self with width and height multiplied by s, centred on ┼r. */
  predicate ScaledOnto(self: Rect, r: Rect, s: real, c: Rect) {
    Center(c) == Center(r) && Width(c) == Width(self) * s && Height(c) == Height(self) * s
  }

  /** self scaled by s >= 0 and centred on ┼r. */
  function ScaledCentredOn(self: Rect, r: Rect, s: real): (c: Rect)
    requires s >= 0.0
    ensures ScaledOnto(self, r, s, c)
  {
    CenterOnRect(Scale(self, s), r)
  }

  /**
    scaleAndCenterAround(rect:): self scaled by the fill factor and centred
    on ┼r; None exactly when the fill factor is not a finite number.
   */
  function ScaleAndCenterAround(self: Rect, r: Rect): (c: Option<Rect>)
    ensures c.Some? <==> ScaleAround(self, r).Finite?
    ensures c.Some? ==> ScaledOnto(self, r, ScaleAround(self, r).value, c.value)
  {
    match ScaleAround(self, r)
    case Finite(s) => Some(ScaledCentredOn(self, r, s))
    case _ => None
  }

  /**
    scaleAndCenterIn(rect:): self scaled by the fit factor and centred on
    ┼r; None exactly when the fit factor is not a finite number.
   */
  function ScaleAndCenterIn(self: Rect, r: Rect): (c: Option<Rect>)
    ensures c.Some? <==> ScaleIn(self, r).Finite?
    ensures c.Some? ==> ScaledOnto(self, r, ScaleIn(self, r).value, c.value)
  {
    match ScaleIn(self, r)
    case Finite(s) => Some(ScaledCentredOn(self, r, s))
    case _ => None
  }

  /** Two rectangles with the same centre, one no wider and no taller than the other, nest. */
  lemma CenteredNest(inner: Rect, outer: Rect)
    requires Center(inner) == Center(outer)
    requires Width(inner) <= Width(outer) && Height(inner) <= Height(outer)
    ensures Inside(inner, outer)
  {
    Extent(inner);
    Extent(outer);
  }

  /**
    Scaling by a positive factor and centring on r: centre ┼r, sizes scaled,
    proportions kept; inside r when the factor fits and around r when it covers.
   */
  lemma ScaledAndCentered(self: Rect, r: Rect, s: real)
    requires s > 0.0
    ensures var c := CenterOnRect(Scale(self, s), r);
      Center(c) == Center(r) && Width(c) == Width(self) * s && Height(c) == Height(self) * s &&
      Aspect(c) == Aspect(self) &&
      (ScaledFits(self, r, s) ==> Inside(c, r)) &&
      (ScaledCovers(self, r, s) ==> Inside(r, c))
  {
    var c := CenterOnRect(Scale(self, s), r);
    ScaleKeepsAspect(self, s);
    assert Aspect(c) == Aspect(Scale(self, s)) by {
      assert Width(c) == Width(Scale(self, s)) && Height(c) == Height(Scale(self, s));
    }
    if ScaledFits(self, r, s) {
      CenteredNest(c, r);
    }
    if ScaledCovers(self, r, s) {
      CenteredNest(r, c);
    }
  }

  /**
    For positive sizes the fitted rectangle is centred on ┼r, lies inside r,
    touches it on at least one axis and keeps self's proportions.
   */
  lemma ScaleAndCenterInFits(self: Rect, r: Rect)
    requires Width(self) > 0.0 && Height(self) > 0.0 && Width(r) > 0.0 && Height(r) > 0.0
    ensures ScaleAndCenterIn(self, r).Some?
    ensures var c := ScaleAndCenterIn(self, r).value;
      Center(c) == Center(r) && Inside(c, r) &&
      (Width(c) == Width(r) || Height(c) == Height(r)) &&
      Aspect(c) == Aspect(self)
  {
    ScaleInFits(self, r);
    var s := ScaleIn(self, r).value;
    assert ScaleAndCenterIn(self, r) == Some(CenterOnRect(Scale(self, s), r));
    ScaledAndCentered(self, r, s);
  }

  /**
    For positive sizes the filled rectangle is centred on ┼r, covers r,
    matches it on at least one axis and keeps self's proportions.
   */
  lemma ScaleAndCenterAroundCovers(self: Rect, r: Rect)
    requires Width(self) > 0.0 && Height(self) > 0.0 && Width(r) > 0.0 && Height(r) > 0.0
    ensures ScaleAndCenterAround(self, r).Some?
    ensures var c := ScaleAndCenterAround(self, r).value;
      Center(c) == Center(r) && Inside(r, c) &&
      (Width(c) == Width(r) || Height(c) == Height(r)) &&
      Aspect(c) == Aspect(self)
  {
    ScaleAroundCovers(self, r);
    var s := ScaleAround(self, r).value;
    assert ScaleAndCenterAround(self, r) == Some(CenterOnRect(Scale(self, s), r));
    ScaledAndCentered(self, r, s);
  }

  /** A 0 x 0 rectangle has no finite fit or fill factor for a rectangle of positive size. */
  lemma DegenerateHasNoScale(self: Rect, r: Rect)
    requires Width(self) == 0.0 && Height(self) == 0.0 && Width(r) > 0.0 && Height(r) > 0.0
    ensures ScaleAndCenterIn(self, r).None? && ScaleAndCenterAround(self, r).None?
  {
  }
}
