/**
  What the pinch view keeps true between touch events, and the proofs that
  each event handler preserves it. With one finger down, a move is a pure
  pan.
 */
module ViewInvariant {
  import opened Wrappers
  import opened Geometry
  import opened Affine
  import opened Solver
  import opened PincherView

  /** Each occupied slot's reference point is carried to its live point by the image transform. */
  predicate Anchored(v: View) {
    (v.slot1.Some? ==> Apply(v.image, v.slot1.value.reference) == v.slot1.value.live) &&
    (v.slot2.Some? ==> Apply(v.image, v.slot2.value.reference) == v.slot2.value.live)
  }

  /** Two fingers down are at different places. */
  predicate LivesApart(v: View) {
    v.slot1.Some? && v.slot2.Some? ==> v.slot1.value.live != v.slot2.value.live
  }

  /**
    What the view keeps true between events: backTransform is the inverse
    of a nonsingular, shear-free imageTransform, every slot is anchored,
    two fingers are apart, and the cached solution is the one a fresh
    recompute would give.
   */
  predicate Consistent(v: View) {
    v.back == Inverted(v.image) && Nonsingular(v.image) && v.image.a == v.image.d && v.image.c == -v.image.b &&
    Anchored(v) && LivesApart(v) && v.solution == ComputeSolution(v)
  }

  /** A view with no finger down and no cached solution is consistent when its transforms are. */
  lemma IdleConsistent(v: View)
    requires v.slot1.None? && v.slot2.None? && v.solution.None?
    requires v.back == Inverted(v.image) && Nonsingular(v.image) && v.image.a == v.image.d && v.image.c == -v.image.b
    ensures Consistent(v)
  {
  }

  /** The view starts consistent. */
  lemma InitialConsistent()
    ensures Consistent(Initial)
  {
    assert Initial.slot1.None? && Initial.slot2.None? && Initial.solution.None?;
    assert Initial.image == Affine.Identity && Initial.back == Affine.Identity;
    InvertedIdentity();
    IdleConsistent(Initial);
  }

  /**
    In a consistent view the anchors are distinct and the image transform
    already carries them to the targets; so the cached solution exists
    exactly when a finger is down, and it inverts the system of the anchors.
   */
  lemma AnchorsMatchTargets(v: View)
    requires Consistent(v)
    ensures Anchors(v).Some? <==> Targets(v).Some?
    ensures Anchors(v).Some? ==> Anchors(v).value.0 != Anchors(v).value.1
    ensures Anchors(v).Some? ==>
              Apply(v.image, Anchors(v).value.0) == Targets(v).value.0 &&
              Apply(v.image, Anchors(v).value.1) == Targets(v).value.1
    ensures v.solution.Some? <==> v.slot1.Some? || v.slot2.Some?
  {
    if v.slot1.Some? && !v.slot2.Some? {
      RedoPoint(v.image, Add(v.slot1.value.live, Nudge));
    } else if v.slot2.Some? && !v.slot1.Some? {
      RedoPoint(v.image, Add(v.slot2.value.live, Nudge));
    }
  }

  /** A landing touch's slot is anchored: its reference point maps back to its location. */
  lemma LandedAnchored(image: Transform, t: TouchAt)
    requires Nonsingular(image)
    ensures Apply(image, Landed(Inverted(image), t).reference) == t.location
  {
    RedoPoint(image, t.location);
  }

  /** touchesBegan keeps the view consistent when the fingers it leaves down are apart. */
  lemma BeganConsistent(v: View, ts: seq<TouchAt>)
    requires Consistent(v)
    requires LivesApart(TouchesBegan(v, ts))
    ensures Consistent(TouchesBegan(v, ts))
  {
    if |ts| > 0 {
      LandedAnchored(v.image, ts[0]);
    }
    if |ts| > 1 {
      LandedAnchored(v.image, ts[1]);
    }
  }

  /** touchesEnded keeps the view consistent. */
  lemma EndedConsistent(v: View, ts: seq<Touch>)
    requires Consistent(v)
    ensures Consistent(TouchesEnded(v, ts))
  {
  }

  /**
    What a move does to the transforms. With a finger down, the image
    transform becomes the one the cached solution gives for the targets of
    the updated slots, and backTransform follows it. With none, the view is
    unchanged.
   */
  lemma MovedImage(v: View, ts: seq<TouchAt>)
    ensures var w, r := UpdateAll(v, ts), TouchesMoved(v, ts);
            Targets(r) == Targets(w) &&
            (Targets(w).Some? ==>
               r.image == ComputeTransform(v.solution, Targets(w).value.0, Targets(w).value.1) &&
               r.back == Inverted(r.image)) &&
            (Targets(w).None? ==> r == v)
  {
  }

  /**
    A move solves for the same anchors as before: the references do not
    move, and with one finger the pull-back of the nudged live point under
    the new transform is the old synthetic anchor. The new transform
    carries the anchors to the targets.
   */
  lemma MovedKeepsAnchors(v: View, ts: seq<TouchAt>)
    requires Consistent(v)
    ensures Anchors(TouchesMoved(v, ts)) == Anchors(v)
    ensures Anchors(v).Some? ==>
              Targets(TouchesMoved(v, ts)).Some? &&
              Apply(TouchesMoved(v, ts).image, Anchors(v).value.0) == Targets(TouchesMoved(v, ts)).value.0 &&
              Apply(TouchesMoved(v, ts).image, Anchors(v).value.1) == Targets(TouchesMoved(v, ts)).value.1
  {
    var w, r := UpdateAll(v, ts), TouchesMoved(v, ts);
    AnchorsMatchTargets(v);
    MovedImage(v, ts);
    if Targets(w).Some? {
      var (q1, q2) := Anchors(v).value;
      var (q1', q2') := Targets(w).value;
      assert v.solution == SolveSystem(q1, q2);
      PinchTransform(q1, q2, q1', q2');
      if v.slot1.Some? != v.slot2.Some? {
        UndoPoint(r.image, q2);
      }
    }
  }

  /**
    A move that leaves every live point where it was changes nothing: the
    transform recomputed from the cached solution is the image transform
    the view already had.
   */
  lemma MoveInPlace(v: View, ts: seq<TouchAt>)
    requires Consistent(v)
    requires UpdateAll(v, ts).slot1 == v.slot1 && UpdateAll(v, ts).slot2 == v.slot2
    ensures TouchesMoved(v, ts) == v
  {
    var w := UpdateAll(v, ts);
    assert w == v;
    AnchorsMatchTargets(v);
    MovedImage(v, ts);
    if Targets(v).Some? {
      var (q1, q2) := Anchors(v).value;
      var (q1', q2') := Targets(v).value;
      assert v.solution == SolveSystem(q1, q2);
      TransformUnique(q1, q2, v.solution.value, q1', q2', v.image);
    }
  }

  /** After a move that leaves the fingers apart, the transforms are still an inverse pair without shear. */
  lemma MovedTransforms(v: View, ts: seq<TouchAt>)
    requires Consistent(v)
    requires LivesApart(TouchesMoved(v, ts))
    ensures var r := TouchesMoved(v, ts);
            r.back == Inverted(r.image) && Nonsingular(r.image) && r.image.a == r.image.d && r.image.c == -r.image.b
  {
    var w, r := UpdateAll(v, ts), TouchesMoved(v, ts);
    AnchorsMatchTargets(v);
    MovedImage(v, ts);
    if Targets(w).Some? {
      var (q1, q2) := Anchors(v).value;
      var (q1', q2') := Targets(w).value;
      assert v.solution == SolveSystem(q1, q2);
      assert q1' != q2';
      PinchTransform(q1, q2, q1', q2');
    }
  }

  /** After a move every slot is anchored again. */
  lemma MovedAnchored(v: View, ts: seq<TouchAt>)
    requires Consistent(v)
    ensures Anchored(TouchesMoved(v, ts))
  {
    MovedKeepsAnchors(v, ts);
  }

  /**
    touchesMoved keeps the view consistent when the fingers are left
    apart: the new image transform carries every reference point to its
    new live point, can be inverted, and the cached solution stays valid.
   */
  lemma MovedConsistent(v: View, ts: seq<TouchAt>)
    requires Consistent(v)
    requires LivesApart(TouchesMoved(v, ts))
    ensures Consistent(TouchesMoved(v, ts))
  {
    var r := TouchesMoved(v, ts);
    MovedTransforms(v, ts);
    MovedAnchored(v, ts);
    MovedKeepsAnchors(v, ts);
    assert r.solution == ComputeSolution(r);
  }

  /** The transform t followed by a translation by delta. */
  function Translated(t: Transform, delta: Point): (r: Transform)
    ensures forall p :: Apply(r, p) == Add(Apply(t, p), delta)
  {
    t.(tx := t.tx + delta.x, ty := t.ty + delta.y)
  }

  /** The one occupied slot of a view with a single finger down. */
  function Sole(v: View): Slot
    requires v.slot1.Some? || v.slot2.Some?
  {
    if v.slot1.Some? then v.slot1.value else v.slot2.value
  }

  /**
    With one finger down a move only pans: the new image transform is the
    old one followed by the finger's displacement.
   */
  lemma OneFingerPans(v: View, ts: seq<TouchAt>)
    requires Consistent(v)
    requires v.slot1.Some? != v.slot2.Some?
    ensures var from, to := Sole(v).live, Sole(TouchesMoved(v, ts)).live;
            TouchesMoved(v, ts).image == Translated(v.image, Point(to.x - from.x, to.y - from.y))
  {
    var w, r := UpdateAll(v, ts), TouchesMoved(v, ts);
    var from, to := Sole(v).live, Sole(r).live;
    var t := Translated(v.image, Point(to.x - from.x, to.y - from.y));
    AnchorsMatchTargets(v);
    MovedImage(v, ts);
    var (q1, q2) := Anchors(v).value;
    assert Targets(w) == Some((to, Add(to, Nudge)));
    assert Apply(t, q1) == to;
    assert Apply(t, q2) == Add(to, Nudge);
    TransformUnique(q1, q2, v.solution.value, to, Add(to, Nudge), t);
  }
}
