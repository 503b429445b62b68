/**
  The pinch view's touch-slot state machine. The view keeps at most two
  touches. Each occupied slot pairs a reference point, fixed in image
  coordinates when the touch lands, with a live point that follows the
  finger in view coordinates. Whenever the set of touches changes, the view
  solves the similarity system for its anchors and caches the solution. On
  every move it rebuilds the image transform from that cached solution and
  the live points. With a single finger down, a synthetic second anchor
  sits at the live point offset by (10, 10).

  Incoming locations are taken as already centre-normalised view
  coordinates. A batch of touches is a sequence: one iteration order of the
  set UIKit delivers.
 */
module PincherView {
  import opened Wrappers
  import opened Geometry
  import opened Affine
  import HXMatrix
  import opened Solver

  /** A UITouch, known only by its identity. */
  datatype Touch = Touch(id: nat)

  /** A touch in a delivered batch, with its location in normalised view coordinates. */
  datatype TouchAt = TouchAt(touch: Touch, location: Point)

  /** An occupied slot: its touch, its reference point (image coordinates) and its live point (view coordinates). */
  datatype Slot = Slot(touch: Touch, reference: Point, live: Point)

  /**
    The view's state. `back` is kept alongside `image` exactly as the view
    keeps `backTransform` next to `imageTransform`.
   */
  datatype View = View(slot1: Option<Slot>, slot2: Option<Slot>, image: Transform, back: Transform, solution: Option<Matrix4>)

  /** The offset of the synthetic second anchor used with one finger down. */
  const Nudge: Point := Point(10.0, 10.0)

  /** The state after init(coder:): no touches, identity transforms, no solution. */
  const Initial: View := View(None, None, Affine.Identity, Affine.Identity, None)

  /** Assigning imageTransform also refreshes backTransform to its inverse. */
  function SetImageTransform(v: View, t: Transform): View {
    v.(image := t, back := Inverted(t))
  }

  function Occupied(v: View): nat {
    (if v.slot1.Some? then 1 else 0) + (if v.slot2.Some? then 1 else 0)
  }

  // ---------------------------------------------------------------------------
  // touchesBegan
  // ---------------------------------------------------------------------------

  /** The slot a landing touch takes: its reference point is its location pulled back into the image. */
  function Landed(back: Transform, t: TouchAt): Slot {
    Slot(t.touch, Apply(back, t.location), t.location)
  }

  /** One landing touch takes slot 1 if free, else slot 2 if free, else is ignored. */
  function Place(v: View, t: TouchAt): View {
    if v.slot1.None? then v.(slot1 := Some(Landed(v.back, t)))
    else if v.slot2.None? then v.(slot2 := Some(Landed(v.back, t)))
    else v
  }

  /**
    Placing a batch in order. The first free slot gets the first touch of
    the batch, a second free slot the next one; occupied slots are never
    overwritten and nothing but the slots changes.
   */
  function PlaceAll(v: View, ts: seq<TouchAt>): (r: View)
    ensures r.slot1 == if v.slot1.Some? then v.slot1
                       else if |ts| == 0 then None
                       else Some(Landed(v.back, ts[0]))
    ensures r.slot2 == if v.slot2.Some? then v.slot2
                       else if v.slot1.Some? then (if |ts| == 0 then None else Some(Landed(v.back, ts[0])))
                       else if |ts| <= 1 then None
                       else Some(Landed(v.back, ts[1]))
    ensures r.image == v.image && r.back == v.back && r.solution == v.solution
    decreases |ts|
  {
    if |ts| == 0 then v
    else
      var prefix := ts[..|ts| - 1];
      assert |prefix| > 0 ==> prefix[0] == ts[0];
      assert |prefix| > 1 ==> prefix[1] == ts[1];
      Place(PlaceAll(v, prefix), ts[|ts| - 1])
  }

  /** The slot ceiling: a batch fills free slots up to two, one touch per slot. */
  lemma SlotCeiling(v: View, ts: seq<TouchAt>)
    ensures Occupied(PlaceAll(v, ts)) == if Occupied(v) + |ts| >= 2 then 2 else Occupied(v) + |ts|
  {
  }

  // ---------------------------------------------------------------------------
  // _computeSolutionMatrix
  // ---------------------------------------------------------------------------

  /**
    The reference points the solution is solved for: both references with
    two fingers down; with one, its reference and the pull-back of its live
    point nudged by (10, 10); with none, nothing.
   */
  function Anchors(v: View): (r: Option<(Point, Point)>)
    ensures r.Some? <==> Targets(v).Some?
    ensures r.Some? ==> r.value.0 == (if v.slot1.Some? then v.slot1.value.reference else v.slot2.value.reference)
    ensures v.slot1.Some? && v.slot2.Some? ==> r.value.1 == v.slot2.value.reference
    ensures r.Some? && (v.slot1.None? || v.slot2.None?) ==> r.value.1 == Apply(v.back, Targets(v).value.1)
  {
    if v.slot1.Some? && v.slot2.Some? then Some((v.slot1.value.reference, v.slot2.value.reference))
    else if v.slot1.Some? then Some((v.slot1.value.reference, Apply(v.back, Add(v.slot1.value.live, Nudge))))
    else if v.slot2.Some? then Some((v.slot2.value.reference, Apply(v.back, Add(v.slot2.value.live, Nudge))))
    else None
  }

  /**
    The live points a move asks the anchors to go to, in the same order:
    both live points, or the one live point and its nudge.
   */
  function Targets(v: View): (r: Option<(Point, Point)>)
    ensures r.Some? <==> v.slot1.Some? || v.slot2.Some?
    ensures r.Some? ==> r.value.0 == (if v.slot1.Some? then v.slot1.value.live else v.slot2.value.live)
    ensures v.slot1.Some? && v.slot2.Some? ==> r.value.1 == v.slot2.value.live
    ensures r.Some? && (v.slot1.None? || v.slot2.None?) ==> r.value.1 == Add(r.value.0, Nudge)
  {
    if v.slot1.Some? && v.slot2.Some? then Some((v.slot1.value.live, v.slot2.value.live))
    else if v.slot1.Some? then Some((v.slot1.value.live, Add(v.slot1.value.live, Nudge)))
    else if v.slot2.Some? then Some((v.slot2.value.live, Add(v.slot2.value.live, Nudge)))
    else None
  }

  /**
    The solution matrix for the current slots: nothing without a touch;
    otherwise the inverse of the system for the anchors, which exists
    exactly when the anchors differ.
   */
  function ComputeSolution(v: View): (r: Option<Matrix4>)
    ensures Anchors(v).None? ==> r.None?
    ensures Anchors(v).Some? ==> (r.Some? <==> Anchors(v).value.0 != Anchors(v).value.1)
    ensures r.Some? ==> HXMatrix.IsInverse(SystemMatrix(Anchors(v).value.0, Anchors(v).value.1), r.value)
  {
    match Anchors(v)
    case None => None
    case Some((q1, q2)) => SolveSystem(q1, q2)
  }

  /**
    touchesBegan: every touch of the batch is placed, then the solution is
    recomputed once over the resulting slots. The transforms are untouched.
   */
  function TouchesBegan(v: View, ts: seq<TouchAt>): (r: View)
    ensures r.slot1 == PlaceAll(v, ts).slot1 && r.slot2 == PlaceAll(v, ts).slot2
    ensures r.image == v.image && r.back == v.back
    ensures r.solution == ComputeSolution(r)
  {
    var w := PlaceAll(v, ts);
    w.(solution := ComputeSolution(w))
  }

  // ---------------------------------------------------------------------------
  // touchesMoved
  // ---------------------------------------------------------------------------

  /**
    The location the batch last reports for touch t, or `otherwise` when
    the batch does not mention t.
   */
  function LastLocation(ts: seq<TouchAt>, t: Touch, otherwise: Point): (p: Point)
    ensures (forall k :: 0 <= k < |ts| ==> ts[k].touch != t) ==> p == otherwise
    ensures (exists k :: 0 <= k < |ts| && ts[k].touch == t) ==> exists k :: 0 <= k < |ts| && ts[k].touch == t && p == ts[k].location
    decreases |ts|
  {
    if |ts| == 0 then otherwise
    else if ts[|ts| - 1].touch == t then ts[|ts| - 1].location
    else
      var prefix := ts[..|ts| - 1];
      var p := LastLocation(prefix, t, otherwise);
      assert forall k :: 0 <= k < |prefix| ==> prefix[k] == ts[k];
      p
  }

  /** A moving touch updates the live point of slot 1 if it holds that touch, else of slot 2 if it does. */
  function Update(v: View, t: TouchAt): View {
    if v.slot1.Some? && v.slot1.value.touch == t.touch then v.(slot1 := Some(v.slot1.value.(live := t.location)))
    else if v.slot2.Some? && v.slot2.value.touch == t.touch then v.(slot2 := Some(v.slot2.value.(live := t.location)))
    else v
  }

  /**
    Updating for a batch in order. Only live points change: which slots are
    occupied, their touches and reference points, the transforms and the
    solution stay. Each slot's live point ends at the last location the
    batch gives for its touch; slot 2 follows its touch only when slot 1
    does not hold the same one.
   */
  function UpdateAll(v: View, ts: seq<TouchAt>): (r: View)
    ensures r.image == v.image && r.back == v.back && r.solution == v.solution
    ensures r.slot1.Some? == v.slot1.Some? && r.slot2.Some? == v.slot2.Some?
    ensures v.slot1.Some? ==>
              r.slot1.value == v.slot1.value.(live := LastLocation(ts, v.slot1.value.touch, v.slot1.value.live))
    ensures v.slot2.Some? && (v.slot1.None? || v.slot1.value.touch != v.slot2.value.touch) ==>
              r.slot2.value == v.slot2.value.(live := LastLocation(ts, v.slot2.value.touch, v.slot2.value.live))
    ensures v.slot2.Some? && v.slot1.Some? && v.slot1.value.touch == v.slot2.value.touch ==>
              r.slot2 == v.slot2
    decreases |ts|
  {
    if |ts| == 0 then v
    else Update(UpdateAll(v, ts[..|ts| - 1]), ts[|ts| - 1])
  }

  /**
    touchesMoved: the live points follow the batch; then, if any slot is
    occupied, the image transform becomes the one carrying the anchors to
    the targets under the cached solution. With no slot occupied the view
    is left as it was.
   */
  function TouchesMoved(v: View, ts: seq<TouchAt>): (r: View)
    ensures r.slot1 == UpdateAll(v, ts).slot1 && r.slot2 == UpdateAll(v, ts).slot2
    ensures r.solution == v.solution
    ensures v.slot1.None? && v.slot2.None? ==> r == v
    ensures v.slot1.Some? || v.slot2.Some? ==> r.image.a == r.image.d && r.image.c == -r.image.b
    ensures v.slot1.Some? || v.slot2.Some? ==> r.back == Inverted(r.image)
  {
    var w := UpdateAll(v, ts);
    match Targets(w)
    case None => w
    case Some((q1', q2')) => SetImageTransform(w, ComputeTransform(w.solution, q1', q2'))
  }

  // ---------------------------------------------------------------------------
  // touchesEnded
  // ---------------------------------------------------------------------------

  /** An ending touch clears slot 1 if it holds that touch, else slot 2 if it does. */
  function Clear(v: View, t: Touch): View {
    if v.slot1.Some? && v.slot1.value.touch == t then v.(slot1 := None)
    else if v.slot2.Some? && v.slot2.value.touch == t then v.(slot2 := None)
    else v
  }

  /**
    Clearing for a batch in order. A slot is emptied exactly when the batch
    names its touch (for slot 2, when slot 1 holds a different touch); the
    other slot, the transforms and the solution stay.
   */
  function ClearAll(v: View, ts: seq<Touch>): (r: View)
    ensures r.image == v.image && r.back == v.back && r.solution == v.solution
    ensures r.slot1 == if v.slot1.Some? && v.slot1.value.touch in ts then None else v.slot1
    ensures v.slot1.None? || v.slot2.None? || v.slot1.value.touch != v.slot2.value.touch ==>
              r.slot2 == if v.slot2.Some? && v.slot2.value.touch in ts then None else v.slot2
    ensures r.slot2 == None || r.slot2 == v.slot2
    decreases |ts|
  {
    if |ts| == 0 then v
    else
      var prefix := ts[..|ts| - 1];
      assert ts == prefix + [ts[|ts| - 1]];
      Clear(ClearAll(v, prefix), ts[|ts| - 1])
  }

  /** touchesEnded: the batch's slots are cleared, then the solution is recomputed over what remains. */
  function TouchesEnded(v: View, ts: seq<Touch>): (r: View)
    ensures r.slot1 == ClearAll(v, ts).slot1 && r.slot2 == ClearAll(v, ts).slot2
    ensures r.image == v.image && r.back == v.back
    ensures r.solution == ComputeSolution(r)
  {
    var w := ClearAll(v, ts);
    w.(solution := ComputeSolution(w))
  }
}
