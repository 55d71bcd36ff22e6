/**
 * Nearest segment and nearest point of a route polyline. Segment `i`
 * (1-based, for 1 <= i < |poly|) runs from poly[i - 1] to poly[i], and is
 * named by its trailing point, as in the layer's segment scan.
 */
module Proximity {
  import opened Optional
  import opened Geometry

  /** Squared distance from `p` to the clamped segment `i` of `poly`. */
  function SegmentSqDist(poly: seq<Point>, p: Point, i: nat): real
    requires 1 <= i < |poly|
  {
    SqDistToSegment(p, poly[i - 1], poly[i])
  }

  /**
   * The segment a left-to-right scan over segments 1..k keeps when it
   * replaces its candidate only on a strictly smaller distance.
   */
  function FirstNearestUpTo(poly: seq<Point>, p: Point, k: nat): (r: nat)
    requires 1 <= k < |poly|
    ensures 1 <= r <= k
  {
    if k == 1 then 1
    else
      var j := FirstNearestUpTo(poly, p, k - 1);
      if SegmentSqDist(poly, p, k) < SegmentSqDist(poly, p, j) then k else j
  }

  /** The nearest segment of `poly` to `p`, or None (the source's `undefined`) without segments. */
  function NearestSegment(poly: seq<Point>, p: Point): (r: Option<nat>)
    ensures r.Some? <==> |poly| >= 2
    ensures r.Some? ==> 1 <= r.value < |poly|
  {
    if |poly| < 2 then None else Some(FirstNearestUpTo(poly, p, |poly| - 1))
  }

  /** Among segments 1..k, `i` is at least as near as every other and strictly nearer than every earlier one. */
  ghost predicate IsFirstNearestUpTo(poly: seq<Point>, p: Point, k: nat, i: nat)
    requires k < |poly|
  {
    1 <= i <= k &&
    (forall j :: 1 <= j <= k ==> SegmentSqDist(poly, p, i) <= SegmentSqDist(poly, p, j)) &&
    (forall j :: 1 <= j < i ==> SegmentSqDist(poly, p, i) < SegmentSqDist(poly, p, j))
  }

  /** `i` is the first segment of minimum distance over the whole polyline. */
  ghost predicate IsFirstNearest(poly: seq<Point>, p: Point, i: nat)
  {
    |poly| >= 2 && IsFirstNearestUpTo(poly, p, |poly| - 1, i)
  }

  /** The scan's candidate after segment k is the first minimum of segments 1..k. */
  lemma {:induction false} FirstNearestUpToIsFirstMinimum(poly: seq<Point>, p: Point, k: nat)
    requires 1 <= k < |poly|
    ensures IsFirstNearestUpTo(poly, p, k, FirstNearestUpTo(poly, p, k))
  {
    if k > 1 {
      FirstNearestUpToIsFirstMinimum(poly, p, k - 1);
    }
  }

  /**
   * The nearest segment exists exactly when the polyline has a segment, lies
   * in [1, |poly| - 1], is no farther than any segment, and no earlier
   * segment is as near (ties go to the lower index).
   */
  lemma NearestSegmentIsFirstMinimum(poly: seq<Point>, p: Point)
    ensures NearestSegment(poly, p).Some? <==> |poly| >= 2
    ensures NearestSegment(poly, p).Some? ==> IsFirstNearest(poly, p, NearestSegment(poly, p).value)
  {
    if |poly| >= 2 {
      FirstNearestUpToIsFirstMinimum(poly, p, |poly| - 1);
    }
  }

  /** The first-minimum property pins down one segment. */
  lemma FirstNearestIsUnique(poly: seq<Point>, p: Point, i: nat, j: nat)
    requires IsFirstNearest(poly, p, i) && IsFirstNearest(poly, p, j)
    ensures i == j
  {
    assert SegmentSqDist(poly, p, i) <= SegmentSqDist(poly, p, j);
    assert SegmentSqDist(poly, p, j) <= SegmentSqDist(poly, p, i);
  }

  /** Both directions: the scan returns `i` exactly when `i` is the first nearest segment. */
  lemma NearestSegmentIsExactlyFirstNearest(poly: seq<Point>, p: Point, i: nat)
    ensures NearestSegment(poly, p) == Some(i) <==> IsFirstNearest(poly, p, i)
  {
    NearestSegmentIsFirstMinimum(poly, p);
    if IsFirstNearest(poly, p, i) {
      FirstNearestIsUnique(poly, p, i, NearestSegment(poly, p).value);
    }
  }

  /** The point a fraction `t` along segment `i`. */
  function SegmentPoint(poly: seq<Point>, i: nat, t: real): Point
    requires 1 <= i < |poly|
  {
    Lerp(poly[i - 1], poly[i], t)
  }

  /** A nearest point of the polyline and its squared distance. */
  datatype Closest = Closest(point: Point, sqDist: real)

  /**
   * Leaflet's `closestLayerPoint`: the same strict-`<` scan, returning the
   * clamped projection onto the first nearest segment and its squared
   * distance, or None (the source's `null`) for a polyline without segments.
   */
  function ClosestLayerPoint(poly: seq<Point>, p: Point): (r: Option<Closest>)
    ensures r.Some? <==> |poly| >= 2
    ensures r.Some? ==> r.value.sqDist == SqDist(p, r.value.point) && r.value.sqDist >= 0.0
  {
    match NearestSegment(poly, p)
    case None => None
    case Some(i) =>
      var q := ClosestOnSegment(p, poly[i - 1], poly[i]);
      SqDistNonNegative(p, q);
      Some(Closest(q, SqDist(p, q)))
  }

  /** `q` lies on some segment of `poly`. */
  ghost predicate OnPolyline(poly: seq<Point>, q: Point)
  {
    exists i :: 1 <= i < |poly| && OnSegment(q, poly[i - 1], poly[i])
  }

  /**
   * The closest layer point is defined exactly for polylines with a
   * segment; it lies on the polyline, its reported squared distance is its
   * squared distance to `p`, and no point of any segment is strictly closer.
   */
  lemma ClosestLayerPointIsNearest(poly: seq<Point>, p: Point)
    ensures ClosestLayerPoint(poly, p).Some? <==> |poly| >= 2
    ensures ClosestLayerPoint(poly, p).Some? ==>
      var c := ClosestLayerPoint(poly, p).value;
      && c.sqDist == SqDist(p, c.point)
      && OnPolyline(poly, c.point)
      && forall j, t :: 1 <= j < |poly| && 0.0 <= t <= 1.0 ==>
           c.sqDist <= SqDist(p, SegmentPoint(poly, j, t))
  {
    NearestSegmentIsFirstMinimum(poly, p);
    if |poly| >= 2 {
      var i := NearestSegment(poly, p).value;
      var c := ClosestLayerPoint(poly, p).value;
      ClosestOnSegmentIsOnSegment(p, poly[i - 1], poly[i]);
      assert OnPolyline(poly, c.point);
      forall j, t | 1 <= j < |poly| && 0.0 <= t <= 1.0
        ensures c.sqDist <= SqDist(p, SegmentPoint(poly, j, t))
      {
        ClosestOnSegmentIsNearest(p, poly[j - 1], poly[j], t);
        assert SegmentSqDist(poly, p, i) <= SegmentSqDist(poly, p, j);
      }
    }
  }
}
