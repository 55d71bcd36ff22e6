/**
 * Concrete instances of the nearest-segment scan and the insertion-index
 * rule on small routes, including the tie cases.
 */
module Scenarios {
  import opened Optional
  import opened Geometry
  import opened Proximity
  import opened Waypoints

  /** An L-shaped route: (0,0) to (10,0), then up to (10,10). */
  function LRoute(): seq<Point>
  {
    [Point(0.0, 0.0), Point(10.0, 0.0), Point(10.0, 10.0)]
  }

  /** (10,5) projects onto the end (10,0) of the first leg, 5 away. */
  lemma BesideSecondLegToFirstLeg()
    ensures SegmentSqDist(LRoute(), Point(10.0, 5.0), 1) == 25.0
  {
    var p, a, b := Point(10.0, 5.0), Point(0.0, 0.0), Point(10.0, 0.0);
    assert SegLen2(a, b) == 100.0 && ProjNum(p, a, b) == 100.0;
    assert ClosestOnSegment(p, a, b) == Lerp(a, b, 1.0);
  }

  /** (10,5) is the midpoint of the second leg. */
  lemma BesideSecondLegToSecondLeg()
    ensures SegmentSqDist(LRoute(), Point(10.0, 5.0), 2) == 0.0
  {
    var p, a, b := Point(10.0, 5.0), Point(10.0, 0.0), Point(10.0, 10.0);
    assert SegLen2(a, b) == 100.0 && ProjNum(p, a, b) == 50.0;
    assert ClosestOnSegment(p, a, b) == Lerp(a, b, 0.5);
  }

  /** (5,0) is the midpoint of the first leg. */
  lemma OnFirstLegToFirstLeg()
    ensures SegmentSqDist(LRoute(), Point(5.0, 0.0), 1) == 0.0
  {
    var p, a, b := Point(5.0, 0.0), Point(0.0, 0.0), Point(10.0, 0.0);
    assert SegLen2(a, b) == 100.0 && ProjNum(p, a, b) == 50.0;
    assert ClosestOnSegment(p, a, b) == Lerp(a, b, 0.5);
  }

  /** (5,0) projects before the start (10,0) of the second leg, so it clamps to it, 5 away. */
  lemma OnFirstLegToSecondLeg()
    ensures SegmentSqDist(LRoute(), Point(5.0, 0.0), 2) == 25.0
  {
    var p, a, b := Point(5.0, 0.0), Point(10.0, 0.0), Point(10.0, 10.0);
    assert SegLen2(a, b) == 100.0 && ProjNum(p, a, b) == 0.0;
    assert ClosestOnSegment(p, a, b) == Lerp(a, b, 0.0);
  }

  /** A point beside the second leg maps to segment 2. */
  lemma BesideSecondLegMapsToSecond()
    ensures NearestSegment(LRoute(), Point(10.0, 5.0)) == Some(2)
  {
    BesideSecondLegToFirstLeg();
    BesideSecondLegToSecondLeg();
  }

  /** A point on the first leg maps to segment 1. */
  lemma OnFirstLegMapsToFirst()
    ensures NearestSegment(LRoute(), Point(5.0, 0.0)) == Some(1)
  {
    OnFirstLegToFirstLeg();
    OnFirstLegToSecondLeg();
    assert FirstNearestUpTo(LRoute(), Point(5.0, 0.0), 1) == 1;
  }

  /**
   * With one waypoint on segment 1, a candidate on segment 2 is appended,
   * and so is a candidate on segment 1: an equal segment is not later.
   */
  lemma LRouteInsertion()
    ensures InsertionIndex([Some(1)], Some(2)) == 1
    ensures InsertionIndex([Some(1)], Some(1)) == 1
  {
    var s: seq<Option<nat>> := [Some(1)];
    assert s[1..] == [];
  }

  /** Waypoints on segments 2, 5 and 8: a candidate on 4 enters at 1, one on 9 is appended, one on 5 goes after the 5. */
  lemma InsertionBetweenSegments()
    ensures InsertionIndex([Some(2), Some(5), Some(8)], Some(4)) == 1
    ensures InsertionIndex([Some(2), Some(5), Some(8)], Some(9)) == 3
    ensures InsertionIndex([Some(2), Some(5), Some(8)], Some(5)) == 2
  {
    var s: seq<Option<nat>> := [Some(2), Some(5), Some(8)];
    assert s[1..] == [Some(5), Some(8)] && s[1..][1..] == [Some(8)] && s[1..][1..][1..] == [];
  }

  /** A straight route of two equal legs, 10 long each. */
  function StraightRoute(): seq<Point>
  {
    [Point(0.0, 0.0), Point(10.0, 0.0), Point(20.0, 0.0)]
  }

  /** (10,5) projects onto the end (10,0) of the first leg, 5 away. */
  lemma AboveMiddleToFirstLeg()
    ensures SegmentSqDist(StraightRoute(), Point(10.0, 5.0), 1) == 25.0
  {
    var p, a, b := Point(10.0, 5.0), Point(0.0, 0.0), Point(10.0, 0.0);
    assert SegLen2(a, b) == 100.0 && ProjNum(p, a, b) == 100.0;
    assert ClosestOnSegment(p, a, b) == Lerp(a, b, 1.0);
  }

  /** (10,5) projects onto the start (10,0) of the second leg, 5 away. */
  lemma AboveMiddleToSecondLeg()
    ensures SegmentSqDist(StraightRoute(), Point(10.0, 5.0), 2) == 25.0
  {
    var p, a, b := Point(10.0, 5.0), Point(10.0, 0.0), Point(20.0, 0.0);
    assert SegLen2(a, b) == 100.0 && ProjNum(p, a, b) == 0.0;
    assert ClosestOnSegment(p, a, b) == Lerp(a, b, 0.0);
  }

  /** A point above the middle vertex is equally near both legs, and segment 1 wins. */
  lemma TieGoesToEarlierSegment()
    ensures SegmentSqDist(StraightRoute(), Point(10.0, 5.0), 1)
         == SegmentSqDist(StraightRoute(), Point(10.0, 5.0), 2)
    ensures NearestSegment(StraightRoute(), Point(10.0, 5.0)) == Some(1)
  {
    AboveMiddleToFirstLeg();
    AboveMiddleToSecondLeg();
  }
}
