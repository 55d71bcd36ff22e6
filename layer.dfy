/**
 * The route-editing layer: origin, destination, waypoint and ghost markers
 * over a selected route, the hover rule that shows the ghost waypoint, the
 * drag session that edits the directions object, and the reconciliation of
 * the waypoint markers after a route is loaded.
 *
 * The directions object the layer edits is represented by fields of the
 * layer (origin, destination, waypoints, and a count of route queries
 * requested); the layer group's membership is the set `shown`.
 */
module RouteLayer {
  import opened Optional
  import opened Geometry
  import opened Proximity
  import Waypoints

  /** The 15-pixel radius of the hover rule, squared. */
  const SqRadius: real := 225.0

  /** A map marker; its position is in layer space. */
  class Marker {
    var pos: Point

    constructor (p: Point)
      ensures pos == p
    {
      pos := p;
    }
  }

  /** The positions of a list of markers, in order. */
  function Positions(ms: seq<Marker>): (ps: seq<Point>)
    reads ms
    ensures |ps| == |ms| && forall i :: 0 <= i < |ms| ==> ps[i] == ms[i].pos
  {
    seq(|ms|, i reads ms requires 0 <= i < |ms| => ms[i].pos)
  }

  function Min(a: nat, b: nat): nat
  {
    if a < b then a else b
  }

  /** The markers of a list, as a set. */
  function Elems(ms: seq<Marker>): set<Marker>
  {
    set m | m in ms
  }

  /** The nearest route segment of each point, in order. */
  function SegmentsOf(poly: seq<Point>, ps: seq<Point>): (segs: seq<Option<nat>>)
    ensures |segs| == |ps| && forall i :: 0 <= i < |ps| ==> segs[i] == NearestSegment(poly, ps[i])
  {
    seq(|ps|, i requires 0 <= i < |ps| => NearestSegment(poly, ps[i]))
  }

  /** Some waypoint other than the one being dragged lies within the radius of `m`. */
  predicate NearWaypoint(ws: seq<Point>, current: Option<int>, m: Point)
  {
    exists i :: 0 <= i < |ws| && Some(i) != current && SqDist(ws[i], m) < SqRadius
  }

  /** What a pointer move does to the ghost marker. */
  datatype Hover = Ignore | Hide | ShowAt(at: Point)

  /**
   * The hover rule: nothing happens without a selected route or during a
   * drag; the ghost is hidden when the route is farther than the radius or
   * the pointer is within the radius of the origin, the destination or a
   * waypoint marker; otherwise it is shown at the closest route point.
   */
  function HoverOutcome(route: Option<seq<Point>>, current: Option<int>,
                        o: Point, d: Point, ws: seq<Point>, m: Point): (h: Hover)
    ensures h.ShowAt? ==>
      && route.Some? && ClosestLayerPoint(route.value, m).Some?
      && h.at == ClosestLayerPoint(route.value, m).value.point
      && SqDist(m, h.at) <= SqRadius
  {
    if route.None? || current.Some? then Ignore
    else match ClosestLayerPoint(route.value, m)
      case None => Hide
      case Some(c) =>
        if c.sqDist > SqRadius then Hide
        else if SqDist(o, m) < SqRadius || SqDist(d, m) < SqRadius then Hide
        else if NearWaypoint(ws, current, m) then Hide
        else ShowAt(c.point)
  }

  /** Pointer moves are ignored exactly when no route is selected or a drag is in progress. */
  lemma HoverIgnoredExactlyWhenInactive(route: Option<seq<Point>>, current: Option<int>,
                                        o: Point, d: Point, ws: seq<Point>, m: Point)
    ensures HoverOutcome(route, current, o, d, ws, m) == Ignore <==> route.None? || current.Some?
  {
  }

  /**
   * When the ghost is shown, it sits on the route, at a point no farther
   * from the pointer than any route point, within the radius of the
   * pointer, and the pointer is at least the radius away from the origin,
   * the destination and every waypoint marker.
   */
  lemma HoverShowsNearestRoutePoint(route: Option<seq<Point>>, current: Option<int>,
                                    o: Point, d: Point, ws: seq<Point>, m: Point)
    requires HoverOutcome(route, current, o, d, ws, m).ShowAt?
    ensures route.Some? && current.None?
    ensures var q := HoverOutcome(route, current, o, d, ws, m).at;
      && OnPolyline(route.value, q)
      && SqDist(m, q) <= SqRadius
      && (forall j, t :: 1 <= j < |route.value| && 0.0 <= t <= 1.0 ==>
            SqDist(m, q) <= SqDist(m, SegmentPoint(route.value, j, t)))
    ensures SqDist(o, m) >= SqRadius && SqDist(d, m) >= SqRadius
    ensures forall i :: 0 <= i < |ws| ==> SqDist(ws[i], m) >= SqRadius
  {
    ClosestLayerPointIsNearest(route.value, m);
  }

  /** Within the radius of the origin, the destination or any waypoint marker, the ghost is hidden. */
  lemma HoverHidesNearMarkers(poly: seq<Point>, o: Point, d: Point, ws: seq<Point>, m: Point, i: nat)
    requires SqDist(o, m) < SqRadius || SqDist(d, m) < SqRadius || (i < |ws| && SqDist(ws[i], m) < SqRadius)
    ensures HoverOutcome(Some(poly), None, o, d, ws, m) == Hide
  {
  }

  /** When every route point is farther than the radius, the ghost is hidden. */
  lemma HoverHidesFarFromRoute(poly: seq<Point>, o: Point, d: Point, ws: seq<Point>, m: Point)
    requires forall j, t :: 1 <= j < |poly| && 0.0 <= t <= 1.0 ==>
               SqDist(m, SegmentPoint(poly, j, t)) > SqRadius
    ensures HoverOutcome(Some(poly), None, o, d, ws, m) == Hide
  {
    ClosestLayerPointIsNearest(poly, m);
    if |poly| >= 2 {
      var i := NearestSegment(poly, m).value;
      ClosestOnSegmentIsOnSegment(m, poly[i - 1], poly[i]);
      var t := ClampedParam(m, poly[i - 1], poly[i]);
      assert ClosestLayerPoint(poly, m).value.point == SegmentPoint(poly, i, t);
    }
  }

  /**
   * When some route point is within the radius and no marker is, the ghost
   * is shown, at the closest layer point of the route.
   */
  lemma HoverShowsWhenClear(poly: seq<Point>, o: Point, d: Point, ws: seq<Point>, m: Point, j: nat, t: real)
    requires 1 <= j < |poly| && 0.0 <= t <= 1.0 && SqDist(m, SegmentPoint(poly, j, t)) <= SqRadius
    requires SqDist(o, m) >= SqRadius && SqDist(d, m) >= SqRadius
    requires forall i :: 0 <= i < |ws| ==> SqDist(ws[i], m) >= SqRadius
    ensures ClosestLayerPoint(poly, m).Some?
    ensures HoverOutcome(Some(poly), None, o, d, ws, m) == ShowAt(ClosestLayerPoint(poly, m).value.point)
  {
    ClosestLayerPointIsNearest(poly, m);
  }

  /** The segments of a sequence with an insertion are the segments with the new point's segment inserted. */
  lemma SegmentsOfInsertAt(poly: seq<Point>, ws: seq<Point>, i: nat, p: Point)
    requires i <= |ws|
    ensures SegmentsOf(poly, Waypoints.InsertAt(ws, i, p))
         == Waypoints.InsertAt(SegmentsOf(poly, ws), i, NearestSegment(poly, p))
  {
    Waypoints.InsertAtShiftsTail(ws, i, p);
    Waypoints.InsertAtShiftsTail(SegmentsOf(poly, ws), i, NearestSegment(poly, p));
  }

  /**
   * The ordering invariant across a ghost drag start: on a route with a
   * segment, when the waypoints' nearest segments are in route order, adding
   * a waypoint at the insertion index keeps them in route order.
   */
  lemma NewWaypointKeepsRouteOrder(poly: seq<Point>, ws: seq<Point>, p: Point)
    requires |poly| >= 2
    requires Waypoints.InRouteOrder(SegmentsOf(poly, ws))
    ensures Waypoints.InRouteOrder(SegmentsOf(poly,
              Waypoints.AddWaypoint(ws, Waypoints.InsertionIndex(SegmentsOf(poly, ws), NearestSegment(poly, p)), p)))
  {
    var segs := SegmentsOf(poly, ws);
    NearestSegmentIsFirstMinimum(poly, p);
    var t := NearestSegment(poly, p).value;
    var r := Waypoints.InsertionIndex(segs, Some(t));
    SegmentsOfInsertAt(poly, ws, r, p);
    Waypoints.InsertionKeepsRouteOrder(segs, t);
  }

  class Layer {
    // The directions object's state.
    var origin: Option<Point>
    var destination: Option<Point>
    var waypoints: seq<Point>
    var queryCount: nat
    // The selected route's polyline; None until a route is selected.
    var route: Option<seq<Point>>
    // The index of the waypoint being dragged; None outside a waypoint drag.
    var currentWaypoint: Option<int>
    // The markers, and the ones currently added to the layer group.
    const originMarker: Marker
    const destinationMarker: Marker
    const dragMarker: Marker
    var waypointMarkers: seq<Marker>
    var shown: set<Marker>

    /** The four kinds of marker are distinct objects, and so are the waypoint markers. */
    ghost predicate Valid()
      reads this
    {
      && originMarker != destinationMarker
      && originMarker != dragMarker
      && destinationMarker != dragMarker
      && (forall i :: 0 <= i < |waypointMarkers| ==>
            waypointMarkers[i] != originMarker && waypointMarkers[i] != destinationMarker
            && waypointMarkers[i] != dragMarker)
      && (forall i, j :: 0 <= i < j < |waypointMarkers| ==> waypointMarkers[i] != waypointMarkers[j])
    }

    /** A layer over a directions object in the given state; every marker starts at (0, 0). */
    constructor (origin0: Option<Point>, destination0: Option<Point>, waypoints0: seq<Point>)
      ensures Valid()
      ensures fresh(originMarker) && fresh(destinationMarker) && fresh(dragMarker)
      ensures origin == origin0 && destination == destination0 && waypoints == waypoints0
      ensures queryCount == 0 && route == None && currentWaypoint == None
      ensures waypointMarkers == [] && shown == {}
      ensures originMarker.pos == Point(0.0, 0.0) && destinationMarker.pos == Point(0.0, 0.0)
      ensures dragMarker.pos == Point(0.0, 0.0)
    {
      origin, destination, waypoints := origin0, destination0, waypoints0;
      queryCount := 0;
      route := None;
      currentWaypoint := None;
      originMarker := new Marker(Point(0.0, 0.0));
      destinationMarker := new Marker(Point(0.0, 0.0));
      dragMarker := new Marker(Point(0.0, 0.0));
      waypointMarkers := [];
      shown := {};
    }

    /** The directions object can be queried: both origin and destination are set. */
    predicate Queryable()
      reads this
    {
      origin.Some? && destination.Some?
    }

    /** The positions of the waypoint markers. */
    function MarkerPositions(): seq<Point>
      reads this, waypointMarkers
    {
      Positions(waypointMarkers)
    }

    /**
     * The nearest route segment to `p`: the first segment of minimum
     * distance, or None when the route has no segment.
     */
    method FindNearestRouteSegment(p: Point) returns (index: Option<nat>)
      requires route.Some?
      ensures index == NearestSegment(route.value, p)
      ensures index.Some? <==> |route.value| >= 2
      ensures index.Some? ==> IsFirstNearest(route.value, p, index.value)
    {
      var positions := route.value;
      // `min` is meaningful once `index` is set; until then it stands for the source's Infinity.
      var min: real := 0.0;
      index := None;
      var i := 1;
      while i < |positions|
        invariant 1 <= i && (i <= |positions| || i == 1)
        invariant i == 1 ==> index.None?
        invariant i > 1 ==> index == Some(FirstNearestUpTo(positions, p, i - 1))
                            && min == SegmentSqDist(positions, p, index.value)
      {
        var d := SqDistToSegment(p, positions[i - 1], positions[i]);
        if index.None? || d < min {
          min := d;
          index := Some(i);
        }
        i := i + 1;
      }
      NearestSegmentIsFirstMinimum(positions, p);
    }

    /**
     * Where a new waypoint at `latLng` enters the waypoint sequence: the
     * first waypoint marker whose nearest segment lies later on the route,
     * or the end.
     */
    method FindWaypointIndex(latLng: Point) returns (r: nat)
      requires route.Some?
      ensures r <= |waypointMarkers|
      ensures r == Waypoints.InsertionIndex(SegmentsOf(route.value, MarkerPositions()), NearestSegment(route.value, latLng))
    {
      var segment := FindNearestRouteSegment(latLng);
      ghost var segs := SegmentsOf(route.value, MarkerPositions());
      var i := 0;
      while i < |waypointMarkers|
        invariant 0 <= i <= |waypointMarkers|
        invariant forall j :: 0 <= j < i ==> !Waypoints.Later(segs[j], segment)
      {
        var s := FindNearestRouteSegment(waypointMarkers[i].pos);
        if Waypoints.Later(s, segment) {
          r := i;
          Waypoints.InsertionIndexIsExactlyFirstLater(segs, segment, r);
          return;
        }
        i := i + 1;
      }
      r := |waypointMarkers|;
      Waypoints.InsertionIndexIsExactlyFirstLater(segs, segment, r);
    }

    /** A map click sets the origin if unset, else the destination (and queries) if unset, else nothing. */
    method Click(latLng: Point)
      modifies this`origin, this`destination, this`queryCount
      ensures old(origin).None? ==>
                origin == Some(latLng) && destination == old(destination) && queryCount == old(queryCount)
      ensures old(origin).Some? && old(destination).None? ==>
                origin == old(origin) && destination == Some(latLng) && queryCount == old(queryCount) + 1
      ensures old(origin).Some? && old(destination).Some? ==>
                origin == old(origin) && destination == old(destination) && queryCount == old(queryCount)
    {
      if origin.None? {
        origin := Some(latLng);
      } else if destination.None? {
        destination := Some(latLng);
        queryCount := queryCount + 1;
      }
    }

    /** A pointer move at `m` shows, moves or hides the ghost marker by the hover rule. */
    method MouseMove(m: Point)
      requires Valid()
      modifies this`shown, dragMarker
      ensures Valid()
      ensures var h := HoverOutcome(old(route), old(currentWaypoint), old(originMarker.pos),
                                    old(destinationMarker.pos), old(MarkerPositions()), m);
        && (h.Ignore? ==> shown == old(shown) && dragMarker.pos == old(dragMarker.pos))
        && (h.Hide? ==> shown == old(shown) - {dragMarker} && dragMarker.pos == old(dragMarker.pos))
        && (h.ShowAt? ==> shown == old(shown) + {dragMarker} && dragMarker.pos == h.at)
    {
      if route.None? || currentWaypoint.Some? {
        return;
      }
      var p := ClosestLayerPoint(route.value, m);
      if p.None? || p.value.sqDist > SqRadius {
        shown := shown - {dragMarker};
        return;
      }
      var o, d := originMarker.pos, destinationMarker.pos;
      if SqDist(o, m) < SqRadius || SqDist(d, m) < SqRadius {
        shown := shown - {dragMarker};
        return;
      }
      ghost var ws := MarkerPositions();
      var i := 0;
      while i < |waypointMarkers|
        invariant 0 <= i <= |waypointMarkers|
        invariant forall j :: 0 <= j < i ==> !(Some(j) != currentWaypoint && SqDist(ws[j], m) < SqRadius)
      {
        var w := waypointMarkers[i].pos;
        if Some(i) != currentWaypoint && SqDist(w, m) < SqRadius {
          shown := shown - {dragMarker};
          return;
        }
        i := i + 1;
      }
      dragMarker.pos := p.value.point;
      shown := shown + {dragMarker};
    }

    /**
     * Starting a drag. On the ghost marker, the new waypoint enters the
     * directions' waypoints at its insertion index, which becomes the
     * current waypoint; on a waypoint marker, the current waypoint is that
     * marker's index.
     */
    method DragStart(target: Marker)
      requires Valid()
      requires target == dragMarker ==> route.Some?
      modifies this`currentWaypoint, this`waypoints
      ensures Valid()
      ensures target == dragMarker ==>
        var idx := Waypoints.InsertionIndex(SegmentsOf(route.value, MarkerPositions()), NearestSegment(route.value, target.pos));
        && currentWaypoint == Some(idx)
        && waypoints == Waypoints.AddWaypoint(old(waypoints), idx, target.pos)
      ensures target == dragMarker && |waypointMarkers| <= |old(waypoints)| ==>
        && |waypoints| == |old(waypoints)| + 1
        && waypoints[currentWaypoint.value] == target.pos
        && Waypoints.RemoveAt(waypoints, currentWaypoint.value) == old(waypoints)
      ensures target == dragMarker && old(waypoints) == MarkerPositions() && |route.value| >= 2
              && Waypoints.InRouteOrder(SegmentsOf(route.value, old(waypoints))) ==>
        Waypoints.InRouteOrder(SegmentsOf(route.value, waypoints))
      ensures target != dragMarker ==>
        currentWaypoint == Some(Waypoints.IndexOf(waypointMarkers, target)) && waypoints == old(waypoints)
    {
      if target == dragMarker {
        var idx := FindWaypointIndex(target.pos);
        currentWaypoint := Some(idx);
        waypoints := Waypoints.AddWaypoint(waypoints, idx, target.pos);
        if idx <= |old(waypoints)| {
          Waypoints.RemoveWaypointUndoesAddWaypoint(old(waypoints), idx, target.pos);
        }
        if old(waypoints) == MarkerPositions() && |route.value| >= 2
           && Waypoints.InRouteOrder(SegmentsOf(route.value, old(waypoints))) {
          NewWaypointKeepsRouteOrder(route.value, old(waypoints), target.pos);
        }
      } else {
        currentWaypoint := Some(Waypoints.IndexOf(waypointMarkers, target));
      }
    }

    /**
     * A drag step: the dragged marker's position becomes the origin, the
     * destination, or the current waypoint, and a query is requested when
     * the directions are then queryable.
     */
    method Drag(target: Marker)
      requires Valid()
      modifies this`origin, this`destination, this`waypoints, this`queryCount
      ensures Valid()
      ensures target == originMarker ==>
        origin == Some(target.pos) && destination == old(destination) && waypoints == old(waypoints)
      ensures target == destinationMarker ==>
        destination == Some(target.pos) && origin == old(origin) && waypoints == old(waypoints)
      ensures target != originMarker && target != destinationMarker ==>
        && waypoints == Waypoints.SetWaypoint(old(waypoints), currentWaypoint, target.pos)
        && origin == old(origin) && destination == old(destination)
      ensures queryCount == old(queryCount) + (if Queryable() then 1 else 0)
    {
      var latLng := target.pos;
      if target == originMarker {
        origin := Some(latLng);
      } else if target == destinationMarker {
        destination := Some(latLng);
      } else {
        waypoints := Waypoints.SetWaypoint(waypoints, currentWaypoint, latLng);
      }
      if Queryable() {
        queryCount := queryCount + 1;
      }
    }

    /** Ending a drag clears the current waypoint. */
    method DragEnd()
      modifies this`currentWaypoint
      ensures currentWaypoint == None
    {
      currentWaypoint := None;
    }

    /** Clicking a waypoint marker removes its waypoint from the directions and requests a query. */
    method RemoveWaypoint(target: Marker)
      modifies this`waypoints, this`queryCount
      ensures waypoints == Waypoints.RemoveWaypoint(old(waypoints), Waypoints.IndexOf(waypointMarkers, target))
      ensures target in waypointMarkers && |waypointMarkers| == |old(waypoints)| ==>
        |waypoints| == |old(waypoints)| - 1
      ensures queryCount == old(queryCount) + 1
    {
      var index := Waypoints.IndexOf(waypointMarkers, target);
      assert target in waypointMarkers ==> 0 <= index < |waypointMarkers|;
      waypoints := Waypoints.RemoveWaypoint(waypoints, index);
      queryCount := queryCount + 1;
    }

    /** Selecting a route makes its polyline the one hover and insertion work against. */
    method SelectRoute(geometry: seq<Point>)
      modifies this`route
      ensures route == Some(geometry)
    {
      route := Some(geometry);
    }

    /** An `origin` event carrying a position moves the origin marker there and shows it. */
    method OriginEvent(e: Option<Point>)
      modifies this`shown, originMarker
      ensures e.Some? ==> originMarker.pos == e.value && shown == old(shown) + {originMarker}
      ensures e.None? ==> originMarker.pos == old(originMarker.pos) && shown == old(shown)
    {
      if e.Some? {
        originMarker.pos := e.value;
        shown := shown + {originMarker};
      }
    }

    /** A `destination` event carrying a position moves the destination marker there and shows it. */
    method DestinationEvent(e: Option<Point>)
      modifies this`shown, destinationMarker
      ensures e.Some? ==> destinationMarker.pos == e.value && shown == old(shown) + {destinationMarker}
      ensures e.None? ==> destinationMarker.pos == old(destinationMarker.pos) && shown == old(shown)
    {
      if e.Some? {
        destinationMarker.pos := e.value;
        shown := shown + {destinationMarker};
      }
    }

    /** "Update existing": the first `l` waypoint markers move to the first `l` loaded waypoints. */
    method MoveKeptMarkers(wps: seq<Point>, l: nat)
      requires Valid() && l <= |waypointMarkers| && l <= |wps|
      modifies waypointMarkers[..l]
      ensures forall j :: 0 <= j < l ==> waypointMarkers[j].pos == wps[j]
    {
      var i := 0;
      while i < l
        invariant 0 <= i <= l
        invariant forall j :: 0 <= j < i ==> waypointMarkers[j].pos == wps[j]
      {
        waypointMarkers[i].pos := wps[i];
        i := i + 1;
      }
    }

    /** "Add new": a fresh, shown marker for each loaded waypoint past the existing markers. */
    method AddMarkers(wps: seq<Point>)
      requires Valid() && |waypointMarkers| <= |wps|
      modifies this`waypointMarkers, this`shown
      ensures Valid()
      ensures |waypointMarkers| == |wps|
      ensures waypointMarkers[..|old(waypointMarkers)|] == old(waypointMarkers)
      ensures forall k :: |old(waypointMarkers)| <= k < |wps| ==>
                fresh(waypointMarkers[k]) && waypointMarkers[k].pos == wps[k]
      ensures forall j, k :: |old(waypointMarkers)| <= j < k < |wps| ==> waypointMarkers[j] != waypointMarkers[k]
      ensures shown == old(shown) + Elems(waypointMarkers[|old(waypointMarkers)|..])
    {
      var i := |waypointMarkers|;
      ghost var n := i;
      while i < |wps|
        invariant n <= i <= |wps| && |waypointMarkers| == i
        invariant Valid()
        invariant waypointMarkers[..n] == old(waypointMarkers)
        invariant forall k :: n <= k < i ==> fresh(waypointMarkers[k]) && waypointMarkers[k].pos == wps[k]
        invariant forall j, k :: n <= j < k < i ==> waypointMarkers[j] != waypointMarkers[k]
        invariant shown == old(shown) + Elems(waypointMarkers[n..])
      {
        var waypointMarker := new Marker(wps[i]);
        assert waypointMarkers[n..] + [waypointMarker] == (waypointMarkers + [waypointMarker])[n..];
        waypointMarkers := waypointMarkers + [waypointMarker];
        shown := shown + {waypointMarker};
        i := i + 1;
      }
    }

    /** "Remove old": the waypoint markers from position `n` on are hidden and dropped. */
    method DropMarkers(n: nat)
      requires Valid() && n <= |waypointMarkers|
      modifies this`waypointMarkers, this`shown
      ensures Valid()
      ensures waypointMarkers == old(waypointMarkers)[..n]
      ensures shown == old(shown) - Elems(old(waypointMarkers)[n..])
      ensures forall i :: 0 <= i < n ==> (waypointMarkers[i] in shown <==> waypointMarkers[i] in old(shown))
    {
      var i := n;
      while i < |waypointMarkers|
        modifies this`shown
        invariant n <= i <= |waypointMarkers|
        invariant shown == old(shown) - Elems(waypointMarkers[n..i])
      {
        assert waypointMarkers[n..i + 1] == waypointMarkers[n..i] + [waypointMarkers[i]];
        shown := shown - {waypointMarkers[i]};
        i := i + 1;
      }
      ghost var dropped := waypointMarkers[n..];
      forall i | 0 <= i < n
        ensures waypointMarkers[i] !in Elems(dropped)
      {
        forall k | 0 <= k < |dropped|
          ensures dropped[k] != waypointMarkers[i]
        {
          assert dropped[k] == waypointMarkers[n + k];
        }
      }
      waypointMarkers := waypointMarkers[..n];
    }

    /**
     * The waypoint half of a load: the first min(old, new) waypoint markers
     * are kept and moved, missing ones are created fresh and shown, surplus
     * ones are hidden and dropped; the kept markers stay shown or hidden.
     */
    method ReconcileWaypointMarkers(wps: seq<Point>)
      requires Valid()
      modifies this`waypointMarkers, this`shown, waypointMarkers[..Min(|waypointMarkers|, |wps|)]
      ensures Valid()
      ensures |waypointMarkers| == |wps| && MarkerPositions() == wps
      ensures var l := Min(|old(waypointMarkers)|, |wps|);
        && waypointMarkers[..l] == old(waypointMarkers)[..l]
        && (forall i :: l <= i < |wps| ==> fresh(waypointMarkers[i]) && waypointMarkers[i] in shown)
        && (forall i :: 0 <= i < l ==> (waypointMarkers[i] in shown <==> waypointMarkers[i] in old(shown)))
        && shown == (old(shown) + Elems(waypointMarkers[l..])) - Elems(old(waypointMarkers)[l..])
      ensures forall i :: |wps| <= i < |old(waypointMarkers)| ==> old(waypointMarkers)[i] !in shown
    {
      var l := Min(|waypointMarkers|, |wps|);
      MoveKeptMarkers(wps, l);
      if |waypointMarkers| <= |wps| {
        AddMarkers(wps);
        assert waypointMarkers[l..] == waypointMarkers[|old(waypointMarkers)|..];
        assert old(waypointMarkers)[l..] == [];
        assert forall i :: l <= i < |wps| ==> waypointMarkers[i] == waypointMarkers[l..][i - l];
      } else {
        DropMarkers(|wps|);
        assert waypointMarkers[l..] == [];
        assert forall i :: |wps| <= i < |old(waypointMarkers)| ==>
          old(waypointMarkers)[i] == old(waypointMarkers)[l..][i - l];
      }
    }

    /**
     * Reconciling the markers with a loaded directions result: the origin
     * and destination markers move to the result's endpoints and are shown,
     * and the waypoint markers are reconciled with the result's waypoints.
     */
    method Load(o: Point, d: Point, wps: seq<Point>)
      requires Valid()
      modifies this`waypointMarkers, this`shown, originMarker, destinationMarker,
               waypointMarkers[..Min(|waypointMarkers|, |wps|)]
      ensures Valid()
      ensures originMarker.pos == o && destinationMarker.pos == d
      ensures |waypointMarkers| == |wps| && MarkerPositions() == wps
      ensures var l := Min(|old(waypointMarkers)|, |wps|);
        && waypointMarkers[..l] == old(waypointMarkers)[..l]
        && (forall i :: l <= i < |wps| ==> fresh(waypointMarkers[i]))
        && shown == (old(shown) + {originMarker, destinationMarker} + Elems(waypointMarkers[l..]))
                    - Elems(old(waypointMarkers)[l..])
      ensures forall i :: |wps| <= i < |old(waypointMarkers)| ==> old(waypointMarkers)[i] !in shown
      ensures (forall i :: 0 <= i < |old(waypointMarkers)| ==> old(waypointMarkers)[i] in old(shown)) ==>
                forall i :: 0 <= i < |wps| ==> waypointMarkers[i] in shown
    {
      originMarker.pos := o;
      shown := shown + {originMarker};
      destinationMarker.pos := d;
      shown := shown + {destinationMarker};
      ReconcileWaypointMarkers(wps);
    }
  }
}
