# Route-editing layer of mapbox-directions.js, in Dafny

This project models the map layer that edits a driving route. The layer keeps
markers for the origin, the destination and each waypoint. It also keeps a
"ghost" drag marker that follows the pointer along the selected route. When
the user drags the ghost, a new waypoint is inserted into the directions
object at the position that matches its place along the route. The model
covers:

- the nearest-segment scan over the route polyline (first minimum wins);
- Leaflet's clamped closest point on a segment and on a polyline;
- the waypoint insertion-index rule;
- the drag session: `_dragStart`, `_drag`, `_dragEnd`, with `_currentWaypoint`;
- the ghost-marker hover rule in `_mousemove`;
- `_click`, `_removeWaypoint`, `_selectRoute`, and the `origin` and
  `destination` event handlers;
- the reconciliation of the waypoint markers in `_load`.

Files:

- `geometry.dfy`: `Optional` (the source's `undefined`/`null`) and
  `Geometry`, the exact clamped projection onto a segment, with the proof
  that it is a nearest point.
- `proximity.dfy`: `NearestSegment`, the strict-`<` scan as a function, and
  `ClosestLayerPoint`, with their first-minimum and nearest-point properties.
- `waypoints.dfy`: the waypoint sequence operations of the directions object,
  the insertion index with its characterisation, and the route-order
  invariant.
- `layer.dfy`: the `Layer` class with the source's fields and handlers as
  methods, the `Marker` class, and the hover rule with its lemmas.
- `scenarios.dfy`: concrete routes that show the tie-breaks.

Modelling decisions:

- Coordinates are exact `real`s. The map projections are the identity, so
  every point is already in layer space.
- `distanceTo(q) < 15` becomes `SqDist < 225`, and `distance > 15` becomes
  `sqDist > 225`. For non-negative values these comparisons agree.
- The directions object is represented by fields of the layer: `origin` and
  `destination` as options, `waypoints` as a sequence, and `queryCount`,
  which counts the `query()` requests.
- Marker identity is object identity (`class Marker`). The layer group's
  membership is the set `shown`.
- `_currentWaypoint` is `Option<int>`, where `None` is `undefined`; it is
  `int` because `indexOf` may give -1.
- `_findNearestRouteSegment` returns `None` (`undefined`) for a polyline with
  fewer than two points. The comparison `s > segment` with an `undefined`
  side is false in JavaScript; `Waypoints.Later` models this.
- `addWaypoint`, `setWaypoint` and `removeWaypoint` belong to the directions
  object, which is not part of this model. They are modelled on the
  assumption that an out-of-range index changes nothing.

A candidate whose nearest segment equals an existing waypoint's goes after
that waypoint, because the comparison `s > segment` (src/layer.js:240) is
strict. `Scenarios.LRouteInsertion` shows index 1 for a candidate on segment 1
when the only waypoint is on segment 1.

## Model

| member | source | states |
|---|---|---|
| Geometry.ClosestOnSegment | src/layer.js:255 | Leaflet's clamped projection of the pointer onto a segment, as `_sqClosestPointOnSegment` computes it; the result lies on the closed segment |
| Geometry.SqDistToSegment | src/layer.js:255 | the squared distance the scan compares, to the clamped projection; never negative |
| Geometry.ClosestOnSegmentIsOnSegment | src/layer.js:255 | the clamped projection used per segment is the segment point at a parameter in [0, 1], so it lies on the segment |
| Geometry.ClosestOnSegmentIsNearest | src/layer.js:255 | the clamped squared distance is no larger than the squared distance to any point of the segment, including degenerate segments |
| Proximity.FirstNearestUpTo | src/layer.js:254-260 | the index the strict-`<` scan holds after segment k; always one of segments 1..k |
| Proximity.NearestSegment | src/layer.js:248-263 | the scan's result: defined exactly when the polyline has at least 2 points, and then a segment index in [1, len-1] |
| Proximity.ClosestLayerPoint | src/layer.js:91 | `closestLayerPoint`: defined exactly when the polyline has a segment; its reported squared distance is that of its point, and never negative |
| Proximity.FirstNearestUpToIsFirstMinimum | src/layer.js:254-260 | after scanning segments 1..k, the kept index is in [1, k], no farther than any scanned segment, and strictly nearer than every earlier one |
| Proximity.NearestSegmentIsFirstMinimum | src/layer.js:248-263 | the scan returns an index exactly when the polyline has at least 2 points; the index is in [1, len-1] and is the first minimum |
| Proximity.FirstNearestIsUnique | src/layer.js:256-259 | the strict `<` tie-break singles out one segment: two first minima are equal |
| Proximity.NearestSegmentIsExactlyFirstNearest | src/layer.js:248-263 | both directions: the scan returns i if and only if i is the first nearest segment |
| Proximity.ClosestLayerPointIsNearest | src/layer.js:91 | the closest layer point exists exactly for polylines with a segment; it lies on the polyline, its squared distance is reported correctly, and no route point is closer |
| Waypoints.AddWaypoint | src/layer.js:130 | `addWaypoint`: in range, one entry more with the point at the index; out of range, unchanged |
| Waypoints.SetWaypoint | src/layer.js:144 | `setWaypoint`: the length is kept and only the entry at the index changes, to the point; out of range or undefined, unchanged |
| Waypoints.RemoveWaypoint | src/layer.js:157 | `removeWaypoint`: in range, one entry fewer, earlier entries in place and later ones moved down by one; out of range (including -1), unchanged |
| Waypoints.InsertionIndex | src/layer.js:238-245 | the position of the first waypoint whose segment is later than the candidate's, or the end; never past the end |
| Waypoints.InsertAtShiftsTail | src/layer.js:130 | inserting a waypoint grows the sequence by one, puts it at the index, keeps the earlier entries in place and shifts the later ones by one, in order |
| Waypoints.SetWaypointTwice | src/layer.js:144 | successive drag steps on the same waypoint keep only the last position |
| Waypoints.RemoveWaypointUndoesAddWaypoint | src/layer.js:130 | for an in-range index, adding a waypoint grows the sequence by one and puts the point at the index, and removing at the same index restores the sequence |
| Waypoints.InsertionIndexIsFirstLater | src/layer.js:238-245 | every waypoint before the insertion index has a segment that is not later than the candidate's; the waypoint at the index, if any, has a later segment |
| Waypoints.InsertionIndexIsExactlyFirstLater | src/layer.js:235-246 | both directions: r is the insertion index if and only if r is in [0, n], no entry before r is later, and entry r (if r < n) is later |
| Waypoints.InsertionIndexWithoutTarget | src/layer.js:240 | when the candidate has no segment (`undefined`), no comparison succeeds and the waypoint is appended |
| Waypoints.IndexOf | src/layer.js:132 | `indexOf` gives -1 exactly when the marker is absent; otherwise the position of its first occurrence |
| Waypoints.InsertionKeepsRouteOrder | src/layer.js:235-246 | if the existing segments are non-decreasing, they stay non-decreasing after the candidate's segment is inserted at the insertion index |
| RouteLayer.HoverOutcome | src/layer.js:88-110 | the hover rule's outcome; when the ghost is shown, it is at the route's closest layer point, within 15 of the pointer |
| RouteLayer.HoverIgnoredExactlyWhenInactive | src/layer.js:88-89 | a pointer move does nothing if and only if no route is selected or a drag is active |
| RouteLayer.HoverShowsNearestRoutePoint | src/layer.js:91-110 | when the ghost is shown: it is on the route, within 15 of the pointer, no route point is closer, and the pointer is at least 15 from the origin, the destination and every waypoint |
| RouteLayer.HoverHidesNearMarkers | src/layer.js:100-107 | within 15 of the origin, the destination or any waypoint marker, the ghost is hidden, whatever the route |
| RouteLayer.HoverHidesFarFromRoute | src/layer.js:93-94 | when every route point is farther than 15, the ghost is hidden |
| RouteLayer.HoverShowsWhenClear | src/layer.js:91-110 | when some route point is within 15 and no marker is, the ghost is shown exactly at the closest layer point |
| RouteLayer.NewWaypointKeepsRouteOrder | src/layer.js:127-130 | on a route with a segment, adding the ghost's position at its insertion index keeps the waypoints' nearest segments in route order |
| RouteLayer.Layer.constructor | src/layer.js:4-45 | a new layer has fresh, distinct origin, destination and ghost markers at (0, 0), no waypoint markers, no drag in progress, and nothing shown |
| RouteLayer.Layer.Queryable | src/layer.js:147 | `queryable()`: both origin and destination are set; `Drag` queries exactly when it holds |
| RouteLayer.Layer.FindNearestRouteSegment | src/layer.js:248-263 | the loop with `min`/`index` returns the scan's result: None without a segment, else the first nearest segment |
| RouteLayer.Layer.FindWaypointIndex | src/layer.js:235-246 | the loop with early return gives exactly the insertion index of the candidate's nearest segment among the markers' nearest segments, at most the number of markers (characterised by `Waypoints.InsertionIndexIsExactlyFirstLater`) |
| RouteLayer.Layer.Click | src/layer.js:79-85 | sets the origin if it is unset; otherwise sets the destination and queries if the destination is unset; otherwise changes nothing |
| RouteLayer.Layer.MouseMove | src/layer.js:87-111 | the ghost's membership and position change exactly as the hover rule says; Ignore leaves both unchanged |
| RouteLayer.Layer.DragStart | src/layer.js:127-134 | on the ghost: `_currentWaypoint` becomes the insertion index, the ghost's position is inserted there, and route order is kept; on another marker: `_currentWaypoint` is its `indexOf` and the waypoints are unchanged |
| RouteLayer.Layer.Drag | src/layer.js:136-150 | changes exactly one of origin, destination, or the current waypoint; queries if and only if the directions are queryable afterwards |
| RouteLayer.Layer.DragEnd | src/layer.js:152-154 | `_currentWaypoint` becomes undefined |
| RouteLayer.Layer.RemoveWaypoint | src/layer.js:156-158 | removes the waypoint at the marker's `indexOf` (one fewer when it is present and the lists agree) and always queries |
| RouteLayer.Layer.SelectRoute | src/layer.js:204-209 | the selected route becomes the given polyline |
| RouteLayer.Layer.OriginEvent | src/layer.js:113-118 | with a position, the origin marker moves there and is shown; without one, nothing changes |
| RouteLayer.Layer.DestinationEvent | src/layer.js:120-125 | with a position, the destination marker moves there and is shown; without one, nothing changes |
| RouteLayer.Layer.MoveKeptMarkers | src/layer.js:174-177 | each of the first `l` waypoint markers moves to the loaded waypoint at its position |
| RouteLayer.Layer.AddMarkers | src/layer.js:179-194 | the markers grow to one per loaded waypoint; the existing ones are kept, and each added one is fresh, distinct, at its waypoint and shown; the markers stay distinct |
| RouteLayer.Layer.DropMarkers | src/layer.js:196-201 | the markers are cut to the first `n`; exactly the dropped ones leave the layer group; the kept ones stay shown or hidden as before |
| RouteLayer.Layer.ReconcileWaypointMarkers | src/layer.js:171-201 | one marker per loaded waypoint, at its position; the first min(old, new) markers are the same objects and keep their membership, the rest are fresh and shown; surplus markers are hidden; the markers stay distinct |
| RouteLayer.Layer.Load | src/layer.js:160-202 | origin and destination markers are moved and shown; the waypoint markers are reconciled as above, and if every old marker was shown, every marker is shown afterwards |
| Scenarios.BesideSecondLegMapsToSecond | src/layer.js:248-263 | on the route (0,0), (10,0), (10,10), the point (10,5) maps to segment 2 |
| Scenarios.OnFirstLegMapsToFirst | src/layer.js:248-263 | on the same route, the point (5,0), on segment 1 and 5 away from segment 2's clamped start, maps to segment 1 |
| Scenarios.LRouteInsertion | src/layer.js:238-245 | with one waypoint on segment 1, candidates on segment 2 and on segment 1 are both appended (index 1) |
| Scenarios.InsertionBetweenSegments | src/layer.js:238-245 | with waypoints on segments 2, 5 and 8, candidates on 4, 9 and 5 enter at positions 1, 3 and 2 |
| Scenarios.TieGoesToEarlierSegment | src/layer.js:256 | equally near two segments, the scan picks the earlier one |

## Left out

- Marker creation options, icons and styling (src/layer.js:8-42, 265-270): presentation only. Markers are reduced to a position.
- `onAdd` and `onRemove` (src/layer.js:47-77): Leaflet map binding and event subscription. Each handler is a method called directly.
- `_highlightRoute` and `_highlightStep` (src/layer.js:211-229): they only toggle display layers.
- `_routePolyline` (src/layer.js:231-233): the selected route is the field `route`. With no route, `_originalPoints` of `undefined` is a TypeError, so `FindNearestRouteSegment`, `FindWaypointIndex` and `DragStart` on the ghost require a selected route.
- src/input_control.js and src/routes_control.js are not part of this model: form widgets and route-list rendering.
- Map projections (`latLngToLayerPoint`, `project`, `layerPointToLatLng`) are the identity. Pixel rounding is not modelled.
- Leaflet's `closestLayerPoint` scans the clipped and simplified `_parts`, while the segment scan uses `_originalPoints`. Both are modelled on the same unclipped polyline.
- `ClosestLayerPoint` and `ClosestOnSegment` are written from Leaflet's public `LineUtil` definitions. Leaflet itself is not part of this model.
- Floating-point rounding and `Math.sqrt`: arithmetic is exact, and distances are compared squared.
- `query()` is asynchronous network I/O. It is modelled as an increment of `queryCount`, and the `load` event's data arrives as `Load`'s parameters.
- The directions object's events: `setOrigin`, `setDestination` and `load` raise events that move the markers. The model does not chain them; `OriginEvent`, `DestinationEvent` and `Load` are separate methods.
- The directions object's own handling of an out-of-range index is assumed to change nothing. Its real behaviour is not part of this model.
- `RouteLayer.Layer.MouseMove`: the check `i !== this._currentWaypoint` (src/layer.js:105) is modelled, but it always holds there, because the handler returns early while `_currentWaypoint` is set.
- `hasLayer(this.routeLayer)` (src/layer.js:88) is folded into `route.Some?`. `_selectRoute` is the only place that adds the route layer, and nothing in the core removes it.
- `RouteLayer.Layer.Load`: it states that the kept markers stay shown only if every old marker was shown. Keeping all markers shown is not an invariant of the class, because `shown` is also the layer group, which is open to outside callers.
