/**
 * The ordered waypoint sequence: the index-addressed operations the
 * directions object offers on it, and the insertion-index rule that places
 * a new waypoint by the route segments the existing ones are nearest to.
 */
module Waypoints {
  import opened Optional

  /** `x` placed at position `i`, the entries before and after keeping their order. */
  function InsertAt<T>(s: seq<T>, i: nat, x: T): seq<T>
    requires i <= |s|
  {
    s[..i] + [x] + s[i..]
  }

  /** `s` without its entry at position `i`. */
  function RemoveAt<T>(s: seq<T>, i: nat): (r: seq<T>)
    requires i < |s|
    ensures |r| == |s| - 1
  {
    s[..i] + s[i + 1..]
  }

  /** Removing what was just inserted gives back the original sequence. */
  lemma RemoveAtInsertAt<T>(s: seq<T>, i: nat, x: T)
    requires i <= |s|
    ensures RemoveAt(InsertAt(s, i, x), i) == s
  {
    var r := InsertAt(s, i, x);
    assert r[..i] == s[..i];
    assert r[i + 1..] == s[i..];
    assert s[..i] + s[i..] == s;
  }

  /**
   * Insertion grows the sequence by one, puts `x` at `i`, and keeps every
   * other entry, in order: those before `i` in place, the rest one later.
   */
  lemma InsertAtShiftsTail<T>(s: seq<T>, i: nat, x: T)
    requires i <= |s|
    ensures |InsertAt(s, i, x)| == |s| + 1 && InsertAt(s, i, x)[i] == x
    ensures forall j :: 0 <= j < i ==> InsertAt(s, i, x)[j] == s[j]
    ensures forall j :: i <= j < |s| ==> InsertAt(s, i, x)[j + 1] == s[j]
  {
  }

  /**
   * The directions object's `addWaypoint(index, p)`, modelled as: an index
   * outside [0, |ws|] changes nothing. In range, `p` lands at `index`.
   */
  function AddWaypoint<T>(ws: seq<T>, index: int, p: T): (r: seq<T>)
    ensures 0 <= index <= |ws| ==> |r| == |ws| + 1 && r[index] == p
    ensures !(0 <= index <= |ws|) ==> r == ws
  {
    if 0 <= index <= |ws| then InsertAt(ws, index, p) else ws
  }

  /**
   * The directions object's `setWaypoint(index, p)`, modelled as: an index
   * outside the sequence changes nothing. In range, only that entry changes.
   */
  function SetWaypoint<T>(ws: seq<T>, index: Option<int>, p: T): (r: seq<T>)
    ensures |r| == |ws|
    ensures forall j :: 0 <= j < |ws| && Some(j) != index ==> r[j] == ws[j]
    ensures index.Some? && 0 <= index.value < |ws| ==> r[index.value] == p
  {
    if index.Some? && 0 <= index.value < |ws| then ws[index.value := p] else ws
  }

  /**
   * The directions object's `removeWaypoint(index)`, modelled as: an index
   * outside the sequence changes nothing. In range, the entries after
   * `index` move one place down.
   */
  function RemoveWaypoint<T>(ws: seq<T>, index: int): (r: seq<T>)
    ensures 0 <= index < |ws| ==>
      && |r| == |ws| - 1
      && (forall j :: 0 <= j < index ==> r[j] == ws[j])
      && (forall j :: index < j < |ws| ==> r[j - 1] == ws[j])
    ensures !(0 <= index < |ws|) ==> r == ws
  {
    if 0 <= index < |ws| then RemoveAt(ws, index) else ws
  }

  /** Setting a waypoint and then the same waypoint again keeps only the second write. */
  lemma SetWaypointTwice<T>(ws: seq<T>, index: Option<int>, p: T, q: T)
    ensures SetWaypoint(SetWaypoint(ws, index, p), index, q) == SetWaypoint(ws, index, q)
  {
  }

  /** A drag session that adds a waypoint and later removes it by the same index restores the sequence. */
  lemma RemoveWaypointUndoesAddWaypoint<T>(ws: seq<T>, index: int, p: T)
    requires 0 <= index <= |ws|
    ensures |AddWaypoint(ws, index, p)| == |ws| + 1 && AddWaypoint(ws, index, p)[index] == p
    ensures RemoveWaypoint(AddWaypoint(ws, index, p), index) == ws
  {
    RemoveAtInsertAt(ws, index, p);
  }

  /**
   * "Segment s lies strictly later than segment t" as the source's `s > t`
   * evaluates it: false when either side is `undefined`.
   */
  predicate Later(s: Option<nat>, t: Option<nat>)
  {
    s.Some? && t.Some? && s.value > t.value
  }

  /**
   * The position of the first existing waypoint whose nearest segment is
   * later than the candidate's, or the end of the sequence when none is.
   */
  function InsertionIndex(segs: seq<Option<nat>>, target: Option<nat>): (r: nat)
    ensures r <= |segs|
  {
    if segs == [] then 0
    else if Later(segs[0], target) then 0
    else 1 + InsertionIndex(segs[1..], target)
  }

  /**
   * Every waypoint before the insertion index is not later than the
   * candidate, and the one at the index (if any) is.
   */
  lemma {:induction false} InsertionIndexIsFirstLater(segs: seq<Option<nat>>, target: Option<nat>)
    ensures forall j :: 0 <= j < InsertionIndex(segs, target) ==> !Later(segs[j], target)
    ensures InsertionIndex(segs, target) < |segs| ==> Later(segs[InsertionIndex(segs, target)], target)
  {
    if segs != [] && !Later(segs[0], target) {
      InsertionIndexIsFirstLater(segs[1..], target);
      forall j | 0 <= j < InsertionIndex(segs, target)
        ensures !Later(segs[j], target)
      {
        if j > 0 {
          assert segs[j] == segs[1..][j - 1];
        }
      }
    }
  }

  /** Both directions: `r` is the insertion index exactly when it is the first position holding a later segment, or the end. */
  lemma InsertionIndexIsExactlyFirstLater(segs: seq<Option<nat>>, target: Option<nat>, r: nat)
    ensures r == InsertionIndex(segs, target) <==>
            && r <= |segs|
            && (forall j :: 0 <= j < r ==> !Later(segs[j], target))
            && (r < |segs| ==> Later(segs[r], target))
  {
    InsertionIndexIsFirstLater(segs, target);
    var k := InsertionIndex(segs, target);
    if r <= |segs| && (forall j :: 0 <= j < r ==> !Later(segs[j], target)) && (r < |segs| ==> Later(segs[r], target)) {
      assert k < |segs| ==> Later(segs[k], target);
    }
  }

  /** The first position of `x` in `s`, or -1 when `x` does not occur (the source's `indexOf`). */
  function IndexOf<T(==)>(s: seq<T>, x: T): (r: int)
    ensures -1 <= r < |s|
    ensures r == -1 <==> x !in s
    ensures 0 <= r ==> s[r] == x && x !in s[..r]
  {
    if s == [] then -1
    else if s[0] == x then 0
    else
      var k := IndexOf(s[1..], x);
      assert s[1..][..if k < 0 then 0 else k] == s[1..1 + (if k < 0 then 0 else k)];
      if k < 0 then -1 else 1 + k
  }

  /** Without a nearest segment for the candidate (no route segments), the new waypoint is appended. */
  lemma InsertionIndexWithoutTarget(segs: seq<Option<nat>>)
    ensures InsertionIndex(segs, None) == |segs|
  {
    InsertionIndexIsFirstLater(segs, None);
  }

  /** The waypoints' nearest segments, all defined, never decrease along the sequence. */
  ghost predicate InRouteOrder(segs: seq<Option<nat>>)
  {
    (forall j :: 0 <= j < |segs| ==> segs[j].Some?) &&
    (forall j, k :: 0 <= j < k < |segs| ==> segs[j].value <= segs[k].value)
  }

  /**
   * The ordering invariant: when the existing waypoints are in route order,
   * inserting the candidate at its insertion index keeps them in route order.
   */
  lemma InsertionKeepsRouteOrder(segs: seq<Option<nat>>, target: nat)
    requires InRouteOrder(segs)
    ensures InRouteOrder(InsertAt(segs, InsertionIndex(segs, Some(target)), Some(target)))
  {
    var r := InsertionIndex(segs, Some(target));
    InsertionIndexIsFirstLater(segs, Some(target));
    InsertAtShiftsTail(segs, r, Some(target));
    var s' := InsertAt(segs, r, Some(target));
    forall j, k | 0 <= j < k < |s'|
      ensures s'[j].value <= s'[k].value
    {
      if k < r {
        assert s'[j] == segs[j] && s'[k] == segs[k];
      } else if k == r {
        assert s'[j] == segs[j];
        assert !Later(segs[j], Some(target));
      } else if j < r {
        assert s'[j] == segs[j] && s'[k] == segs[k - 1];
      } else if j == r {
        assert Later(segs[r], Some(target));
        assert s'[k] == segs[k - 1];
      } else {
        assert s'[j] == segs[j - 1] && s'[k] == segs[k - 1];
      }
    }
  }
}
