/** Optional values, standing for the source's `undefined`/`null`. */
module Optional {
  datatype Option<+T> = None | Some(value: T)
}

/**
 * Plane geometry in layer (screen) space. Coordinates are exact reals; the
 * map projections are the identity, so every point is already projected.
 */
module Geometry {

  datatype Point = Point(x: real, y: real)

  /** Squared Euclidean distance; the source's `distanceTo(q) < 15` is `SqDist < 225`. */
  function SqDist(p: Point, q: Point): real
  {
    (p.x - q.x) * (p.x - q.x) + (p.y - q.y) * (p.y - q.y)
  }

  /** The point a fraction `t` of the way from `a` to `b`. */
  function Lerp(a: Point, b: Point, t: real): Point
  {
    Point(a.x + (b.x - a.x) * t, a.y + (b.y - a.y) * t)
  }

  /** A point lies on the closed segment [a, b] when it is Lerp(a, b, t) for some t in [0, 1]. */
  ghost predicate OnSegment(q: Point, a: Point, b: Point)
  {
    exists t: real :: 0.0 <= t <= 1.0 && q == Lerp(a, b, t)
  }

  /** (p - a) . (b - a): the numerator of the projection parameter. */
  function ProjNum(p: Point, a: Point, b: Point): real
  {
    (p.x - a.x) * (b.x - a.x) + (p.y - a.y) * (b.y - a.y)
  }

  /** |b - a|^2: the denominator of the projection parameter. */
  function SegLen2(a: Point, b: Point): real
  {
    (b.x - a.x) * (b.x - a.x) + (b.y - a.y) * (b.y - a.y)
  }

  /**
   * Leaflet's clamped projection of `p` onto the segment [a, b]: for a
   * degenerate segment (`dot` not positive) the point `a`; otherwise the
   * projection parameter `t` is clamped, beyond 1 to `b`, at or below 0 to
   * `a`, and in between the point is `a` moved by `t` times (b - a).
   */
  function ClosestOnSegment(p: Point, a: Point, b: Point): (q: Point)
    ensures OnSegment(q, a, b)
  {
    LerpEnds(a, b);
    var dot := SegLen2(a, b);
    if dot > 0.0 then
      var t := ProjNum(p, a, b) / dot;
      if t > 1.0 then b
      else if t > 0.0 then Lerp(a, b, t)
      else a
    else a
  }

  /** Squared distance from `p` to the clamped segment [a, b]. */
  function SqDistToSegment(p: Point, a: Point, b: Point): (r: real)
    ensures r >= 0.0
  {
    SqDistNonNegative(p, ClosestOnSegment(p, a, b));
    SqDist(p, ClosestOnSegment(p, a, b))
  }

  /** `t` clamped to [0, 1]. */
  function Clamp01(t: real): real
  {
    if t > 1.0 then 1.0 else if t > 0.0 then t else 0.0
  }

  /** The clamped projection parameter that ClosestOnSegment uses. */
  function ClampedParam(p: Point, a: Point, b: Point): real
  {
    if SegLen2(a, b) > 0.0 then Clamp01(ProjNum(p, a, b) / SegLen2(a, b)) else 0.0
  }

  /** A squared distance is never negative. */
  lemma SqDistNonNegative(p: Point, q: Point)
    ensures SqDist(p, q) >= 0.0
  {
    SameSignProduct(p.x - q.x, p.x - q.x);
    SameSignProduct(p.y - q.y, p.y - q.y);
  }

  /** x * y >= 0 when both factors have the same sign. */
  lemma SameSignProduct(x: real, y: real)
    requires (x >= 0.0 && y >= 0.0) || (x <= 0.0 && y <= 0.0)
    ensures x * y >= 0.0
  {
  }

  /** (u - d t)^2 = u^2 - 2 t (u d) + t^2 d^2. */
  lemma SquareOfDifference(u: real, d: real, t: real)
    ensures (u - d * t) * (u - d * t) == u * u - 2.0 * t * (u * d) + t * t * (d * d)
  {
  }

  /** Adding two quadratics in t coefficient by coefficient. */
  lemma SumOfQuadratics(a1: real, b1: real, c1: real, a2: real, b2: real, c2: real, t: real)
    ensures (a1 - 2.0 * t * b1 + t * t * c1) + (a2 - 2.0 * t * b2 + t * t * c2)
            == (a1 + a2) - 2.0 * t * (b1 + b2) + t * t * (c1 + c2)
  {
  }

  /** |p - Lerp(a, b, t)|^2 expanded in t, written on coordinates. */
  lemma PlaneExpansion(px: real, py: real, ax: real, ay: real, bx: real, by': real, t: real)
    ensures (px - (ax + (bx - ax) * t)) * (px - (ax + (bx - ax) * t))
          + (py - (ay + (by' - ay) * t)) * (py - (ay + (by' - ay) * t))
         == ((px - ax) * (px - ax) + (py - ay) * (py - ay))
          - 2.0 * t * ((px - ax) * (bx - ax) + (py - ay) * (by' - ay))
          + t * t * ((bx - ax) * (bx - ax) + (by' - ay) * (by' - ay))
  {
    assert px - (ax + (bx - ax) * t) == (px - ax) - (bx - ax) * t;
    assert py - (ay + (by' - ay) * t) == (py - ay) - (by' - ay) * t;
    SquareOfDifference(px - ax, bx - ax, t);
    SquareOfDifference(py - ay, by' - ay, t);
    SumOfQuadratics((px - ax) * (px - ax), (px - ax) * (bx - ax), (bx - ax) * (bx - ax),
                    (py - ay) * (py - ay), (py - ay) * (by' - ay), (by' - ay) * (by' - ay), t);
  }

  /** SqDist to a segment point, on coordinates. */
  lemma SqDistToLerpCoordinates(p: Point, a: Point, b: Point, t: real)
    ensures SqDist(p, Lerp(a, b, t))
         == (p.x - (a.x + (b.x - a.x) * t)) * (p.x - (a.x + (b.x - a.x) * t))
          + (p.y - (a.y + (b.y - a.y) * t)) * (p.y - (a.y + (b.y - a.y) * t))
  {
  }

  /** The quadratic in t built from SqDist(p, a), ProjNum and SegLen2, on coordinates. */
  lemma QuadraticCoefficients(p: Point, a: Point, b: Point, t: real)
    ensures SqDist(p, a) - 2.0 * t * ProjNum(p, a, b) + t * t * SegLen2(a, b)
         == ((p.x - a.x) * (p.x - a.x) + (p.y - a.y) * (p.y - a.y))
          - 2.0 * t * ((p.x - a.x) * (b.x - a.x) + (p.y - a.y) * (b.y - a.y))
          + t * t * ((b.x - a.x) * (b.x - a.x) + (b.y - a.y) * (b.y - a.y))
  {
    SameQuadratic(SqDist(p, a), ProjNum(p, a, b), SegLen2(a, b),
                  (p.x - a.x) * (p.x - a.x) + (p.y - a.y) * (p.y - a.y),
                  (p.x - a.x) * (b.x - a.x) + (p.y - a.y) * (b.y - a.y),
                  (b.x - a.x) * (b.x - a.x) + (b.y - a.y) * (b.y - a.y), t);
  }

  /** Equal coefficients give equal quadratics. */
  lemma SameQuadratic(s1: real, n1: real, d1: real, s2: real, n2: real, d2: real, t: real)
    requires s1 == s2 && n1 == n2 && d1 == d2
    ensures s1 - 2.0 * t * n1 + t * t * d1 == s2 - 2.0 * t * n2 + t * t * d2
  {
  }

  /** |p - Lerp(a, b, t)|^2 = |p - a|^2 - 2 t ((p - a).(b - a)) + t^2 |b - a|^2. */
  lemma SqDistToLerp(p: Point, a: Point, b: Point, t: real)
    ensures SqDist(p, Lerp(a, b, t))
            == SqDist(p, a) - 2.0 * t * ProjNum(p, a, b) + t * t * SegLen2(a, b)
  {
    SqDistToLerpCoordinates(p, a, b, t);
    QuadraticCoefficients(p, a, b, t);
    PlaneExpansion(p.x, p.y, a.x, a.y, b.x, b.y, t);
  }

  /** The ends of the segment are its points at parameters 0 and 1. */
  lemma LerpEnds(a: Point, b: Point)
    ensures Lerp(a, b, 0.0) == a && Lerp(a, b, 1.0) == b
  {
  }

  /** The clamped projection is the segment point at the clamped parameter. */
  lemma ClosestOnSegmentIsOnSegment(p: Point, a: Point, b: Point)
    ensures 0.0 <= ClampedParam(p, a, b) <= 1.0
    ensures ClosestOnSegment(p, a, b) == Lerp(a, b, ClampedParam(p, a, b))
    ensures OnSegment(ClosestOnSegment(p, a, b), a, b)
  {
    LerpEnds(a, b);
    var c := ClampedParam(p, a, b);
    assert ClosestOnSegment(p, a, b) == Lerp(a, b, c);
  }

  /** For dd > 0, the quotient n / dd times dd is n. */
  lemma QuotientTimesDivisor(n: real, dd: real)
    requires dd > 0.0
    ensures (n / dd) * dd == n
  {
  }

  /** (s - k) dd = s dd - k dd. */
  lemma ProductOfDifference(s: real, k: real, dd: real)
    ensures (s - k) * dd == s * dd - k * dd
  {
  }

  /** For dd > 0, n / dd compares with 1 and 0 as n compares with dd and 0. */
  lemma QuotientSign(n: real, dd: real)
    requires dd > 0.0
    ensures n / dd > 1.0 ==> n > dd
    ensures n / dd <= 0.0 ==> n <= 0.0
  {
    var s := n / dd;
    QuotientTimesDivisor(n, dd);
    ProductOfDifference(s, 1.0, dd);
    ProductOfDifference(0.0, s, dd);
    if s > 1.0 {
      SameSignProduct(s - 1.0, dd);
      assert (s - 1.0) * dd != 0.0 by {
        OnlyZeroProductsToZero(s - 1.0, dd);
      }
    }
    if s <= 0.0 {
      SameSignProduct(0.0 - s, dd);
    }
  }

  /** A product of two non-zero reals is non-zero. */
  lemma OnlyZeroProductsToZero(x: real, y: real)
    ensures x * y == 0.0 ==> x == 0.0 || y == 0.0
  {
    if x != 0.0 && y != 0.0 {
      var inv := 1.0 / x;
      assert inv * x == 1.0;
      assert (x * y) * inv == y * (x * inv);
    }
  }

  /** g(t) - g(c) for g(x) = x^2 dd - 2 x n, factored. */
  lemma QuadraticDifference(t: real, c: real, n: real, dd: real)
    ensures (t * t * dd - 2.0 * t * n) - (c * c * dd - 2.0 * c * n) == (t - c) * ((t + c) * dd - 2.0 * n)
  {
  }

  /**
   * The quadratic g(x) = x^2 dd - 2 x n, whose vertex is at n / dd, is no
   * smaller anywhere on [0, 1] than at n / dd clamped to [0, 1].
   */
  lemma ClampedVertexIsMinimum(t: real, n: real, dd: real, c: real)
    requires dd > 0.0 && 0.0 <= t <= 1.0
    requires c == Clamp01(n / dd)
    ensures t * t * dd - 2.0 * t * n >= c * c * dd - 2.0 * c * n
  {
    QuadraticDifference(t, c, n, dd);
    QuotientSign(n, dd);
    var f := (t + c) * dd - 2.0 * n;
    if n / dd > 1.0 {
      // c = 1: t - c <= 0, and f <= 2 dd - 2 n < 0.
      ProductOfDifference(2.0, t + c, dd);
      SameSignProduct(2.0 - (t + c), dd);
      SameSignProduct(t - c, f);
    } else if n / dd > 0.0 {
      // c = n / dd: f = (t - c) dd, so (t - c) f = (t - c)^2 dd.
      QuotientTimesDivisor(n, dd);
      VertexCase(t, c, dd);
    } else {
      // c = 0: t - c = t >= 0, and f = t dd - 2 n >= 0.
      SameSignProduct(t, dd);
      SameSignProduct(t - c, f);
    }
  }

  /** With c dd = n: (t - c) ((t + c) dd - 2 n) = (t - c)^2 dd >= 0. */
  lemma VertexCase(t: real, c: real, dd: real)
    requires dd > 0.0
    ensures (t - c) * ((t + c) * dd - 2.0 * (c * dd)) >= 0.0
  {
    assert (t - c) * ((t + c) * dd - 2.0 * (c * dd)) == ((t - c) * (t - c)) * dd;
    SameSignProduct(t - c, t - c);
    SameSignProduct((t - c) * (t - c), dd);
  }

  /** Only zero squares to zero: for x != 0, x = (x * x) * (1 / x). */
  lemma OnlyZeroSquaresToZero(x: real)
    ensures x * x == 0.0 ==> x == 0.0
  {
    OnlyZeroProductsToZero(x, x);
  }

  /** A segment of squared length zero is the single point `a`. */
  lemma DegenerateSegment(a: Point, b: Point, t: real)
    requires SegLen2(a, b) <= 0.0
    ensures Lerp(a, b, t) == a
  {
    var dx, dy := b.x - a.x, b.y - a.y;
    SameSignProduct(dx, dx);
    SameSignProduct(dy, dy);
    assert dx * dx == 0.0;
    assert dy * dy == 0.0;
    OnlyZeroSquaresToZero(dx);
    OnlyZeroSquaresToZero(dy);
  }

  /**
   * Two values of the quadratic s - 2 x n + x^2 dd: the one at n / dd
   * clamped to [0, 1] is no larger than the one at any t in [0, 1].
   */
  lemma ClampedVertexValueIsMinimum(lt: real, lc: real, s: real, n: real, dd: real, t: real, c: real)
    requires dd > 0.0 && 0.0 <= t <= 1.0 && c == Clamp01(n / dd)
    requires lt == s - 2.0 * t * n + t * t * dd
    requires lc == s - 2.0 * c * n + c * c * dd
    ensures lc <= lt
  {
    ClampedVertexIsMinimum(t, n, dd, c);
  }

  /** On a segment of positive length, no segment point is closer than the one at the clamped parameter. */
  lemma ClampedParamIsNearest(p: Point, a: Point, b: Point, t: real)
    requires SegLen2(a, b) > 0.0 && 0.0 <= t <= 1.0
    ensures SqDist(p, Lerp(a, b, ClampedParam(p, a, b))) <= SqDist(p, Lerp(a, b, t))
  {
    SqDistToLerp(p, a, b, t);
    SqDistToLerp(p, a, b, ClampedParam(p, a, b));
    ClampedVertexValueIsMinimum(SqDist(p, Lerp(a, b, t)), SqDist(p, Lerp(a, b, ClampedParam(p, a, b))),
                                SqDist(p, a), ProjNum(p, a, b), SegLen2(a, b), t, ClampedParam(p, a, b));
  }

  /**
   * The clamped projection is a nearest point of the segment: no point of
   * [a, b] is strictly closer to `p`.
   */
  lemma ClosestOnSegmentIsNearest(p: Point, a: Point, b: Point, t: real)
    requires 0.0 <= t <= 1.0
    ensures SqDistToSegment(p, a, b) <= SqDist(p, Lerp(a, b, t))
  {
    ClosestOnSegmentIsOnSegment(p, a, b);
    if SegLen2(a, b) > 0.0 {
      ClampedParamIsNearest(p, a, b, t);
    } else {
      DegenerateSegment(a, b, t);
      DegenerateSegment(a, b, ClampedParam(p, a, b));
    }
  }
}
