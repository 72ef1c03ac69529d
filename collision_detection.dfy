/** Shape overlap tests and the line/circle intersection used for tracing shots. */
module CollisionDetection {
  import opened Geometry

  /** Filled circles overlap (or touch) when their centres are no further apart
      than the sum of the radii. */
  function CircleCircle(m: Maths, aRadius: real, aPosition: Vec2, bRadius: real, bPosition: Vec2): bool {
    m.Distance(aPosition, bPosition) <= aRadius + bRadius
  }

  function DistanceSquared(a: Vec2, b: Vec2): real {
    Dot(Sub(a, b), Sub(a, b))
  }

  /** The overlap test without the square root: the radii sum is non-negative
      and bounds the squared distance by its square. */
  lemma CircleCircleSquared(m: Maths, aRadius: real, aPosition: Vec2, bRadius: real, bPosition: Vec2)
    requires m.Valid()
    ensures CircleCircle(m, aRadius, aPosition, bRadius, bPosition)
        <==> aRadius + bRadius >= 0.0 && DistanceSquared(aPosition, bPosition) <= (aRadius + bRadius) * (aRadius + bRadius)
  {
    var d := m.Distance(aPosition, bPosition);
    var s := aRadius + bRadius;
    LengthFacts(m, Sub(aPosition, bPosition));
    assert d >= 0.0 && d * d == DistanceSquared(aPosition, bPosition);
    if s >= 0.0 {
      if d <= s {
        if d < s {
          SquareMonotone(d, s);
        }
      } else {
        SquareMonotone(s, d);
      }
    }
  }

  /** The test does not depend on which circle comes first. */
  lemma CircleCircleSymmetric(m: Maths, aRadius: real, aPosition: Vec2, bRadius: real, bPosition: Vec2)
    requires m.Valid()
    ensures CircleCircle(m, aRadius, aPosition, bRadius, bPosition) == CircleCircle(m, bRadius, bPosition, aRadius, aPosition)
  {
    DistanceSymmetric(m, aPosition, bPosition);
  }

  /** The point of the box nearest to the circle's centre, clamped one axis at a
      time. The box has its corner at `bPosition` and extends by width and height. */
  function AabbTestPoint(aPosition: Vec2, bWidth: real, bHeight: real, bPosition: Vec2): Vec2 {
    var x := if aPosition.x < bPosition.x then bPosition.x
             else if aPosition.x > bPosition.x + bWidth then bPosition.x + bWidth
             else aPosition.x;
    var y := if aPosition.y < bPosition.y then bPosition.y
             else if aPosition.y > bPosition.y + bHeight then bPosition.y + bHeight
             else aPosition.y;
    Vec2(x, y)
  }

  /** `_circle_aabb`: the circle overlaps the filled box when the nearest box point is within the radius. */
  function CircleAabb(m: Maths, aRadius: real, aPosition: Vec2, bWidth: real, bHeight: real, bPosition: Vec2): bool {
    m.Distance(aPosition, AabbTestPoint(aPosition, bWidth, bHeight, bPosition)) <= aRadius
  }

  /** For a box of non-negative size the test point is the centre clamped into the
      box, and a centre inside the box always overlaps a circle of non-negative radius. */
  lemma CircleAabbFacts(m: Maths, aRadius: real, aPosition: Vec2, bWidth: real, bHeight: real, bPosition: Vec2)
    requires m.Valid() && bWidth >= 0.0 && bHeight >= 0.0
    ensures AabbTestPoint(aPosition, bWidth, bHeight, bPosition)
         == ClampVec(aPosition, bPosition, Add(bPosition, Vec2(bWidth, bHeight)))
    ensures (&& bPosition.x <= aPosition.x <= bPosition.x + bWidth
             && bPosition.y <= aPosition.y <= bPosition.y + bHeight
             && aRadius >= 0.0)
            ==> CircleAabb(m, aRadius, aPosition, bWidth, bHeight, bPosition)
  {
    if bPosition.x <= aPosition.x <= bPosition.x + bWidth && bPosition.y <= aPosition.y <= bPosition.y + bHeight {
      assert AabbTestPoint(aPosition, bWidth, bHeight, bPosition) == aPosition;
      assert Sub(aPosition, aPosition) == Zero;
      LengthFacts(m, Zero);
    }
  }

  /** The filled circle contains the point. */
  function CirclePoint(m: Maths, aRadius: real, aPosition: Vec2, b: Vec2): bool {
    m.Distance(aPosition, b) <= aRadius
  }

  /** A point is a circle of radius 0. */
  lemma CirclePointIsCircleCircle(m: Maths, aRadius: real, aPosition: Vec2, b: Vec2)
    ensures CirclePoint(m, aRadius, aPosition, b) == CircleCircle(m, aRadius, aPosition, 0.0, b)
  {
  }

  /** The coefficients of `a t^2 + b t + c = 0`, whose roots are the parameters
      at which `start + t (end - start)` meets the circle. */
  function QuadA(lineStart: Vec2, lineEnd: Vec2): real {
    Dot(Sub(lineEnd, lineStart), Sub(lineEnd, lineStart))
  }
  function QuadB(lineStart: Vec2, lineEnd: Vec2, circlePosition: Vec2): real {
    2.0 * Dot(Sub(lineStart, circlePosition), Sub(lineEnd, lineStart))
  }
  function QuadC(lineStart: Vec2, circleRadius: real, circlePosition: Vec2): real {
    Dot(Sub(lineStart, circlePosition), Sub(lineStart, circlePosition)) - circleRadius * circleRadius
  }
  function Discriminant(lineStart: Vec2, lineEnd: Vec2, circleRadius: real, circlePosition: Vec2): real {
    var a := QuadA(lineStart, lineEnd);
    var b := QuadB(lineStart, lineEnd, circlePosition);
    var c := QuadC(lineStart, circleRadius, circlePosition);
    b * b - 4.0 * a * c
  }

  function PointOnLine(lineStart: Vec2, lineEnd: Vec2, t: real): Vec2 {
    Add(lineStart, Scale(Sub(lineEnd, lineStart), t))
  }

  /** The two parameters along the line at which it enters and leaves the
      circle; absent for a degenerate line or a line that misses. */
  function LineCircleIntersection(m: Maths, lineStart: Vec2, lineEnd: Vec2, circleRadius: real, circlePosition: Vec2): (r: Option<(real, real)>)
    requires m.Valid()
    ensures lineStart == lineEnd ==> r.None?
    ensures lineStart != lineEnd ==> (r.None? <==> Discriminant(lineStart, lineEnd, circleRadius, circlePosition) < 0.0)
    ensures r.Some? ==> r.value.0 <= r.value.1
  {
    if lineStart == lineEnd then None
    else
      var a := QuadA(lineStart, lineEnd);
      var b := QuadB(lineStart, lineEnd, circlePosition);
      var discriminant := Discriminant(lineStart, lineEnd, circleRadius, circlePosition);
      if discriminant < 0.0 then None
      else
        var s := m.sqrt(discriminant);
        DotSelfNonNegative(Sub(lineEnd, lineStart));
        assert Sub(lineEnd, lineStart) != Zero;
        RootsOrdered(s, b, 2.0 * a);
        Some(((-s - b) / (2.0 * a), (s - b) / (2.0 * a)))
  }

  lemma RootsOrdered(s: real, b: real, d: real)
    requires s >= 0.0 && d > 0.0
    ensures (-s - b) / d <= (s - b) / d
  {
    var k := 1.0 / d;
    assert k > 0.0;
    assert (-s - b) / d == (-s - b) * k;
    assert (s - b) / d == (s - b) * k;
    assert (s - b) * k - (-s - b) * k == (2.0 * s) * k;
    MulNonNegative(2.0 * s, k);
  }

  /** `(-s - b) / 2a` and `(s - b) / 2a` solve `a t^2 + b t + c = 0` when `s^2 = b^2 - 4ac`. */
  lemma QuadraticRoot(a: real, b: real, c: real, s: real, t: real)
    requires a > 0.0 && s * s == b * b - 4.0 * a * c
    requires t == (-s - b) / (2.0 * a) || t == (s - b) / (2.0 * a)
    ensures a * t * t + b * t + c == 0.0
  {
    var u := 2.0 * a * t;
    assert u == -s - b || u == s - b;
    assert u * u + 2.0 * b * u + 4.0 * a * c == 0.0 by {
      if u == -s - b {
        assert u * u == s * s + 2.0 * s * b + b * b;
      } else {
        assert u * u == s * s - 2.0 * s * b + b * b;
      }
    }
    assert u * u == 4.0 * a * (a * t * t);
    assert 2.0 * b * u == 4.0 * a * (b * t);
    assert 4.0 * a * (a * t * t + b * t + c) == 0.0;
    ProductZero(4.0 * a, a * t * t + b * t + c);
  }

  /** Both returned parameters are roots of the quadratic, so the points they
      give lie on the circle. */
  lemma LineCircleIntersectionOnCircle(m: Maths, lineStart: Vec2, lineEnd: Vec2, circleRadius: real, circlePosition: Vec2)
    requires m.Valid()
    requires LineCircleIntersection(m, lineStart, lineEnd, circleRadius, circlePosition).Some?
    ensures
      var (t1, t2) := LineCircleIntersection(m, lineStart, lineEnd, circleRadius, circlePosition).value;
      && DistanceSquared(PointOnLine(lineStart, lineEnd, t1), circlePosition) == circleRadius * circleRadius
      && DistanceSquared(PointOnLine(lineStart, lineEnd, t2), circlePosition) == circleRadius * circleRadius
  {
    var (t1, t2) := LineCircleIntersection(m, lineStart, lineEnd, circleRadius, circlePosition).value;
    var a := QuadA(lineStart, lineEnd);
    var b := QuadB(lineStart, lineEnd, circlePosition);
    var c := QuadC(lineStart, circleRadius, circlePosition);
    var disc := Discriminant(lineStart, lineEnd, circleRadius, circlePosition);
    var s := m.sqrt(disc);
    DotSelfNonNegative(Sub(lineEnd, lineStart));
    assert a > 0.0;
    assert s * s == b * b - 4.0 * a * c;
    QuadraticRoot(a, b, c, s, t1);
    QuadraticRoot(a, b, c, s, t2);
    PointOnLineDistance(lineStart, lineEnd, circleRadius, circlePosition, t1);
    PointOnLineDistance(lineStart, lineEnd, circleRadius, circlePosition, t2);
  }

  /** The squared distance from the circle's centre along the line, as the quadratic. */
  lemma PointOnLineDistance(lineStart: Vec2, lineEnd: Vec2, circleRadius: real, circlePosition: Vec2, t: real)
    ensures DistanceSquared(PointOnLine(lineStart, lineEnd, t), circlePosition)
         == QuadA(lineStart, lineEnd) * t * t + QuadB(lineStart, lineEnd, circlePosition) * t
            + QuadC(lineStart, circleRadius, circlePosition) + circleRadius * circleRadius
  {
    var se := Sub(lineEnd, lineStart);
    var cs := Sub(lineStart, circlePosition);
    var p := Sub(PointOnLine(lineStart, lineEnd, t), circlePosition);
    assert p == Vec2(cs.x + t * se.x, cs.y + t * se.y);
    assert (cs.x + t * se.x) * (cs.x + t * se.x) == cs.x * cs.x + 2.0 * t * (cs.x * se.x) + t * t * (se.x * se.x);
    assert (cs.y + t * se.y) * (cs.y + t * se.y) == cs.y * cs.y + 2.0 * t * (cs.y * se.y) + t * t * (se.y * se.y);
  }
}
