/** Scalar and 2D-vector arithmetic shared by every system.

    `f32` is modelled as `real`. The operations the game takes from its maths
    library that are not rational arithmetic (square root, `Vec2::from_angle`,
    the constant pi behind `TAU`) are supplied by a `Maths` value whose `Valid()`
    states what they must satisfy. */
module Geometry {

  datatype Option<+T> = None | Some(value: T) {
    /** `unwrap_or`. */
    function GetOr(default: T): T {
      if Some? then value else default
    }
  }

  /** `f32::min` and `f32::max` (NaN is not modelled). */
  function Min(a: real, b: real): real { if a < b then a else b }
  function Max(a: real, b: real): real { if a > b then a else b }
  function Abs(x: real): real { if x < 0.0 then -x else x }

  datatype Vec2 = Vec2(x: real, y: real)

  const Zero := Vec2(0.0, 0.0)

  function Add(a: Vec2, b: Vec2): Vec2 { Vec2(a.x + b.x, a.y + b.y) }
  function Sub(a: Vec2, b: Vec2): Vec2 { Vec2(a.x - b.x, a.y - b.y) }
  function Neg(a: Vec2): Vec2 { Vec2(-a.x, -a.y) }
  function Scale(a: Vec2, k: real): Vec2 { Vec2(a.x * k, a.y * k) }
  /** Component-wise product (`Vec2 * Vec2`). */
  function Mul(a: Vec2, b: Vec2): Vec2 { Vec2(a.x * b.x, a.y * b.y) }
  function Dot(a: Vec2, b: Vec2): real { a.x * b.x + a.y * b.y }
  /** The 2D cross product; zero exactly when `a` and `b` are parallel. */
  function Cross(a: Vec2, b: Vec2): real { a.x * b.y - a.y * b.x }
  /** `Vec2::rotate`: `v` rotated by the unit vector `u` (complex multiplication). */
  function Rotate(u: Vec2, v: Vec2): Vec2 { Vec2(u.x * v.x - u.y * v.y, u.y * v.x + u.x * v.y) }
  function Conj(u: Vec2): Vec2 { Vec2(u.x, -u.y) }
  /** `Vec2::lerp`. */
  function Lerp(a: Vec2, b: Vec2, s: real): Vec2 { Add(a, Scale(Sub(b, a), s)) }
  /** `Vec2::abs`. */
  function AbsVec(a: Vec2): Vec2 { Vec2(Abs(a.x), Abs(a.y)) }
  /** `Vec2::clamp(lo, hi)`, which is `self.max(lo).min(hi)` per component. */
  function ClampVec(a: Vec2, lo: Vec2, hi: Vec2): Vec2 {
    Vec2(Min(Max(a.x, lo.x), hi.x), Min(Max(a.y, lo.y), hi.y))
  }

  /* Small facts of real arithmetic. The solver handles products of distinct
     variables more reliably than squares, so the square facts are derived
     from them. */

  lemma MulStrict(a: real, b: real, c: real, d: real)
    requires 0.0 <= a < b && 0.0 <= c < d
    ensures a * c < b * d
  {
    assert a * c <= b * c;
    assert b * c < b * d;
  }

  /** Dividing by a positive number keeps a comparison with a multiple of it. */
  lemma QuotientBounds(a: real, t: real, k: real)
    requires t > 0.0
    ensures a <= k * t ==> a / t <= k
    ensures a >= k * t ==> a / t >= k
  {
    var q := a / t;
    assert q * t == a;
    assert (q - k) * t == a - k * t;
  }

  /** Scaling by a non-negative number keeps the order of a range. */
  lemma ScaleBetween(k: real, lo: real, x: real, hi: real)
    requires k >= 0.0 && lo <= x <= hi
    ensures k * lo <= k * x <= k * hi
  {
    assert k * x - k * lo == k * (x - lo);
    assert k * hi - k * x == k * (hi - x);
    if k > 0.0 && x > lo { MulStrict(0.0, k, 0.0, x - lo); }
    if k > 0.0 && hi > x { MulStrict(0.0, k, 0.0, hi - x); }
  }

  lemma ProductZero(a: real, b: real)
    ensures a * b == 0.0 ==> a == 0.0 || b == 0.0
  {
  }

  lemma SquarePositive(x: real)
    ensures x * x >= 0.0
    ensures x != 0.0 ==> x * x > 0.0
  {
    if x > 0.0 {
      MulStrict(0.0, x, 0.0, x);
    } else if x < 0.0 {
      assert x * x == (-x) * (-x);
      MulStrict(0.0, -x, 0.0, -x);
    }
  }

  lemma SquareMonotone(a: real, b: real)
    requires 0.0 <= a < b
    ensures a * a < b * b
  {
    MulStrict(a, b, a, b);
  }

  lemma DotSelfNonNegative(v: Vec2)
    ensures Dot(v, v) >= 0.0
    ensures Dot(v, v) == 0.0 <==> v == Zero
  {
    SquarePositive(v.x);
    SquarePositive(v.y);
    ProductZero(v.x, v.x);
    ProductZero(v.y, v.y);
  }

  /** The maths library functions the simulation uses, as parameters. */
  datatype Maths = Maths(sqrt: real -> real, fromAngle: real -> Vec2, pi: real) {
    ghost predicate Valid() {
      && (forall x :: x >= 0.0 ==> sqrt(x) >= 0.0 && sqrt(x) * sqrt(x) == x)
      && (forall a :: Dot(fromAngle(a), fromAngle(a)) == 1.0)
      && (forall a, b {:trigger fromAngle(a), fromAngle(b)} :: a + b == 0.0 ==> fromAngle(b) == Conj(fromAngle(a)))
      && 3.14159 < pi < 3.1416
    }

    /** `Vec2::length`. */
    function Length(v: Vec2): real {
      sqrt(Dot(v, v))
    }

    /** `Vec2::distance`. */
    function Distance(a: Vec2, b: Vec2): real {
      Length(Sub(a, b))
    }

    /** `Vec2::normalize`; the zero vector (NaN in the source) is excluded. */
    function Normalize(v: Vec2): Vec2
      requires Length(v) != 0.0
    {
      Scale(v, 1.0 / Length(v))
    }

    /** `Vec2::normalize_or_zero`. */
    function NormalizeOrZero(v: Vec2): Vec2 {
      if Length(v) == 0.0 then Zero else Normalize(v)
    }
  }

  /** Two non-negative reals with the same square are equal: the square root is unique. */
  lemma SquareRootUnique(a: real, b: real)
    requires a >= 0.0 && b >= 0.0 && a * a == b * b
    ensures a == b
  {
    if a < b {
      SquareMonotone(a, b);
    } else if b < a {
      SquareMonotone(b, a);
    }
  }

  lemma LengthFacts(m: Maths, v: Vec2)
    requires m.Valid()
    ensures m.Length(v) >= 0.0
    ensures m.Length(v) * m.Length(v) == Dot(v, v)
    ensures m.Length(v) == 0.0 <==> v == Zero
  {
    DotSelfNonNegative(v);
    var d := Dot(v, v);
    var l := m.sqrt(d);
    assert l >= 0.0 && l * l == d;
    ProductZero(l, l);
  }

  lemma SqrtOfSquare(m: Maths, a: real)
    requires m.Valid() && a >= 0.0
    ensures m.sqrt(a * a) == a
  {
    assert a * a >= 0.0;
    SquareRootUnique(m.sqrt(a * a), a);
  }

  /** Scaling by a non-negative factor scales the length by that factor. */
  lemma LengthOfScale(m: Maths, v: Vec2, k: real)
    requires m.Valid() && k >= 0.0
    ensures m.Length(Scale(v, k)) == k * m.Length(v)
  {
    LengthFacts(m, v);
    LengthFacts(m, Scale(v, k));
    assert Dot(Scale(v, k), Scale(v, k)) == k * k * Dot(v, v);
    assert (k * m.Length(v)) * (k * m.Length(v)) == k * k * (m.Length(v) * m.Length(v));
    SquareRootUnique(m.Length(Scale(v, k)), k * m.Length(v));
  }

  lemma LengthOfNeg(m: Maths, v: Vec2)
    requires m.Valid()
    ensures m.Length(Neg(v)) == m.Length(v)
  {
    assert Dot(Neg(v), Neg(v)) == Dot(v, v);
  }

  lemma DistanceSymmetric(m: Maths, a: Vec2, b: Vec2)
    requires m.Valid()
    ensures m.Distance(a, b) == m.Distance(b, a)
  {
    assert Sub(b, a) == Neg(Sub(a, b));
    LengthOfNeg(m, Sub(a, b));
  }

  /** A normalized vector has unit length, is parallel to the input and points the same way. */
  lemma NormalizeFacts(m: Maths, v: Vec2)
    requires m.Valid() && m.Length(v) != 0.0
    ensures Dot(m.Normalize(v), m.Normalize(v)) == 1.0
    ensures m.Length(m.Normalize(v)) == 1.0
    ensures Scale(m.Normalize(v), m.Length(v)) == v
  {
    var l := m.Length(v);
    LengthFacts(m, v);
    var k := 1.0 / l;
    assert k * l == 1.0;
    assert Dot(m.Normalize(v), m.Normalize(v)) == k * k * Dot(v, v);
    assert k * k * (l * l) == (k * l) * (k * l);
    LengthOfScale(m, v, k);
    assert Scale(Scale(v, k), l) == Scale(v, k * l);
  }

  /** Multiplying by a positive factor keeps the sign. */
  lemma SignOfScaled(a: real, k: real)
    requires k > 0.0
    ensures a * k > 0.0 <==> a > 0.0
    ensures a * k < 0.0 <==> a < 0.0
  {
    if a > 0.0 {
      MulStrict(0.0, a, 0.0, k);
    } else if a < 0.0 {
      MulStrict(0.0, -a, 0.0, k);
      assert (-a) * k == -(a * k);
    }
  }

  /** Each component of a normalized vector has the sign of the input's component. */
  lemma NormalizeSigns(m: Maths, v: Vec2)
    requires m.Valid() && m.Length(v) != 0.0
    ensures m.Normalize(v).x > 0.0 <==> v.x > 0.0
    ensures m.Normalize(v).x < 0.0 <==> v.x < 0.0
    ensures m.Normalize(v).y > 0.0 <==> v.y > 0.0
    ensures m.Normalize(v).y < 0.0 <==> v.y < 0.0
  {
    LengthFacts(m, v);
    var k := 1.0 / m.Length(v);
    assert k > 0.0;
    SignOfScaled(v.x, k);
    SignOfScaled(v.y, k);
  }

  /** `v.normalize() * s` with `s >= 0` has length `s`, and is `v` rescaled by a non-negative factor. */
  lemma ScaledNormalFacts(m: Maths, v: Vec2, s: real)
    requires m.Valid() && m.Length(v) != 0.0 && s >= 0.0
    ensures m.Length(Scale(m.Normalize(v), s)) == s
    ensures Scale(m.Normalize(v), s) == Scale(v, s / m.Length(v))
  {
    LengthFacts(m, v);
    NormalizeFacts(m, v);
    LengthOfScale(m, m.Normalize(v), s);
    assert (1.0 / m.Length(v)) * s == s / m.Length(v);
  }

  /** Rotating by an angle and then by its negation gives back the vector. */
  lemma RotateRoundTrip(m: Maths, a: real, v: Vec2)
    requires m.Valid()
    ensures Rotate(m.fromAngle(a), Rotate(m.fromAngle(-a), v)) == v
  {
    var u := m.fromAngle(a);
    assert a + -a == 0.0;
    assert m.fromAngle(-a) == Conj(u);
    assert u.x * u.x + u.y * u.y == 1.0;
    var w := Rotate(Conj(u), v);
    assert Rotate(u, w).x == (u.x * u.x + u.y * u.y) * v.x;
    assert Rotate(u, w).y == (u.x * u.x + u.y * u.y) * v.y;
  }

  /** Removes `reduction` from the speed of `v`, never below 0 and never reversing it:
      the speed-reduction step shared by the projectile spawner in guns.rs and by
      manage_flyers and floor_friction in physics.rs. A zero vector, or one whose
      speed does not change, is returned unchanged. */
  function ReduceSpeed(m: Maths, v: Vec2, reduction: real): Vec2 {
    var oldSpeed := m.Length(v);
    var newSpeed := Max(0.0, oldSpeed - reduction);
    if oldSpeed > 0.0 && newSpeed != oldSpeed then Scale(m.Normalize(v), newSpeed) else v
  }

  /** The new speed is the old one less the reduction, but not below 0; the
      direction is kept; a reduction never speeds the vector up. */
  lemma ReduceSpeedFacts(m: Maths, v: Vec2, reduction: real)
    requires m.Valid()
    ensures m.Length(v) != 0.0 ==> m.Length(ReduceSpeed(m, v, reduction)) == Max(0.0, m.Length(v) - reduction)
    ensures Cross(ReduceSpeed(m, v, reduction), v) == 0.0 && Dot(ReduceSpeed(m, v, reduction), v) >= 0.0
    ensures m.Length(v) == 0.0 ==> ReduceSpeed(m, v, reduction) == v
    ensures reduction >= 0.0 ==> m.Length(ReduceSpeed(m, v, reduction)) <= m.Length(v)
  {
    var oldSpeed := m.Length(v);
    var newSpeed := Max(0.0, oldSpeed - reduction);
    var r := ReduceSpeed(m, v, reduction);
    LengthFacts(m, v);
    if oldSpeed > 0.0 && newSpeed != oldSpeed {
      assert r == Scale(m.Normalize(v), newSpeed);
      ScaledDirection(m, v, newSpeed);
    } else {
      assert r == v;
      DotSelfNonNegative(v);
      assert Cross(v, v) == 0.0;
    }
  }

  /** Scaling the direction of a non-zero vector to a speed `s` keeps its
      direction and gives it speed `s`. */
  lemma ScaledDirection(m: Maths, v: Vec2, s: real)
    requires m.Valid() && m.Length(v) > 0.0 && s >= 0.0
    ensures m.Length(Scale(m.Normalize(v), s)) == s
    ensures Cross(Scale(m.Normalize(v), s), v) == 0.0 && Dot(Scale(m.Normalize(v), s), v) >= 0.0
  {
    ScaledNormalFacts(m, v, s);
    var k := s / m.Length(v);
    DivNonNegative(s, m.Length(v));
    ScaleAlong(v, k);
  }

  lemma DivNonNegative(a: real, b: real)
    requires a >= 0.0 && b > 0.0
    ensures a / b >= 0.0
  {
  }

  /** A vector scaled by a non-negative factor is parallel to it and points the same way. */
  lemma ScaleAlong(v: Vec2, k: real)
    requires k >= 0.0
    ensures Cross(Scale(v, k), v) == 0.0 && Dot(Scale(v, k), v) >= 0.0
  {
    var d := Dot(v, v);
    DotSelfNonNegative(v);
    assert (v.x * k) * v.y == (v.y * k) * v.x;
    assert (v.x * k) * v.x + (v.y * k) * v.y == k * d;
    MulNonNegative(k, d);
  }

  lemma MulNonNegative(a: real, b: real)
    requires a >= 0.0 && b >= 0.0
    ensures a * b >= 0.0
  {
  }

  /** Adding two scaled vectors one after the other is adding their scaled sum. */
  lemma AddScaled(v: Vec2, f: Vec2, g: Vec2, k: real)
    ensures Add(Add(v, Scale(f, k)), Scale(g, k)) == Add(v, Scale(Add(f, g), k))
  {
    assert (v.x + f.x * k) + g.x * k == v.x + (f.x + g.x) * k;
    assert (v.y + f.y * k) + g.y * k == v.y + (f.y + g.y) * k;
  }
}
