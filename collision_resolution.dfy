/** Penetration and impulse resolution between two bodies. Each function returns
    the velocity change and the position change of both bodies. */
module CollisionResolution {
  import opened Geometry

  datatype Changes = Changes(aVelocity: Vec2, bVelocity: Vec2, aPosition: Vec2, bPosition: Vec2)

  /** The mass-weighted sum of the two changes is zero. */
  predicate Balanced(aMass: real, bMass: real, a: Vec2, b: Vec2) {
    Add(Scale(a, aMass), Scale(b, bMass)) == Zero
  }

  /** The fractions of the separating distance each body moves; body `a` moves
      by the other body's share of the total mass. */
  function MovementShares(aMass: real, bMass: real): (r: (real, real))
    requires aMass + bMass != 0.0
    ensures r.0 + r.1 == 1.0
    ensures aMass * r.0 == bMass * r.1
  {
    var total := aMass + bMass;
    assert aMass * (bMass / total) == (aMass * bMass) / total;
    assert bMass * (aMass / total) == (aMass * bMass) / total;
    (bMass / total, aMass / total)
  }

  lemma WeightedCancel(x: real, aMass: real, aShare: real, bMass: real, bShare: real)
    requires aMass * aShare == bMass * bShare
    ensures aMass * ((-x) * aShare) + bMass * (x * bShare) == 0.0
  {
    assert x * (aMass * aShare) == x * (bMass * bShare);
  }

  /** The position changes: `a` moves against `direction`, `b` along it, by their
      shares of `distanceToSeparate`. Their difference is the whole distance. */
  function Separation(direction: Vec2, distanceToSeparate: real, aMass: real, bMass: real): (r: (Vec2, Vec2))
    requires aMass + bMass != 0.0
    ensures Balanced(aMass, bMass, r.0, r.1)
    ensures Sub(r.0, r.1) == Scale(Neg(direction), distanceToSeparate)
  {
    var (aShare, bShare) := MovementShares(aMass, bMass);
    var dx := direction.x * distanceToSeparate;
    var dy := direction.y * distanceToSeparate;
    WeightedCancel(dx, aMass, aShare, bMass, bShare);
    WeightedCancel(dy, aMass, aShare, bMass, bShare);
    assert (-dx) * aShare - dx * bShare == -dx * (aShare + bShare);
    assert (-dy) * aShare - dy * bShare == -dy * (aShare + bShare);
    (Scale(Scale(Neg(direction), distanceToSeparate), aShare),
     Scale(Scale(direction, distanceToSeparate), bShare))
  }

  /** The impulse speeds given to each body: `a` gets `b`'s share of
      `(restitution + 1) * impactSpeed`. Together they are the whole of it. */
  function ImpulseSpeeds(restitution: real, impactSpeed: real, aMass: real, bMass: real): (r: (real, real))
    requires aMass + bMass != 0.0
    ensures r.0 + r.1 == (restitution + 1.0) * impactSpeed
    ensures aMass * r.0 == bMass * r.1
  {
    var k := (restitution + 1.0) * impactSpeed;
    SharesSplit(k, aMass, bMass);
    ((k * bMass) / (aMass + bMass), (k * aMass) / (aMass + bMass))
  }

  /** Sharing `k` between two masses in inverse proportion. */
  lemma SharesSplit(k: real, a: real, b: real)
    requires a + b != 0.0
    ensures (k * b) / (a + b) + (k * a) / (a + b) == k
    ensures a * ((k * b) / (a + b)) == b * ((k * a) / (a + b))
  {
    var t := a + b;
    var s1 := (k * b) / t;
    var s2 := (k * a) / t;
    assert s1 * t == k * b;
    assert s2 * t == k * a;
    assert (s1 + s2) * t == k * t;
    assert (a * s1) * t == (b * s2) * t by {
      assert (a * s1) * t == a * (s1 * t);
      assert (b * s2) * t == b * (s2 * t);
    }
    CancelFactor(s1 + s2, k, t);
    CancelFactor(a * s1, b * s2, t);
  }

  lemma CancelFactor(x: real, y: real, t: real)
    requires t != 0.0 && x * t == y * t
    ensures x == y
  {
    assert (x - y) * t == 0.0;
  }

  /** Speeds in inverse proportion to the masses, given in opposite directions
      along one line, balance. */
  lemma OppositeBalanced(d: Vec2, aMass: real, aSpeed: real, bMass: real, bSpeed: real)
    requires aMass * aSpeed == bMass * bSpeed
    ensures Balanced(aMass, bMass, Scale(Neg(d), aSpeed), Scale(d, bSpeed))
    ensures Balanced(aMass, bMass, Scale(d, aSpeed), Scale(Neg(d), bSpeed))
  {
    var p := aMass * aSpeed;
    assert ((-d.x) * aSpeed) * aMass == -(d.x * p) && (d.x * bSpeed) * bMass == d.x * p;
    assert ((-d.y) * aSpeed) * aMass == -(d.y * p) && (d.y * bSpeed) * bMass == d.y * p;
    assert (d.x * aSpeed) * aMass == d.x * p && ((-d.x) * bSpeed) * bMass == -(d.x * p);
    assert (d.y * aSpeed) * aMass == d.y * p && ((-d.y) * bSpeed) * bMass == -(d.y * p);
  }

  /** The normal speed at which the bodies approach, in the circle convention:
      positive when `b` moves towards `a` along `direction`. */
  function ApproachSpeed(direction: Vec2, aVelocity: Vec2, bVelocity: Vec2): real {
    Dot(Sub(bVelocity, aVelocity), direction)
  }

  /** The velocity changes of `circle_circle`: nothing while the bodies separate;
      otherwise momentum is conserved and, along a unit direction, the approach
      speed afterwards is the opposite of the lower restitution times the one before. */
  function CircleImpulse(direction: Vec2, aVelocity: Vec2, aMass: real, aRestitution: real,
                         bVelocity: Vec2, bMass: real, bRestitution: real): (r: (Vec2, Vec2))
    requires aMass + bMass != 0.0
    ensures Balanced(aMass, bMass, r.0, r.1)
    ensures ApproachSpeed(direction, aVelocity, bVelocity) <= 0.0 ==> r == (Zero, Zero)
    ensures ApproachSpeed(direction, aVelocity, bVelocity) > 0.0 && Dot(direction, direction) == 1.0
            ==> (ApproachSpeed(direction, Add(aVelocity, r.0), Add(bVelocity, r.1))
                 == -Min(aRestitution, bRestitution) * ApproachSpeed(direction, aVelocity, bVelocity))
  {
    var impactSpeed := ApproachSpeed(direction, aVelocity, bVelocity);
    if impactSpeed > 0.0 then
      var restitution := Min(aRestitution, bRestitution);
      var (speed1, speed2) := ImpulseSpeeds(restitution, impactSpeed, aMass, bMass);
      OppositeBalanced(direction, aMass, speed1, bMass, speed2);
      ImpulseAlong(direction, aVelocity, bVelocity, Scale(direction, speed1), Scale(Neg(direction), speed2), -(speed1 + speed2));
      (Scale(direction, speed1), Scale(Neg(direction), speed2))
    else
      (Zero, Zero)
  }

  /** Changes `da`, `db` whose difference lies along `direction` with
      coefficient `k` add `k` times its squared length to the approach speed. */
  lemma ImpulseAlong(direction: Vec2, aVelocity: Vec2, bVelocity: Vec2, da: Vec2, db: Vec2, k: real)
    requires Scale(direction, k) == Sub(db, da)
    ensures ApproachSpeed(direction, Add(aVelocity, da), Add(bVelocity, db))
         == ApproachSpeed(direction, aVelocity, bVelocity) + k * Dot(direction, direction)
  {
    assert Dot(Scale(direction, k), direction) == k * Dot(direction, direction);
  }

  /** The impulse law in the box convention, where the impact speed is the
      negated approach speed: no change while separating, and otherwise an impact
      speed afterwards that is the opposite of the lower restitution times the one before. */
  predicate BoxImpulseLaw(n: Vec2, aVelocity: Vec2, aRestitution: real, bVelocity: Vec2, bRestitution: real, dvA: Vec2, dvB: Vec2) {
    && (-ApproachSpeed(n, aVelocity, bVelocity) <= 0.0 ==> dvA == Zero && dvB == Zero)
    && (-ApproachSpeed(n, aVelocity, bVelocity) > 0.0
        ==> (-ApproachSpeed(n, Add(aVelocity, dvA), Add(bVelocity, dvB))
             == -Min(aRestitution, bRestitution) * -ApproachSpeed(n, aVelocity, bVelocity)))
  }

  /** The velocity changes of `circle_aabb`, whose impact speed has the opposite
      sign: `a` is pushed against `direction`. */
  function BoxImpulse(direction: Vec2, aVelocity: Vec2, aMass: real, aRestitution: real,
                      bVelocity: Vec2, bMass: real, bRestitution: real): (r: (Vec2, Vec2))
    requires aMass + bMass != 0.0
    ensures Balanced(aMass, bMass, r.0, r.1)
    ensures -ApproachSpeed(direction, aVelocity, bVelocity) <= 0.0 ==> r == (Zero, Zero)
    ensures -ApproachSpeed(direction, aVelocity, bVelocity) > 0.0 && Dot(direction, direction) == 1.0
            ==> (-ApproachSpeed(direction, Add(aVelocity, r.0), Add(bVelocity, r.1))
                 == -Min(aRestitution, bRestitution) * -ApproachSpeed(direction, aVelocity, bVelocity))
  {
    var restitution := Min(aRestitution, bRestitution);
    var impactSpeed := -ApproachSpeed(direction, aVelocity, bVelocity);
    if impactSpeed > 0.0 then
      var (speed1, speed2) := ImpulseSpeeds(restitution, impactSpeed, aMass, bMass);
      OppositeBalanced(direction, aMass, speed1, bMass, speed2);
      ImpulseAlong(direction, aVelocity, bVelocity, Scale(Neg(direction), speed1), Scale(direction, speed2), speed1 + speed2);
      (Scale(Neg(direction), speed1), Scale(direction, speed2))
    else
      (Zero, Zero)
  }

  /** The unit vector from `b`'s centre to `a`'s. */
  function CentreNormal(m: Maths, aPosition: Vec2, bPosition: Vec2): (r: Vec2)
    requires m.Valid() && aPosition != bPosition
    ensures Dot(r, r) == 1.0
    ensures Scale(r, m.Distance(aPosition, bPosition)) == Sub(aPosition, bPosition)
  {
    var difference := Sub(aPosition, bPosition);
    assert difference != Zero;
    LengthFacts(m, difference);
    NormalizeFacts(m, difference);
    m.Normalize(difference)
  }

  /** `circle_circle`: pushes two overlapping circles apart along the line of
      centres and exchanges the impulse. Afterwards the circles exactly touch. */
  function CircleCircle(m: Maths,
                        aPosition: Vec2, aRadius: real, aVelocity: Vec2, aMass: real, aRestitution: real,
                        bPosition: Vec2, bRadius: real, bVelocity: Vec2, bMass: real, bRestitution: real): (r: Changes)
    requires m.Valid() && aPosition != bPosition && aMass + bMass != 0.0
    ensures Balanced(aMass, bMass, r.aPosition, r.bPosition)
    ensures Balanced(aMass, bMass, r.aVelocity, r.bVelocity)
    ensures aRadius + bRadius >= 0.0
            ==> m.Distance(Add(aPosition, r.aPosition), Add(bPosition, r.bPosition)) == aRadius + bRadius
    ensures
      var direction := CentreNormal(m, aPosition, bPosition);
      && (ApproachSpeed(direction, aVelocity, bVelocity) <= 0.0 ==> r.aVelocity == Zero && r.bVelocity == Zero)
      && (ApproachSpeed(direction, aVelocity, bVelocity) > 0.0
          ==> (ApproachSpeed(direction, Add(aVelocity, r.aVelocity), Add(bVelocity, r.bVelocity))
               == -Min(aRestitution, bRestitution) * ApproachSpeed(direction, aVelocity, bVelocity)))
  {
    var difference := Sub(aPosition, bPosition);
    var direction := CentreNormal(m, aPosition, bPosition);
    var distanceToSeparate := m.Length(difference) - aRadius - bRadius;
    var (dpA, dpB) := Separation(direction, distanceToSeparate, aMass, bMass);
    var (dvA, dvB) := CircleImpulse(direction, aVelocity, aMass, aRestitution, bVelocity, bMass, bRestitution);
    var result := Changes(dvA, dvB, dpA, dpB);
    if aRadius + bRadius >= 0.0 then
      Touching(m, aPosition, bPosition, direction, m.Length(difference), distanceToSeparate, dpA, dpB, aRadius + bRadius);
      result
    else
      result
  }

  lemma Touching(m: Maths, a: Vec2, b: Vec2, direction: Vec2, length: real, distanceToSeparate: real,
                 dpA: Vec2, dpB: Vec2, radii: real)
    requires m.Valid() && Dot(direction, direction) == 1.0 && radii >= 0.0
    requires Scale(direction, length) == Sub(a, b)
    requires distanceToSeparate == length - radii
    requires Sub(dpA, dpB) == Scale(Neg(direction), distanceToSeparate)
    ensures m.Distance(Add(a, dpA), Add(b, dpB)) == radii
  {
    assert Sub(Add(a, dpA), Add(b, dpB)) == Scale(direction, radii);
    LengthOfScale(m, direction, radii);
    LengthFacts(m, direction);
    assert m.Length(direction) == 1.0 by {
      SqrtOfSquare(m, 1.0);
    }
  }

  /** The contact point: the circle's centre clamped into the box. */
  function ContactPoint(aPosition: Vec2, bWidth: real, bHeight: real, bPosition: Vec2): Vec2 {
    ClampVec(aPosition, bPosition, Add(bPosition, Vec2(bWidth, bHeight)))
  }

  predicate Inside(p: Vec2, bWidth: real, bHeight: real, bPosition: Vec2) {
    bPosition.x <= p.x <= bPosition.x + bWidth && bPosition.y <= p.y <= bPosition.y + bHeight
  }

  /** The deep branch is taken exactly when the centre lies inside a box of
      non-negative size, that is when the squared distance to the contact point is 0. */
  lemma ShallowIffOutside(aPosition: Vec2, bWidth: real, bHeight: real, bPosition: Vec2)
    requires bWidth >= 0.0 && bHeight >= 0.0
    ensures
      var ab := Sub(ContactPoint(aPosition, bWidth, bHeight, bPosition), aPosition);
      Dot(ab, ab) != 0.0 <==> !Inside(aPosition, bWidth, bHeight, bPosition)
  {
    var ab := Sub(ContactPoint(aPosition, bWidth, bHeight, bPosition), aPosition);
    DotSelfNonNegative(ab);
    ContactIsCentreIffInside(aPosition, bWidth, bHeight, bPosition);
  }

  lemma ContactIsCentreIffInside(aPosition: Vec2, bWidth: real, bHeight: real, bPosition: Vec2)
    requires bWidth >= 0.0 && bHeight >= 0.0
    ensures Sub(ContactPoint(aPosition, bWidth, bHeight, bPosition), aPosition) == Zero
        <==> Inside(aPosition, bWidth, bHeight, bPosition)
  {
  }

  /** The offset of the circle's centre from the middle of the box. */
  function MidOffset(aPosition: Vec2, bWidth: real, bHeight: real, bPosition: Vec2): Vec2 {
    var mid := Scale(Add(Add(bPosition, bPosition), Vec2(bWidth, bHeight)), 0.5);
    Sub(aPosition, mid)
  }

  /** The overlaps of the centre with the box on each axis: the distances to the nearer face. */
  function Overlaps(aPosition: Vec2, bWidth: real, bHeight: real, bPosition: Vec2): Vec2 {
    var e := Scale(Vec2(bWidth, bHeight), 0.5);
    Sub(e, AbsVec(MidOffset(aPosition, bWidth, bHeight, bPosition)))
  }

  /** The deep branch pushes along the x axis: the overlap there is the smaller. */
  predicate XAxisContact(aPosition: Vec2, bWidth: real, bHeight: real, bPosition: Vec2) {
    Overlaps(aPosition, bWidth, bHeight, bPosition).x < Overlaps(aPosition, bWidth, bHeight, bPosition).y
  }

  /** The deep contact's direction and depth along the axis of least overlap.
      `xDirectionRight` is the x direction used when the centre is in the right half. */
  function DeepContactWith(aPosition: Vec2, bWidth: real, bHeight: real, bPosition: Vec2, xDirectionRight: real): (Vec2, real) {
    var d := MidOffset(aPosition, bWidth, bHeight, bPosition);
    var overlap := Overlaps(aPosition, bWidth, bHeight, bPosition);
    if XAxisContact(aPosition, bWidth, bHeight, bPosition) then
      (Vec2(if d.x < 0.0 then 1.0 else xDirectionRight, 0.0), overlap.x)
    else
      (Vec2(0.0, if d.y < 0.0 then 1.0 else -1.0), overlap.y)
  }

  /** One of the four unit vectors along the axes. */
  predicate UnitAxis(v: Vec2) {
    v == Vec2(1.0, 0.0) || v == Vec2(-1.0, 0.0) || v == Vec2(0.0, 1.0) || v == Vec2(0.0, -1.0)
  }

  lemma UnitAxisIsUnit(v: Vec2)
    requires UnitAxis(v)
    ensures Dot(v, v) == 1.0
  {
  }

  /** The deep contact as the source computes it: x direction 0 in the right half. */
  function DeepContactAsWritten(aPosition: Vec2, bWidth: real, bHeight: real, bPosition: Vec2): (Vec2, real) {
    DeepContactWith(aPosition, bWidth, bHeight, bPosition, 0.0)
  }

  /** The deep contact with x direction -1 in the right half, mirroring the y axis;
      the direction is always a unit axis vector. */
  function DeepContact(aPosition: Vec2, bWidth: real, bHeight: real, bPosition: Vec2): (r: (Vec2, real))
    ensures UnitAxis(r.0)
  {
    DeepContactWith(aPosition, bWidth, bHeight, bPosition, -1.0)
  }

  /** `circle_aabb` with the deep branch's contact given: the shallow branch
      pushes along the contact normal, the deep branch along `deep`'s direction
      by the radius plus the depth. */
  function CircleAabbWith(m: Maths,
                          aRadius: real, aPosition: Vec2, aVelocity: Vec2, aMass: real, aRestitution: real,
                          bWidth: real, bHeight: real, bPosition: Vec2, bVelocity: Vec2, bMass: real, bRestitution: real,
                          deep: (Vec2, real)): (r: Changes)
    requires m.Valid() && aMass + bMass != 0.0
    ensures Balanced(aMass, bMass, r.aPosition, r.bPosition)
    ensures Balanced(aMass, bMass, r.aVelocity, r.bVelocity)
  {
    var l := ContactPoint(aPosition, bWidth, bHeight, bPosition);
    var ab := Sub(l, aPosition);
    var d2 := Dot(ab, ab);
    if d2 != 0.0 then
      LengthFacts(m, ab);
      var distance := m.sqrt(d2);
      var direction := m.Normalize(ab);
      BoxExchange(direction, aRadius - distance, aVelocity, aMass, aRestitution, bVelocity, bMass, bRestitution)
    else
      BoxExchange(deep.0, aRadius + deep.1, aVelocity, aMass, aRestitution, bVelocity, bMass, bRestitution)
  }

  /** The changes of either `circle_aabb` branch once its contact direction and
      separating distance are known. Along the zero direction nothing changes. */
  function BoxExchange(direction: Vec2, distanceToSeparate: real, aVelocity: Vec2, aMass: real, aRestitution: real,
                       bVelocity: Vec2, bMass: real, bRestitution: real): (r: Changes)
    requires aMass + bMass != 0.0
    ensures Balanced(aMass, bMass, r.aPosition, r.bPosition)
    ensures Balanced(aMass, bMass, r.aVelocity, r.bVelocity)
    ensures Sub(r.aPosition, r.bPosition) == Scale(Neg(direction), distanceToSeparate)
    ensures direction == Zero ==> r == Changes(Zero, Zero, Zero, Zero)
  {
    var separation := Separation(direction, distanceToSeparate, aMass, bMass);
    var impulse := BoxImpulse(direction, aVelocity, aMass, aRestitution, bVelocity, bMass, bRestitution);
    if direction == Zero then
      SeparationAlongZero(distanceToSeparate, aMass, bMass);
      ApproachAlongZero(aVelocity, bVelocity);
      Changes(impulse.0, impulse.1, separation.0, separation.1)
    else
      Changes(impulse.0, impulse.1, separation.0, separation.1)
  }

  lemma ApproachAlongZero(aVelocity: Vec2, bVelocity: Vec2)
    ensures ApproachSpeed(Zero, aVelocity, bVelocity) == 0.0
  {
  }

  lemma SeparationAlongZero(distanceToSeparate: real, aMass: real, bMass: real)
    requires aMass + bMass != 0.0
    ensures Separation(Zero, distanceToSeparate, aMass, bMass) == (Zero, Zero)
  {
    var (aShare, bShare) := MovementShares(aMass, bMass);
    assert Neg(Zero) == Zero;
    assert Scale(Zero, distanceToSeparate) == Zero;
    assert Scale(Zero, aShare) == Zero;
    assert Scale(Zero, bShare) == Zero;
  }

  /** A centre inside the box takes the deep branch. */
  lemma CircleAabbWithDeep(m: Maths,
                           aRadius: real, aPosition: Vec2, aVelocity: Vec2, aMass: real, aRestitution: real,
                           bWidth: real, bHeight: real, bPosition: Vec2, bVelocity: Vec2, bMass: real, bRestitution: real,
                           deep: (Vec2, real))
    requires m.Valid() && aMass + bMass != 0.0 && bWidth >= 0.0 && bHeight >= 0.0
    requires Inside(aPosition, bWidth, bHeight, bPosition)
    ensures
      var r := CircleAabbWith(m, aRadius, aPosition, aVelocity, aMass, aRestitution, bWidth, bHeight, bPosition, bVelocity, bMass, bRestitution, deep);
      && RelativeAfter(aPosition, bPosition, r) == Add(Sub(aPosition, bPosition), Scale(Neg(deep.0), aRadius + deep.1))
      && (deep.0 == Zero ==> r == Changes(Zero, Zero, Zero, Zero))
  {
    ShallowIffOutside(aPosition, bWidth, bHeight, bPosition);
    var r := CircleAabbWith(m, aRadius, aPosition, aVelocity, aMass, aRestitution, bWidth, bHeight, bPosition, bVelocity, bMass, bRestitution, deep);
    assert r == BoxExchange(deep.0, aRadius + deep.1, aVelocity, aMass, aRestitution, bVelocity, bMass, bRestitution);
  }

  /** `circle_aabb` as the source writes it: momentum is conserved; along a
      non-zero contact normal the box impulse law holds, and where the deep
      branch's zero x direction leaves the normal zero nothing changes. */
  function CircleAabbAsWritten(m: Maths,
                               aRadius: real, aPosition: Vec2, aVelocity: Vec2, aMass: real, aRestitution: real,
                               bWidth: real, bHeight: real, bPosition: Vec2, bVelocity: Vec2, bMass: real, bRestitution: real)
    : (r: Changes)
    requires m.Valid() && aMass + bMass != 0.0
    ensures Balanced(aMass, bMass, r.aPosition, r.bPosition)
    ensures Balanced(aMass, bMass, r.aVelocity, r.bVelocity)
    ensures
      var n := AabbNormal(m, aPosition, bWidth, bHeight, bPosition, DeepContactAsWritten(aPosition, bWidth, bHeight, bPosition));
      && (n == Zero ==> r == Changes(Zero, Zero, Zero, Zero))
      && (n != Zero ==> BoxImpulseLaw(n, aVelocity, aRestitution, bVelocity, bRestitution, r.aVelocity, r.bVelocity))
  {
    var deep := DeepContactAsWritten(aPosition, bWidth, bHeight, bPosition);
    CircleAabbAsWrittenNormal(m, aRadius, aPosition, aVelocity, aMass, aRestitution, bWidth, bHeight, bPosition, bVelocity, bMass, bRestitution);
    CircleAabbWith(m, aRadius, aPosition, aVelocity, aMass, aRestitution, bWidth, bHeight, bPosition, bVelocity, bMass, bRestitution, deep)
  }

  /** The as-written deep direction is zero or a unit axis vector. */
  lemma DeepContactAsWrittenAxis(aPosition: Vec2, bWidth: real, bHeight: real, bPosition: Vec2)
    ensures var d := DeepContactAsWritten(aPosition, bWidth, bHeight, bPosition).0; d == Zero || UnitAxis(d)
  {
  }

  lemma CircleAabbAsWrittenNormal(m: Maths,
                                  aRadius: real, aPosition: Vec2, aVelocity: Vec2, aMass: real, aRestitution: real,
                                  bWidth: real, bHeight: real, bPosition: Vec2, bVelocity: Vec2, bMass: real, bRestitution: real)
    requires m.Valid() && aMass + bMass != 0.0
    ensures
      var deep := DeepContactAsWritten(aPosition, bWidth, bHeight, bPosition);
      var r := CircleAabbWith(m, aRadius, aPosition, aVelocity, aMass, aRestitution, bWidth, bHeight, bPosition, bVelocity, bMass, bRestitution, deep);
      var n := AabbNormal(m, aPosition, bWidth, bHeight, bPosition, deep);
      && (n == Zero ==> r == Changes(Zero, Zero, Zero, Zero))
      && (n != Zero ==> BoxImpulseLaw(n, aVelocity, aRestitution, bVelocity, bRestitution, r.aVelocity, r.bVelocity))
  {
    var deep := DeepContactAsWritten(aPosition, bWidth, bHeight, bPosition);
    var ab := Sub(ContactPoint(aPosition, bWidth, bHeight, bPosition), aPosition);
    if Dot(ab, ab) != 0.0 {
      var unit := (Vec2(1.0, 0.0), 0.0);
      LengthFacts(m, ab);
      NormalizeFacts(m, ab);
      CircleAabbWithImpulse(m, aRadius, aPosition, aVelocity, aMass, aRestitution, bWidth, bHeight, bPosition, bVelocity, bMass, bRestitution, unit);
      assert AabbNormal(m, aPosition, bWidth, bHeight, bPosition, deep) == AabbNormal(m, aPosition, bWidth, bHeight, bPosition, unit);
      assert CircleAabbWith(m, aRadius, aPosition, aVelocity, aMass, aRestitution, bWidth, bHeight, bPosition, bVelocity, bMass, bRestitution, deep)
          == CircleAabbWith(m, aRadius, aPosition, aVelocity, aMass, aRestitution, bWidth, bHeight, bPosition, bVelocity, bMass, bRestitution, unit);
    } else {
      DeepContactAsWrittenAxis(aPosition, bWidth, bHeight, bPosition);
      if deep.0 != Zero {
        UnitAxisIsUnit(deep.0);
        CircleAabbWithImpulse(m, aRadius, aPosition, aVelocity, aMass, aRestitution, bWidth, bHeight, bPosition, bVelocity, bMass, bRestitution, deep);
      }
    }
  }

  /** `circle_aabb` with the corrected deep direction: momentum is conserved, no
      impulse is applied while the bodies separate along the contact normal,
      and an impulse turns the impact speed into the opposite of the lower
      restitution times itself. */
  function CircleAabb(m: Maths,
                      aRadius: real, aPosition: Vec2, aVelocity: Vec2, aMass: real, aRestitution: real,
                      bWidth: real, bHeight: real, bPosition: Vec2, bVelocity: Vec2, bMass: real, bRestitution: real): (r: Changes)
    requires m.Valid() && aMass + bMass != 0.0
    ensures Balanced(aMass, bMass, r.aPosition, r.bPosition)
    ensures Balanced(aMass, bMass, r.aVelocity, r.bVelocity)
    ensures
      var n := AabbNormal(m, aPosition, bWidth, bHeight, bPosition, DeepContact(aPosition, bWidth, bHeight, bPosition));
      BoxImpulseLaw(n, aVelocity, aRestitution, bVelocity, bRestitution, r.aVelocity, r.bVelocity)
  {
    var deep := DeepContact(aPosition, bWidth, bHeight, bPosition);
    UnitAxisIsUnit(deep.0);
    CircleAabbWithImpulse(m, aRadius, aPosition, aVelocity, aMass, aRestitution, bWidth, bHeight, bPosition, bVelocity, bMass, bRestitution, deep);
    CircleAabbWith(m, aRadius, aPosition, aVelocity, aMass, aRestitution, bWidth, bHeight, bPosition, bVelocity, bMass, bRestitution, deep)
  }

  /** The contact normal of `circle_aabb`: towards the contact point in the
      shallow branch, the deep contact's direction otherwise. */
  function AabbNormal(m: Maths, aPosition: Vec2, bWidth: real, bHeight: real, bPosition: Vec2, deep: (Vec2, real)): Vec2
    requires m.Valid()
  {
    var ab := Sub(ContactPoint(aPosition, bWidth, bHeight, bPosition), aPosition);
    if Dot(ab, ab) != 0.0 then
      LengthFacts(m, ab);
      m.Normalize(ab)
    else deep.0
  }

  /** When the deep direction is a unit vector, no impulse is applied while the
      bodies separate along the contact normal, and an impulse turns the impact
      speed into the opposite of the lower restitution times itself. */
  lemma CircleAabbWithImpulse(m: Maths,
                              aRadius: real, aPosition: Vec2, aVelocity: Vec2, aMass: real, aRestitution: real,
                              bWidth: real, bHeight: real, bPosition: Vec2, bVelocity: Vec2, bMass: real, bRestitution: real,
                              deep: (Vec2, real))
    requires m.Valid() && aMass + bMass != 0.0 && Dot(deep.0, deep.0) == 1.0
    ensures
      var r := CircleAabbWith(m, aRadius, aPosition, aVelocity, aMass, aRestitution, bWidth, bHeight, bPosition, bVelocity, bMass, bRestitution, deep);
      var n := AabbNormal(m, aPosition, bWidth, bHeight, bPosition, deep);
      BoxImpulseLaw(n, aVelocity, aRestitution, bVelocity, bRestitution, r.aVelocity, r.bVelocity)
  {
    var ab := Sub(ContactPoint(aPosition, bWidth, bHeight, bPosition), aPosition);
    var n := AabbNormal(m, aPosition, bWidth, bHeight, bPosition, deep);
    if Dot(ab, ab) != 0.0 {
      LengthFacts(m, ab);
      NormalizeFacts(m, ab);
    }
    assert Dot(n, n) == 1.0;
    var r := CircleAabbWith(m, aRadius, aPosition, aVelocity, aMass, aRestitution, bWidth, bHeight, bPosition, bVelocity, bMass, bRestitution, deep);
    var impulse := BoxImpulse(n, aVelocity, aMass, aRestitution, bVelocity, bMass, bRestitution);
    assert r.aVelocity == impulse.0 && r.bVelocity == impulse.1;
  }

  /** In the shallow branch the circle ends exactly its radius away from the
      contact point, carried along with the box. */
  lemma CircleAabbShallowTouching(m: Maths,
                                  aRadius: real, aPosition: Vec2, aVelocity: Vec2, aMass: real, aRestitution: real,
                                  bWidth: real, bHeight: real, bPosition: Vec2, bVelocity: Vec2, bMass: real, bRestitution: real)
    requires m.Valid() && aMass + bMass != 0.0 && aRadius >= 0.0
    requires !Inside(aPosition, bWidth, bHeight, bPosition)
    requires bWidth >= 0.0 && bHeight >= 0.0
    ensures
      var r := CircleAabb(m, aRadius, aPosition, aVelocity, aMass, aRestitution, bWidth, bHeight, bPosition, bVelocity, bMass, bRestitution);
      var l := ContactPoint(aPosition, bWidth, bHeight, bPosition);
      m.Distance(Add(l, r.bPosition), Add(aPosition, r.aPosition)) == aRadius
  {
    var l := ContactPoint(aPosition, bWidth, bHeight, bPosition);
    var ab := Sub(l, aPosition);
    ShallowIffOutside(aPosition, bWidth, bHeight, bPosition);
    LengthFacts(m, ab);
    NormalizeFacts(m, ab);
    var direction := m.Normalize(ab);
    var r := CircleAabb(m, aRadius, aPosition, aVelocity, aMass, aRestitution, bWidth, bHeight, bPosition, bVelocity, bMass, bRestitution);
    assert Sub(r.aPosition, r.bPosition) == Scale(Neg(direction), aRadius - m.Length(ab));
    assert Sub(r.bPosition, r.aPosition) == Scale(Neg(direction), m.Length(ab) - aRadius);
    Touching(m, l, aPosition, direction, m.Length(ab), m.Length(ab) - aRadius, r.bPosition, r.aPosition, aRadius);
  }

  /** The position of `a` relative to `b` after the position changes. */
  function RelativeAfter(aPosition: Vec2, bPosition: Vec2, r: Changes): Vec2 {
    Sub(Add(aPosition, r.aPosition), Add(bPosition, r.bPosition))
  }

  /** Where the centre of a circle inside the box should end up, relative to the
      box's corner: its radius outside the face nearest to it (left, right, top
      or bottom), with its other coordinate kept. */
  function PushedOut(aRadius: real, aPosition: Vec2, bWidth: real, bHeight: real, bPosition: Vec2): Vec2 {
    var base := Sub(aPosition, bPosition);
    var d := MidOffset(aPosition, bWidth, bHeight, bPosition);
    if XAxisContact(aPosition, bWidth, bHeight, bPosition) then
      if d.x < 0.0 then Vec2(-aRadius, base.y) else Vec2(bWidth + aRadius, base.y)
    else
      if d.y < 0.0 then Vec2(base.x, -aRadius) else Vec2(base.x, bHeight + aRadius)
  }

  /** With the corrected deep direction, a circle whose centre is inside the box
      is pushed out through the face nearest to it. */
  lemma CircleAabbDeepPushesOut(m: Maths,
                                aRadius: real, aPosition: Vec2, aVelocity: Vec2, aMass: real, aRestitution: real,
                                bWidth: real, bHeight: real, bPosition: Vec2, bVelocity: Vec2, bMass: real, bRestitution: real)
    requires m.Valid() && aMass + bMass != 0.0 && bWidth >= 0.0 && bHeight >= 0.0
    requires Inside(aPosition, bWidth, bHeight, bPosition)
    ensures RelativeAfter(aPosition, bPosition, CircleAabb(m, aRadius, aPosition, aVelocity, aMass, aRestitution, bWidth, bHeight, bPosition, bVelocity, bMass, bRestitution))
         == PushedOut(aRadius, aPosition, bWidth, bHeight, bPosition)
  {
    CircleAabbIsWith(m, aRadius, aPosition, aVelocity, aMass, aRestitution, bWidth, bHeight, bPosition, bVelocity, bMass, bRestitution);
    CircleAabbWithPushesOut(m, aRadius, aPosition, aVelocity, aMass, aRestitution, bWidth, bHeight, bPosition, bVelocity, bMass, bRestitution);
  }

  lemma CircleAabbWithPushesOut(m: Maths,
                                aRadius: real, aPosition: Vec2, aVelocity: Vec2, aMass: real, aRestitution: real,
                                bWidth: real, bHeight: real, bPosition: Vec2, bVelocity: Vec2, bMass: real, bRestitution: real)
    requires m.Valid() && aMass + bMass != 0.0 && bWidth >= 0.0 && bHeight >= 0.0
    requires Inside(aPosition, bWidth, bHeight, bPosition)
    ensures
      var r := CircleAabbWith(m, aRadius, aPosition, aVelocity, aMass, aRestitution, bWidth, bHeight, bPosition, bVelocity, bMass, bRestitution,
                              DeepContact(aPosition, bWidth, bHeight, bPosition));
      RelativeAfter(aPosition, bPosition, r) == PushedOut(aRadius, aPosition, bWidth, bHeight, bPosition)
  {
    var deep := DeepContact(aPosition, bWidth, bHeight, bPosition);
    var r := CircleAabbWith(m, aRadius, aPosition, aVelocity, aMass, aRestitution, bWidth, bHeight, bPosition, bVelocity, bMass, bRestitution, deep);
    var pushed := Add(Sub(aPosition, bPosition), Scale(Neg(deep.0), aRadius + deep.1));
    assert RelativeAfter(aPosition, bPosition, r) == pushed by {
      CircleAabbWithDeep(m, aRadius, aPosition, aVelocity, aMass, aRestitution, bWidth, bHeight, bPosition, bVelocity, bMass, bRestitution, deep);
    }
    assert pushed == PushedOut(aRadius, aPosition, bWidth, bHeight, bPosition) by {
      DeepContactPushesOut(aRadius, aPosition, bWidth, bHeight, bPosition);
    }
  }

  lemma CircleAabbIsWith(m: Maths,
                         aRadius: real, aPosition: Vec2, aVelocity: Vec2, aMass: real, aRestitution: real,
                         bWidth: real, bHeight: real, bPosition: Vec2, bVelocity: Vec2, bMass: real, bRestitution: real)
    requires m.Valid() && aMass + bMass != 0.0
    ensures CircleAabb(m, aRadius, aPosition, aVelocity, aMass, aRestitution, bWidth, bHeight, bPosition, bVelocity, bMass, bRestitution)
         == CircleAabbWith(m, aRadius, aPosition, aVelocity, aMass, aRestitution, bWidth, bHeight, bPosition, bVelocity, bMass, bRestitution,
                           DeepContact(aPosition, bWidth, bHeight, bPosition))
  {
  }

  /** Moving the relative position against the corrected deep direction by the
      radius plus the depth reaches the pushed-out position. */
  lemma DeepContactPushesOut(aRadius: real, aPosition: Vec2, bWidth: real, bHeight: real, bPosition: Vec2)
    ensures
      var deep := DeepContact(aPosition, bWidth, bHeight, bPosition);
      Add(Sub(aPosition, bPosition), Scale(Neg(deep.0), aRadius + deep.1)) == PushedOut(aRadius, aPosition, bWidth, bHeight, bPosition)
  {
    var deep := DeepContact(aPosition, bWidth, bHeight, bPosition);
    var base := Sub(aPosition, bPosition);
    var d := MidOffset(aPosition, bWidth, bHeight, bPosition);
    var target := PushedOut(aRadius, aPosition, bWidth, bHeight, bPosition);
    DeepContactCases(aPosition, bWidth, bHeight, bPosition);
    if XAxisContact(aPosition, bWidth, bHeight, bPosition) {
      if d.x < 0.0 {
        assert deep == (Vec2(1.0, 0.0), base.x) && target == Vec2(-aRadius, base.y);
        PushAlongAxis(base, deep.0, deep.1, aRadius, target);
      } else {
        assert deep == (Vec2(-1.0, 0.0), bWidth - base.x) && target == Vec2(bWidth + aRadius, base.y);
        PushAlongAxis(base, deep.0, deep.1, aRadius, target);
      }
    } else {
      if d.y < 0.0 {
        assert deep == (Vec2(0.0, 1.0), base.y) && target == Vec2(base.x, -aRadius);
        PushAlongAxis(base, deep.0, deep.1, aRadius, target);
      } else {
        assert deep == (Vec2(0.0, -1.0), bHeight - base.y) && target == Vec2(base.x, bHeight + aRadius);
        PushAlongAxis(base, deep.0, deep.1, aRadius, target);
      }
    }
  }

  /** The corrected deep contact in each of its four cases: the direction and
      the distance from the centre to the face it points away from. */
  lemma DeepContactCases(aPosition: Vec2, bWidth: real, bHeight: real, bPosition: Vec2)
    ensures
      var deep := DeepContact(aPosition, bWidth, bHeight, bPosition);
      var base := Sub(aPosition, bPosition);
      var d := MidOffset(aPosition, bWidth, bHeight, bPosition);
      var x := XAxisContact(aPosition, bWidth, bHeight, bPosition);
      && (x && d.x < 0.0 ==> deep == (Vec2(1.0, 0.0), base.x))
      && (x && d.x >= 0.0 ==> deep == (Vec2(-1.0, 0.0), bWidth - base.x))
      && (!x && d.y < 0.0 ==> deep == (Vec2(0.0, 1.0), base.y))
      && (!x && d.y >= 0.0 ==> deep == (Vec2(0.0, -1.0), bHeight - base.y))
  {
    MidOffsetValue(aPosition, bWidth, bHeight, bPosition);
    OverlapsValue(aPosition, bWidth, bHeight, bPosition);
  }

  lemma MidOffsetValue(aPosition: Vec2, bWidth: real, bHeight: real, bPosition: Vec2)
    ensures MidOffset(aPosition, bWidth, bHeight, bPosition)
         == Vec2(aPosition.x - bPosition.x - bWidth * 0.5, aPosition.y - bPosition.y - bHeight * 0.5)
  {
  }

  lemma OverlapsValue(aPosition: Vec2, bWidth: real, bHeight: real, bPosition: Vec2)
    ensures
      var d := MidOffset(aPosition, bWidth, bHeight, bPosition);
      Overlaps(aPosition, bWidth, bHeight, bPosition) == Vec2(bWidth * 0.5 - Abs(d.x), bHeight * 0.5 - Abs(d.y))
  {
  }

  /** Pushing the relative position `base` against a unit axis direction by the
      radius plus the depth to the face. */
  lemma PushAlongAxis(base: Vec2, direction: Vec2, depth: real, aRadius: real, target: Vec2)
    requires
      || (direction == Vec2(1.0, 0.0) && depth == base.x && target == Vec2(-aRadius, base.y))
      || (direction == Vec2(-1.0, 0.0) && target == Vec2(base.x + depth + aRadius, base.y))
      || (direction == Vec2(0.0, 1.0) && depth == base.y && target == Vec2(base.x, -aRadius))
      || (direction == Vec2(0.0, -1.0) && target == Vec2(base.x, base.y + depth + aRadius))
    ensures Add(base, Scale(Neg(direction), aRadius + depth)) == target
  {
  }

  /** As written, a circle whose centre is inside the right half of the box,
      nearer a side face than the top or bottom, is not moved at all, and no
      impulse is applied: the contact direction is the zero vector. */
  lemma CircleAabbAsWrittenStuck(m: Maths,
                                 aRadius: real, aPosition: Vec2, aVelocity: Vec2, aMass: real, aRestitution: real,
                                 bWidth: real, bHeight: real, bPosition: Vec2, bVelocity: Vec2, bMass: real, bRestitution: real)
    requires m.Valid() && aMass + bMass != 0.0 && bWidth >= 0.0 && bHeight >= 0.0
    requires Inside(aPosition, bWidth, bHeight, bPosition)
    requires XAxisContact(aPosition, bWidth, bHeight, bPosition)
    requires MidOffset(aPosition, bWidth, bHeight, bPosition).x >= 0.0
    ensures
      var r := CircleAabbAsWritten(m, aRadius, aPosition, aVelocity, aMass, aRestitution, bWidth, bHeight, bPosition, bVelocity, bMass, bRestitution);
      r == Changes(Zero, Zero, Zero, Zero)
  {
    var deep := DeepContactAsWritten(aPosition, bWidth, bHeight, bPosition);
    assert deep.0 == Zero;
    CircleAabbWithDeep(m, aRadius, aPosition, aVelocity, aMass, aRestitution, bWidth, bHeight, bPosition, bVelocity, bMass, bRestitution, deep);
  }

  /** The offsets of the circle of the example below from the middle of the box
      and from its faces. */
  lemma ExampleOffsets()
    ensures MidOffset(Vec2(9.0, 5.0), 10.0, 10.0, Zero) == Vec2(4.0, 0.0)
    ensures Overlaps(Vec2(9.0, 5.0), 10.0, 10.0, Zero) == Vec2(1.0, 5.0)
  {
    MidOffsetValue(Vec2(9.0, 5.0), 10.0, 10.0, Zero);
    OverlapsValue(Vec2(9.0, 5.0), 10.0, 10.0, Zero);
  }

  /** A unit circle centred at (9, 5) has its centre inside the 10 by 10 box at the origin, */
  lemma ExampleInside()
    ensures Inside(Vec2(9.0, 5.0), 10.0, 10.0, Zero)
  {
  }

  /** in the right half, nearer the right face than the top or bottom. */
  lemma ExampleIsDeepRight()
    ensures XAxisContact(Vec2(9.0, 5.0), 10.0, 10.0, Zero)
    ensures MidOffset(Vec2(9.0, 5.0), 10.0, 10.0, Zero).x >= 0.0
  {
    ExampleOffsets();
    assert XAxisContact(Vec2(9.0, 5.0), 10.0, 10.0, Zero);
  }

  /** Corrected, it ends its radius outside the right face, at (11, 5), by
      `CircleAabbDeepPushesOut`. */
  lemma ExamplePushedOut()
    ensures PushedOut(1.0, Vec2(9.0, 5.0), 10.0, 10.0, Zero) == Vec2(11.0, 5.0)
  {
    ExampleOffsets();
    assert XAxisContact(Vec2(9.0, 5.0), 10.0, 10.0, Zero);
  }

  /** As written, that circle is left where it is. */
  lemma CircleAabbAsWrittenExample(m: Maths)
    requires m.Valid()
    ensures CircleAabbAsWritten(m, 1.0, Vec2(9.0, 5.0), Zero, 1.0, 1.0, 10.0, 10.0, Zero, Zero, 1.0, 1.0) == Changes(Zero, Zero, Zero, Zero)
  {
    ExampleInside();
    ExampleIsDeepRight();
    CircleAabbAsWrittenStuck(m, 1.0, Vec2(9.0, 5.0), Zero, 1.0, 1.0, 10.0, 10.0, Zero, Zero, 1.0, 1.0);
  }
}
