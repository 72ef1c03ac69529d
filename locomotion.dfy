/** Walking and turning: each moves a velocity toward the target the entity's
    Will asks for, by at most acceleration times the tick length. */
module Locomotion {
  import opened Geometry
  import opened Components
  import opened Worlds

  /** `r` lies between `a` and `b`, whichever way round they are. */
  predicate Between(r: real, a: real, b: real) {
    Min(a, b) <= r <= Max(a, b)
  }

  /** The three-way sign, with 0 for 0 (unlike `f32::signum`, which gives 1). */
  function ProperSignum(x: real): (r: real)
    ensures x > 0.0 ==> r == 1.0
    ensures x < 0.0 ==> r == -1.0
    ensures x == 0.0 ==> r == 0.0
    ensures r * x == Abs(x)
  {
    if x > 0.0 then 1.0 else if x < 0.0 then -1.0 else 0.0
  }

  /** One axis of a velocity approaching `target`: while accelerating upward the
      result is capped at the target, otherwise it is floored at the target. */
  function LocomotionHandleAxis(current: real, target: real, acceleration: real, deltaSeconds: real): (r: real)
    ensures acceleration > 0.0 ==> r <= target
    ensures acceleration <= 0.0 ==> r >= target
    ensures r == target || r == current + acceleration * deltaSeconds
  {
    if acceleration > 0.0 then Min(target, current + acceleration * deltaSeconds)
    else Max(target, current + acceleration * deltaSeconds)
  }

  /** With the acceleration pointing toward the target (or zero), one step never
      passes the target, and a nonzero acceleration moves the value by at most
      `|acceleration| * dt`. */
  lemma HandleAxisApproach(current: real, target: real, acceleration: real, dt: real)
    requires dt >= 0.0
    requires acceleration > 0.0 ==> current <= target
    requires acceleration < 0.0 ==> current >= target
    ensures Between(LocomotionHandleAxis(current, target, acceleration, dt), current, target)
    ensures acceleration != 0.0 ==> Abs(LocomotionHandleAxis(current, target, acceleration, dt) - current) <= Abs(acceleration) * dt
  {
    assert acceleration > 0.0 ==> acceleration * dt >= 0.0;
    assert acceleration < 0.0 ==> acceleration * dt <= 0.0;
  }

  /** A zero acceleration does not hold the value: it jumps to the target when
      the target is above it. */
  lemma HandleAxisZeroAcceleration(current: real, target: real, dt: real)
    ensures target > current ==> LocomotionHandleAxis(current, target, 0.0, dt) == target
    ensures target <= current ==> LocomotionHandleAxis(current, target, 0.0, dt) == current
  {
  }

  /** The maximum speed and acceleration walking uses: the standing values for a
      levitator or a standing entity, the floored values for a floored one. */
  function WalkGaitValues(gait: Gait, grounded: Option<Grounded>, levitates: bool): (r: (real, real))
    requires grounded.Some? || levitates
    ensures levitates || grounded.value.standing ==> r == (gait.standingMaxSpeed, gait.standingAcceleration)
    ensures !levitates && !grounded.value.standing ==> r == (gait.flooredMaxSpeed, gait.flooredAcceleration)
  {
    if !levitates then
      if grounded.value.standing then (gait.standingMaxSpeed, gait.standingAcceleration)
      else (gait.flooredMaxSpeed, gait.flooredAcceleration)
    else (gait.standingMaxSpeed, gait.standingAcceleration)
  }

  /** The direction of the remaining difference (zero when there is none);
      each component has the sign of the difference's component. */
  function WalkDirection(m: Maths, difference: Vec2): (d: Vec2)
    requires m.Valid()
    ensures d.x > 0.0 <==> difference.x > 0.0
    ensures d.x < 0.0 <==> difference.x < 0.0
    ensures d.y > 0.0 <==> difference.y > 0.0
    ensures d.y < 0.0 <==> difference.y < 0.0
  {
    LengthFacts(m, difference);
    if difference == Zero then Zero
    else
      NormalizeSigns(m, difference);
      m.Normalize(difference)
  }

  /** The update in the entity's own frame: both axes approach the target,
      sharing the acceleration along the direction of the difference. */
  function RelativeWalk(m: Maths, relative: Vec2, target: Vec2, acceleration: real, dt: real): Vec2
    requires m.Valid()
  {
    var distribution := Scale(WalkDirection(m, Sub(target, relative)), acceleration);
    Vec2(LocomotionHandleAxis(relative.x, target.x, distribution.x, dt),
         LocomotionHandleAxis(relative.y, target.y, distribution.y, dt))
  }

  /** In the entity's frame, neither axis of the relative velocity passes its target. */
  lemma RelativeWalkApproach(m: Maths, relative: Vec2, target: Vec2, acceleration: real, dt: real)
    requires m.Valid() && acceleration >= 0.0 && dt >= 0.0
    ensures Between(RelativeWalk(m, relative, target, acceleration, dt).x, relative.x, target.x)
    ensures Between(RelativeWalk(m, relative, target, acceleration, dt).y, relative.y, target.y)
  {
    var d := WalkDirection(m, Sub(target, relative));
    AxisApproach(relative.x, target.x, d.x, acceleration, dt);
    AxisApproach(relative.y, target.y, d.y, acceleration, dt);
  }

  /** One axis given a share `d` of the acceleration whose sign is that of the remaining difference. */
  lemma AxisApproach(current: real, target: real, d: real, acceleration: real, dt: real)
    requires acceleration >= 0.0 && dt >= 0.0
    requires d > 0.0 ==> target > current
    requires d < 0.0 ==> target < current
    ensures Between(LocomotionHandleAxis(current, target, d * acceleration, dt), current, target)
  {
    if acceleration > 0.0 {
      SignOfScaled(d, acceleration);
    } else {
      assert d * acceleration == 0.0;
    }
    HandleAxisApproach(current, target, d * acceleration, dt);
  }

  /** The angle by which walking turns the entity's frame: `angle - TAU/4`, so
      that the facing direction becomes +y. */
  function FrameAngle(m: Maths, e: Entity): real {
    e.angle.GetOr(0.0) - 2.0 * m.pi / 4.0
  }

  /** A world-frame vector seen in the entity's frame. */
  function ToEntityFrame(m: Maths, e: Entity, v: Vec2): Vec2 {
    Rotate(m.fromAngle(-FrameAngle(m, e)), v)
  }

  /** An entity-frame vector seen in the world frame. */
  function FromEntityFrame(m: Maths, e: Entity, v: Vec2): Vec2 {
    Rotate(m.fromAngle(FrameAngle(m, e)), v)
  }

  lemma EntityFrameRoundTrip(m: Maths, e: Entity, v: Vec2)
    requires m.Valid()
    ensures FromEntityFrame(m, e, ToEntityFrame(m, e, v)) == v
    ensures ToEntityFrame(m, e, FromEntityFrame(m, e, v)) == v
  {
    var a := FrameAngle(m, e);
    RotateRoundTrip(m, a, v);
    RotateRoundTrip(m, -a, v);
    assert -(-a) == a;
  }

  /** The velocity walking aims for, in the entity's frame: the Will's multiplier
      (zero when absent) times the maximum speed. */
  function WalkTarget(e: Entity, maxSpeed: real): Vec2
    requires e.will.Some?
  {
    Scale(e.will.value.targetRelativeVelocityMultiplier.GetOr(Zero), maxSpeed)
  }

  /** Whether walking acts on the entity. */
  predicate CanWalk(e: Entity) {
    e.velocity.Some? && e.gait.Some? && e.will.Some? && (e.grounded.Some? || e.levitates)
  }

  /** Walking for one entity: the velocity in the entity's frame approaches the
      Will's target. Entities lacking Velocity, Gait or Will, or neither Grounded
      nor Levitating, are left alone. */
  function WalkStep(m: Maths, e: Entity, dt: real): Entity
    requires m.Valid()
  {
    if !CanWalk(e) then e
    else
      var (maxSpeed, acceleration) := WalkGaitValues(e.gait.value, e.grounded, e.levitates);
      var relative := ToEntityFrame(m, e, e.velocity.value);
      var relative' := RelativeWalk(m, relative, WalkTarget(e, maxSpeed), acceleration, dt);
      e.(velocity := Some(FromEntityFrame(m, e, relative')))
  }

  /** Walking changes nothing but the velocity, and only of eligible entities. */
  lemma WalkStepFrame(m: Maths, e: Entity, dt: real)
    requires m.Valid()
    ensures WalkStep(m, e, dt) == e.(velocity := WalkStep(m, e, dt).velocity)
    ensures !(e.grounded.Some? || e.levitates) ==> WalkStep(m, e, dt) == e
    ensures e.velocity.Some? <==> WalkStep(m, e, dt).velocity.Some?
  {
  }

  /** Seen in the entity's frame, walking is exactly the relative update. */
  lemma WalkInEntityFrame(m: Maths, e: Entity, dt: real)
    requires m.Valid() && CanWalk(e)
    ensures
      var (maxSpeed, acceleration) := WalkGaitValues(e.gait.value, e.grounded, e.levitates);
      ToEntityFrame(m, e, WalkStep(m, e, dt).velocity.value)
        == RelativeWalk(m, ToEntityFrame(m, e, e.velocity.value), WalkTarget(e, maxSpeed), acceleration, dt)
  {
    var (maxSpeed, acceleration) := WalkGaitValues(e.gait.value, e.grounded, e.levitates);
    var relative' := RelativeWalk(m, ToEntityFrame(m, e, e.velocity.value), WalkTarget(e, maxSpeed), acceleration, dt);
    EntityFrameRoundTrip(m, e, relative');
  }

  /** An entity already moving at its target relative velocity keeps its velocity exactly. */
  lemma WalkAtTargetUnchanged(m: Maths, e: Entity, dt: real)
    requires m.Valid() && CanWalk(e)
    requires ToEntityFrame(m, e, e.velocity.value) == WalkTarget(e, WalkGaitValues(e.gait.value, e.grounded, e.levitates).0)
    ensures WalkStep(m, e, dt) == e
  {
    var (maxSpeed, acceleration) := WalkGaitValues(e.gait.value, e.grounded, e.levitates);
    var relative := ToEntityFrame(m, e, e.velocity.value);
    assert Sub(WalkTarget(e, maxSpeed), relative) == Zero;
    assert RelativeWalk(m, relative, WalkTarget(e, maxSpeed), acceleration, dt) == relative;
    EntityFrameRoundTrip(m, e, e.velocity.value);
  }

  /** Walking keeps each axis of the entity-frame velocity between its old value
      and the target, for a non-negative acceleration. */
  lemma WalkApproach(m: Maths, e: Entity, dt: real)
    requires m.Valid() && dt >= 0.0 && CanWalk(e)
    requires WalkGaitValues(e.gait.value, e.grounded, e.levitates).1 >= 0.0
    ensures
      var target := WalkTarget(e, WalkGaitValues(e.gait.value, e.grounded, e.levitates).0);
      var before := ToEntityFrame(m, e, e.velocity.value);
      var after := ToEntityFrame(m, e, WalkStep(m, e, dt).velocity.value);
      Between(after.x, before.x, target.x) && Between(after.y, before.y, target.y)
  {
    var (maxSpeed, acceleration) := WalkGaitValues(e.gait.value, e.grounded, e.levitates);
    WalkInEntityFrame(m, e, dt);
    RelativeWalkApproach(m, ToEntityFrame(m, e, e.velocity.value), WalkTarget(e, maxSpeed), acceleration, dt);
  }

  /** `walking`: every entity takes a walking step. */
  method Walking(w: World, m: Maths, dt: real)
    requires m.Valid()
    modifies w
    ensures w.nextId == old(w.nextId)
    ensures w.entities == MapEntities(old(w.entities), (id, e) => WalkStep(m, e, dt))
  {
    w.Update((id, e) => WalkStep(m, e, dt));
  }

  /** Turning for one entity: the angular velocity approaches the Will's target
      at the angular gait's acceleration. Entities lacking AngularVelocity,
      AngularGait or Will, or neither Grounded nor Levitating, are left alone. */
  function TurnStep(e: Entity, dt: real): Entity {
    if e.angularVelocity.None? || e.angularGait.None? || e.will.None? then e
    else if !(e.grounded.Some? || e.levitates) then e
    else
      var current := e.angularVelocity.value;
      var target := e.will.value.targetAngularVelocityMultiplier.GetOr(0.0) * e.angularGait.value.maxSpeed;
      var acceleration := e.angularGait.value.acceleration * ProperSignum(target - current);
      e.(angularVelocity := Some(LocomotionHandleAxis(current, target, acceleration, dt)))
  }

  /** Turning never passes the target, moves by at most the acceleration times
      the tick length, and stays put once at the target. */
  lemma TurnApproach(e: Entity, dt: real)
    requires dt >= 0.0
    requires e.angularVelocity.Some? && e.angularGait.Some? && e.will.Some? && (e.grounded.Some? || e.levitates)
    requires e.angularGait.value.acceleration >= 0.0
    ensures
      var current := e.angularVelocity.value;
      var target := e.will.value.targetAngularVelocityMultiplier.GetOr(0.0) * e.angularGait.value.maxSpeed;
      var r := TurnStep(e, dt).angularVelocity.value;
      && Between(r, current, target)
      && (e.angularGait.value.acceleration > 0.0 ==> Abs(r - current) <= e.angularGait.value.acceleration * dt)
      && (current == target ==> r == current)
  {
    var current := e.angularVelocity.value;
    var target := e.will.value.targetAngularVelocityMultiplier.GetOr(0.0) * e.angularGait.value.maxSpeed;
    var g := e.angularGait.value.acceleration;
    assert TurnStep(e, dt).angularVelocity.value == LocomotionHandleAxis(current, target, g * ProperSignum(target - current), dt);
    TurnAxis(current, target, g, dt);
  }

  /** The turning rule on numbers: the acceleration is applied toward the target. */
  lemma TurnAxis(current: real, target: real, g: real, dt: real)
    requires g >= 0.0 && dt >= 0.0
    ensures
      var r := LocomotionHandleAxis(current, target, g * ProperSignum(target - current), dt);
      && Between(r, current, target)
      && (g > 0.0 ==> Abs(r - current) <= g * dt)
      && (current == target ==> r == current)
  {
    var a := g * ProperSignum(target - current);
    assert g * dt >= 0.0;
    if target > current {
      assert a == g;
      HandleAxisApproach(current, target, a, dt);
    } else if target < current {
      assert a == -g;
      HandleAxisApproach(current, target, a, dt);
    } else {
      assert a == 0.0;
    }
  }

  /** Turning changes nothing but the angular velocity, and leaves entities
      neither on the ground nor levitating alone. */
  lemma TurnStepFrame(e: Entity, dt: real)
    ensures TurnStep(e, dt) == e.(angularVelocity := TurnStep(e, dt).angularVelocity)
    ensures !(e.grounded.Some? || e.levitates) ==> TurnStep(e, dt) == e
    ensures e.angularVelocity.Some? <==> TurnStep(e, dt).angularVelocity.Some?
  {
  }

  /** `turning`: every entity takes a turning step. */
  method Turning(w: World, dt: real)
    modifies w
    ensures w.nextId == old(w.nextId)
    ensures w.entities == MapEntities(old(w.entities), (id, e) => TurnStep(e, dt))
  {
    w.Update((id, e) => TurnStep(e, dt));
  }
}
