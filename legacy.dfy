/** The older single-file game loop: keyboard-driven walking, turning and
    shooting for the one player, velocity integration, flyers, tripping and a
    separate gun cooldown system. It runs over its own, smaller set of
    components: a gait that carries the flying thresholds, and Grounded and
    Flying as plain tags.
    The sign function, the axis step and the firing scheduler are the same as
    in the later systems and are taken from the `Locomotion` and `Guns` modules. */
module Legacy {
  import opened Geometry
  import opened Components
  import Locomotion
  import Guns

  // ------------------------------------------------------------ components

  /** The older `Gait`: walking speed and acceleration, and the speeds at which
      a flyer lands and a grounded body trips. */
  datatype LegacyGait = LegacyGait(maxSpeed: real, acceleration: real, standThreshold: real, tripThreshold: real)

  /** The components the older systems read and write. The gun is the same
      component as in the later systems; its trigger fields are not read here. */
  datatype Body = Body(
    position: Option<Vec2>,
    previousPosition: Option<Vec2>,
    velocity: Option<Vec2>,
    angle: Option<real>,
    angularVelocity: Option<real>,
    gait: Option<LegacyGait>,
    angularGait: Option<AngularGait>,
    grounded: bool,
    flying: bool,
    levitates: bool,
    player: bool,
    flyingRecoveryRate: Option<real>,
    gun: Option<Gun>,
    projectileColour: Option<Colour>,
    tracedLine: bool,
    spawnedMidTick: Option<real>)

  /** A body with no components. */
  const Bare := Body(None, None, None, None, None, None, None, false, false, false, false, None, None, None, false, None)

  /** The keys the systems read: held this frame, and Space pressed since the last frame. */
  datatype Keys = Keys(a: bool, d: bool, w: bool, s: bool, comma: bool, period: bool, space: bool, spaceJustPressed: bool)

  /** Never both on the ground and in the air. */
  predicate Consistent(b: Body) {
    !(b.grounded && b.flying)
  }

  // --------------------------------------------------------- queued orders

  /** The deferred commands the older systems queue: swapping the Flying tag
      for Grounded or back, and spawning a projectile. */
  datatype Order = Land(target: EntityId) | Trip(target: EntityId) | SpawnBody(body: Body)

  datatype Snapshot = Snapshot(bodies: map<EntityId, Body>, nextId: nat)

  function Landed(b: Body): Body { b.(flying := false, grounded := true) }
  function Tripped(b: Body): Body { b.(grounded := false, flying := true) }

  function Perform(s: Snapshot, o: Order): Snapshot {
    match o
    case Land(id) => if id in s.bodies then s.(bodies := s.bodies[id := Landed(s.bodies[id])]) else s
    case Trip(id) => if id in s.bodies then s.(bodies := s.bodies[id := Tripped(s.bodies[id])]) else s
    case SpawnBody(b) => Snapshot(s.bodies[s.nextId := b], s.nextId + 1)
  }

  /** The queue applied in order. */
  function PerformAll(s: Snapshot, os: seq<Order>): Snapshot
    decreases |os|
  {
    if |os| == 0 then s else Perform(PerformAll(s, os[..|os| - 1]), os[|os| - 1])
  }

  /** A landing or a tripping order, as `landing` says. */
  function Tag(id: EntityId, landing: bool): Order { if landing then Land(id) else Trip(id) }
  function Retagged(b: Body, landing: bool): Body { if landing then Landed(b) else Tripped(b) }

  /** A queue of landings only (or trippings only) retags exactly the bodies it
      names, however often and in whatever order it names them. */
  lemma {:induction false} TagOrders(s: Snapshot, os: seq<Order>, landing: bool)
    requires forall o :: o in os ==> !o.SpawnBody? && o == Tag(o.target, landing)
    ensures PerformAll(s, os).nextId == s.nextId && PerformAll(s, os).bodies.Keys == s.bodies.Keys
    ensures forall id :: id in s.bodies ==>
      PerformAll(s, os).bodies[id] == if Tag(id, landing) in os then Retagged(s.bodies[id], landing) else s.bodies[id]
    decreases |os|
  {
    if |os| > 0 {
      var n := |os| - 1;
      var front := os[..n];
      assert os == front + [os[n]];
      assert forall o :: o in front ==> o in os;
      TagOrders(s, front, landing);
      var p := PerformAll(s, front);
      var t := os[n].target;
      assert os[n] == Tag(t, landing);
      forall id | id in s.bodies
        ensures PerformAll(s, os).bodies[id] == if Tag(id, landing) in os then Retagged(s.bodies[id], landing) else s.bodies[id]
      {
        assert Tag(id, landing) in os <==> Tag(id, landing) in front || id == t;
      }
    }
  }

  // ------------------------------------------------------------- the table

  /** `m` with `step` run on every body. */
  function MapBodies(m: map<EntityId, Body>, step: Body -> Body): (r: map<EntityId, Body>)
    ensures r.Keys == m.Keys
    ensures forall id :: id in m ==> r[id] == step(m[id])
  {
    map id | id in m :: step(m[id])
  }

  /** The ids of the bodies a query matches. */
  function Matches(bodies: map<EntityId, Body>, q: Body -> bool): set<EntityId> {
    set id | id in bodies && q(bodies[id])
  }

  class Table {
    var bodies: map<EntityId, Body>
    var nextId: nat

    constructor ()
      ensures bodies == map[] && nextId == 0
    {
      bodies := map[];
      nextId := 0;
    }

    /** Applies a queue of orders. */
    method Flush(os: seq<Order>)
      modifies this
      ensures Snapshot(bodies, nextId) == PerformAll(Snapshot(old(bodies), old(nextId)), os)
    {
      var s := PerformAll(Snapshot(bodies, nextId), os);
      bodies := s.bodies;
      nextId := s.nextId;
    }

    /** A system that visits every body once, in an unspecified order, and
        updates it in place with `step`. */
    method Update(step: Body -> Body)
      modifies this
      ensures nextId == old(nextId)
      ensures bodies == MapBodies(old(bodies), step)
    {
      ghost var start := bodies;
      var todo := bodies.Keys;
      while todo != {}
        invariant todo <= start.Keys && bodies.Keys == start.Keys
        invariant nextId == old(nextId)
        invariant forall id :: id in start ==> bodies[id] == if id in todo then start[id] else step(start[id])
        decreases todo
      {
        var id :| id in todo;
        bodies := bodies[id := step(bodies[id])];
        todo := todo - {id};
      }
    }
  }

  lemma SingletonSet(s: set<EntityId>, x: EntityId)
    requires |s| == 1 && x in s
    ensures s == {x}
  {
    assert |s - {x}| == 0;
  }

  /** `Query::get_single_mut`: the one body the query matches, and nothing
      when none or several match. */
  method GetSingle(bodies: map<EntityId, Body>, q: Body -> bool) returns (r: Option<EntityId>)
    ensures r.Some? <==> |Matches(bodies, q)| == 1
    ensures r.Some? ==> Matches(bodies, q) == {r.value}
  {
    var found: set<EntityId> := {};
    var todo := bodies.Keys;
    while todo != {}
      invariant todo <= bodies.Keys
      invariant found == set id | id in bodies && id !in todo && q(bodies[id])
      decreases todo
    {
      var id :| id in todo;
      if q(bodies[id]) {
        found := found + {id};
      }
      todo := todo - {id};
    }
    assert found == Matches(bodies, q);
    if |found| == 1 {
      var id :| id in found;
      SingletonSet(found, id);
      r := Some(id);
    } else {
      r := None;
    }
  }

  // ---------------------------------------------------------------- walking

  /** The player walks while on the ground or levitating. */
  predicate CanWalk(b: Body) {
    b.player && b.velocity.Some? && b.gait.Some? && (b.grounded || b.levitates)
  }

  /** A and D steer along x, W and S along y, in the player's frame. */
  function RawDirection(keys: Keys): Vec2 {
    Vec2((if keys.d then 1.0 else 0.0) - (if keys.a then 1.0 else 0.0),
         (if keys.w then 1.0 else 0.0) - (if keys.s then 1.0 else 0.0))
  }

  /** The walking direction: the held keys' direction normalised, or zero when
      they cancel out. */
  function KeyDirection(m: Maths, keys: Keys): (r: Vec2)
    requires m.Valid()
    ensures RawDirection(keys) == Zero ==> r == Zero
    ensures RawDirection(keys) != Zero ==> m.Length(r) == 1.0 && Scale(r, m.Length(RawDirection(keys))) == RawDirection(keys)
  {
    var raw := RawDirection(keys);
    LengthFacts(m, raw);
    if raw == Zero then Zero
    else
      NormalizeFacts(m, raw);
      m.Normalize(raw)
  }

  /** The angle by which walking turns the player's frame, so that its facing
      direction becomes +y. */
  function FrameAngle(m: Maths, b: Body): real {
    b.angle.GetOr(0.0) - 2.0 * m.pi / 4.0
  }

  /** The player's velocity in its own frame approaches the key direction times
      the maximum speed, sharing the acceleration between the axes. */
  function WalkBody(m: Maths, b: Body, keys: Keys, dt: real): Body
    requires m.Valid()
  {
    if !CanWalk(b) then b
    else
      var frame := FrameAngle(m, b);
      var relative := Rotate(m.fromAngle(-frame), b.velocity.value);
      var target := Scale(KeyDirection(m, keys), b.gait.value.maxSpeed);
      var relative' := Locomotion.RelativeWalk(m, relative, target, b.gait.value.acceleration, dt);
      b.(velocity := Some(Rotate(m.fromAngle(frame), relative')))
  }

  /** Walking changes only the velocity; seen in the player's frame each axis
      ends between its old value and the target, and with no key held the
      target is standing still. */
  lemma WalkApproach(m: Maths, b: Body, keys: Keys, dt: real)
    requires m.Valid() && CanWalk(b) && dt >= 0.0 && b.gait.value.acceleration >= 0.0
    ensures
      var frame := FrameAngle(m, b);
      var x := WalkBody(m, b, keys, dt);
      var target := Scale(KeyDirection(m, keys), b.gait.value.maxSpeed);
      var before := Rotate(m.fromAngle(-frame), b.velocity.value);
      var after := Rotate(m.fromAngle(-frame), x.velocity.value);
      && x.velocity.Some? && x == b.(velocity := x.velocity)
      && Locomotion.Between(after.x, before.x, target.x) && Locomotion.Between(after.y, before.y, target.y)
      && (!keys.a && !keys.d && !keys.w && !keys.s ==> target == Zero)
  {
    var frame := FrameAngle(m, b);
    var relative := Rotate(m.fromAngle(-frame), b.velocity.value);
    var target := Scale(KeyDirection(m, keys), b.gait.value.maxSpeed);
    var relative' := Locomotion.RelativeWalk(m, relative, target, b.gait.value.acceleration, dt);
    RotateRoundTrip(m, -frame, relative');
    assert -(-frame) == frame;
    Locomotion.RelativeWalkApproach(m, relative, target, b.gait.value.acceleration, dt);
  }

  /** `walking`: when exactly one player can walk, it takes a walking step;
      otherwise nothing happens. */
  method Walking(t: Table, m: Maths, keys: Keys, dt: real)
    requires m.Valid()
    modifies t
    ensures t.nextId == old(t.nextId) && t.bodies.Keys == old(t.bodies).Keys
    ensures forall id :: id in old(t.bodies) ==>
      t.bodies[id] == if Matches(old(t.bodies), CanWalk) == {id} then WalkBody(m, old(t.bodies)[id], keys, dt) else old(t.bodies)[id]
  {
    var r := GetSingle(t.bodies, CanWalk);
    if r.Some? {
      var id := r.value;
      assert id in Matches(t.bodies, CanWalk);
      t.bodies := t.bodies[id := WalkBody(m, t.bodies[id], keys, dt)];
    }
  }

  // ---------------------------------------------------------------- turning

  /** The player turns while on the ground or levitating. */
  predicate CanTurn(b: Body) {
    b.player && b.angularVelocity.Some? && b.angularGait.Some? && (b.grounded || b.levitates)
  }

  /** Comma turns one way, Period the other, both at once cancel. */
  function TurnDirection(keys: Keys): real {
    (if keys.comma then 1.0 else 0.0) - (if keys.period then 1.0 else 0.0)
  }

  /** The player's angular velocity approaches the turning direction times the
      maximum turning speed, at the angular gait's acceleration. */
  function TurnBody(b: Body, keys: Keys, dt: real): Body {
    if !CanTurn(b) then b
    else
      var current := b.angularVelocity.value;
      var target := TurnDirection(keys) * b.angularGait.value.maxSpeed;
      var acceleration := b.angularGait.value.acceleration * Locomotion.ProperSignum(target - current);
      b.(angularVelocity := Some(Locomotion.LocomotionHandleAxis(current, target, acceleration, dt)))
  }

  /** Turning changes only the angular velocity; it never passes the target,
      changes by at most the acceleration times the tick, stays put at the
      target, and the target is zero when no key or both keys are held. */
  lemma TurnApproach(b: Body, keys: Keys, dt: real)
    requires CanTurn(b) && dt >= 0.0 && b.angularGait.value.acceleration >= 0.0
    ensures
      var current := b.angularVelocity.value;
      var g := b.angularGait.value;
      var target := TurnDirection(keys) * g.maxSpeed;
      var r := TurnBody(b, keys, dt).angularVelocity.value;
      && Locomotion.Between(r, current, target)
      && (g.acceleration > 0.0 ==> Abs(r - current) <= g.acceleration * dt)
      && (current == target ==> r == current)
  {
    var current := b.angularVelocity.value;
    var g := b.angularGait.value;
    TurnBodyAxis(b, keys, dt);
    Locomotion.TurnAxis(current, TurnDirection(keys) * g.maxSpeed, g.acceleration, dt);
  }

  lemma TurnBodyAxis(b: Body, keys: Keys, dt: real)
    requires CanTurn(b)
    ensures
      var current := b.angularVelocity.value;
      var g := b.angularGait.value;
      var target := TurnDirection(keys) * g.maxSpeed;
      TurnBody(b, keys, dt).angularVelocity.value
        == Locomotion.LocomotionHandleAxis(current, target, g.acceleration * Locomotion.ProperSignum(target - current), dt)
  {
  }

  /** Turning changes nothing but the angular velocity, and a player who can
      turn keeps one. */
  lemma TurnBodyFrame(b: Body, keys: Keys, dt: real)
    ensures
      var x := TurnBody(b, keys, dt);
      && (CanTurn(b) ==> x.angularVelocity.Some?)
      && x == b.(angularVelocity := x.angularVelocity)
      && (!CanTurn(b) ==> x == b)
  {
  }

  /** The turning target is zero exactly when both keys or neither are held. */
  lemma TurnDirectionZero(keys: Keys, maxSpeed: real)
    ensures TurnDirection(keys) == 0.0 <==> keys.comma == keys.period
    ensures keys.comma == keys.period ==> TurnDirection(keys) * maxSpeed == 0.0
  {
    if keys.comma == keys.period {
      assert TurnDirection(keys) == 0.0;
    }
  }

  /** `turning`: when exactly one player can turn, it takes a turning step;
      otherwise nothing happens. */
  method Turning(t: Table, keys: Keys, dt: real)
    modifies t
    ensures t.nextId == old(t.nextId) && t.bodies.Keys == old(t.bodies).Keys
    ensures forall id :: id in old(t.bodies) ==>
      t.bodies[id] == if Matches(old(t.bodies), CanTurn) == {id} then TurnBody(old(t.bodies)[id], keys, dt) else old(t.bodies)[id]
  {
    var r := GetSingle(t.bodies, CanTurn);
    if r.Some? {
      var id := r.value;
      assert id in Matches(t.bodies, CanTurn);
      t.bodies := t.bodies[id := TurnBody(t.bodies[id], keys, dt)];
    }
  }

  // ------------------------------------------------------------ integration

  function Integrate(b: Body, dt: real): Body {
    if b.position.Some? && b.velocity.Some? then b.(position := Some(Add(b.position.value, Scale(b.velocity.value, dt))))
    else b
  }

  /** A body with both components moves by its velocity times the tick; only
      the position changes, and a body lacking either is untouched. */
  lemma IntegrateMoves(b: Body, dt: real)
    ensures
      var x := Integrate(b, dt);
      && x == b.(position := x.position)
      && (x.position.Some? <==> b.position.Some?)
      && (b.position.Some? && b.velocity.Some? ==> Sub(x.position.value, b.position.value) == Scale(b.velocity.value, dt))
      && (b.position.None? || b.velocity.None? ==> x == b)
  {
    if b.position.Some? && b.velocity.Some? {
      var p := b.position.value;
      var d := Scale(b.velocity.value, dt);
      assert Sub(Add(p, d), p) == d;
    }
  }

  /** `apply_velocity`. */
  method ApplyVelocity(t: Table, dt: real)
    modifies t
    ensures t.nextId == old(t.nextId)
    ensures t.bodies == MapBodies(old(t.bodies), b => Integrate(b, dt))
  {
    t.Update(b => Integrate(b, dt));
  }

  function IntegrateAngle(b: Body, dt: real): Body {
    if b.angle.Some? && b.angularVelocity.Some? then b.(angle := Some(b.angle.value + b.angularVelocity.value * dt))
    else b
  }

  /** A body with both components turns by its angular velocity times the tick;
      only the angle changes. */
  lemma IntegrateAngleTurns(b: Body, dt: real)
    ensures
      var x := IntegrateAngle(b, dt);
      && x == b.(angle := x.angle)
      && (x.angle.Some? <==> b.angle.Some?)
      && (b.angle.Some? && b.angularVelocity.Some? ==> x.angle.value - b.angle.value == b.angularVelocity.value * dt)
      && (b.angle.None? || b.angularVelocity.None? ==> x == b)
  {
  }

  /** `apply_angular_velocity`. */
  method ApplyAngularVelocity(t: Table, dt: real)
    modifies t
    ensures t.nextId == old(t.nextId)
    ensures t.bodies == MapBodies(old(t.bodies), b => IntegrateAngle(b, dt))
  {
    t.Update(b => IntegrateAngle(b, dt));
  }

  // ----------------------------------------------------------------- flyers

  predicate IsFlyer(b: Body) {
    b.flying && b.velocity.Some?
  }

  /** How much speed a flyer loses this tick: its recovery rate, or 0 without one. */
  function SpeedReduction(b: Body, dt: real): real {
    b.flyingRecoveryRate.GetOr(0.0) * dt
  }

  function FlyerNewSpeed(m: Maths, b: Body, dt: real): real
    requires IsFlyer(b)
  {
    Max(0.0, m.Length(b.velocity.value) - SpeedReduction(b, dt))
  }

  /** The speed at or below which a flyer lands: the gait's, or 0 without a gait. */
  function StandThreshold(b: Body): real {
    if b.gait.Some? then b.gait.value.standThreshold else 0.0
  }

  /** A flyer that does not levitate lands once slowed to the threshold. */
  predicate Lands(m: Maths, b: Body, dt: real) {
    IsFlyer(b) && !b.levitates && FlyerNewSpeed(m, b, dt) <= StandThreshold(b)
  }

  /** The in-place part of `manage_flyers`: the flyer slows down. */
  function FlyerStep(m: Maths, b: Body, dt: real): Body {
    if IsFlyer(b) then b.(velocity := Some(ReduceSpeed(m, b.velocity.value, SpeedReduction(b, dt)))) else b
  }

  /** A flyer keeps its direction and moving flyer takes the new speed, never
      speeding up under a non-negative recovery rate; only the velocity changes,
      and what is not a flyer is untouched. */
  lemma FlyerStepSpeed(m: Maths, b: Body, dt: real)
    requires m.Valid()
    ensures
      var x := FlyerStep(m, b, dt);
      && x == b.(velocity := x.velocity)
      && (!IsFlyer(b) ==> x == b)
      && (IsFlyer(b) ==>
            var v := b.velocity.value;
            && x.velocity.Some?
            && Cross(x.velocity.value, v) == 0.0 && Dot(x.velocity.value, v) >= 0.0
            && (m.Length(v) != 0.0 ==> m.Length(x.velocity.value) == FlyerNewSpeed(m, b, dt))
            && (m.Length(v) == 0.0 ==> x.velocity.value == v)
            && (SpeedReduction(b, dt) >= 0.0 ==> m.Length(x.velocity.value) <= m.Length(v)))
  {
    if IsFlyer(b) {
      ReduceSpeedFacts(m, b.velocity.value, SpeedReduction(b, dt));
    }
  }

  /** `manage_flyers`: every flyer slows down in place, and a landing is queued
      for each non-levitating flyer whose new speed is at most its threshold.
      Once the queue is flushed, exactly those are Grounded and no longer
      Flying. */
  method ManageFlyers(t: Table, m: Maths, dt: real) returns (os: seq<Order>)
    requires m.Valid()
    modifies t
    ensures t.nextId == old(t.nextId) && t.bodies.Keys == old(t.bodies).Keys
    ensures forall id :: id in old(t.bodies) ==> t.bodies[id] == FlyerStep(m, old(t.bodies)[id], dt)
    ensures forall o :: o in os ==> o.Land?
    ensures forall id :: id in old(t.bodies) ==> (Land(id) in os <==> Lands(m, old(t.bodies)[id], dt))
    ensures
      var after := PerformAll(Snapshot(t.bodies, t.nextId), os);
      && after.nextId == old(t.nextId) && after.bodies.Keys == old(t.bodies).Keys
      && forall id :: id in old(t.bodies) ==>
           after.bodies[id] == if Lands(m, old(t.bodies)[id], dt) then Landed(FlyerStep(m, old(t.bodies)[id], dt))
                               else FlyerStep(m, old(t.bodies)[id], dt)
  {
    ghost var start := t.bodies;
    var todo := t.bodies.Keys;
    os := [];
    while todo != {}
      invariant todo <= start.Keys && t.bodies.Keys == start.Keys
      invariant t.nextId == old(t.nextId)
      invariant forall id :: id in start ==> t.bodies[id] == if id in todo then start[id] else FlyerStep(m, start[id], dt)
      invariant forall o :: o in os ==> o.Land?
      invariant forall id :: id in start ==> (Land(id) in os <==> id !in todo && Lands(m, start[id], dt))
      decreases todo
    {
      var id :| id in todo;
      var b := t.bodies[id];
      if Lands(m, b, dt) {
        os := os + [Land(id)];
      }
      t.bodies := t.bodies[id := FlyerStep(m, b, dt)];
      todo := todo - {id};
    }
    TagOrders(Snapshot(t.bodies, t.nextId), os, true);
  }

  /** A landed flyer is on the ground and consistent. */
  lemma LandedConsistent(m: Maths, b: Body, dt: real)
    requires m.Valid() && Lands(m, b, dt)
    ensures var x := Landed(FlyerStep(m, b, dt)); x.grounded && !x.flying && Consistent(x)
    ensures FlyerNewSpeed(m, b, dt) <= StandThreshold(b)
  {
  }

  // --------------------------------------------------------------- tripping

  /** A grounded body with a gait trips when faster than its trip threshold. */
  predicate Trips(m: Maths, b: Body) {
    b.grounded && b.gait.Some? && b.velocity.Some? && m.Length(b.velocity.value) > b.gait.value.tripThreshold
  }

  /** `tripping`: queues a trip for every grounded body going too fast; once
      flushed, exactly those fly and are no longer Grounded. */
  method Tripping(bodies: map<EntityId, Body>, nextId: nat, m: Maths) returns (os: seq<Order>)
    ensures forall o :: o in os ==> o.Trip?
    ensures forall id :: id in bodies ==> (Trip(id) in os <==> Trips(m, bodies[id]))
    ensures
      var after := PerformAll(Snapshot(bodies, nextId), os);
      && after.nextId == nextId && after.bodies.Keys == bodies.Keys
      && forall id :: id in bodies ==> after.bodies[id] == if Trips(m, bodies[id]) then Tripped(bodies[id]) else bodies[id]
  {
    var todo := bodies.Keys;
    os := [];
    while todo != {}
      invariant todo <= bodies.Keys
      invariant forall o :: o in os ==> o.Trip?
      invariant forall id :: id in bodies ==> (Trip(id) in os <==> id !in todo && Trips(m, bodies[id]))
      decreases todo
    {
      var id :| id in todo;
      if Trips(m, bodies[id]) {
        os := os + [Trip(id)];
      }
      todo := todo - {id};
    }
    TagOrders(Snapshot(bodies, nextId), os, false);
  }

  /** `manage_flyers` and `tripping` are not ordered against each other; no
      consistent body both lands and trips in the same tick. */
  lemma LandAndTripExclusive(m: Maths, b: Body, dt: real)
    requires Consistent(b)
    ensures !(Lands(m, b, dt) && Trips(m, b))
  {
  }

  // ----------------------------------------------------------- gun cooldown

  /** `gun_cooldown` for one body: the timer runs down by the tick, not below 0. */
  function CoolDown(b: Body, dt: real): Body {
    if b.gun.Some? then b.(gun := Some(b.gun.value.(cooldownTimer := Max(0.0, b.gun.value.cooldownTimer - dt))))
    else b
  }

  /** Only the gun's timer changes; it is never negative afterwards, never
      above what it was when the tick is non-negative, and is exactly the
      time left when that is positive. */
  lemma CoolDownFacts(b: Body, dt: real)
    ensures
      var x := CoolDown(b, dt);
      && x == b.(gun := x.gun)
      && (x.gun.Some? <==> b.gun.Some?)
      && (b.gun.Some? ==>
            var before := b.gun.value.cooldownTimer;
            var after := x.gun.value.cooldownTimer;
            && x.gun.value == b.gun.value.(cooldownTimer := after)
            && after >= 0.0
            && (dt >= 0.0 && before >= 0.0 ==> after <= before)
            && (before - dt >= 0.0 ==> after == before - dt)
            && (before - dt < 0.0 ==> after == 0.0))
  {
  }

  /** `gun_cooldown`. */
  method GunCooldown(t: Table, dt: real)
    modifies t
    ensures t.nextId == old(t.nextId)
    ensures t.bodies == MapBodies(old(t.bodies), b => CoolDown(b, dt))
  {
    t.Update(b => CoolDown(b, dt));
  }

  /** The shooting loop also moves the timer on by the tick, so in a tick in
      which the gun does not fire, `gun_cooldown` and `shooting` together run
      the timer down by twice the tick, in either order. */
  lemma CooldownCountsTwice(gun: Gun, dt: real)
    requires dt > 0.0
    ensures Guns.Terminates(gun, false, dt)
    ensures
      var cooled := gun.(cooldownTimer := Max(0.0, gun.cooldownTimer - dt));
      && Guns.Terminates(cooled, false, dt)
      && Guns.FinalTimer(cooled, false, dt) == Max(0.0, gun.cooldownTimer - 2.0 * dt)
      && Max(0.0, Guns.FinalTimer(gun, false, dt) - dt) == Max(0.0, gun.cooldownTimer - 2.0 * dt)
  {
  }

  // --------------------------------------------------------------- shooting

  /** The player shoots with a gun and all four spatial components. */
  predicate CanShoot(b: Body) {
    && b.player && b.gun.Some? && b.velocity.Some? && b.angularVelocity.Some?
    && b.angle.Some? && b.position.Some?
  }

  /** Space held fires an automatic gun, Space pressed since the last frame a
      semi-automatic one. */
  function Shoot(gun: Gun, keys: Keys): bool {
    if gun.auto then keys.space else keys.spaceJustPressed
  }

  /** The shooter's own position, velocity, angle and angular velocity. */
  function ShooterSpatial(b: Body): Guns.Spatial
    requires CanShoot(b)
  {
    Guns.Spatial(b.position.value, b.velocity.value, b.angle.value, b.angularVelocity.value)
  }

  /** Launch velocity: the shooter's velocity, plus the projectile speed along
      the aim, plus the spread drawn from the unit disc (`draw`), which is NOT
      turned into the aim. */
  function LaunchVelocity(m: Maths, gun: Gun, s: Guns.Spatial, c: real, draw: Vec2): Vec2 {
    Add(Add(s.velocity, Scale(Guns.Aim(m, s, c), gun.projectileSpeed)),
        Scale(Mul(draw, gun.projectileSpread), gun.projectileSpeed))
  }

  /** The older launch velocity agrees with the later one exactly when the
      spread is not turned: facing along the x axis, or with no spread drawn. */
  lemma LaunchAgreesUnturned(m: Maths, gun: Gun, s: Guns.Spatial, c: real, draw: Vec2)
    requires Guns.Aim(m, s, c) == Vec2(1.0, 0.0) || Mul(draw, gun.projectileSpread) == Zero
    ensures LaunchVelocity(m, gun, s, c, draw) == Guns.LaunchVelocity(m, gun, s, c, draw)
  {
  }

  /** The velocity a projectile fired `c` into a tick of length `t` ends the
      tick with: its launch velocity, slowed by its recovery rate for the rest of the tick. */
  function FlightVelocity(m: Maths, gun: Gun, s: Guns.Spatial, c: real, t: real, draw: Vec2): Vec2 {
    ReduceSpeed(m, LaunchVelocity(m, gun, s, c, draw), gun.projectileFlyingRecoveryRate * (t - c))
  }

  /** One projectile fired `c` into a tick of length `t`: flown from the muzzle
      at its launch velocity for the rest of the tick, slowed by its recovery
      rate over that time. */
  function Projectile(m: Maths, gun: Gun, s: Guns.Spatial, c: real, t: real, draw: Vec2): Body
    requires t != 0.0
  {
    var origin := Guns.Muzzle(m, gun, s, c);
    var launch := LaunchVelocity(m, gun, s, c, draw);
    Bare.(
      position := Some(Add(origin, Scale(launch, t - c))),
      previousPosition := Some(origin),
      velocity := Some(FlightVelocity(m, gun, s, c, t, draw)),
      projectileColour := Some(gun.projectileColour),
      flying := true,
      flyingRecoveryRate := Some(gun.projectileFlyingRecoveryRate),
      tracedLine := true,
      spawnedMidTick := Some(c / t))
  }

  /** The projectile starts at the muzzle, has moved on by its launch velocity
      over the rest of the tick, flies with the gun's recovery rate, and keeps
      the fraction of the tick at which it was fired, in [0, 1] within the tick. */
  lemma ProjectileFlight(m: Maths, gun: Gun, s: Guns.Spatial, c: real, t: real, draw: Vec2)
    requires m.Valid() && t > 0.0
    ensures
      var r := Projectile(m, gun, s, c, t, draw);
      var launch := LaunchVelocity(m, gun, s, c, draw);
      && r.position.Some? && r.previousPosition == Some(Guns.Muzzle(m, gun, s, c))
      && Sub(r.position.value, r.previousPosition.value) == Scale(launch, t - c)
      && r.flying && !r.grounded && r.flyingRecoveryRate == Some(gun.projectileFlyingRecoveryRate)
      && r.velocity.Some? && Cross(r.velocity.value, launch) == 0.0 && Dot(r.velocity.value, launch) >= 0.0
      && (m.Length(launch) != 0.0 ==>
            m.Length(r.velocity.value) == Max(0.0, m.Length(launch) - gun.projectileFlyingRecoveryRate * (t - c)))
      && r.spawnedMidTick.Some? && r.spawnedMidTick.value * t == c
      && (0.0 <= c <= t ==> 0.0 <= r.spawnedMidTick.value <= 1.0)
  {
    var origin := Guns.Muzzle(m, gun, s, c);
    var launch := LaunchVelocity(m, gun, s, c, draw);
    var d := Scale(launch, t - c);
    ProjectileFields(m, gun, s, c, t, draw);
    ProjectileVelocity(m, gun, s, c, t, draw);
    FlightVelocityIs(m, gun, s, c, t, draw);
    ReduceSpeedFacts(m, launch, gun.projectileFlyingRecoveryRate * (t - c));
    assert Sub(Add(origin, d), origin) == d;
    assert (c / t) * t == c;
    if 0.0 <= c <= t {
      Guns.QuotientAtMostOne(c, t);
    }
  }

  lemma ProjectileFields(m: Maths, gun: Gun, s: Guns.Spatial, c: real, t: real, draw: Vec2)
    requires t > 0.0
    ensures
      var r := Projectile(m, gun, s, c, t, draw);
      var origin := Guns.Muzzle(m, gun, s, c);
      && r.position == Some(Add(origin, Scale(LaunchVelocity(m, gun, s, c, draw), t - c)))
      && r.previousPosition == Some(origin)
      && r.flying && !r.grounded && r.flyingRecoveryRate == Some(gun.projectileFlyingRecoveryRate)
      && r.spawnedMidTick == Some(c / t)
  {
  }

  lemma ProjectileVelocity(m: Maths, gun: Gun, s: Guns.Spatial, c: real, t: real, draw: Vec2)
    requires t != 0.0
    ensures Projectile(m, gun, s, c, t, draw).velocity == Some(FlightVelocity(m, gun, s, c, t, draw))
  {
  }

  lemma FlightVelocityIs(m: Maths, gun: Gun, s: Guns.Spatial, c: real, t: real, draw: Vec2)
    ensures FlightVelocity(m, gun, s, c, t, draw)
         == ReduceSpeed(m, LaunchVelocity(m, gun, s, c, draw), gun.projectileFlyingRecoveryRate * (t - c))
  {
  }

  /** The `projectile_count` projectiles of shot number `k`, fired at time `c`. */
  function ShotBundle(m: Maths, gun: Gun, s: Guns.Spatial, c: real, t: real, k: nat, draw: (nat, nat) -> Vec2): (r: seq<Body>)
    requires t != 0.0
    ensures |r| == gun.projectileCount
    ensures forall i :: 0 <= i < gun.projectileCount ==> r[i] == Projectile(m, gun, s, c, t, draw(k, i))
  {
    seq(gun.projectileCount, i requires 0 <= i < gun.projectileCount => Projectile(m, gun, s, c, t, draw(k, i)))
  }

  /** The spawn orders of a list of bodies. */
  function SpawnOrders(bs: seq<Body>): (r: seq<Order>)
    ensures |r| == |bs|
    ensures forall i :: 0 <= i < |bs| ==> r[i] == SpawnBody(bs[i])
  {
    seq(|bs|, i requires 0 <= i < |bs| => SpawnBody(bs[i]))
  }

  /** The spawn orders of the shots fired at `shots`, in order. */
  function Volley(m: Maths, gun: Gun, s: Guns.Spatial, t: real, shots: seq<real>, draw: (nat, nat) -> Vec2): seq<Order>
    requires t != 0.0
    decreases |shots|
  {
    if |shots| == 0 then []
    else Volley(m, gun, s, t, shots[..|shots| - 1], draw)
         + SpawnOrders(ShotBundle(m, gun, s, shots[|shots| - 1], t, |shots| - 1, draw))
  }

  /** Each shot spawns exactly `projectile_count` projectiles, and the volley is
      nothing but spawns. */
  lemma {:induction false} VolleySize(m: Maths, gun: Gun, s: Guns.Spatial, t: real, shots: seq<real>, draw: (nat, nat) -> Vec2)
    requires t != 0.0
    ensures |Volley(m, gun, s, t, shots, draw)| == |shots| * gun.projectileCount
    ensures forall j :: 0 <= j < |Volley(m, gun, s, t, shots, draw)| ==> Volley(m, gun, s, t, shots, draw)[j].SpawnBody?
    decreases |shots|
  {
    if |shots| != 0 {
      var n := |shots| - 1;
      var front := Volley(m, gun, s, t, shots[..n], draw);
      var last := SpawnOrders(ShotBundle(m, gun, s, shots[n], t, n, draw));
      VolleySize(m, gun, s, t, shots[..n], draw);
      assert Volley(m, gun, s, t, shots, draw) == front + last;
      Guns.MulSucc(n, gun.projectileCount);
    }
  }

  /** The inner loop: spawns the projectiles of one shot. */
  method SpawnShot(m: Maths, gun: Gun, s: Guns.Spatial, c: real, t: real, k: nat, draw: (nat, nat) -> Vec2)
    returns (os: seq<Order>)
    requires t != 0.0
    ensures os == SpawnOrders(ShotBundle(m, gun, s, c, t, k, draw))
  {
    os := [];
    for i := 0 to gun.projectileCount
      invariant |os| == i
      invariant forall j :: 0 <= j < i ==> os[j] == SpawnBody(Projectile(m, gun, s, c, t, draw(k, j)))
    {
      os := os + [SpawnBody(Projectile(m, gun, s, c, t, draw(k, i)))];
    }
  }

  /** Spawns the projectiles of the next shot after those already queued. */
  method AppendShot(m: Maths, gun: Gun, s: Guns.Spatial, t: real, shots: seq<real>, os: seq<Order>, c: real,
                    draw: (nat, nat) -> Vec2)
    returns (os': seq<Order>)
    requires t != 0.0
    requires os == Volley(m, gun, s, t, shots, draw)
    ensures os' == Volley(m, gun, s, t, shots + [c], draw)
  {
    var more := SpawnShot(m, gun, s, c, t, |shots|, draw);
    assert (shots + [c])[..|shots|] == shots;
    os' := os + more;
  }

  /** The firing loop of `shooting` in a tick of length `target`: it returns
      the cooldown timer it leaves, the times of the shots (the schedule of the
      later gun system) and their spawn orders. */
  method Fire(m: Maths, gun: Gun, s: Guns.Spatial, shoot0: bool, target: real, draw: (nat, nat) -> Vec2)
    returns (timer: real, shots: seq<real>, os: seq<Order>)
    requires m.Valid() && Guns.Terminates(gun, shoot0, target)
    ensures shots == Guns.ShotTimes(gun.cooldownTimer, gun.cooldown, Guns.ShotCount(gun, shoot0, target))
    ensures timer == Guns.FinalTimer(gun, shoot0, target)
    ensures target > 0.0 ==> os == Volley(m, gun, s, target, shots, draw)
    ensures target <= 0.0 ==> os == []
  {
    var current := 0.0;
    var shoot := shoot0;
    timer := gun.cooldownTimer;
    shots := [];
    os := [];
    ghost var broke := false;
    while current < target
      invariant !broke
      invariant Guns.Scheduled(gun, shoot0, target, shoot, shots, current, timer)
      invariant |shots| > 0 ==> target > 0.0 && os == Volley(m, gun, s, target, shots, draw)
      invariant |shots| == 0 ==> os == []
      decreases (if |shots| == 0 then 1 else 0),
                (if shoot && gun.cooldown > 0.0 then ((target - current) / gun.cooldown).Floor else 0)
    {
      ghost var before := current;
      ghost var timerBefore := timer;
      current, timer := Guns.ProgressTime(current, target, timer);
      if shoot && timer == 0.0 {
        Guns.Fired(gun, shoot0, target, shoot, shots, before, timerBefore, current);
        timer := gun.cooldown;
        if !gun.auto {
          shoot := false;
        }
        os := AppendShot(m, gun, s, target, shots, os, current, draw);
        shots := shots + [current];
      } else {
        broke := true;
        Guns.Stopped(gun, shoot0, target, shoot, shots, before, timerBefore, current, timer);
        break;
      }
    }
    if !broke {
      Guns.Finished(gun, shoot0, target, shoot, shots, current, timer);
    }
  }

  /** The player's gun after `shooting`: only its timer changes. */
  function ShooterAfter(b: Body, keys: Keys, dt: real): Body
    requires CanShoot(b) && Guns.Terminates(b.gun.value, Shoot(b.gun.value, keys), dt)
  {
    var gun := b.gun.value;
    b.(gun := Some(gun.(cooldownTimer := Guns.FinalTimer(gun, Shoot(gun, keys), dt))))
  }

  /** The spawn orders the player's shots queue. */
  function ShooterOrders(m: Maths, b: Body, keys: Keys, dt: real, draw: (nat, nat) -> Vec2): seq<Order>
    requires m.Valid() && CanShoot(b) && Guns.Terminates(b.gun.value, Shoot(b.gun.value, keys), dt)
  {
    var gun := b.gun.value;
    if dt <= 0.0 then []
    else Volley(m, gun, ShooterSpatial(b), dt, Guns.ShotTimes(gun.cooldownTimer, gun.cooldown, Guns.ShotCount(gun, Shoot(gun, keys), dt)), draw)
  }

  /** What the keys make the player fire: nothing without the key or in an
      empty tick, at most one shot from a semi-automatic gun, and some shot
      exactly when the key asks and the timer runs out within the tick; every
      shot spawns `projectile_count` projectiles. */
  lemma ShooterShots(m: Maths, b: Body, keys: Keys, dt: real, draw: (nat, nat) -> Vec2)
    requires m.Valid() && CanShoot(b) && Guns.Terminates(b.gun.value, Shoot(b.gun.value, keys), dt)
    ensures
      var gun := b.gun.value;
      var n := Guns.ShotCount(gun, Shoot(gun, keys), dt);
      && (n > 0 <==> (if gun.auto then keys.space else keys.spaceJustPressed) && 0.0 < dt && gun.cooldownTimer <= dt)
      && (!gun.auto ==> n <= 1)
      && |ShooterOrders(m, b, keys, dt, draw)| == n * gun.projectileCount
  {
    var gun := b.gun.value;
    var shoot := Shoot(gun, keys);
    Guns.ShotCountCases(gun, shoot, dt);
    if dt > 0.0 {
      VolleySize(m, gun, ShooterSpatial(b), dt, Guns.ShotTimes(gun.cooldownTimer, gun.cooldown, Guns.ShotCount(gun, shoot, dt)), draw);
    }
  }

  /** `shooting`: when exactly one player can shoot, its gun runs the firing
      loop over the tick, keeping the timer it leaves, and the shots' spawns
      are queued; otherwise nothing happens. */
  method Shooting(t: Table, m: Maths, keys: Keys, dt: real, draw: (nat, nat) -> Vec2) returns (os: seq<Order>)
    requires m.Valid()
    requires forall id :: id in t.bodies && CanShoot(t.bodies[id]) ==>
      Guns.Terminates(t.bodies[id].gun.value, Shoot(t.bodies[id].gun.value, keys), dt)
    modifies t
    ensures t.nextId == old(t.nextId) && t.bodies.Keys == old(t.bodies).Keys
    ensures forall id :: id in old(t.bodies) ==>
      t.bodies[id] == if Matches(old(t.bodies), CanShoot) == {id} then ShooterAfter(old(t.bodies)[id], keys, dt) else old(t.bodies)[id]
    ensures |Matches(old(t.bodies), CanShoot)| != 1 ==> os == []
    ensures forall id :: id in old(t.bodies) && Matches(old(t.bodies), CanShoot) == {id} ==>
      os == ShooterOrders(m, old(t.bodies)[id], keys, dt, draw)
  {
    os := [];
    var r := GetSingle(t.bodies, CanShoot);
    if r.Some? {
      var id := r.value;
      assert id in Matches(t.bodies, CanShoot);
      var b := t.bodies[id];
      var gun := b.gun.value;
      var timer, shots;
      timer, shots, os := Fire(m, gun, ShooterSpatial(b), Shoot(gun, keys), dt, draw);
      t.bodies := t.bodies[id := b.(gun := Some(gun.(cooldownTimer := timer)))];
    }
  }
}
