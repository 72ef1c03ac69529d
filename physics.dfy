/** The physics systems: collision between bodies, integration of velocities,
    the flying/grounded state machine, friction and tripping. */
module Physics {
  import opened Geometry
  import opened Components
  import opened Commands
  import opened Worlds
  import CollisionDetection

  // ---------------------------------------------------------------- collision

  /** The pairs `(order[0], x)` for each `x` of `rest`, in order. */
  function PairsWith(a: EntityId, rest: seq<EntityId>): (r: seq<(EntityId, EntityId)>)
    ensures |r| == |rest|
    ensures forall k :: 0 <= k < |r| ==> r[k] == (a, rest[k])
  {
    if |rest| == 0 then [] else [(a, rest[0])] + PairsWith(a, rest[1..])
  }

  /** Every unordered pair of distinct positions of `order`, the earlier one
      first, in the order `iter_combinations_mut` yields them. */
  function Combinations(order: seq<EntityId>): seq<(EntityId, EntityId)>
  {
    if |order| == 0 then [] else PairsWith(order[0], order[1..]) + Combinations(order[1..])
  }

  /** `Combinations` holds exactly the pairs of an earlier and a later element,
      and there are `n (n - 1) / 2` of them. */
  lemma CombinationsExact(order: seq<EntityId>)
    ensures forall i, j :: 0 <= i < j < |order| ==> (order[i], order[j]) in Combinations(order)
    ensures forall p :: p in Combinations(order) ==> exists i, j :: 0 <= i < j < |order| && p == (order[i], order[j])
    ensures 2 * |Combinations(order)| == |order| * (|order| - 1)
  {
    CombinationsComplete(order);
    CombinationsSound(order);
    CombinationsCount(order);
  }

  lemma {:induction false} CombinationsComplete(order: seq<EntityId>)
    ensures forall i, j :: 0 <= i < j < |order| ==> (order[i], order[j]) in Combinations(order)
    decreases |order|
  {
    if |order| != 0 {
      var rest := order[1..];
      var head := PairsWith(order[0], rest);
      CombinationsComplete(rest);
      assert Combinations(order) == head + Combinations(rest);
      forall i, j | 0 <= i < j < |order|
        ensures (order[i], order[j]) in Combinations(order)
      {
        if i == 0 {
          assert head[j - 1] == (order[0], order[j]);
        } else {
          assert (rest[i - 1], rest[j - 1]) in Combinations(rest);
        }
      }
    }
  }

  lemma {:induction false} CombinationsSound(order: seq<EntityId>)
    ensures forall p :: p in Combinations(order) ==> exists i, j :: 0 <= i < j < |order| && p == (order[i], order[j])
    decreases |order|
  {
    if |order| != 0 {
      var rest := order[1..];
      var head := PairsWith(order[0], rest);
      CombinationsSound(rest);
      assert Combinations(order) == head + Combinations(rest);
      forall p | p in Combinations(order)
        ensures exists i, j :: 0 <= i < j < |order| && p == (order[i], order[j])
      {
        if p in head {
          var k :| 0 <= k < |head| && head[k] == p;
          assert p == (order[0], order[k + 1]);
        } else {
          assert p in Combinations(rest);
          var i, j :| 0 <= i < j < |rest| && p == (rest[i], rest[j]);
          assert p == (order[i + 1], order[j + 1]);
        }
      }
    }
  }

  lemma {:induction false} CombinationsCount(order: seq<EntityId>)
    ensures 2 * |Combinations(order)| == |order| * (|order| - 1)
    decreases |order|
  {
    if |order| != 0 {
      CombinationsCount(order[1..]);
      assert |Combinations(order)| == |order| - 1 + |Combinations(order[1..])|;
      PairCountStep(|order|);
    }
  }

  lemma PairCountStep(n: int)
    ensures (n - 1) * (n - 2) + (n - 1) + (n - 1) == n * (n - 1)
  {
    assert (n - 1) * (n - 2) + (n - 1) * 2 == (n - 1) * n;
  }

  /** The resolver the collision system calls on an overlapping pair: position,
      velocity, mass and restitution of each body in, the two new velocities out. */
  type Resolver = (Vec2, Vec2, real, real, Vec2, Vec2, real, real) -> (Vec2, Vec2)

  /** An entity the collision query visits: it has a Collider, a Position and a Velocity. */
  predicate IsBody(e: Entity) {
    e.collider.Some? && e.position.Some? && e.velocity.Some?
  }

  /** The total Mass of the listed children that exist and have one. */
  function ChildrenMass(entities: map<EntityId, Entity>, children: seq<EntityId>): real
    decreases |children|
  {
    if |children| == 0 then 0.0
    else
      (if children[0] in entities && entities[children[0]].mass.Some? then entities[children[0]].mass.value else 0.0)
      + ChildrenMass(entities, children[1..])
  }

  /** A body's mass in a collision: its own Mass plus its children's, or 0 without a Mass. */
  function EffectiveMass(entities: map<EntityId, Entity>, e: Entity): real {
    if e.mass.None? then 0.0 else e.mass.value + ChildrenMass(entities, e.children)
  }

  /** Children without a Mass add nothing, and children of non-negative mass
      never make the sum negative. */
  lemma {:induction false} ChildrenMassFacts(entities: map<EntityId, Entity>, children: seq<EntityId>)
    ensures (forall k :: 0 <= k < |children| ==> children[k] !in entities || entities[children[k]].mass.None?)
            ==> ChildrenMass(entities, children) == 0.0
    ensures (forall k :: 0 <= k < |children| && children[k] in entities && entities[children[k]].mass.Some?
               ==> entities[children[k]].mass.value >= 0.0)
            ==> ChildrenMass(entities, children) >= 0.0
    decreases |children|
  {
    if |children| != 0 {
      ChildrenMassFacts(entities, children[1..]);
      assert forall k :: 0 <= k < |children| - 1 ==> children[1..][k] == children[k + 1];
    }
  }

  /** The effective mass is 0 without a Mass, is the own Mass when no child has
      one, and is at least the own Mass when the children's masses are non-negative. */
  lemma EffectiveMassFacts(entities: map<EntityId, Entity>, e: Entity)
    ensures e.mass.None? ==> EffectiveMass(entities, e) == 0.0
    ensures e.mass.Some? && (forall k :: 0 <= k < |e.children| ==> e.children[k] !in entities || entities[e.children[k]].mass.None?)
            ==> EffectiveMass(entities, e) == e.mass.value
    ensures e.mass.Some? && (forall k :: 0 <= k < |e.children| && e.children[k] in entities && entities[e.children[k]].mass.Some?
                               ==> entities[e.children[k]].mass.value >= 0.0)
            ==> EffectiveMass(entities, e) >= e.mass.value
  {
    ChildrenMassFacts(entities, e.children);
  }

  /** The restitution the collision system uses: the component's, or
      `DEFAULT_RESTITUTION`, which is given as `defaultRestitution`. */
  function RestitutionOf(e: Entity, defaultRestitution: real): real {
    e.restitution.GetOr(defaultRestitution)
  }

  /** The collision system resolves a pair when both are bodies with solid
      colliders, the circles overlap and both effective masses are nonzero. */
  predicate Resolves(m: Maths, entities: map<EntityId, Entity>, a: EntityId, b: EntityId) {
    && a in entities && b in entities
    && IsBody(entities[a]) && IsBody(entities[b])
    && entities[a].collider.value.solid && entities[b].collider.value.solid
    && CollisionDetection.CircleCircle(m, entities[a].collider.value.radius, entities[a].position.value,
                                       entities[b].collider.value.radius, entities[b].position.value)
    && EffectiveMass(entities, entities[a]) != 0.0
    && EffectiveMass(entities, entities[b]) != 0.0
  }

  /** The velocities the resolver gives a resolved pair. */
  function ResolvedVelocities(resolve: Resolver, defaultRestitution: real, entities: map<EntityId, Entity>, a: EntityId, b: EntityId): (Vec2, Vec2)
    requires a in entities && b in entities && IsBody(entities[a]) && IsBody(entities[b])
  {
    var ea := entities[a];
    var eb := entities[b];
    resolve(ea.position.value, ea.velocity.value, EffectiveMass(entities, ea), RestitutionOf(ea, defaultRestitution),
            eb.position.value, eb.velocity.value, EffectiveMass(entities, eb), RestitutionOf(eb, defaultRestitution))
  }

  /** One iteration of the collision loop. */
  function ResolvePair(m: Maths, resolve: Resolver, defaultRestitution: real, entities: map<EntityId, Entity>, a: EntityId, b: EntityId): map<EntityId, Entity> {
    if !Resolves(m, entities, a, b) then entities
    else
      var (va, vb) := ResolvedVelocities(resolve, defaultRestitution, entities, a, b);
      entities[a := entities[a].(velocity := Some(va))][b := entities[b].(velocity := Some(vb))]
  }

  /** A pair is left alone unless it resolves; a resolved pair of two entities
      gets the resolver's velocities, and nothing else in the table changes. */
  lemma ResolvePairEffect(m: Maths, resolve: Resolver, defaultRestitution: real, entities: map<EntityId, Entity>, a: EntityId, b: EntityId)
    ensures !Resolves(m, entities, a, b) ==> ResolvePair(m, resolve, defaultRestitution, entities, a, b) == entities
    ensures Resolves(m, entities, a, b) && a != b ==>
      var r := ResolvePair(m, resolve, defaultRestitution, entities, a, b);
      var (va, vb) := ResolvedVelocities(resolve, defaultRestitution, entities, a, b);
      && r.Keys == entities.Keys
      && r[a] == entities[a].(velocity := Some(va))
      && r[b] == entities[b].(velocity := Some(vb))
      && (forall id :: id in entities && id != a && id != b ==> r[id] == entities[id])
  {
  }

  /** One iteration changes at most velocities, ... */
  lemma ResolvePairVelocityOnly(m: Maths, resolve: Resolver, defaultRestitution: real, entities: map<EntityId, Entity>, a: EntityId, b: EntityId)
    ensures
      var r := ResolvePair(m, resolve, defaultRestitution, entities, a, b);
      && r.Keys == entities.Keys
      && (forall id :: id in entities ==> r[id] == entities[id].(velocity := r[id].velocity))
  {
    var r := ResolvePair(m, resolve, defaultRestitution, entities, a, b);
    if Resolves(m, entities, a, b) {
      forall id | id in entities
        ensures r[id] == entities[id].(velocity := r[id].velocity)
      {
        if id == b {
        } else if id == a {
        } else {
        }
      }
    }
  }

  /** ... and only those of solid bodies. */
  lemma ResolvePairSolidOnly(m: Maths, resolve: Resolver, defaultRestitution: real, entities: map<EntityId, Entity>, a: EntityId, b: EntityId)
    ensures
      var r := ResolvePair(m, resolve, defaultRestitution, entities, a, b);
      forall id :: id in entities && !(IsBody(entities[id]) && entities[id].collider.value.solid) ==> r[id] == entities[id]
  {
  }

  /** The collision loop over a sequence of pairs, each seeing the velocities
      the earlier ones produced. */
  function CollisionPass(m: Maths, resolve: Resolver, defaultRestitution: real, entities: map<EntityId, Entity>, pairs: seq<(EntityId, EntityId)>): map<EntityId, Entity>
    decreases |pairs|
  {
    if |pairs| == 0 then entities
    else CollisionPass(m, resolve, defaultRestitution, ResolvePair(m, resolve, defaultRestitution, entities, pairs[0].0, pairs[0].1), pairs[1..])
  }

  /** The collision system changes only velocities, ... */
  lemma {:induction false} CollisionPassVelocityOnly(m: Maths, resolve: Resolver, defaultRestitution: real, entities: map<EntityId, Entity>, pairs: seq<(EntityId, EntityId)>)
    ensures
      var r := CollisionPass(m, resolve, defaultRestitution, entities, pairs);
      && r.Keys == entities.Keys
      && (forall id :: id in entities ==> r[id] == entities[id].(velocity := r[id].velocity))
    decreases |pairs|
  {
    if |pairs| != 0 {
      var next := ResolvePair(m, resolve, defaultRestitution, entities, pairs[0].0, pairs[0].1);
      ResolvePairVelocityOnly(m, resolve, defaultRestitution, entities, pairs[0].0, pairs[0].1);
      CollisionPassVelocityOnly(m, resolve, defaultRestitution, next, pairs[1..]);
      var r := CollisionPass(m, resolve, defaultRestitution, next, pairs[1..]);
      forall id | id in entities
        ensures r[id] == entities[id].(velocity := r[id].velocity)
      {
        assert next[id] == entities[id].(velocity := next[id].velocity);
      }
    }
  }

  /** ... and never touches an entity that is not a solid body. */
  lemma {:induction false} CollisionPassSolidOnly(m: Maths, resolve: Resolver, defaultRestitution: real, entities: map<EntityId, Entity>, pairs: seq<(EntityId, EntityId)>)
    ensures
      var r := CollisionPass(m, resolve, defaultRestitution, entities, pairs);
      forall id :: id in entities && !(IsBody(entities[id]) && entities[id].collider.value.solid) ==> id in r && r[id] == entities[id]
    decreases |pairs|
  {
    if |pairs| != 0 {
      var next := ResolvePair(m, resolve, defaultRestitution, entities, pairs[0].0, pairs[0].1);
      ResolvePairVelocityOnly(m, resolve, defaultRestitution, entities, pairs[0].0, pairs[0].1);
      ResolvePairSolidOnly(m, resolve, defaultRestitution, entities, pairs[0].0, pairs[0].1);
      CollisionPassSolidOnly(m, resolve, defaultRestitution, next, pairs[1..]);
    }
  }

  /** `collision`: every pair of bodies, in the query's combination order, is
      resolved against the velocities earlier pairs left. */
  method Collision(w: World, m: Maths, resolve: Resolver, defaultRestitution: real, order: seq<EntityId>)
    requires Enumerates(order, w.entities.Keys)
    modifies w
    ensures w.nextId == old(w.nextId)
    ensures w.entities == CollisionPass(m, resolve, defaultRestitution, old(w.entities), Combinations(order))
  {
    var pairs := Combinations(order);
    var k := 0;
    while k < |pairs|
      invariant 0 <= k <= |pairs|
      invariant w.nextId == old(w.nextId)
      invariant CollisionPass(m, resolve, defaultRestitution, w.entities, pairs[k..]) == CollisionPass(m, resolve, defaultRestitution, old(w.entities), pairs)
      decreases |pairs| - k
    {
      assert pairs[k..][1..] == pairs[k + 1..];
      w.entities := ResolvePair(m, resolve, defaultRestitution, w.entities, pairs[k].0, pairs[k].1);
      k := k + 1;
    }
  }

  // -------------------------------------------------------------- integration

  /** `apply_velocity` for one entity: the position moves by velocity times the tick length. */
  function Integrate(e: Entity, dt: real): Entity {
    if e.position.Some? && e.velocity.Some? then e.(position := Some(Add(e.position.value, Scale(e.velocity.value, dt))))
    else e
  }

  /** Only the position changes, and only with a velocity to move by. */
  lemma IntegrateFrame(e: Entity, dt: real)
    ensures Integrate(e, dt) == e.(position := Integrate(e, dt).position)
    ensures !(e.position.Some? && e.velocity.Some?) ==> Integrate(e, dt) == e
  {
    if e.position.Some? && e.velocity.Some? {
      var p := Some(Add(e.position.value, Scale(e.velocity.value, dt)));
      assert Integrate(e, dt) == e.(position := p);
    }
  }

  /** The displacement is the velocity times the tick length, and a zero-length
      tick changes nothing. */
  lemma IntegrateDisplacement(e: Entity, dt: real)
    ensures e.position.Some? && e.velocity.Some?
            ==> Sub(Integrate(e, dt).position.value, e.position.value) == Scale(e.velocity.value, dt)
    ensures dt == 0.0 ==> Integrate(e, dt) == e
  {
    if e.position.Some? && e.velocity.Some? {
      var p := e.position.value;
      var d := Scale(e.velocity.value, dt);
      assert Integrate(e, dt).position.value == Add(p, d);
      AddSubCancel(p, d);
      if dt == 0.0 {
        assert d == Zero;
        assert Add(p, d) == p;
        assert Integrate(e, dt) == e.(position := Some(p));
      }
    }
  }

  lemma AddSubCancel(p: Vec2, d: Vec2)
    ensures Sub(Add(p, d), p) == d
  {
  }

  method ApplyVelocity(w: World, dt: real)
    modifies w
    ensures w.nextId == old(w.nextId)
    ensures w.entities == MapEntities(old(w.entities), (id, e) => Integrate(e, dt))
  {
    w.Update((id, e) => Integrate(e, dt));
  }

  /** `apply_angular_velocity` for one entity: the angle moves by angular velocity times the tick length. */
  function IntegrateAngle(e: Entity, dt: real): Entity {
    if e.angle.Some? && e.angularVelocity.Some? then e.(angle := Some(e.angle.value + e.angularVelocity.value * dt))
    else e
  }

  /** Only the angle changes, and only with an angular velocity to turn by. */
  lemma IntegrateAngleFrame(e: Entity, dt: real)
    ensures IntegrateAngle(e, dt) == e.(angle := IntegrateAngle(e, dt).angle)
    ensures !(e.angle.Some? && e.angularVelocity.Some?) ==> IntegrateAngle(e, dt) == e
  {
  }

  /** The turn is the angular velocity times the tick length, and a zero-length
      tick changes nothing. */
  lemma IntegrateAngleTurn(e: Entity, dt: real)
    ensures e.angle.Some? && e.angularVelocity.Some?
            ==> IntegrateAngle(e, dt).angle.value - e.angle.value == e.angularVelocity.value * dt
    ensures dt == 0.0 ==> IntegrateAngle(e, dt) == e
  {
    if e.angle.Some? && e.angularVelocity.Some? {
      var a := e.angle.value;
      var d := e.angularVelocity.value * dt;
      assert IntegrateAngle(e, dt).angle.value == a + d;
      if dt == 0.0 {
        assert d == 0.0;
        assert IntegrateAngle(e, dt) == e.(angle := Some(a));
      }
    }
  }

  method ApplyAngularVelocity(w: World, dt: real)
    modifies w
    ensures w.nextId == old(w.nextId)
    ensures w.entities == MapEntities(old(w.entities), (id, e) => IntegrateAngle(e, dt))
  {
    w.Update((id, e) => IntegrateAngle(e, dt));
  }

  // ------------------------------------------------------- ground / air state

  /** An entity `manage_flyers` visits: Flying, with a Velocity. */
  predicate IsFlyer(e: Entity) {
    e.flying && e.velocity.Some?
  }

  function FlyingSpeedReduction(e: Entity, dt: real): real {
    e.flyingRecoveryRate.GetOr(DEFAULT_FLYING_RECOVERY_RATE) * dt
  }

  /** The flyer's speed after this tick's air drag. */
  function FlyerNewSpeed(m: Maths, e: Entity, dt: real): real
    requires e.velocity.Some?
  {
    Max(0.0, m.Length(e.velocity.value) - FlyingSpeedReduction(e, dt))
  }

  /** The in-place part of `manage_flyers`: the flyer's speed decays. */
  function FlyerStep(m: Maths, e: Entity, dt: real): Entity {
    if IsFlyer(e) then e.(velocity := Some(ReduceSpeed(m, e.velocity.value, FlyingSpeedReduction(e, dt)))) else e
  }

  /** What a floored flyer lands as: not standing, with its gait's recovery time on the timer. */
  function Landed(e: Entity): Grounded {
    Grounded(false, if e.gait.Some? then Some(e.gait.value.flooredRecoveryTime) else None)
  }

  /** Whether a flyer settles this tick: it does not levitate and its decayed
      speed is at most its reground threshold. */
  predicate Regrounds(m: Maths, e: Entity, dt: real) {
    && IsFlyer(e) && !e.levitates
    && FlyerNewSpeed(m, e, dt) <= e.regroundThreshold.GetOr(DEFAULT_REGROUND_THRESHOLD)
  }

  /** The commands `manage_flyers` queues for one entity: swap Flying for Grounded. */
  function RegroundEdits(m: Maths, e: Entity, dt: real): seq<Edit> {
    if Regrounds(m, e, dt) then [SetFlying(false), SetGrounded(Some(Landed(e)))] else []
  }

  /** `manage_flyers`. */
  method ManageFlyers(w: World, m: Maths, dt: real) returns (cs: seq<Command>)
    requires m.Valid()
    modifies w
    ensures w.nextId == old(w.nextId)
    ensures w.entities == MapEntities(old(w.entities), (id, e) => FlyerStep(m, e, dt))
    ensures EditsOnly(cs, w.entities.Keys)
    ensures ApplyCommands(Store(w.entities, w.nextId), cs)
         == Store(EditEntities(w.entities, old(w.entities), (id, e) => RegroundEdits(m, e, dt)), w.nextId)
  {
    cs := w.RunLocal((id, e) => FlyerStep(m, e, dt), (id, e) => RegroundEdits(m, e, dt));
  }

  /** The in-place part touches only a flyer's velocity. */
  lemma FlyerStepFrame(m: Maths, e: Entity, dt: real)
    ensures
      var x := FlyerStep(m, e, dt);
      && x == e.(velocity := x.velocity)
      && (!IsFlyer(e) ==> x == e)
  {
  }

  /** A flyer's speed decays by its recovery rate times the tick length, never
      below 0, with its direction kept. */
  lemma FlyerStepSpeed(m: Maths, e: Entity, dt: real)
    requires m.Valid() && IsFlyer(e)
    ensures
      var v := FlyerStep(m, e, dt).velocity;
      && v.Some?
      && (m.Length(e.velocity.value) != 0.0 ==> m.Length(v.value) == FlyerNewSpeed(m, e, dt))
      && Cross(v.value, e.velocity.value) == 0.0
      && Dot(v.value, e.velocity.value) >= 0.0
  {
    ReduceSpeedFacts(m, e.velocity.value, FlyingSpeedReduction(e, dt));
  }

  /** The queued commands swap Flying for Grounded, not standing and with the
      gait's recovery time on the timer, exactly when the flyer regrounds, which
      a levitator or an entity that is not a flyer never does; otherwise they
      change nothing. */
  lemma RegroundEffect(m: Maths, e: Entity, dt: real, x: Entity)
    ensures Regrounds(m, e, dt) ==> ApplyEdits(x, RegroundEdits(m, e, dt)) == x.(flying := false, grounded := Some(Landed(e)))
    ensures !Regrounds(m, e, dt) ==> ApplyEdits(x, RegroundEdits(m, e, dt)) == x
    ensures e.levitates || !IsFlyer(e) ==> !Regrounds(m, e, dt)
  {
    if Regrounds(m, e, dt) {
      SwapFlyingGrounded(x, false, Some(Landed(e)));
    }
  }

  /** `manage_flyers` with its commands flushed keeps the ground-state invariant. */
  lemma ManageFlyersConsistent(m: Maths, e: Entity, dt: real)
    requires m.Valid() && GroundConsistent(e)
    ensures GroundConsistent(ApplyEdits(FlyerStep(m, e, dt), RegroundEdits(m, e, dt)))
  {
    var x := FlyerStep(m, e, dt);
    FlyerStepFrame(m, e, dt);
    RegroundKeepsConsistent(m, e, dt, x);
  }

  lemma RegroundKeepsConsistent(m: Maths, e: Entity, dt: real, x: Entity)
    requires GroundConsistent(e) && x.flying == e.flying && x.grounded == e.grounded
    ensures GroundConsistent(ApplyEdits(x, RegroundEdits(m, e, dt)))
  {
    RegroundEffect(m, e, dt, x);
  }

  /** The floored recovery timer of one Grounded component counts down, and
      once it reaches 0 it is cleared and the entity stands. */
  function Recover(g: Grounded, dt: real): Grounded {
    if g.flooredRecoveryTimer.Some? then
      var timer := Max(0.0, g.flooredRecoveryTimer.value - dt);
      if timer > 0.0 then g.(flooredRecoveryTimer := Some(timer))
      else Grounded(true, None)
    else g
  }

  /** A timer still running stays positive and shrinks by the tick length,
      leaving `standing` alone; a cleared timer means the time was up and the
      entity stands; without a timer nothing changes. */
  lemma RecoverTimer(g: Grounded, dt: real)
    ensures g.flooredRecoveryTimer.None? ==> Recover(g, dt) == g
    ensures g.flooredRecoveryTimer.Some? ==>
      var t := g.flooredRecoveryTimer.value;
      var r := Recover(g, dt);
      && (r.flooredRecoveryTimer.Some? <==> t - dt > 0.0)
      && (r.flooredRecoveryTimer.Some? ==> r.flooredRecoveryTimer.value == t - dt && r.standing == g.standing)
      && (r.flooredRecoveryTimer.None? ==> r.standing)
  {
  }

  /** A standing entity never has a timer running, before or after. */
  lemma RecoverConsistent(g: Grounded, dt: real)
    requires g.standing ==> g.flooredRecoveryTimer.None?
    ensures Recover(g, dt).standing ==> Recover(g, dt).flooredRecoveryTimer.None?
  {
  }

  /** `manage_flooreds` for one entity: its Grounded component recovers. */
  function FlooredStep(e: Entity, dt: real): Entity {
    if e.grounded.Some? then e.(grounded := Some(Recover(e.grounded.value, dt))) else e
  }

  /** Only the Grounded component changes, and only with a timer. */
  lemma FlooredStepFrame(e: Entity, dt: real)
    ensures
      var r := FlooredStep(e, dt);
      && r == e.(grounded := r.grounded)
      && (e.grounded.Some? <==> r.grounded.Some?)
      && (e.grounded.None? || e.grounded.value.flooredRecoveryTimer.None? ==> r == e)
  {
    if e.grounded.Some? {
      var r := FlooredStep(e, dt);
      assert r.grounded == Some(Recover(e.grounded.value, dt));
      if e.grounded.value.flooredRecoveryTimer.None? {
        RecoverTimer(e.grounded.value, dt);
        assert r == e.(grounded := Some(e.grounded.value));
      }
    }
  }

  /** `manage_flooreds` keeps the ground-state invariant. */
  lemma FlooredStepConsistent(e: Entity, dt: real)
    requires GroundConsistent(e)
    ensures GroundConsistent(FlooredStep(e, dt))
  {
    if e.grounded.Some? {
      RecoverConsistent(e.grounded.value, dt);
    }
  }

  method ManageFlooreds(w: World, dt: real)
    modifies w
    ensures w.nextId == old(w.nextId)
    ensures w.entities == MapEntities(old(w.entities), (id, e) => FlooredStep(e, dt))
  {
    w.Update((id, e) => FlooredStep(e, dt));
  }

  // ----------------------------------------------------------------- friction

  /** `f32::signum`, which gives 1 for 0. */
  function Signum(x: real): (r: real)
    ensures x < 0.0 ==> r == -1.0
    ensures x >= 0.0 ==> r == 1.0
  {
    if x < 0.0 then -1.0 else 1.0
  }

  /** Whether angular friction treats the entity as floored: not Grounded, or not standing. */
  predicate AngularFloored(e: Entity) {
    e.grounded.None? || !e.grounded.value.standing
  }

  /** The angular friction the entity is subject to, with the defaults for absent components. */
  function AngularFrictionOf(e: Entity, defaultFloored: real, defaultUnfloored: real): real {
    if AngularFloored(e) then e.flooredAngularFriction.GetOr(defaultFloored)
    else e.unflooredAngularFriction.GetOr(defaultUnfloored)
  }

  /** `angular_friction` for one entity. */
  function AngularFrictionStep(e: Entity, dt: real, defaultFloored: real, defaultUnfloored: real): Entity {
    if e.angularVelocity.None? then e
    else
      var w := e.angularVelocity.value;
      var friction := AngularFrictionOf(e, defaultFloored, defaultUnfloored);
      e.(angularVelocity := Some(Signum(w) * Max(0.0, Abs(w) - friction * dt)))
  }

  /** The magnitude of the angular velocity drops by friction times the tick
      length, never below 0; its sign never flips; with non-negative friction it
      never grows and 0 stays 0; nothing else changes. */
  lemma AngularFrictionFacts(e: Entity, dt: real, defaultFloored: real, defaultUnfloored: real)
    requires e.angularVelocity.Some?
    ensures
      var r := AngularFrictionStep(e, dt, defaultFloored, defaultUnfloored);
      var w := e.angularVelocity.value;
      var f := AngularFrictionOf(e, defaultFloored, defaultUnfloored) * dt;
      && r == e.(angularVelocity := r.angularVelocity)
      && r.angularVelocity.Some?
      && Abs(r.angularVelocity.value) == Max(0.0, Abs(w) - f)
      && (w > 0.0 ==> r.angularVelocity.value >= 0.0)
      && (w < 0.0 ==> r.angularVelocity.value <= 0.0)
      && (f >= 0.0 ==> Abs(r.angularVelocity.value) <= Abs(w))
      && (f >= 0.0 && w == 0.0 ==> r.angularVelocity.value == 0.0)
  {
  }

  method AngularFriction(w: World, dt: real, defaultFloored: real, defaultUnfloored: real)
    modifies w
    ensures w.nextId == old(w.nextId)
    ensures w.entities == MapEntities(old(w.entities), (id, e) => AngularFrictionStep(e, dt, defaultFloored, defaultUnfloored))
  {
    w.Update((id, e) => AngularFrictionStep(e, dt, defaultFloored, defaultUnfloored));
  }

  /** `floor_friction` for one entity: a Grounded entity that is not standing slows down. */
  function FloorFrictionStep(m: Maths, e: Entity, dt: real): Entity {
    if e.grounded.Some? && !e.grounded.value.standing && e.velocity.Some? then
      e.(velocity := Some(ReduceSpeed(m, e.velocity.value, e.floorFriction.GetOr(DEFAULT_FLOOR_FRICTION) * dt)))
    else e
  }

  /** Floor friction acts only on an entity that is Grounded and not standing,
      and changes nothing but its velocity. */
  lemma FloorFrictionFrame(m: Maths, e: Entity, dt: real)
    requires m.Valid()
    ensures
      var r := FloorFrictionStep(m, e, dt);
      && r == e.(velocity := r.velocity)
      && (e.grounded.None? || e.grounded.value.standing || e.velocity.None? ==> r == e)
  {
  }

  /** There its speed drops by the friction times the tick length, never below
      0 and keeping its direction. */
  lemma FloorFrictionSpeed(m: Maths, e: Entity, dt: real)
    requires m.Valid()
    requires e.grounded.Some? && !e.grounded.value.standing && e.velocity.Some?
    ensures
      var r := FloorFrictionStep(m, e, dt);
      var v := e.velocity.value;
      && r.velocity.Some?
            && (m.Length(v) != 0.0 ==> m.Length(r.velocity.value) == Max(0.0, m.Length(v) - e.floorFriction.GetOr(DEFAULT_FLOOR_FRICTION) * dt))
      && Cross(r.velocity.value, v) == 0.0 && Dot(r.velocity.value, v) >= 0.0
  {
    FloorFrictionVelocity(m, e, dt);
    ReduceSpeedFacts(m, e.velocity.value, e.floorFriction.GetOr(DEFAULT_FLOOR_FRICTION) * dt);
  }

  lemma FloorFrictionVelocity(m: Maths, e: Entity, dt: real)
    requires e.grounded.Some? && !e.grounded.value.standing && e.velocity.Some?
    ensures FloorFrictionStep(m, e, dt).velocity.Some?
    ensures FloorFrictionStep(m, e, dt).velocity.value
         == ReduceSpeed(m, e.velocity.value, e.floorFriction.GetOr(DEFAULT_FLOOR_FRICTION) * dt)
  {
  }

  method FloorFriction(w: World, m: Maths, dt: real)
    requires m.Valid()
    modifies w
    ensures w.nextId == old(w.nextId)
    ensures w.entities == MapEntities(old(w.entities), (id, e) => FloorFrictionStep(m, e, dt))
  {
    w.Update((id, e) => FloorFrictionStep(m, e, dt));
  }

  /** A floored entity whose recovery timer runs out this tick stands, so the
      floor friction that follows in the same tick leaves it alone. */
  lemma RecoveryBeforeFriction(m: Maths, e: Entity, dt: real)
    requires m.Valid()
    requires e.grounded.Some? && e.grounded.value.flooredRecoveryTimer.Some?
    requires e.grounded.value.flooredRecoveryTimer.value <= dt
    ensures FloorFrictionStep(m, FlooredStep(e, dt), dt) == FlooredStep(e, dt)
  {
  }

  // ----------------------------------------------------------------- tripping

  /** Whether a Grounded entity trips: its speed exceeds its trip threshold. */
  predicate Trips(m: Maths, e: Entity) {
    && e.grounded.Some? && e.velocity.Some?
    && m.Length(e.velocity.value) > e.tripThreshold.GetOr(DEFAULT_TRIP_THRESHOLD)
  }

  /** The commands `tripping` queues for one entity: swap Grounded for Flying. */
  function TripEdits(m: Maths, e: Entity): seq<Edit> {
    if Trips(m, e) then [SetGrounded(None), SetFlying(true)] else []
  }

  /** `tripping`: reads every entity and queues the swaps. */
  method Tripping(entities: map<EntityId, Entity>, nextId: nat, m: Maths) returns (cs: seq<Command>)
    ensures EditsOnly(cs, entities.Keys)
    ensures ApplyCommands(Store(entities, nextId), cs) == Store(EditEntities(entities, entities, (id, e) => TripEdits(m, e)), nextId)
  {
    cs := QueueEdits(entities, nextId, (id, e) => TripEdits(m, e));
  }

  /** Once its commands are flushed, an entity that trips is Flying and no longer
      Grounded, whatever its standing state; any other entity is unchanged; the
      ground-state invariant is kept. */
  lemma TrippingOutcome(m: Maths, e: Entity)
    ensures
      var r := ApplyEdits(e, TripEdits(m, e));
      && r == e.(grounded := r.grounded, flying := r.flying)
      && (Trips(m, e) ==> r.flying && r.grounded.None?)
      && (!Trips(m, e) ==> r == e)
      && (GroundConsistent(e) ==> GroundConsistent(r))
  {
    if Trips(m, e) {
      ApplyTwoEdits(e, SetGrounded(None), SetFlying(true));
    }
  }

  /** `check_consistent_grounded_flying_state`, as a verdict rather than a panic. */
  method CheckConsistentGroundedFlyingState(entities: map<EntityId, Entity>) returns (ok: bool)
    ensures ok <==> forall id :: id in entities ==> GroundConsistent(entities[id])
  {
    ok := CheckAll(entities, e => GroundConsistent(e));
  }
}
