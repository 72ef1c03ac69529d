/** The resets at the start of a tick: the previous-frame copies that edge
    detection and interpolation read, and the per-tick markers and intent. */
module PreUpdate {
  import opened Geometry
  import opened Components
  import opened Commands
  import opened Worlds
  import Physics
  import Guns

  // ------------------------------------------------------ previous position

  /** `store_previous_position` for one entity: visited only with both components. */
  function StorePosition(e: Entity): Entity {
    if e.previousPosition.Some? && e.position.Some? then e.(previousPosition := e.position) else e
  }

  /** The previous position becomes the position where both exist; nothing
      else changes, and the components present stay the same. */
  lemma StorePositionFacts(e: Entity)
    ensures
      var r := StorePosition(e);
      && r == e.(previousPosition := r.previousPosition)
      && (r.previousPosition.Some? <==> e.previousPosition.Some?)
      && (e.previousPosition.Some? && e.position.Some? ==> r.previousPosition == e.position)
      && (e.previousPosition.None? || e.position.None? ==> r == e)
  {
  }

  /** Storing twice is storing once. */
  lemma StorePositionIdempotent(e: Entity)
    ensures StorePosition(StorePosition(e)) == StorePosition(e)
  {
    var r := StorePosition(e);
    assert r.position == e.position;
    if e.previousPosition.Some? && e.position.Some? {
      assert r.previousPosition == r.position;
      assert StorePosition(r) == r.(previousPosition := r.position);
    } else {
      assert r == e;
    }
  }

  /** Stored before `apply_velocity`, the previous position is one velocity
      step behind the new position. */
  lemma StoredPositionTrails(e: Entity, dt: real)
    requires e.previousPosition.Some? && e.position.Some? && e.velocity.Some?
    ensures
      var r := Physics.Integrate(StorePosition(e), dt);
      Sub(r.position.value, r.previousPosition.value) == Scale(e.velocity.value, dt)
  {
    Physics.IntegrateDisplacement(StorePosition(e), dt);
  }

  method StorePreviousPosition(w: World)
    modifies w
    ensures w.nextId == old(w.nextId)
    ensures w.entities == MapEntities(old(w.entities), (id, e) => StorePosition(e))
  {
    w.Update((id, e) => StorePosition(e));
  }

  // --------------------------------------------------------- previous angle

  /** `store_previous_angle` for one entity: visited only with both components. */
  function StoreAngle(e: Entity): Entity {
    if e.previousAngle.Some? && e.angle.Some? then e.(previousAngle := e.angle) else e
  }

  /** The previous angle becomes the angle where both exist; nothing else changes. */
  lemma StoreAngleFacts(e: Entity)
    ensures
      var r := StoreAngle(e);
      && r == e.(previousAngle := r.previousAngle)
      && (r.previousAngle.Some? <==> e.previousAngle.Some?)
      && (e.previousAngle.Some? && e.angle.Some? ==> r.previousAngle == e.angle)
      && (e.previousAngle.None? || e.angle.None? ==> r == e)
  {
  }

  /** Stored before `apply_angular_velocity`, the previous angle is one turn
      behind the new angle. */
  lemma StoredAngleTrails(e: Entity, dt: real)
    requires e.previousAngle.Some? && e.angle.Some? && e.angularVelocity.Some?
    ensures
      var r := Physics.IntegrateAngle(StoreAngle(e), dt);
      r.angle.value - r.previousAngle.value == e.angularVelocity.value * dt
  {
    Physics.IntegrateAngleTurn(StoreAngle(e), dt);
  }

  method StorePreviousAngle(w: World)
    modifies w
    ensures w.nextId == old(w.nextId)
    ensures w.entities == MapEntities(old(w.entities), (id, e) => StoreAngle(e))
  {
    w.Update((id, e) => StoreAngle(e));
  }

  // ------------------------------------------------ previous trigger state

  /** `store_previous_trigger_depressed` for one entity. */
  function StoreTrigger(e: Entity): Entity {
    if e.gun.Some? then e.(gun := Some(e.gun.value.(triggerDepressedPreviousFrame := e.gun.value.triggerDepressed)))
    else e
  }

  /** The gun remembers this frame's trigger state and nothing else about it,
      or about the entity, changes. */
  lemma StoreTriggerFacts(e: Entity)
    ensures
      var r := StoreTrigger(e);
      && r == e.(gun := r.gun)
      && (r.gun.Some? <==> e.gun.Some?)
      && (e.gun.Some? ==>
            && r.gun.value.triggerDepressedPreviousFrame == e.gun.value.triggerDepressed
            && r.gun.value == e.gun.value.(triggerDepressedPreviousFrame := r.gun.value.triggerDepressedPreviousFrame))
  {
  }

  /** Edge detection: once the trigger state is stored, a semi-automatic gun
      whose trigger is in the same state next tick does not fire, while one
      whose trigger has just been pressed does. */
  lemma StoredTriggerEdge(e: Entity, pressed: bool)
    requires e.gun.Some? && !e.gun.value.auto
    ensures
      var g := StoreTrigger(e).gun.value.(triggerDepressed := pressed);
      Guns.WantsToShoot(g) <==> pressed && !e.gun.value.triggerDepressed
  {
  }

  method StorePreviousTriggerDepressed(w: World)
    modifies w
    ensures w.nextId == old(w.nextId)
    ensures w.entities == MapEntities(old(w.entities), (id, e) => StoreTrigger(e))
  {
    w.Update((id, e) => StoreTrigger(e));
  }

  // ----------------------------------------------------- queued resets

  /** The edits `remove_spawned_mid_tick` queues for an entity. */
  function SpawnedMidTickEdits(e: Entity): seq<Edit> {
    if e.spawnedMidTick.Some? then [SetSpawnedMidTick(None)] else []
  }

  lemma SpawnedMidTickEditsApply(e: Entity)
    ensures ApplyEdits(e, SpawnedMidTickEdits(e)) == e.(spawnedMidTick := None)
  {
    if e.spawnedMidTick.Some? {
      ApplyOneEdit(e, SetSpawnedMidTick(None));
    } else {
      assert e.(spawnedMidTick := None) == e;
    }
  }

  /** `remove_spawned_mid_tick`: once flushed, no entity carries the marker and nothing else changes. */
  method RemoveSpawnedMidTick(entities: map<EntityId, Entity>, nextId: nat) returns (cs: seq<Command>)
    ensures EditsOnly(cs, entities.Keys)
    ensures
      var after := ApplyCommands(Store(entities, nextId), cs);
      && after.nextId == nextId && after.entities.Keys == entities.Keys
      && forall id :: id in entities ==> after.entities[id] == entities[id].(spawnedMidTick := None)
  {
    cs := QueueEdits(entities, nextId, (id: EntityId, e: Entity) => SpawnedMidTickEdits(e));
    var after := ApplyCommands(Store(entities, nextId), cs);
    forall id | id in entities
      ensures after.entities[id] == entities[id].(spawnedMidTick := None)
    {
      SpawnedMidTickEditsApply(entities[id]);
    }
  }

  /** The edits `clear_wills` queues for an entity: remove the will, then insert the default one. */
  function ClearWillEdits(e: Entity): seq<Edit> {
    if e.will.Some? then [SetWill(None), SetWill(Some(DefaultWill))] else []
  }

  lemma ClearWillEditsApply(e: Entity)
    ensures ApplyEdits(e, ClearWillEdits(e)) == if e.will.Some? then e.(will := Some(DefaultWill)) else e
  {
    if e.will.Some? {
      ApplyTwoEdits(e, SetWill(None), SetWill(Some(DefaultWill)));
    }
  }

  /** `clear_wills`: once flushed, every will there was is the default one;
      an entity without a will gains none, and nothing else changes. */
  method ClearWills(entities: map<EntityId, Entity>, nextId: nat) returns (cs: seq<Command>)
    ensures EditsOnly(cs, entities.Keys)
    ensures
      var after := ApplyCommands(Store(entities, nextId), cs);
      && after.nextId == nextId && after.entities.Keys == entities.Keys
      && forall id :: id in entities ==>
           after.entities[id] == if entities[id].will.Some? then entities[id].(will := Some(DefaultWill)) else entities[id]
  {
    cs := QueueEdits(entities, nextId, (id: EntityId, e: Entity) => ClearWillEdits(e));
    var after := ApplyCommands(Store(entities, nextId), cs);
    forall id | id in entities
      ensures after.entities[id] == if entities[id].will.Some? then entities[id].(will := Some(DefaultWill)) else entities[id]
    {
      ClearWillEditsApply(entities[id]);
    }
  }

  /** A cleared will asks for nothing: no movement, turning, dropping,
      picking up or firing. */
  lemma ClearedWillIsIdle(e: Entity)
    requires e.will.Some?
    ensures
      var w := ApplyEdits(e, ClearWillEdits(e)).will;
      && w.Some?
      && w.value.targetRelativeVelocityMultiplier.None? && w.value.targetAngularVelocityMultiplier.None?
      && !w.value.drop && !w.value.pickUp && !w.value.depressTrigger
  {
    ClearWillEditsApply(e);
  }
}
