/** Hits, death and the drops a death causes. */
module Damage {
  import opened Geometry
  import opened Components
  import opened Commands
  import opened Worlds
  import opened Gore

  const GLOBULE_VELOCITY_VARIATION_MULTIPLIER: real := 0.2
  const GLOBULE_SPEED: real := 100.0
  const WOUND_BLOOD_LOSS_MAXIMUM: real := 50.0
  /** The number of globules a wound spills. */
  const WOUND_GLOBULES: nat := 3

  // ------------------------------------------------------------ hit processing

  /** The accumulators and the per-entity state the hit loop updates: the
      velocity, the summed impact, whether some hit was enough to gib, the
      health and the blood, and the globule spawns queued so far. */
  datatype HitState = HitState(
    velocity: Vec2,
    totalImpact: real,
    toGib: bool,
    health: Option<Health>,
    blood: Option<ContainedBlood>,
    spawns: seq<Command>)

  /** The blood a wound of `bloodLoss` takes: a blood transfer, capped per wound. */
  function WoundTransfer(cb: ContainedBlood, bloodLoss: real): (r: real)
    ensures r <= WOUND_BLOOD_LOSS_MAXIMUM && r <= bloodLoss && r <= cb.amount
    ensures cb.amount - r >= cb.minimumAmount
    ensures r >= 0.0 <==> bloodLoss >= 0.0 && cb.amount >= 0.0 && cb.amount >= cb.minimumAmount
  {
    Min(BloodTransfer(cb.amount, cb.minimumAmount, bloodLoss), WOUND_BLOOD_LOSS_MAXIMUM)
  }

  /** The velocity globules leave a wound with: the entity's velocity, less
      `GLOBULE_SPEED` along the hit's direction. */
  function GlobuleVelocity(m: Maths, velocity: Vec2, force: Vec2): Vec2 {
    Sub(velocity, Scale(m.NormalizeOrZero(force), GLOBULE_SPEED))
  }

  /** A hit pushes an entity with a mass, if the hit applies its force. */
  function Pushed(mass: Option<real>, velocity: Vec2, hit: Hit): Vec2
    requires mass.Some? ==> mass.value != 0.0
  {
    if mass.Some? && hit.applyForce then Add(velocity, Scale(hit.force, 1.0 / mass.value)) else velocity
  }

  /** The impact of an entity with a mass grows by the hit's force magnitude. */
  function Impacted(m: Maths, mass: Option<real>, impact: real, hit: Hit): real {
    if mass.Some? then impact + m.Length(hit.force) else impact
  }

  /** A hit whose force reaches the threshold is enough to gib. */
  function EnoughToGib(m: Maths, threshold: Option<real>, toGib: bool, hit: Hit): bool {
    toGib || (threshold.Some? && m.Length(hit.force) >= threshold.value)
  }

  function Hurt(health: Option<Health>, hit: Hit): Option<Health> {
    if health.Some? then Some(Health(health.value.current - hit.damage)) else None
  }

  /** A hit with a blood loss wounds an entity that has blood. */
  predicate Bleeds(blood: Option<ContainedBlood>, hit: Hit) {
    hit.bloodLoss > 0.0 && blood.Some?
  }

  function Wounded(blood: Option<ContainedBlood>, hit: Hit): Option<ContainedBlood> {
    if Bleeds(blood, hit) then
      Some(blood.value.(amount := blood.value.amount - WoundTransfer(blood.value, hit.bloodLoss)))
    else blood
  }

  /** The globules a wound spills, launched relative to the entity's velocity
      `velocity` after the hit. */
  function Spilled(m: Maths, blood: Option<ContainedBlood>, hit: Hit, velocity: Vec2, offsets: nat -> Vec2): seq<Command>
    requires m.Valid()
  {
    if Bleeds(blood, hit) then
      SpawnCommands(Globules(m, WOUND_GLOBULES, WoundTransfer(blood.value, hit.bloodLoss), blood.value.colour,
                            hit.entryPoint, GlobuleVelocity(m, velocity, hit.force), offsets))
    else []
  }

  /** One pass of the hit loop. `mass` and `threshold` are the entity's `Mass`
      and `GibForceThreshold`; `offsets(i)` is the draw of globule `i` of this
      wound, from the disc of radius `GLOBULE_VELOCITY_VARIATION_MULTIPLIER`
      times the globule speed. */
  function AbsorbHit(m: Maths, mass: Option<real>, threshold: Option<real>, st: HitState, hit: Hit,
                     offsets: nat -> Vec2): HitState
    requires m.Valid() && (mass.Some? ==> mass.value != 0.0)
  {
    var v := Pushed(mass, st.velocity, hit);
    HitState(v, Impacted(m, mass, st.totalImpact, hit), EnoughToGib(m, threshold, st.toGib, hit),
             Hurt(st.health, hit), Wounded(st.blood, hit), st.spawns + Spilled(m, st.blood, hit, v, offsets))
  }

  /** The hit loop over `hits`, in order; `offsets(k, i)` is the draw of
      globule `i` of hit `k`. */
  function AbsorbHits(m: Maths, mass: Option<real>, threshold: Option<real>, init: HitState, hits: seq<Hit>,
                      offsets: (nat, nat) -> Vec2): HitState
    requires m.Valid() && (mass.Some? ==> mass.value != 0.0)
    decreases |hits|
  {
    if |hits| == 0 then init
    else
      var k := |hits| - 1;
      AbsorbHit(m, mass, threshold, AbsorbHits(m, mass, threshold, init, hits[..k], offsets), hits[k],
                (i: nat) => offsets(k, i))
  }

  /** The sum of the forces of the hits that apply their force. */
  function AppliedForce(hits: seq<Hit>): Vec2
    decreases |hits|
  {
    if |hits| == 0 then Zero
    else
      var k := |hits| - 1;
      var f := if hits[k].applyForce then hits[k].force else Zero;
      Add(AppliedForce(hits[..k]), f)
  }

  /** The sum of the hits' force magnitudes. */
  function Impact(m: Maths, hits: seq<Hit>): real
    decreases |hits|
  {
    if |hits| == 0 then 0.0 else Impact(m, hits[..|hits| - 1]) + m.Length(hits[|hits| - 1].force)
  }

  /** The sum of the hits' damage. */
  function TotalDamage(hits: seq<Hit>): real
    decreases |hits|
  {
    if |hits| == 0 then 0.0 else TotalDamage(hits[..|hits| - 1]) + hits[|hits| - 1].damage
  }

  /** The blood carried by the entities a queue spawns. */
  function SpawnedBlood(cs: seq<Command>): real
    decreases |cs|
  {
    if |cs| == 0 then 0.0
    else
      var c := cs[|cs| - 1];
      SpawnedBlood(cs[..|cs| - 1])
        + if c.Spawn? && c.bundle.containedBlood.Some? then c.bundle.containedBlood.value.amount else 0.0
  }

  lemma {:induction false} SpawnedBloodAppend(a: seq<Command>, b: seq<Command>)
    ensures SpawnedBlood(a + b) == SpawnedBlood(a) + SpawnedBlood(b)
    decreases |b|
  {
    if |b| == 0 {
      assert a + b == a;
    } else {
      assert (a + b)[..|a + b| - 1] == a + b[..|b| - 1];
      SpawnedBloodAppend(a, b[..|b| - 1]);
    }
  }

  lemma {:induction false} SpawnedBloodOfSpawns(gs: seq<Entity>)
    ensures SpawnedBlood(SpawnCommands(gs)) == Sum(BloodOf(gs))
    decreases |gs|
  {
    if |gs| > 0 {
      var k := |gs| - 1;
      assert SpawnCommands(gs)[..k] == SpawnCommands(gs[..k]);
      assert BloodOf(gs)[..k] == BloodOf(gs[..k]);
      SpawnedBloodOfSpawns(gs[..k]);
    }
  }

  /** The velocity gains `force / mass` for every hit that applies its force,
      and only when the entity has a mass. */
  lemma {:induction false} HitsVelocity(m: Maths, mass: Option<real>, threshold: Option<real>, init: HitState,
                                        hits: seq<Hit>, offsets: (nat, nat) -> Vec2)
    requires m.Valid() && (mass.Some? ==> mass.value != 0.0)
    ensures mass.Some? ==> AbsorbHits(m, mass, threshold, init, hits, offsets).velocity
                           == Add(init.velocity, Scale(AppliedForce(hits), 1.0 / mass.value))
    ensures mass.None? ==> AbsorbHits(m, mass, threshold, init, hits, offsets).velocity == init.velocity
    decreases |hits|
  {
    if |hits| == 0 {
      if mass.Some? {
        assert Scale(Zero, 1.0 / mass.value) == Zero;
      }
    } else {
      var k := |hits| - 1;
      HitsVelocity(m, mass, threshold, init, hits[..k], offsets);
      var st := AbsorbHits(m, mass, threshold, init, hits[..k], offsets);
      assert AbsorbHits(m, mass, threshold, init, hits, offsets).velocity == Pushed(mass, st.velocity, hits[k]);
      if mass.Some? {
        var f := if hits[k].applyForce then hits[k].force else Zero;
        AddScaled(init.velocity, AppliedForce(hits[..k]), f, 1.0 / mass.value);
      }
    }
  }

  /** The impact sums every hit's force magnitude, and only with a mass. */
  lemma {:induction false} HitsImpact(m: Maths, mass: Option<real>, threshold: Option<real>, init: HitState,
                                      hits: seq<Hit>, offsets: (nat, nat) -> Vec2)
    requires m.Valid() && (mass.Some? ==> mass.value != 0.0)
    ensures mass.Some? ==> AbsorbHits(m, mass, threshold, init, hits, offsets).totalImpact
                           == init.totalImpact + Impact(m, hits)
    ensures mass.None? ==> AbsorbHits(m, mass, threshold, init, hits, offsets).totalImpact == init.totalImpact
    decreases |hits|
  {
    if |hits| > 0 {
      var k := |hits| - 1;
      HitsImpact(m, mass, threshold, init, hits[..k], offsets);
      var st := AbsorbHits(m, mass, threshold, init, hits[..k], offsets);
      assert AbsorbHits(m, mass, threshold, init, hits, offsets).totalImpact == Impacted(m, mass, st.totalImpact, hits[k]);
    }
  }

  /** The entity is to gib exactly when some single hit's force reaches its
      threshold. */
  lemma {:induction false} HitsGib(m: Maths, mass: Option<real>, threshold: Option<real>, init: HitState,
                                   hits: seq<Hit>, offsets: (nat, nat) -> Vec2)
    requires m.Valid() && (mass.Some? ==> mass.value != 0.0)
    ensures AbsorbHits(m, mass, threshold, init, hits, offsets).toGib
        <==> init.toGib || (threshold.Some? && exists k :: 0 <= k < |hits| && m.Length(hits[k].force) >= threshold.value)
    decreases |hits|
  {
    if |hits| > 0 {
      var k := |hits| - 1;
      HitsGib(m, mass, threshold, init, hits[..k], offsets);
      assert forall j :: 0 <= j < k ==> hits[..k][j] == hits[j];
    }
  }

  /** Health falls by exactly the total damage. */
  lemma {:induction false} HitsHealth(m: Maths, mass: Option<real>, threshold: Option<real>, init: HitState,
                                      hits: seq<Hit>, offsets: (nat, nat) -> Vec2)
    requires m.Valid() && (mass.Some? ==> mass.value != 0.0)
    ensures
      var r := AbsorbHits(m, mass, threshold, init, hits, offsets);
      && r.health.Some? == init.health.Some?
      && (init.health.Some? ==> r.health.value.current == init.health.value.current - TotalDamage(hits))
    decreases |hits|
  {
    if |hits| > 0 {
      var k := |hits| - 1;
      HitsHealth(m, mass, threshold, init, hits[..k], offsets);
      var st := AbsorbHits(m, mass, threshold, init, hits[..k], offsets);
      assert AbsorbHits(m, mass, threshold, init, hits, offsets).health == Hurt(st.health, hits[k]);
    }
  }

  /** Blood leaves the entity only as the globules it spills, and never
      below its minimum. */
  lemma {:induction false} HitsBlood(m: Maths, mass: Option<real>, threshold: Option<real>, init: HitState,
                                     hits: seq<Hit>, offsets: (nat, nat) -> Vec2)
    requires m.Valid() && (mass.Some? ==> mass.value != 0.0)
    ensures
      var r := AbsorbHits(m, mass, threshold, init, hits, offsets);
      && r.blood.Some? == init.blood.Some?
      && (init.blood.Some? ==>
            && r.blood.value == init.blood.value.(amount := r.blood.value.amount)
            && init.blood.value.amount - r.blood.value.amount == SpawnedBlood(r.spawns) - SpawnedBlood(init.spawns)
            && (init.blood.value.amount >= init.blood.value.minimumAmount ==>
                  r.blood.value.amount >= init.blood.value.minimumAmount))
      && (init.blood.None? ==> r.spawns == init.spawns)
    decreases |hits|
  {
    if |hits| > 0 {
      var k := |hits| - 1;
      HitsBlood(m, mass, threshold, init, hits[..k], offsets);
      var st := AbsorbHits(m, mass, threshold, init, hits[..k], offsets);
      var hit := hits[k];
      var v := Pushed(mass, st.velocity, hit);
      var r := AbsorbHits(m, mass, threshold, init, hits, offsets);
      assert r.blood == Wounded(st.blood, hit);
      assert r.spawns == st.spawns + Spilled(m, st.blood, hit, v, (i: nat) => offsets(k, i));
      if Bleeds(st.blood, hit) {
        var cb := st.blood.value;
        var transfer := WoundTransfer(cb, hit.bloodLoss);
        var spilled := Globules(m, WOUND_GLOBULES, transfer, cb.colour, hit.entryPoint,
                                GlobuleVelocity(m, v, hit.force), (i: nat) => offsets(k, i));
        GlobulesConserve(m, WOUND_GLOBULES, transfer, cb.colour, hit.entryPoint,
                         GlobuleVelocity(m, v, hit.force), (i: nat) => offsets(k, i));
        SpawnedBloodOfSpawns(spilled);
        SpawnedBloodAppend(st.spawns, SpawnCommands(spilled));
      } else {
        assert r.spawns == st.spawns;
      }
    }
  }

  /** `process_hits` reads entities with hits and a velocity. */
  predicate IsHit(e: Entity) {
    e.hits.Some? && e.velocity.Some?
  }

  /** A mass of 0 would divide a force by zero. */
  predicate MassUsable(e: Entity) {
    e.mass.Some? ==> e.mass.value != 0.0
  }

  function StartOfHits(e: Entity): HitState
    requires IsHit(e)
  {
    HitState(e.velocity.value, 0.0, false, e.health, e.containedBlood, [])
  }

  function HitOutcome(m: Maths, id: EntityId, e: Entity, offsets: (EntityId, nat, nat) -> Vec2): HitState
    requires m.Valid() && IsHit(e) && MassUsable(e)
  {
    AbsorbHits(m, e.mass, e.gibForceThreshold, StartOfHits(e), e.hits.value, (k: nat, i: nat) => offsets(id, k, i))
  }

  /** The entity after its hits: new velocity, health and blood in place. */
  function HitEntity(m: Maths, id: EntityId, e: Entity, offsets: (EntityId, nat, nat) -> Vec2): Entity
    requires m.Valid() && MassUsable(e)
  {
    if IsHit(e) then
      var r := HitOutcome(m, id, e, offsets);
      e.(velocity := Some(r.velocity), health := r.health, containedBlood := r.blood)
    else e
  }

  /** What `process_hits` emits, entity by entity in query order: globule
      spawns, Gibbing events and Death events. */
  datatype HitReport = HitReport(spawns: seq<Command>, gibs: seq<GibEvent>, deaths: seq<EntityId>)

  function EntityReport(m: Maths, id: EntityId, e: Entity, offsets: (EntityId, nat, nat) -> Vec2): HitReport
    requires m.Valid() && MassUsable(e)
  {
    if IsHit(e) then
      var r := HitOutcome(m, id, e, offsets);
      if r.toGib then HitReport(r.spawns, [GibEvent(id, r.totalImpact)], [id]) else HitReport(r.spawns, [], [])
    else HitReport([], [], [])
  }

  function Report(m: Maths, entities: map<EntityId, Entity>, order: seq<EntityId>,
                  offsets: (EntityId, nat, nat) -> Vec2): HitReport
    requires m.Valid() && forall id :: id in order ==> id in entities && MassUsable(entities[id])
    decreases |order|
  {
    if |order| == 0 then HitReport([], [], [])
    else
      var k := |order| - 1;
      var a := Report(m, entities, order[..k], offsets);
      var b := EntityReport(m, order[k], entities[order[k]], offsets);
      HitReport(a.spawns + b.spawns, a.gibs + b.gibs, a.deaths + b.deaths)
  }

  /** In `process_hits` an entity dies exactly when it gibs: every Gibbing
      event is paired with a Death event for the same entity, and there are no
      others. */
  lemma {:induction false} DeathsPairGibs(m: Maths, entities: map<EntityId, Entity>, order: seq<EntityId>,
                                          offsets: (EntityId, nat, nat) -> Vec2)
    requires m.Valid() && forall id :: id in order ==> id in entities && MassUsable(entities[id])
    ensures
      var r := Report(m, entities, order, offsets);
      && |r.deaths| == |r.gibs|
      && forall k :: 0 <= k < |r.gibs| ==> r.deaths[k] == r.gibs[k].entity
    decreases |order|
  {
    if |order| > 0 {
      DeathsPairGibs(m, entities, order[..|order| - 1], offsets);
    }
  }

  /** One pass of the hit loop, in place on the loop's state. */
  method AbsorbHitStep(m: Maths, mass: Option<real>, threshold: Option<real>, st: HitState, hit: Hit,
                       offsets: nat -> Vec2)
    returns (st': HitState)
    requires m.Valid() && (mass.Some? ==> mass.value != 0.0)
    ensures st' == AbsorbHit(m, mass, threshold, st, hit, offsets)
  {
    var velocity, totalImpact, toGib, health, blood, spawns :=
      st.velocity, st.totalImpact, st.toGib, st.health, st.blood, st.spawns;
    if mass.Some? {
      if hit.applyForce {
        velocity := Add(velocity, Scale(hit.force, 1.0 / mass.value));
      }
      totalImpact := totalImpact + m.Length(hit.force);
    }
    assert velocity == Pushed(mass, st.velocity, hit);
    if threshold.Some? && m.Length(hit.force) >= threshold.value {
      toGib := true;
    }
    if health.Some? {
      health := Some(Health(health.value.current - hit.damage));
    }
    if hit.bloodLoss > 0.0 && blood.Some? {
      var cb := blood.value;
      var transfer := WoundTransfer(cb, hit.bloodLoss);
      var gv := GlobuleVelocity(m, velocity, hit.force);
      var more := SpawnBloodGlobules(m, WOUND_GLOBULES, m.Length(gv) * GLOBULE_VELOCITY_VARIATION_MULTIPLIER,
                                     transfer, cb.colour, hit.entryPoint, gv, offsets);
      blood := Some(cb.(amount := cb.amount - transfer));
      spawns := spawns + more;
    }
    assert blood == Wounded(st.blood, hit);
    assert spawns == st.spawns + Spilled(m, st.blood, hit, velocity, offsets);
    st' := HitState(velocity, totalImpact, toGib, health, blood, spawns);
  }

  /** The hit loop of one entity, updating its velocity, impact, gib flag,
      health and blood in place. */
  method AbsorbHitsLoop(m: Maths, mass: Option<real>, threshold: Option<real>, init: HitState, hits: seq<Hit>,
                        offsets: (nat, nat) -> Vec2)
    returns (st: HitState)
    requires m.Valid() && (mass.Some? ==> mass.value != 0.0)
    ensures st == AbsorbHits(m, mass, threshold, init, hits, offsets)
  {
    st := init;
    for k := 0 to |hits|
      invariant st == AbsorbHits(m, mass, threshold, init, hits[..k], offsets)
    {
      assert hits[..k + 1][..k] == hits[..k];
      st := AbsorbHitStep(m, mass, threshold, st, hits[k], (i: nat) => offsets(k, i));
    }
    assert hits[..|hits|] == hits;
  }

  /** One entity's turn in `process_hits`. */
  method TakeHits(m: Maths, id: EntityId, e: Entity, offsets: (EntityId, nat, nat) -> Vec2)
    returns (e': Entity, report: HitReport)
    requires m.Valid() && MassUsable(e)
    ensures e' == HitEntity(m, id, e, offsets)
    ensures report == EntityReport(m, id, e, offsets)
  {
    e', report := e, HitReport([], [], []);
    if IsHit(e) {
      var r := AbsorbHitsLoop(m, e.mass, e.gibForceThreshold, StartOfHits(e), e.hits.value,
                              (k: nat, j: nat) => offsets(id, k, j));
      e' := e.(velocity := Some(r.velocity), health := r.health, containedBlood := r.blood);
      report := HitReport(r.spawns, [], []);
      if r.toGib {
        report := HitReport(r.spawns, [GibEvent(id, r.totalImpact)], [id]);
      }
    }
  }

  /** The table once the entities in `done` have taken their hits. */
  ghost function HitsTaken(m: Maths, start: map<EntityId, Entity>, done: seq<EntityId>,
                           offsets: (EntityId, nat, nat) -> Vec2): map<EntityId, Entity>
    requires m.Valid() && forall id :: id in start ==> MassUsable(start[id])
  {
    map id | id in start :: if id in done then HitEntity(m, id, start[id], offsets) else start[id]
  }

  /** Once every entity has been visited, each one has taken its hits. */
  lemma HitsTakenAll(m: Maths, start: map<EntityId, Entity>, order: seq<EntityId>,
                     offsets: (EntityId, nat, nat) -> Vec2)
    requires m.Valid() && Enumerates(order, start.Keys)
    requires forall id :: id in start ==> MassUsable(start[id])
    ensures HitsTaken(m, start, order, offsets).Keys == start.Keys
    ensures forall id :: id in start ==> HitsTaken(m, start, order, offsets)[id] == HitEntity(m, id, start[id], offsets)
  {
  }

  lemma ProcessHitsStep(m: Maths, start: map<EntityId, Entity>, order: seq<EntityId>, i: nat,
                        offsets: (EntityId, nat, nat) -> Vec2)
    requires m.Valid() && i < |order| && Enumerates(order, start.Keys)
    requires forall id :: id in start ==> MassUsable(start[id])
    ensures HitsTaken(m, start, order[..i], offsets)[order[i]] == start[order[i]]
    ensures HitsTaken(m, start, order[..i + 1], offsets)
         == HitsTaken(m, start, order[..i], offsets)[order[i] := HitEntity(m, order[i], start[order[i]], offsets)]
    ensures
      var a := Report(m, start, order[..i], offsets);
      var b := EntityReport(m, order[i], start[order[i]], offsets);
      Report(m, start, order[..i + 1], offsets) == HitReport(a.spawns + b.spawns, a.gibs + b.gibs, a.deaths + b.deaths)
  {
    assert order[..i + 1][..i] == order[..i];
    assert forall x :: x in order[..i + 1] <==> x in order[..i] || x == order[i];
    assert order[i] !in order[..i];
  }

  /** `process_hits`: visits the entities in query order `order`; each takes
      its hits in place and may spill globules, gib and die.
      `offsets(id, k, i)` is the draw of globule `i` of hit `k` of entity `id`. */
  method ProcessHits(w: World, m: Maths, order: seq<EntityId>, offsets: (EntityId, nat, nat) -> Vec2)
    returns (spawns: seq<Command>, gibs: seq<GibEvent>, deaths: seq<EntityId>)
    requires m.Valid() && Enumerates(order, w.entities.Keys)
    requires forall id :: id in w.entities ==> MassUsable(w.entities[id])
    modifies w
    ensures w.nextId == old(w.nextId)
    ensures w.entities == MapEntities(old(w.entities), (id: EntityId, e: Entity) => if MassUsable(e) then HitEntity(m, id, e, offsets) else e)
    ensures HitReport(spawns, gibs, deaths) == Report(m, old(w.entities), order, offsets)
  {
    ghost var start := w.entities;
    spawns, gibs, deaths := [], [], [];
    for i := 0 to |order|
      invariant w.nextId == old(w.nextId)
      invariant w.entities == HitsTaken(m, start, order[..i], offsets)
      invariant HitReport(spawns, gibs, deaths) == Report(m, start, order[..i], offsets)
    {
      var id := order[i];
      ProcessHitsStep(m, start, order, i, offsets);
      var e', report := TakeHits(m, id, w.entities[id], offsets);
      w.entities := w.entities[id := e'];
      spawns, gibs, deaths := spawns + report.spawns, gibs + report.gibs, deaths + report.deaths;
    }
    assert order[..|order|] == order;
    HitsTakenAll(m, start, order, offsets);
  }

  // -------------------------------------------------------------- check_health

  /** `check_health` reads living-or-not entities that are not dead and have
      health; those at or below zero die. */
  predicate OutOfHealth(e: Entity) {
    e.health.Some? && !e.dead && e.health.value.current <= 0.0
  }

  function HealthDeaths(entities: map<EntityId, Entity>, order: seq<EntityId>): seq<EntityId>
    requires forall id :: id in order ==> id in entities
    decreases |order|
  {
    if |order| == 0 then []
    else
      var id := order[|order| - 1];
      HealthDeaths(entities, order[..|order| - 1]) + if OutOfHealth(entities[id]) then [id] else []
  }

  method CheckHealth(entities: map<EntityId, Entity>, order: seq<EntityId>) returns (deaths: seq<EntityId>)
    requires forall id :: id in order ==> id in entities
    ensures deaths == HealthDeaths(entities, order)
  {
    deaths := [];
    for i := 0 to |order|
      invariant deaths == HealthDeaths(entities, order[..i])
    {
      assert order[..i + 1][..i] == order[..i];
      if OutOfHealth(entities[order[i]]) {
        deaths := deaths + [order[i]];
      }
    }
    assert order[..|order|] == order;
  }

  /** `check_health` sends one Death event for each entity out of health, and
      no others. */
  lemma {:induction false} HealthDeathsExactly(entities: map<EntityId, Entity>, order: seq<EntityId>)
    requires forall i, j :: 0 <= i < j < |order| ==> order[i] != order[j]
    requires forall id :: id in order ==> id in entities
    ensures forall id :: id in HealthDeaths(entities, order) <==> id in order && OutOfHealth(entities[id])
    ensures forall i, j :: 0 <= i < j < |HealthDeaths(entities, order)|
              ==> HealthDeaths(entities, order)[i] != HealthDeaths(entities, order)[j]
    decreases |order|
  {
    if |order| > 0 {
      var k := |order| - 1;
      HealthDeathsExactly(entities, order[..k]);
      assert forall id :: id in order <==> id in order[..k] || id == order[k];
      assert order[k] !in order[..k];
    }
  }

  // ------------------------------------------------------------------- dying

  /** A dying entity that is on the ground is floored, with no recovery timer. */
  function Floored(e: Entity): Entity {
    if e.grounded.Some? then e.(grounded := Some(Grounded(false, None))) else e
  }

  /** The edits a death queues on the entity: no longer alive, dead. */
  const DeathEdits: seq<Edit> := [SetAlive(false), SetDead(true)]

  function DeathCommands(events: seq<EntityId>): seq<Command>
    decreases |events|
  {
    if |events| == 0 then []
    else DeathCommands(events[..|events| - 1]) + EditCommands(events[|events| - 1], DeathEdits)
  }

  /** The children of `id` that are held, each to be dropped. */
  function HeldChildren(entities: map<EntityId, Entity>, children: seq<EntityId>): seq<EntityId>
    decreases |children|
  {
    if |children| == 0 then []
    else
      var c := children[|children| - 1];
      HeldChildren(entities, children[..|children| - 1])
        + if c in entities && entities[c].holdingInfo.Some? then [c] else []
  }

  function DropEvents(entities: map<EntityId, Entity>, events: seq<EntityId>): seq<EntityId>
    decreases |events|
  {
    if |events| == 0 then []
    else
      var id := events[|events| - 1];
      DropEvents(entities, events[..|events| - 1])
        + if id in entities then HeldChildren(entities, entities[id].children) else []
  }

  /** The held children among `children`, in order. */
  method FindHeldChildren(entities: map<EntityId, Entity>, children: seq<EntityId>) returns (held: seq<EntityId>)
    ensures held == HeldChildren(entities, children)
  {
    held := [];
    for j := 0 to |children|
      invariant held == HeldChildren(entities, children[..j])
    {
      assert children[..j + 1][..j] == children[..j];
      var c := children[j];
      if c in entities && entities[c].holdingInfo.Some? {
        held := held + [c];
      }
    }
    assert children[..|children|] == children;
  }

  /** Held children depend only on which entities hold something. */
  lemma {:induction false} HeldChildrenSameHolding(a: map<EntityId, Entity>, b: map<EntityId, Entity>, children: seq<EntityId>)
    requires a.Keys == b.Keys && forall id :: id in a ==> a[id].holdingInfo == b[id].holdingInfo
    ensures HeldChildren(a, children) == HeldChildren(b, children)
    decreases |children|
  {
    if |children| > 0 {
      HeldChildrenSameHolding(a, b, children[..|children| - 1]);
    }
  }

  /** The table once the Death events in `done` have been read. */
  ghost function FlooredSoFar(start: map<EntityId, Entity>, done: seq<EntityId>): map<EntityId, Entity> {
    map id | id in start :: if id in done then Floored(start[id]) else start[id]
  }

  lemma DyingStep(start: map<EntityId, Entity>, events: seq<EntityId>, k: nat)
    requires k < |events|
    ensures events[k] in start ==>
              FlooredSoFar(start, events[..k + 1]) == FlooredSoFar(start, events[..k])[events[k] := Floored(start[events[k]])]
    ensures events[k] !in start ==> FlooredSoFar(start, events[..k + 1]) == FlooredSoFar(start, events[..k])
    ensures events[k] in start ==> FlooredSoFar(start, events[..k])[events[k]].children == start[events[k]].children
    ensures events[k] in start ==> Floored(FlooredSoFar(start, events[..k])[events[k]]) == Floored(start[events[k]])
    ensures DeathCommands(events[..k + 1]) == DeathCommands(events[..k]) + EditCommands(events[k], DeathEdits)
    ensures DropEvents(start, events[..k + 1]) == DropEvents(start, events[..k])
              + if events[k] in start then HeldChildren(start, start[events[k]].children) else []
  {
    assert events[..k + 1][..k] == events[..k];
    assert forall x :: x in events[..k + 1] <==> x in events[..k] || x == events[k];
  }

  /** `dying`: for each Death event, queues the death edits, floors the entity
      in place if it is on the ground, and sends a Dropping event for each of
      its held children. */
  method Dying(w: World, events: seq<EntityId>) returns (cs: seq<Command>, drops: seq<EntityId>)
    modifies w
    ensures w.nextId == old(w.nextId)
    ensures w.entities == MapEntities(old(w.entities), (id, e) => if id in events then Floored(e) else e)
    ensures cs == DeathCommands(events)
    ensures drops == DropEvents(old(w.entities), events)
  {
    ghost var start := w.entities;
    cs, drops := [], [];
    for k := 0 to |events|
      invariant w.nextId == old(w.nextId)
      invariant w.entities == FlooredSoFar(start, events[..k])
      invariant cs == DeathCommands(events[..k])
      invariant drops == DropEvents(start, events[..k])
    {
      var id := events[k];
      DyingStep(start, events, k);
      cs := cs + EditCommands(id, DeathEdits);
      if id in w.entities {
        HeldChildrenSameHolding(w.entities, start, start[id].children);
        var held := FindHeldChildren(w.entities, w.entities[id].children);
        drops := drops + held;
        w.entities := w.entities[id := Floored(w.entities[id])];
      }
    }
    assert events[..|events|] == events;
  }

  /** The death edits, flushed: every entity with a Death event is no longer
      alive and is dead; nothing else changes. */
  lemma {:induction false} DeathCommandsEffect(s: Store, events: seq<EntityId>)
    ensures ApplyCommands(s, DeathCommands(events))
         == Store(map id | id in s.entities :: if id in events then s.entities[id].(alive := false, dead := true)
                                               else s.entities[id], s.nextId)
    decreases |events|
  {
    if |events| == 0 {
      assert s == Store(map id | id in s.entities :: s.entities[id], s.nextId);
    } else {
      var k := |events| - 1;
      var id := events[k];
      DeathCommandsEffect(s, events[..k]);
      ApplyAppend(s, DeathCommands(events[..k]), EditCommands(id, DeathEdits));
      var mid := ApplyCommands(s, DeathCommands(events[..k]));
      ApplyEditCommands(mid, id, DeathEdits);
      if id in mid.entities {
        KillEdits(mid.entities[id]);
      }
      KilledStep(s.entities, events);
    }
  }

  /** The entity the death edits leave. */
  function Killed(e: Entity): Entity {
    e.(alive := false, dead := true)
  }

  lemma KillEdits(e: Entity)
    ensures ApplyEdits(e, DeathEdits) == Killed(e)
  {
    ApplyTwoEdits(e, SetAlive(false), SetDead(true));
  }

  /** The table with every entity named in `events` killed. */
  function KilledMap(m: map<EntityId, Entity>, events: seq<EntityId>): map<EntityId, Entity> {
    map id | id in m :: if id in events then m[id].(alive := false, dead := true) else m[id]
  }

  /** Killing the last entity of `events` extends the killings of the others. */
  lemma KilledStep(m: map<EntityId, Entity>, events: seq<EntityId>)
    requires |events| > 0
    ensures
      var k := |events| - 1;
      var before := KilledMap(m, events[..k]);
      KilledMap(m, events) == if events[k] in before then before[events[k] := Killed(before[events[k]])] else before
  {
    var k := |events| - 1;
    var id := events[k];
    var before := KilledMap(m, events[..k]);
    assert forall x :: x in events <==> x in events[..k] || x == id;
    if id in before {
      var after := before[id := Killed(before[id])];
      assert Killed(before[id]) == Killed(m[id]);
      forall x | x in m
        ensures KilledMap(m, events)[x] == after[x]
      {
      }
      assert KilledMap(m, events).Keys == after.Keys;
    } else {
      assert id !in m;
      forall x | x in m
        ensures KilledMap(m, events)[x] == before[x]
      {
      }
      assert KilledMap(m, events).Keys == before.Keys;
    }
  }

  /** After `dying` and the flush of its edits, every entity with a Death
      event is dead and not alive, is floored if on the ground, and keeps the
      ground-state invariant; every other entity is unchanged. */
  lemma DyingOutcome(entities: map<EntityId, Entity>, n: nat, events: seq<EntityId>)
    ensures
      var floored := MapEntities(entities, (id, e) => if id in events then Floored(e) else e);
      var after := ApplyCommands(Store(floored, n), DeathCommands(events));
      && after.nextId == n && after.entities.Keys == entities.Keys
      && forall id :: id in entities ==>
           if id in events then
             && !after.entities[id].alive && after.entities[id].dead
             && (entities[id].grounded.Some? ==> after.entities[id].grounded == Some(Grounded(false, None)))
             && (GroundConsistent(entities[id]) ==> GroundConsistent(after.entities[id]))
             && after.entities[id] == entities[id].(alive := false, dead := true, grounded := after.entities[id].grounded)
           else after.entities[id] == entities[id]
  {
    var floored := MapEntities(entities, (id, e) => if id in events then Floored(e) else e);
    DeathCommandsEffect(Store(floored, n), events);
  }

  /** A Dropping event is sent exactly for the held children of the dying entities. */
  lemma {:induction false} DropEventsExactly(entities: map<EntityId, Entity>, events: seq<EntityId>)
    ensures forall c :: c in DropEvents(entities, events) <==>
      c in entities && entities[c].holdingInfo.Some?
      && exists k :: 0 <= k < |events| && events[k] in entities && c in entities[events[k]].children
    decreases |events|
  {
    if |events| > 0 {
      var k := |events| - 1;
      DropEventsExactly(entities, events[..k]);
      if events[k] in entities {
        HeldChildrenExactly(entities, entities[events[k]].children);
      }
      forall c | c in DropEvents(entities, events)
        ensures exists j :: 0 <= j < |events| && events[j] in entities && c in entities[events[j]].children
      {
        if c !in DropEvents(entities, events[..k]) {
          assert events[k] in entities && c in entities[events[k]].children;
        } else {
          var j :| 0 <= j < k && events[..k][j] in entities && c in entities[events[..k][j]].children;
          assert events[j] == events[..k][j];
        }
      }
      forall c | c in entities && entities[c].holdingInfo.Some?
                 && exists j :: 0 <= j < |events| && events[j] in entities && c in entities[events[j]].children
        ensures c in DropEvents(entities, events)
      {
        var j :| 0 <= j < |events| && events[j] in entities && c in entities[events[j]].children;
        if j < k {
          assert events[..k][j] == events[j];
        }
      }
    }
  }

  lemma {:induction false} HeldChildrenExactly(entities: map<EntityId, Entity>, children: seq<EntityId>)
    ensures forall c :: c in HeldChildren(entities, children) <==>
      c in children && c in entities && entities[c].holdingInfo.Some?
    decreases |children|
  {
    if |children| > 0 {
      var k := |children| - 1;
      HeldChildrenExactly(entities, children[..k]);
      assert forall c :: c in children <==> c in children[..k] || c == children[k];
    }
  }
}
