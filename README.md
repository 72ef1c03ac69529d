# shootre — a verified model of the per-tick simulation rules

shootre is a top-down shooter on the Bevy engine. Each tick, a fixed list of
systems runs over a table of entities. This project models those systems in
Dafny: the entities are records of optional components, and the rules are
functions and methods over that table. The contracts state what each rule
promises, and lemmas relate the rules to each other.

The model covers:

- the gun scheduler, which spends one tick in steps bounded by the cooldown
  timer and fires whenever the timer runs out while the trigger asks for it;
- locomotion: bounded approach of a velocity or angular velocity toward a
  target, in the entity's own frame for walking;
- the ground/air state machine: flying, regrounding, floored recovery,
  tripping, floor friction and angular friction, with its consistency check;
- collision between bodies: pair filter, effective mass, the restitution default,
  and the impulse and penetration resolution of `circle_circle` and
  `circle_aabb`, together with the shape tests;
- gore and blood: gib count, fragments, globules, capped blood transfer,
  drip timers, pooling and globule management;
- hits, health checks, death and the drops a death causes;
- the holding hierarchy (pick-up, drop and its consistency invariant);
- the resets at the start of a tick;
- the older single-file version of locomotion, flyers, tripping, the gun
  cooldown and shooting (`src/main.rs`), modelled in its own module `Legacy`.

## How the model is built

- **Numbers.** `f32` is `real`. Square root, `from_angle` and π are an oracle
  `Geometry.Maths` whose stated laws are `Valid()`: the root of a square, and
  unit length and conjugate symmetry of `from_angle`. Lengths, normalization
  and rotation are computed from it.
- **Entities.** An entity is `Components.Entity`, a record of optional
  components. `Grounded` and `Flying` are separate fields, so the invariant
  "never both" means something.
- **Deferred commands.** Bevy's deferred `Commands` are an explicit list of
  `Commands.Command`s. `Commands.ApplyCommands` flushes them in order. A spawn
  takes the table's next id; the table keeps every live id below it
  (`Worlds.World.Valid`, kept by every flush), so a spawn never overwrites a
  live entity.
- **In-place systems.** A system that writes components in place is a method
  on the `Worlds.World` class (`modifies w`). It is proved against a per-entity
  step function: `w.entities == MapEntities(old(w.entities), step)`.
- **Command-only systems.** A system that only queues commands or events reads
  the table and returns them.
- **Iteration order.** Where order matters (collision pairs, pick-up
  candidates, blood pools, event lists), the query order is an explicit
  sequence parameter.
- **Random draws.** Each draw is a function parameter. Where a contract needs
  the draw's range, that range is stated.
- **`Legacy` module.** `src/main.rs` is an older snapshot with its own
  components. `Legacy` therefore has its own `Body` record, `Order` queue and
  `Table` class.
  - Its single-player systems use Bevy's `get_single_mut`. They act on a body
    only when exactly one body matches the query (see `Legacy.GetSingle`).
  - The textually identical helpers `proper_signum`, `locomotion_handle_axis`
    and `progress_time_with_cooldown_interrupt` are not modelled twice. They
    reuse `Locomotion.ProperSignum`, `Locomotion.LocomotionHandleAxis` and
    `Guns.ProgressTime`.
- **Discrepancies.** Where the source evidently does not do what its authors
  intended (see Findings), the affected rule is built once and parameterised.
  The gibbing and blood-loss systems take a `Gore.Version`: `AsWritten`
  follows the source line by line, and `Corrected` is the intended behaviour.
  `circle_aabb` is `CollisionResolution.CircleAabbWith`, given the deep
  contact; `CircleAabbAsWritten` and `CircleAabb` instantiate it. Each
  lemma about a system holds for both versions unless it names one.

## Model

| member | source | states |
|---|---|---|
| Commands.SpawnIsFresh | src/systems/guns.rs:151-163 | with every live id below the next id, a spawn adds one new entity holding its bundle and leaves every existing entity as it was |
| Commands.ApplyCommandsKeepIssued | src/systems/gore.rs:91-121 | flushing any command queue keeps every live id below the next id, and never moves the next id back |
| CollisionDetection.CircleCircleSquared | src/util/collision_detection.rs:3-6 | two circles overlap exactly when the radius sum is non-negative and the squared centre distance is at most the squared radius sum |
| CollisionDetection.CircleCircleSymmetric | src/util/collision_detection.rs:3-6 | the overlap test does not depend on the order of the two circles |
| CollisionDetection.CircleAabbFacts | src/util/collision_detection.rs:8-25 | the test point is the circle centre clamped into the box; a centre inside the box with a non-negative radius always collides |
| CollisionDetection.CirclePointIsCircleCircle | src/util/collision_detection.rs:27-30 | the point test is the circle test with a second circle of radius 0 |
| CollisionDetection.LineCircleIntersection | src/util/collision_detection.rs:32-56 | no result for a degenerate line; otherwise no result exactly when the discriminant is negative; the two parameters come in order |
| CollisionDetection.LineCircleIntersectionOnCircle | src/util/collision_detection.rs:39-55 | both returned parameters give points of the line that lie exactly on the circle |
| CollisionDetection.PointOnLineDistance | src/util/collision_detection.rs:39-45 | the squared distance from the circle centre to the point at parameter t is the quadratic a·t²+b·t+c plus r², with the source's coefficients |
| CollisionResolution.MovementShares | src/util/collision_resolution.rs:13-15 | the two movement shares sum to 1 and are inversely proportional to the masses |
| CollisionResolution.Separation | src/util/collision_resolution.rs:16-19 | the position changes conserve mass-weighted displacement, and their difference is the separating distance against the normal |
| CollisionResolution.ImpulseSpeeds | src/util/collision_resolution.rs:24-26 | the two impulse speeds sum to (restitution + 1) times the impact speed and are in inverse mass ratio |
| CollisionResolution.CircleImpulse | src/util/collision_resolution.rs:21-33 | momentum is conserved; no change while the bodies separate; along a unit normal the approach speed afterwards is minus the lower restitution times the one before |
| CollisionResolution.BoxImpulse | src/util/collision_resolution.rs:63-76 | the same laws for the box impulse, with the sign of the impact speed flipped as the source does |
| CollisionResolution.CentreNormal | src/util/collision_resolution.rs:10-11 | the normal is a unit vector, and the centre difference is that normal times the centre distance |
| CollisionResolution.CircleCircle | src/util/collision_resolution.rs:3-34 | position and velocity changes both conserve momentum; afterwards the circles just touch; the impulse law holds along the centre normal |
| CollisionResolution.ShallowIffOutside | src/util/collision_resolution.rs:45-51 | the shallow branch is taken exactly when the circle centre lies outside the box |
| CollisionResolution.ContactIsCentreIffInside | src/util/collision_resolution.rs:45-51 | the clamped contact point equals the centre exactly when the centre is inside the box |
| CollisionResolution.DeepContact | src/util/collision_resolution.rs:86-95 | the corrected deep contact direction is always a unit axis vector |
| CollisionResolution.DeepContactCases | src/util/collision_resolution.rs:86-95 | the deep branch picks the axis of smaller overlap and pushes toward the nearer side, with the depth measured to that side |
| CollisionResolution.DeepContactPushesOut | src/util/collision_resolution.rs:86-103 | separating by radius + depth along the deep direction puts the circle just outside the nearer box side |
| CollisionResolution.MidOffsetValue | src/util/collision_resolution.rs:78-80 | the offset from the box centre is the centre minus the corner minus half the extent |
| CollisionResolution.OverlapsValue | src/util/collision_resolution.rs:79-84 | the overlaps are half the extent minus the absolute offset, per axis |
| CollisionResolution.CircleAabbWith | src/util/collision_resolution.rs:36-120 | whichever deep contact it is given, the box resolution conserves momentum in both its position and its velocity changes |
| CollisionResolution.CircleAabbAsWritten | src/util/collision_resolution.rs:36-120 | `circle_aabb` as written: momentum is conserved in both branches; along a non-zero contact normal the box impulse law holds, and a zero normal (the deep branch's zero x direction) changes nothing |
| CollisionResolution.DeepContactAsWrittenAxis | src/util/collision_resolution.rs:86-95 | the as-written deep direction is zero or a unit axis vector |
| CollisionResolution.CircleAabbAsWrittenNormal | src/util/collision_resolution.rs:51-119 | with the as-written deep contact, a zero normal changes nothing and a non-zero one obeys the box impulse law |
| CollisionResolution.CircleAabb | src/util/collision_resolution.rs:36-120 | `circle_aabb` with the corrected deep direction (see Findings): momentum is conserved in both branches, and the box impulse law holds along the contact normal |
| CollisionResolution.CircleAabbWithDeep | src/util/collision_resolution.rs:77-119 | in the deep branch the relative position moves by radius + depth against the deep direction; a zero direction changes nothing |
| CollisionResolution.CircleAabbWithImpulse | src/util/collision_resolution.rs:105-118 | along a unit deep direction the box impulse law holds |
| CollisionResolution.CircleAabbShallowTouching | src/util/collision_resolution.rs:51-76 | in the shallow branch the contact point ends exactly one radius from the circle centre |
| CollisionResolution.CircleAabbDeepPushesOut | src/util/collision_resolution.rs:77-119 | with the corrected direction a circle whose centre is inside the box is pushed just outside the nearer side |
| CollisionResolution.CircleAabbWithPushesOut | src/util/collision_resolution.rs:77-119 | the same push-out, stated for the parameterised resolution |
| CollisionResolution.CircleAabbAsWrittenStuck | src/util/collision_resolution.rs:89-91 | as written, a circle centred in the right half of the box with the x overlap smaller is not moved and gets no impulse |
| CollisionResolution.CircleAabbAsWrittenExample | src/util/collision_resolution.rs:89-91 | as written, a unit circle at (9, 5) inside a 10×10 box at the origin gets no change at all |
| Physics.CombinationsExact | src/systems/physics.rs:9-26 | the pair enumeration holds every pair i < j of the query order, only those, and n(n−1)/2 of them |
| Physics.ChildrenMassFacts | src/systems/physics.rs:34-40 | children without a Mass add nothing, and children of non-negative mass never make the sum negative |
| Physics.EffectiveMassFacts | src/systems/physics.rs:31-62 | no Mass gives 0; with only massless children it is the own Mass; with non-negative children it is at least the own Mass |
| Physics.ResolvePairEffect | src/systems/physics.rs:27-81 | a pair that fails the filter is left alone; a resolving pair gets the resolver's velocities and nothing else in the table changes |
| Physics.ResolvePairVelocityOnly | src/systems/physics.rs:77-80 | resolving a pair changes only velocities |
| Physics.ResolvePairSolidOnly | src/systems/physics.rs:27-29 | an entity that is not a solid body is never changed by a pair |
| Physics.CollisionPassVelocityOnly | src/systems/physics.rs:9-82 | the whole collision pass changes only velocities and keeps the entity set |
| Physics.CollisionPassSolidOnly | src/systems/physics.rs:9-82 | the whole pass leaves every non-solid entity unchanged |
| Physics.Collision | src/systems/physics.rs:5-83 | the system's new table is the collision pass over all pairs of the query order |
| Physics.IntegrateFrame | src/systems/physics.rs:85-92 | integration changes only the position, and only with a velocity |
| Physics.IntegrateDisplacement | src/systems/physics.rs:89-91 | the position moves by velocity times the tick; a zero tick changes nothing |
| Physics.ApplyVelocity | src/systems/physics.rs:85-92 | every entity is integrated in place |
| Physics.IntegrateAngleFrame | src/systems/physics.rs:94-101 | angle integration changes only the angle, and only with an angular velocity |
| Physics.IntegrateAngleTurn | src/systems/physics.rs:98-100 | the angle moves by angular velocity times the tick; a zero tick changes nothing |
| Physics.ApplyAngularVelocity | src/systems/physics.rs:94-101 | every entity's angle is integrated in place |
| Physics.ManageFlyers | src/systems/physics.rs:130-186 | every flyer is slowed in place, and the queued commands reground exactly the flyers that qualify, and only those |
| Physics.FlyerStepFrame | src/systems/physics.rs:150-161 | only the velocity of a flyer changes; a non-flyer is untouched |
| Physics.FlyerStepSpeed | src/systems/physics.rs:150-161 | the new speed is max(0, old − rate·dt) with the default rate when absent; the direction is kept |
| Physics.RegroundEffect | src/systems/physics.rs:163-184 | a qualifying flyer stops flying and becomes floored with the gait's recovery timer; levitators and non-flyers are never regrounded |
| Physics.ManageFlyersConsistent | src/systems/physics.rs:163-184 | slowing and regrounding keep "never grounded and flying, standing only without a timer" |
| Physics.RegroundKeepsConsistent | src/systems/physics.rs:163-184 | the reground edits keep the ground invariant on any entity with the same ground state |
| Physics.RecoverTimer | src/systems/physics.rs:192-202 | a running timer shrinks by the tick while positive; a timer that runs out is cleared and the entity stands; no timer means no change |
| Physics.RecoverConsistent | src/systems/physics.rs:192-202 | recovery keeps "standing implies no timer" |
| Physics.FlooredStepFrame | src/systems/physics.rs:188-203 | only the Grounded component changes, and only with a timer |
| Physics.FlooredStepConsistent | src/systems/physics.rs:188-203 | the floored recovery step keeps the ground invariant |
| Physics.ManageFlooreds | src/systems/physics.rs:188-203 | every entity's Grounded is stepped in place |
| Physics.Signum | src/systems/physics.rs:232 | `f32::signum` on non-NaN input: −1 below zero, 1 otherwise |
| Physics.AngularFrictionFacts | src/systems/physics.rs:209-233 | the magnitude drops by friction·dt but not below 0, the sign never flips, it never grows, and only the angular velocity changes |
| Physics.AngularFriction | src/systems/physics.rs:205-234 | every entity's angular velocity gets the friction step in place |
| Physics.FloorFrictionFrame | src/systems/physics.rs:240-254 | only the velocity of a floored entity changes; standing or ungrounded entities are untouched |
| Physics.FloorFrictionSpeed | src/systems/physics.rs:241-252 | the new speed is max(0, old − friction·dt) with the default friction when absent; the direction is kept |
| Physics.FloorFriction | src/systems/physics.rs:236-255 | every entity gets the floor friction step in place |
| Physics.RecoveryBeforeFriction | src/systems/physics.rs:192-241 | once the floored timer runs out this tick, floor friction no longer slows the entity |
| Physics.Tripping | src/systems/physics.rs:257-273 | the queued commands trip exactly the grounded entities that are too fast |
| Physics.TrippingOutcome | src/systems/physics.rs:261-272 | a tripped entity flies and loses Grounded; others are unchanged; the ground invariant is kept |
| Physics.CheckConsistentGroundedFlyingState | src/systems/physics.rs:114-128 | the check passes exactly when no entity is both grounded and flying and no standing entity has a timer |
| Locomotion.ProperSignum | src/systems/locomotion.rs:5-13 | 1 above zero, −1 below, exactly 0 at 0; multiplying by it gives the absolute value |
| Locomotion.LocomotionHandleAxis | src/systems/locomotion.rs:15-21 | with positive acceleration it never exceeds the target, otherwise it never drops below it; the result is the target or one acceleration step |
| Locomotion.HandleAxisApproach | src/systems/locomotion.rs:15-21 | accelerating toward the target it lands between current and target, moving at most \|a\|·dt |
| Locomotion.HandleAxisZeroAcceleration | src/systems/locomotion.rs:15-21 | with zero acceleration it jumps to a target above and stays put otherwise |
| Locomotion.WalkGaitValues | src/systems/locomotion.rs:39-54 | levitating or standing entities use the standing speed and acceleration; floored ones use the floored values |
| Locomotion.WalkDirection | src/systems/locomotion.rs:66-72 | the acceleration direction has the sign of the velocity difference on each axis |
| Locomotion.RelativeWalkApproach | src/systems/locomotion.rs:66-76 | on each axis the relative velocity lands between its old value and the target |
| Locomotion.AxisApproach | src/systems/locomotion.rs:73-76 | an axis accelerated by a share that points toward the target lands between current and target |
| Locomotion.EntityFrameRoundTrip | src/systems/locomotion.rs:63-78 | rotating into the entity frame and back (either way round) is the identity |
| Locomotion.WalkStepFrame | src/systems/locomotion.rs:34-79 | walking changes only the velocity, skips entities neither grounded nor levitating, and keeps the velocity's presence |
| Locomotion.WalkInEntityFrame | src/systems/locomotion.rs:56-78 | in the entity frame the new velocity is the relative walk toward the will's target times the max speed |
| Locomotion.WalkAtTargetUnchanged | src/systems/locomotion.rs:66-78 | an entity already at its target relative velocity is unchanged |
| Locomotion.WalkApproach | src/systems/locomotion.rs:34-79 | in the entity frame each axis of the velocity moves toward the target without overshoot |
| Locomotion.Walking | src/systems/locomotion.rs:23-80 | every entity takes its walking step in place |
| Locomotion.TurnApproach | src/systems/locomotion.rs:96-104 | the angular velocity moves toward the will's target without overshoot, by at most acceleration·dt, and stays at the target |
| Locomotion.TurnAxis | src/systems/locomotion.rs:98-103 | acceleration times the proper sign of the gap approaches any target without overshoot |
| Locomotion.TurnStepFrame | src/systems/locomotion.rs:96-104 | turning changes only the angular velocity and skips entities neither grounded nor levitating |
| Locomotion.Turning | src/systems/locomotion.rs:82-105 | every entity takes its turning step in place |
| Gore.AreaRadiusRoundTrip | src/systems/gore.rs:10-16 | area and radius conversions are inverse for non-negative arguments |
| Gore.SaturatingU32 | src/systems/gore.rs:46-48 | the saturating cast is 0 for non-positive input, u32::MAX at or above it, and the floor in between |
| Gore.GibCount | src/systems/gore.rs:46-48 | the gib count lies between 2 and MAX_GIBS_PER_GIBBING + 2 |
| Gore.GibCountShape | src/systems/gore.rs:46-48 | an impact at most the threshold gives 2 gibs, at least 1.25 thresholds gives the maximum, and the count grows with the impact |
| Gore.Settle | src/systems/gore.rs:130-137 | a spawned piece is floored exactly when its speed is at most the threshold, and flying otherwise |
| Gore.Fragments | src/systems/gore.rs:92-143 | `gib` spawns exactly `gib_count` fragments, in either version |
| Gore.FragmentShares | src/systems/gore.rs:106-121 | the corrected fragment takes an n-th of the blood, of the area and of the mass, keeps the restitution and is a gib |
| Gore.FragmentOfShares | src/systems/gore.rs:106-143 | in either version a fragment takes an n-th of the blood and of the area and is a gib; as written with a restitution its Mass is the restitution, otherwise the mass share; only the corrected one keeps the restitution |
| Gore.FragmentsElements | src/systems/gore.rs:92-143 | fragment by fragment, the blood, area and mass shares of either version |
| Gore.FragmentsConserve | src/systems/gore.rs:92-143 | in either version the fragments' blood and area sum to the originals; corrected they keep the restitution, as written none has one |
| Gore.FragmentsMass | src/systems/gore.rs:106-143 | corrected, the fragments' masses sum to the original mass |
| Gore.FragmentsMassAsWritten | src/systems/gore.rs:138-143 | as written, with a restitution the fragments weigh gib_count times the restitution |
| Gore.FragmentsAgree | src/systems/gore.rs:138-143 | without a restitution the source builds exactly the corrected fragments |
| Gore.FragmentGroundState | src/systems/gore.rs:130-137 | in either version a fragment is floored iff its speed is at most DEFAULT_REGROUND_THRESHOLD, flying otherwise, and consistent |
| Gore.Gib | src/systems/gore.rs:76-145 | in either version the commands despawn the source, then spawn that version's fragments in order |
| Gore.FragmentMassAsWritten | src/systems/gore.rs:138-143 | as written, with a restitution the fragment's Mass is the restitution and no Restitution is inserted |
| Gore.Gibbing | src/systems/gore.rs:23-74 | in either version the system's commands are the gib commands for each event in order; `AsWritten` is the source's system |
| Gore.GibVelocitySpread | src/systems/gore.rs:58-93 | in either version each fragment's velocity is the entity's velocity plus its draw, so a draw from the disc of radius 1.05 times the entity's speed keeps it within that distance of the entity's velocity |
| Gore.GibEventShape | src/systems/gore.rs:36-73 | in either version each event despawns its entity and then spawns between 2 and MAX_GIBS_PER_GIBBING + 2 gibs |
| Gore.Globules | src/systems/gore.rs:161-197 | exactly `globule_count` globules are made |
| Gore.SpawnBloodGlobules | src/systems/gore.rs:151-207 | the commands spawn the globules in order |
| Gore.GlobuleFacts | src/systems/gore.rs:161-205 | a globule holds a share of the blood, its collider area is that share, and it is flying exactly when it moves |
| Gore.GlobulesConserve | src/systems/gore.rs:161-197 | the globules' blood sums to the amount spilled |
| Gore.BloodTransfer | src/systems/gore.rs:211-213 | the transfer is at most the request and the amount, never takes the amount below the minimum, and is non-negative exactly when all inputs allow |
| Gore.BleedConserves | src/systems/gore.rs:248-318 | skipped bleeders are unchanged; the amount never drops below the minimum; the blood lost is exactly the drip or pour; never both |
| Gore.BleedTimer | src/systems/gore.rs:268-295 | a running timer ticks down; a reset timer is drip_time times the draw (times the smear factor when smearing), and then amount_to_drip is leak_rate × timer |
| Gore.DripFollowsLeakRate | src/systems/gore.rs:272-294 | the corrected drip transfers the amount_to_drip set at the last reset |
| Gore.DripAsWrittenExample | src/systems/gore.rs:272-294 | as written, a bleeder with leak rate 1 and amount_to_drip 1 drips only leak_rate·dt = 0.1 in a tick of 0.1; corrected it drips 1 |
| Gore.FirstPool | src/systems/gore.rs:305-313 | a pool found is in the query and is a same-colour pool within the closeness threshold |
| Gore.FirstPoolIsFirst | src/systems/gore.rs:305-313 | no pool is found only when none qualifies, and the one found is the first that qualifies |
| Gore.FindPool | src/systems/gore.rs:304-313 | the search loop finds the first qualifying pool |
| Gore.BleedIntoEffect | src/systems/gore.rs:296-317 | in either version a drip spawns a pool; a pour grows the first qualifying pool by exactly the amount, or spawns one of that area; nothing else changes |
| Gore.BloodLossFold | src/systems/gore.rs:248-318 | in either version, bleeding every entity in query order keeps the entity set |
| Gore.BleedOne | src/systems/gore.rs:248-318 | in either version, one bleeder's visit updates the table in place and returns its commands |
| Gore.BloodLoss | src/systems/gore.rs:241-319 | in either version the system is the fold of the bleeding step over the query order; `AsWritten` drips leak_rate·dt as the source does |
| Gore.GlobuleOutcome | src/systems/gore.rs:325-335 | an empty globule is despawned; a grounded one becomes a pool of its amount; otherwise its collider area becomes its amount |
| Gore.ManageGlobules | src/systems/gore.rs:321-337 | colliders are rewritten in place and the commands are the globule commands in query order |
| Damage.WoundTransfer | src/systems/damage.rs:58-65 | a wound transfers at most WOUND_BLOOD_LOSS_MAXIMUM, the blood loss and the amount, never below the minimum |
| Damage.HitsVelocity | src/systems/damage.rs:39-45 | with a Mass the velocity gains the sum of applied forces over the mass; without one it is unchanged |
| Damage.HitsImpact | src/systems/damage.rs:39-45 | with a Mass the total impact gains the sum of all hits' force lengths; without one it is unchanged |
| Damage.HitsGib | src/systems/damage.rs:46-50 | the entity gibs exactly when some single hit reaches the gib force threshold |
| Damage.HitsHealth | src/systems/damage.rs:53-55 | health drops by exactly the sum of the hits' damage |
| Damage.HitsBlood | src/systems/damage.rs:57-76 | the blood lost equals the blood in the spawned globules, and the amount stays above the minimum |
| Damage.DeathsPairGibs | src/systems/damage.rs:79-88 | every Gibbing event comes with a Death for the same entity, and process_hits sends no other Death |
| Damage.AbsorbHitStep | src/systems/damage.rs:39-77 | one pass of the hit loop body computes the specified hit state |
| Damage.AbsorbHitsLoop | src/systems/damage.rs:39-77 | the hit loop computes the fold of all hits |
| Damage.TakeHits | src/systems/damage.rs:26-89 | one entity's visit gives the specified entity and report |
| Damage.ProcessHits | src/systems/damage.rs:12-90 | every hit entity is updated in place, and the spawns, gib events and deaths are the per-entity reports in query order |
| Damage.CheckHealth | src/systems/damage.rs:92-101 | the deaths are the health deaths in query order |
| Damage.HealthDeathsExactly | src/systems/damage.rs:92-101 | a Death is sent exactly for each queried entity that is not dead and has health ≤ 0, once each |
| Damage.FindHeldChildren | src/systems/damage.rs:120-126 | the loop collects the held children |
| Damage.Dying | src/systems/damage.rs:103-128 | dying entities are floored in place; the commands mark them dead; the drop events are the held children of each |
| Damage.DeathCommandsEffect | src/systems/damage.rs:112-114 | flushing marks exactly the dying entities not alive and dead |
| Damage.DyingOutcome | src/systems/damage.rs:111-119 | a dying entity ends dead, not alive, and floored without a timer if grounded; others are unchanged |
| Damage.DropEventsExactly | src/systems/damage.rs:111-127 | a Dropping event is sent exactly for the held children of the dying entities |
| Damage.HeldChildrenExactly | src/systems/damage.rs:120-126 | the held children are exactly the children that have HoldingInfo |
| Guns.ProgressTime | src/systems/guns.rs:6-12 | current + cooldown is preserved; current stops at the target or the timer at 0; the timer runs out iff it fits in the remaining time; with a non-negative timer nothing overshoots |
| Guns.ShotTimes | src/systems/guns.rs:120-127 | the k-th shot happens at the initial timer plus k cooldowns |
| Guns.ProjectileWhen | src/systems/guns.rs:161 | `SpawnedMidTick.when` is the shot time over the tick, and lies in [0, 1] for a shot within the tick |
| Guns.ProjectileFlight | src/systems/guns.rs:132-153 | the projectile starts at the muzzle and travels by its launch velocity for the rest of the tick; it flies with the gun's recovery rate |
| Guns.ProjectileSpeed | src/systems/guns.rs:143-149 | the projectile's speed decays to max(0, old − rate·remaining) with its direction kept; a zero launch speed is left alone |
| Guns.MuzzleDistance | src/systems/guns.rs:132-135 | the muzzle lies at \|muzzle_distance\| from the moving gun position |
| Guns.ShotBundle | src/systems/guns.rs:137-164 | each shot spawns exactly `projectile_count` projectiles |
| Guns.ShotBundleElements | src/systems/guns.rs:137-164 | the i-th projectile of a shot is built with the i-th spread draw |
| Guns.VolleySize | src/systems/guns.rs:124-169 | a tick spawns shots × projectile_count entities, all spawns |
| Guns.VolleyGrow | src/systems/guns.rs:137-164 | a further shot appends its bundle to the volley |
| Guns.SpawnShot | src/systems/guns.rs:137-164 | the projectile loop's commands are the shot bundle |
| Guns.AppendShot | src/systems/guns.rs:137-164 | appending a shot's commands extends the volley by that shot |
| Guns.Fired | src/systems/guns.rs:124-131 | a shot keeps the schedule invariant, happens one cooldown after the previous, and decreases the loop measure |
| Guns.Fire | src/systems/guns.rs:119-169 | the firing loop fires exactly the scheduled shots, leaves the specified timer and spawns the volley |
| Guns.Stopped | src/systems/guns.rs:165-168 | leaving the loop early means every scheduled shot was fired |
| Guns.Finished | src/systems/guns.rs:124 | reaching the end of the tick means every scheduled shot was fired |
| Guns.ShotCountCases | src/systems/guns.rs:114-130 | no shot without the trigger or in an empty tick; a non-auto gun fires at most once; a shot happens iff the trigger asks and the timer runs out within the tick |
| Guns.ShotsWithinTick | src/systems/guns.rs:120-127 | every shot time lies in the tick, and an auto gun fires until the next shot would fall outside, unless its one shot came at the very end of the tick |
| Guns.LastMomentShot | src/systems/guns.rs:124-130 | an auto gun with a cooldown that is not positive and a timer equal to the tick fires once and the loop ends, leaving the timer at the cooldown |
| Guns.FinalTimerRemaining | src/systems/guns.rs:124-168 | the timer left is max(0, timer + shots·cooldown − tick) |
| Guns.FinalTimerAfterShot | src/systems/guns.rs:126-127 | after a shot the timer left lies between 0 and the cooldown |
| Guns.TriggerDepressed | src/systems/guns.rs:43-52 | the trigger is depressed only with a parent in the holder query that has a Will, and then exactly as the will says |
| Guns.HeldGunPlacement | src/systems/guns.rs:60-94 | a held gun lies held_distance along the holder's facing, points held_angle off it, and shares its velocities |
| Guns.LooseGunPlacement | src/systems/guns.rs:95-112 | a loose gun uses its own position, with zero defaults for missing velocities and angle |
| Guns.Triggered | src/systems/guns.rs:44-52 | the gun's trigger state is overwritten with this tick's derived state |
| Guns.GunUpdateFrame | src/systems/guns.rs:34-169 | only the gun's trigger state and cooldown timer change |
| Guns.IdleGunTimer | src/systems/guns.rs:120-168 | a gun that does not shoot has its timer run down to max(0, timer − dt) by the loop alone |
| Guns.FireGun | src/systems/guns.rs:34-169 | one gun's visit gives the specified entity and commands |
| Guns.GunSystem | src/systems/guns.rs:14-171 | every gun is updated in place and the commands are each gun's volley in query order |
| Hierarchy.CheckConsistentHierarchy | src/systems/hierarchy.rs:111-156 | the check passes exactly when the four hierarchy clauses hold for every entity |
| Hierarchy.Dropping | src/systems/hierarchy.rs:4-69 | the commands are the drop commands for each dropping holder in query order |
| Hierarchy.DropEditsApply | src/systems/hierarchy.rs:24-61 | the drop edits place the child at the holder's placement |
| Hierarchy.DroppedChild | src/systems/hierarchy.rs:24-61 | a dropped child loses its relationship and gets the holder's rotated position, velocity, angle + held_angle and angular velocity; it is grounded (standing iff it has a gait) at low speed and flying otherwise |
| Hierarchy.DropChildEffect | src/systems/hierarchy.rs:20-66 | flushing a drop detaches the child from the holder and applies the drop edits; nothing else changes |
| Hierarchy.DropKeepsConsistency | src/systems/hierarchy.rs:20-66 | dropping a held child keeps the hierarchy invariant |
| Hierarchy.Reached | src/systems/hierarchy.rs:86-105 | a candidate found is holdable, unparented and within the pick-up range |
| Hierarchy.ReachedIsFirst | src/systems/hierarchy.rs:86-105 | nothing is found only when no candidate is in reach, and the one found is the first in query order |
| Hierarchy.FindCandidate | src/systems/hierarchy.rs:86-105 | the candidate loop with its `break` finds the first candidate in reach |
| Hierarchy.PickingUp | src/systems/hierarchy.rs:71-108 | the commands are the pick-up commands of each willing, childless holder in query order |
| Hierarchy.PushChildEffect | src/systems/hierarchy.rs:89 | `push_children` detaches the child from any old parent and appends it to the holder |
| Hierarchy.PickUpEffect | src/systems/hierarchy.rs:89-103 | the picked-up child is attached, held at the given distance and angle 0, and stripped of spatial and ground state; nothing else changes |
| Hierarchy.PickUpEditsApply | src/systems/hierarchy.rs:90-103 | the pick-up edits give the held placement |
| Hierarchy.PickUpKeepsConsistency | src/systems/hierarchy.rs:86-105 | a holder without a parent of its own picking up a holdable childless entity keeps the hierarchy invariant |
| Hierarchy.SamePickUpTwice | src/systems/hierarchy.rs:88-89 | two holders picking up one entity in a tick leave it held by the second only, consistently |
| PreUpdate.StorePositionFacts | src/systems/pre_update.rs:4-8 | where both exist, the previous position becomes the position; nothing else changes |
| PreUpdate.StorePositionIdempotent | src/systems/pre_update.rs:4-8 | storing twice is storing once |
| PreUpdate.StoredPositionTrails | src/systems/pre_update.rs:4-8 | stored before integration, the previous position is one velocity step behind |
| PreUpdate.StorePreviousPosition | src/systems/pre_update.rs:4-8 | every entity stores its position in place |
| PreUpdate.StoreAngleFacts | src/systems/pre_update.rs:10-14 | where both exist, the previous angle becomes the angle; nothing else changes |
| PreUpdate.StoredAngleTrails | src/systems/pre_update.rs:10-14 | stored before integration, the previous angle is one turn behind |
| PreUpdate.StorePreviousAngle | src/systems/pre_update.rs:10-14 | every entity stores its angle in place |
| PreUpdate.StoreTriggerFacts | src/systems/pre_update.rs:16-20 | the gun remembers this frame's trigger state, and no other gun or entity field changes |
| PreUpdate.StoredTriggerEdge | src/systems/pre_update.rs:16-20 | after storing, a semi-automatic gun shoots next tick exactly on a fresh press |
| PreUpdate.StorePreviousTriggerDepressed | src/systems/pre_update.rs:16-20 | every gun stores its trigger state in place |
| PreUpdate.SpawnedMidTickEditsApply | src/systems/pre_update.rs:26-28 | the queued edit removes the marker |
| PreUpdate.RemoveSpawnedMidTick | src/systems/pre_update.rs:22-29 | once flushed, no entity carries the marker and nothing else changes |
| PreUpdate.ClearWillEditsApply | src/systems/pre_update.rs:35-38 | removing and reinserting a will gives the default will |
| PreUpdate.ClearWills | src/systems/pre_update.rs:31-39 | once flushed, every will is the default; entities without one are untouched |
| PreUpdate.ClearedWillIsIdle | src/systems/pre_update.rs:31-39 | a cleared will asks for no movement, turning, dropping, picking up or firing |
| Health.AbsorbForces | src/systems/health.rs:9-14 | the inner loop adds the sum of forces over the mass; without a Mass the velocity is unchanged |
| Health.ProcessHits | src/systems/health.rs:4-16 | every entity with hits and a velocity takes the hit step in place |
| Health.VisitHits | src/systems/health.rs:8-15 | one entity's visit gives the hit step |
| Health.HitStepFrame | src/systems/health.rs:8-15 | only the velocity changes, the hits are kept, and without a Mass nothing changes |
| Health.ForceSumPermutation | src/systems/health.rs:9-14 | the sum of forces does not depend on the order of the hits |
| Health.HitOrderIrrelevant | src/systems/health.rs:9-14 | the velocity after the hits does not depend on the order they arrived in |
| Legacy.TagOrders | src/main.rs:363-383 | a queue of landings only, or trippings only, retags exactly the bodies it names |
| Legacy.GetSingle | src/main.rs:207 | `get_single_mut` finds a body exactly when exactly one matches, and that body is the match |
| Legacy.KeyDirection | src/main.rs:208-223 | no keys, or opposite keys, give zero; otherwise the direction is the unit vector along D−A, W−S |
| Legacy.WalkApproach | src/main.rs:207-248 | the player's velocity moves toward the key target in its own frame without overshoot; no keys means a zero target |
| Legacy.Walking | src/main.rs:190-249 | only the single walking player changes, by the walking step |
| Legacy.TurnApproach | src/main.rs:267-283 | the angular velocity moves toward the key target without overshoot, by at most acceleration·dt, and stays at the target |
| Legacy.TurnBodyFrame | src/main.rs:251-284 | turning changes only the angular velocity, and a body that cannot turn is unchanged |
| Legacy.TurnDirectionZero | src/main.rs:267-276 | the turning target is 0 exactly when both or neither of Comma and Period are held |
| Legacy.Turning | src/main.rs:251-284 | only the single turning player changes, by the turning step |
| Legacy.IntegrateMoves | src/main.rs:286-293 | the position moves by velocity times the tick; nothing else changes |
| Legacy.ApplyVelocity | src/main.rs:286-293 | every body is integrated in place |
| Legacy.IntegrateAngleTurns | src/main.rs:295-302 | the angle moves by angular velocity times the tick; nothing else changes |
| Legacy.ApplyAngularVelocity | src/main.rs:295-302 | every body's angle is integrated in place |
| Legacy.FlyerStepSpeed | src/main.rs:347-371 | the speed becomes max(0, old − rate·dt) with rate 0 when absent; the direction is kept; it never grows |
| Legacy.ManageFlyers | src/main.rs:329-373 | flyers are slowed in place, and a Land order is queued exactly for the non-levitating flyers slowed to the gait's stand threshold |
| Legacy.LandedConsistent | src/main.rs:356-367 | a landed body is grounded, not flying, and was slow enough |
| Legacy.Tripping | src/main.rs:375-385 | a Trip order is queued exactly for the grounded bodies faster than their gait's trip threshold |
| Legacy.LandAndTripExclusive | src/main.rs:363-383 | a consistent body never both lands and trips in one tick |
| Legacy.CoolDownFacts | src/main.rs:399-406 | only the gun's timer changes; it is never negative, never grows and is exactly the time left when positive |
| Legacy.GunCooldown | src/main.rs:399-406 | every gun's timer runs down in place |
| Legacy.CooldownCountsTwice | src/main.rs:399-441 | as written, an idle gun's timer runs down by twice the tick: once in `gun_cooldown`, once in the firing loop, in either order |
| Legacy.LaunchAgreesUnturned | src/main.rs:450-451 | the older unrotated spread agrees with the later rotated one when facing along x or with no spread |
| Legacy.ProjectileFlight | src/main.rs:443-487 | a projectile starts at the muzzle, travels for the rest of the tick, keeps its direction while its speed decays, flies, and records when in the tick it was fired |
| Legacy.ShotBundle | src/main.rs:448-488 | a shot makes exactly `projectile_count` projectiles, the i-th from the i-th draw |
| Legacy.SpawnOrders | src/main.rs:462-487 | one spawn order per projectile, in order |
| Legacy.VolleySize | src/main.rs:435-493 | a tick spawns shots × projectile_count bodies |
| Legacy.SpawnShot | src/main.rs:448-488 | the projectile loop's orders are the shot bundle |
| Legacy.AppendShot | src/main.rs:448-488 | appending a shot's orders extends the volley by that shot |
| Legacy.Fire | src/main.rs:433-493 | the older firing loop fires exactly the scheduled shots, leaves the specified timer and spawns the volley |
| Legacy.ShooterShots | src/main.rs:425-441 | a shot happens iff space is held (auto) or just pressed (otherwise) and the timer runs out within the tick; non-auto fires at most once; one tick's orders are shots × count |
| Legacy.Shooting | src/main.rs:416-495 | only the single shooting player's gun changes, and the orders are its volley; with no single player nothing happens |

## Left out

- Floating point: `f32` rounding, NaN and infinities are not modelled. Arithmetic is exact over the reals. So `normalize` of a zero vector (a NaN in the source) is only reached where the source guards it. Where the source divides by a possibly zero mass, the model requires the mass to be non-zero (the lines below).
- Square root, `from_angle` and π are an oracle with stated laws, not the library functions.
- Random draws (`rng.gen_range`, `random_in_shape::circle`, `random_vec2_circle`) are parameters. Contracts that need a draw's range state it.
- Graphics and rendering are not part of this model: `src/systems/graphics.rs`, and in `src/main.rs` `follow_player`, `update_transforms`, `hollow_flying`, `fill_grounded` and the tracer math of `rebuild_traced_shape` (src/main.rs:512-570), which is built on matrix inverses.
- Startup spawning is not part of this model: `src/systems/startup.rs`, and `spawn_camera`, `spawn_player`, `spawn_dots` and `random_vec2_circle` in `src/main.rs`.
- Keyboard polling (`src/systems/wills.rs`, and the key reads in `src/main.rs`) is not part of this model. A `Will` and the older `Keys` are inputs.
- Shape bundles, fills, strokes and display layers in spawned bundles are not modelled; they only matter for rendering.
- `_monitor_conservation` (src/systems/physics.rs:103-111) only prints and is not modelled.
- Bevy itself is modelled only as far as the systems need it: deferred commands flushed in order, events as returned lists, queries as explicit orders. System scheduling and parallelism are out of scope. `push_children` detaching the child from a previous parent is modelled. The `Commands`, `Worlds` and `Components` modules model the engine and its data, not source lines.
- The `assert!(current < target)` of the older `progress_time_with_cooldown_interrupt` (src/main.rs:410) is the precondition of `Guns.ProgressTime`. The firing loops' own guard establishes it.
- Panics on a missing component (`unwrap`, `panic!`) become preconditions where the source's invariants rule them out, or `None` results (the gun's spatial state).
- Physics.Collision: the call at src/systems/physics.rs:77-80 does not match the signature of `collision_resolution::circle_circle`, so the resolver is a parameter of the system and is not tied to `CollisionResolution.CircleCircle`.
- Physics.AngularFriction: the default floored and unfloored angular frictions are not in the modelled files, so they are parameters.
- Physics.Collision: `DEFAULT_RESTITUTION` (used at src/systems/physics.rs:68 and 74) is not in the modelled files either, so it is the parameter `defaultRestitution`.
- The hierarchy systems attach a gun with a `ParentRelationship`, while the gun and damage systems read a `HoldingInfo` that no modelled system writes. The model keeps both as independent fields, so a gun that `Hierarchy.PickingUp` attaches has no `HoldingInfo` unless it had one before.
- Damage.ProcessHits: requires a non-zero Mass where one is present, because the source would divide by zero.
- Health.ProcessHits: requires a non-zero Mass on every entity that has hits to absorb, for the same reason.
- Gore.Gibbing: requires every event's entity to have the components the source unwraps.
- Guns.GunSystem: requires every gun to have a spatial state (the source panics otherwise). It also requires the firing loop to end (`Guns.Terminates`): an automatic gun with a held trigger and a cooldown that is not positive must not have its timer run out before the end of the tick, because from that first shot on the loop fires again at every step without time advancing. A timer that runs out exactly at the end of the tick is allowed: that loop fires once and ends.
- Hierarchy.Dropping: requires the children of a dropping holder to carry a parent link, which the source unwraps.
- Hierarchy.PickUpKeepsConsistency: assumes the holder has no parent and the candidate has no children. The candidate query does not exclude either.
- Legacy.Shooting: requires the firing loop to terminate for every body the query could match, not only for the single matching player.
- Legacy.FlyerStepSpeed: rescales only when the new speed differs from the old, while src/main.rs:369-371 rescales whenever the old speed is positive. The two are equal in exact arithmetic.
- The older gun's trigger fields are carried in `Legacy` but unused there; `src/main.rs` reads the keyboard instead.
- src/main.rs `store_previous_position`, `store_previous_angle` and `remove_spawned_mid_tick` are the same as in src/systems/pre_update.rs and are modelled once there. `proper_signum`, `locomotion_handle_axis` and `progress_time_with_cooldown_interrupt` in src/main.rs are modelled once, by `Locomotion.ProperSignum`, `Locomotion.LocomotionHandleAxis` and `Guns.ProgressTime`.
- An entity without a `Children` component and one with an empty list are the same in the model.
- The gun system reads holder state from the table at the start of the system, as Bevy's shared query does.

## Findings

| source | as written | input that shows it | evidently intended | confidence | as-written member | corrected member |
|---|---|---|---|---|---|---|
| src/util/collision_resolution.rs:91 | in the deep branch the x direction is 0, not −1, when the centre is in the right half | a unit circle at (9, 5) inside a 10×10 box at the origin, with masses 1 | −1, mirroring the y axis at line 94, so the circle is pushed out of the right side | high, not executed | CollisionResolution.CircleAabbAsWrittenExample | CollisionResolution.CircleAabbDeepPushesOut |
| src/systems/gore.rs:141-143 | with a Restitution the fragment's Mass is overwritten by the restitution value | mass 10, restitution 0.5, 2 gibs: the fragments get Mass 0.5 each, 1 in all instead of 10 | insert `Restitution` with the restitution and keep Mass = mass / gib_count | high, not executed | Gore.FragmentsMassAsWritten | Gore.FragmentsMass |
| src/systems/gore.rs:273-277 | a drip transfers leak_rate·dt, ignoring amount_to_drip set at line 294 | leak_rate 1, amount 10, amount_to_drip 1, dt 0.1: 0.1 drips instead of 1 | drip amount_to_drip, so the leak follows leak_rate whatever the drip timing | medium, not executed | Gore.DripAsWrittenExample | Gore.DripFollowsLeakRate |
| src/main.rs:48-56 | `gun_cooldown` and the `shooting` loop both run the timer down in one tick | an idle gun with timer 1 and dt 0.25 ends at 0.5 | one countdown per tick, as the later src/systems/guns.rs does with the loop alone | medium, not executed | Legacy.CooldownCountsTwice | Guns.IdleGunTimer |
