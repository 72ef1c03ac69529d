/** The components an entity of the simulation can carry, and the defaults the
    systems fall back on when an optional component is absent.

    An entity is one record with a field per component: an `Option` for a
    component with data, a `bool` for a marker component. Field shapes follow
    the way the systems read them. */
module Components {
  import opened Geometry

  type EntityId = nat

  /** Thresholds and rates used when the matching component is absent. */
  const DEFAULT_REGROUND_THRESHOLD: real := 110.0
  const DEFAULT_TRIP_THRESHOLD: real := 120.0
  const DEFAULT_FLOOR_FRICTION: real := 500.0
  const DEFAULT_FLYING_RECOVERY_RATE: real := 1000.0

  datatype Colour = Rgba(r: real, g: real, b: real, a: real)

  /** `Color::NONE`, transparent black. */
  const NoColour := Rgba(0.0, 0.0, 0.0, 0.0)

  datatype Gait = Gait(
    standingMaxSpeed: real,
    standingAcceleration: real,
    flooredMaxSpeed: real,
    flooredAcceleration: real,
    flooredRecoveryTime: real)

  datatype AngularGait = AngularGait(maxSpeed: real, acceleration: real)

  /** What an actor wants to do this tick; filled in by input or AI. */
  datatype Will = Will(
    targetRelativeVelocityMultiplier: Option<Vec2>,
    targetAngularVelocityMultiplier: Option<real>,
    drop: bool,
    pickUp: bool,
    depressTrigger: bool)

  /** `Will::default()`. */
  const DefaultWill := Will(None, None, false, false, false)

  /** Not flying. `standing` exempts the entity from floor friction; the
      floored recovery timer counts down to standing up. */
  datatype Grounded = Grounded(standing: bool, flooredRecoveryTimer: Option<real>)

  datatype Collider = Collider(radius: real, solid: bool)

  datatype Gun = Gun(
    projectileSpeed: real,
    projectileFlyingRecoveryRate: real,
    projectileSpread: Vec2,
    projectileCount: nat,
    muzzleDistance: real,
    projectileColour: Colour,
    cooldown: real,
    auto: bool,
    cooldownTimer: real,
    triggerDepressed: bool,
    triggerDepressedPreviousFrame: bool)

  datatype Hit = Hit(entryPoint: Vec2, force: Vec2, damage: real, applyForce: bool, bloodLoss: real)

  datatype Health = Health(current: real)

  datatype ContainedBlood = ContainedBlood(
    dripTime: real,
    dripTimeMinimumMultiplier: real,
    smearDripTimeMultiplier: real,
    colour: Colour,
    minimumAmount: real,
    leakRate: real,
    amount: real,
    dripTimer: real,
    amountToDrip: real)

  datatype BloodPool = BloodPool(colour: Colour, area: real)

  datatype Holder = Holder(pickUpRange: real)

  /** How a child is attached to its parent. Only the holding kind has
      behaviour; any other kind is left alone by dropping. */
  datatype ParentRelationship = HeldBy(heldDistance: real, heldAngle: real) | OtherRelationship

  /** The holding offsets read by the gun system. The hierarchy systems write
      a `ParentRelationship` when they pick a gun up, while the gun and damage
      systems read a `HoldingInfo` that no modelled system writes. The two are
      independent fields here, so a gun that `picking_up` attaches carries no
      `HoldingInfo` unless it already had one, and the gun system then finds
      no placement for it. */
  datatype HoldingInfo = HoldingInfo(heldDistance: real, heldAngle: real)

  datatype Entity = Entity(
    position: Option<Vec2>,
    previousPosition: Option<Vec2>,
    velocity: Option<Vec2>,
    angle: Option<real>,
    previousAngle: Option<real>,
    angularVelocity: Option<real>,
    gait: Option<Gait>,
    angularGait: Option<AngularGait>,
    will: Option<Will>,
    grounded: Option<Grounded>,
    flying: bool,
    levitates: bool,
    regroundThreshold: Option<real>,
    tripThreshold: Option<real>,
    flyingRecoveryRate: Option<real>,
    floorFriction: Option<real>,
    flooredAngularFriction: Option<real>,
    unflooredAngularFriction: Option<real>,
    collider: Option<Collider>,
    mass: Option<real>,
    restitution: Option<real>,
    gibForceThreshold: Option<real>,
    gun: Option<Gun>,
    hits: Option<seq<Hit>>,
    health: Option<Health>,
    alive: bool,
    dead: bool,
    containedBlood: Option<ContainedBlood>,
    bloodPool: Option<BloodPool>,
    gib: bool,
    bloodGlobule: bool,
    holder: Option<Holder>,
    holdable: bool,
    parent: Option<EntityId>,
    /** The Bevy `Children` list; an empty list stands for the component being absent. */
    children: seq<EntityId>,
    parentRelationship: Option<ParentRelationship>,
    holdingInfo: Option<HoldingInfo>,
    spawnedMidTick: Option<real>,
    projectileColour: Option<Colour>,
    tracedLine: bool)

  /** An entity with no components. */
  const Blank := Entity(
    None, None, None, None, None, None, None, None, None, None, false, false,
    None, None, None, None, None, None, None, None, None, None, None, None, None,
    false, false, None, None, false, false, None, false, None, [], None, None,
    None, None, false)

  /** The ground-state invariant checked in debug builds: never both Grounded
      and Flying, and a standing entity has no floored recovery timer. */
  predicate GroundConsistent(e: Entity) {
    && !(e.grounded.Some? && e.flying)
    && (e.grounded.Some? && e.grounded.value.standing ==> e.grounded.value.flooredRecoveryTimer.None?)
  }
}
