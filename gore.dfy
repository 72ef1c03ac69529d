/** Gore: gibbing an entity into fragments, blood globules, bleeding into
    pools, and globules settling into pools. */
module Gore {
  import opened Geometry
  import opened Components
  import opened Commands
  import opened Worlds

  const GIB_VELOCITY_VARIATION_MULTIPLIER: real := 1.05
  const GIBS_PER_GIB_FORCE_THRESHOLD_IN_GIB_TOTAL_IMPACT: real := 400.0
  const MAX_GIBS_PER_GIBBING: nat := 100
  /** Multiplied with the blood amount, not the leak rate. */
  const GIB_LEAK_RATE_MULTIPLIER: real := 0.01
  const GIB_DRIP_TIME: real := 0.05
  const GIB_SMEAR_DRIP_TIME_MULTIPLIER: real := 0.3
  const GIB_FLYING_RECOVERY_RATE: real := 750.0
  const GLOBULE_REGROUND_THRESHOLD: real := 0.0
  const GLOBULE_TRIP_THRESHOLD: real := 1.0
  const GLOBULE_LEAK_RATE: real := 0.5
  const GLOBULE_DRIP_TIME: real := 0.01
  const GLOBULE_SMEAR_DRIP_TIME_MULTIPLIER: real := 0.1
  const GLOBULE_FLYING_RECOVERY_RATE: real := 750.0
  /** How close a stationary bleeder must be to a pool to pour into it. */
  const STATIONARY_BLOOD_POOL_CLOSENESS_THRESHOLD: real := 0.01
  const U32_MAX: nat := 4294967295

  function NatMin(a: nat, b: nat): nat { if a < b then a else b }

  // ------------------------------------------------------------- disc areas

  /** `radius_to_area`: `TAU / 2 * r^2`. */
  function RadiusToArea(m: Maths, radius: real): real {
    m.pi * (radius * radius)
  }

  /** `area_to_radius`: `sqrt(area / (TAU / 2))`. */
  function AreaToRadius(m: Maths, area: real): real
    requires m.Valid()
  {
    m.sqrt(area / m.pi)
  }

  /** The two conversions undo each other on non-negative radii and areas. */
  lemma AreaRadiusRoundTrip(m: Maths, radius: real, area: real)
    requires m.Valid()
    ensures radius >= 0.0 ==> AreaToRadius(m, RadiusToArea(m, radius)) == radius
    ensures area >= 0.0 ==> AreaToRadius(m, area) >= 0.0 && RadiusToArea(m, AreaToRadius(m, area)) == area
  {
    if radius >= 0.0 {
      assert RadiusToArea(m, radius) / m.pi == radius * radius;
      SqrtOfSquare(m, radius);
      assert AreaToRadius(m, RadiusToArea(m, radius)) == m.sqrt(radius * radius);
    }
    if area >= 0.0 {
      var q := area / m.pi;
      assert q >= 0.0;
      assert m.sqrt(q) * m.sqrt(q) == q;
      assert m.pi * q == area;
    }
  }

  // ------------------------------------------------------------ the gib count

  /** Rust's `as u32` on a float: it truncates towards zero and saturates at
      both ends (NaN, which the model has no value for, goes to 0). */
  function SaturatingU32(x: real): (r: nat)
    ensures r <= U32_MAX
    ensures x <= 0.0 ==> r == 0
    ensures x >= U32_MAX as real ==> r == U32_MAX
    ensures 0.0 <= x < U32_MAX as real ==> r as real <= x < r as real + 1.0
  {
    if x <= 0.0 then 0
    else if x >= U32_MAX as real then U32_MAX
    else x.Floor
  }

  /** How many fragments a gibbing makes: 400 more for every gib force
      threshold by which the total impact exceeds the threshold, capped at
      100, plus 2. A zero threshold divides to an infinity, which saturates to
      the cap for a positive impact, and to NaN, which casts to 0, for none. */
  function GibCount(totalImpact: real, threshold: real): (n: nat)
    ensures 2 <= n <= MAX_GIBS_PER_GIBBING + 2
  {
    if threshold == 0.0 then
      if totalImpact > 0.0 then MAX_GIBS_PER_GIBBING + 2 else 2
    else
      var raw := (totalImpact / threshold - 1.0) * GIBS_PER_GIB_FORCE_THRESHOLD_IN_GIB_TOTAL_IMPACT;
      NatMin(SaturatingU32(raw), MAX_GIBS_PER_GIBBING) + 2
  }

  /** An impact no larger than the threshold makes the minimum of 2 fragments,
      one of at least 1.25 thresholds the maximum, and a bigger impact never
      makes fewer. */
  lemma GibCountShape(a: real, b: real, threshold: real)
    requires threshold > 0.0
    ensures a <= threshold ==> GibCount(a, threshold) == 2
    ensures a >= 1.25 * threshold ==> GibCount(a, threshold) == MAX_GIBS_PER_GIBBING + 2
    ensures a <= b ==> GibCount(a, threshold) <= GibCount(b, threshold)
  {
    var k := GIBS_PER_GIB_FORCE_THRESHOLD_IN_GIB_TOTAL_IMPACT;
    var ra := (a / threshold - 1.0) * k;
    var rb := (b / threshold - 1.0) * k;
    QuotientBounds(a, threshold, 1.0);
    QuotientBounds(a, threshold, 1.25);
    if a <= b {
      QuotientMonotone(a, b, threshold);
      assert ra <= rb;
      SaturatingMonotone(ra, rb);
    }
  }

  lemma QuotientMonotone(a: real, b: real, t: real)
    requires t > 0.0 && a <= b
    ensures a / t <= b / t
  {
    assert b / t - a / t == (b - a) / t;
  }

  lemma SaturatingMonotone(x: real, y: real)
    requires x <= y
    ensures SaturatingU32(x) <= SaturatingU32(y)
  {
  }

  // ---------------------------------------------------------------- sums

  function Sum(s: seq<real>): real
    decreases |s|
  {
    if |s| == 0 then 0.0 else Sum(s[..|s| - 1]) + s[|s| - 1]
  }

  /** A sum of `n` equal shares of `total / n` is the total. */
  lemma {:induction false} SumOfShares(s: seq<real>, total: real)
    requires |s| > 0 && forall i :: 0 <= i < |s| ==> s[i] == total / |s| as real
    ensures Sum(s) == total
  {
    SumConstant(s, total / |s| as real);
    assert |s| as real * (total / |s| as real) == total;
  }

  lemma {:induction false} SumConstant(s: seq<real>, c: real)
    requires forall i :: 0 <= i < |s| ==> s[i] == c
    ensures Sum(s) == |s| as real * c
    decreases |s|
  {
    if |s| > 0 {
      var front := s[..|s| - 1];
      assert forall i :: 0 <= i < |front| ==> front[i] == s[i];
      SumConstant(front, c);
      assert (|s| - 1) as real * c + c == |s| as real * c;
    }
  }

  // ------------------------------------------------------------- fragments

  /** The ground state inserted after a spawn: Grounded, and not standing,
      at or below the reground threshold, Flying above it. */
  function Settle(e: Entity, speed: real, threshold: real): (r: Entity)
    ensures r.grounded.Some? <==> speed <= threshold || e.grounded.Some?
    ensures r.flying <==> speed > threshold || e.flying
    ensures speed <= threshold ==> r == e.(grounded := Some(Grounded(false, None)))
    ensures speed > threshold ==> r == e.(flying := true)
  {
    if speed <= threshold then e.(grounded := Some(Grounded(false, None)))
    else e.(flying := true)
  }

  function MassShare(mass: Option<real>, n: nat): Option<real>
    requires n > 0
  {
    if mass.Some? then Some(mass.value / n as real) else None
  }

  /** What a gibbed entity leaves: its position, its kind of blood and mass,
      and the velocity of the whole. */
  datatype Remains = Remains(
    radius: real,
    bloodAmount: real,
    bloodColour: Colour,
    position: Vec2,
    velocity: Vec2,
    mass: Option<real>,
    restitution: Option<real>)

  /** One of `n` fragments, launched with the whole's velocity plus `offset`
      (a draw from the disc of the velocity variation) and facing `angle` (a
      draw from [0, TAU)). It takes an `n`-th of the area, of the blood and of
      the mass, and keeps the whole's restitution. */
  function Fragment(m: Maths, n: nat, r: Remains, offset: Vec2, angle: real): Entity
    requires m.Valid() && n > 0
  {
    var v := Add(r.velocity, offset);
    var e := Blank.(
      position := Some(r.position),
      previousPosition := Some(r.position),
      velocity := Some(v),
      angle := Some(angle),
      angularVelocity := Some(0.0),
      collider := Some(Collider(AreaToRadius(m, RadiusToArea(m, r.radius) / n as real), false)),
      containedBlood := Some(ContainedBlood(
        GIB_DRIP_TIME, 0.0, GIB_SMEAR_DRIP_TIME_MULTIPLIER, r.bloodColour, 0.0,
        r.bloodAmount * GIB_LEAK_RATE_MULTIPLIER, r.bloodAmount / n as real, 0.0, GIB_DRIP_TIME)),
      gib := true,
      flyingRecoveryRate := Some(GIB_FLYING_RECOVERY_RATE),
      mass := MassShare(r.mass, n),
      restitution := r.restitution);
    Settle(e, m.Length(v), DEFAULT_REGROUND_THRESHOLD)
  }

  /** The fragment as the source builds it: the restitution is inserted as a
      second `Mass`, replacing the mass share, and no `Restitution` is added. */
  function FragmentAsWritten(m: Maths, n: nat, r: Remains, offset: Vec2, angle: real): Entity
    requires m.Valid() && n > 0
  {
    var f := Fragment(m, n, r, offset, angle);
    f.(mass := if r.restitution.Some? then r.restitution else f.mass, restitution := None)
  }

  /** Which reading a system follows where the source and its evident
      intent part: the source as written, or the corrected behaviour. */
  datatype Version = AsWritten | Corrected

  /** A fragment as version `v` builds it. */
  function FragmentOf(v: Version, m: Maths, n: nat, r: Remains, offset: Vec2, angle: real): Entity
    requires m.Valid() && n > 0
  {
    if v.AsWritten? then FragmentAsWritten(m, n, r, offset, angle) else Fragment(m, n, r, offset, angle)
  }

  /** The fragments of one gibbing; fragment `i` gets the `i`-th draws. */
  function Fragments(v: Version, m: Maths, n: nat, r: Remains, offsets: nat -> Vec2, angles: nat -> real)
    : (fs: seq<Entity>)
    requires m.Valid()
    ensures |fs| == n
  {
    seq(n, i requires 0 <= i < n => FragmentOf(v, m, n, r, offsets(i), angles(i)))
  }

  function BloodOf(fs: seq<Entity>): seq<real> {
    seq(|fs|, i requires 0 <= i < |fs| => if fs[i].containedBlood.Some? then fs[i].containedBlood.value.amount else 0.0)
  }

  function AreaOf(m: Maths, fs: seq<Entity>): seq<real> {
    seq(|fs|, i requires 0 <= i < |fs| => if fs[i].collider.Some? then RadiusToArea(m, fs[i].collider.value.radius) else 0.0)
  }

  function MassOf(fs: seq<Entity>): seq<real> {
    seq(|fs|, i requires 0 <= i < |fs| => fs[i].mass.GetOr(0.0))
  }

  /** A fragment takes an `n`-th of the blood, of the area and of the mass. */
  lemma FragmentShares(m: Maths, n: nat, r: Remains, offset: Vec2, angle: real)
    requires m.Valid() && n > 0
    ensures
      var f := Fragment(m, n, r, offset, angle);
      && f.containedBlood.Some? && f.containedBlood.value.amount == r.bloodAmount / n as real
      && f.collider.Some? && f.collider.value.radius == AreaToRadius(m, RadiusToArea(m, r.radius) / n as real)
      && f.mass == MassShare(r.mass, n)
      && f.restitution == r.restitution && f.gib
  {
  }

  /** Either version's fragment takes an `n`-th of the blood and of the area;
      its mass is the restitution when the source's second `Mass` replaces
      the share, and the share otherwise. */
  lemma FragmentOfShares(v: Version, m: Maths, n: nat, r: Remains, offset: Vec2, angle: real)
    requires m.Valid() && n > 0
    ensures
      var f := FragmentOf(v, m, n, r, offset, angle);
      && f.containedBlood.Some? && f.containedBlood.value.amount == r.bloodAmount / n as real
      && f.collider.Some? && f.collider.value.radius == AreaToRadius(m, RadiusToArea(m, r.radius) / n as real)
      && f.mass == (if v.AsWritten? && r.restitution.Some? then r.restitution else MassShare(r.mass, n))
      && f.gib && f.restitution == if v.Corrected? then r.restitution else None
  {
    FragmentShares(m, n, r, offset, angle);
  }

  /** Fragment by fragment: the blood, area and mass each one carries. */
  lemma FragmentsElements(v: Version, m: Maths, n: nat, r: Remains, offsets: nat -> Vec2, angles: nat -> real)
    requires m.Valid() && n > 0 && r.radius >= 0.0
    ensures
      var fs := Fragments(v, m, n, r, offsets, angles);
      var replaced := v.AsWritten? && r.restitution.Some?;
      && (forall i :: 0 <= i < n ==> BloodOf(fs)[i] == r.bloodAmount / n as real)
      && (forall i :: 0 <= i < n ==> AreaOf(m, fs)[i] == RadiusToArea(m, r.radius) / n as real)
      && (r.mass.Some? && !replaced ==> forall i :: 0 <= i < n ==> MassOf(fs)[i] == r.mass.value / n as real)
      && (replaced ==> forall i :: 0 <= i < n ==> MassOf(fs)[i] == r.restitution.value)
      && (forall i :: 0 <= i < n ==> fs[i].gib && fs[i].restitution == if v.Corrected? then r.restitution else None)
  {
    var fs := Fragments(v, m, n, r, offsets, angles);
    var share := RadiusToArea(m, r.radius) / n as real;
    assert RadiusToArea(m, r.radius) >= 0.0;
    AreaRadiusRoundTrip(m, 0.0, share);
    forall i | 0 <= i < n
      ensures AreaOf(m, fs)[i] == share
    {
      FragmentOfShares(v, m, n, r, offsets(i), angles(i));
    }
    forall i | 0 <= i < n
      ensures BloodOf(fs)[i] == r.bloodAmount / n as real
      ensures fs[i].mass == (if v.AsWritten? && r.restitution.Some? then r.restitution else MassShare(r.mass, n))
      ensures fs[i].gib && fs[i].restitution == if v.Corrected? then r.restitution else None
    {
      FragmentOfShares(v, m, n, r, offsets(i), angles(i));
    }
  }

  /** Either way the fragments share out the blood and the area of the whole
      exactly. Corrected they keep its restitution; as written none of them
      has one. */
  lemma FragmentsConserve(v: Version, m: Maths, n: nat, r: Remains, offsets: nat -> Vec2, angles: nat -> real)
    requires m.Valid() && n > 0 && r.radius >= 0.0
    ensures
      var fs := Fragments(v, m, n, r, offsets, angles);
      && Sum(BloodOf(fs)) == r.bloodAmount
      && Sum(AreaOf(m, fs)) == RadiusToArea(m, r.radius)
      && (forall i :: 0 <= i < n ==> fs[i].gib && fs[i].restitution == if v.Corrected? then r.restitution else None)
  {
    FragmentsElements(v, m, n, r, offsets, angles);
    SharesSum(m, Fragments(v, m, n, r, offsets, angles), r, v.AsWritten? && r.restitution.Some?);
  }

  /** Corrected, the fragments share out the mass of the whole exactly. */
  lemma FragmentsMass(m: Maths, n: nat, r: Remains, offsets: nat -> Vec2, angles: nat -> real)
    requires m.Valid() && n > 0 && r.radius >= 0.0
    ensures r.mass.Some? ==> Sum(MassOf(Fragments(Corrected, m, n, r, offsets, angles))) == r.mass.value
  {
    FragmentsElements(Corrected, m, n, r, offsets, angles);
    SharesSum(m, Fragments(Corrected, m, n, r, offsets, angles), r, false);
  }

  /** As written, a whole with a restitution leaves fragments whose masses
      are each that restitution, so together they weigh `n` times it. */
  lemma FragmentsMassAsWritten(m: Maths, n: nat, r: Remains, offsets: nat -> Vec2, angles: nat -> real)
    requires m.Valid() && n > 0 && r.radius >= 0.0
    ensures r.restitution.Some? ==>
      Sum(MassOf(Fragments(AsWritten, m, n, r, offsets, angles))) == n as real * r.restitution.value
  {
    if r.restitution.Some? {
      var fs := Fragments(AsWritten, m, n, r, offsets, angles);
      forall i | 0 <= i < n
        ensures MassOf(fs)[i] == r.restitution.value
      {
        FragmentOfShares(AsWritten, m, n, r, offsets(i), angles(i));
      }
      SumConstant(MassOf(fs), r.restitution.value);
    }
  }

  /** Without a restitution the source builds the intended fragments. */
  lemma FragmentsAgree(m: Maths, n: nat, r: Remains, offsets: nat -> Vec2, angles: nat -> real)
    requires m.Valid() && r.restitution.None?
    ensures Fragments(AsWritten, m, n, r, offsets, angles) == Fragments(Corrected, m, n, r, offsets, angles)
  {
    var written := Fragments(AsWritten, m, n, r, offsets, angles);
    var corrected := Fragments(Corrected, m, n, r, offsets, angles);
    forall i | 0 <= i < n
      ensures written[i] == corrected[i]
    {
      assert written[i] == FragmentAsWritten(m, n, r, offsets(i), angles(i));
    }
  }

  /** Pieces that carry equal shares sum to the whole; pieces whose masses
      are all `c` weigh `c` times their number. */
  lemma SharesSum(m: Maths, fs: seq<Entity>, r: Remains, replaced: bool)
    requires |fs| > 0 && (replaced ==> r.restitution.Some?)
    requires forall i :: 0 <= i < |fs| ==> BloodOf(fs)[i] == r.bloodAmount / |fs| as real
    requires forall i :: 0 <= i < |fs| ==> AreaOf(m, fs)[i] == RadiusToArea(m, r.radius) / |fs| as real
    requires r.mass.Some? && !replaced ==> forall i :: 0 <= i < |fs| ==> MassOf(fs)[i] == r.mass.value / |fs| as real
    requires replaced ==> forall i :: 0 <= i < |fs| ==> MassOf(fs)[i] == r.restitution.value
    ensures Sum(BloodOf(fs)) == r.bloodAmount
    ensures Sum(AreaOf(m, fs)) == RadiusToArea(m, r.radius)
    ensures r.mass.Some? && !replaced ==> Sum(MassOf(fs)) == r.mass.value
    ensures replaced ==> Sum(MassOf(fs)) == |fs| as real * r.restitution.value
  {
    SumOfShares(BloodOf(fs), r.bloodAmount);
    SumOfShares(AreaOf(m, fs), RadiusToArea(m, r.radius));
    if replaced {
      SumConstant(MassOf(fs), r.restitution.value);
    } else if r.mass.Some? {
      SumOfShares(MassOf(fs), r.mass.value);
    }
  }

  /** A fragment lands straight away exactly when it is launched at or below
      the default reground threshold. */
  lemma FragmentGroundState(v: Version, m: Maths, n: nat, r: Remains, offset: Vec2, angle: real)
    requires m.Valid() && n > 0
    ensures
      var f := FragmentOf(v, m, n, r, offset, angle);
      var speed := m.Length(Add(r.velocity, offset));
      && (f.grounded == Some(Grounded(false, None)) <==> speed <= DEFAULT_REGROUND_THRESHOLD)
      && (f.flying <==> speed > DEFAULT_REGROUND_THRESHOLD)
      && GroundConsistent(f)
  {
  }

  /** `gib`: despawns the entity and spawns its `n` fragments. */
  method Gib(v: Version, m: Maths, target: EntityId, n: nat, r: Remains, offsets: nat -> Vec2, angles: nat -> real)
    returns (cs: seq<Command>)
    requires m.Valid()
    ensures cs == [Despawn(target)] + SpawnCommands(Fragments(v, m, n, r, offsets, angles))
  {
    ghost var fs := Fragments(v, m, n, r, offsets, angles);
    cs := [Despawn(target)];
    for i := 0 to n
      invariant |cs| == i + 1 && cs[0] == Despawn(target)
      invariant forall j :: 0 <= j < i ==> cs[j + 1] == Spawn(fs[j])
    {
      cs := cs + [Spawn(FragmentOf(v, m, n, r, offsets(i), angles(i)))];
    }
    assert SpawnCommands(fs) == cs[1..];
  }

  /** With a restitution the source's fragments lose their mass share: the
      restitution takes its place and the restitution itself is gone. */
  lemma FragmentMassAsWritten(m: Maths, n: nat, r: Remains, offset: Vec2, angle: real)
    requires m.Valid() && n > 0 && r.restitution.Some?
    ensures FragmentAsWritten(m, n, r, offset, angle).mass == r.restitution
    ensures FragmentAsWritten(m, n, r, offset, angle).restitution.None?
    ensures FragmentAsWritten(m, n, r, offset, angle) != Fragment(m, n, r, offset, angle)
  {
  }

  // ----------------------------------------------------------------- gibbing

  /** A `Gibbing` event: the entity and the summed length of the forces that hit it. */
  datatype GibEvent = GibEvent(entity: EntityId, totalImpact: real)

  /** The query `gibbing` reads: it unwraps, so the entity must have these. */
  predicate Gibbable(entities: map<EntityId, Entity>, id: EntityId) {
    && id in entities
    && entities[id].gibForceThreshold.Some?
    && entities[id].collider.Some?
    && entities[id].position.Some?
    && entities[id].velocity.Some?
  }

  function RemainsOf(e: Entity): Remains
    requires e.collider.Some? && e.position.Some? && e.velocity.Some?
  {
    Remains(
      e.collider.value.radius,
      if e.containedBlood.Some? then e.containedBlood.value.amount else 0.0,
      if e.containedBlood.Some? then e.containedBlood.value.colour else NoColour,
      e.position.value,
      e.velocity.value,
      e.mass,
      e.restitution)
  }

  /** The commands one event queues; `draws(k, i)` are the draws of fragment `i` of event `k`. */
  function GibEventCommands(v: Version, m: Maths, entities: map<EntityId, Entity>, ev: GibEvent, k: nat,
                            offsets: (nat, nat) -> Vec2, angles: (nat, nat) -> real): seq<Command>
    requires m.Valid()
    requires Gibbable(entities, ev.entity)
  {
    var e := entities[ev.entity];
    [Despawn(ev.entity)]
      + SpawnCommands(Fragments(v, m, GibCount(ev.totalImpact, e.gibForceThreshold.value), RemainsOf(e),
                                (i: nat) => offsets(k, i), (i: nat) => angles(k, i)))
  }

  function GibbingCommands(v: Version, m: Maths, entities: map<EntityId, Entity>, events: seq<GibEvent>,
                           offsets: (nat, nat) -> Vec2, angles: (nat, nat) -> real): seq<Command>
    requires m.Valid()
    requires forall k :: 0 <= k < |events| ==> Gibbable(entities, events[k].entity)
    decreases |events|
  {
    if |events| == 0 then []
    else
      var k := |events| - 1;
      GibbingCommands(v, m, entities, events[..k], offsets, angles)
        + GibEventCommands(v, m, entities, events[k], k, offsets, angles)
  }

  /** `gibbing`: each event despawns its entity and spawns between 2 and 102
      fragments, in the order of the events. */
  method Gibbing(v: Version, m: Maths, entities: map<EntityId, Entity>, events: seq<GibEvent>,
                 offsets: (nat, nat) -> Vec2, angles: (nat, nat) -> real)
    returns (cs: seq<Command>)
    requires m.Valid()
    requires forall k :: 0 <= k < |events| ==> Gibbable(entities, events[k].entity)
    ensures cs == GibbingCommands(v, m, entities, events, offsets, angles)
  {
    cs := [];
    for k := 0 to |events|
      invariant cs == GibbingCommands(v, m, entities, events[..k], offsets, angles)
    {
      var ev := events[k];
      var e := entities[ev.entity];
      var more := Gib(v, m, ev.entity, GibCount(ev.totalImpact, e.gibForceThreshold.value), RemainsOf(e),
                      (i: nat) => offsets(k, i), (i: nat) => angles(k, i));
      assert events[..k + 1][..k] == events[..k];
      cs := cs + more;
    }
    assert events[..|events|] == events;
  }

  /** Every event contributes one despawn of its entity and its fragment spawns. */
  lemma GibEventShape(v: Version, m: Maths, entities: map<EntityId, Entity>, ev: GibEvent, k: nat,
                      offsets: (nat, nat) -> Vec2, angles: (nat, nat) -> real)
    requires m.Valid()
    requires Gibbable(entities, ev.entity)
    ensures
      var cs := GibEventCommands(v, m, entities, ev, k, offsets, angles);
      && cs[0] == Despawn(ev.entity)
      && 3 <= |cs| <= MAX_GIBS_PER_GIBBING + 3
      && forall j :: 1 <= j < |cs| ==> cs[j].Spawn? && cs[j].bundle.gib
  {
    var e := entities[ev.entity];
    var n := GibCount(ev.totalImpact, e.gibForceThreshold.value);
    var fs := Fragments(v, m, n, RemainsOf(e), (i: nat) => offsets(k, i), (i: nat) => angles(k, i));
    var cs := GibEventCommands(v, m, entities, ev, k, offsets, angles);
    forall j | 1 <= j < |cs|
      ensures cs[j].Spawn? && cs[j].bundle.gib
    {
      assert cs[j] == SpawnCommands(fs)[j - 1];
      assert fs[j - 1] == FragmentOf(v, m, n, RemainsOf(e), offsets(k, j - 1), angles(k, j - 1));
    }
  }

  /** The radius of the disc the fragments' velocity offsets are drawn from:
      the entity's speed times `GIB_VELOCITY_VARIATION_MULTIPLIER`. */
  function GibVelocityVariation(m: Maths, e: Entity): real
    requires e.velocity.Some?
  {
    m.Length(e.velocity.value) * GIB_VELOCITY_VARIATION_MULTIPLIER
  }

  /** Fragment `i` of an event flies off with the entity's velocity plus its
      offset, so with an offset drawn from the variation disc its velocity
      is at most 1.05 times the entity's speed away from the entity's velocity. */
  lemma GibVelocitySpread(v: Version, m: Maths, entities: map<EntityId, Entity>, ev: GibEvent, k: nat,
                          offsets: (nat, nat) -> Vec2, angles: (nat, nat) -> real, i: nat)
    requires m.Valid()
    requires Gibbable(entities, ev.entity)
    requires i < GibCount(ev.totalImpact, entities[ev.entity].gibForceThreshold.value)
    requires m.Length(offsets(k, i)) <= GibVelocityVariation(m, entities[ev.entity])
    ensures
      var e := entities[ev.entity];
      var cs := GibEventCommands(v, m, entities, ev, k, offsets, angles);
      && i + 1 < |cs| && cs[i + 1].Spawn?
      && cs[i + 1].bundle.velocity == Some(Add(e.velocity.value, offsets(k, i)))
      && m.Distance(cs[i + 1].bundle.velocity.value, e.velocity.value)
         <= m.Length(e.velocity.value) * GIB_VELOCITY_VARIATION_MULTIPLIER
  {
    var e := entities[ev.entity];
    var n := GibCount(ev.totalImpact, e.gibForceThreshold.value);
    var fs := Fragments(v, m, n, RemainsOf(e), (i: nat) => offsets(k, i), (i: nat) => angles(k, i));
    var cs := GibEventCommands(v, m, entities, ev, k, offsets, angles);
    assert cs[i + 1] == SpawnCommands(fs)[i];
    assert fs[i] == FragmentOf(v, m, n, RemainsOf(e), offsets(k, i), angles(k, i));
    var w := Add(e.velocity.value, offsets(k, i));
    assert Sub(w, e.velocity.value) == offsets(k, i);
  }

  // ---------------------------------------------------------------- globules

  /** One of `count` blood globules: it carries a `count`-th of the blood, is
      as big as that blood's area, and flies off with `velocity + offset`
      (`offset` a draw from the disc of the velocity variation). */
  function Globule(m: Maths, count: nat, bloodAmount: real, colour: Colour, position: Vec2, velocity: Vec2,
                   offset: Vec2): Entity
    requires m.Valid() && count > 0
  {
    var v := Add(velocity, offset);
    var share := bloodAmount / count as real;
    var e := Blank.(
      position := Some(position),
      previousPosition := Some(position),
      velocity := Some(v),
      collider := Some(Collider(AreaToRadius(m, share), false)),
      containedBlood := Some(ContainedBlood(
        GLOBULE_DRIP_TIME, 0.0, GLOBULE_SMEAR_DRIP_TIME_MULTIPLIER, colour, 0.0,
        GLOBULE_LEAK_RATE, share, 0.0, GLOBULE_DRIP_TIME)),
      bloodGlobule := true,
      flyingRecoveryRate := Some(GLOBULE_FLYING_RECOVERY_RATE),
      regroundThreshold := Some(GLOBULE_REGROUND_THRESHOLD),
      tripThreshold := Some(GLOBULE_TRIP_THRESHOLD));
    Settle(e, m.Length(v), GLOBULE_REGROUND_THRESHOLD)
  }

  function Globules(m: Maths, count: nat, bloodAmount: real, colour: Colour, position: Vec2, velocity: Vec2,
                    offsets: nat -> Vec2): (gs: seq<Entity>)
    requires m.Valid()
    ensures |gs| == count
  {
    seq(count, i requires 0 <= i < count => Globule(m, count, bloodAmount, colour, position, velocity, offsets(i)))
  }

  /** `spawn_blood_globules`: spawns `count` globules; `offsets(i)` is the
      draw of globule `i`, from the disc of radius `variation`. */
  method SpawnBloodGlobules(m: Maths, count: nat, variation: real, bloodAmount: real, colour: Colour,
                            position: Vec2, velocity: Vec2, offsets: nat -> Vec2)
    returns (cs: seq<Command>)
    requires m.Valid()
    ensures cs == SpawnCommands(Globules(m, count, bloodAmount, colour, position, velocity, offsets))
  {
    ghost var gs := Globules(m, count, bloodAmount, colour, position, velocity, offsets);
    cs := [];
    for i := 0 to count
      invariant |cs| == i
      invariant forall j :: 0 <= j < i ==> cs[j] == Spawn(gs[j])
    {
      cs := cs + [Spawn(Globule(m, count, bloodAmount, colour, position, velocity, offsets(i)))];
    }
  }

  /** A globule carries its share of the blood, its area is that share, and it
      lands straight away exactly when it is launched at rest. */
  lemma GlobuleFacts(m: Maths, count: nat, bloodAmount: real, colour: Colour, position: Vec2, velocity: Vec2,
                     offset: Vec2)
    requires m.Valid() && count > 0
    ensures
      var g := Globule(m, count, bloodAmount, colour, position, velocity, offset);
      && g.containedBlood.Some? && g.containedBlood.value.amount == bloodAmount / count as real
      && g.collider.Some?
      && (bloodAmount >= 0.0 ==> RadiusToArea(m, g.collider.value.radius) == bloodAmount / count as real)
      && (g.grounded == Some(Grounded(false, None)) <==> Add(velocity, offset) == Zero)
      && (g.flying <==> Add(velocity, offset) != Zero)
      && g.bloodGlobule && GroundConsistent(g)
  {
    LengthFacts(m, Add(velocity, offset));
    if bloodAmount >= 0.0 {
      AreaRadiusRoundTrip(m, 0.0, bloodAmount / count as real);
    }
  }

  /** The globules share out the blood exactly. */
  lemma GlobulesConserve(m: Maths, count: nat, bloodAmount: real, colour: Colour, position: Vec2, velocity: Vec2,
                         offsets: nat -> Vec2)
    requires m.Valid() && count > 0
    ensures Sum(BloodOf(Globules(m, count, bloodAmount, colour, position, velocity, offsets))) == bloodAmount
  {
    var gs := Globules(m, count, bloodAmount, colour, position, velocity, offsets);
    forall i | 0 <= i < count
      ensures BloodOf(gs)[i] == bloodAmount / count as real
    {
      assert gs[i] == Globule(m, count, bloodAmount, colour, position, velocity, offsets(i));
      GlobuleFacts(m, count, bloodAmount, colour, position, velocity, offsets(i));
    }
    SumOfShares(BloodOf(gs), bloodAmount);
  }

  // --------------------------------------------------------------- bleeding

  /** `get_blood_transfer`: the largest amount within the request, the blood
      there is, and the blood above the minimum. */
  function BloodTransfer(amount: real, minimum: real, request: real): (r: real)
    ensures r <= request && r <= amount && amount - r >= minimum
    ensures r == request || r == amount || r == amount - minimum
    ensures r >= 0.0 <==> request >= 0.0 && amount >= 0.0 && amount >= minimum
  {
    Min(Min(request, amount), amount - minimum)
  }

  /** `spawn_blood_pool`. */
  function PoolSpawn(area: real, position: Vec2, colour: Colour): Command {
    Spawn(Blank.(position := Some(position), bloodPool := Some(BloodPool(colour, area))))
  }

  /** The bleeder query: contained blood and a position. */
  predicate IsBleeder(e: Entity) {
    e.containedBlood.Some? && e.position.Some?
  }

  /** Bleeders with no blood, no leak, or no blood above the minimum are skipped. */
  predicate Skips(cb: ContainedBlood) {
    cb.amount == 0.0 || cb.leakRate == 0.0 || cb.amount <= cb.minimumAmount
  }

  /** What one bleeder does in a tick: its new blood, the pool a drip spawns
      (where, and how much), and the amount it pours on the spot when at rest. */
  datatype Bleeding = Bleeding(blood: ContainedBlood, drip: Option<(Vec2, real)>, pour: Option<real>)

  /** One bleeder's tick of length `dt`, with `lerp` in [0, 1) placing a drip
      between the previous and current position and `multiplier` in
      [drip_time_minimum_multiplier, 1] staggering the next drip. The timer
      runs whether or not the bleeder is at rest. When it runs out, a moving
      bleeder drips `dripRequest` (capped by `BloodTransfer`), and the timer
      and the next drip amount are reset. A bleeder at rest pours its leak
      rate times `dt` every tick instead. */
  function BleedWith(m: Maths, e: Entity, dt: real, lerp: real, multiplier: real, dripRequest: real): Bleeding
    requires m.Valid() && IsBleeder(e)
  {
    var cb := e.containedBlood.value;
    if Skips(cb) then Bleeding(cb, None, None)
    else
      var position := e.position.value;
      var previous := e.previousPosition.GetOr(position);
      var smearing := e.grounded.Some? && !e.grounded.value.standing;
      var pooling := m.Length(e.velocity.GetOr(Zero)) == 0.0;
      var timer := cb.dripTimer - dt;
      var expired := timer <= 0.0;
      var dripped := if expired && !pooling then BloodTransfer(cb.amount, cb.minimumAmount, dripRequest) else 0.0;
      var afterDrip := cb.amount - dripped;
      var reset := ResetTimer(cb, multiplier, smearing);
      var poured := if pooling then BloodTransfer(afterDrip, cb.minimumAmount, cb.leakRate * dt) else 0.0;
      Bleeding(
        cb.(amount := afterDrip - poured,
            dripTimer := if expired then reset else timer,
            amountToDrip := if expired then cb.leakRate * reset else cb.amountToDrip),
        if expired && !pooling then Some((Lerp(previous, position, lerp), dripped)) else None,
        if pooling then Some(poured) else None)
  }

  /** The drip timer after a reset: the drip time, staggered, and stretched
      for an entity lying down. */
  function ResetTimer(cb: ContainedBlood, multiplier: real, smearing: bool): real {
    var staggered := cb.dripTime * multiplier;
    if smearing then staggered * cb.smearDripTimeMultiplier else staggered
  }

  /** The amount a drip requests. As written the source requests the leak
      rate times the tick length; as intended, the amount the previous reset
      scheduled, the leak rate times the drip interval that has just ended. */
  function DripRequest(v: Version, cb: ContainedBlood, dt: real): real {
    if v.AsWritten? then cb.leakRate * dt else cb.amountToDrip
  }

  /** One bleeder's tick under version `v`. */
  function Bleed(v: Version, m: Maths, e: Entity, dt: real, lerp: real, multiplier: real): Bleeding
    requires m.Valid() && IsBleeder(e)
  {
    BleedWith(m, e, dt, lerp, multiplier, DripRequest(v, e.containedBlood.value, dt))
  }

  /** A skipped bleeder is untouched; any other keeps at least its minimum,
      and what it loses is exactly what it drips or pours. */
  lemma BleedConserves(m: Maths, e: Entity, dt: real, lerp: real, multiplier: real, dripRequest: real)
    requires m.Valid() && IsBleeder(e)
    ensures
      var cb := e.containedBlood.value;
      var b := BleedWith(m, e, dt, lerp, multiplier, dripRequest);
      && (Skips(cb) ==> b == Bleeding(cb, None, None))
      && (cb.amount >= cb.minimumAmount ==> b.blood.amount >= cb.minimumAmount)
      && cb.amount - b.blood.amount == (if b.drip.Some? then b.drip.value.1 else 0.0) + b.pour.GetOr(0.0)
      && !(b.drip.Some? && b.pour.Some?)
      && b.blood == cb.(amount := b.blood.amount, dripTimer := b.blood.dripTimer, amountToDrip := b.blood.amountToDrip)
  {
  }

  /** The timer counts down by the tick; when it runs out it is reset to the
      drip time times the stagger (times the smear multiplier for an entity
      lying down), so within [minimum multiplier, 1] drip times when not
      smearing, and the next drip is the leak over that interval. */
  lemma BleedTimer(m: Maths, e: Entity, dt: real, lerp: real, multiplier: real, dripRequest: real)
    requires m.Valid() && IsBleeder(e) && !Skips(e.containedBlood.value)
    ensures
      var cb := e.containedBlood.value;
      var b := BleedWith(m, e, dt, lerp, multiplier, dripRequest).blood;
      var smearing := e.grounded.Some? && !e.grounded.value.standing;
      && (cb.dripTimer - dt > 0.0 ==> b.dripTimer == cb.dripTimer - dt && b.amountToDrip == cb.amountToDrip)
      && (cb.dripTimer - dt <= 0.0 ==> b.amountToDrip == cb.leakRate * b.dripTimer)
      && (cb.dripTimer - dt <= 0.0 && !smearing && cb.dripTime >= 0.0
          && cb.dripTimeMinimumMultiplier <= multiplier <= 1.0
          ==> cb.dripTime * cb.dripTimeMinimumMultiplier <= b.dripTimer <= cb.dripTime)
      && (cb.dripTimer - dt <= 0.0 && smearing ==> b.dripTimer == cb.dripTime * multiplier * cb.smearDripTimeMultiplier)
  {
    var cb := e.containedBlood.value;
    var smearing := e.grounded.Some? && !e.grounded.value.standing;
    var b := BleedWith(m, e, dt, lerp, multiplier, dripRequest).blood;
    var reset := ResetTimer(cb, multiplier, smearing);
    var expired := cb.dripTimer - dt <= 0.0;
    assert b.dripTimer == if expired then reset else cb.dripTimer - dt;
    assert b.amountToDrip == if expired then cb.leakRate * reset else cb.amountToDrip;
    if !smearing && cb.dripTime >= 0.0 && cb.dripTimeMinimumMultiplier <= multiplier <= 1.0 {
      StaggerBounds(cb, multiplier);
    }
  }

  /** An unstretched reset lies between the minimum multiple of the drip time and the drip time. */
  lemma StaggerBounds(cb: ContainedBlood, multiplier: real)
    requires cb.dripTime >= 0.0 && cb.dripTimeMinimumMultiplier <= multiplier <= 1.0
    ensures cb.dripTime * cb.dripTimeMinimumMultiplier <= ResetTimer(cb, multiplier, false) <= cb.dripTime
  {
    ScaleBetween(cb.dripTime, cb.dripTimeMinimumMultiplier, multiplier, 1.0);
    assert cb.dripTime * 1.0 == cb.dripTime;
  }

  /** Intended, a moving bleeder whose timer runs out drips the leak over the
      interval the last reset scheduled, as far as the blood above the
      minimum allows. */
  lemma DripFollowsLeakRate(m: Maths, e: Entity, dt: real, lerp: real, multiplier: real, interval: real)
    requires m.Valid() && IsBleeder(e) && !Skips(e.containedBlood.value)
    requires e.containedBlood.value.amountToDrip == e.containedBlood.value.leakRate * interval
    requires e.containedBlood.value.dripTimer - dt <= 0.0 && m.Length(e.velocity.GetOr(Zero)) != 0.0
    ensures
      var cb := e.containedBlood.value;
      var b := Bleed(Corrected, m, e, dt, lerp, multiplier);
      && b.drip.Some?
      && b.drip.value.1 == BloodTransfer(cb.amount, cb.minimumAmount, cb.leakRate * interval)
      && (cb.leakRate * interval <= cb.amount - cb.minimumAmount && cb.minimumAmount >= 0.0
          ==> b.drip.value.1 == cb.leakRate * interval)
  {
  }

  /** As written, a bleeder leaking 1 a second with a drip time of 1 in ticks
      of 0.1 drips 0.1 when its timer runs out, a tenth of what its last reset
      scheduled, so between drips it loses a tenth of its leak rate. */
  lemma DripAsWrittenExample(m: Maths)
    requires m.Valid()
    ensures
      var cb := ContainedBlood(1.0, 1.0, 1.0, NoColour, 0.0, 1.0, 10.0, 0.05, 1.0);
      var e := Blank.(position := Some(Zero), velocity := Some(Vec2(1.0, 0.0)), containedBlood := Some(cb));
      && Bleed(AsWritten, m, e, 0.1, 0.0, 1.0).drip.value.1 == 0.1
      && Bleed(Corrected, m, e, 0.1, 0.0, 1.0).drip.value.1 == 1.0
  {
    LengthFacts(m, Vec2(1.0, 0.0));
  }

  /** A claim of a pool by a bleeder at rest: the pool is of the same colour
      and within the closeness threshold. */
  predicate Claims(m: Maths, entities: map<EntityId, Entity>, p: EntityId, position: Vec2, colour: Colour) {
    && p in entities && entities[p].bloodPool.Some? && entities[p].position.Some?
    && m.Distance(position, entities[p].position.value) <= STATIONARY_BLOOD_POOL_CLOSENESS_THRESHOLD
    && entities[p].bloodPool.value.colour == colour
  }

  /** The first pool, in the pool query's order, that the bleeder claims. */
  function FirstPool(m: Maths, entities: map<EntityId, Entity>, poolOrder: seq<EntityId>, position: Vec2,
                     colour: Colour): (r: Option<EntityId>)
    ensures r.Some? ==> r.value in poolOrder && Claims(m, entities, r.value, position, colour)
    decreases |poolOrder|
  {
    if |poolOrder| == 0 then None
    else if Claims(m, entities, poolOrder[0], position, colour) then Some(poolOrder[0])
    else FirstPool(m, entities, poolOrder[1..], position, colour)
  }

  /** No pool before the first claimed one is claimed, and none at all when
      none is found. */
  lemma {:induction false} FirstPoolIsFirst(m: Maths, entities: map<EntityId, Entity>, poolOrder: seq<EntityId>,
                                            position: Vec2, colour: Colour)
    ensures
      var r := FirstPool(m, entities, poolOrder, position, colour);
      && (r.None? ==> forall i :: 0 <= i < |poolOrder| ==> !Claims(m, entities, poolOrder[i], position, colour))
      && (r.Some? ==> exists k :: 0 <= k < |poolOrder| && poolOrder[k] == r.value
                       && forall i :: 0 <= i < k ==> !Claims(m, entities, poolOrder[i], position, colour))
    decreases |poolOrder|
  {
    if |poolOrder| > 0 && !Claims(m, entities, poolOrder[0], position, colour) {
      var rest := poolOrder[1..];
      FirstPoolIsFirst(m, entities, rest, position, colour);
      var r := FirstPool(m, entities, rest, position, colour);
      if r.Some? {
        var k :| 0 <= k < |rest| && rest[k] == r.value
                 && forall i :: 0 <= i < k ==> !Claims(m, entities, rest[i], position, colour);
        assert poolOrder[k + 1] == r.value;
        assert forall i :: 1 <= i < k + 1 ==> poolOrder[i] == rest[i - 1];
      } else {
        assert forall i :: 1 <= i < |poolOrder| ==> poolOrder[i] == rest[i - 1];
      }
    } else if |poolOrder| > 0 {
      assert poolOrder[0] == FirstPool(m, entities, poolOrder, position, colour).value;
    }
  }

  /** The pool search: the first claimed pool in query order, then stop. */
  method FindPool(m: Maths, entities: map<EntityId, Entity>, poolOrder: seq<EntityId>, position: Vec2, colour: Colour)
    returns (found: Option<EntityId>)
    ensures found == FirstPool(m, entities, poolOrder, position, colour)
  {
    found := None;
    var i := 0;
    while i < |poolOrder|
      invariant 0 <= i <= |poolOrder|
      invariant FirstPool(m, entities, poolOrder, position, colour) == FirstPool(m, entities, poolOrder[i..], position, colour)
    {
      assert poolOrder[i..][1..] == poolOrder[i + 1..];
      if Claims(m, entities, poolOrder[i], position, colour) {
        found := Some(poolOrder[i]);
        return;
      }
      i := i + 1;
    }
  }

  /** Pours `amount` into pool `p`. */
  function Pour(entities: map<EntityId, Entity>, p: EntityId, amount: real): map<EntityId, Entity>
    requires p in entities && entities[p].bloodPool.Some?
  {
    var pool := entities[p].bloodPool.value;
    entities[p := entities[p].(bloodPool := Some(pool.(area := pool.area + amount)))]
  }

  /** One bleeder's tick on the table: its blood is updated in place, a drip
      queues a new pool, and blood poured at rest goes into the first claimed
      pool or, if there is none, into a new pool on the spot. */
  function BleedInto(v: Version, m: Maths, entities: map<EntityId, Entity>, poolOrder: seq<EntityId>, id: EntityId, dt: real,
                     lerp: real, multiplier: real): (map<EntityId, Entity>, seq<Command>)
    requires m.Valid() && id in entities && IsBleeder(entities[id])
  {
    var e := entities[id];
    var b := Bleed(v, m, e, dt, lerp, multiplier);
    var es := entities[id := e.(containedBlood := Some(b.blood))];
    var drips := if b.drip.Some? then [PoolSpawn(b.drip.value.1, b.drip.value.0, b.blood.colour)] else [];
    if b.pour.None? then (es, drips)
    else
      var target := FirstPool(m, es, poolOrder, e.position.value, b.blood.colour);
      if target.Some? then (Pour(es, target.value, b.pour.value), drips)
      else (es, drips + [PoolSpawn(b.pour.value, e.position.value, b.blood.colour)])
  }

  /** The blood a bleeder loses reappears as pool area: in the pool it claims,
      or in the pool it queues. Nothing else on the table changes. */
  lemma BleedIntoEffect(v: Version, m: Maths, entities: map<EntityId, Entity>, poolOrder: seq<EntityId>, id: EntityId, dt: real,
                        lerp: real, multiplier: real)
    requires m.Valid() && id in entities && IsBleeder(entities[id])
    ensures
      var e := entities[id];
      var b := Bleed(v, m, e, dt, lerp, multiplier);
      var (es, cs) := BleedInto(v, m, entities, poolOrder, id, dt, lerp, multiplier);
      var es0 := entities[id := e.(containedBlood := Some(b.blood))];
      var target := FirstPool(m, es0, poolOrder, e.position.value, b.blood.colour);
      && es.Keys == entities.Keys
      && es[id].containedBlood == Some(b.blood)
      && (b.drip.Some? ==> cs == [PoolSpawn(b.drip.value.1, b.drip.value.0, b.blood.colour)] && es == es0)
      && (b.pour.Some? && target.Some? ==>
            && cs == []
            && es[target.value].bloodPool.value.area == es0[target.value].bloodPool.value.area + b.pour.value
            && forall x :: x in es && x != target.value ==> es[x] == es0[x])
      && (b.pour.Some? && target.None? ==> cs == [PoolSpawn(b.pour.value, e.position.value, b.blood.colour)] && es == es0)
      && (b.drip.None? && b.pour.None? ==> cs == [] && es == es0)
      && forall x :: x in es && x != id && (target.None? || x != target.value) ==> es[x] == entities[x]
  {
    BleedConserves(m, entities[id], dt, lerp, multiplier, DripRequest(v, entities[id].containedBlood.value, dt));
  }

  /** The table and the queue after the bleeders in `order`, one after the other. */
  function BloodLossFold(v: Version, m: Maths, entities: map<EntityId, Entity>, order: seq<EntityId>, poolOrder: seq<EntityId>,
                         dt: real, lerp: EntityId -> real, multiplier: EntityId -> real): (r: (map<EntityId, Entity>, seq<Command>))
    requires m.Valid()
    ensures r.0.Keys == entities.Keys
    decreases |order|
  {
    if |order| == 0 then (entities, [])
    else
      var (es, cs) := BloodLossFold(v, m, entities, order[..|order| - 1], poolOrder, dt, lerp, multiplier);
      var id := order[|order| - 1];
      if id in es && IsBleeder(es[id]) then
        var (es', more) := BleedInto(v, m, es, poolOrder, id, dt, lerp(id), multiplier(id));
        BleedIntoKeys(v, m, es, poolOrder, id, dt, lerp(id), multiplier(id));
        (es', cs + more)
      else (es, cs)
  }

  lemma BleedIntoKeys(v: Version, m: Maths, entities: map<EntityId, Entity>, poolOrder: seq<EntityId>, id: EntityId, dt: real,
                      lerp: real, multiplier: real)
    requires m.Valid() && id in entities && IsBleeder(entities[id])
    ensures BleedInto(v, m, entities, poolOrder, id, dt, lerp, multiplier).0.Keys == entities.Keys
  {
  }

  lemma BloodLossFoldStep(v: Version, m: Maths, entities: map<EntityId, Entity>, order: seq<EntityId>, i: nat,
                          poolOrder: seq<EntityId>, dt: real, lerp: EntityId -> real, multiplier: EntityId -> real)
    requires m.Valid() && i < |order|
    ensures
      var (es, cs) := BloodLossFold(v, m, entities, order[..i], poolOrder, dt, lerp, multiplier);
      var id := order[i];
      BloodLossFold(v, m, entities, order[..i + 1], poolOrder, dt, lerp, multiplier)
        == if id in es && IsBleeder(es[id]) then
             (BleedInto(v, m, es, poolOrder, id, dt, lerp(id), multiplier(id)).0,
              cs + BleedInto(v, m, es, poolOrder, id, dt, lerp(id), multiplier(id)).1)
           else (es, cs)
  {
    assert order[..i + 1][..i] == order[..i];
  }

  /** One bleeder's tick, in place on the world. */
  method BleedOne(v: Version, w: World, m: Maths, poolOrder: seq<EntityId>, id: EntityId, dt: real, lerp: real, multiplier: real)
    returns (more: seq<Command>)
    requires m.Valid() && id in w.entities && IsBleeder(w.entities[id])
    modifies w
    ensures w.nextId == old(w.nextId)
    ensures (w.entities, more) == BleedInto(v, m, old(w.entities), poolOrder, id, dt, lerp, multiplier)
  {
    var e := w.entities[id];
    var b := Bleed(v, m, e, dt, lerp, multiplier);
    w.entities := w.entities[id := e.(containedBlood := Some(b.blood))];
    more := [];
    if b.drip.Some? {
      more := [PoolSpawn(b.drip.value.1, b.drip.value.0, b.blood.colour)];
    }
    if b.pour.Some? {
      var target := FindPool(m, w.entities, poolOrder, e.position.value, b.blood.colour);
      if target.Some? {
        w.entities := Pour(w.entities, target.value, b.pour.value);
      } else {
        more := more + [PoolSpawn(b.pour.value, e.position.value, b.blood.colour)];
      }
    }
  }

  /** `blood_loss`: the bleeders bleed in query order `order`, pouring into
      the pools in query order `poolOrder`; `lerp(id)` and `multiplier(id)`
      are bleeder `id`'s draws. */
  method BloodLoss(v: Version, w: World, m: Maths, order: seq<EntityId>, poolOrder: seq<EntityId>, dt: real,
                   lerp: EntityId -> real, multiplier: EntityId -> real)
    returns (cs: seq<Command>)
    requires m.Valid()
    modifies w
    ensures w.nextId == old(w.nextId)
    ensures (w.entities, cs) == BloodLossFold(v, m, old(w.entities), order, poolOrder, dt, lerp, multiplier)
  {
    ghost var start := w.entities;
    cs := [];
    for i := 0 to |order|
      invariant w.nextId == old(w.nextId)
      invariant (w.entities, cs) == BloodLossFold(v, m, start, order[..i], poolOrder, dt, lerp, multiplier)
    {
      var id := order[i];
      BloodLossFoldStep(v, m, start, order, i, poolOrder, dt, lerp, multiplier);
      if id in w.entities && IsBleeder(w.entities[id]) {
        var more := BleedOne(v, w, m, poolOrder, id, dt, lerp(id), multiplier(id));
        cs := cs + more;
      }
    }
    assert order[..|order|] == order;
  }

  // ------------------------------------------------------- managing globules

  /** The globule query: a blood globule with a collider, blood and a position. */
  predicate IsGlobule(e: Entity) {
    e.bloodGlobule && e.collider.Some? && e.containedBlood.Some? && e.position.Some?
  }

  /** In place: a globule still in the air is resized to its blood. */
  function GlobuleStep(m: Maths, e: Entity): Entity
    requires m.Valid()
  {
    if IsGlobule(e) && e.containedBlood.value.amount > 0.0 && e.grounded.None? then
      e.(collider := Some(e.collider.value.(radius := AreaToRadius(m, e.containedBlood.value.amount))))
    else e
  }

  /** Queued: an empty globule is despawned, a landed one is despawned and
      leaves a pool of its blood. */
  function GlobuleCommands(id: EntityId, e: Entity): seq<Command> {
    if !IsGlobule(e) then []
    else if e.containedBlood.value.amount <= 0.0 then [Despawn(id)]
    else if e.grounded.Some? then
      [Despawn(id), PoolSpawn(e.containedBlood.value.amount, e.position.value, e.containedBlood.value.colour)]
    else []
  }

  function GlobulesCommands(entities: map<EntityId, Entity>, order: seq<EntityId>): seq<Command>
    requires forall id :: id in order ==> id in entities
    decreases |order|
  {
    if |order| == 0 then []
    else
      var id := order[|order| - 1];
      GlobulesCommands(entities, order[..|order| - 1]) + GlobuleCommands(id, entities[id])
  }

  /** A globule either goes (empty, or landed, leaving a pool as big as its
      blood) or stays in the air with the area of its blood. */
  lemma GlobuleOutcome(m: Maths, id: EntityId, e: Entity)
    requires m.Valid() && IsGlobule(e)
    ensures
      var amount := e.containedBlood.value.amount;
      var cs := GlobuleCommands(id, e);
      var x := GlobuleStep(m, e);
      && (amount <= 0.0 ==> cs == [Despawn(id)] && x == e)
      && (amount > 0.0 && e.grounded.Some? ==>
            && cs[0] == Despawn(id) && |cs| == 2 && cs[1].Spawn?
            && cs[1].bundle.bloodPool == Some(BloodPool(e.containedBlood.value.colour, amount))
            && cs[1].bundle.position == e.position && x == e)
      && (amount > 0.0 && e.grounded.None? ==>
            && cs == [] && x == e.(collider := x.collider) && x.collider.Some?
            && RadiusToArea(m, x.collider.value.radius) == amount)
  {
    if e.containedBlood.value.amount > 0.0 {
      AreaRadiusRoundTrip(m, 0.0, e.containedBlood.value.amount);
    }
  }

  /** The table once the globules in `done` have been visited. */
  ghost function GlobulesVisited(m: Maths, start: map<EntityId, Entity>, done: seq<EntityId>): map<EntityId, Entity>
    requires m.Valid()
  {
    map id | id in start :: if id in done then GlobuleStep(m, start[id]) else start[id]
  }

  lemma ManageGlobulesStep(m: Maths, start: map<EntityId, Entity>, order: seq<EntityId>, i: nat)
    requires m.Valid() && i < |order| && Enumerates(order, start.Keys)
    ensures GlobulesVisited(m, start, order[..i])[order[i]] == start[order[i]]
    ensures GlobulesVisited(m, start, order[..i + 1])
         == GlobulesVisited(m, start, order[..i])[order[i] := GlobuleStep(m, start[order[i]])]
    ensures GlobulesCommands(start, order[..i + 1])
         == GlobulesCommands(start, order[..i]) + GlobuleCommands(order[i], start[order[i]])
  {
    assert order[..i + 1][..i] == order[..i];
    assert forall x :: x in order[..i + 1] <==> x in order[..i] || x == order[i];
    assert order[i] !in order[..i];
  }

  /** `manage_globules`: visits the globules in query order `order`, resizing
      those in the air in place and queueing despawns and pools. */
  method ManageGlobules(w: World, m: Maths, order: seq<EntityId>) returns (cs: seq<Command>)
    requires m.Valid() && Enumerates(order, w.entities.Keys)
    modifies w
    ensures w.nextId == old(w.nextId)
    ensures w.entities == MapEntities(old(w.entities), (id, e) => GlobuleStep(m, e))
    ensures cs == GlobulesCommands(old(w.entities), order)
  {
    ghost var start := w.entities;
    cs := [];
    for i := 0 to |order|
      invariant w.nextId == old(w.nextId)
      invariant w.entities == GlobulesVisited(m, start, order[..i])
      invariant cs == GlobulesCommands(start, order[..i])
    {
      var id := order[i];
      ManageGlobulesStep(m, start, order, i);
      var e := w.entities[id];
      cs := cs + GlobuleCommands(id, e);
      w.entities := w.entities[id := GlobuleStep(m, e)];
    }
    assert order[..|order|] == order;
  }
}
