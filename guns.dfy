/** The gun system: trigger state, the sub-tick firing scheduler and the
    projectiles each shot spawns. */
module Guns {
  import opened Geometry
  import opened Components
  import opened Commands
  import opened Worlds

  // ------------------------------------------------------------ the scheduler

  /** `progress_time_with_cooldown_interrupt`: moves `current` towards `target`,
      stopping early if the cooldown timer runs out first. */
  method ProgressTime(current: real, target: real, cooldown: real) returns (newCurrent: real, newCooldown: real)
    requires current < target
    ensures newCurrent + newCooldown == current + cooldown
    ensures (newCurrent == target && newCooldown >= 0.0) || (newCooldown == 0.0 && newCurrent <= target)
    ensures newCooldown == 0.0 <==> cooldown <= target - current
    ensures cooldown >= 0.0 ==> current <= newCurrent && 0.0 <= newCooldown <= cooldown
  {
    var delta := Min(target - current, cooldown);
    newCurrent := current + delta;
    newCooldown := cooldown - delta;
  }

  /** Whether the gun wants to fire this tick: held for an automatic gun,
      pressed since the last tick otherwise. */
  function WantsToShoot(gun: Gun): bool {
    if gun.auto then gun.triggerDepressed
    else gun.triggerDepressed && !gun.triggerDepressedPreviousFrame
  }

  /** Whether the firing loop of a tick of length `target` ends. It does not
      when an automatic gun whose trigger is held and whose cooldown is not
      positive first fires before the end of the tick: from that shot on,
      every step fires again without time advancing. A first shot exactly at
      the end of the tick leaves nothing of the tick, so that loop ends. */
  predicate Terminates(gun: Gun, shoot: bool, target: real) {
    !(shoot && gun.auto && gun.cooldown <= 0.0 && 0.0 < target && gun.cooldownTimer < target)
  }

  /** How many shots the loop fires in a tick of length `target`: the timer
      first runs out at `cooldownTimer`, and an automatic gun fires again every
      `cooldown` while that stays within the tick. A first shot at the very end
      of the tick is the only one. */
  function ShotCount(gun: Gun, shoot: bool, target: real): nat
    requires Terminates(gun, shoot, target)
  {
    if !shoot || target <= 0.0 || gun.cooldownTimer > target then 0
    else if !gun.auto || gun.cooldownTimer == target then 1
    else
      var q := (target - gun.cooldownTimer) / gun.cooldown;
      assert q >= 0.0 by { NonNegativeQuotient(target - gun.cooldownTimer, gun.cooldown); }
      q.Floor + 1
  }

  /** The times within the tick at which the shots are fired. */
  function ShotTimes(first: real, cooldown: real, n: nat): (r: seq<real>)
    ensures |r| == n
    ensures forall k :: 0 <= k < n ==> r[k] == first + k as real * cooldown
  {
    seq(n, k requires 0 <= k < n => first + k as real * cooldown)
  }

  /** The cooldown timer the loop leaves behind. */
  function FinalTimer(gun: Gun, shoot: bool, target: real): real
    requires Terminates(gun, shoot, target)
  {
    var t0 := gun.cooldownTimer;
    var n := ShotCount(gun, shoot, target);
    if target <= 0.0 then t0
    else if n == 0 then Max(0.0, t0 - target)
    else if gun.auto then t0 + n as real * gun.cooldown - target
    else if t0 == target then gun.cooldown
    else Max(0.0, t0 + gun.cooldown - target)
  }

  lemma NonNegativeQuotient(a: real, b: real)
    requires a >= 0.0 && b > 0.0
    ensures a / b >= 0.0
  {
  }

  /** Removing one `cooldown` from the time left removes one from the shot budget. */
  lemma FloorStep(x: real, cooldown: real)
    requires cooldown > 0.0
    ensures ((x - cooldown) / cooldown).Floor == (x / cooldown).Floor - 1
  {
    var q := x / cooldown;
    assert q * cooldown == x;
    assert (q - 1.0) * cooldown == x - cooldown;
    QuotientOf(x - cooldown, cooldown, q - 1.0);
  }

  lemma QuotientOf(a: real, c: real, q: real)
    requires c != 0.0 && q * c == a
    ensures a / c == q
  {
    assert (a / c) * c == a;
    assert (a / c - q) * c == 0.0;
    ProductZero(a / c - q, c);
  }

  /** `n` shots from `t0` every `cooldown`, the last within `target` and the next
      past it, is the count `ShotCount` gives. */
  lemma CountFromBounds(t0: real, cooldown: real, target: real, n: nat)
    requires cooldown > 0.0 && n >= 1
    requires t0 + (n - 1) as real * cooldown <= target < t0 + n as real * cooldown
    ensures ((target - t0) / cooldown).Floor + 1 == n
  {
    var q := (target - t0) / cooldown;
    assert q * cooldown == target - t0;
    assert (n - 1) as real * cooldown <= q * cooldown < n as real * cooldown;
    if q < (n - 1) as real {
      MulStrictRight(q, (n - 1) as real, cooldown);
    }
    if q >= n as real {
      MulMonotoneRight(n as real, q, cooldown);
    }
  }

  lemma MulStrictRight(a: real, b: real, c: real)
    requires a < b && c > 0.0
    ensures a * c < b * c
  {
    assert b * c - a * c == (b - a) * c;
  }

  lemma MulMonotoneRight(a: real, b: real, c: real)
    requires a <= b && c > 0.0
    ensures a * c <= b * c
  {
    assert b * c - a * c == (b - a) * c;
  }

  /** The count from the other side: `ShotCount` shots of an automatic gun end
      within the tick and the next would not. */
  lemma CountBounds(t0: real, cooldown: real, target: real)
    requires cooldown > 0.0 && t0 <= target
    ensures
      var n := ((target - t0) / cooldown).Floor + 1;
      && n >= 1
      && t0 + (n - 1) as real * cooldown <= target < t0 + n as real * cooldown
  {
    var q := (target - t0) / cooldown;
    NonNegativeQuotient(target - t0, cooldown);
    var n := q.Floor + 1;
    var below := (n - 1) as real;
    var above := n as real;
    assert below <= q < above;
    QuotientTimes(target - t0, cooldown);
    MulMonotoneRight(below, q, cooldown);
    MulStrictRight(q, above, cooldown);
    assert below * cooldown <= q * cooldown;
    assert q * cooldown < above * cooldown;
    assert target == t0 + q * cooldown;
    ShiftBounds(t0, target, below * cooldown, q * cooldown, above * cooldown);
  }

  lemma QuotientTimes(a: real, c: real)
    requires c != 0.0
    ensures (a / c) * c == a
  {
  }

  lemma ShiftBounds(t0: real, target: real, low: real, mid: real, high: real)
    requires low <= mid < high && target == t0 + mid
    ensures t0 + low <= target < t0 + high
  {
  }

  // ----------------------------------------------------------- the projectiles

  /** Where the gun is and how it moves: its own, or derived from its holder's. */
  datatype Spatial = Spatial(position: Vec2, velocity: Vec2, angle: real, angularVelocity: real)

  /** The gun's aim direction at time `c` into the tick. */
  function Aim(m: Maths, s: Spatial, c: real): Vec2 {
    m.fromAngle(s.angle + s.angularVelocity * c)
  }

  /** The muzzle at time `c`: the gun moved on by its velocity, plus the muzzle
      distance along the aim. */
  function Muzzle(m: Maths, gun: Gun, s: Spatial, c: real): Vec2 {
    Add(Add(s.position, Scale(s.velocity, c)), Scale(Aim(m, s, c), gun.muzzleDistance))
  }

  /** Launch velocity: the gun's velocity, plus the projectile speed along the
      aim, plus the spread drawn from the unit disc (`draw`), rotated into the aim. */
  function LaunchVelocity(m: Maths, gun: Gun, s: Spatial, c: real, draw: Vec2): Vec2 {
    Add(Add(s.velocity, Scale(Aim(m, s, c), gun.projectileSpeed)),
        Rotate(Aim(m, s, c), Scale(Mul(draw, gun.projectileSpread), gun.projectileSpeed)))
  }

  /** The velocity a projectile fired `c` into a tick of length `t` ends the
      tick with: its launch velocity, slowed by its recovery rate for the rest of the tick. */
  function FlightVelocity(m: Maths, gun: Gun, s: Spatial, c: real, t: real, draw: Vec2): Vec2 {
    ReduceSpeed(m, LaunchVelocity(m, gun, s, c, draw), gun.projectileFlyingRecoveryRate * (t - c))
  }

  /** One projectile fired `c` into a tick of length `t`. It has flown from the
      muzzle at its launch velocity for the rest of the tick, and its speed has
      decayed by its recovery rate over that time. */
  function Projectile(m: Maths, gun: Gun, s: Spatial, c: real, t: real, draw: Vec2): Entity
    requires t != 0.0
  {
    var origin := Muzzle(m, gun, s, c);
    var launch := LaunchVelocity(m, gun, s, c, draw);
    Blank.(
      position := Some(Add(origin, Scale(launch, t - c))),
      previousPosition := Some(origin),
      velocity := Some(FlightVelocity(m, gun, s, c, t, draw)),
      projectileColour := Some(gun.projectileColour),
      flying := true,
      flyingRecoveryRate := Some(gun.projectileFlyingRecoveryRate),
      tracedLine := true,
      spawnedMidTick := Some(c / t))
  }

  /** A projectile remembers the fraction of the tick at which it was fired,
      which lies in [0, 1] for a shot within the tick. */
  lemma ProjectileWhen(m: Maths, gun: Gun, s: Spatial, c: real, t: real, draw: Vec2)
    requires m.Valid() && t > 0.0
    ensures
      var r := Projectile(m, gun, s, c, t, draw);
      && r.spawnedMidTick.Some? && r.spawnedMidTick.value * t == c
      && (0.0 <= c <= t ==> 0.0 <= r.spawnedMidTick.value <= 1.0)
  {
    assert (c / t) * t == c;
    if 0.0 <= c <= t {
      QuotientAtMostOne(c, t);
    }
  }

  lemma QuotientAtMostOne(c: real, t: real)
    requires 0.0 <= c <= t && t > 0.0
    ensures 0.0 <= c / t <= 1.0
  {
    assert (c / t) * t == c;
  }

  /** It has travelled from the muzzle for the rest of the tick at its launch
      velocity, and flies on with the gun's recovery rate. */
  lemma ProjectileFlight(m: Maths, gun: Gun, s: Spatial, c: real, t: real, draw: Vec2)
    requires m.Valid() && t != 0.0
    ensures
      var r := Projectile(m, gun, s, c, t, draw);
      && r.position.Some? && r.previousPosition == Some(Muzzle(m, gun, s, c))
      && Sub(r.position.value, r.previousPosition.value) == Scale(LaunchVelocity(m, gun, s, c, draw), t - c)
      && r.flying && r.flyingRecoveryRate == Some(gun.projectileFlyingRecoveryRate)
  {
    var origin := Muzzle(m, gun, s, c);
    var d := Scale(LaunchVelocity(m, gun, s, c, draw), t - c);
    assert Sub(Add(origin, d), origin) == d;
  }

  /** Its speed is the launch speed less the recovery rate times the rest of
      the tick, never below 0, in the launch direction; a projectile launched at
      speed 0 keeps it. */
  lemma ProjectileSpeed(m: Maths, gun: Gun, s: Spatial, c: real, t: real, draw: Vec2)
    requires m.Valid() && t != 0.0
    ensures
      var launch := LaunchVelocity(m, gun, s, c, draw);
      var v := Projectile(m, gun, s, c, t, draw).velocity;
      && v.Some?
      && (m.Length(launch) != 0.0 ==> m.Length(v.value) == Max(0.0, m.Length(launch) - gun.projectileFlyingRecoveryRate * (t - c)))
      && Cross(v.value, launch) == 0.0 && Dot(v.value, launch) >= 0.0
      && (m.Length(launch) == 0.0 ==> v.value == launch)
  {
    ProjectileVelocity(m, gun, s, c, t, draw);
    FlightVelocityIs(m, gun, s, c, t, draw);
    ReduceSpeedFacts(m, LaunchVelocity(m, gun, s, c, draw), gun.projectileFlyingRecoveryRate * (t - c));
  }

  lemma FlightVelocityIs(m: Maths, gun: Gun, s: Spatial, c: real, t: real, draw: Vec2)
    ensures FlightVelocity(m, gun, s, c, t, draw)
         == ReduceSpeed(m, LaunchVelocity(m, gun, s, c, draw), gun.projectileFlyingRecoveryRate * (t - c))
  {
  }

  lemma ProjectileVelocity(m: Maths, gun: Gun, s: Spatial, c: real, t: real, draw: Vec2)
    requires t != 0.0
    ensures Projectile(m, gun, s, c, t, draw).velocity == Some(FlightVelocity(m, gun, s, c, t, draw))
  {
  }

  /** The muzzle is the muzzle distance away from the gun along the aim. */
  lemma MuzzleDistance(m: Maths, gun: Gun, s: Spatial, c: real)
    requires m.Valid()
    ensures m.Distance(Muzzle(m, gun, s, c), Add(s.position, Scale(s.velocity, c))) == Abs(gun.muzzleDistance)
  {
    var p := Add(s.position, Scale(s.velocity, c));
    var u := Aim(m, s, c);
    var d := Scale(u, gun.muzzleDistance);
    var a := Abs(gun.muzzleDistance);
    assert Sub(Add(p, d), p) == d;
    assert Dot(u, u) == 1.0;
    assert Dot(d, d) == gun.muzzleDistance * gun.muzzleDistance * Dot(u, u);
    assert a * a == gun.muzzleDistance * gun.muzzleDistance;
    assert Dot(d, d) == a * a;
    SqrtOfSquare(m, a);
  }

  /** The `projectile_count` projectiles of shot number `k`, fired at time `c`. */
  function ShotBundle(m: Maths, gun: Gun, s: Spatial, c: real, t: real, k: nat, draw: (nat, nat) -> Vec2): (r: seq<Entity>)
    requires t != 0.0
    ensures |r| == gun.projectileCount
  {
    seq(gun.projectileCount, i requires 0 <= i < gun.projectileCount => Projectile(m, gun, s, c, t, draw(k, i)))
  }

  /** Projectile `i` of the shot gets the `i`-th spread draw of that shot. */
  lemma ShotBundleElements(m: Maths, gun: Gun, s: Spatial, c: real, t: real, k: nat, draw: (nat, nat) -> Vec2)
    requires t != 0.0
    ensures forall i :: 0 <= i < gun.projectileCount ==> ShotBundle(m, gun, s, c, t, k, draw)[i] == Projectile(m, gun, s, c, t, draw(k, i))
  {
  }

  /** The spawn commands of the shots fired at `shots`, in order. */
  function Volley(m: Maths, gun: Gun, s: Spatial, t: real, shots: seq<real>, draw: (nat, nat) -> Vec2): seq<Command>
    requires t != 0.0
    decreases |shots|
  {
    if |shots| == 0 then []
    else Volley(m, gun, s, t, shots[..|shots| - 1], draw)
         + SpawnCommands(ShotBundle(m, gun, s, shots[|shots| - 1], t, |shots| - 1, draw))
  }

  /** Each shot spawns exactly `projectile_count` projectiles, and the volley
      is nothing but spawns. */
  lemma {:induction false} VolleySize(m: Maths, gun: Gun, s: Spatial, t: real, shots: seq<real>, draw: (nat, nat) -> Vec2)
    requires t != 0.0
    ensures |Volley(m, gun, s, t, shots, draw)| == |shots| * gun.projectileCount
    ensures forall j :: 0 <= j < |Volley(m, gun, s, t, shots, draw)| ==> Volley(m, gun, s, t, shots, draw)[j].Spawn?
    decreases |shots|
  {
    if |shots| != 0 {
      var n := |shots| - 1;
      var front := Volley(m, gun, s, t, shots[..n], draw);
      var last := SpawnCommands(ShotBundle(m, gun, s, shots[n], t, n, draw));
      VolleySize(m, gun, s, t, shots[..n], draw);
      assert Volley(m, gun, s, t, shots, draw) == front + last;
      MulSucc(n, gun.projectileCount);
    }
  }

  lemma MulSucc(n: nat, k: nat)
    ensures n * k + k == (n + 1) * k
  {
  }

  /** Firing another shot appends its projectiles to the volley. */
  lemma VolleyGrow(m: Maths, gun: Gun, s: Spatial, t: real, shots: seq<real>, c: real, draw: (nat, nat) -> Vec2)
    requires t != 0.0
    ensures Volley(m, gun, s, t, shots + [c], draw)
         == Volley(m, gun, s, t, shots, draw) + SpawnCommands(ShotBundle(m, gun, s, c, t, |shots|, draw))
  {
    assert (shots + [c])[..|shots|] == shots;
  }

  /** The next shot comes one cooldown after the last. */
  lemma ShotTimesGrow(t0: real, cooldown: real, n: nat)
    ensures ShotTimes(t0, cooldown, n) + [t0 + n as real * cooldown] == ShotTimes(t0, cooldown, n + 1)
  {
  }

  /** A shot one cooldown after the previous keeps the schedule. */
  lemma FiredShot(t0: real, cooldown: real, shots: seq<real>, c: real)
    requires shots == ShotTimes(t0, cooldown, |shots|)
    requires c == t0 + |shots| as real * cooldown
    ensures shots + [c] == ShotTimes(t0, cooldown, |shots + [c]|)
  {
    ShotTimesGrow(t0, cooldown, |shots|);
  }

  lemma NextShot(t0: real, cooldown: real, n: nat)
    ensures t0 + n as real * cooldown + cooldown == t0 + (n + 1) as real * cooldown
  {
    assert (n + 1) as real == n as real + 1.0;
    assert (n as real + 1.0) * cooldown == n as real * cooldown + cooldown;
  }

  /** The inner loop: spawns the projectiles of one shot. */
  method SpawnShot(m: Maths, gun: Gun, s: Spatial, c: real, t: real, k: nat, draw: (nat, nat) -> Vec2)
    returns (cs: seq<Command>)
    requires t != 0.0
    ensures cs == SpawnCommands(ShotBundle(m, gun, s, c, t, k, draw))
  {
    ShotBundleElements(m, gun, s, c, t, k, draw);
    cs := [];
    for i := 0 to gun.projectileCount
      invariant |cs| == i
      invariant forall j :: 0 <= j < i ==> cs[j] == Spawn(Projectile(m, gun, s, c, t, draw(k, j)))
    {
      cs := cs + [Spawn(Projectile(m, gun, s, c, t, draw(k, i)))];
    }
  }

  /** Spawns the projectiles of the next shot after those already queued. */
  method AppendShot(m: Maths, gun: Gun, s: Spatial, t: real, shots: seq<real>, cs: seq<Command>, c: real,
                    draw: (nat, nat) -> Vec2)
    returns (cs': seq<Command>)
    requires t != 0.0
    requires cs == Volley(m, gun, s, t, shots, draw)
    ensures cs' == Volley(m, gun, s, t, shots + [c], draw)
  {
    var more := SpawnShot(m, gun, s, c, t, |shots|, draw);
    VolleyGrow(m, gun, s, t, shots, c, draw);
    cs' := cs + more;
  }

  // --------------------------------------------------------- the firing loop

  /** The state of the firing loop after `shots`: the shoot flag is dropped
      after the first shot of a semi-automatic gun, each shot is one cooldown
      after the previous, the loop clock stands at the last shot and the timer
      was just reset to the cooldown. An automatic gun without a positive
      cooldown has fired only once, at the very end of the tick. */
  ghost predicate Scheduled(gun: Gun, shoot0: bool, target: real, shoot: bool, shots: seq<real>, current: real, timer: real) {
    && shoot == (shoot0 && (gun.auto || |shots| == 0))
    && (!gun.auto ==> |shots| <= 1)
    && (|shots| == 0 ==> current == 0.0 && timer == gun.cooldownTimer)
    && (|shots| > 0 ==> && current == shots[|shots| - 1] && timer == gun.cooldown && shoot0
                        && gun.cooldownTimer <= target && current <= target && target > 0.0)
    && (gun.auto && gun.cooldown <= 0.0 && |shots| > 0 ==> |shots| == 1 && current == target)
    && shots == ShotTimes(gun.cooldownTimer, gun.cooldown, |shots|)
  }

  /** A shot fired in the loop: the clock stood one cooldown (or, for the first
      shot, the initial timer) past the previous shot, the schedule grows by
      that time and the loop measure goes down. */
  lemma Fired(gun: Gun, shoot0: bool, target: real, shoot: bool, shots: seq<real>,
              before: real, timerBefore: real, current: real)
    requires Terminates(gun, shoot0, target)
    requires Scheduled(gun, shoot0, target, shoot, shots, before, timerBefore)
    requires before < target && shoot
    requires current == before + timerBefore && current <= target
    ensures current == gun.cooldownTimer + |shots| as real * gun.cooldown
    ensures Scheduled(gun, shoot0, target, shoot && gun.auto, shots + [current], current, gun.cooldown)
    ensures |shots| > 0 ==> && gun.cooldown > 0.0 && shoot && gun.auto
                            && 0 <= ((target - current) / gun.cooldown).Floor < ((target - before) / gun.cooldown).Floor
  {
    var t0 := gun.cooldownTimer;
    var cooldown := gun.cooldown;
    if |shots| > 0 {
      FloorStep(target - before, cooldown);
      NextShot(t0, cooldown, |shots| - 1);
      NonNegativeQuotient(target - current, cooldown);
    }
    FiredShot(t0, cooldown, shots, current);
  }

  /** The firing loop of one gun in a tick of length `target`, starting with
      its cooldown timer and the shoot decision: it returns the cooldown timer
      it leaves, the times of the shots and their spawn commands. */
  method Fire(m: Maths, gun: Gun, s: Spatial, shoot0: bool, target: real, draw: (nat, nat) -> Vec2)
    returns (timer: real, shots: seq<real>, cs: seq<Command>)
    requires m.Valid() && Terminates(gun, shoot0, target)
    ensures shots == ShotTimes(gun.cooldownTimer, gun.cooldown, ShotCount(gun, shoot0, target))
    ensures timer == FinalTimer(gun, shoot0, target)
    ensures target > 0.0 ==> cs == Volley(m, gun, s, target, shots, draw)
    ensures target <= 0.0 ==> cs == []
  {
    var current := 0.0;
    var shoot := shoot0;
    timer := gun.cooldownTimer;
    shots := [];
    cs := [];
    ghost var broke := false;
    while current < target
      invariant !broke
      invariant Scheduled(gun, shoot0, target, shoot, shots, current, timer)
      invariant |shots| > 0 ==> target > 0.0 && cs == Volley(m, gun, s, target, shots, draw)
      invariant |shots| == 0 ==> cs == []
      decreases (if |shots| == 0 then 1 else 0),
                (if shoot && gun.cooldown > 0.0 then ((target - current) / gun.cooldown).Floor else 0)
    {
      ghost var before := current;
      ghost var timerBefore := timer;
      current, timer := ProgressTime(current, target, timer);
      if shoot && timer == 0.0 {
        Fired(gun, shoot0, target, shoot, shots, before, timerBefore, current);
        timer := gun.cooldown;
        if !gun.auto {
          shoot := false;
        }
        cs := AppendShot(m, gun, s, target, shots, cs, current, draw);
        shots := shots + [current];
      } else {
        broke := true;
        Stopped(gun, shoot0, target, shoot, shots, before, timerBefore, current, timer);
        break;
      }
    }
    if !broke {
      Finished(gun, shoot0, target, shoot, shots, current, timer);
    }
  }

  /** The loop stops early: the timer did not run out within the tick, or the
      gun is done firing. */
  lemma Stopped(gun: Gun, shoot0: bool, target: real, shoot: bool, shots: seq<real>,
                before: real, timerBefore: real, current: real, timer: real)
    requires Terminates(gun, shoot0, target)
    requires Scheduled(gun, shoot0, target, shoot, shots, before, timerBefore)
    requires before < target
    requires current + timer == before + timerBefore
    requires (current == target && timer >= 0.0) || (timer == 0.0 && current <= target)
    requires timer == 0.0 <==> timerBefore <= target - before
    requires !(shoot && timer == 0.0)
    ensures |shots| == ShotCount(gun, shoot0, target)
    ensures timer == FinalTimer(gun, shoot0, target)
  {
    var t0 := gun.cooldownTimer;
    var n := |shots|;
    if n > 0 && gun.auto && gun.cooldown > 0.0 {
      assert before == t0 + (n - 1) as real * gun.cooldown;
      NextShot(t0, gun.cooldown, n - 1);
      assert t0 + n as real * gun.cooldown == before + gun.cooldown;
      CountFromBounds(t0, gun.cooldown, target, n);
    }
  }

  /** The loop runs to the end of the tick. */
  lemma Finished(gun: Gun, shoot0: bool, target: real, shoot: bool, shots: seq<real>, current: real, timer: real)
    requires Terminates(gun, shoot0, target)
    requires Scheduled(gun, shoot0, target, shoot, shots, current, timer)
    requires current >= target
    ensures |shots| == ShotCount(gun, shoot0, target)
    ensures timer == FinalTimer(gun, shoot0, target)
  {
    var t0 := gun.cooldownTimer;
    var n := |shots|;
    if n > 0 && gun.auto && gun.cooldown > 0.0 {
      assert target == t0 + (n - 1) as real * gun.cooldown;
      NextShot(t0, gun.cooldown, n - 1);
      assert t0 + n as real * gun.cooldown == target + gun.cooldown;
      CountFromBounds(t0, gun.cooldown, target, n);
    }
  }

  // -------------------------------------------------- the shot count's meaning

  /** Nothing is fired without the shoot decision or in an empty tick, a
      semi-automatic gun fires at most once, and a shot is fired exactly when
      the timer runs out within the tick. */
  lemma ShotCountCases(gun: Gun, shoot: bool, target: real)
    requires Terminates(gun, shoot, target)
    ensures !shoot || target <= 0.0 ==> ShotCount(gun, shoot, target) == 0
    ensures !gun.auto ==> ShotCount(gun, shoot, target) <= 1
    ensures ShotCount(gun, shoot, target) > 0 <==> shoot && 0.0 < target && gun.cooldownTimer <= target
  {
  }

  /** An automatic gun without a positive cooldown whose timer runs out exactly
      at the end of the tick fires once, and the loop ends with the timer at
      the cooldown. */
  lemma LastMomentShot(gun: Gun, target: real)
    requires gun.auto && gun.cooldown <= 0.0 && 0.0 < target && gun.cooldownTimer == target
    ensures Terminates(gun, true, target)
    ensures ShotCount(gun, true, target) == 1
    ensures FinalTimer(gun, true, target) == gun.cooldown
  {
  }

  /** Every shot falls between the initial timer and the end of the tick, and an
      automatic gun fires all the shots that fit: one more cooldown would pass
      the end of the tick, or its one shot was fired at the very end of the
      tick, after which the loop stops whatever the cooldown. */
  lemma ShotsWithinTick(gun: Gun, shoot: bool, target: real)
    requires Terminates(gun, shoot, target)
    ensures
      var n := ShotCount(gun, shoot, target);
      var times := ShotTimes(gun.cooldownTimer, gun.cooldown, n);
      && (forall k :: 0 <= k < n ==> gun.cooldownTimer <= times[k] <= target)
      && (gun.auto && n > 0 ==> || target < gun.cooldownTimer + n as real * gun.cooldown
                                 || (n == 1 && gun.cooldownTimer == target))
  {
    var t0 := gun.cooldownTimer;
    var cooldown := gun.cooldown;
    var n := ShotCount(gun, shoot, target);
    var times := ShotTimes(t0, cooldown, n);
    if gun.auto && n > 0 && t0 < target {
      assert n == ((target - t0) / cooldown).Floor + 1;
      CountBounds(t0, cooldown, target);
      ScheduleWithin(t0, cooldown, n, target);
    }
  }

  /** A schedule whose last shot is within `target` has every shot within it. */
  lemma ScheduleWithin(t0: real, cooldown: real, n: nat, target: real)
    requires cooldown > 0.0 && n >= 1 && t0 + (n - 1) as real * cooldown <= target
    ensures forall k :: 0 <= k < n ==> t0 <= ShotTimes(t0, cooldown, n)[k] <= target
  {
    forall k | 0 <= k < n
      ensures t0 <= ShotTimes(t0, cooldown, n)[k] <= target
    {
      MulMonotoneRight(0.0, k as real, cooldown);
      MulMonotoneRight(k as real, (n - 1) as real, cooldown);
    }
  }

  /** In a positive tick the timer left behind is the time still to go until
      the gun may fire again: the time of the next shot after those fired, less
      the tick, never below 0. */
  lemma FinalTimerRemaining(gun: Gun, shoot: bool, target: real)
    requires Terminates(gun, shoot, target) && gun.cooldown >= 0.0 && target > 0.0
    ensures FinalTimer(gun, shoot, target)
         == Max(0.0, gun.cooldownTimer + ShotCount(gun, shoot, target) as real * gun.cooldown - target)
  {
    var n := ShotCount(gun, shoot, target);
    if gun.auto && n > 0 {
      ShotsWithinTick(gun, shoot, target);
    }
  }

  /** After a tick in which the gun fired, it has to wait at most one cooldown. */
  lemma FinalTimerAfterShot(gun: Gun, shoot: bool, target: real)
    requires Terminates(gun, shoot, target) && gun.cooldown >= 0.0
    requires ShotCount(gun, shoot, target) > 0
    ensures 0.0 <= FinalTimer(gun, shoot, target) <= gun.cooldown
  {
    var t0 := gun.cooldownTimer;
    var n := ShotCount(gun, shoot, target);
    if gun.auto && gun.cooldownTimer < target {
      CountBounds(t0, gun.cooldown, target);
      NextShot(t0, gun.cooldown, n - 1);
    }
  }

  // ------------------------------------------------------ trigger and placement

  /** The holder query: an entity with a position and children. */
  predicate InHolderQuery(entities: map<EntityId, Entity>, id: EntityId) {
    id in entities && entities[id].position.Some? && |entities[id].children| > 0
  }

  /** The trigger is depressed only if the gun has a parent in the holder query
      that has a will, and then exactly as that will says. */
  function TriggerDepressed(entities: map<EntityId, Entity>, e: Entity): (r: bool)
    ensures r <==> && e.parent.Some? && InHolderQuery(entities, e.parent.value)
                   && entities[e.parent.value].will.Some? && entities[e.parent.value].will.value.depressTrigger
  {
    if e.parent.None? then false
    else
      var p := e.parent.value;
      if !InHolderQuery(entities, p) then false
      else if entities[p].will.None? then false
      else entities[p].will.value.depressTrigger
  }

  /** Where a gun is and how it moves: `None` where the system panics (a parent
      outside the holder query, a held gun without holding offsets, a loose gun
      without a position). A held gun sits `heldDistance` in front of its holder,
      turned by `heldAngle`, and moves with it; a loose gun uses its own
      components, with missing ones taken as zero. */
  function GunSpatial(m: Maths, entities: map<EntityId, Entity>, e: Entity): Option<Spatial> {
    if e.parent.Some? then
      var p := e.parent.value;
      if !InHolderQuery(entities, p) || e.holdingInfo.None? then None
      else
        var holder := entities[p];
        var holderAngle := holder.angle.GetOr(0.0);
        Some(Spatial(
          Add(holder.position.value, Rotate(m.fromAngle(holderAngle), Vec2(e.holdingInfo.value.heldDistance, 0.0))),
          holder.velocity.GetOr(Zero),
          holderAngle + e.holdingInfo.value.heldAngle,
          holder.angularVelocity.GetOr(0.0)))
    else if e.position.None? then None
    else
      Some(Spatial(e.position.value, e.velocity.GetOr(Zero), e.angle.GetOr(0.0), e.angularVelocity.GetOr(0.0)))
  }

  /** A held gun lies along its holder's facing, `heldDistance` from the holder,
      points `heldAngle` off the holder's angle and shares its velocities. */
  lemma HeldGunPlacement(m: Maths, entities: map<EntityId, Entity>, e: Entity)
    requires m.Valid() && e.parent.Some? && GunSpatial(m, entities, e).Some?
    ensures
      var holder := entities[e.parent.value];
      var g := GunSpatial(m, entities, e).value;
      var info := e.holdingInfo.value;
      && InHolderQuery(entities, e.parent.value) && e.holdingInfo.Some?
      && Sub(g.position, holder.position.value) == Scale(m.fromAngle(holder.angle.GetOr(0.0)), info.heldDistance)
      && m.Distance(g.position, holder.position.value) == Abs(info.heldDistance)
      && g.angle == holder.angle.GetOr(0.0) + info.heldAngle
      && g.velocity == holder.velocity.GetOr(Zero)
      && g.angularVelocity == holder.angularVelocity.GetOr(0.0)
  {
    var holder := entities[e.parent.value];
    var g := GunSpatial(m, entities, e).value;
    var u := m.fromAngle(holder.angle.GetOr(0.0));
    var d := e.holdingInfo.value.heldDistance;
    var a := Abs(d);
    assert Sub(g.position, holder.position.value) == Scale(u, d);
    assert Dot(u, u) == 1.0;
    assert Dot(Scale(u, d), Scale(u, d)) == d * d * Dot(u, u);
    assert a * a == d * d;
    assert Dot(Sub(g.position, holder.position.value), Sub(g.position, holder.position.value)) == a * a;
    SqrtOfSquare(m, a);
  }

  /** A loose gun without a parent uses its own position, and zero for the
      components it lacks. */
  lemma LooseGunPlacement(m: Maths, entities: map<EntityId, Entity>, e: Entity)
    requires e.parent.None?
    ensures GunSpatial(m, entities, e).Some? <==> e.position.Some?
    ensures e.position.Some? ==>
      var g := GunSpatial(m, entities, e).value;
      && g.position == e.position.value
      && (e.velocity.None? ==> g.velocity == Zero)
      && (e.angle.None? ==> g.angle == 0.0)
      && (e.angularVelocity.None? ==> g.angularVelocity == 0.0)
  {
  }

  // ---------------------------------------------------------------- the system

  /** The gun with this tick's trigger state. */
  function Triggered(entities: map<EntityId, Entity>, e: Entity): (g: Gun)
    requires e.gun.Some?
    ensures g == e.gun.value.(triggerDepressed := TriggerDepressed(entities, e))
  {
    e.gun.value.(triggerDepressed := TriggerDepressed(entities, e))
  }

  /** A gun the system handles without panicking or looping forever. */
  predicate GunReady(m: Maths, entities: map<EntityId, Entity>, dt: real, e: Entity) {
    e.gun.Some? ==>
      && GunSpatial(m, entities, e).Some?
      && Terminates(Triggered(entities, e), WantsToShoot(Triggered(entities, e)), dt)
  }

  /** Every gun of the table is ready. */
  predicate AllReady(m: Maths, entities: map<EntityId, Entity>, dt: real) {
    forall id :: id in entities ==> GunReady(m, entities, dt, entities[id])
  }

  /** The entity after the system: only its gun changes, taking this tick's
      trigger state and the cooldown timer the firing loop leaves. */
  function GunUpdate(m: Maths, entities: map<EntityId, Entity>, dt: real, e: Entity): Entity
    requires GunReady(m, entities, dt, e)
  {
    if e.gun.None? then e
    else
      var g := Triggered(entities, e);
      e.(gun := Some(g.(cooldownTimer := FinalTimer(g, WantsToShoot(g), dt))))
  }

  /** The spawn commands one gun queues in a tick of length `dt`. */
  function GunCommands(m: Maths, entities: map<EntityId, Entity>, dt: real, id: EntityId, e: Entity,
                       draw: (EntityId, nat, nat) -> Vec2): seq<Command>
    requires m.Valid() && GunReady(m, entities, dt, e)
  {
    if e.gun.None? || dt <= 0.0 then []
    else
      var g := Triggered(entities, e);
      var times := ShotTimes(g.cooldownTimer, g.cooldown, ShotCount(g, WantsToShoot(g), dt));
      Volley(m, g, GunSpatial(m, entities, e).value, dt, times, (k: nat, i: nat) => draw(id, k, i))
  }

  /** The commands of the guns visited in `order`, in that order. */
  function SystemCommands(m: Maths, entities: map<EntityId, Entity>, dt: real, order: seq<EntityId>,
                          draw: (EntityId, nat, nat) -> Vec2): seq<Command>
    requires m.Valid()
    requires AllReady(m, entities, dt) && forall id :: id in order ==> id in entities
    decreases |order|
  {
    if |order| == 0 then []
    else
      var id := order[|order| - 1];
      SystemCommands(m, entities, dt, order[..|order| - 1], draw) + GunCommands(m, entities, dt, id, entities[id], draw)
  }

  /** The system changes a gun's trigger state and cooldown timer and nothing
      else; an entity without a gun is untouched. */
  lemma GunUpdateFrame(m: Maths, entities: map<EntityId, Entity>, dt: real, e: Entity)
    requires GunReady(m, entities, dt, e)
    ensures
      var x := GunUpdate(m, entities, dt, e);
      && (e.gun.None? ==> x == e)
      && (e.gun.Some? ==> && x.gun.Some? && x == e.(gun := x.gun)
                          && x.gun.value == e.gun.value.(triggerDepressed := x.gun.value.triggerDepressed,
                                                         cooldownTimer := x.gun.value.cooldownTimer)
                          && x.gun.value.triggerDepressed == TriggerDepressed(entities, e))
  {
  }

  /** A gun that fires nothing in a tick only lets its timer run down. */
  lemma IdleGunTimer(m: Maths, entities: map<EntityId, Entity>, dt: real, e: Entity)
    requires GunReady(m, entities, dt, e) && e.gun.Some? && dt > 0.0
    requires !WantsToShoot(Triggered(entities, e))
    ensures GunUpdate(m, entities, dt, e).gun.value.cooldownTimer == Max(0.0, e.gun.value.cooldownTimer - dt)
  {
  }

  /** One iteration of the system's loop: the gun `id` fires its tick. */
  method FireGun(m: Maths, entities: map<EntityId, Entity>, id: EntityId, dt: real, draw: (EntityId, nat, nat) -> Vec2)
    returns (e': Entity, more: seq<Command>)
    requires m.Valid() && id in entities && GunReady(m, entities, dt, entities[id])
    ensures e' == GunUpdate(m, entities, dt, entities[id])
    ensures more == GunCommands(m, entities, dt, id, entities[id], draw)
  {
    var e := entities[id];
    e' := e;
    more := [];
    if e.gun.Some? {
      var g := Triggered(entities, e);
      var timer, times;
      timer, times, more := Fire(m, g, GunSpatial(m, entities, e).value, WantsToShoot(g), dt,
                                 (k: nat, i: nat) => draw(id, k, i));
      e' := e.(gun := Some(g.(cooldownTimer := timer)));
    }
  }

  /** The commands of one more gun come after those already queued. */
  lemma SystemCommandsStep(m: Maths, entities: map<EntityId, Entity>, dt: real, order: seq<EntityId>, i: nat,
                           draw: (EntityId, nat, nat) -> Vec2)
    requires m.Valid() && i < |order|
    requires AllReady(m, entities, dt) && forall id :: id in order ==> id in entities
    ensures SystemCommands(m, entities, dt, order[..i + 1], draw)
         == SystemCommands(m, entities, dt, order[..i], draw) + GunCommands(m, entities, dt, order[i], entities[order[i]], draw)
  {
    assert order[..i + 1][..i] == order[..i];
  }

  /** The table once the guns in `done` have fired. */
  ghost function Updated(m: Maths, start: map<EntityId, Entity>, dt: real, done: seq<EntityId>): map<EntityId, Entity>
    requires AllReady(m, start, dt)
  {
    map id | id in start :: if id in done then GunUpdate(m, start, dt, start[id]) else start[id]
  }

  lemma UpdatedGrows(m: Maths, start: map<EntityId, Entity>, dt: real, order: seq<EntityId>, i: nat)
    requires AllReady(m, start, dt) && i < |order| && order[i] in start
    ensures Updated(m, start, dt, order[..i + 1])
         == Updated(m, start, dt, order[..i])[order[i] := GunUpdate(m, start, dt, start[order[i]])]
  {
    assert forall x :: x in order[..i + 1] <==> x in order[..i] || x == order[i];
  }

  /** `guns`: every gun takes its trigger from its holder's will, works out
      where it is, and runs the firing loop, queueing the projectiles it fires.
      The guns are visited in `order`; `draw(id, k, i)` is the unit-disc sample
      of projectile `i` of shot `k` of gun `id`. The system writes only guns and
      reads no gun of another entity, so reading the table as it was at the
      start is the same as reading it as it goes. */
  method GunSystem(w: World, m: Maths, order: seq<EntityId>, dt: real, draw: (EntityId, nat, nat) -> Vec2)
    returns (cs: seq<Command>)
    requires m.Valid() && Enumerates(order, w.entities.Keys)
    requires AllReady(m, w.entities, dt)
    modifies w
    ensures w.nextId == old(w.nextId)
    ensures w.entities.Keys == old(w.entities).Keys
    ensures forall id :: id in w.entities ==> w.entities[id] == GunUpdate(m, old(w.entities), dt, old(w.entities)[id])
    ensures cs == SystemCommands(m, old(w.entities), dt, order, draw)
  {
    var start := w.entities;
    cs := [];
    for i := 0 to |order|
      invariant w.nextId == old(w.nextId)
      invariant w.entities == Updated(m, start, dt, order[..i])
      invariant cs == SystemCommands(m, start, dt, order[..i], draw)
    {
      var id := order[i];
      var e', more := FireGun(m, start, id, dt, draw);
      SystemCommandsStep(m, start, dt, order, i, draw);
      UpdatedGrows(m, start, dt, order, i);
      w.entities := w.entities[id := e'];
      cs := cs + more;
    }
    assert order[..|order|] == order;
  }
}
