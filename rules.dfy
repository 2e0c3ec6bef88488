/** Constants and the pure rules of the shooter (main.py): circle overlap,
    arena bounds, the spawn cadence and spawn placement, the firing guards,
    stage promotion, and what one move or one hit does to an entity.
    Positions are exact reals standing in for Panda3D's floats; a node's
    x is the horizontal and its z the vertical screen coordinate. */
module Rules {

  const SCREEN_HALF: real := 1.05
  const BULLET_SPEED: real := 3.0
  const ZOMBIE_BASE_SPEED: real := 0.25
  const PLAYER_RADIUS: real := 0.08
  const ZOMBIE_RADIUS: real := 0.09
  const BULLET_RADIUS: real := 0.03
  const KILLS_PER_STAGE: int := 20
  const SHOOT_COOLDOWN: real := 0.2
  /** Player hp at the start of a session (and its maximum). */
  const PLAYER_MAX_HP: int := 100
  /** Hp a zombie takes from the player on contact. */
  const CONTACT_DAMAGE: int := 10
  /** Default damage of a bullet. */
  const BULLET_DAMAGE: int := 10
  /** Shortest aim vector that fires a bullet. */
  const MIN_AIM_LENGTH: real := 0.01
  /** Half-width of the strip along an edge where zombies appear. */
  const SPAWN_SPREAD: real := 1.0

  /** A bullet as a value: position, direction, damage and the `dead` flag. */
  datatype BulletVal = BulletVal(x: real, z: real, dirX: real, dirZ: real, damage: int, dead: bool)

  /** A zombie as a value: position, hp, speed and the `dead` flag. */
  datatype ZombieVal = ZombieVal(x: real, z: real, hp: int, speed: real, dead: bool)

  /** One tick of zombie movement towards the player: given a zombie's
      position and speed, its new position. */
  type Seek = (real, real, real) -> (real, real)

  /** The circle test: the squared distance between the centres is at most
      the square of the summed radii `reach`. */
  predicate Overlaps(x1: real, z1: real, x2: real, z2: real, reach: real) {
    (x1 - x2) * (x1 - x2) + (z1 - z2) * (z1 - z2) <= reach * reach
  }

  /** Overlap is symmetric, needs both offsets within `reach`, and holds
      whenever both offsets are within half of `reach`. */
  lemma OverlapsBox(x1: real, z1: real, x2: real, z2: real, reach: real)
    requires reach >= 0.0
    ensures Overlaps(x1, z1, x2, z2, reach) == Overlaps(x2, z2, x1, z1, reach)
    ensures Overlaps(x1, z1, x2, z2, reach) ==>
              -reach <= x1 - x2 <= reach && -reach <= z1 - z2 <= reach
    ensures -reach / 2.0 <= x1 - x2 <= reach / 2.0 && -reach / 2.0 <= z1 - z2 <= reach / 2.0 ==>
              Overlaps(x1, z1, x2, z2, reach)
  {
    var dx, dz := x1 - x2, z1 - z2;
    assert (x2 - x1) * (x2 - x1) == dx * dx;
    assert (z2 - z1) * (z2 - z1) == dz * dz;
    if Overlaps(x1, z1, x2, z2, reach) {
      SquareBound(dx, reach);
      SquareBound(dz, reach);
    }
    if -reach / 2.0 <= dx <= reach / 2.0 && -reach / 2.0 <= dz <= reach / 2.0 {
      SquareAtMost(dx, reach / 2.0);
      SquareAtMost(dz, reach / 2.0);
    }
  }

  lemma SquareBound(d: real, reach: real)
    requires reach >= 0.0 && d * d <= reach * reach
    ensures -reach <= d <= reach
  {
    SquareMonotone(reach, d);
    SquareMonotone(reach, -d);
  }

  /** Squaring is monotone on non-negative reals. */
  lemma SquareMonotone(a: real, b: real)
    requires a >= 0.0
    ensures a <= b ==> a * a <= b * b
    ensures a < b ==> a * a < b * b
  {
    if a < b {
      var aa, ab, bb := a * a, a * b, b * b;
      assert aa <= ab by { assert a * (b - a) >= 0.0; }
      assert ab < bb by { assert b * (b - a) > 0.0; }
    }
  }

  lemma SquareAtMost(d: real, h: real)
    requires -h <= d <= h
    ensures d * d <= h * h
  {
    if d >= 0.0 {
      assert d * d <= h * d <= h * h;
    } else {
      assert d * d == (-d) * (-d) <= h * (-d) <= h * h;
    }
  }

  /** Zombie touches the player (main.py:206-208). */
  predicate TouchesPlayer(zx: real, zz: real, px: real, pz: real) {
    Overlaps(zx, zz, px, pz, ZOMBIE_RADIUS + PLAYER_RADIUS)
  }

  /** Bullet touches zombie (main.py:221-223). */
  predicate HitsZombie(zx: real, zz: real, bx: real, bz: real) {
    Overlaps(zx, zz, bx, bz, BULLET_RADIUS + ZOMBIE_RADIUS)
  }

  function Abs(r: real): real {
    if r < 0.0 then -r else r
  }

  /** Neither coordinate is beyond the arena's half-extent, that is
      `Abs(x) <= SCREEN_HALF && Abs(z) <= SCREEN_HALF`. */
  predicate InBounds(x: real, z: real) {
    -SCREEN_HALF <= x <= SCREEN_HALF && -SCREEN_HALF <= z <= SCREEN_HALF
  }

  /** Delay before the spawner fires again: `max(0.5, 2.0 - stage * 0.1)`. */
  function SpawnInterval(stage: int): real {
    var d := 2.0 - stage as real * 0.1;
    if d < 0.5 then 0.5 else d
  }

  /** The interval is whole tenths `max(5, 20 - stage)`, never below 0.5 and
      never longer at a later stage. */
  lemma SpawnIntervalShape(stage: int, later: int)
    requires stage <= later
    ensures SpawnInterval(stage) == (if 20 - stage < 5 then 5 else 20 - stage) as real / 10.0
    ensures SpawnInterval(stage) >= 0.5
    ensures SpawnInterval(later) <= SpawnInterval(stage)
  {
  }

  /** The four edges a zombie can appear on. */
  datatype Edge = Top | Bottom | Left | Right

  /** Where a new zombie appears: on `edge`, at coordinate `t` along it
      (`uniform(-1.0, 1.0)` in the source). */
  function SpawnPosition(edge: Edge, t: real): (p: (real, real))
    requires -SPAWN_SPREAD <= t <= SPAWN_SPREAD
    ensures p.0 == SCREEN_HALF || p.0 == -SCREEN_HALF || p.1 == SCREEN_HALF || p.1 == -SCREEN_HALF
    ensures InBounds(p.0, p.1)
    ensures (edge == Top || edge == Bottom) <==> p.0 == t
    ensures (edge == Left || edge == Right) <==> p.1 == t
  {
    match edge
    case Top => (t, SCREEN_HALF)
    case Bottom => (t, -SCREEN_HALF)
    case Left => (-SCREEN_HALF, t)
    case Right => (SCREEN_HALF, t)
  }

  /** Zombie speed at a stage: the base speed scaled by `1 + 0.1 * (stage - 1)`. */
  function ZombieSpeed(stage: int): (s: real)
    ensures stage >= 1 ==> s >= ZOMBIE_BASE_SPEED
  {
    ZOMBIE_BASE_SPEED * (1.0 + 0.1 * (stage - 1) as real)
  }

  /** The aim vector is long enough to fire. The source compares the vector's
      length with 0.01; this compares squares. */
  predicate AimLongEnough(mx: real, my: real) {
    mx * mx + my * my >= MIN_AIM_LENGTH * MIN_AIM_LENGTH
  }

  /** Comparing squares agrees with comparing the length itself, for any
      non-negative `len` whose square is the squared length of the vector. */
  lemma AimLengthAgrees(mx: real, my: real, len: real)
    requires len >= 0.0 && len * len == mx * mx + my * my
    ensures AimLongEnough(mx, my) <==> len >= MIN_AIM_LENGTH
  {
    SquareMonotone(MIN_AIM_LENGTH, len);
    SquareMonotone(len, MIN_AIM_LENGTH);
  }

  /** `check_stage_up` after a kill: the stage rises when the kill count is a
      non-zero multiple of KILLS_PER_STAGE. */
  function StageUp(kills: int, stage: int): int {
    if kills != 0 && kills % KILLS_PER_STAGE == 0 then stage + 1 else stage
  }

  /** Stage equals one more than the completed quotas of kills. */
  predicate StageMatches(kills: int, stage: int) {
    kills >= 0 && stage == 1 + kills / KILLS_PER_STAGE
  }

  /** One kill followed by `check_stage_up` keeps the stage matched to the
      kill count, and the stage rises by one exactly at a multiple of 20. */
  lemma StageUpKeepsMatch(kills: int, stage: int)
    requires StageMatches(kills, stage)
    ensures StageMatches(kills + 1, StageUp(kills + 1, stage))
    ensures StageUp(kills + 1, stage) == if (kills + 1) % KILLS_PER_STAGE == 0 then stage + 1 else stage
  {
    var q, r := kills / KILLS_PER_STAGE, kills % KILLS_PER_STAGE;
    assert kills == KILLS_PER_STAGE * q + r && 0 <= r < KILLS_PER_STAGE;
    if r == KILLS_PER_STAGE - 1 {
      assert kills + 1 == KILLS_PER_STAGE * (q + 1);
    } else {
      assert kills + 1 == KILLS_PER_STAGE * q + (r + 1);
    }
  }

  /** `Bullet.update`: a live bullet moves along its direction by
      BULLET_SPEED * dt and dies once either coordinate leaves the arena;
      a dead bullet stays as it is. */
  function MoveBullet(b: BulletVal, dt: real): BulletVal {
    if b.dead then b
    else
      var nx := b.x + b.dirX * BULLET_SPEED * dt;
      var nz := b.z + b.dirZ * BULLET_SPEED * dt;
      b.(x := nx, z := nz, dead := !InBounds(nx, nz))
  }

  /** `Zombie.update`: a live zombie moves to the position `seek` gives; a
      dead one stays where it is. */
  function MoveZombie(zb: ZombieVal, seek: Seek): ZombieVal {
    if zb.dead then zb
    else
      var p := seek(zb.x, zb.z, zb.speed);
      zb.(x := p.0, z := p.1)
  }

  /** `Zombie.hurt(dmg)`. */
  function Hurt(zb: ZombieVal, dmg: int): ZombieVal {
    var hp := zb.hp - dmg;
    zb.(hp := hp, dead := zb.dead || hp <= 0)
  }

  /** Zombie liveness invariant: a zombie not marked dead has hp left. */
  predicate AliveHasHp(zb: ZombieVal) {
    zb.dead || zb.hp > 0
  }

  /** Every listed zombie keeps the liveness invariant. */
  predicate AllAlive(zs: seq<ZombieVal>) {
    forall i :: 0 <= i < |zs| ==> AliveHasHp(zs[i])
  }

  /** A bullet still in flight: live and inside the arena. */
  predicate Flying(b: BulletVal) {
    !b.dead && InBounds(b.x, b.z)
  }

  /** Every listed bullet is in flight. */
  predicate AllFlying(bs: seq<BulletVal>) {
    forall i :: 0 <= i < |bs| ==> Flying(bs[i])
  }

  /** Hurting lowers hp by exactly `dmg`, kills the zombie exactly when its
      hp is spent (or keeps it dead), moves nothing, and keeps the liveness
      invariant. */
  lemma HurtEffect(zb: ZombieVal, dmg: int)
    ensures Hurt(zb, dmg).hp == zb.hp - dmg
    ensures Hurt(zb, dmg).dead <==> zb.dead || zb.hp - dmg <= 0
    ensures Hurt(zb, dmg).(hp := zb.hp, dead := zb.dead) == zb
    ensures AliveHasHp(Hurt(zb, dmg))
  {
  }

  /** A bullet that survives a move is live and inside the arena; a live
      bullet dies exactly when its new position is outside; a dead bullet
      does not move. */
  lemma MoveBulletEffect(b: BulletVal, dt: real)
    ensures !MoveBullet(b, dt).dead ==> InBounds(MoveBullet(b, dt).x, MoveBullet(b, dt).z)
    ensures !b.dead ==> (MoveBullet(b, dt).dead <==> !InBounds(MoveBullet(b, dt).x, MoveBullet(b, dt).z))
    ensures b.dead ==> MoveBullet(b, dt) == b
    ensures MoveBullet(b, dt).(x := b.x, z := b.z, dead := b.dead) == b
  {
  }
}
