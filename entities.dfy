/** The three game objects of main.py as classes whose fields the game
    updates in place. Their Panda3D nodes are reduced to the node's x and z
    coordinates; creating, moving and removing the sprite is presentation. */
module Entities {
  import opened Rules

  /** `Bullet` (main.py:46-65). */
  class Bullet {
    var x: real
    var z: real
    const dirX: real
    const dirZ: real
    const damage: int
    var dead: bool

    function View(): BulletVal
      reads this
    {
      BulletVal(x, z, dirX, dirZ, damage, dead)
    }

    /** A live bullet at (`x0`, `z0`) flying along the direction
        (`dirX`, `dirZ`) the caller gives. */
    constructor (x0: real, z0: real, dirX: real, dirZ: real, damage: int)
      ensures View() == BulletVal(x0, z0, dirX, dirZ, damage, false)
    {
      x, z := x0, z0;
      this.dirX, this.dirZ := dirX, dirZ;
      this.damage := damage;
      dead := false;
    }

    /** `update(dt)`: move, then die if either coordinate left the arena. */
    method Update(dt: real)
      modifies this
      ensures View() == MoveBullet(old(View()), dt)
    {
      if dead {
        return;
      }
      x, z := x + dirX * BULLET_SPEED * dt, z + dirZ * BULLET_SPEED * dt;
      if Abs(x) > SCREEN_HALF || Abs(z) > SCREEN_HALF {
        Destroy();
      }
    }

    method Destroy()
      modifies this
      ensures View() == old(View()).(dead := true)
    {
      dead := true;
    }
  }

  /** `Zombie` (main.py:68-106). */
  class Zombie {
    var x: real
    var z: real
    var hp: int
    const speed: real
    var dead: bool

    function View(): ZombieVal
      reads this
    {
      ZombieVal(x, z, hp, speed, dead)
    }

    /** A live zombie for `stage` on `edge` at coordinate `t` along it, with
        hp `hp0` (the source's `int(ZOMBIE_BASE_HP * hp_scale)`). */
    constructor (stage: int, hp0: int, edge: Edge, t: real)
      requires -SPAWN_SPREAD <= t <= SPAWN_SPREAD
      ensures View() == ZombieVal(SpawnPosition(edge, t).0, SpawnPosition(edge, t).1, hp0, ZombieSpeed(stage), false)
    {
      hp := hp0;
      speed := ZombieSpeed(stage);
      var p := SpawnPosition(edge, t);
      x, z := p.0, p.1;
      dead := false;
    }

    /** `update(dt, target_pos)`: a live zombie steps towards the player. */
    method Update(seek: Seek)
      modifies this
      ensures View() == MoveZombie(old(View()), seek)
    {
      if dead {
        return;
      }
      var p := seek(x, z, speed);
      x, z := p.0, p.1;
    }

    /** `hurt(dmg)`. */
    method Hurt(dmg: int)
      modifies this
      ensures View() == Rules.Hurt(old(View()), dmg)
    {
      hp := hp - dmg;
      if hp <= 0 {
        Destroy();
      }
    }

    method Destroy()
      modifies this
      ensures View() == old(View()).(dead := true)
    {
      dead := true;
    }
  }

  /** `Player` (main.py:109-121). The player sits at the origin. */
  class Player {
    var hp: int
    const maxHp: int
    var lastShot: real

    constructor ()
      ensures hp == PLAYER_MAX_HP && maxHp == PLAYER_MAX_HP && lastShot == 0.0
    {
      hp := PLAYER_MAX_HP;
      maxHp := PLAYER_MAX_HP;
      lastShot := 0.0;
    }

    /** `can_shoot()`: the cooldown has passed since the last shot. A shot
        is only ever allowed strictly after the last one. */
    predicate CanShoot(now: real): (ok: bool)
      reads this
      ensures ok <==> now >= lastShot + SHOOT_COOLDOWN
      ensures ok ==> now > lastShot
    {
      now - lastShot >= SHOOT_COOLDOWN
    }

    /** `shoot()`: restart the cooldown. */
    method Shoot(now: real)
      modifies this
      ensures lastShot == now && hp == old(hp)
      ensures !CanShoot(now)
    {
      lastShot := now;
    }
  }
}
