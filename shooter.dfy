/** `ZombieShooter` (main.py:126-245): the object that owns the player, the
    bullet and zombie lists and the kill and stage counters, and whose
    callbacks the game framework runs one at a time: the per-frame
    `update`, the recurring `spawn_zombie`, and `on_mouse_click`. Each
    callback is proved against its description on values in Simulation and
    Rules, and keeps the invariant `Valid()`.

    The lists hold each bullet and zombie as its value (position, direction
    or speed, hp, `dead` flag). A loop over a copy of a list that updates an
    element and then removes it edits the element at its position in the
    live list, and deletes that position. */
module Shooter {
  import opened Rules
  import opened ListOps
  import opened Simulation
  import opened Entities

  class ZombieShooter {
    const player: Player
    var bullets: seq<BulletVal>
    var zombies: seq<ZombieVal>
    var stage: int
    var kills: int
    /** The `gameUpdate` task is still registered. */
    var updating: bool
    /** The `spawner` task is still registered. */
    var spawning: bool

    /** The game state as a value. */
    function View(): World
      reads this, player
    {
      World(player.hp, player.lastShot, bullets, zombies, kills, stage, updating, spawning)
    }

    /** What holds between callbacks (Simulation.Inv). */
    ghost predicate Valid()
      reads this, player
    {
      Inv(View())
    }

    constructor ()
      ensures Valid() && View() == INITIAL && fresh(player)
    {
      player := new Player();
      bullets, zombies := [], [];
      stage, kills := 1, 0;
      updating, spawning := true, true;
      new;
      InitialInv();
    }

    /** `on_mouse_click` at time `now`. `hasMouse` says whether the pointer is
        in the window, (`mx`, `my`) is the aim vector from the player, and
        (`ux`, `uy`) is that vector normalised: a unit vector pointing the
        same way, whenever the aim is long enough to fire. A bullet is added at the
        player and the cooldown restarts exactly when the pointer is in the
        window, the cooldown has passed and the aim vector is long enough;
        otherwise nothing changes. The game being over does not matter. */
    method OnMouseClick(now: real, hasMouse: bool, mx: real, my: real, ux: real, uy: real) returns (fired: bool)
      requires Valid()
      requires AimLongEnough(mx, my) ==> ux * ux + uy * uy == 1.0 && ux * my == uy * mx && ux * mx + uy * my > 0.0
      modifies this`bullets, player
      ensures Valid()
      ensures fired == (hasMouse && old(player.CanShoot(now)) && AimLongEnough(mx, my))
      ensures View() == if fired
                        then old(View()).(lastShot := now,
                                          bullets := old(bullets) + [BulletVal(PLAYER_X, PLAYER_Z, ux, uy, BULLET_DAMAGE, false)])
                        else old(View())
    {
      if !hasMouse {
        return false;
      }
      if !player.CanShoot(now) {
        return false;
      }
      if !AimLongEnough(mx, my) {
        return false;
      }
      ghost var w := View();
      var bullet := BulletVal(PLAYER_X, PLAYER_Z, ux, uy, BULLET_DAMAGE, false);
      bullets := bullets + [bullet];
      player.Shoot(now);
      FireKeepsInv(w, now, bullet);
      return true;
    }

    /** `spawn_zombie`: a new zombie for the current stage joins the end of
        the list, and the spawner is re-armed after `SpawnInterval(stage)`.
        `hp0` stands for the stage-scaled hp, `edge` and `t` for the random
        edge and coordinate. */
    method SpawnZombie(hp0: int, edge: Edge, t: real) returns (interval: real)
      requires Valid() && spawning
      requires hp0 > 0 && -SPAWN_SPREAD <= t <= SPAWN_SPREAD
      modifies this`zombies
      ensures Valid()
      ensures View() == old(View()).(zombies := old(zombies)
                          + [ZombieVal(SpawnPosition(edge, t).0, SpawnPosition(edge, t).1, hp0, ZombieSpeed(stage), false)])
      ensures interval == SpawnInterval(stage) >= 0.5
    {
      ghost var w := View();
      var p := SpawnPosition(edge, t);
      var zombie := ZombieVal(p.0, p.1, hp0, ZombieSpeed(stage), false);
      zombies := zombies + [zombie];
      SpawnKeepsInv(w, zombie);
      interval := SpawnInterval(stage);
      SpawnIntervalShape(stage, stage);
    }

    /** `update`: one tick, as `Tick` describes it. */
    method Update(dt: real, seek: Seek)
      requires Valid() && updating
      modifies this, player
      ensures Valid()
      ensures View() == Tick(old(View()), dt, seek)
    {
      TickKeepsInv(View(), dt, seek);
      AdvanceBullets(dt);
      var over := AdvanceZombies(seek);
      if over {
        GameOver();
        updating := false;
        return;
      }
      ResolveHits();
    }

    /** The first loop of `update` (main.py:192-195): each bullet of a copy
        of the list moves, and leaves the list if it died. */
    method AdvanceBullets(dt: real)
      modifies this`bullets
      ensures bullets == BulletPass(old(bullets), dt)
    {
      ghost var snapshot := bullets;
      var n := |bullets|;
      Ends(BulletPass([], dt), snapshot, snapshot);
      for t := 0 to n
        invariant bullets == BulletPass(snapshot[..t], dt) + snapshot[t..]
      {
        BulletStep(|bullets| - (n - t), dt, snapshot, t);
      }
      Ends(bullets, snapshot, snapshot);
    }

    /** One iteration of the bullet loop, on the bullet at position `i` of
        the list, which is bullet `t` of the copy `snapshot`: it moves, and
        leaves the list if it died, which extends the bullet pass by one
        bullet. `next` is the position of the following bullet. */
    method BulletStep(i: nat, dt: real, ghost snapshot: seq<BulletVal>, ghost t: nat)
      requires t < |snapshot|
      requires bullets == BulletPass(snapshot[..t], dt) + snapshot[t..] && i == |BulletPass(snapshot[..t], dt)|
      modifies this`bullets
      ensures bullets == BulletPass(snapshot[..t + 1], dt) + snapshot[t + 1..]
    {
      ghost var done := BulletPass(snapshot[..t], dt);
      PrefixStep(snapshot, t);
      WriteAtBoundary(done, snapshot, t, MoveBullet(snapshot[t], dt));
      var m := MoveBullet(bullets[i], dt);
      bullets := bullets[i := m];
      if m.dead {
        DeleteAtBoundary(done, m, snapshot[t + 1..]);
        bullets := bullets[..i] + bullets[i + 1..];
      }
    }

    /** The second loop of `update` (main.py:198-213); `over` reports that
        the player's hp fell to 0 or below and the loop returned early. */
    method AdvanceZombies(seek: Seek) returns (over: bool)
      modifies this`zombies, player
      ensures var c := ZombiePass(old(zombies), old(player.hp), PLAYER_X, PLAYER_Z, seek);
        zombies == c.zombies && player.hp == c.hp && over == c.over
      ensures player.lastShot == old(player.lastShot)
    {
      ghost var snapshot := zombies;
      ghost var hp0 := player.hp;
      var n := |zombies|;
      over := false;
      Ends(ZombiePass([], hp0, PLAYER_X, PLAYER_Z, seek).zombies, snapshot, snapshot);
      for t := 0 to n
        invariant var c := ZombiePass(snapshot[..t], hp0, PLAYER_X, PLAYER_Z, seek);
          zombies == c.zombies + snapshot[t..] && player.hp == c.hp && !c.over
        invariant player.lastShot == old(player.lastShot)
      {
        over := ZombieStep(|zombies| - (n - t), seek, snapshot, t, hp0);
        if over {
          ZombiePassAfterOver(snapshot, t + 1, hp0, PLAYER_X, PLAYER_Z, seek);
          return;
        }
      }
      Ends(zombies, snapshot, snapshot);
    }

    /** One iteration of the zombie loop, on the zombie at position `i` of
        the list, which is zombie `t` of the copy `snapshot`: it moves; if it
        is dead it leaves the list; if it then touches the player, the player
        loses CONTACT_DAMAGE hp, the zombie is marked dead, and `over`
        reports hp at 0 or below. This extends the zombie pass by one zombie. */
    method ZombieStep(i: nat, seek: Seek, ghost snapshot: seq<ZombieVal>, ghost t: nat, ghost hp0: int)
        returns (over: bool)
      requires t < |snapshot|
      requires var c := ZombiePass(snapshot[..t], hp0, PLAYER_X, PLAYER_Z, seek);
        zombies == c.zombies + snapshot[t..] && i == |c.zombies| && player.hp == c.hp && !c.over
      modifies this`zombies, player
      ensures var c := ZombiePass(snapshot[..t + 1], hp0, PLAYER_X, PLAYER_Z, seek);
        zombies == c.zombies + snapshot[t + 1..] && player.hp == c.hp && over == c.over
      ensures player.lastShot == old(player.lastShot)
    {
      ghost var done := ZombiePass(snapshot[..t], hp0, PLAYER_X, PLAYER_Z, seek).zombies;
      PrefixStep(snapshot, t);
      WriteAtBoundary(done, snapshot, t, MoveZombie(snapshot[t], seek));
      var m := MoveZombie(zombies[i], seek);
      zombies := zombies[i := m];
      over := false;
      if m.dead {
        DeleteAtBoundary(done, m, snapshot[t + 1..]);
        zombies := zombies[..i] + zombies[i + 1..];
        return;
      }
      if TouchesPlayer(m.x, m.z, PLAYER_X, PLAYER_Z) {
        player.hp := player.hp - CONTACT_DAMAGE;
        WriteAtBoundary(done, snapshot, t, m.(dead := true));
        zombies := zombies[i := m.(dead := true)];
        over := player.hp <= 0;
      }
    }

    /** The third loop of `update` (main.py:216-231): each live bullet of a
        copy of the list looks for the first zombie it touches; if there is
        one, the zombie is hurt, the bullet is removed, and a zombie that
        died is removed and counted. */
    method ResolveHits()
      modifies this`bullets, this`zombies, this`kills, this`stage
      ensures var h := HitPass(old(bullets), old(zombies), old(kills), old(stage));
        bullets == h.bullets && zombies == h.zombies && kills == h.kills && stage == h.stage
    {
      ghost var snapshot, zs0, kills0, stage0 := bullets, zombies, kills, stage;
      var n := |bullets|;
      Ends(HitPass([], zs0, kills0, stage0).bullets, snapshot, snapshot);
      for t := 0 to n
        invariant var h := HitPass(snapshot[..t], zs0, kills0, stage0);
          && bullets == h.bullets + snapshot[t..]
          && zombies == h.zombies && kills == h.kills && stage == h.stage
      {
        HitBullet(|bullets| - (n - t), snapshot, t, zs0, kills0, stage0);
      }
      Ends(bullets, snapshot, snapshot);
    }

    /** One iteration of the hit loop, on the bullet at position `i` of the
        list, which is bullet `t` of the copy `snapshot`: it extends the hit
        pass by that bullet. */
    method HitBullet(i: nat, ghost snapshot: seq<BulletVal>, ghost t: nat,
                     ghost zs0: seq<ZombieVal>, ghost kills0: int, ghost stage0: int)
      requires t < |snapshot|
      requires var h := HitPass(snapshot[..t], zs0, kills0, stage0);
        && bullets == h.bullets + snapshot[t..] && i == |h.bullets|
        && zombies == h.zombies && kills == h.kills && stage == h.stage
      modifies this`bullets, this`zombies, this`kills, this`stage
      ensures var h := HitPass(snapshot[..t + 1], zs0, kills0, stage0);
        && bullets == h.bullets + snapshot[t + 1..]
        && zombies == h.zombies && kills == h.kills && stage == h.stage
    {
      ghost var done := HitPass(snapshot[..t], zs0, kills0, stage0).bullets;
      PrefixStep(snapshot, t);
      WriteAtBoundary(done, snapshot, t, snapshot[t]);
      if bullets[i].dead {
        return;
      }
      var k := FindTarget(bullets[i].x, bullets[i].z);
      if k == |zombies| {
        return;
      }
      zombies := zombies[k := Rules.Hurt(zombies[k], bullets[i].damage)];
      DeleteAtBoundary(done, snapshot[t], snapshot[t + 1..]);
      bullets := bullets[..i] + bullets[i + 1..];
      if zombies[k].dead {
        zombies := zombies[..k] + zombies[k + 1..];
        kills := kills + 1;
        CheckStageUp();
      }
    }

    /** The inner loop of the hit loop: the index of the first zombie the
        point (bx, bz) touches, or the number of zombies if it touches none. */
    method FindTarget(bx: real, bz: real) returns (k: nat)
      ensures k <= |zombies|
      ensures k == |zombies| <==> FirstHit(zombies, bx, bz).None?
      ensures k < |zombies| ==> FirstHit(zombies, bx, bz) == Some(k)
    {
      k := 0;
      while k < |zombies| && !HitsZombie(zombies[k].x, zombies[k].z, bx, bz)
        invariant 0 <= k <= |zombies|
        invariant forall m :: 0 <= m < k ==> !HitsZombie(zombies[m].x, zombies[m].z, bx, bz)
      {
        k := k + 1;
      }
    }

    /** `check_stage_up` (main.py:235-237). */
    method CheckStageUp()
      modifies this`stage
      ensures stage == StageUp(kills, old(stage))
    {
      if kills != 0 && kills % KILLS_PER_STAGE == 0 {
        stage := stage + 1;
      }
    }

    /** `game_over` (main.py:241-245): the spawner task is removed. */
    method GameOver()
      modifies this`spawning
      ensures !spawning
    {
      spawning := false;
    }
  }
}
