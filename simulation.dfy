/** One tick of `ZombieShooter.update` (main.py:185-233) on values: the
    bullet pass, the zombie pass with contact checks, and the
    bullet-against-zombie pass. Each pass is a left-to-right fold over the
    snapshot the source loops over, so a prefix of the fold is the state of
    the lists after that many loop iterations. */
module Simulation {
  import opened Rules

  // ---------------------------------------------------------------- bullets

  /** The first loop: every bullet moves; the ones that died are dropped. */
  function BulletPass(bs: seq<BulletVal>, dt: real): seq<BulletVal>
    decreases |bs|
  {
    if bs == [] then []
    else
      var kept := BulletPass(bs[..|bs| - 1], dt);
      var m := MoveBullet(bs[|bs| - 1], dt);
      if m.dead then kept else kept + [m]
  }

  /** After the bullet pass every bullet left is live and inside the arena,
      and the list is no longer than before. */
  lemma {:induction false} BulletPassLive(bs: seq<BulletVal>, dt: real)
    ensures |BulletPass(bs, dt)| <= |bs|
    ensures AllFlying(BulletPass(bs, dt))
    decreases |bs|
  {
    if bs != [] {
      BulletPassLive(bs[..|bs| - 1], dt);
      MoveBulletEffect(bs[|bs| - 1], dt);
    }
  }

  /** The bullets after the bullet pass are exactly the moves of the input
      bullets that leave them live. */
  lemma {:induction false} BulletPassSurvivors(bs: seq<BulletVal>, dt: real)
    ensures forall b :: b in BulletPass(bs, dt) ==> exists j :: 0 <= j < |bs| && b == MoveBullet(bs[j], dt) && !b.dead
    ensures forall j :: 0 <= j < |bs| && !MoveBullet(bs[j], dt).dead ==> MoveBullet(bs[j], dt) in BulletPass(bs, dt)
    decreases |bs|
  {
    if bs != [] {
      var init, last := bs[..|bs| - 1], bs[|bs| - 1];
      BulletPassSurvivors(init, dt);
      forall b | b in BulletPass(bs, dt)
        ensures exists j :: 0 <= j < |bs| && b == MoveBullet(bs[j], dt) && !b.dead
      {
        if b in BulletPass(init, dt) {
          var j :| 0 <= j < |init| && b == MoveBullet(init[j], dt) && !b.dead;
          assert bs[j] == init[j];
        } else {
          assert b == MoveBullet(bs[|bs| - 1], dt);
        }
      }
      forall j | 0 <= j < |bs| && !MoveBullet(bs[j], dt).dead
        ensures MoveBullet(bs[j], dt) in BulletPass(bs, dt)
      {
        if j < |init| {
          assert init[j] == bs[j];
        }
      }
    }
  }

  // ---------------------------------------------------------------- zombies

  /** The state after (part of) the zombie loop: the list as it stands, the
      player's hp, and whether the game ended. */
  datatype Contact = Contact(zombies: seq<ZombieVal>, hp: int, over: bool)

  /** The second loop: a zombie marked dead earlier is dropped; a live one
      moves, and if it then touches the player at (`px`, `pz`) the player
      loses CONTACT_DAMAGE hp and the zombie is marked dead but stays in the
      list. When hp falls to 0 or below the loop returns at once, leaving the
      zombies it has not reached untouched. */
  function ZombiePass(zs: seq<ZombieVal>, hp: int, px: real, pz: real, seek: Seek): Contact
    decreases |zs|
  {
    if zs == [] then Contact([], hp, false)
    else ContactStep(ZombiePass(zs[..|zs| - 1], hp, px, pz, seek), zs[|zs| - 1], px, pz, seek)
  }

  /** One iteration of the second loop, on zombie `zb`. */
  function ContactStep(c: Contact, zb: ZombieVal, px: real, pz: real, seek: Seek): Contact {
    if c.over then c.(zombies := c.zombies + [zb])
    else
      var m := MoveZombie(zb, seek);
      if m.dead then c
      else if TouchesPlayer(m.x, m.z, px, pz) then
        var left := c.hp - CONTACT_DAMAGE;
        Contact(c.zombies + [m.(dead := true)], left, left <= 0)
      else c.(zombies := c.zombies + [m])
  }

  /** Number of zombies not marked dead. */
  function LiveCount(zs: seq<ZombieVal>): nat
    decreases |zs|
  {
    if zs == [] then 0
    else LiveCount(zs[..|zs| - 1]) + (if zs[|zs| - 1].dead then 0 else 1)
  }

  lemma {:induction false} LiveCountBound(zs: seq<ZombieVal>)
    ensures LiveCount(zs) <= |zs|
    ensures (forall i :: 0 <= i < |zs| ==> zs[i].dead) ==> LiveCount(zs) == 0
    decreases |zs|
  {
    if zs != [] {
      LiveCountBound(zs[..|zs| - 1]);
    }
  }

  /** Contact damage: hp falls in whole steps of CONTACT_DAMAGE, one per
      zombie that was live at the start of the tick at most; a session
      starting from a positive multiple of the step never goes below 0 and
      ends exactly when it reaches 0. When the game does not end, as many
      zombies stay listed as were live at the start, and the contact kills
      among them, still listed but marked dead, account for all the hp
      lost. */
  lemma {:induction false} ZombiePassHp(zs: seq<ZombieVal>, hp: int, px: real, pz: real, seek: Seek)
    requires hp > 0 && hp % CONTACT_DAMAGE == 0
    ensures HpAccounted(ZombiePass(zs, hp, px, pz, seek), hp, LiveCount(zs))
    decreases |zs|
  {
    if zs != [] {
      var init, zb := zs[..|zs| - 1], zs[|zs| - 1];
      ZombiePassHp(init, hp, px, pz, seek);
      ContactStepHp(ZombiePass(init, hp, px, pz, seek), zb, hp, LiveCount(init), px, pz, seek);
    }
  }

  /** What the zombie pass guarantees about hp, for a pass that started from
      `hp` and met `live` zombies not marked dead. */
  predicate HpAccounted(c: Contact, hp: int, live: int) {
    && c.hp <= hp && (hp - c.hp) % CONTACT_DAMAGE == 0 && c.hp % CONTACT_DAMAGE == 0
    && hp - c.hp <= CONTACT_DAMAGE * live
    && c.hp >= 0 && (c.over <==> c.hp == 0)
    && (!c.over ==> |c.zombies| == live && CONTACT_DAMAGE * (|c.zombies| - LiveCount(c.zombies)) == hp - c.hp)
  }

  /** One iteration of the zombie loop keeps the hp accounting. */
  lemma ContactStepHp(c: Contact, zb: ZombieVal, hp: int, live: nat, px: real, pz: real, seek: Seek)
    requires hp > 0 && hp % CONTACT_DAMAGE == 0 && HpAccounted(c, hp, live)
    ensures HpAccounted(ContactStep(c, zb, px, pz, seek), hp, live + if zb.dead then 0 else 1)
  {
    if !c.over {
      var m := MoveZombie(zb, seek);
      if !m.dead {
        if TouchesPlayer(m.x, m.z, px, pz) {
          HpStepsDown(hp, c.hp);
          LiveCountAppend(c.zombies, m.(dead := true));
        } else {
          LiveCountAppend(c.zombies, m);
        }
      }
    }
  }

  /** Hp that has fallen in whole steps from a multiple of the step, and is
      still positive, has at least one more whole step left. */
  lemma HpStepsDown(hp: int, h: int)
    requires hp % CONTACT_DAMAGE == 0 && h % CONTACT_DAMAGE == 0 && h > 0
    ensures h >= CONTACT_DAMAGE && (h - CONTACT_DAMAGE) % CONTACT_DAMAGE == 0
    ensures (hp - (h - CONTACT_DAMAGE)) % CONTACT_DAMAGE == 0
  {
    var p, q := hp / CONTACT_DAMAGE, h / CONTACT_DAMAGE;
    assert h == CONTACT_DAMAGE * q && q >= 1;
    assert h - CONTACT_DAMAGE == CONTACT_DAMAGE * (q - 1);
    assert hp - (h - CONTACT_DAMAGE) == CONTACT_DAMAGE * (p - q + 1);
  }

  lemma LiveCountAppend(zs: seq<ZombieVal>, zb: ZombieVal)
    ensures LiveCount(zs + [zb]) == LiveCount(zs) + if zb.dead then 0 else 1
  {
    assert (zs + [zb])[..|zs|] == zs;
  }

  /** The zombie pass keeps the liveness invariant (a zombie not marked dead
      has hp left) and never lengthens the list. */
  lemma {:induction false} ZombiePassKeepsAlive(zs: seq<ZombieVal>, hp: int, px: real, pz: real, seek: Seek)
    requires AllAlive(zs)
    ensures var c := ZombiePass(zs, hp, px, pz, seek);
      |c.zombies| <= |zs| && AllAlive(c.zombies)
    decreases |zs|
  {
    if zs != [] {
      ZombiePassKeepsAlive(zs[..|zs| - 1], hp, px, pz, seek);
    }
  }

  /** Once the game ends at some zombie, every zombie after it is left in
      the list exactly as it was. */
  lemma {:induction false} ZombiePassAfterOver(zs: seq<ZombieVal>, k: nat, hp: int, px: real, pz: real, seek: Seek)
    requires k <= |zs| && ZombiePass(zs[..k], hp, px, pz, seek).over
    ensures var c := ZombiePass(zs[..k], hp, px, pz, seek);
      ZombiePass(zs, hp, px, pz, seek) == c.(zombies := c.zombies + zs[k..])
    decreases |zs|
  {
    var c := ZombiePass(zs[..k], hp, px, pz, seek);
    if |zs| == k {
      assert zs[..k] == zs;
      assert c.zombies + zs[k..] == c.zombies;
    } else {
      var init, last := zs[..|zs| - 1], zs[|zs| - 1];
      assert init[..k] == zs[..k];
      ZombiePassAfterOver(init, k, hp, px, pz, seek);
      var ci := ZombiePass(init, hp, px, pz, seek);
      assert ci == c.(zombies := c.zombies + init[k..]);
      assert ZombiePass(zs, hp, px, pz, seek) == ci.(zombies := ci.zombies + [last]);
      assert init[k..] + [last] == zs[k..];
    }
  }

  // ---------------------------------------------------------------- hits

  /** The first zombie, in list order, that a bullet at (`bx`, `bz`) touches. */
  function FirstHit(zs: seq<ZombieVal>, bx: real, bz: real): (r: Option<nat>)
    ensures r.Some? ==> r.value < |zs| && HitsZombie(zs[r.value].x, zs[r.value].z, bx, bz)
                        && forall k :: 0 <= k < r.value ==> !HitsZombie(zs[k].x, zs[k].z, bx, bz)
    ensures r.None? ==> forall k :: 0 <= k < |zs| ==> !HitsZombie(zs[k].x, zs[k].z, bx, bz)
    decreases |zs|
  {
    if zs == [] then None
    else if HitsZombie(zs[0].x, zs[0].z, bx, bz) then Some(0)
    else
      match FirstHit(zs[1..], bx, bz)
      case None => None
      case Some(k) => Some(k + 1)
  }

  datatype Option<T> = None | Some(value: T)

  /** The state of the third loop: bullets still listed, zombies, kills, stage. */
  datatype Hits = Hits(bullets: seq<BulletVal>, zombies: seq<ZombieVal>, kills: int, stage: int)

  /** One iteration of the third loop. A dead bullet is skipped. A live one
      scans the zombies; at the first it touches, the zombie is hurt by the
      bullet's damage, the bullet is removed, and if the zombie is now marked
      dead it is removed too, kills rises by one and the stage is checked.
      A bullet touching nothing stays. */
  function HitStep(h: Hits, b: BulletVal): Hits {
    if b.dead then h.(bullets := h.bullets + [b])
    else
      match FirstHit(h.zombies, b.x, b.z)
      case None => h.(bullets := h.bullets + [b])
      case Some(j) =>
        var hurt := Hurt(h.zombies[j], b.damage);
        if hurt.dead then
          Hits(h.bullets, h.zombies[..j] + h.zombies[j + 1..], h.kills + 1, StageUp(h.kills + 1, h.stage))
        else h.(zombies := h.zombies[j := hurt])
  }

  /** A bullet is consumed exactly when it is live and touches some zombie;
      then it changes exactly one zombie, the first it touches, which is hurt
      by exactly the bullet's damage and removed (counting one kill) exactly
      when it is then marked dead. Otherwise nothing changes and the bullet
      stays. */
  lemma SingleHit(h: Hits, b: BulletVal)
    ensures var r := HitStep(h, b);
      var touched := exists k :: 0 <= k < |h.zombies| && HitsZombie(h.zombies[k].x, h.zombies[k].z, b.x, b.z);
      && (r.bullets == h.bullets <==> !b.dead && touched)
      && (b.dead || !touched ==> r == h.(bullets := h.bullets + [b]))
      && (!b.dead && touched ==>
            exists j :: 0 <= j < |h.zombies| && HitsZombie(h.zombies[j].x, h.zombies[j].z, b.x, b.z)
              && (forall k :: 0 <= k < j ==> !HitsZombie(h.zombies[k].x, h.zombies[k].z, b.x, b.z))
              && var hurt := Hurt(h.zombies[j], b.damage);
              && (hurt.dead ==> r.zombies == h.zombies[..j] + h.zombies[j + 1..] && r.kills == h.kills + 1)
              && (!hurt.dead ==> r.zombies == h.zombies[j := hurt] && r.kills == h.kills))
  {
    var r := HitStep(h, b);
    assert r.bullets == h.bullets ==> r.bullets != h.bullets + [b];
    if !b.dead {
      match FirstHit(h.zombies, b.x, b.z)
      case None =>
      case Some(j) =>
    }
  }

  /** The third loop over the snapshot `bs` of the bullets. */
  function HitPass(bs: seq<BulletVal>, zs: seq<ZombieVal>, kills: int, stage: int): Hits
    decreases |bs|
  {
    if bs == [] then Hits([], zs, kills, stage)
    else HitStep(HitPass(bs[..|bs| - 1], zs, kills, stage), bs[|bs| - 1])
  }

  /** Kill bookkeeping of the third loop: kills rise by exactly the number of
      zombies removed, never by more than the number of bullets consumed,
      and the stage keeps matching the kill count. */
  lemma {:induction false} HitPassCounts(bs: seq<BulletVal>, zs: seq<ZombieVal>, kills: int, stage: int)
    requires StageMatches(kills, stage)
    ensures var h := HitPass(bs, zs, kills, stage);
      && h.kills - kills == |zs| - |h.zombies|
      && h.kills - kills <= |bs| - |h.bullets|
      && StageMatches(h.kills, h.stage) && h.stage >= stage
    decreases |bs|
  {
    if bs != [] {
      HitPassCounts(bs[..|bs| - 1], zs, kills, stage);
      HitStepCounts(HitPass(bs[..|bs| - 1], zs, kills, stage), bs[|bs| - 1]);
    }
  }

  /** One iteration of the third loop either keeps the bullet and changes
      nothing else, or consumes it and removes at most one zombie, adding a
      kill exactly when it does; the stage keeps matching the kill count. */
  lemma HitStepCounts(h: Hits, b: BulletVal)
    requires StageMatches(h.kills, h.stage)
    ensures var r := HitStep(h, b);
      && r.kills - h.kills == |h.zombies| - |r.zombies|
      && ((r.bullets == h.bullets + [b] && r.kills == h.kills) || (r.bullets == h.bullets && r.kills <= h.kills + 1))
      && StageMatches(r.kills, r.stage) && r.stage >= h.stage
  {
    if !b.dead && FirstHit(h.zombies, b.x, b.z).Some? {
      var j := FirstHit(h.zombies, b.x, b.z).value;
      if Hurt(h.zombies[j], b.damage).dead {
        StageUpKeepsMatch(h.kills, h.stage);
        assert |h.zombies[..j] + h.zombies[j + 1..]| == |h.zombies| - 1;
      }
    }
  }

  /** The third loop keeps every bullet it leaves (they come from the
      snapshot) and keeps the zombie liveness invariant. */
  lemma {:induction false} HitPassKeeps(bs: seq<BulletVal>, zs: seq<ZombieVal>, kills: int, stage: int)
    requires AllAlive(zs)
    ensures var h := HitPass(bs, zs, kills, stage);
      && (forall b :: b in h.bullets ==> b in bs)
      && AllAlive(h.zombies)
    decreases |bs|
  {
    if bs != [] {
      var init, last := bs[..|bs| - 1], bs[|bs| - 1];
      HitPassKeeps(init, zs, kills, stage);
      HitStepKeeps(HitPass(init, zs, kills, stage), last);
      assert bs == init + [last];
    }
  }

  /** One iteration of the third loop keeps the zombie liveness invariant and
      lists no bullet but the ones it had and the one it looked at. */
  lemma HitStepKeeps(h: Hits, b: BulletVal)
    requires AllAlive(h.zombies)
    ensures AllAlive(HitStep(h, b).zombies)
    ensures forall x :: x in HitStep(h, b).bullets ==> x in h.bullets || x == b
  {
    if !b.dead && FirstHit(h.zombies, b.x, b.z).Some? {
      var j := FirstHit(h.zombies, b.x, b.z).value;
      var hurt := Hurt(h.zombies[j], b.damage);
      HurtEffect(h.zombies[j], b.damage);
      if hurt.dead {
        var zs := h.zombies[..j] + h.zombies[j + 1..];
        forall i | 0 <= i < |zs|
          ensures AliveHasHp(zs[i])
        {
          if i < j {
            assert zs[i] == h.zombies[i];
          } else {
            assert zs[i] == h.zombies[i + 1];
          }
        }
      }
    }
  }

  /** When no live bullet touches any zombie, the third loop changes nothing. */
  lemma {:induction false} HitPassNoTouch(bs: seq<BulletVal>, zs: seq<ZombieVal>, kills: int, stage: int)
    requires forall i, k :: 0 <= i < |bs| && 0 <= k < |zs| && !bs[i].dead ==> !HitsZombie(zs[k].x, zs[k].z, bs[i].x, bs[i].z)
    ensures HitPass(bs, zs, kills, stage) == Hits(bs, zs, kills, stage)
    decreases |bs|
  {
    if bs != [] {
      var init := bs[..|bs| - 1];
      HitPassNoTouch(init, zs, kills, stage);
      assert init + [bs[|bs| - 1]] == bs;
    }
  }

  // ---------------------------------------------------------------- tick

  /** Everything the simulation owns: player hp and last shot time, the two
      lists, the counters, and whether the update and spawner tasks are
      still registered. */
  datatype World = World(hp: int, lastShot: real, bullets: seq<BulletVal>, zombies: seq<ZombieVal>,
                         kills: int, stage: int, updating: bool, spawning: bool)

  /** The player's fixed position (its node is placed at the origin and never moved). */
  const PLAYER_X: real := 0.0
  const PLAYER_Z: real := 0.0

  /** A session as it starts. */
  const INITIAL: World := World(PLAYER_MAX_HP, 0.0, [], [], 0, 1, true, true)

  /** What holds between callbacks: the stage matches the kills, player hp is
      a multiple of the contact damage between 0 and the maximum and is 0
      exactly once both tasks are gone, every listed bullet is live and
      inside the arena, and every zombie not marked dead has hp left. */
  predicate Inv(w: World) {
    && StageMatches(w.kills, w.stage)
    && 0 <= w.hp <= PLAYER_MAX_HP && w.hp % CONTACT_DAMAGE == 0
    && (w.hp == 0 <==> !w.updating) && w.spawning == w.updating
    && AllFlying(w.bullets)
    && AllAlive(w.zombies)
  }

  /** `update`: bullet pass, zombie pass, and, unless the player died, the
      hit pass. */
  function Tick(w: World, dt: real, seek: Seek): World {
    Settle(w, BulletPass(w.bullets, dt), ZombiePass(w.zombies, w.hp, PLAYER_X, PLAYER_Z, seek))
  }

  /** The end of `update`, given the lists `bs` left by the bullet pass and
      the outcome `c` of the zombie pass: the player's death removes both
      tasks; otherwise the hit pass runs. */
  function Settle(w: World, bs: seq<BulletVal>, c: Contact): World {
    if c.over then
      w.(bullets := bs, zombies := c.zombies, hp := c.hp, updating := false, spawning := false)
    else
      var h := HitPass(bs, c.zombies, w.kills, w.stage);
      w.(bullets := h.bullets, zombies := h.zombies, hp := c.hp, kills := h.kills, stage := h.stage)
  }

  /** A shot adds a live bullet at the player and restarts the cooldown,
      which keeps the invariant. */
  lemma FireKeepsInv(w: World, now: real, b: BulletVal)
    requires Inv(w) && !b.dead && b.x == PLAYER_X && b.z == PLAYER_Z
    ensures Inv(w.(lastShot := now, bullets := w.bullets + [b]))
  {
  }

  /** A spawn adds a zombie with hp left, which keeps the invariant. */
  lemma SpawnKeepsInv(w: World, zb: ZombieVal)
    requires Inv(w) && zb.hp > 0
    ensures Inv(w.(zombies := w.zombies + [zb]))
  {
  }

  lemma InitialInv()
    ensures Inv(INITIAL)
  {
  }

  /** A tick keeps the invariant. Kills and stage never fall, player hp
      never rises, the kills a tick adds never exceed the bullets it
      consumed, and the tick that ends the game leaves kills and stage as
      they were with hp at exactly 0. */
  lemma TickKeepsInv(w: World, dt: real, seek: Seek)
    requires Inv(w) && w.updating
    ensures var r := Tick(w, dt, seek);
      && Inv(r)
      && r.kills >= w.kills && r.stage >= w.stage && r.hp <= w.hp
      && r.kills - w.kills <= |w.bullets| - |r.bullets|
      && (!r.updating ==> r.kills == w.kills && r.stage == w.stage && r.hp == 0)
      && r.lastShot == w.lastShot
      && w.hp - r.hp <= CONTACT_DAMAGE * |w.zombies|
  {
    BulletPassLive(w.bullets, dt);
    ZombiePassHp(w.zombies, w.hp, PLAYER_X, PLAYER_Z, seek);
    LiveCountBound(w.zombies);
    ZombiePassKeepsAlive(w.zombies, w.hp, PLAYER_X, PLAYER_Z, seek);
    PassesKeepInv(w, BulletPass(w.bullets, dt), ZombiePass(w.zombies, w.hp, PLAYER_X, PLAYER_Z, seek));
  }

  /** The tick after its first two passes, given what they guarantee. */
  lemma PassesKeepInv(w: World, bs: seq<BulletVal>, c: Contact)
    requires Inv(w) && w.updating
    requires 0 <= c.hp <= w.hp && c.hp % CONTACT_DAMAGE == 0 && (c.over <==> c.hp == 0) && |bs| <= |w.bullets|
    requires AllFlying(bs)
    requires AllAlive(c.zombies)
    ensures Settle(w, bs, c).hp == c.hp
    ensures var r := Settle(w, bs, c);
      && Inv(r)
      && r.kills >= w.kills && r.stage >= w.stage && r.hp <= w.hp
      && r.kills - w.kills <= |w.bullets| - |r.bullets|
      && (!r.updating ==> r.kills == w.kills && r.stage == w.stage && r.hp == 0)
      && r.lastShot == w.lastShot
  {
    if !c.over {
      HitTickKeepsInv(w, bs, c);
    }
  }

  /** The tick that does not end the game, after its first two passes. */
  lemma HitTickKeepsInv(w: World, bs: seq<BulletVal>, c: Contact)
    requires Inv(w) && !c.over && 0 < c.hp <= w.hp && c.hp % CONTACT_DAMAGE == 0 && |bs| <= |w.bullets|
    requires AllFlying(bs)
    requires AllAlive(c.zombies)
    ensures var h := HitPass(bs, c.zombies, w.kills, w.stage);
      var r := w.(bullets := h.bullets, zombies := h.zombies, hp := c.hp, kills := h.kills, stage := h.stage);
      && Inv(r) && r.kills >= w.kills && r.stage >= w.stage
      && r.kills - w.kills <= |w.bullets| - |r.bullets|
  {
    HitPassCounts(bs, c.zombies, w.kills, w.stage);
    HitPassKeeps(bs, c.zombies, w.kills, w.stage);
    var h := HitPass(bs, c.zombies, w.kills, w.stage);
    forall i | 0 <= i < |h.bullets|
      ensures Flying(h.bullets[i])
    {
      assert h.bullets[i] in bs;
    }
  }

  // ---------------------------------------------------------------- scenarios

  /** A zombie that does not move. */
  function Stay(x: real, z: real, speed: real): (real, real) { (x, z) }

  /** A fresh session with one zombie on top of the player: after one tick
      the player has lost 10 hp, the zombie is marked dead (still listed),
      and kills are unchanged. */
  lemma ContactScenario(zhp: int, speed: real, dt: real)
    requires zhp > 0
    ensures var r := Tick(INITIAL.(zombies := [ZombieVal(0.0, 0.0, zhp, speed, false)]), dt, Stay);
      r.hp == 90 && r.zombies == [ZombieVal(0.0, 0.0, zhp, speed, true)] && r.kills == 0 && r.updating
  {
    var zs := [ZombieVal(0.0, 0.0, zhp, speed, false)];
    assert zs[..0] == [];
    assert ZombiePass(zs[..0], PLAYER_MAX_HP, PLAYER_X, PLAYER_Z, Stay) == Contact([], PLAYER_MAX_HP, false);
    assert MoveZombie(zs[0], Stay) == zs[0];
    var c := ZombiePass(zs, PLAYER_MAX_HP, PLAYER_X, PLAYER_Z, Stay);
    assert c == Contact([ZombieVal(0.0, 0.0, zhp, speed, true)], 90, false);
    assert HitPass([], c.zombies, 0, 1) == Hits([], c.zombies, 0, 1);
  }

  /** A zombie that touches the player and is shot in the same tick is
      counted as a kill, under the reading that a destroyed zombie's last
      position stays readable: contact marks it dead, the bullet pass does
      not look at `dead` before hurting it, and after the hurt it is still
      marked dead, so it is removed and counted whatever hp it had left. */
  lemma ContactKillAlsoCounted(zhp: int)
    requires zhp > BULLET_DAMAGE
    ensures var r := Tick(INITIAL.(bullets := [BulletVal(0.0, 0.0, 1.0, 0.0, BULLET_DAMAGE, false)],
                                   zombies := [ZombieVal(0.0, 0.0, zhp, 0.25, false)]), 0.0, Stay);
      r.hp == 90 && r.zombies == [] && r.bullets == [] && r.kills == 1
  {
    var b := BulletVal(0.0, 0.0, 1.0, 0.0, BULLET_DAMAGE, false);
    var zs := [ZombieVal(0.0, 0.0, zhp, 0.25, false)];
    assert [b][..0] == [] && zs[..0] == [];
    assert MoveBullet(b, 0.0) == b;
    assert BulletPass([b][..0], 0.0) == [];
    var bs := BulletPass([b], 0.0);
    assert bs == [b];
    assert ZombiePass(zs[..0], PLAYER_MAX_HP, PLAYER_X, PLAYER_Z, Stay) == Contact([], PLAYER_MAX_HP, false);
    assert MoveZombie(zs[0], Stay) == zs[0];
    var c := ZombiePass(zs, PLAYER_MAX_HP, PLAYER_X, PLAYER_Z, Stay);
    assert c == Contact([ZombieVal(0.0, 0.0, zhp, 0.25, true)], 90, false);
    assert FirstHit(c.zombies, 0.0, 0.0) == Some(0);
    var h0 := HitPass([], c.zombies, 0, 1);
    assert h0 == Hits([], c.zombies, 0, 1);
    assert HitPass(bs, c.zombies, 0, 1) == HitStep(h0, b);
  }
}
