# Zombie shooter: a verified model of the game logic

The game is a single-screen arcade shooter. The player stands at the centre
of the screen and shoots at the mouse pointer. Zombies appear on the screen
edges and walk towards the player. This project models the game's simulation
logic in Dafny:

- the per-frame `update` with its three list passes:
  - bullets move and leave the arena;
  - zombies move and touch the player;
  - bullets hit zombies;
- the kill and stage counters;
- zombie damage;
- the firing guard and the shooting cooldown;
- the spawn cadence.

The files:

- `rules.dfy` (module `Rules`): constants, the overlap test, arena bounds,
  spawn interval and placement, the aim guard, stage promotion, and what one
  move or one hit does to a bullet or zombie value.
- `entities.dfy` (module `Entities`): the `Bullet`, `Zombie` and `Player`
  objects as classes whose fields their methods update in place. Each method
  is proved against the matching function of `Rules`.
- `simulation.dfy` (module `Simulation`): the specification of one tick.
  - Each loop of `update` is a left-to-right fold over the snapshot it walks
    (`BulletPass`, `ZombiePass`, `HitPass`).
  - `Tick` chains them and `Inv` is the invariant between callbacks.
  - Lemmas state what each pass guarantees.
- `list_ops.dfy` (module `ListOps`): the shape of a Python list while a loop
  walks a copy of it and edits the original.
- `shooter.dfy` (module `Shooter`): the `ZombieShooter` class.
  - Its callbacks (`OnMouseClick`, `SpawnZombie`, `Update`) are imperative
    methods over its fields.
  - The loops of `update` are `for` loops that edit the live list at the
    position of the element they visit.
  - Each callback is proved to keep `Valid()`.
  - Each is proved equal to its value-level description: `Update` ends in
    `Tick(old(View()), dt, seek)`.

## Model

| member | source | states |
|---|---|---|
| Rules.OverlapsBox | main.py:205-208 | The circle overlap test is symmetric. Overlap forces both coordinate offsets within the summed radii. Offsets within half the summed radii always overlap. |
| Rules.SpawnIntervalShape | main.py:181 | The respawn delay `max(0.5, 2.0 - stage * 0.1)` equals `max(5, 20 - stage)` tenths, is at least 0.5, and never grows as the stage rises. |
| Rules.SpawnPosition | main.py:76-85 | A new zombie sits on one of the four arena edges at the random coordinate along it, inside the arena's bounds. Top/bottom fix z and vary x; left/right fix x and vary z. |
| Rules.ZombieSpeed | main.py:71-73 | Zombie speed at stage 1 or later is at least the base speed. |
| Rules.AimLengthAgrees | main.py:171-173 | Comparing squared lengths agrees with the source's comparison of the aim vector's length against 0.01. |
| Rules.StageUpKeepsMatch | main.py:235-237 | From a stage that equals `1 + kills / 20`, one kill followed by `check_stage_up` keeps that equation. The stage rises by one exactly when the new kill count is a multiple of 20. |
| Rules.HurtEffect | main.py:99-102 | `hurt(dmg)` lowers hp by exactly `dmg` and marks the zombie dead exactly when the new hp is 0 or below (a dead zombie stays dead). It changes nothing else and keeps "not dead implies hp left". |
| Rules.MoveBulletEffect | main.py:54-61 | A bullet that survives a move is inside the arena. A live bullet dies exactly when its new position is outside. A dead bullet does not move. A move changes only position and the `dead` flag. |
| Entities.Bullet.constructor | main.py:47-52 | A new bullet is live, at the given position, with the given direction and damage. |
| Entities.Bullet.Update | main.py:54-61 | The object's new state is `MoveBullet` of its old state. |
| Entities.Bullet.Destroy | main.py:63-65 | Only the `dead` flag changes, to true. |
| Entities.Zombie.constructor | main.py:69-86 | A new zombie is live, placed by `SpawnPosition`, with the given hp and the stage's speed. |
| Entities.Zombie.Update | main.py:88-97 | The object's new state is `MoveZombie` of its old state: dead zombies stay put. |
| Entities.Zombie.Hurt | main.py:99-102 | The object's new state is `Rules.Hurt` of its old state. |
| Entities.Zombie.Destroy | main.py:104-106 | Only the `dead` flag changes, to true. |
| Entities.Player.constructor | main.py:110-115 | The player starts with 100 hp out of 100 and last shot time 0. |
| Entities.Player.CanShoot | main.py:117-118 | The cooldown gate: a shot is allowed exactly when at least SHOOT_COOLDOWN has passed since the last shot, so never at or before the last shot time. |
| Entities.Player.Shoot | main.py:120-121 | The last shot time becomes `now` and the cooldown restarts: no second shot is allowed at the same time. hp is unchanged. |
| Simulation.BulletPassLive | main.py:192-195 | After the bullet pass every listed bullet is live and inside the arena, and the list is no longer than before. |
| Simulation.BulletPassSurvivors | main.py:192-195 | The bullets left are exactly the moves of input bullets that stayed live. |
| Simulation.ZombiePassHp | main.py:199-213 | From positive hp that is a multiple of 10, contact costs exactly 10 hp per touching zombie, at most one per zombie live at the start. Hp never goes below 0, and the game ends exactly when it reaches 0. Without game over, as many zombies stay listed as were live, and those marked dead account for all the hp lost. |
| Simulation.ContactStepHp | main.py:205-213 | One iteration of the zombie loop keeps that hp accounting. |
| Simulation.LiveCountBound | main.py:199-202 | No more zombies are live than listed; a list of dead zombies has none live. It bounds the hp one tick can cost (`Simulation.TickKeepsInv`). |
| Simulation.ZombiePassKeepsAlive | main.py:199-213 | The zombie pass keeps "not dead implies hp left" for every listed zombie and never lengthens the list. |
| Simulation.ZombiePassAfterOver | main.py:211-213 | Once hp reaches 0 at some zombie, the loop returns. Every later zombie stays listed exactly as it was. |
| Simulation.FirstHit | main.py:220-223 | Returns the first zombie in list order that the bullet overlaps, with no overlap before it, or none when no zombie overlaps. |
| Simulation.SingleHit | main.py:216-231 | A bullet is removed exactly when it is live and overlaps some zombie. Then it changes exactly one zombie, the first it overlaps, hurting it by the bullet's damage and removing it with one kill exactly when the zombie is then dead. Otherwise the bullet stays and nothing changes. |
| Simulation.HitStepCounts | main.py:224-231 | One bullet either stays with kills unchanged, or is removed with at most one kill. Kills rise exactly by the zombies removed, and the stage keeps matching kills. |
| Simulation.HitPassCounts | main.py:216-231 | Over the whole hit pass, kills rise by exactly the number of zombies removed, and by no more than the bullets removed. The stage keeps matching the kill count and never falls. |
| Simulation.HitStepKeeps | main.py:224-228 | One bullet keeps "not dead implies hp left" for every zombie and lists no new bullet but itself. |
| Simulation.HitPassKeeps | main.py:216-231 | Every bullet left after the hit pass comes from the snapshot, and every listed zombie keeps "not dead implies hp left". |
| Simulation.HitPassNoTouch | main.py:216-231 | When no live bullet overlaps any zombie, the hit pass changes nothing. |
| Simulation.InitialInv | main.py:133-139 | The starting state satisfies the invariant. |
| Simulation.FireKeepsInv | main.py:174-176 | Appending a live bullet at the player and restarting the cooldown keeps the invariant. |
| Simulation.SpawnKeepsInv | main.py:180 | Appending a zombie with hp left keeps the invariant. |
| Simulation.TickKeepsInv | main.py:185-233 | A tick keeps the invariant. Kills and stage never fall and hp never rises. A tick adds no more kills than bullets it removed and leaves the last shot time alone. One tick costs at most CONTACT_DAMAGE hp per zombie listed at its start. The tick that ends the game changes neither kills nor stage and leaves hp at exactly 0. |
| Simulation.PassesKeepInv | main.py:211-233 | The end of a tick keeps the invariant, given what the bullet and zombie passes guarantee. |
| Simulation.HitTickKeepsInv | main.py:216-233 | A tick that does not end the game keeps the invariant through the hit pass. |
| Simulation.ContactScenario | main.py:205-213 | A zombie on top of the player costs 10 hp. It is marked dead but stays listed, and kills do not change. |
| Simulation.ContactKillAlsoCounted | main.py:205-230 | A zombie killed by contact and shot in the same tick is removed and counted as a kill, whatever hp it had left. |
| Shooter.ZombieShooter.constructor | main.py:127-154 | The game starts with 100 hp, empty lists, stage 1, no kills and both tasks registered, and satisfies `Valid()`. |
| Shooter.ZombieShooter.OnMouseClick | main.py:165-176 | A bullet is appended at the player and the cooldown restarted exactly when the pointer is in the window, the cooldown has passed and the aim is long enough. Otherwise nothing changes. `Valid()` is kept. |
| Shooter.ZombieShooter.SpawnZombie | main.py:179-182 | Appends the new zombie and returns the re-arm delay `SpawnInterval(stage)`, which is at least 0.5. `Valid()` is kept. |
| Shooter.ZombieShooter.Update | main.py:185-233 | The new state is `Tick` of the old one, and `Valid()` is kept. |
| Shooter.ZombieShooter.AdvanceBullets | main.py:192-195 | The bullet list ends as `BulletPass` of the list it started with. |
| Shooter.ZombieShooter.BulletStep | main.py:193-195 | One iteration extends the bullet pass over the snapshot by one bullet. |
| Shooter.ZombieShooter.AdvanceZombies | main.py:198-213 | The zombie list, player hp and the early-return flag end as `ZombiePass` says. The last shot time is unchanged. |
| Shooter.ZombieShooter.ZombieStep | main.py:200-213 | One iteration extends the zombie pass over the snapshot by one zombie. |
| Shooter.ZombieShooter.ResolveHits | main.py:216-231 | Bullets, zombies, kills and stage end as `HitPass` says. |
| Shooter.ZombieShooter.HitBullet | main.py:217-231 | One iteration extends the hit pass over the snapshot by one bullet. |
| Shooter.ZombieShooter.FindTarget | main.py:220-223 | The inner scan returns the index `FirstHit` names, or the list length when there is none. |
| Shooter.ZombieShooter.CheckStageUp | main.py:235-237 | The stage becomes `StageUp(kills, stage)`. |
| Shooter.ZombieShooter.GameOver | main.py:241-245 | The spawner is no longer registered. |

## Left out

- Rendering is not modelled, because it is presentation, not game logic. This covers sprites, the camera, the HUD score text and the hp bar, and the "GAME OVER" text (main.py:34-41, 140-147, 157-162, 189, 238, 242-243).
- Zombie steering is a parameter `seek`, a function from position and speed to the new position. The source's `math.hypot` normalisation and its 0.001 distance guard (main.py:91-97) are floating-point numerics.
- Bullet movement is exact real arithmetic on the stored direction. Floats and their rounding are not modelled.
- The normalised aim direction is an input of `OnMouseClick` (`ux`, `uy`), because `Vec2.normalized()` is library numerics. Its precondition asks that, when the aim is long enough, (`ux`, `uy`) is a unit vector pointing the same way as the aim. The aim-length guard compares squared lengths; `Rules.AimLengthAgrees` shows this agrees with comparing the length.
- The pointer position and `hasMouse()` are inputs, because they come from the window system.
- `time.time()` and `globalClock.getDt()` are inputs `now` and `dt`. `can_shoot` and `shoot` read the clock separately in the source; the model uses one `now` for both.
- The random spawn edge and coordinate (`choice`, `uniform`) are inputs `edge` and `t`.
- A new zombie's hp is a positive input, because float rounding under `int()` is not reliably specifiable. Its speed is computed in exact reals.
- Shooter.ZombieShooter.SpawnZombie: returns the delay before the next spawn, not the source's `task.again + spawn_interval`. The task manager's reading of that value is framework behaviour.
- Task registration is modelled only as the two flags `updating` and `spawning`. `update` returning `task.done` clears `updating`; `game_over` removing `'spawner'` clears `spawning`.
- Shooter.ZombieShooter: its bullet and zombie lists hold values, not references to the `Bullet` and `Zombie` objects. The model therefore does not capture aliasing of those objects or their update in place while listed.
- Python's `list.remove` of the visited element is modelled as deletion at that element's position. The game never lists an object twice, so the position and the first equal object coincide.
- The player's node is fixed at the origin (`PLAYER_X`, `PLAYER_Z`), since no code moves it.
- The `DotGraphic_Gen/dotstyle.py` image tool is not part of this model, because it is unrelated to the game.
- `destroy()` also calls `node.removeNode()` (main.py:65, 106), which empties the node. The model keeps a destroyed zombie's last position readable, so the hit scan (main.py:220-223) still tests it.
- Under that reading, a zombie marked dead by contact can still be hurt by a bullet in the same tick. It is then always removed and counted as a kill, even with hp left, because the hit pass never checks `dead`. The model follows the code here (`Simulation.ContactKillAlsoCounted`).
