# Tower defense: one frame of the simulation

A model, in Dafny, of the per-frame simulation of a small tower-defense game
written in Python with pygame. Enemies walk a list of waypoints. A tower
shoots at the first enemy in range whenever its cooldown allows. A projectile
homes on its target and damages it once when it gets close enough. Each frame
of the main loop runs four phases in order:

1. spawn an enemy every 120 frames;
2. move every enemy and drop the dead ones;
3. update every tower;
4. move every projectile and drop the inactive ones.

The files follow the program's structure:

- `geometry.dfy`: points, squared distances, and the lemmas showing that
  comparing squared distances agrees with the program's comparison of
  square roots.
- `enemy.dfy`: the `Enemy` class. Each of its methods is specified by a pure
  function on an `EnemyState` snapshot (`Spawned`, `Moved`, `Damaged`).
  Properties over any sequence of moves and hits are stated through `Run`.
- `projectile.dfy`: the `Projectile` class. `Move` is specified by `Flown`,
  which takes the projectile's state and its target's state together, since
  a hit mutates the target.
- `tower.dfy`: the `Tower` class, with its cooldown rule `NextCooldown` and
  its target search `FirstInRange`. It also shows that a tower fires at most
  once per `fire_rate` frames.
- `game.dfy`: the game `Session` and the loops of main.py's update block.
  - The enemy and projectile loops iterate over a copy of a list while
    removing from the original with `list.remove`. Their result is shown to
    be `Select(copy, flags)`: the elements whose flag says they stay, in
    their original order.
  - The tower loop is shown to append one shot per firing tower, in tower
    order.
  - Each phase is proved by a module-level method (`MoveEnemyRoster`,
    `UpdateTowerRoster`, `MoveProjectileRoster`). The `Session` method for a
    phase calls it on the session's fields.

Positions are `real`, so arithmetic is exact. Whether an enemy or projectile
is within range or within one step is decided by comparing squared
distances. A partial step towards a target needs a square root and a
division, so it is the parameter `step` of the move methods.

## Model

| member | source | states |
|---|---|---|
| Geometry.AtMostIffSquaredAtMost | tower.py:34 | for any non-negative root `distance` of the squared distance, `distance <= bound` holds iff the squared distance is at most `bound * bound` |
| Geometry.BelowIffSquaredBelow | enemy.py:26-27 | for any non-negative root, `distance < bound` holds iff the squared distance is below `bound * bound` (the snap test and the hit test) |
| Enemies.Spawned | enemy.py:4-13 | a fresh enemy is on `path[0]` with path index 0, has health 150, is alive, is not flashing, and is well formed |
| Enemies.Moved | enemy.py:15-32 | one move. A dead enemy is frozen. Health and the dead flag never change. The flash timer counts down to 0. The path index advances by at most one and stays on the path. At the last waypoint the enemy does not move. Within one step of the next waypoint it snaps exactly onto it; otherwise it takes the partial step. Well-formedness is kept |
| Enemies.Damaged | enemy.py:34-45 | a dead enemy is unchanged. A live one loses exactly `damage` health, gets a flash timer of 10, and is dead iff its health is at most 0. Damage never moves an enemy and never revives one |
| Enemies.RunFrozenOnceDead | enemy.py:15-39 | once dead, no sequence of moves and hits changes any field |
| Enemies.DeathIsFinal | enemy.py:41-45 | after the call that sets `is_dead`, no later calls change the enemy, so `is_dead` flips at most once |
| Enemies.RunInvariants | enemy.py:12-39 | across any sequence of moves and hits: the enemy stays well formed (flash timer in [0, 10], dead exactly when out of health); the path index never decreases and grows by at most one per call; a dead enemy stays dead |
| Enemies.Enemy.constructor | enemy.py:4-13 | the fields are `Spawned(path)`, so the enemy starts valid |
| Enemies.Enemy.Move | enemy.py:15-32 | the new fields are `Moved` of the old ones |
| Enemies.Enemy.TakeDamage | enemy.py:34-39 | the new fields are `Damaged` of the old ones |
| Enemies.Enemy.Die | enemy.py:41-45 | sets the dead flag and changes nothing else; a second call changes nothing |
| Towers.NextCooldown | tower.py:15-23 | the cooldown stays within [0, 60]. A shot resets it to 60. Without a shot it becomes `max(cooldown - 1, 0)` |
| Towers.NoShotWhileCoolingDown | tower.py:15-23 | while the cooldown exceeds the number of frames, the tower fires no shot, whatever targets come and go |
| Towers.AtMostOneShotPerFireRate | tower.py:10-23 | from any valid cooldown, a tower fires at most one shot in any window of 60 consecutive frames |
| Towers.Tower.constructor | tower.py:5-11 | the tower stands at the given point with cooldown 0 |
| Towers.Tower.InRangeIffWithinRange | tower.py:32-34 | the squared-distance range test holds iff the distance is at most the range of 100 |
| Towers.Tower.FirstInRange | tower.py:25-30 | the result is null iff no enemy is in range. Otherwise it is an enemy of the list that is in range, and no enemy before it is in range |
| Towers.Tower.FindTarget | tower.py:25-30 | the linear search with early return yields `FirstInRange` |
| Towers.Tower.Update | tower.py:13-23 | the cooldown becomes `NextCooldown` and stays valid. Without a shot the list is unchanged. With a shot, exactly one fresh projectile is appended; it starts at the tower, aims at `FirstInRange`, carries the tower's damage, and is active. Enemies are not modified |
| Projectiles.AimHitIffWithinOneStep | projectile.py:21-23 | a move counts as a hit iff the target is alive and its distance is below the speed of 5 |
| Projectiles.Flown | projectile.py:12-29 | one move. A missing or dead target deactivates the projectile in place and leaves the target unchanged. A hit applies `take_damage` exactly once with the projectile's damage and deactivates the projectile in place. Otherwise the projectile keeps its flag, takes the partial step towards the target, and leaves the target unchanged |
| Projectiles.FlownNeverRevives | projectile.py:13-26 | a dead target is left as it is. A live target dies only from a hit whose damage uses up its health |
| Projectiles.FlownKeepsTargetWellFormed | projectile.py:23-26 | a move keeps its target well formed |
| Projectiles.Projectile.constructor | projectile.py:4-10 | the projectile starts at the given point with the given target and damage, active, and has hit nothing |
| Projectiles.Projectile.Move | projectile.py:12-29 | the projectile and its target change as `Flown` says. The hit count grows by one exactly on a hit |
| Game.RemoveFirst | main.py:85 | `list.remove` shortens a list that holds the element by exactly one |
| Game.RemoveFirstAfter | main.py:85 | `list.remove` of an element that does not occur earlier drops exactly that occurrence |
| Game.RemovalStep | main.py:82-86 | one round of removing while iterating a copy. The current element is still in the list, and keeping or removing it extends the kept part by one round |
| Game.SelectMembers | main.py:82-86 | everything left after a removal pass is an element of the copy whose flag said keep |
| Game.SelectDistinct | main.py:82-86 | a removal pass over a list without repetitions leaves a list without repetitions |
| Game.Firing | main.py:89-90 | the positions of the towers that fire are increasing, and each one fires |
| Game.FiringComplete | main.py:89-90 | every tower that fires is among those positions |
| Game.SpawnsOnceEveryInterval | main.py:76-79 | from a counter in [0, 119], `n` frames of the spawn rule (`SpawnsOver`, which `Session.SpawnEnemies` follows frame by frame) spawn exactly `(counter + n) / 120` enemies |
| Game.MoveNthEnemy | main.py:83 | round `i` moves enemy `i` once and leaves its dead flag as it was |
| Game.MoveEachEnemy | main.py:82-86 | every enemy of the copy moves exactly once, in order. What is left is the enemies that were alive, in their order, because moving never kills |
| Game.MoveEnemyRoster | main.py:82-86 | the new roster is the part of the old one that was alive. It has no repetitions and no dead enemy, so the towers see only live enemies. Every spawned enemy stays well formed |
| Game.StatesAfterUntargeted | main.py:93-96 | the enemy states after the projectile pass (`StatesAfter`): an enemy no projectile aims at keeps its state |
| Game.StatesAfterKeepsDead | projectile.py:13-15 | a dead enemy is left as it is by every projectile of the pass |
| Game.StatesAfterWellFormed | projectile.py:23-26 | the hits of the pass keep every enemy well formed |
| Game.MoveNthProjectile | main.py:94 | round `i` moves projectile `i` once: its new state is `Flown` of its state before the loop against its target's state at its turn, and its hit count and flag are recorded. It stays active iff it neither lost nor hit its target. Its target takes the state `StatesAfter` gives after `i + 1` rounds, and the other enemies are unchanged |
| Game.PassNthProjectile | main.py:93-96 | round `i` moves projectile `i` and removes it from the roster iff it is inactive, keeping the loop's state |
| Game.MoveEachProjectile | main.py:93-96 | every projectile of the copy moves exactly once, in order, each against its target's state at its turn. What is left is the projectiles that neither lost nor hit their target, in their order. The enemies end in the states of `StatesAfter`, so they take exactly the hits, and they stay valid |
| Game.HitAtMostOnce | main.py:93-96 | after the pass each projectile has hit at most once, and one that hit is inactive |
| Game.MoveProjectileRoster | main.py:93-96 | the new roster is the copy without the projectiles that are inactive after moving. Each projectile hits at most once, and one that hits leaves the roster. Every projectile left is active and has hit nothing, so over its lifetime a projectile damages an enemy at most once. Every spawned enemy stays well formed |
| Game.UpdateAndAppend | main.py:90 | round `i` updates tower `i`'s cooldown by `NextCooldown`. It appends one fresh shot from that tower at its target exactly when the tower fires |
| Game.FiredByNext | main.py:89-90 | a round keeps the loop's state: towers updated so far, shots in firing order, all shots new |
| Game.UpdateNthTower | main.py:89-90 | round `i` extends the loop's state by tower `i` |
| Game.UpdateEachTower | main.py:89-90 | every tower is updated exactly once, in list order, against the same enemies. The list becomes the old projectiles followed by one fresh shot per firing tower, in tower order, each aimed at that tower's first enemy in range |
| Game.UpdateTowerRoster | main.py:89-90 | as `UpdateEachTower`, and the towers stay valid. The new shots, aimed at enemies of the roster, join a roster that stays without repetitions |
| Game.ShotsJoin | main.py:89-90 | new shots at spawned enemies keep the projectile roster valid |
| Game.Session.constructor | main.py:29-36 | one tower at (200, 200) with cooldown 0, no enemies, no projectiles, spawn counter 0 |
| Game.Session.StartGame | main.py:65-68 | the enemy list becomes one fresh enemy at the start of the path. The projectile list becomes empty |
| Game.Session.SpawnEnemies | main.py:76-79 | the counter becomes `(counter + 1) % 120`. Exactly when it reaches 120, one fresh enemy is appended at the start of the path; otherwise the roster is unchanged. The number of enemies grows by `SpawnsOver(counter, 1)` |
| Game.Session.MoveEnemies | main.py:82-86 | the new roster is the old one's live enemies in their order, and none of them is dead |
| Game.Session.UpdateTowers | main.py:89-90 | the new shots are appended after the old projectiles, are fresh, and aim at enemies of the roster |
| Game.Session.MoveProjectiles | main.py:93-96 | the new roster is a selection, in order, of the old one |
| Game.Session.Shoot | main.py:89-96 | the towers shoot, then the projectiles fly; the session stays valid |
| Game.Session.Tick | main.py:75-96 | a frame keeps the session valid and advances the spawn counter modulo 120 |

## Left out

- The path generator (map.py) uses random numbers and pygame vectors. The path is a parameter of the session and of each enemy. Like `path[0]` in enemy.py:6, the model requires it to be non-empty.
- Drawing, the window, the font, the clock, the menu and the event loop (main.py:7-64, 98-118, and every `draw` method) are not modelled, nor is the `MENU`/`GAME` state flag. `Session.StartGame` is the RETURN-key branch, and `Session.Tick` is one frame in the `GAME` state.
- The console message of enemy.py:44 is not modelled.
- The coordinates of a partial step (enemy.py:31-32, projectile.py:28-29) are the result of the `step` parameter, because they need a square root and a division. Nothing is proved about them beyond where they are used.
- Floating point is modelled by exact reals. The model compares squared distances, and the Geometry lemmas show this agrees with the source's square-root comparison over the reals. Rounding of Python floats is not modelled.
- Python's truthiness tests on a target (`if target:` at tower.py:21, `if not self.target` at projectile.py:13) are null tests. An enemy object defines no truth value of its own, so it is always true.
- `list.remove` raises an error when the element is absent. `Game.RemoveFirst` requires the element, and `Game.RemovalStep` shows that the game always removes an element that is present.
- Towers.Tower.Update: the source appends to the caller's list in place. The model passes the list in and returns it extended, so aliasing of that list is not modelled.
- Projectiles.Projectile.hits is a ghost counter of `take_damage` calls. It is not a field of the source; it only states hit-at-most-once.
- Game.MoveEnemyRoster: does not restate that each enemy moved exactly once; `Game.MoveEachEnemy`, which it calls, states that.
- Game.MoveProjectileRoster: does not restate how each projectile moved or what the enemies took; `Game.MoveEachProjectile`, which it calls, states that.
- Game.Session.MoveEnemies, Game.Session.UpdateTowers, Game.Session.MoveProjectiles: their contracts are weaker than the module-level methods they call (`MoveEnemyRoster`, `UpdateTowerRoster`, `MoveProjectileRoster`). They state only the new rosters and validity. The per-element facts are stated by the loop methods `MoveEachEnemy`, `UpdateEachTower` and `MoveEachProjectile`.
- Game.Session.Tick, Game.Session.Shoot: state only validity and, for `Tick`, the spawn counter. What each phase does is stated by the phase methods they call in order.
- The source removes an enemy only when it dies. One that reaches the last waypoint stays there, and so does the model's.
