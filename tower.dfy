/** A tower that shoots at the first enemy in range (tower.py). */
module Towers {
  import opened Geometry
  import opened Enemies
  import opened Projectiles

  /** tower.py:8-10 */
  const TowerRange: real := 100.0
  const TowerDamage: int := 30
  /** Frames between two shots. */
  const FireRate: int := 60

  /** The cooldown after the decrement at the start of `update` (tower.py:15-16). */
  function Ticked(cooldown: int): int
  {
    if cooldown > 0 then cooldown - 1 else cooldown
  }

  /** `update` fires when, after the decrement, the cooldown is used up and a
      target was found (tower.py:19-21). */
  predicate Fires(cooldown: int, targetFound: bool)
  {
    Ticked(cooldown) <= 0 && targetFound
  }

  /** The cooldown after one `update` (tower.py:15-23). */
  function NextCooldown(cooldown: int, targetFound: bool): (r: int)
    // the cooldown stays within [0, fire_rate]
    ensures 0 <= cooldown <= FireRate ==> 0 <= r <= FireRate
    // a shot resets it to fire_rate
    ensures Fires(cooldown, targetFound) ==> r == FireRate
    // without a shot it counts down to 0, as max(cooldown - 1, 0)
    ensures !Fires(cooldown, targetFound) && cooldown >= 0 ==>
              r == (if cooldown >= 1 then cooldown - 1 else 0)
  {
    if Fires(cooldown, targetFound) then FireRate else Ticked(cooldown)
  }

  /** The number of shots a tower fires over consecutive frames, starting from
      `cooldown`, where `found[k]` says whether frame k found a target. */
  function ShotsFired(cooldown: int, found: seq<bool>): nat
    decreases |found|
  {
    if found == [] then 0
    else (if Fires(cooldown, found[0]) then 1 else 0) + ShotsFired(NextCooldown(cooldown, found[0]), found[1..])
  }

  /** While the cooldown exceeds the number of frames, the tower cannot fire. */
  lemma {:induction false} NoShotWhileCoolingDown(cooldown: int, found: seq<bool>)
    requires |found| < cooldown
    ensures ShotsFired(cooldown, found) == 0
    decreases |found|
  {
    if found != [] {
      NoShotWhileCoolingDown(NextCooldown(cooldown, found[0]), found[1..]);
    }
  }

  /** A tower fires at most once in any window of `fire_rate` consecutive frames,
      whatever enemies come and go (the comment at tower.py:10). */
  lemma {:induction false} AtMostOneShotPerFireRate(cooldown: int, found: seq<bool>)
    requires 0 <= cooldown <= FireRate
    requires |found| <= FireRate
    ensures ShotsFired(cooldown, found) <= 1
    decreases |found|
  {
    if found != [] {
      var next := NextCooldown(cooldown, found[0]);
      if Fires(cooldown, found[0]) {
        NoShotWhileCoolingDown(next, found[1..]);
      } else {
        AtMostOneShotPerFireRate(next, found[1..]);
      }
    }
  }

  class Tower {
    const x: real
    const y: real
    const range: real := TowerRange
    const damage: int := TowerDamage
    const fireRate: int := FireRate
    var fireCooldown: int

    predicate Valid()
      reads this
    {
      0 <= fireCooldown <= fireRate
    }

    /** tower.py:5-11 */
    constructor (x: real, y: real)
      ensures this.x == x && this.y == y
      ensures fireCooldown == 0 && Valid()
    {
      this.x, this.y := x, y;
      fireCooldown := 0;
    }

    /** tower.py:32-34, as a comparison of squared distances. */
    predicate InRange(e: Enemy)
      reads e
    {
      SquaredDistance(Point(x, y), Point(e.x, e.y)) <= range * range
    }

    /** `InRange` agrees with the source's `sqrt(d2) <= range` for the root of the
        squared distance. */
    lemma InRangeIffWithinRange(e: Enemy, distance: real)
      requires distance >= 0.0
      requires distance * distance == SquaredDistance(Point(x, y), Point(e.x, e.y))
      ensures InRange(e) <==> distance <= range
    {
      AtMostIffSquaredAtMost(SquaredDistance(Point(x, y), Point(e.x, e.y)), distance, range);
    }

    /** The enemy `find_target` returns (tower.py:25-30): the first one in list
        order that is in range, or none. */
    function FirstInRange(enemies: seq<Enemy>): (r: Enemy?)
      reads enemies
      ensures r == null <==> forall e | e in enemies :: !InRange(e)
      ensures r != null ==>
                exists i :: 0 <= i < |enemies| && enemies[i] == r && InRange(r) &&
                            forall j :: 0 <= j < i ==> !InRange(enemies[j])
      decreases |enemies|
    {
      if enemies == [] then null
      else if InRange(enemies[0]) then enemies[0]
      else
        var r := FirstInRange(enemies[1..]);
        assert forall e | e in enemies :: e == enemies[0] || e in enemies[1..];
        r
    }

    /** tower.py:25-30: a linear search with early return. */
    method FindTarget(enemies: seq<Enemy>) returns (target: Enemy?)
      ensures target == FirstInRange(enemies)
    {
      for i := 0 to |enemies|
        invariant FirstInRange(enemies) == FirstInRange(enemies[i..])
      {
        if InRange(enemies[i]) {
          return enemies[i];
        }
        assert enemies[i..][1..] == enemies[i + 1..];
      }
      return null;
    }

    /** tower.py:13-23. The caller's projectile list, which the source appends
        to, is passed in and returned extended. */
    method Update(enemies: seq<Enemy>, projectiles: seq<Projectile>) returns (updated: seq<Projectile>)
      requires Valid()
      modifies this`fireCooldown
      ensures Valid()
      ensures fireCooldown == NextCooldown(old(fireCooldown), FirstInRange(enemies) != null)
      // no shot: the list is unchanged
      ensures !Fires(old(fireCooldown), FirstInRange(enemies) != null) ==> updated == projectiles
      // a shot: exactly one new projectile, from the tower, at the first enemy in range
      ensures Fires(old(fireCooldown), FirstInRange(enemies) != null) ==>
                |updated| == |projectiles| + 1 && updated[..|projectiles|] == projectiles &&
                var p := updated[|projectiles|];
                fresh(p) && p.x == x && p.y == y && p.target == FirstInRange(enemies) &&
                p.damage == damage && p.isActive && p.hits == 0
    {
      if fireCooldown > 0 {
        fireCooldown := fireCooldown - 1;
      }
      updated := projectiles;
      if fireCooldown <= 0 {
        var target := FindTarget(enemies);
        if target != null {
          var p := new Projectile(x, y, target, damage);
          updated := projectiles + [p];
          fireCooldown := fireRate;
        }
      }
    }
  }
}
