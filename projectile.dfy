/** A projectile homing on one enemy (projectile.py).

    `Projectile.Move` is specified by the pure function `Flown` on the projectile's
    state and its target's state, the way `Enemy.Move` is specified by `Moved`. */
module Projectiles {
  import opened Geometry
  import opened Enemies

  /** Distance a projectile flies per frame (projectile.py:9). */
  const ProjectileSpeed: real := 5.0

  datatype Option<T> = None | Some(value: T)

  /** The mutable part of a projectile. */
  datatype Flight = Flight(x: real, y: real, isActive: bool)
  {
    function Position(): Point { Point(x, y) }
  }

  /** The three ways a frame of `move` can go (projectile.py:12-29). */
  datatype Outcome =
    | Lost     // no target, or a dead one: the projectile deactivates
    | Hit      // within one step of a live target: it hits and deactivates
    | Closer   // otherwise: it flies one step towards the target

  /** Which way `move` goes, from the projectile's position and its target's state;
      the hit test `distance < speed` is taken on squared distances. */
  function Aim(from: Point, target: Option<EnemyState>): Outcome
  {
    if target.None? || target.value.isDead then Lost
    else if SquaredDistance(from, target.value.Position()) < ProjectileSpeed * ProjectileSpeed then Hit
    else Closer
  }

  /** `Aim` reports a hit exactly when the target is alive and the source's
      `distance < speed` holds for the root of the squared distance. */
  lemma AimHitIffWithinOneStep(from: Point, target: EnemyState, distance: real)
    requires distance >= 0.0
    requires distance * distance == SquaredDistance(from, target.Position())
    ensures Aim(from, Some(target)) == Hit <==> !target.isDead && distance < ProjectileSpeed
  {
    BelowIffSquaredBelow(SquaredDistance(from, target.Position()), distance, ProjectileSpeed);
  }

  /** One frame of `Projectile.move` (projectile.py:12-29) on the projectile's state
      and its target's: the new state of both. The partial step of
      projectile.py:28-29 is `step`. */
  function Flown(f: Flight, target: Option<EnemyState>, damage: int, step: Step): (r: (Flight, Option<EnemyState>))
    // the target stays the same enemy; only a hit changes it, by exactly one `take_damage`
    ensures r.1.Some? == target.Some?
    ensures Aim(f.Position(), target) != Hit ==> r.1 == target
    ensures Aim(f.Position(), target) == Hit ==> r.1 == Some(Damaged(target.value, damage))
    // losing the target or hitting it deactivates the projectile where it is
    ensures Aim(f.Position(), target) != Closer ==> !r.0.isActive && r.0.Position() == f.Position()
    // otherwise it flies a step towards the target's position and keeps its flag
    ensures Aim(f.Position(), target) == Closer ==>
              r.0.isActive == f.isActive &&
              r.0.Position() == step(f.Position(), target.value.Position(), ProjectileSpeed)
  {
    match Aim(f.Position(), target)
    case Lost => (f.(isActive := false), target)
    case Hit => (f.(isActive := false), Some(Damaged(target.value, damage)))
    case Closer =>
      var p := step(f.Position(), target.value.Position(), ProjectileSpeed);
      (f.(x := p.x, y := p.y), target)
  }

  /** A dead target is never touched, and a live one dies only from a hit that
      uses up its health. */
  lemma FlownNeverRevives(f: Flight, target: EnemyState, damage: int, step: Step)
    ensures target.isDead ==> Flown(f, Some(target), damage, step).1 == Some(target)
    ensures !target.isDead && Flown(f, Some(target), damage, step).1.value.isDead ==>
              Aim(f.Position(), Some(target)) == Hit && target.health - damage <= 0
  {
  }

  /** A frame keeps its target well formed (flash timer in range, dead exactly
      when out of health). */
  lemma FlownKeepsTargetWellFormed(path: seq<Point>, f: Flight, target: EnemyState, damage: int, step: Step)
    requires WellFormed(path, target)
    ensures WellFormed(path, Flown(f, Some(target), damage, step).1.value)
  {
  }

  class Projectile {
    var x: real
    var y: real
    /** A reference to an enemy the projectile does not own: the enemy may die, and
        leave the game's roster, while the projectile is in flight. */
    const target: Enemy?
    const damage: int
    const speed: real := ProjectileSpeed
    var isActive: bool
    /** How many times this projectile has called `take_damage` on its target. It is
        not part of the game's state; it records hits so that the game loop can be
        shown to let each projectile hit at most once. */
    ghost var hits: nat

    function State(): Flight
      reads this
    {
      Flight(x, y, isActive)
    }

    function TargetState(): Option<EnemyState>
      reads target
    {
      if target == null then None else Some(target.State())
    }

    /** In flight and has hit nothing: every projectile of the game's roster. */
    ghost predicate Unfired()
      reads this
    {
      isActive && hits == 0
    }

    /** projectile.py:4-10 */
    constructor (startX: real, startY: real, targetEnemy: Enemy?, damage: int)
      ensures x == startX && y == startY
      ensures target == targetEnemy && this.damage == damage
      ensures Unfired()
    {
      x, y := startX, startY;
      target := targetEnemy;
      this.damage := damage;
      isActive := true;
      hits := 0;
    }

    /** projectile.py:12-29. Like the source, `Move` does not look at `isActive`:
        it is the caller that must stop moving a projectile once it is inactive. */
    method Move(step: Step)
      modifies this, target
      ensures (State(), TargetState()) == Flown(old(State()), old(TargetState()), damage, step)
      ensures hits == old(hits) + (if Aim(old(State().Position()), old(TargetState())) == Hit then 1 else 0)
    {
      if target == null || target.isDead {
        isActive := false;
        return;
      }
      var aim := Point(target.x, target.y);
      if SquaredDistance(Point(x, y), aim) < speed * speed {
        target.TakeDamage(damage);
        hits := hits + 1;
        isActive := false;
      } else {
        var p := step(Point(x, y), aim, speed);
        x, y := p.x, p.y;
      }
    }
  }
}
