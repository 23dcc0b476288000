/** An enemy walking the waypoint path (enemy.py).

    The enemy's fields are updated in place by `Move` and `TakeDamage`; each of
    those methods is specified by a pure function on an `EnemyState` snapshot
    (`Moved`, `Damaged`), and the properties the game relies on are stated about
    those functions, for one call and, through `Run`, for any sequence of calls. */
module Enemies {
  import opened Geometry

  /** Distance an enemy walks per frame (enemy.py:7). */
  const EnemySpeed: real := 0.5
  /** Health of a fresh enemy (enemy.py:8). */
  const MaxHealth: int := 150
  /** Frames an enemy flashes after a hit (enemy.py:13). */
  const DamageFlashDuration: int := 10

  /** The mutable part of an enemy: everything but its path and its constants. */
  datatype EnemyState = EnemyState(
    x: real,
    y: real,
    pathIndex: nat,
    health: int,
    isDead: bool,
    damageTakenTimer: int)
  {
    function Position(): Point { Point(x, y) }
  }

  /** What every enemy of the game satisfies between calls: it is heading for a
      waypoint of its path, its flash timer is within [0, 10], and it is dead
      exactly when its health is used up. */
  predicate WellFormed(path: seq<Point>, s: EnemyState)
  {
    s.pathIndex < |path| &&
    0 <= s.damageTakenTimer <= DamageFlashDuration &&
    (s.isDead <==> s.health <= 0)
  }

  /** A fresh enemy (enemy.py:4-13): on the first waypoint, heading for it, at full
      health, alive and not flashing. */
  function Spawned(path: seq<Point>): (s: EnemyState)
    requires |path| > 0
    ensures WellFormed(path, s)
    ensures s.Position() == path[0] && s.pathIndex == 0
    ensures s.health == MaxHealth && !s.isDead && s.damageTakenTimer == 0
  {
    EnemyState(path[0].x, path[0].y, 0, MaxHealth, false, 0)
  }

  /** One frame of `Enemy.move` (enemy.py:15-32). The direction-normalised step of
      enemy.py:31-32 is `step`. */
  function Moved(path: seq<Point>, s: EnemyState, step: Step): (r: EnemyState)
    // a dead enemy is frozen
    ensures s.isDead ==> r == s
    // moving never changes health or the dead flag
    ensures r.health == s.health && r.isDead == s.isDead
    // the flash timer counts down to 0 and stops there
    ensures !s.isDead && s.damageTakenTimer > 0 ==> r.damageTakenTimer == s.damageTakenTimer - 1
    ensures s.damageTakenTimer <= 0 ==> r.damageTakenTimer == s.damageTakenTimer
    // the waypoint index advances by at most one and stays on the path
    ensures s.pathIndex <= r.pathIndex <= s.pathIndex + 1
    ensures s.pathIndex < |path| ==> r.pathIndex < |path|
    // at the last waypoint the enemy stays where it is
    ensures s.pathIndex >= |path| - 1 ==> r.Position() == s.Position() && r.pathIndex == s.pathIndex
    // reaching a waypoint puts the enemy exactly on it
    ensures r.pathIndex == s.pathIndex + 1 ==> r.pathIndex < |path| && r.Position() == path[r.pathIndex]
    // within one step of the next waypoint the enemy snaps to it
    ensures !s.isDead && s.pathIndex < |path| - 1 &&
            SquaredDistance(s.Position(), path[s.pathIndex + 1]) < EnemySpeed * EnemySpeed
            ==> r.pathIndex == s.pathIndex + 1
    // otherwise it takes a partial step towards it
    ensures !s.isDead && s.pathIndex < |path| - 1 &&
            SquaredDistance(s.Position(), path[s.pathIndex + 1]) >= EnemySpeed * EnemySpeed
            ==> r.pathIndex == s.pathIndex &&
                r.Position() == step(s.Position(), path[s.pathIndex + 1], EnemySpeed)
    ensures WellFormed(path, s) ==> WellFormed(path, r)
  {
    if s.isDead then s
    else
      var timer := if s.damageTakenTimer > 0 then s.damageTakenTimer - 1 else s.damageTakenTimer;
      if s.pathIndex < |path| - 1 then
        var target := path[s.pathIndex + 1];
        if SquaredDistance(s.Position(), target) < EnemySpeed * EnemySpeed then
          s.(x := target.x, y := target.y, pathIndex := s.pathIndex + 1, damageTakenTimer := timer)
        else
          var p := step(s.Position(), target, EnemySpeed);
          s.(x := p.x, y := p.y, damageTakenTimer := timer)
      else
        s.(damageTakenTimer := timer)
  }

  /** `Enemy.take_damage` (enemy.py:34-39), including the `die` it may call. */
  function Damaged(s: EnemyState, damage: int): (r: EnemyState)
    // a dead enemy takes no damage
    ensures s.isDead ==> r == s
    // a live one loses exactly `damage`, starts flashing, and dies iff its health is used up
    ensures !s.isDead ==> r.health == s.health - damage &&
                          r.damageTakenTimer == DamageFlashDuration &&
                          (r.isDead <==> r.health <= 0)
    // damage never moves an enemy and never revives one
    ensures r.Position() == s.Position() && r.pathIndex == s.pathIndex
    ensures s.isDead ==> r.isDead
  {
    if s.isDead then s
    else
      var health := s.health - damage;
      s.(health := health, damageTakenTimer := DamageFlashDuration, isDead := health <= 0)
  }

  /** A call made on an enemy from outside: a frame's `move` or a hit. */
  datatype EnemyCall = MoveCall(step: Step) | TakeDamageCall(damage: int)

  function Apply(path: seq<Point>, s: EnemyState, call: EnemyCall): EnemyState
  {
    match call
    case MoveCall(step) => Moved(path, s, step)
    case TakeDamageCall(damage) => Damaged(s, damage)
  }

  /** The state after a sequence of calls, in order. */
  function Run(path: seq<Point>, s: EnemyState, calls: seq<EnemyCall>): EnemyState
    decreases |calls|
  {
    if calls == [] then s else Run(path, Apply(path, s, calls[0]), calls[1..])
  }

  lemma {:induction false} RunAppend(path: seq<Point>, s: EnemyState, a: seq<EnemyCall>, b: seq<EnemyCall>)
    ensures Run(path, s, a + b) == Run(path, Run(path, s, a), b)
    decreases |a|
  {
    if a != [] {
      assert (a + b)[1..] == a[1..] + b;
      RunAppend(path, Apply(path, s, a[0]), a[1..], b);
    } else {
      assert a + b == b;
    }
  }

  /** Once dead, no sequence of moves and hits changes anything. */
  lemma {:induction false} RunFrozenOnceDead(path: seq<Point>, s: EnemyState, calls: seq<EnemyCall>)
    requires s.isDead
    ensures Run(path, s, calls) == s
    decreases |calls|
  {
    if calls != [] {
      RunFrozenOnceDead(path, Apply(path, s, calls[0]), calls[1..]);
    }
  }

  /** `is_dead` flips at most once: whatever follows the call that killed an enemy
      leaves it as it was. */
  lemma DeathIsFinal(path: seq<Point>, s: EnemyState, before: seq<EnemyCall>, after: seq<EnemyCall>)
    requires Run(path, s, before).isDead
    ensures Run(path, s, before + after) == Run(path, s, before)
  {
    RunAppend(path, s, before, after);
    RunFrozenOnceDead(path, Run(path, s, before), after);
  }

  /** Across any sequence of calls the path index never decreases, grows by at
      most one per call, and the enemy stays well formed (flash timer in [0, 10],
      dead exactly when out of health). */
  lemma {:induction false} RunInvariants(path: seq<Point>, s: EnemyState, calls: seq<EnemyCall>)
    requires WellFormed(path, s)
    ensures WellFormed(path, Run(path, s, calls))
    ensures s.pathIndex <= Run(path, s, calls).pathIndex <= s.pathIndex + |calls|
    ensures s.isDead ==> Run(path, s, calls).isDead
    decreases |calls|
  {
    if calls != [] {
      RunInvariants(path, Apply(path, s, calls[0]), calls[1..]);
    }
  }

  class Enemy {
    const path: seq<Point>
    var x: real
    var y: real
    const speed: real := EnemySpeed
    const maxHealth: int := MaxHealth
    var health: int
    var pathIndex: nat
    var isDead: bool
    var damageTakenTimer: int
    const damageFlashDuration: int := DamageFlashDuration

    function State(): EnemyState
      reads this
    {
      EnemyState(x, y, pathIndex, health, isDead, damageTakenTimer)
    }

    predicate Valid()
      reads this
    {
      WellFormed(path, State())
    }

    /** enemy.py:4-13; the source indexes `path[0]`, so the path is non-empty. */
    constructor (path: seq<Point>)
      requires |path| > 0
      ensures this.path == path && Valid()
      ensures State() == Spawned(path)
    {
      this.path := path;
      x, y := path[0].x, path[0].y;
      health := MaxHealth;
      pathIndex := 0;
      isDead := false;
      damageTakenTimer := 0;
    }

    method Move(step: Step)
      modifies this
      ensures State() == Moved(path, old(State()), step)
    {
      if isDead {
        return;
      }
      if damageTakenTimer > 0 {
        damageTakenTimer := damageTakenTimer - 1;
      }
      if pathIndex < |path| - 1 {
        var target := path[pathIndex + 1];
        if SquaredDistance(Point(x, y), target) < speed * speed {
          x, y := target.x, target.y;
          pathIndex := pathIndex + 1;
        } else {
          var p := step(Point(x, y), target, speed);
          x, y := p.x, p.y;
        }
      }
    }

    method TakeDamage(damage: int)
      modifies this
      ensures State() == Damaged(old(State()), damage)
    {
      if isDead {
        return;
      }
      health := health - damage;
      damageTakenTimer := damageFlashDuration;
      if health <= 0 {
        Die();
      }
    }

    /** enemy.py:41-45; idempotent, since its result does not depend on the old flag. */
    method Die()
      modifies this
      ensures State() == old(State()).(isDead := true)
    {
      if !isDead {
        isDead := true;
      }
    }
  }
}
