/** The game session and its per-frame update (main.py).

    The source keeps the rosters and the spawn counter in module-level variables
    and updates them in its main loop; here they are the fields of a `Session`,
    and one frame of the loop's update block is `Session.Tick`, made of the four
    phases the loop runs in order: spawning, moving enemies, updating towers and
    moving projectiles. */
module Game {
  import opened Geometry
  import opened Enemies
  import opened Projectiles
  import opened Towers

  /** Frames between two spawns (main.py:36). */
  const EnemySpawnInterval: int := 120

  predicate Distinct<T(==)>(s: seq<T>)
  {
    forall i, j | 0 <= i < j < |s| :: s[i] != s[j]
  }

  /** Python's `list.remove(x)`: drop the first occurrence of `x`. The source
      raises an error when `x` is absent; the game never does that. */
  function RemoveFirst<T(==)>(s: seq<T>, x: T): (r: seq<T>)
    requires x in s
    ensures |r| == |s| - 1
  {
    assert s == [s[0]] + s[1..];
    if s[0] == x then s[1..] else [s[0]] + RemoveFirst(s[1..], x)
  }

  /** Removing an element that does not occur earlier removes exactly it. */
  lemma {:induction false} RemoveFirstAfter<T>(a: seq<T>, x: T, b: seq<T>)
    requires x !in a
    ensures RemoveFirst(a + [x] + b, x) == a + b
    decreases |a|
  {
    if a != [] {
      assert (a + [x] + b)[1..] == a[1..] + [x] + b;
      RemoveFirstAfter(a[1..], x, b);
      assert a == [a[0]] + a[1..];
    }
  }

  /** The elements `s[k]` of `s` for which `keep[k]` holds, in their order in `s`:
      what is left of a list after a pass that removes the others. */
  function Select<T>(s: seq<T>, keep: seq<bool>): (r: seq<T>)
    requires |keep| == |s|
    decreases |s|
  {
    if s == [] then []
    else
      var n := |s| - 1;
      assert s == s[..n] + [s[n]];
      Select(s[..n], keep[..n]) + (if keep[n] then [s[n]] else [])
  }

  /** Every element kept is an element of the list whose flag is set. */
  lemma {:induction false} SelectMembers<T>(s: seq<T>, keep: seq<bool>)
    requires |keep| == |s|
    ensures forall x | x in Select(s, keep) :: exists k :: 0 <= k < |s| && s[k] == x && keep[k]
    decreases |s|
  {
    if s != [] {
      var n := |s| - 1;
      assert s == s[..n] + [s[n]];
      SelectMembers(s[..n], keep[..n]);
      forall x | x in Select(s, keep)
        ensures exists k :: 0 <= k < |s| && s[k] == x && keep[k]
      {
        if x in Select(s[..n], keep[..n]) {
          var k :| 0 <= k < n && s[..n][k] == x && keep[..n][k];
          assert s[k] == x && keep[k];
        } else {
          assert s[n] == x && keep[n];
        }
      }
    }
  }

  /** Flagging one more element extends the kept part by it, if kept. */
  lemma SelectSnoc<T>(s: seq<T>, keep: seq<bool>, x: T, b: bool)
    requires |keep| == |s|
    ensures Select(s + [x], keep + [b]) == Select(s, keep) + (if b then [x] else [])
  {
    assert (s + [x])[..|s|] == s;
    assert (keep + [b])[..|s|] == keep;
  }

  /** One step of a pass over a list without repetitions (`at` inverts its
      indexing) that removes, in place, each element whose flag is false: before
      step `i` the list is the kept part of `s[..i]` followed by `s[i..]`; `s[i]` is
      still in it, and removing it (or not) gives the same shape one step further. */
  lemma RemovalStep<T>(s: seq<T>, at: map<T, int>, i: nat, keep: seq<bool>, roster: seq<T>, b: bool)
    requires forall j | 0 <= j < |s| :: s[j] in at && at[s[j]] == j
    requires i < |s| && |keep| == i && roster == Select(s[..i], keep) + s[i..]
    ensures s[i] in roster
    ensures b ==> roster == Select(s[..i + 1], keep + [b]) + s[i + 1..]
    ensures !b ==> RemoveFirst(roster, s[i]) == Select(s[..i + 1], keep + [b]) + s[i + 1..]
  {
    var kept := Select(s[..i], keep);
    SplitAt(s, i, kept, roster);
    NotEarlier(s, at, i);
    NotSelected(s[..i], keep, s[i]);
    SelectPrefixSnoc(s, keep, i, b);
    if !b {
      RemoveFirstAfter(kept, s[i], s[i + 1..]);
    }
  }

  /** A list made of a prefix and `s[i..]` has `s[i]` right after the prefix. */
  lemma SplitAt<T>(s: seq<T>, i: nat, kept: seq<T>, roster: seq<T>)
    requires i < |s| && roster == kept + s[i..]
    ensures roster == kept + [s[i]] + s[i + 1..]
  {
    assert s[i..] == [s[i]] + s[i + 1..];
  }

  /** The kept part of `s[..i + 1]` is that of `s[..i]` followed by `s[i]`, if kept. */
  lemma SelectPrefixSnoc<T>(s: seq<T>, keep: seq<bool>, i: nat, b: bool)
    requires i < |s| && |keep| == i
    ensures Select(s[..i + 1], keep + [b]) == Select(s[..i], keep) + (if b then [s[i]] else [])
  {
    assert s[..i + 1] == s[..i] + [s[i]];
    SelectSnoc(s[..i], keep, s[i], b);
  }

  /** What does not occur in a list is not kept from it. */
  lemma {:induction false} NotSelected<T>(s: seq<T>, keep: seq<bool>, x: T)
    requires |keep| == |s| && forall k | 0 <= k < |s| :: s[k] != x
    ensures x !in Select(s, keep)
    decreases |s|
  {
    if s != [] {
      NotSelected(s[..|s| - 1], keep[..|s| - 1], x);
    }
  }

  /** In a list whose indexing `at` inverts, no element occurs before its position. */
  lemma NotEarlier<T>(s: seq<T>, at: map<T, int>, i: nat)
    requires forall j | 0 <= j < |s| :: s[j] in at && at[s[j]] == j
    requires i < |s|
    ensures forall k | 0 <= k < i :: s[k] != s[i]
  {
  }

  /** Removing elements from a list without repetitions gives one without. */
  lemma {:induction false} SelectDistinct<T>(s: seq<T>, keep: seq<bool>)
    requires |keep| == |s| && Distinct(s)
    ensures Distinct(Select(s, keep))
    decreases |s|
  {
    if s != [] {
      var n := |s| - 1;
      assert s == s[..n] + [s[n]];
      assert Distinct(s[..n]);
      SelectDistinct(s[..n], keep[..n]);
      var r := Select(s[..n], keep[..n]);
      SelectMembers(s[..n], keep[..n]);
      assert forall k | 0 <= k < |r| :: r[k] != s[n] by {
        forall k | 0 <= k < |r|
          ensures r[k] != s[n]
        {
          assert r[k] in r;
        }
      }
    }
  }

  /** Appending a new element to a list without repetitions keeps it so. */
  lemma DistinctSnoc<T>(s: seq<T>, x: T)
    requires Distinct(s) && x !in s
    ensures Distinct(s + [x])
  {
  }

  /** Two lists without repetitions and without a common element make one. */
  lemma DistinctAppend<T>(a: seq<T>, b: seq<T>)
    requires Distinct(a) && Distinct(b)
    requires forall x | x in a :: x !in b
    ensures Distinct(a + b)
  {
    forall i, j | 0 <= i < j < |a + b|
      ensures (a + b)[i] != (a + b)[j]
    {
      if i < |a| && |a| <= j {
        assert (a + b)[i] in a && (a + b)[j] in b;
      }
    }
  }

  /** Which enemies of a roster are alive. */
  ghost function Alive(enemies: seq<Enemy>): (r: seq<bool>)
    reads enemies
    ensures |r| == |enemies|
    ensures forall k | 0 <= k < |enemies| :: r[k] == !enemies[k].isDead
  {
    if enemies == [] then [] else [!enemies[0].isDead] + Alive(enemies[1..])
  }

  /** The cooldowns of a roster's towers. */
  ghost function Cooldowns(towers: seq<Tower>): (r: seq<int>)
    reads towers
    ensures |r| == |towers| && forall j | 0 <= j < |towers| :: r[j] == towers[j].fireCooldown
  {
    if towers == [] then [] else [towers[0].fireCooldown] + Cooldowns(towers[1..])
  }

  /** The enemy each tower of a roster aims at among `enemies`, if any. */
  ghost function Targets(towers: seq<Tower>, enemies: seq<Enemy>): (r: seq<Enemy?>)
    reads enemies
    ensures |r| == |towers| && forall j | 0 <= j < |towers| :: r[j] == towers[j].FirstInRange(enemies)
  {
    if towers == [] then [] else [towers[0].FirstInRange(enemies)] + Targets(towers[1..], enemies)
  }

  /** The positions, in increasing order, of the towers among the first `n` that
      fire this frame, given their cooldowns and the targets they found. */
  function Firing(cooldowns: seq<int>, targets: seq<Enemy?>, n: nat): (r: seq<nat>)
    requires |cooldowns| == |targets| && n <= |cooldowns|
    ensures forall k | 0 <= k < |r| :: r[k] < n && Fires(cooldowns[r[k]], targets[r[k]] != null)
    ensures forall k, l | 0 <= k < l < |r| :: r[k] < r[l]
  {
    if n == 0 then []
    else Firing(cooldowns, targets, n - 1) + (if Fires(cooldowns[n - 1], targets[n - 1] != null) then [n - 1] else [])
  }

  /** Every tower among the first `n` that fires is in `Firing`. */
  lemma {:induction false} FiringComplete(cooldowns: seq<int>, targets: seq<Enemy?>, n: nat, j: nat)
    requires |cooldowns| == |targets| && j < n <= |cooldowns|
    requires Fires(cooldowns[j], targets[j] != null)
    ensures j in Firing(cooldowns, targets, n)
  {
    if j < n - 1 {
      FiringComplete(cooldowns, targets, n - 1, j);
    }
  }

  /** `p` is the projectile tower `t` fires at `target`. */
  ghost predicate ShotBy(p: Projectile, t: Tower, target: Enemy?)
    reads p
  {
    p.x == t.x && p.y == t.y && p.target == target && p.damage == t.damage && p.Unfired()
  }

  /** `shots[k]` is the projectile fired by tower `order[k]` of `towers` at its
      target in `targets`. */
  ghost predicate ShotsBy(shots: seq<Projectile>, towers: seq<Tower>, targets: seq<Enemy?>, order: seq<nat>)
    reads shots
  {
    |shots| == |order| &&
    forall k | 0 <= k < |shots| ::
      order[k] < |towers| && order[k] < |targets| && ShotBy(shots[k], towers[order[k]], targets[order[k]])
  }

  /** The number of enemies spawned over `frames` frames when the spawn counter
      starts at `timer`: each frame the counter goes up by one, and when it reaches
      the interval an enemy spawns and the counter restarts at 0. */
  function SpawnsOver(timer: int, frames: nat): nat
    decreases frames
  {
    if frames == 0 then 0
    else if timer + 1 >= EnemySpawnInterval then 1 + SpawnsOver(0, frames - 1)
    else SpawnsOver(timer + 1, frames - 1)
  }

  /** One enemy every 120 frames (the comment at main.py:36): from a counter at
      `timer`, `frames` frames spawn exactly (timer + frames) / 120 enemies. */
  lemma {:induction false} SpawnsOnceEveryInterval(timer: int, frames: nat)
    requires 0 <= timer < EnemySpawnInterval
    ensures SpawnsOver(timer, frames) == (timer + frames) / EnemySpawnInterval
    decreases frames
  {
    if frames > 0 {
      if timer + 1 >= EnemySpawnInterval {
        SpawnsOnceEveryInterval(0, frames - 1);
        assert timer + frames == EnemySpawnInterval + (frames - 1);
      } else {
        SpawnsOnceEveryInterval(timer + 1, frames - 1);
      }
    }
  }

  /** Where each element of a list sits; for a list without repetitions, the
      inverse of indexing. */
  ghost function Positions<T>(s: seq<T>): (at: map<T, int>)
    ensures Distinct(s) ==> forall j | 0 <= j < |s| :: s[j] in at && at[s[j]] == j
    decreases |s|
  {
    if s == [] then map[]
    else
      var n := |s| - 1;
      assert s == s[..n] + [s[n]];
      assert Distinct(s) ==> Distinct(s[..n]);
      Positions(s[..n])[s[n] := n]
  }

  /** The states of a roster's enemies. */
  ghost function States(enemies: seq<Enemy>): (r: seq<EnemyState>)
    reads enemies
    ensures |r| == |enemies| && forall j | 0 <= j < |enemies| :: r[j] == enemies[j].State()
  {
    if enemies == [] then [] else [enemies[0].State()] + States(enemies[1..])
  }

  /** The first `i` enemies of `enemies` have each moved once from their state in
      `before`, and the others are still as in `before`. */
  ghost predicate MovedUpTo(enemies: seq<Enemy>, before: seq<EnemyState>, i: int, step: Step)
    reads enemies
  {
    |before| == |enemies| &&
    forall j | 0 <= j < |enemies| ::
      enemies[j].State() == if j < i then Moved(enemies[j].path, before[j], step) else before[j]
  }

  /** The body of the loop of main.py:82-86 up to the removal: enemy `i` moves. */
  method MoveNthEnemy(snapshot: seq<Enemy>, ghost at: map<Enemy, int>, ghost before: seq<EnemyState>, i: nat, step: Step)
    requires forall j | 0 <= j < |snapshot| :: snapshot[j] in at && at[snapshot[j]] == j
    requires i < |snapshot| && MovedUpTo(snapshot, before, i, step)
    modifies snapshot[i]
    ensures MovedUpTo(snapshot, before, i + 1, step)
    ensures snapshot[i].isDead == before[i].isDead
  {
    snapshot[i].Move(step);
  }

  /** The loop of main.py:82-86: each enemy of `snapshot` moves once, in order, and
      those dead after moving are removed from `roster`, a copy of `snapshot`.
      `at` inverts the indexing of `snapshot`: no enemy occurs twice. */
  method MoveEachEnemy(snapshot: seq<Enemy>, ghost at: map<Enemy, int>, step: Step)
    returns (roster: seq<Enemy>, ghost alive: seq<bool>)
    requires forall j | 0 <= j < |snapshot| :: snapshot[j] in at && at[snapshot[j]] == j
    modifies snapshot
    ensures |alive| == |snapshot| && roster == Select(snapshot, alive)
    // moving never kills, so an enemy is kept iff it was alive before the loop
    ensures forall j | 0 <= j < |snapshot| :: alive[j] == !old(snapshot[j].isDead)
    ensures MovedUpTo(snapshot, old(States(snapshot)), |snapshot|, step)
  {
    ghost var before := States(snapshot);
    roster, alive := snapshot, [];
    var i := 0;
    while i < |snapshot|
      invariant 0 <= i <= |snapshot| && |alive| == i
      invariant roster == Select(snapshot[..i], alive) + snapshot[i..]
      invariant forall j | 0 <= j < i :: alive[j] == !before[j].isDead
      invariant MovedUpTo(snapshot, before, i, step)
    {
      var e := snapshot[i];
      MoveNthEnemy(snapshot, at, before, i, step);
      var kept := !e.isDead;
      RemovalStep(snapshot, at, i, alive, roster, kept);
      if !kept {
        roster := RemoveFirst(roster, e);
      }
      AliveSnoc(alive, before, kept);
      alive := alive + [kept];
      i := i + 1;
    }
    assert snapshot[..i] == snapshot;
  }

  /** The alive flags of the first `i` enemies extend by that of enemy `i`. */
  lemma AliveSnoc(alive: seq<bool>, before: seq<EnemyState>, b: bool)
    requires |alive| < |before| && forall j | 0 <= j < |alive| :: alive[j] == !before[j].isDead
    requires b == !before[|alive|].isDead
    ensures forall j | 0 <= j < |alive| + 1 :: (alive + [b])[j] == !before[j].isDead
  {
  }

  /** main.py:82-86 with what the game keeps between frames: `roster` is the
      part of `snapshot` still alive after every enemy has moved; every enemy of
      `created` stays well formed. */
  method MoveEnemyRoster(snapshot: seq<Enemy>, ghost created: set<Enemy>, ghost path: seq<Point>, step: Step)
    returns (roster: seq<Enemy>)
    requires ValidEnemies(snapshot, created, path)
    modifies snapshot
    ensures roster == Select(snapshot, old(Alive(snapshot)))
    ensures ValidEnemies(roster, created, path) && forall e | e in roster :: !e.isDead
  {
    ghost var before := States(snapshot);
    ghost var living := Alive(snapshot);
    ghost var alive;
    roster, alive := MoveEachEnemy(snapshot, Positions(snapshot), step);
    assert alive == living;
    SelectDistinct(snapshot, alive);
    SelectMembers(snapshot, alive);
    forall e | e in roster
      ensures e in created && !e.isDead
    {
      var k :| 0 <= k < |snapshot| && snapshot[k] == e && alive[k];
      assert e.State() == Moved(path, before[k], step);
    }
    MovedKeepsValid(snapshot, before, step);
    forall e | e in created
      ensures e.Valid()
    {
      if e !in snapshot {
        assert e.State() == old(e.State());
      }
    }
  }

  /** Moving keeps every enemy well formed. */
  lemma MovedKeepsValid(enemies: seq<Enemy>, before: seq<EnemyState>, step: Step)
    requires MovedUpTo(enemies, before, |enemies|, step)
    requires forall j | 0 <= j < |enemies| :: WellFormed(enemies[j].path, before[j])
    ensures forall e | e in enemies :: e.Valid()
  {
    forall e | e in enemies
      ensures e.Valid()
    {
      var j :| 0 <= j < |enemies| && enemies[j] == e;
    }
  }

  /** The state of the target of `p` among the enemy states `m`, if it has one. */
  function Seen(p: Projectile, m: map<Enemy, EnemyState>): Option<EnemyState>
  {
    if p.target != null && p.target in m then Some(m[p.target]) else None
  }

  /** The enemy states after the first `n` projectiles of `projectiles` have each
      moved once, in order, from the flights `flights` and the enemy states `m`: a
      hit replaces its target's state by the damaged one, and nothing else
      changes an enemy. */
  ghost function StatesAfter(projectiles: seq<Projectile>, flights: seq<Flight>, m: map<Enemy, EnemyState>,
                             n: nat, step: Step): (r: map<Enemy, EnemyState>)
    requires |flights| == |projectiles| && n <= |projectiles|
    ensures r.Keys == m.Keys
  {
    if n == 0 then m
    else
      var before := StatesAfter(projectiles, flights, m, n - 1, step);
      var p := projectiles[n - 1];
      var target := Flown(flights[n - 1], Seen(p, before), p.damage, step).1;
      if target.Some? then before[p.target := target.value] else before
  }

  /** The state of the target of projectile `j` when its turn comes. */
  ghost function Aimed(projectiles: seq<Projectile>, flights: seq<Flight>, m: map<Enemy, EnemyState>,
                       j: nat, step: Step): Option<EnemyState>
    requires |flights| == |projectiles| && j < |projectiles|
  {
    Seen(projectiles[j], StatesAfter(projectiles, flights, m, j, step))
  }

  /** An enemy no projectile among the first `n` aims at keeps its state. */
  lemma {:induction false} StatesAfterUntargeted(projectiles: seq<Projectile>, flights: seq<Flight>,
                                                 m: map<Enemy, EnemyState>, n: nat, step: Step, e: Enemy)
    requires |flights| == |projectiles| && n <= |projectiles| && e in m
    requires forall j | 0 <= j < n :: projectiles[j].target != e
    ensures StatesAfter(projectiles, flights, m, n, step)[e] == m[e]
  {
    if n > 0 {
      StatesAfterUntargeted(projectiles, flights, m, n - 1, step, e);
    }
  }

  /** A dead enemy is left as it is by every projectile. */
  lemma {:induction false} StatesAfterKeepsDead(projectiles: seq<Projectile>, flights: seq<Flight>,
                                                m: map<Enemy, EnemyState>, n: nat, step: Step, e: Enemy)
    requires |flights| == |projectiles| && n <= |projectiles| && e in m && m[e].isDead
    ensures StatesAfter(projectiles, flights, m, n, step)[e] == m[e]
  {
    if n > 0 {
      StatesAfterKeepsDead(projectiles, flights, m, n - 1, step, e);
      var before := StatesAfter(projectiles, flights, m, n - 1, step);
      var p := projectiles[n - 1];
      if p.target == e {
        FlownNeverRevives(flights[n - 1], before[e], p.damage, step);
      }
    }
  }

  /** Hits keep every enemy well formed. */
  lemma {:induction false} StatesAfterWellFormed(projectiles: seq<Projectile>, flights: seq<Flight>,
                                                 m: map<Enemy, EnemyState>, n: nat, step: Step)
    requires |flights| == |projectiles| && n <= |projectiles|
    requires forall e | e in m :: WellFormed(e.path, m[e])
    ensures forall e | e in m :: WellFormed(e.path, StatesAfter(projectiles, flights, m, n, step)[e])
  {
    if n > 0 {
      StatesAfterWellFormed(projectiles, flights, m, n - 1, step);
      var before := StatesAfter(projectiles, flights, m, n - 1, step);
      var p := projectiles[n - 1];
      if p.target != null && p.target in before {
        FlownKeepsTargetWellFormed(p.target.path, flights[n - 1], before[p.target], p.damage, step);
      }
    }
  }

  /** The flights of a roster's projectiles. */
  ghost function Flights(projectiles: seq<Projectile>): (r: seq<Flight>)
    reads projectiles
    ensures |r| == |projectiles| && forall j | 0 <= j < |projectiles| :: r[j] == projectiles[j].State()
  {
    if projectiles == [] then [] else [projectiles[0].State()] + Flights(projectiles[1..])
  }

  /** The states of a set of enemies. */
  ghost function EnemyStates(enemies: set<Enemy>): (m: map<Enemy, EnemyState>)
    reads enemies
    ensures m.Keys == enemies && forall e | e in enemies :: m[e] == e.State()
  {
    map e | e in enemies :: e.State()
  }

  /** The first `i` projectiles of `projectiles` have each moved once from their
      flights in `flights`, against their target's state at its turn, from the
      enemy states `m`, with their flags and hit counts in `active` and `hits`: each
      stayed active iff it neither lost nor hit its target. The others are still
      as in `flights`, active and with no hit. */
  ghost predicate FlownUpTo(projectiles: seq<Projectile>, flights: seq<Flight>, m: map<Enemy, EnemyState>,
                            active: seq<bool>, hits: seq<nat>, i: nat, step: Step)
    reads projectiles
  {
    |flights| == |projectiles| && |active| == |hits| == i <= |projectiles| &&
    forall j | 0 <= j < |projectiles| ::
      if j < i then
        var aimed := Aimed(projectiles, flights, m, j, step);
        projectiles[j].State() == Flown(flights[j], aimed, projectiles[j].damage, step).0 &&
        active[j] == projectiles[j].isActive && hits[j] == projectiles[j].hits &&
        (active[j] <==> Aim(flights[j].Position(), aimed) == Closer) &&
        hits[j] == (if Aim(flights[j].Position(), aimed) == Hit then 1 else 0)
      else
        projectiles[j].State() == flights[j] && flights[j].isActive && projectiles[j].hits == 0
  }

  /** The enemies of `targets` are in the states the first `i` projectiles leave
      them in, from the states `m`. */
  ghost predicate HitUpTo(targets: set<Enemy>, projectiles: seq<Projectile>, flights: seq<Flight>,
                          m: map<Enemy, EnemyState>, i: nat, step: Step)
    reads targets
  {
    |flights| == |projectiles| && i <= |projectiles| && m.Keys == targets &&
    forall e | e in targets :: e.State() == StatesAfter(projectiles, flights, m, i, step)[e]
  }

  /** The body of the loop of main.py:93-96 up to the removal: projectile `i`
      moves once, against its target's state at its turn, and stays active
      exactly when it neither lost nor hit its target. */
  method MoveNthProjectile(snapshot: seq<Projectile>, ghost at: map<Projectile, int>, ghost targets: set<Enemy>,
                           ghost flights: seq<Flight>, ghost m: map<Enemy, EnemyState>,
                           ghost active: seq<bool>, ghost hits: seq<nat>, i: nat, step: Step)
    requires forall j | 0 <= j < |snapshot| :: snapshot[j] in at && at[snapshot[j]] == j
    requires forall j | 0 <= j < |snapshot| && snapshot[j].target != null :: snapshot[j].target in targets
    requires forall e | e in targets :: e.Valid()
    requires i < |snapshot| && FlownUpTo(snapshot, flights, m, active, hits, i, step) && HitUpTo(targets, snapshot, flights, m, i, step)
    modifies snapshot[i], targets
    ensures FlownUpTo(snapshot, flights, m, active + [snapshot[i].isActive], hits + [snapshot[i].hits], i + 1, step)
    ensures HitUpTo(targets, snapshot, flights, m, i + 1, step)
    ensures forall e | e in targets :: e.Valid()
  {
    var p := snapshot[i];
    ghost var states := StatesAfter(snapshot, flights, m, i, step);
    ghost var aimedAt := p.TargetState();
    assert aimedAt == Seen(p, states) by {
      if p.target != null {
        assert p.target in targets;
      }
    }
    ghost var flight := p.State();
    assert flight == flights[i] && p.hits == 0;
    p.Move(step);
    if p.target != null {
      FlownKeepsTargetWellFormed(p.target.path, flight, aimedAt.value, p.damage, step);
    }
    forall j | 0 <= j < |snapshot| && j != i
      ensures snapshot[j].State() == old(snapshot[j].State()) && snapshot[j].hits == old(snapshot[j].hits)
    {
      assert at[snapshot[j]] != at[snapshot[i]];
    }
    ghost var next := StatesAfter(snapshot, flights, m, i + 1, step);
    forall e | e in targets
      ensures e.State() == next[e]
    {
      if e != p.target {
        assert e.State() == old(e.State()) == states[e];
      }
    }
  }


  /** The loop of main.py:93-96: each projectile of `snapshot` moves once, in order,
      and those inactive after moving are removed from `roster`, a copy of `snapshot`.
      Every projectile starts unfired, as those of the game's roster do; `targets`
      holds the enemies they aim at, and `at` inverts the indexing of `snapshot`.
      `flights` and `m` are the projectiles' and the enemies' states before the loop. */
  method MoveEachProjectile(snapshot: seq<Projectile>, ghost at: map<Projectile, int>, ghost targets: set<Enemy>, step: Step)
    returns (roster: seq<Projectile>, ghost active: seq<bool>, ghost hits: seq<nat>,
             ghost flights: seq<Flight>, ghost m: map<Enemy, EnemyState>)
    requires forall j | 0 <= j < |snapshot| :: snapshot[j] in at && at[snapshot[j]] == j
    requires forall j | 0 <= j < |snapshot| && snapshot[j].target != null :: snapshot[j].target in targets
    requires forall e | e in targets :: e.Valid()
    requires forall j | 0 <= j < |snapshot| :: snapshot[j].Unfired()
    modifies snapshot, targets
    ensures flights == old(Flights(snapshot)) && m == old(EnemyStates(targets))
    ensures |active| == |hits| == |snapshot| && roster == Select(snapshot, active)
    // every projectile moves once, in order, and is kept iff it neither lost nor
    // hit its target; the enemies take exactly the hits
    ensures FlownUpTo(snapshot, flights, m, active, hits, |snapshot|, step)
    ensures HitUpTo(targets, snapshot, flights, m, |snapshot|, step)
    // hits keep the enemies well formed
    ensures forall e | e in targets :: e.Valid()
  {
    flights, m := Flights(snapshot), EnemyStates(targets);
    roster, active, hits := snapshot, [], [];
    var i := 0;
    while i < |snapshot|
      invariant PassedUpTo(snapshot, flights, m, targets, roster, active, hits, i, step)
    {
      roster, active, hits := PassNthProjectile(snapshot, at, targets, flights, m, roster, active, hits, i, step);
      i := i + 1;
    }
    assert snapshot[..i] == snapshot;
  }

  /** A projectile that has moved once has hit at most once, and is inactive if
      it hit. */
  lemma HitAtMostOnce(projectiles: seq<Projectile>, flights: seq<Flight>, m: map<Enemy, EnemyState>,
                      active: seq<bool>, hits: seq<nat>, step: Step)
    requires FlownUpTo(projectiles, flights, m, active, hits, |projectiles|, step)
    ensures forall j | 0 <= j < |projectiles| ::
              (active[j], hits[j]) == (projectiles[j].isActive, projectiles[j].hits) && hits[j] <= 1 && (hits[j] == 1 ==> !active[j])
  {
  }

  /** The state of the loop of main.py:93-96 after its first `i` rounds: those
      projectiles have moved, the enemies have taken their hits and stay valid, and
      `roster` is the copy without those of them that are inactive. */
  ghost predicate PassedUpTo(snapshot: seq<Projectile>, flights: seq<Flight>, m: map<Enemy, EnemyState>,
                             targets: set<Enemy>, roster: seq<Projectile>, active: seq<bool>, hits: seq<nat>,
                             i: nat, step: Step)
    reads snapshot, targets
  {
    FlownUpTo(snapshot, flights, m, active, hits, i, step) && HitUpTo(targets, snapshot, flights, m, i, step) &&
    roster == Select(snapshot[..i], active) + snapshot[i..] &&
    forall e | e in targets :: e.Valid()
  }

  /** Round `i` of the loop of main.py:93-96: projectile `i` moves, and leaves the
      roster if it is inactive. */
  method PassNthProjectile(snapshot: seq<Projectile>, ghost at: map<Projectile, int>, ghost targets: set<Enemy>,
                           ghost flights: seq<Flight>, ghost m: map<Enemy, EnemyState>, roster: seq<Projectile>,
                           ghost active: seq<bool>, ghost hits: seq<nat>, i: nat, step: Step)
    returns (roster': seq<Projectile>, ghost active': seq<bool>, ghost hits': seq<nat>)
    requires forall j | 0 <= j < |snapshot| :: snapshot[j] in at && at[snapshot[j]] == j
    requires forall j | 0 <= j < |snapshot| && snapshot[j].target != null :: snapshot[j].target in targets
    requires i < |snapshot| && PassedUpTo(snapshot, flights, m, targets, roster, active, hits, i, step)
    modifies snapshot[i], targets
    ensures PassedUpTo(snapshot, flights, m, targets, roster', active', hits', i + 1, step)
  {
    var p := snapshot[i];
    MoveNthProjectile(snapshot, at, targets, flights, m, active, hits, i, step);
    RemovalStep(snapshot, at, i, active, roster, p.isActive);
    roster' := roster;
    if !p.isActive {
      roster' := RemoveFirst(roster, p);
    }
    active', hits' := active + [p.isActive], hits + [p.hits];
  }


  /** The first `i` towers of `towers` have been updated once from their cooldowns
      in `before`, where `targets` says what each finds; the others are untouched. */
  ghost predicate UpdatedUpTo(towers: seq<Tower>, before: seq<int>, targets: seq<Enemy?>, i: int)
    reads towers
  {
    |before| == |targets| == |towers| &&
    forall j | 0 <= j < |towers| ::
      towers[j].fireCooldown == if j < i then NextCooldown(before[j], targets[j] != null) else before[j]
  }

  /** The state of the loop of main.py:89-90 after its first `i` rounds: those
      towers are updated, and `updated` is the list `start` the loop began with
      followed by their `shots`, new projectiles aimed at enemies of `enemies`. */
  ghost predicate FiredByFirst(towers: seq<Tower>, before: seq<int>, targets: seq<Enemy?>, enemies: seq<Enemy>,
                               start: seq<Projectile>, updated: seq<Projectile>, shots: seq<Projectile>, i: int)
    reads towers, enemies, shots
  {
    0 <= i <= |towers| && UpdatedUpTo(towers, before, targets, i) && targets == Targets(towers, enemies) &&
    updated == start + shots && ShotsBy(shots, towers, targets, Firing(before, targets, i)) &&
    NewShots(start, shots, enemies)
  }

  /** No shot occurs twice or in `start`, and each aims at an enemy of `enemies`. */
  ghost predicate NewShots(start: seq<Projectile>, shots: seq<Projectile>, enemies: seq<Enemy>)
  {
    Distinct(shots) && forall k | 0 <= k < |shots| :: shots[k] !in start && shots[k].target in enemies
  }

  /** A new shot aimed at an enemy of `enemies` keeps the shots new. */
  lemma NewShotsSnoc(start: seq<Projectile>, shots: seq<Projectile>, enemies: seq<Enemy>, p: Projectile)
    requires NewShots(start, shots, enemies)
    requires p !in start && p !in shots && p.target in enemies
    ensures NewShots(start, shots + [p], enemies)
  {
    DistinctSnoc(shots, p);
  }

  /** Tower `i` is updated, and appends its shot, if it fires, to `projectiles`. */
  method UpdateAndAppend(towers: seq<Tower>, ghost at: map<Tower, int>, ghost before: seq<int>, ghost targets: seq<Enemy?>,
                        enemies: seq<Enemy>, i: nat, projectiles: seq<Projectile>, ghost earlier: seq<Projectile>)
    returns (updated: seq<Projectile>, ghost shot: seq<Projectile>)
    requires forall j | 0 <= j < |towers| :: towers[j] in at && at[towers[j]] == j
    requires i < |towers| && UpdatedUpTo(towers, before, targets, i)
    requires 0 <= before[i] <= FireRate && targets[i] == towers[i].FirstInRange(enemies)
    modifies towers[i]
    ensures UpdatedUpTo(towers, before, targets, i + 1)
    ensures updated == projectiles + shot && |shot| == if Fires(before[i], targets[i] != null) then 1 else 0
    ensures forall k | 0 <= k < |shot| ::
              fresh(shot[k]) && ShotBy(shot[k], towers[i], targets[i]) && shot[k].target in enemies
    ensures forall k | 0 <= k < |shot| :: shot[k] !in earlier
  {
    updated := towers[i].Update(enemies, projectiles);
    shot := updated[|projectiles|..];
    assert updated == projectiles + shot by {
      if |updated| > |projectiles| { assert updated[..|projectiles|] == projectiles; }
    }
  }

  /** Round `i` keeps the loop's state: the shot of tower `i`, if any, is new and
      goes after the shots of the towers before it. */
  lemma FiredByNext(towers: seq<Tower>, before: seq<int>, targets: seq<Enemy?>, enemies: seq<Enemy>,
                    start: seq<Projectile>, shots: seq<Projectile>, i: nat, shot: seq<Projectile>)
    requires i < |towers| && UpdatedUpTo(towers, before, targets, i + 1) && targets == Targets(towers, enemies)
    requires ShotsBy(shots, towers, targets, Firing(before, targets, i)) && NewShots(start, shots, enemies)
    requires |shot| == if Fires(before[i], targets[i] != null) then 1 else 0
    requires forall k | 0 <= k < |shot| ::
               ShotBy(shot[k], towers[i], targets[i]) && shot[k].target in enemies &&
               shot[k] !in start && shot[k] !in shots
    ensures FiredByFirst(towers, before, targets, enemies, start, start + shots + shot, shots + shot, i + 1)
  {
    ShotsBySnoc(shots, towers, before, targets, i, shot);
    if shot != [] {
      assert shot == [shot[0]];
      NewShotsSnoc(start, shots, enemies, shot[0]);
    }
    assert start + shots + shot == start + (shots + shot);
  }

  /** Round `i` of the loop of main.py:89-90. */
  method UpdateNthTower(towers: seq<Tower>, ghost at: map<Tower, int>, ghost before: seq<int>, ghost targets: seq<Enemy?>,
                        enemies: seq<Enemy>, i: nat, ghost start: seq<Projectile>, projectiles: seq<Projectile>,
                        ghost shots: seq<Projectile>)
    returns (updated: seq<Projectile>, ghost shots': seq<Projectile>)
    requires forall j | 0 <= j < |towers| :: towers[j] in at && at[towers[j]] == j
    requires FiredByFirst(towers, before, targets, enemies, start, projectiles, shots, i) && i < |towers|
    requires 0 <= before[i] <= FireRate
    modifies towers[i]
    ensures FiredByFirst(towers, before, targets, enemies, start, updated, shots', i + 1)
    ensures forall p | p in shots' :: p in shots || fresh(p)
  {
    ghost var shot;
    updated, shot := UpdateAndAppend(towers, at, before, targets, enemies, i, projectiles, start + shots);
    assert targets == Targets(towers, enemies);
    assert ShotsBy(shots, towers, targets, Firing(before, targets, i));
    FiredByNext(towers, before, targets, enemies, start, shots, i, shot);
    shots' := shots + shot;
  }

  /** A tower that fires adds its shot after those of the towers before it. */
  lemma ShotsBySnoc(shots: seq<Projectile>, towers: seq<Tower>, before: seq<int>, targets: seq<Enemy?>,
                    i: nat, shot: seq<Projectile>)
    requires |before| == |targets| && i < |before| && i < |towers|
    requires ShotsBy(shots, towers, targets, Firing(before, targets, i))
    requires |shot| == if Fires(before[i], targets[i] != null) then 1 else 0
    requires forall k | 0 <= k < |shot| :: ShotBy(shot[k], towers[i], targets[i])
    ensures ShotsBy(shots + shot, towers, targets, Firing(before, targets, i + 1))
  {
  }

  /** The loop of main.py:89-90: every tower is updated once, in roster order, against
      the same enemies; each tower that fires appends one shot, in tower order.
      `at` inverts the indexing of `towers`. */
  method UpdateEachTower(towers: seq<Tower>, ghost at: map<Tower, int>, enemies: seq<Enemy>, projectiles: seq<Projectile>)
    returns (updated: seq<Projectile>, ghost shots: seq<Projectile>)
    requires forall j | 0 <= j < |towers| :: towers[j] in at && at[towers[j]] == j
    requires forall j | 0 <= j < |towers| :: 0 <= towers[j].fireCooldown <= FireRate
    modifies towers
    ensures FiredByFirst(towers, old(Cooldowns(towers)), Targets(towers, enemies), enemies, projectiles, updated, shots, |towers|)
    ensures forall p | p in shots :: fresh(p)
  {
    ghost var before := Cooldowns(towers);
    ghost var targets := Targets(towers, enemies);
    updated, shots := projectiles, [];
    var i := 0;
    while i < |towers|
      invariant FiredByFirst(towers, before, targets, enemies, projectiles, updated, shots, i)
      invariant forall p | p in shots :: fresh(p)
    {
      updated, shots := UpdateNthTower(towers, at, before, targets, enemies, i, projectiles, updated, shots);
      i := i + 1;
    }
  }

  /** main.py:89-90 with what the game keeps between frames: the towers stay
      valid, and the shots, aimed at enemies of the roster, join the roster of
      projectiles. */
  method UpdateTowerRoster(towers: seq<Tower>, enemies: seq<Enemy>, projectiles: seq<Projectile>, ghost created: set<Enemy>)
    returns (updated: seq<Projectile>, ghost shots: seq<Projectile>)
    requires ValidTowers(towers) && ValidProjectiles(projectiles, created)
    requires forall e | e in enemies :: e in created
    modifies towers
    ensures FiredByFirst(towers, old(Cooldowns(towers)), Targets(towers, enemies), enemies, projectiles, updated, shots, |towers|)
    ensures ValidTowers(towers) && ValidProjectiles(updated, created)
    ensures forall p | p in shots :: fresh(p)
  {
    ghost var before := Cooldowns(towers);
    updated, shots := UpdateEachTower(towers, Positions(towers), enemies, projectiles);
    forall j | 0 <= j < |towers|
      ensures towers[j].Valid()
    {
      assert towers[j].fireCooldown == NextCooldown(before[j], Targets(towers, enemies)[j] != null);
    }
    assert ValidProjectiles(projectiles, created);
    ShotsJoin(towers, Targets(towers, enemies), Firing(before, Targets(towers, enemies), |towers|),
              enemies, projectiles, shots, created);
  }

  /** New shots, aimed at spawned enemies, keep the roster of projectiles valid. */
  lemma ShotsJoin(towers: seq<Tower>, targets: seq<Enemy?>, order: seq<nat>, enemies: seq<Enemy>,
                  start: seq<Projectile>, shots: seq<Projectile>, created: set<Enemy>)
    requires ValidProjectiles(start, created) && forall e | e in enemies :: e in created
    requires ShotsBy(shots, towers, targets, order) && NewShots(start, shots, enemies)
    ensures ValidProjectiles(start + shots, created)
  {
    DistinctAppend(start, shots);
    forall p | p in start + shots
      ensures p.Unfired() && (p.target != null ==> p.target in created)
    {
      if p !in start {
        var k :| 0 <= k < |shots| && shots[k] == p;
      }
    }
  }

  /** main.py:93-96 with what the game keeps between frames: the projectiles
      still in flight stay unfired, and every spawned enemy stays well formed. */
  method MoveProjectileRoster(snapshot: seq<Projectile>, ghost created: set<Enemy>, ghost path: seq<Point>, step: Step)
    returns (roster: seq<Projectile>, ghost active: seq<bool>, ghost hits: seq<nat>)
    requires ValidProjectiles(snapshot, created)
    requires forall e | e in created :: e.path == path && e.Valid()
    modifies snapshot, created
    ensures |active| == |hits| == |snapshot| && roster == Select(snapshot, active)
    // each projectile hits at most once, and one that hits leaves the roster
    ensures forall j | 0 <= j < |snapshot| ::
              (active[j], hits[j]) == (snapshot[j].isActive, snapshot[j].hits) && hits[j] <= 1 && (hits[j] == 1 ==> !active[j])
    ensures ValidProjectiles(roster, created)
    ensures forall e | e in created :: e.Valid()
  {
    forall j | 0 <= j < |snapshot|
      ensures snapshot[j].Unfired()
    {
      assert snapshot[j] in snapshot;
    }
    ghost var flights, m;
    roster, active, hits, flights, m := MoveEachProjectile(snapshot, Positions(snapshot), created, step);
    HitAtMostOnce(snapshot, flights, m, active, hits, step);
    SelectDistinct(snapshot, active);
    SelectMembers(snapshot, active);
    forall p | p in roster
      ensures p.Unfired() && (p.target != null ==> p.target in created)
    {
      var k :| 0 <= k < |snapshot| && snapshot[k] == p && active[k];
    }
  }


  /** No tower occurs twice, and every cooldown is within [0, fire_rate]. */
  ghost predicate ValidTowers(towers: seq<Tower>)
    reads towers
  {
    Distinct(towers) && forall j | 0 <= j < |towers| :: towers[j].Valid()
  }

  /** No enemy occurs twice in the roster, the roster is among the enemies
      spawned so far, `created`, and each of those walks `path` and is well formed. */
  ghost predicate ValidEnemies(enemies: seq<Enemy>, created: set<Enemy>, path: seq<Point>)
    reads created
  {
    Distinct(enemies) && (forall e | e in enemies :: e in created) &&
    forall e | e in created :: e.path == path && e.Valid()
  }

  /** No projectile occurs twice in the roster, and each is in flight, has hit
      nothing, and aims at a spawned enemy, if any. */
  ghost predicate ValidProjectiles(projectiles: seq<Projectile>, created: set<Enemy>)
    reads projectiles
  {
    Distinct(projectiles) &&
    forall p | p in projectiles :: p.Unfired() && (p.target != null ==> p.target in created)
  }

  class Session {
    /** The waypoints produced by map.py's `get_path`, which is not part of this model. */
    const path: seq<Point>
    const towers: seq<Tower>
    var enemies: seq<Enemy>
    var projectiles: seq<Projectile>
    var enemySpawnTimer: int
    const enemySpawnInterval: int := EnemySpawnInterval
    /** Every enemy the session has created. A projectile keeps its target after the
        target leaves `enemies`, so hits may land on any of them. */
    ghost var Created: set<Enemy>

    ghost predicate Valid()
      reads this, towers, Created, projectiles
    {
      |path| > 0 && 0 <= enemySpawnTimer < enemySpawnInterval &&
      ValidTowers(towers) && ValidEnemies(enemies, Created, path) && ValidProjectiles(projectiles, Created)
    }

    /** main.py:29-36: one tower at (200, 200), no enemies, no projectiles. */
    constructor (path: seq<Point>)
      requires |path| > 0
      ensures Valid() && this.path == path
      ensures |towers| == 1 && towers[0].x == 200.0 && towers[0].y == 200.0 && towers[0].fireCooldown == 0 && fresh(towers[0])
      ensures enemies == [] && projectiles == [] && enemySpawnTimer == 0 && Created == {}
    {
      var t := new Tower(200.0, 200.0);
      this.path := path;
      towers := [t];
      enemies := [];
      projectiles := [];
      enemySpawnTimer := 0;
      Created := {};
    }

    /** main.py:65-68: starting the game puts one fresh enemy on the path and
        clears the projectiles. */
    method StartGame()
      requires Valid()
      modifies this`enemies, this`projectiles, this`Created
      ensures Valid()
      ensures |enemies| == 1 && fresh(enemies[0]) && enemies[0].State() == Spawned(path)
      ensures projectiles == [] && Created == old(Created) + {enemies[0]}
    {
      var e := new Enemy(path);
      enemies := [e];
      projectiles := [];
      Created := Created + {e};
    }

    /** main.py:76-79 */
    method SpawnEnemies()
      requires Valid()
      modifies this`enemySpawnTimer, this`enemies, this`Created
      ensures Valid()
      ensures enemySpawnTimer == (old(enemySpawnTimer) + 1) % EnemySpawnInterval
      // one frame of the rule `SpawnsOver` counts
      ensures |enemies| == |old(enemies)| + SpawnsOver(old(enemySpawnTimer), 1)
      ensures old(enemySpawnTimer) + 1 < EnemySpawnInterval ==> enemies == old(enemies) && Created == old(Created)
      ensures old(enemySpawnTimer) + 1 == EnemySpawnInterval ==>
                |enemies| == |old(enemies)| + 1 && enemies[..|old(enemies)|] == old(enemies) &&
                fresh(enemies[|old(enemies)|]) && enemies[|old(enemies)|].State() == Spawned(path) &&
                Created == old(Created) + {enemies[|old(enemies)|]}
    {
      enemySpawnTimer := enemySpawnTimer + 1;
      if enemySpawnTimer >= enemySpawnInterval {
        var e := new Enemy(path);
        enemies := enemies + [e];
        Created := Created + {e};
        enemySpawnTimer := 0;
      }
    }

    /** main.py:82-86: every enemy of the roster moves once; those that are dead
        after moving leave the roster, and the others keep their order. */
    method MoveEnemies(step: Step)
      requires Valid()
      modifies this`enemies, enemies
      ensures Valid()
      ensures enemies == Select(old(enemies), old(Alive(enemies)))
      // the towers, which run next, see only live enemies
      ensures forall e | e in enemies :: !e.isDead
    {
      var snapshot := enemies;
      enemies := MoveEnemyRoster(snapshot, Created, path, step);
    }

    /** main.py:89-90: every tower is updated once, in roster order, against the
        same enemies; the shots are appended in tower order. */
    method UpdateTowers() returns (ghost shots: seq<Projectile>)
      requires Valid()
      modifies towers, this`projectiles
      ensures Valid()
      ensures projectiles == old(projectiles) + shots && NewShots(old(projectiles), shots, enemies)
      ensures forall p | p in shots :: fresh(p)
    {
      var updated;
      updated, shots := UpdateTowerRoster(towers, enemies, projectiles, Created);
      projectiles := updated;
    }

    /** main.py:93-96: every projectile of the roster moves once; those that hit
        their target or lost it leave the roster, and the others keep their order. */
    method MoveProjectiles(step: Step) returns (ghost active: seq<bool>)
      requires Valid()
      modifies this`projectiles, projectiles, Created
      ensures Valid()
      ensures |active| == |old(projectiles)| && projectiles == Select(old(projectiles), active)
    {
      var roster;
      ghost var hits;
      roster, active, hits := MoveProjectileRoster(projectiles, Created, path, step);
      projectiles := roster;
    }

    /** One frame of the game's update block (main.py:75-96). */
    method Tick(step: Step)
      requires Valid()
      modifies this, towers, Created, projectiles
      ensures Valid()
      ensures enemySpawnTimer == (old(enemySpawnTimer) + 1) % EnemySpawnInterval
    {
      SpawnEnemies();
      assert forall e | e in Created :: e in old(Created) || fresh(e);
      MoveEnemies(step);
      Shoot(step);
    }

    /** The second half of a frame (main.py:89-96): the towers shoot, then the
        projectiles fly. */
    method Shoot(step: Step)
      requires Valid()
      modifies towers, this`projectiles, projectiles, Created
      ensures Valid()
    {
      ghost var shots := UpdateTowers();
      assert forall p | p in projectiles :: p in old(projectiles) || fresh(p);
      ghost var active := MoveProjectiles(step);
    }
  }
}
