/** Plane geometry shared by enemies, towers and projectiles.

    The game compares Euclidean distances, `(dx ** 2 + dy ** 2) ** 0.5`, against a
    speed or a range. Both sides of such a comparison are non-negative, so the model
    compares squared distances instead, which is exact; the lemmas below state that
    the two comparisons agree for every non-negative root of the squared distance. */
module Geometry {

  datatype Point = Point(x: real, y: real)

  /** The partial step of an entity that does not reach its target this frame: from
      `from`, a distance `speed` along the direction to `to`. Its coordinates need a
      square root and a division, so the model takes it as a parameter. */
  type Step = (Point, Point, real) -> Point

  function SquaredDistance(a: Point, b: Point): (d2: real)
    ensures d2 >= 0.0
  {
    var dx, dy := a.x - b.x, a.y - b.y;
    SquareNonNegative(dx);
    SquareNonNegative(dy);
    dx * dx + dy * dy
  }

  /** `distance <= bound` (the range test of tower.py) agrees with the squared test. */
  lemma AtMostIffSquaredAtMost(d2: real, distance: real, bound: real)
    requires distance >= 0.0 && distance * distance == d2 && bound >= 0.0
    ensures distance <= bound <==> d2 <= bound * bound
  {
    if distance <= bound {
      SquareAtMost(distance, bound);
    } else {
      SquareBelow(bound, distance);
    }
  }

  /** `distance < bound` (the snap and hit tests) agrees with the squared test. */
  lemma BelowIffSquaredBelow(d2: real, distance: real, bound: real)
    requires distance >= 0.0 && distance * distance == d2 && bound >= 0.0
    ensures distance < bound <==> d2 < bound * bound
  {
    if distance < bound {
      SquareBelow(distance, bound);
    } else {
      SquareAtMost(bound, distance);
    }
  }

  lemma SquareNonNegative(a: real)
    ensures a * a >= 0.0
  {
  }

  lemma SquareBelow(a: real, b: real)
    requires 0.0 <= a < b
    ensures a * a < b * b
  {
    assert b - a > 0.0;
    assert b + a > 0.0;
    assert (b - a) * (b + a) > 0.0;
    assert (b - a) * (b + a) == b * b - a * a;
  }

  lemma SquareAtMost(a: real, b: real)
    requires 0.0 <= a <= b
    ensures a * a <= b * b
  {
    if a < b {
      SquareBelow(a, b);
    }
  }
}
