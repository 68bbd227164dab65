/** The shortest-turn normalisation every hog steering rule applies to a heading difference
    before blending it: subtract a full turn while above PI, then add one while below -PI. */
module Angles {
  import opened Geometry

  /** The two `while` loops on `angleDiff`. The result lies in [-PI, PI], differs from the
      input by `turns` whole turns, and an input already in range comes back unchanged. */
  method NormalizeAngle(angleDiff: real) returns (r: real, ghost turns: int)
    ensures -PI <= r <= PI
    ensures r == angleDiff + 2.0 * PI * turns as real
    ensures -PI <= angleDiff <= PI ==> r == angleDiff
    ensures angleDiff > PI ==> turns < 0
    ensures angleDiff < -PI ==> turns > 0
  {
    r, turns := angleDiff, 0;
    while r > PI
      invariant r == angleDiff + 2.0 * PI * turns as real
      invariant turns <= 0
      invariant angleDiff > PI ==> r > -PI
      invariant angleDiff > PI && r <= PI ==> turns < 0
      invariant angleDiff <= PI ==> turns == 0
      decreases r.Floor
    {
      r, turns := r - 2.0 * PI, turns - 1;
    }
    while r < -PI
      invariant r == angleDiff + 2.0 * PI * turns as real
      invariant r <= PI
      invariant angleDiff < -PI ==> turns >= 0
      invariant angleDiff < -PI && r >= -PI ==> turns > 0
      invariant angleDiff >= -PI ==> r >= -PI
      invariant -PI <= angleDiff <= PI ==> turns == 0
      decreases (-r).Floor
    {
      r, turns := r + 2.0 * PI, turns + 1;
    }
  }
}
