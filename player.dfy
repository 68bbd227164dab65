/** The player's movement (`updatePlayer`): eight guarded steps of 0.15, the arrow keys
    first and then W/A/S/D, each tested against the position the previous steps left. */
module Player {
  import opened Geometry

  /** The keys `setupControls` records as held. */
  datatype Keys = Keys(
    arrowLeft: bool, arrowRight: bool, arrowUp: bool, arrowDown: bool,
    keyA: bool, keyD: bool, keyW: bool, keyS: bool)

  const PlayerStep: real := 0.15

  /** The player may step left while x > -10, right while x < 10, up while y < -2 and down
      while y > -5. */
  const BoundX: real := 10.0
  const TopY: real := -2.0
  const BottomY: real := -5.0

  /** Where the player starts (`createPlayer`). */
  const PlayerStart: Vec3 := Vec3(0.0, -4.0, 0.0)

  /** A step that lowers `v` when its key is held and `v` is still above `bound`. */
  function StepDown(v: real, held: bool, bound: real): (r: real)
    ensures held && v > bound ==> r == v - PlayerStep
    ensures !(held && v > bound) ==> r == v
  {
    if held && v > bound then v - PlayerStep else v
  }

  /** A step that raises `v` when its key is held and `v` is still below `bound`. */
  function StepUp(v: real, held: bool, bound: real): (r: real)
    ensures held && v < bound ==> r == v + PlayerStep
    ensures !(held && v < bound) ==> r == v
  {
    if held && v < bound then v + PlayerStep else v
  }

  /** The box the guards keep the player in: a step can overshoot a bound by one step. */
  predicate InArena(p: Vec3) {
    -BoundX - PlayerStep < p.x < BoundX + PlayerStep && BottomY - PlayerStep < p.y < TopY + PlayerStep
  }

  /** How many of two keys are held. */
  function Held(a: bool, b: bool): nat {
    (if a then 1 else 0) + (if b then 1 else 0)
  }

  /** x after the four horizontal steps, in the order they are tested: left arrow, right
      arrow, A, D. Away from the bounds (at least one step inside them) no guard stops a
      step, so every held key moves the player by one step its way and opposite keys cancel. */
  function MoveX(x: real, keys: Keys): (r: real)
    ensures -BoundX + PlayerStep < x < BoundX - PlayerStep ==>
              r == x + (Held(keys.arrowRight, keys.keyD) as real - Held(keys.arrowLeft, keys.keyA) as real) * PlayerStep
    ensures Held(keys.arrowLeft, keys.keyA) == 1 && Held(keys.arrowRight, keys.keyD) == 0 && x > -BoundX ==>
              r == x - PlayerStep
    ensures Held(keys.arrowRight, keys.keyD) == 1 && Held(keys.arrowLeft, keys.keyA) == 0 && x < BoundX ==>
              r == x + PlayerStep
    ensures -BoundX - PlayerStep < x < BoundX + PlayerStep ==> -BoundX - PlayerStep < r < BoundX + PlayerStep
    ensures r < x ==> keys.arrowLeft || keys.keyA
    ensures r > x ==> keys.arrowRight || keys.keyD
    ensures -2.0 * PlayerStep <= r - x <= 2.0 * PlayerStep
  {
    var x1 := StepDown(x, keys.arrowLeft, -BoundX);
    var x2 := StepUp(x1, keys.arrowRight, BoundX);
    var x3 := StepDown(x2, keys.keyA, -BoundX);
    StepUp(x3, keys.keyD, BoundX)
  }

  /** y after the four vertical steps, in the order they are tested: up arrow, down arrow, W,
      S; as for `MoveX`, away from the bounds every held key counts. */
  function MoveY(y: real, keys: Keys): (r: real)
    ensures BottomY + PlayerStep < y < TopY - PlayerStep ==>
              r == y + (Held(keys.arrowUp, keys.keyW) as real - Held(keys.arrowDown, keys.keyS) as real) * PlayerStep
    ensures Held(keys.arrowUp, keys.keyW) == 1 && Held(keys.arrowDown, keys.keyS) == 0 && y < TopY ==>
              r == y + PlayerStep
    ensures Held(keys.arrowDown, keys.keyS) == 1 && Held(keys.arrowUp, keys.keyW) == 0 && y > BottomY ==>
              r == y - PlayerStep
    ensures BottomY - PlayerStep < y < TopY + PlayerStep ==> BottomY - PlayerStep < r < TopY + PlayerStep
    ensures r > y ==> keys.arrowUp || keys.keyW
    ensures r < y ==> keys.arrowDown || keys.keyS
    ensures -2.0 * PlayerStep <= r - y <= 2.0 * PlayerStep
  {
    var y1 := StepUp(y, keys.arrowUp, TopY);
    var y2 := StepDown(y1, keys.arrowDown, BottomY);
    var y3 := StepUp(y2, keys.keyW, TopY);
    StepDown(y3, keys.keyS, BottomY)
  }

  /** The position after one `updatePlayer`: the two axes are independent, so the eight
      interleaved tests come down to `MoveX` and `MoveY`; depth is kept and the player stays
      in the arena. */
  function MovePlayer(p: Vec3, keys: Keys): (q: Vec3)
    ensures q.z == p.z && q.x == MoveX(p.x, keys) && q.y == MoveY(p.y, keys)
    ensures InArena(p) ==> InArena(q)
  {
    Vec3(MoveX(p.x, keys), MoveY(p.y, keys), p.z)
  }

  /** `rotation.y` after `updatePlayer`: a left key wins over a right key. */
  function Facing(keys: Keys): (r: real)
    ensures keys.arrowLeft || keys.keyA ==> r == PI / 8.0
    ensures !(keys.arrowLeft || keys.keyA) && (keys.arrowRight || keys.keyD) ==> r == -PI / 8.0
    ensures !(keys.arrowLeft || keys.keyA || keys.arrowRight || keys.keyD) ==> r == 0.0
  {
    if keys.arrowLeft || keys.keyA then PI / 8.0
    else if keys.arrowRight || keys.keyD then -PI / 8.0
    else 0.0
  }
}
