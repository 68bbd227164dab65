/** One tick of a hog (`updateHogs`, `updateSwarmHog`, `updateStraglerHog`, `updateEliteHog`,
    and the bob of `animateHog`). Target choice, the stragler's arrival delay, when a hog
    moves and by how much, and the elite charge are modelled; the turn towards the target
    (atan2, the wander and zigzag angles, flocking) is not, so the new heading and the unit
    vector `(cos, sin)` of the turned heading come in as parameters, together with the
    `Math.random`, `Math.sqrt` and `Math.sin` values the tick consumes. */
module HogBehavior {
  import opened Geometry
  import opened Options
  import opened Entities

  /** The elite charge: within this (spatial) distance of its target an elite speeds up. */
  const ChargeDistance: real := 3.0

  /** The elite charge never raises the speed above this. */
  const MaxChargeSpeed: real := 0.08

  /** What one hog's tick consumes besides the game state: the random pick of a target
      (swarm and stragler), the spatial distances to every child (elite), the planar distance
      to the target before moving, the heading after turning and its unit vector, the spatial
      distance to the target after moving (elite charge), and the walk-cycle sine. */
  datatype HogInputs = HogInputs(
    pick: real,
    childDist: seq<real>,
    targetGap: real,
    heading: real,
    direction: Vec2,
    targetDist: real,
    walk: real)

  /** The shape and ranges of the inputs: a draw in [0, 1), one distance per child, a unit
      heading vector and a sine value. */
  predicate IsHogInputs(children: seq<Child>, inp: HogInputs) {
    && 0.0 <= inp.pick < 1.0
    && |inp.childDist| == |children|
    && inp.direction.x * inp.direction.x + inp.direction.y * inp.direction.y == 1.0
    && -1.0 <= inp.walk <= 1.0
  }

  /** A stragler that has not arrived yet: `updateHogs` only counts its delay down. */
  predicate Arriving(h: Hog) {
    h.kind == Stragler && h.arrivalDelay > 0.0
  }

  /** `Math.floor(Math.random() * n)`: a valid index into a non-empty list. */
  function PickIndex(pick: real, n: nat): (i: nat)
    requires 0.0 <= pick < 1.0 && n > 0
    ensures i < n
  {
    var x := pick * n as real;
    assert x < n as real by {
      assert pick * n as real < 1.0 * n as real;
    }
    x.Floor
  }

  /** The target a hog chases this tick. A target, once chosen, is kept (even after its child
      was eaten); with none, a swarm or stragler hog picks a child at random and an elite the
      nearest child (the first of several at the same distance); with no children left it
      stays without a target. */
  function SelectTarget(h: Hog, children: seq<Child>, inp: HogInputs): (t: Option<nat>)
    requires IsHogInputs(children, inp)
    ensures h.target.Some? ==> t == h.target
    ensures h.target.None? ==> (t.None? <==> children == [])
    ensures h.target.None? && t.Some? ==> exists k :: 0 <= k < |children| && t.value == children[k].id
    ensures h.target.None? && h.kind == Elite && t.Some? ==>
              exists k :: 0 <= k < |children| && t.value == children[k].id &&
                (forall m :: 0 <= m < |children| ==> inp.childDist[k] <= inp.childDist[m]) &&
                (forall m :: 0 <= m < k ==> inp.childDist[k] < inp.childDist[m])
  {
    if h.target.Some? || children == [] then h.target
    else if h.kind == Elite then Some(children[Nearest(inp.childDist).value].id)
    else Some(children[PickIndex(inp.pick, |children|)].id)
  }

  /** `Math.min(speed * 1.01, 0.08)`. */
  function ChargeSpeed(speed: real): (r: real)
    ensures r <= MaxChargeSpeed && r <= speed * 1.01
    ensures r == speed * 1.01 || r == MaxChargeSpeed
    ensures 0.0 <= speed <= MaxChargeSpeed ==> speed <= r
  {
    if speed * 1.01 < MaxChargeSpeed then speed * 1.01 else MaxChargeSpeed
  }

  /** Whether the hog steps forward this tick: it has a target more than 0.1 away. */
  predicate Steps(target: Option<nat>, inp: HogInputs) {
    target.Some? && inp.targetGap > 0.1
  }

  /** Where the hog stands after its move and before the walk bob: one step of `speed` along
      the turned heading when it has a target more than 0.1 away, straight down by `speed` for
      a swarm hog without a target, and where it was otherwise. The elite's charge test
      measures from here. */
  function Walked(h: Hog, target: Option<nat>, inp: HogInputs): Vec3 {
    if Steps(target, inp) then
      Vec3(h.pos.x + inp.direction.x * h.speed, h.pos.y + inp.direction.y * h.speed, h.pos.z)
    else if target.None? && h.kind == Swarm then
      Vec3(h.pos.x, h.pos.y - h.speed, h.pos.z)
    else
      h.pos
  }

  /** The distances are the true ones for this hog: `childDist[k]` is its distance in space to
      child `k`, and when its target is a child still in the list, `targetGap` is the planar
      distance to it before the move and `targetDist` the distance in space to it after the
      move. (A target that was eaten is no longer in the list; its last position is not kept.) */
  ghost predicate SensesChildren(h: Hog, children: seq<Child>, inp: HogInputs) {
    && IsHogInputs(children, inp)
    && (forall k :: 0 <= k < |children| ==> IsRootOf(inp.childDist[k], Dist2(h.pos, children[k].pos)))
    && var t := SelectTarget(h, children, inp);
       forall k :: 0 <= k < |children| && t == Some(children[k].id) ==>
         && IsRootOf(inp.targetGap, FlatDist2(h.pos, Vec2(children[k].pos.x, children[k].pos.y)))
         && IsRootOf(inp.targetDist, Dist2(Walked(h, t, inp), children[k].pos))
  }

  /** The bob amplitude of `animateHog`. */
  function BobAmount(h: Hog): real {
    if h.kind == Elite then 0.03 else 0.02
  }

  /** The hog's tick. An arriving stragler only counts its delay down. Otherwise the hog
      selects its target and moves (`Walked`); an elite with a target within 3 after the move
      charges; a swarm or stragler hog always turns, an elite only when it steps; and the
      walk bob is added to the height. */
  function NextHog(h: Hog, children: seq<Child>, inp: HogInputs): (r: Hog)
    requires IsHogInputs(children, inp)
    ensures r.id == h.id && r.kind == h.kind && r.pos.z == h.pos.z
    ensures Arriving(h) ==> r == h.(arrivalDelay := h.arrivalDelay - TickDelta)
    ensures !Arriving(h) ==> r.arrivalDelay == h.arrivalDelay && r.target == SelectTarget(h, children, inp)
    ensures h.target.Some? ==> r.target == h.target
    ensures !Arriving(h) ==>
              r.speed == if h.kind == Elite && r.target.Some? && inp.targetDist < ChargeDistance
                         then ChargeSpeed(h.speed) else h.speed
    ensures !Arriving(h) ==>
              r.heading == if h.kind != Elite || Steps(r.target, inp) then inp.heading else h.heading
    ensures !Arriving(h) && Steps(r.target, inp) ==>
              && r.pos.x == h.pos.x + inp.direction.x * h.speed
              && r.pos.y == h.pos.y + inp.direction.y * h.speed + inp.walk * BobAmount(h)
    ensures !Arriving(h) && r.target.None? && h.kind == Swarm ==>
              r.pos.x == h.pos.x && r.pos.y == h.pos.y - h.speed + inp.walk * BobAmount(h)
    ensures !Arriving(h) && !Steps(r.target, inp) && !(r.target.None? && h.kind == Swarm) ==>
              r.pos.x == h.pos.x && r.pos.y == h.pos.y + inp.walk * BobAmount(h)
  {
    if Arriving(h) then
      h.(arrivalDelay := h.arrivalDelay - TickDelta)
    else
      var target := SelectTarget(h, children, inp);
      var moved := Walked(h, target, inp);
      var turns := h.kind != Elite || Steps(target, inp);
      var charges := h.kind == Elite && target.Some? && inp.targetDist < ChargeDistance;
      h.(pos := moved.(y := moved.y + inp.walk * BobAmount(h)),
         heading := if turns then inp.heading else h.heading,
         target := target,
         speed := if charges then ChargeSpeed(h.speed) else h.speed)
  }

  /** With the true distances, an elite without a target takes the child nearest to it in
      space (the earliest of several at the same distance). */
  lemma EliteChasesNearest(h: Hog, children: seq<Child>, inp: HogInputs)
    requires SensesChildren(h, children, inp)
    requires h.kind == Elite && h.target.None? && children != []
    ensures exists k :: 0 <= k < |children| && SelectTarget(h, children, inp) == Some(children[k].id) &&
              (forall m :: 0 <= m < |children| ==> Dist2(h.pos, children[k].pos) <= Dist2(h.pos, children[m].pos)) &&
              (forall m :: 0 <= m < k ==> Dist2(h.pos, children[k].pos) < Dist2(h.pos, children[m].pos))
  {
    var k := Nearest(inp.childDist).value;
    forall m | 0 <= m < |children|
      ensures Dist2(h.pos, children[k].pos) <= Dist2(h.pos, children[m].pos)
      ensures m < k ==> Dist2(h.pos, children[k].pos) < Dist2(h.pos, children[m].pos)
    {
      RootsKeepOrder(inp.childDist[k], Dist2(h.pos, children[k].pos), inp.childDist[m], Dist2(h.pos, children[m].pos));
    }
  }

  /** With the true distances, a hog whose target is child `k` steps exactly when that child
      is more than 0.1 away in the plane, and an elite charges exactly when the child is
      within 3 in space of where the hog stands after its move. */
  lemma TargetSensed(h: Hog, children: seq<Child>, inp: HogInputs, k: nat)
    requires SensesChildren(h, children, inp) && !Arriving(h)
    requires k < |children| && SelectTarget(h, children, inp) == Some(children[k].id)
    ensures var t := SelectTarget(h, children, inp);
      Steps(t, inp) <==> FlatDist2(h.pos, Vec2(children[k].pos.x, children[k].pos.y)) > 0.1 * 0.1
    ensures var t := SelectTarget(h, children, inp);
      h.kind == Elite ==>
        NextHog(h, children, inp).speed ==
          if Dist2(Walked(h, t, inp), children[k].pos) < ChargeDistance * ChargeDistance
          then ChargeSpeed(h.speed) else h.speed
  {
    var t := SelectTarget(h, children, inp);
    RootBelow(inp.targetGap, FlatDist2(h.pos, Vec2(children[k].pos.x, children[k].pos.y)), 0.1);
    RootBelow(inp.targetDist, Dist2(Walked(h, t, inp), children[k].pos), ChargeDistance);
  }

  /** The horizontal move of a hog that steps: exactly its speed, along its turned heading. */
  lemma StepCoversSpeed(h: Hog, children: seq<Child>, inp: HogInputs)
    requires IsHogInputs(children, inp)
    requires !Arriving(h) && Steps(SelectTarget(h, children, inp), inp)
    ensures var r := NextHog(h, children, inp);
      var dx, dy := r.pos.x - h.pos.x, r.pos.y - inp.walk * BobAmount(h) - h.pos.y;
      && dx == inp.direction.x * h.speed && dy == inp.direction.y * h.speed
      && dx * dx + dy * dy == h.speed * h.speed
  {
    var r := NextHog(h, children, inp);
    var u, k := inp.direction, h.speed;
    var bob := inp.walk * BobAmount(h);
    assert r.pos.x == h.pos.x + u.x * k && r.pos.y == h.pos.y + u.y * k + bob;
    var dx, dy := r.pos.x - h.pos.x, r.pos.y - bob - h.pos.y;
    ScaledUnit(u.x, u.y, k);
    SameSquare(dx, u.x * k);
    SameSquare(dy, u.y * k);
  }

  /** Without children to chase, a swarm hog walks straight down the field by its speed, and
      a stragler or an elite stands still (apart from the bob). */
  lemma NoChildrenLeft(h: Hog, inp: HogInputs)
    requires IsHogInputs([], inp)
    requires !Arriving(h) && h.target.None?
    ensures var r := NextHog(h, [], inp);
      && r.target.None?
      && r.pos.x == h.pos.x
      && r.pos.y - inp.walk * BobAmount(h) == (if h.kind == Swarm then h.pos.y - h.speed else h.pos.y)
      && r.speed == h.speed
  {
  }

  /** An elite's speed after charging on `n` ticks: it stays at most 0.08 and, by
      `ChargingNeverSlows`, never drops from one tick to a later one. */
  function Charged(speed: real, n: nat): (r: real)
    requires 0.0 < speed <= MaxChargeSpeed
    ensures speed <= r <= MaxChargeSpeed
  {
    if n == 0 then speed else ChargeSpeed(Charged(speed, n - 1))
  }

  lemma {:induction false} ChargingNeverSlows(speed: real, m: nat, n: nat)
    requires 0.0 < speed <= MaxChargeSpeed
    requires m <= n
    ensures Charged(speed, m) <= Charged(speed, n)
    decreases n
  {
    if m < n {
      ChargingNeverSlows(speed, m, n - 1);
    }
  }
}
