/** One tick of a child (`updateChildren`, `calculateChildPanicLevel`, `findNearestHog`).
    The square roots the game takes (hog distances, the flee distance, the distance to the
    movement target) and its `Math.random`/`Math.sin` values come in as parameters; the
    predicates `SensesHogs`, `SensesTick` and `IsChildDraws` say what the real ones satisfy. */
module ChildBehavior {
  import opened Geometry
  import opened Options
  import opened Entities

  /** A hog closer than this (in space) raises a child's panic. */
  const MaxPanicDistance: real := 5.0

  /** A hog closer than this (in space) makes a child flee. */
  const FleeDistance: real := 4.0

  /** The square roots one child's tick takes: its distance to every hog in space and in the
      plane, and the planar distance to its (clamped) movement target. */
  datatype Senses = Senses(dist: seq<real>, flatDist: seq<real>, moveDist: real)

  /** The random and periodic values one child's tick consumes: the wander direction
      `(cos a, sin a)` and reach draw, the timer draw, and the two sine values for the
      depth sway and the running bob. */
  datatype ChildDraws = ChildDraws(direction: Vec2, reach: real, timerDraw: real, sway: real, bob: real)

  predicate IsChildDraws(d: ChildDraws) {
    && d.direction.x * d.direction.x + d.direction.y * d.direction.y == 1.0
    && 0.0 <= d.reach < 1.0
    && 0.0 <= d.timerDraw < 1.0
    && -1.0 <= d.sway <= 1.0
    && -1.0 <= d.bob <= 1.0
  }

  predicate Fits(hogs: seq<Hog>, s: Senses) {
    |s.dist| == |hogs| && |s.flatDist| == |hogs|
  }

  /** The sensed distances are the true ones for this child and these hogs. */
  ghost predicate SensesHogs(c: Child, hogs: seq<Hog>, s: Senses) {
    && Fits(hogs, s)
    && (forall k :: 0 <= k < |hogs| ==> IsRootOf(s.dist[k], Dist2(c.pos, hogs[k].pos)))
    && (forall k :: 0 <= k < |hogs| ==> IsRootOf(s.flatDist[k], FlatDist2(c.pos, Vec2(hogs[k].pos.x, hogs[k].pos.y))))
  }

  /** The threat of one hog at distance `d < 5`: 1 when touching, falling linearly to 0. */
  function Threat(d: real): real {
    (MaxPanicDistance - d) / MaxPanicDistance
  }

  /** The `forEach` over the hogs keeping the largest threat seen so far. */
  function ThreatScan(ds: seq<real>): (p: real)
    ensures p >= 0.0
    ensures forall k :: 0 <= k < |ds| && ds[k] < MaxPanicDistance ==> Threat(ds[k]) <= p
    ensures p == 0.0 || exists k :: 0 <= k < |ds| && ds[k] < MaxPanicDistance && p == Threat(ds[k])
  {
    if ds == [] then 0.0
    else
      var n := |ds| - 1;
      var p := ThreatScan(ds[..n]);
      assert forall k :: 0 <= k < n ==> ds[..n][k] == ds[k];
      if ds[n] < MaxPanicDistance && Threat(ds[n]) > p then Threat(ds[n]) else p
  }

  /** `calculateChildPanicLevel`: the largest threat, capped at 1; 0 when no hog is within 5. */
  function Panic(ds: seq<real>): (r: real)
    ensures 0.0 <= r <= 1.0
    ensures (forall k :: 0 <= k < |ds| ==> ds[k] >= MaxPanicDistance) ==> r == 0.0
    ensures forall k :: 0 <= k < |ds| && ds[k] < MaxPanicDistance ==> Threat(ds[k]) <= r || r == 1.0
    ensures r == 0.0 || r == 1.0 || exists k :: 0 <= k < |ds| && ds[k] < MaxPanicDistance && r == Threat(ds[k])
    ensures r == 1.0 ==> exists k :: 0 <= k < |ds| && ds[k] < MaxPanicDistance && Threat(ds[k]) >= 1.0
  {
    var p := ThreatScan(ds);
    if p < 1.0 then p else 1.0
  }

  /** Panic never drops when no hog is farther away than before. */
  lemma {:induction false} ThreatScanMonotone(ds: seq<real>, closer: seq<real>)
    requires |closer| == |ds|
    requires forall k :: 0 <= k < |ds| ==> closer[k] <= ds[k]
    ensures ThreatScan(ds) <= ThreatScan(closer)
  {
    if ds != [] {
      var n := |ds| - 1;
      ThreatScanMonotone(ds[..n], closer[..n]);
    }
  }

  lemma PanicMonotone(ds: seq<real>, closer: seq<real>)
    requires |closer| == |ds|
    requires forall k :: 0 <= k < |ds| ==> closer[k] <= ds[k]
    ensures Panic(ds) <= Panic(closer)
  {
    ThreatScanMonotone(ds, closer);
  }

  /** `findNearestHog` followed by the `distance < 4` test. */
  predicate Threatened(s: Senses) {
    var nearest := Nearest(s.dist);
    nearest.Some? && s.dist[nearest.value] < FleeDistance
  }

  /** The wander offset of a rerolled target: the unit direction times a reach in [1, 4). */
  function WanderOffset(d: ChildDraws): Vec2 {
    var reach := 1.0 + d.reach * 3.0;
    Vec2(d.direction.x * reach, d.direction.y * reach)
  }

  /** The flee direction from a hog at planar distance `fd`: the normalised displacement from
      the hog to the child, or the previous direction when the two coincide in the plane. */
  function FleeDirection(c: Child, h: Hog, fd: real): Vec2 {
    if fd > 0.0 then Vec2((c.pos.x - h.pos.x) / fd, (c.pos.y - h.pos.y) / fd) else c.flee
  }

  /** The decision half of the tick: panic, the timer, and the new target (not yet clamped).
      A threatened child flees (its timer only counts down); otherwise the target is rerolled
      when the counted-down timer ran out or panic exceeds 0.3; otherwise nothing but the
      timer changes. */
  function Steer(c: Child, hogs: seq<Hog>, s: Senses, d: ChildDraws): (r: Child)
    requires Fits(hogs, s)
    requires IsChildDraws(d)
    ensures r.id == c.id && r.pos == c.pos && r.runSpeed == c.runSpeed
    ensures r.panic == Panic(s.dist)
    ensures Threatened(s) ==>
              var k := Nearest(s.dist).value;
              && r.timer == c.timer - TickDelta
              && r.flee == FleeDirection(c, hogs[k], s.flatDist[k])
              && (s.flatDist[k] > 0.0 ==> r.lastSafe == r.flee)
              && (s.flatDist[k] <= 0.0 ==> r.flee == c.flee && r.lastSafe == c.lastSafe)
              && r.targetX == c.pos.x + r.flee.x * 3.0
              && r.targetY == c.pos.y + r.flee.y * 2.0
    ensures !Threatened(s) ==> r.flee == c.flee && r.lastSafe == c.lastSafe
    ensures !Threatened(s) && (c.timer - TickDelta <= 0.0 || r.panic > 0.3) ==>
              && 0.5 <= r.timer < 2.0
              && r.targetX - c.pos.x == WanderOffset(d).x
              && r.targetY - c.pos.y == WanderOffset(d).y
    ensures !Threatened(s) && !(c.timer - TickDelta <= 0.0 || r.panic > 0.3) ==>
              r == c.(panic := r.panic, timer := c.timer - TickDelta)
  {
    var panic := Panic(s.dist);
    var timer := c.timer - TickDelta;
    var nearest := Nearest(s.dist);
    if nearest.Some? && s.dist[nearest.value] < FleeDistance then
      var fd := s.flatDist[nearest.value];
      var flee := FleeDirection(c, hogs[nearest.value], fd);
      var lastSafe := if fd > 0.0 then flee else c.lastSafe;
      c.(panic := panic, timer := timer, flee := flee, lastSafe := lastSafe,
         targetX := c.pos.x + flee.x * 3.0, targetY := c.pos.y + flee.y * 2.0)
    else if timer <= 0.0 || panic > 0.3 then
      var offset := WanderOffset(d);
      c.(panic := panic, targetX := c.pos.x + offset.x, targetY := c.pos.y + offset.y,
         timer := 0.5 + d.timerDraw * 1.5)
    else
      c.(panic := panic, timer := timer)
  }

  /** Field bounds for children and their targets. */
  const FieldX: real := 8.0
  const FieldMinY: real := -5.0
  const FieldMaxY: real := 6.0
  const DepthBound: real := 1.5

  /** The clamped target of this tick. */
  function ClampedTarget(c: Child, hogs: seq<Hog>, s: Senses, d: ChildDraws): (t: Vec2)
    requires Fits(hogs, s)
    requires IsChildDraws(d)
    ensures -FieldX <= t.x <= FieldX && FieldMinY <= t.y <= FieldMaxY
  {
    var st := Steer(c, hogs, s, d);
    Vec2(Clamp(-FieldX, FieldX, st.targetX), Clamp(FieldMinY, FieldMaxY, st.targetY))
  }

  /** Squared planar distance from the child to its clamped target: `s.moveDist` is its root. */
  function TargetGap2(c: Child, hogs: seq<Hog>, s: Senses, d: ChildDraws): real
    requires Fits(hogs, s)
    requires IsChildDraws(d)
  {
    FlatDist2(c.pos, ClampedTarget(c, hogs, s, d))
  }

  /** All the square roots of the tick are the true ones, the flee and threat distances to the
      hogs as they stand and the distance to the clamped target of this tick. */
  ghost predicate SensesTick(c: Child, hogs: seq<Hog>, s: Senses, d: ChildDraws) {
    && SensesHogs(c, hogs, s)
    && IsChildDraws(d)
    && IsRootOf(s.moveDist, TargetGap2(c, hogs, s, d))
  }

  /** The child's speed this tick: faster the more it panics. */
  function MoveSpeed(c: Child, panic: real): real {
    c.runSpeed * (1.0 + panic)
  }

  /** The displacement of a step of length `speed` from `from` towards `to`, `dist` apart. */
  function StepToward(from: Vec3, to: Vec2, dist: real, speed: real): Vec2
    requires dist > 0.0
  {
    Vec2((to.x - from.x) / dist * speed, (to.y - from.y) / dist * speed)
  }

  /** Whether the child moves this tick: its target is more than 0.1 away. */
  predicate Moves(s: Senses) {
    s.moveDist > 0.1
  }

  /** The running bob: a sine value times an amplitude that grows with panic. */
  function Bob(wave: real, panic: real): (r: real)
    requires -1.0 <= wave <= 1.0 && 0.0 <= panic <= 1.0
    ensures -0.18 <= r <= 0.18
  {
    var amount := 0.08 + panic * 0.1;
    WithinAmplitude(wave, amount);
    wave * amount
  }

  /** One whole tick of `updateChildren` for one child: steer, clamp the target, step towards
      it at `MoveSpeed` when it is more than 0.1 away, clamp the position to the field, drift in
      depth towards the sway target and clamp, then add the running bob, which is applied after
      the clamp. */
  function NextChild(c: Child, hogs: seq<Hog>, s: Senses, d: ChildDraws): (r: Child)
    requires Fits(hogs, s)
    requires IsChildDraws(d)
    ensures r.id == c.id && r.runSpeed == c.runSpeed && r.panic == Panic(s.dist)
    ensures -FieldX <= r.targetX <= FieldX && FieldMinY <= r.targetY <= FieldMaxY
    ensures -FieldX <= r.pos.x <= FieldX && -DepthBound <= r.pos.z <= DepthBound
    ensures FieldMinY - 0.18 <= r.pos.y <= FieldMaxY + 0.18
    ensures r.timer == c.timer - TickDelta || 0.5 <= r.timer < 2.0
  {
    var st := Steer(c, hogs, s, d);
    var target := ClampedTarget(c, hogs, s, d);
    var speed := MoveSpeed(c, st.panic);
    var step := if Moves(s) then StepToward(c.pos, target, s.moveDist, speed) else Vec2(0.0, 0.0);
    var moved := Vec2(c.pos.x + step.x, c.pos.y + step.y);
    var x := Clamp(-FieldX, FieldX, moved.x);
    var y := Clamp(FieldMinY, FieldMaxY, moved.y);
    var targetZ := d.sway * st.panic * 0.8;
    var z := Clamp(-DepthBound, DepthBound, c.pos.z + (targetZ - c.pos.z) * 0.1);
    st.(targetX := target.x, targetY := target.y, pos := Vec3(x, y + Bob(d.bob, st.panic), z))
  }

  /** With the true distances, a child does not panic exactly when no hog is within 5 of it
      in space. */
  lemma CalmExactlyWhenNoHogNear(c: Child, hogs: seq<Hog>, s: Senses)
    requires SensesHogs(c, hogs, s)
    ensures Panic(s.dist) == 0.0 <==>
              forall k :: 0 <= k < |hogs| ==> Dist2(c.pos, hogs[k].pos) >= MaxPanicDistance * MaxPanicDistance
  {
    forall k | 0 <= k < |hogs|
      ensures s.dist[k] < MaxPanicDistance <==> Dist2(c.pos, hogs[k].pos) < MaxPanicDistance * MaxPanicDistance
    {
      RootBelow(s.dist[k], Dist2(c.pos, hogs[k].pos), MaxPanicDistance);
    }
    if exists k :: 0 <= k < |hogs| && s.dist[k] < MaxPanicDistance {
      var k :| 0 <= k < |hogs| && s.dist[k] < MaxPanicDistance;
      assert Threat(s.dist[k]) > 0.0;
    }
  }

  /** With the true distances, a child flees exactly when some hog is within 4 of it in space,
      and it flees from the hog nearest to it in space (the earliest of several at the same
      distance). */
  lemma FleesFromNearestHog(c: Child, hogs: seq<Hog>, s: Senses)
    requires SensesHogs(c, hogs, s)
    ensures Threatened(s) <==> exists k :: 0 <= k < |hogs| && Dist2(c.pos, hogs[k].pos) < FleeDistance * FleeDistance
    ensures Threatened(s) ==>
              var k := Nearest(s.dist).value;
              && k < |hogs|
              && (forall m :: 0 <= m < |hogs| ==> Dist2(c.pos, hogs[k].pos) <= Dist2(c.pos, hogs[m].pos))
              && (forall m :: 0 <= m < k ==> Dist2(c.pos, hogs[k].pos) < Dist2(c.pos, hogs[m].pos))
  {
    forall m | 0 <= m < |hogs|
      ensures s.dist[m] < FleeDistance <==> Dist2(c.pos, hogs[m].pos) < FleeDistance * FleeDistance
    {
      RootBelow(s.dist[m], Dist2(c.pos, hogs[m].pos), FleeDistance);
    }
    if hogs != [] {
      var k := Nearest(s.dist).value;
      forall m | 0 <= m < |hogs|
        ensures Dist2(c.pos, hogs[k].pos) <= Dist2(c.pos, hogs[m].pos)
        ensures m < k ==> Dist2(c.pos, hogs[k].pos) < Dist2(c.pos, hogs[m].pos)
      {
        RootsKeepOrder(s.dist[k], Dist2(c.pos, hogs[k].pos), s.dist[m], Dist2(c.pos, hogs[m].pos));
      }
    }
  }

  /** With the true distances, a child moves exactly when its clamped target is more than 0.1
      away from it in the plane. */
  lemma MovesWhenTargetFar(c: Child, hogs: seq<Hog>, s: Senses, d: ChildDraws)
    requires SensesTick(c, hogs, s, d)
    ensures Moves(s) <==> TargetGap2(c, hogs, s, d) > 0.1 * 0.1
  {
    RootBelow(s.moveDist, TargetGap2(c, hogs, s, d), 0.1);
  }

  /** A child not on top of the hog it flees from takes as flee direction the unit vector
      pointing from that hog to itself: the displacement's length along it is the planar
      distance. */
  lemma FleeDirectionPointsAway(c: Child, h: Hog, fd: real)
    requires IsRootOf(fd, FlatDist2(c.pos, Vec2(h.pos.x, h.pos.y)))
    requires fd > 0.0
    ensures var u := FleeDirection(c, h, fd);
      && u.x * u.x + u.y * u.y == 1.0
      && u.x * (c.pos.x - h.pos.x) + u.y * (c.pos.y - h.pos.y) == fd
      && u.x * (c.pos.x - h.pos.x) >= 0.0 && u.y * (c.pos.y - h.pos.y) >= 0.0
  {
    Normalized(c.pos.x - h.pos.x, c.pos.y - h.pos.y, fd);
  }

  /** A child that flees because a hog is within 4 does so even when its timer ran out or its
      panic is high: fleeing takes precedence over rerolling, and does not reset the timer. */
  lemma FleeingKeepsCountingDown(c: Child, hogs: seq<Hog>, s: Senses, d: ChildDraws)
    requires Fits(hogs, s)
    requires IsChildDraws(d)
    requires Threatened(s)
    ensures Steer(c, hogs, s, d).panic > 0.2
    ensures Steer(c, hogs, s, d).timer == c.timer - TickDelta
  {
    var k := Nearest(s.dist).value;
    assert s.dist[k] < MaxPanicDistance;
  }

  /** A rerolled target lies between 1 and 4 from the child (before clamping). */
  lemma WanderWithinReach(d: ChildDraws)
    requires IsChildDraws(d)
    ensures var o := WanderOffset(d);
      1.0 <= o.x * o.x + o.y * o.y < 16.0
  {
    ScaledUnitWithin(d.direction.x, d.direction.y, 1.0 + d.reach * 3.0);
  }

  /** A moving child covers exactly its speed this tick, straight towards its target, before
      the position is clamped to the field. */
  lemma StepHasSpeed(from: Vec3, to: Vec2, dist: real, speed: real)
    requires IsRootOf(dist, FlatDist2(from, to))
    requires dist > 0.0
    ensures var st := StepToward(from, to, dist, speed);
      && st.x * st.x + st.y * st.y == speed * speed
      && st.x * (to.x - from.x) + st.y * (to.y - from.y) == speed * dist
  {
    StepAlong(to.x - from.x, to.y - from.y, dist, speed);
  }

  /** The bob is added after the field clamp, so a child at the top edge can stand above y = 6. */
  lemma BobLeavesTheField()
    ensures var c := Child(0, Vec3(0.0, 6.0, 0.0), 0.02, 0.0, 6.0, 0.0, Vec2(0.0, 0.0), Vec2(0.0, -1.0), 1.0);
      var d := ChildDraws(Vec2(1.0, 0.0), 0.0, 0.0, 0.0, 1.0);
      NextChild(c, [], Senses([], [], 0.0), d).pos.y > FieldMaxY
  {
    var c := Child(0, Vec3(0.0, 6.0, 0.0), 0.02, 0.0, 6.0, 0.0, Vec2(0.0, 0.0), Vec2(0.0, -1.0), 1.0);
    var d := ChildDraws(Vec2(1.0, 0.0), 0.0, 0.0, 0.0, 1.0);
    assert Panic([]) == 0.0;
    assert !Threatened(Senses([], [], 0.0));
    assert Steer(c, [], Senses([], [], 0.0), d).targetY == 6.0;
  }
}
