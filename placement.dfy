/** Rejection-sampling placement of one obstacle (`placeObstacleRandomly`). The
    `Math.random` draws the placement consumes are passed in. */
module Placement {
  import opened Geometry
  import opened Entities

  const MaxAttempts: nat := 50

  /** Where the five children start (`createChildren`). */
  const ChildSpawns: seq<Vec2> :=
    [Vec2(-2.0, -3.5), Vec2(-1.0, -3.5), Vec2(0.0, -3.5), Vec2(1.0, -3.5), Vec2(2.0, -3.5)]

  /** Where the player starts (`createPlayer`). */
  const PlayerSpawn: Vec2 := Vec2(0.0, -4.0)

  /** A pair of `Math.random()` results. */
  datatype Draw = Draw(u: real, v: real)

  predicate IsDraw(d: Draw) {
    0.0 <= d.u < 1.0 && 0.0 <= d.v < 1.0
  }

  /** The candidate one attempt builds from its two draws: x in [-9, 9), y in [0.5, 5.5), z = 0. */
  function Candidate(d: Draw): (p: Vec3)
    requires IsDraw(d)
    ensures -9.0 <= p.x < 9.0 && 0.5 <= p.y < 5.5 && p.z == 0.0
  {
    Vec3((d.u - 0.5) * 18.0, d.v * 5.0 + 0.5, 0.0)
  }

  /** The position used when every attempt was rejected. */
  function Fallback(d: Draw): (p: Vec3)
    requires IsDraw(d)
    ensures -4.0 <= p.x < 4.0 && p.y == 2.0 && -3.0 <= p.z < 3.0
  {
    Vec3((d.u - 0.5) * 8.0, 2.0, (d.v - 0.5) * 6.0)
  }

  /** At least 2 away, in the plane, from each of `spots`. */
  ghost predicate ClearOf(p: Vec3, spots: seq<Vec2>) {
    forall k :: 0 <= k < |spots| ==> FlatDist2(p, spots[k]) >= 4.0
  }

  /** At least 2 away, in the plane, from every child spawn point and the player spawn point. */
  ghost predicate ClearOfSpawns(p: Vec3) {
    ClearOf(p, ChildSpawns) && FlatDist2(p, PlayerSpawn) >= 4.0
  }

  /** At least 2.5 away, in space, from every obstacle already registered. */
  ghost predicate ClearOfObstacles(p: Vec3, obstacles: seq<Obstacle>) {
    forall k :: 0 <= k < |obstacles| ==> Dist2(p, obstacles[k].pos) >= 6.25
  }

  ghost predicate Acceptable(p: Vec3, obstacles: seq<Obstacle>) {
    ClearOfSpawns(p) && ClearOfObstacles(p, obstacles)
  }

  /** The spawn-point checks: the loop over the child positions `spots`, then the player
      position `start`. */
  method TooCloseToSpawns(p: Vec3, spots: seq<Vec2>, start: Vec2) returns (tooClose: bool)
    ensures tooClose <==> !(ClearOf(p, spots) && FlatDist2(p, start) >= 4.0)
  {
    tooClose := false;
    var k := 0;
    while k < |spots|
      invariant 0 <= k <= |spots|
      invariant forall m :: 0 <= m < k ==> FlatDist2(p, spots[m]) >= 4.0
    {
      if FlatDist2(p, spots[k]) < 4.0 {
        tooClose := true;
        return;
      }
      k := k + 1;
    }
    if FlatDist2(p, start) < 4.0 {
      tooClose := true;
    }
  }

  /** The loop over `this.obstacles`, stopping at the first one closer than 2.5. */
  method TooCloseToObstacles(p: Vec3, obstacles: seq<Obstacle>) returns (tooClose: bool)
    ensures tooClose <==> !ClearOfObstacles(p, obstacles)
  {
    tooClose := false;
    var k := 0;
    while k < |obstacles|
      invariant 0 <= k <= |obstacles|
      invariant forall m :: 0 <= m < k ==> Dist2(p, obstacles[m].pos) >= 6.25
    {
      if Dist2(p, obstacles[k].pos) < 6.25 {
        tooClose := true;
        return;
      }
      k := k + 1;
    }
  }

  /** The draws one call of `placeObstacleRandomly` consumes: two per attempt, and two for
      the fallback position. */
  datatype Attempts = Attempts(draws: seq<Draw>, fallback: Draw)

  predicate IsAttempts(a: Attempts) {
    && |a.draws| == MaxAttempts
    && (forall k :: 0 <= k < |a.draws| ==> IsDraw(a.draws[k]))
    && IsDraw(a.fallback)
  }

  /** `pos` is where these draws place an obstacle next to `earlier`: the first acceptable
      candidate, or the fallback when no candidate is acceptable. */
  ghost predicate PlacedBy(pos: Vec3, earlier: seq<Obstacle>, a: Attempts)
    requires IsAttempts(a)
  {
    || (exists k :: 0 <= k < |a.draws| && pos == Candidate(a.draws[k]) && Acceptable(pos, earlier) &&
                    forall m :: 0 <= m < k ==> !Acceptable(Candidate(a.draws[m]), earlier))
    || ((forall k :: 0 <= k < |a.draws| ==> !Acceptable(Candidate(a.draws[k]), earlier)) &&
        pos == Fallback(a.fallback))
  }

  /** `placeObstacleRandomly`: the first of at most 50 candidates that clears the spawn points
      and the registered obstacles, otherwise the fallback box. Exactly one position results. */
  method PlaceObstacle(obstacles: seq<Obstacle>, a: Attempts) returns (pos: Vec3, placed: bool)
    requires IsAttempts(a)
    ensures placed <==> exists k :: 0 <= k < |a.draws| && Acceptable(Candidate(a.draws[k]), obstacles)
    ensures placed ==> exists k :: 0 <= k < |a.draws| && pos == Candidate(a.draws[k]) &&
                                   forall m :: 0 <= m < k ==> !Acceptable(Candidate(a.draws[m]), obstacles)
    ensures placed ==> pos.z == 0.0 && Acceptable(pos, obstacles)
    ensures !placed ==> pos == Fallback(a.fallback)
    ensures PlacedBy(pos, obstacles, a)
  {
    placed := false;
    pos := Vec3(0.0, 0.0, 0.0);
    var attempt := 0;
    while attempt < MaxAttempts && !placed
      invariant 0 <= attempt <= MaxAttempts
      invariant !placed ==> forall m :: 0 <= m < attempt ==> !Acceptable(Candidate(a.draws[m]), obstacles)
      invariant placed ==> 0 < attempt && pos == Candidate(a.draws[attempt - 1])
      invariant placed ==> Acceptable(pos, obstacles)
      invariant placed ==> forall m :: 0 <= m < attempt - 1 ==> !Acceptable(Candidate(a.draws[m]), obstacles)
    {
      var candidate := Candidate(a.draws[attempt]);
      var tooClose := TooCloseToSpawns(candidate, ChildSpawns, PlayerSpawn);
      if !tooClose {
        tooClose := TooCloseToObstacles(candidate, obstacles);
      }
      if !tooClose {
        pos := candidate;
        placed := true;
      }
      attempt := attempt + 1;
    }
    if !placed {
      pos := Fallback(a.fallback);
    }
  }
}
