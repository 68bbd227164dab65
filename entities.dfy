/** The game's entities as values. A hog or child keeps its `id` for its whole life;
    the id stands for the identity of the three.js object that represents it. */
module Entities {
  import opened Geometry
  import opened Options

  /** The frame time every per-tick timer is counted down by. */
  const TickDelta: real := 0.016

  /** The three hog behaviours (`userData.movementType`). */
  datatype HogKind = Swarm | Stragler | Elite

  /** A hog: its `rotation.y` is `heading`, `userData.targetChild` is the id of a child. */
  datatype Hog = Hog(
    id: nat,
    kind: HogKind,
    pos: Vec3,
    heading: real,
    speed: real,
    target: Option<nat>,
    arrivalDelay: real)

  /** A child and the parts of its `userData` that its decision logic reads and writes. */
  datatype Child = Child(
    id: nat,
    pos: Vec3,
    runSpeed: real,
    targetX: real,
    targetY: real,
    panic: real,
    flee: Vec2,
    lastSafe: Vec2,
    timer: real)

  datatype ObstacleKind = Bush | Tree | Car | Box

  datatype Obstacle = Obstacle(kind: ObstacleKind, pos: Vec3)

  /** The two game-over popups. */
  datatype Outcome = ChildrenEaten | PlayerWon

  /** What the game asks of its sound player and its popup. */
  datatype Event = Squeal | GameOver(outcome: Outcome, finalScore: int)

  /** No two hogs are the same object. */
  ghost predicate DistinctIds(hogs: seq<Hog>) {
    forall i, j :: 0 <= i < j < |hogs| ==> hogs[i].id != hogs[j].id
  }

  /** No two children are the same object, so a hog's target id names at most one child. */
  ghost predicate DistinctChildIds(children: seq<Child>) {
    forall i, j :: 0 <= i < j < |children| ==> children[i].id != children[j].id
  }

  /** `n` squeal requests. */
  function Squeals(n: nat): (r: seq<Event>)
    ensures |r| == n && forall k :: 0 <= k < n ==> r[k] == Squeal
  {
    if n == 0 then [] else Squeals(n - 1) + [Squeal]
  }

  /** One more squeal appended to a log that ends in `n` squeals. */
  lemma SquealsSnoc(log: seq<Event>, n: nat)
    ensures log + Squeals(n) + [Squeal] == log + Squeals(n + 1)
  {
    assert Squeals(n + 1) == Squeals(n) + [Squeal];
  }

  lemma {:induction false} SquealsAdd(m: nat, n: nat)
    ensures Squeals(m) + Squeals(n) == Squeals(m + n)
  {
    assert (Squeals(m) + Squeals(n))[..] == Squeals(m + n)[..];
  }
}
