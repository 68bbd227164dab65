/** The game object `HogInvaders` and the parts of its per-frame loop that change game state:
    its entity lists, score and children counter are fields that the methods splice and update
    in place, each proved against the functions of modules Combat, HogBehavior, ChildBehavior,
    Placement and Player. Sounds and popups are recorded as `events`. */
module Game {
  import opened Geometry
  import opened Options
  import opened Sequences
  import opened Entities
  import opened Combat
  import opened Placement
  import opened HogBehavior
  import opened ChildBehavior
  import opened Player

  /** The hog wave `createHogs` builds: 25 swarm hogs, then 12 straglers, then 8 elites. */
  const SwarmSize: nat := 25
  const Straglers: nat := 12
  const Elites: nat := 8

  function WaveKind(k: nat): HogKind {
    if k < SwarmSize then Swarm else if k < SwarmSize + Straglers then Stragler else Elite
  }

  /** The speed range `createHogs` draws each kind's speed from. */
  predicate SpeedFor(kind: HogKind, speed: real) {
    match kind
    case Swarm => 0.015 <= speed < 0.035
    case Stragler => 0.01 <= speed < 0.025
    case Elite => 0.025 <= speed < 0.045
  }

  /** A wave as `createHogs` leaves it: each hog of its kind, with its speed in range, no target,
      and an arrival delay in [0, 5) for a stragler (the others have none). The positions come
      from the trigonometric spawn formations and are taken as given. */
  predicate IsWave(wave: seq<Hog>) {
    && |wave| == SwarmSize + Straglers + Elites
    && forall k :: 0 <= k < |wave| ==>
         && wave[k].id == k
         && wave[k].kind == WaveKind(k)
         && SpeedFor(wave[k].kind, wave[k].speed)
         && wave[k].target.None?
         && (if wave[k].kind == Stragler then 0.0 <= wave[k].arrivalDelay < 5.0 else wave[k].arrivalDelay == 0.0)
  }

  /** The child `createChildren` builds at spawn point `index` from its two draws: it aims at
      its own spot, does not panic, and has a run speed in [0.02, 0.05) and a timer in [0, 2). */
  function SpawnedChild(index: nat, d: Draw): (c: Child)
    requires index < |ChildSpawns| && IsDraw(d)
    ensures c.id == index && c.pos == Vec3(ChildSpawns[index].x, ChildSpawns[index].y, 0.0)
    ensures c.targetX == c.pos.x && c.targetY == c.pos.y && c.panic == 0.0
    ensures 0.02 <= c.runSpeed < 0.05 && 0.0 <= c.timer < 2.0
  {
    var spot := ChildSpawns[index];
    Child(index, Vec3(spot.x, spot.y, 0.0), 0.02 + d.u * 0.03, spot.x, spot.y, 0.0,
          Vec2(0.0, 0.0), Vec2(0.0, -1.0), d.v * 2.0)
  }

  /** The obstacles `createObstacles` places, in order: 8 bushes, 4 trees, 3 cars, 6 boxes. */
  const ObstacleCount: nat := 21

  function LayoutKind(k: nat): ObstacleKind {
    if k < 8 then Bush else if k < 12 then Tree else if k < 15 then Car else Box
  }

  /** The first obstacles of the layout, each of its kind and placed by its attempts against
      the obstacles before it. */
  ghost predicate LaidOut(obstacles: seq<Obstacle>, plan: seq<Attempts>)
    requires forall k :: 0 <= k < |plan| ==> IsAttempts(plan[k])
  {
    && |obstacles| <= |plan|
    && forall k :: 0 <= k < |obstacles| ==>
         obstacles[k].kind == LayoutKind(k) && PlacedBy(obstacles[k].pos, obstacles[..k], plan[k])
  }

  /** Registering the next obstacle of the layout, placed by its attempts, extends it. */
  lemma LaidOutGrows(obstacles: seq<Obstacle>, plan: seq<Attempts>, o: Obstacle)
    requires forall k :: 0 <= k < |plan| ==> IsAttempts(plan[k])
    requires LaidOut(obstacles, plan) && |obstacles| < |plan|
    requires o.kind == LayoutKind(|obstacles|) && PlacedBy(o.pos, obstacles, plan[|obstacles|])
    ensures LaidOut(obstacles + [o], plan)
  {
    var grown := obstacles + [o];
    assert grown[..|obstacles|] == obstacles;
    forall k | 0 <= k < |obstacles|
      ensures grown[k] == obstacles[k] && grown[..k] == obstacles[..k]
    {
    }
  }

  /** The inner reverse scan of both collision passes: it stops at the first match it meets,
      which is the highest-index match. */
  method ScanBack<A, B>(a: A, inner: seq<B>, hit: (A, B) -> bool) returns (j: int)
    ensures j == LastMatch(a, inner, hit)
  {
    j := |inner| - 1;
    while j >= 0
      invariant -1 <= j < |inner|
      invariant forall k :: j < k < |inner| ==> !hit(a, inner[k])
    {
      if hit(a, inner[j]) {
        break;
      }
      j := j - 1;
    }
  }

  /** The hogs after `updateHogs`: each hog's tick, reading the children as they stand. */
  function TickedHogs(hogs: seq<Hog>, children: seq<Child>, inputs: seq<HogInputs>): (r: seq<Hog>)
    requires |inputs| == |hogs| && forall k :: 0 <= k < |inputs| ==> IsHogInputs(children, inputs[k])
    ensures |r| == |hogs| && forall k :: 0 <= k < |hogs| ==> r[k] == NextHog(hogs[k], children, inputs[k])
  {
    seq(|hogs|, k requires 0 <= k < |hogs| => NextHog(hogs[k], children, inputs[k]))
  }

  /** The children after `updateChildren`: each child's tick, reading the hogs as they stand. */
  function TickedChildren(children: seq<Child>, hogs: seq<Hog>, senses: seq<Senses>, draws: seq<ChildDraws>): (r: seq<Child>)
    requires |senses| == |children| && |draws| == |children|
    requires forall k :: 0 <= k < |children| ==> Fits(hogs, senses[k]) && IsChildDraws(draws[k])
    ensures |r| == |children| && forall k :: 0 <= k < |children| ==> r[k] == NextChild(children[k], hogs, senses[k], draws[k])
  {
    seq(|children|, k requires 0 <= k < |children| => NextChild(children[k], hogs, senses[k], draws[k]))
  }

  /** Removing one hog keeps the ids distinct. */
  lemma RemoveKeepsDistinct(hogs: seq<Hog>, j: nat)
    requires j < |hogs| && DistinctIds(hogs)
    ensures DistinctIds(RemoveAt(hogs, j))
  {
    var r := RemoveAt(hogs, j);
    forall a, b | 0 <= a < b < |r| ensures r[a].id != r[b].id {
      var a' := if a < j then a else a + 1;
      var b' := if b < j then b else b + 1;
      assert r[a] == hogs[a'] && r[b] == hogs[b'];
    }
  }

  /** Removing one child keeps the ids distinct. */
  lemma RemoveKeepsDistinctChildren(children: seq<Child>, j: nat)
    requires j < |children| && DistinctChildIds(children)
    ensures DistinctChildIds(RemoveAt(children, j))
  {
    var r := RemoveAt(children, j);
    forall a, b | 0 <= a < b < |r| ensures r[a].id != r[b].id {
      var a' := if a < j then a else a + 1;
      var b' := if b < j then b else b + 1;
      assert r[a] == children[a'] && r[b] == children[b'];
    }
  }

  /** The requests of one `checkCollisions` appended to a log: the squeals of both passes,
      then the lose popup, then the win popup. */
  lemma EventsInOrder(log: seq<Event>, r: Resolution, score: int, lost: seq<Event>, won: seq<Event>)
    requires lost == if r.lost then [GameOver(ChildrenEaten, score + 10 * r.kills)] else []
    requires won == if r.won then [GameOver(PlayerWon, score + 10 * r.kills)] else []
    ensures log + ResolutionEvents(r, score) == log + (Squeals(r.kills) + Squeals(r.captures)) + lost + won
  {
    AppendAssoc(log, Squeals(r.kills) + Squeals(r.captures), lost, won);
  }

  class HogInvaders {
    var player: Vec3
    var playerHeading: real
    var bullets: seq<Vec3>
    var hogs: seq<Hog>
    var children: seq<Child>
    var obstacles: seq<Obstacle>
    var score: int
    var childrenRemaining: int
    /** The squeals and game-over popups requested so far, in order. */
    var events: seq<Event>

    /** The counter shown to the player is the number of children left, no two hogs and no
        two children are the same object, and the score is a whole number of kills. */
    ghost predicate Valid()
      reads this
    {
      && childrenRemaining == |children|
      && DistinctIds(hogs)
      && DistinctChildIds(children)
      && score >= 0 && score % 10 == 0
    }

    /** The constructor: the player at its start, no bullets, the five children, the 21
        obstacles, then the hog wave; score 0 and 5 children remaining. */
    constructor (wave: seq<Hog>, starts: seq<Draw>, plan: seq<Attempts>)
      requires IsWave(wave)
      requires |starts| == |ChildSpawns| && forall k :: 0 <= k < |starts| ==> IsDraw(starts[k])
      requires |plan| == ObstacleCount && forall k :: 0 <= k < |plan| ==> IsAttempts(plan[k])
      ensures Valid()
      ensures player == PlayerStart && playerHeading == 0.0 && bullets == [] && hogs == wave
      ensures score == 0 && childrenRemaining == 5 && events == []
      ensures |children| == |ChildSpawns| && forall k :: 0 <= k < |children| ==> children[k] == SpawnedChild(k, starts[k])
      ensures |obstacles| == ObstacleCount && LaidOut(obstacles, plan)
    {
      player := PlayerStart;
      playerHeading := 0.0;
      bullets := [];
      hogs := [];
      children := [];
      obstacles := [];
      score := 0;
      childrenRemaining := 5;
      events := [];
      new;
      CreateChildren(starts);
      forall k | 0 <= k < |children| ensures children[k].id == k {
        assert children[0 + k] == SpawnedChild(k, starts[k]);
      }
      CreateObstacles(plan);
      hogs := wave;
    }

    /** `createChildren`: one child per spawn point, in order, with ids 0 to 4. */
    method CreateChildren(starts: seq<Draw>)
      requires |starts| == |ChildSpawns| && forall k :: 0 <= k < |starts| ==> IsDraw(starts[k])
      modifies this`children
      ensures |children| == |old(children)| + |ChildSpawns|
      ensures children[..|old(children)|] == old(children)
      ensures forall k :: 0 <= k < |ChildSpawns| ==> children[|old(children)| + k] == SpawnedChild(k, starts[k])
    {
      var k := 0;
      while k < |ChildSpawns|
        invariant 0 <= k <= |ChildSpawns|
        invariant |children| == |old(children)| + k
        invariant children[..|old(children)|] == old(children)
        invariant forall m :: 0 <= m < k ==> children[|old(children)| + m] == SpawnedChild(m, starts[m])
      {
        children := children + [SpawnedChild(k, starts[k])];
        k := k + 1;
      }
    }

    /** `createBushes`, `createTrees`, `createOldCars` and `createBoxes`: `count` obstacles of
        the kind, each placed against every obstacle registered before it, then registered. */
    method AddObstacles(kind: ObstacleKind, count: nat, plan: seq<Attempts>)
      requires forall k :: 0 <= k < |plan| ==> IsAttempts(plan[k])
      requires LaidOut(obstacles, plan) && |obstacles| + count <= |plan|
      requires forall k :: |obstacles| <= k < |obstacles| + count ==> LayoutKind(k) == kind
      modifies this`obstacles
      ensures LaidOut(obstacles, plan)
      ensures |obstacles| == |old(obstacles)| + count
      ensures obstacles[..|old(obstacles)|] == old(obstacles)
    {
      var n := |obstacles|;
      var i := 0;
      while i < count
        invariant 0 <= i <= count
        invariant |obstacles| == n + i
        invariant obstacles[..n] == old(obstacles)
        invariant LaidOut(obstacles, plan)
      {
        var pos, placed := PlaceObstacle(obstacles, plan[n + i]);
        LaidOutGrows(obstacles, plan, Obstacle(kind, pos));
        obstacles := obstacles + [Obstacle(kind, pos)];
        i := i + 1;
      }
    }

    /** `createObstacles`: 8 bushes, 4 trees, 3 cars and 6 boxes, in that order. */
    method CreateObstacles(plan: seq<Attempts>)
      requires |plan| == ObstacleCount && forall k :: 0 <= k < |plan| ==> IsAttempts(plan[k])
      requires obstacles == []
      modifies this`obstacles
      ensures |obstacles| == ObstacleCount && LaidOut(obstacles, plan)
    {
      AddObstacles(Bush, 8, plan);
      AddObstacles(Tree, 4, plan);
      AddObstacles(Car, 3, plan);
      AddObstacles(Box, 6, plan);
    }

    /** `killHog`: the hog is taken out of the list where `indexOf` finds it (if it is there),
        a squeal is requested and the score goes up by 10. The bone pile it then asks for is
        not part of this model (see Combat.ResolveAsWritten). */
    method KillHog(hog: Hog)
      requires Valid()
      modifies this`hogs, this`score, this`events
      ensures Valid()
      ensures hog !in old(hogs) ==> hogs == old(hogs)
      ensures forall j :: 0 <= j < |old(hogs)| && old(hogs)[j] == hog ==> hogs == RemoveAt(old(hogs), j)
      ensures score == old(score) + 10 && events == old(events) + [Squeal]
    {
      var index := IndexOf(hogs, hog);
      if index > -1 {
        RemoveKeepsDistinct(hogs, index);
        hogs := RemoveAt(hogs, index);
      }
      events := events + [Squeal];
      score := score + 10;
    }

    /** `shoot` and `meleeAttack`: the first hog in list order within 1.5 of the player is
        killed and no bullet is fired; with none in reach one bullet appears half a unit above
        the player. */
    method Shoot()
      requires Valid()
      modifies this`bullets, this`hogs, this`score, this`events
      ensures Valid()
      ensures var k := MeleeTarget(old(hogs), player);
        && (k >= 0 ==> hogs == RemoveAt(old(hogs), k) && bullets == old(bullets)
                       && score == old(score) + 10 && events == old(events) + [Squeal])
        && (k < 0 ==> hogs == old(hogs) && bullets == old(bullets) + [Muzzle(player)]
                      && score == old(score) && events == old(events))
    {
      var target := -1;
      var k := 0;
      while k < |hogs|
        invariant 0 <= k <= |hogs|
        invariant forall m :: 0 <= m < k ==> !InMeleeRange(player, hogs[m])
      {
        if InMeleeRange(player, hogs[k]) {
          target := k;
          break;
        }
        k := k + 1;
      }
      assert target == MeleeTarget(hogs, player);
      if target >= 0 {
        KillHog(hogs[target]);
      } else {
        bullets := bullets + [Muzzle(player)];
      }
    }

    /** `updatePlayer`: the eight guarded steps in the order the source tests them (left,
        right, up, down by arrow key, then by A, D, W, S), then the facing. */
    method UpdatePlayer(keys: Keys)
      modifies this`player, this`playerHeading
      ensures player == MovePlayer(old(player), keys)
      ensures playerHeading == Facing(keys)
    {
      var x, y := player.x, player.y;
      x := StepDown(x, keys.arrowLeft, -BoundX);
      x := StepUp(x, keys.arrowRight, BoundX);
      y := StepUp(y, keys.arrowUp, TopY);
      y := StepDown(y, keys.arrowDown, BottomY);
      x := StepDown(x, keys.keyA, -BoundX);
      x := StepUp(x, keys.keyD, BoundX);
      y := StepUp(y, keys.keyW, TopY);
      y := StepDown(y, keys.keyS, BottomY);
      player := Vec3(x, y, player.z);
      if keys.arrowLeft || keys.keyA {
        playerHeading := PI / 8.0;
      } else if keys.arrowRight || keys.keyD {
        playerHeading := -PI / 8.0;
      } else {
        playerHeading := 0.0;
      }
    }

    /** `updateBullets`: a reverse loop raising each bullet by 0.2 and splicing out those
        above 6. */
    method UpdateBullets()
      modifies this`bullets
      ensures bullets == Advance(old(bullets))
    {
      var i := |bullets|;
      while i > 0
        invariant 0 <= i <= |bullets|
        invariant bullets[..i] == old(bullets)[..i]
        invariant bullets[i..] == Advance(old(bullets)[i..])
      {
        i := i - 1;
        ghost var b := bullets;
        var moved := Rise(bullets[i]);
        if moved.y > 6.0 {
          bullets := RemoveAt(bullets, i);
        } else {
          bullets := bullets[i := moved];
        }
        AdvanceStep(old(bullets), i, b, bullets);
      }
    }

    /** `updateHogs`: each hog's tick, in list order, with the true distances from each hog to
        the children. The hog ticks read the children, which this pass does not change. */
    method UpdateHogs(inputs: seq<HogInputs>)
      requires Valid()
      requires |inputs| == |hogs| && forall k :: 0 <= k < |inputs| ==> IsHogInputs(children, inputs[k])
      requires forall k :: 0 <= k < |inputs| ==> SensesChildren(hogs[k], children, inputs[k])
      modifies this`hogs
      ensures Valid()
      ensures hogs == TickedHogs(old(hogs), children, inputs)
    {
      var k := 0;
      while k < |hogs|
        invariant 0 <= k <= |hogs| == |old(hogs)|
        invariant forall m :: 0 <= m < k ==> hogs[m] == NextHog(old(hogs)[m], children, inputs[m])
        invariant forall m :: k <= m < |hogs| ==> hogs[m] == old(hogs)[m]
        invariant forall m :: 0 <= m < |hogs| ==> hogs[m].id == old(hogs)[m].id
      {
        hogs := hogs[k := NextHog(hogs[k], children, inputs[k])];
        k := k + 1;
      }
    }

    /** `updateChildren`: each child's tick, in list order, with the true distances from each
        child to the hogs and to its target. The child ticks read the hogs, which this pass
        does not change. */
    method UpdateChildren(senses: seq<Senses>, draws: seq<ChildDraws>)
      requires Valid()
      requires |senses| == |children| && |draws| == |children|
      requires forall k :: 0 <= k < |children| ==> Fits(hogs, senses[k]) && IsChildDraws(draws[k])
      requires forall k :: 0 <= k < |children| ==> SensesTick(children[k], hogs, senses[k], draws[k])
      modifies this`children
      ensures Valid()
      ensures children == TickedChildren(old(children), hogs, senses, draws)
      ensures forall k :: 0 <= k < |children| ==>
                && -FieldX <= children[k].targetX <= FieldX && FieldMinY <= children[k].targetY <= FieldMaxY
                && -FieldX <= children[k].pos.x <= FieldX && -DepthBound <= children[k].pos.z <= DepthBound
    {
      var k := 0;
      while k < |children|
        invariant 0 <= k <= |children| == |old(children)|
        invariant forall m :: 0 <= m < k ==> children[m] == NextChild(old(children)[m], hogs, senses[m], draws[m])
        invariant forall m :: k <= m < |children| ==> children[m] == old(children)[m]
      {
        children := children[k := NextChild(children[k], hogs, senses[k], draws[k])];
        k := k + 1;
      }
    }

    /** One bullet of the bullet pass: the inner reverse scan over the hogs; on a hit the
        bullet is spliced out and the hog killed. */
    method ResolveBullet(i: nat) returns (ghost j: int)
      requires Valid() && i < |bullets|
      modifies this`bullets, this`hogs, this`score, this`events
      ensures Valid()
      ensures j == LastMatch(old(bullets)[i], old(hogs), BulletHits)
      ensures && (j < 0 ==> bullets == old(bullets) && hogs == old(hogs) && score == old(score) && events == old(events))
        && (j >= 0 ==> bullets == RemoveAt(old(bullets), i) && hogs == RemoveAt(old(hogs), j)
                       && score == old(score) + 10 && events == old(events) + [Squeal])
    {
      var hit := ScanBack(bullets[i], hogs, BulletHits);
      if hit >= 0 {
        bullets := RemoveAt(bullets, i);
        KillHog(hogs[hit]);
      }
      j := hit;
    }

    /** The bullet pass of `checkCollisions`: a reverse loop over the bullets. */
    method ResolveBulletHits()
      requires Valid()
      modifies this`bullets, this`hogs, this`score, this`events
      ensures Valid()
      ensures var r := PairOff(old(bullets), old(hogs), BulletHits);
        && bullets == r.kept && hogs == r.rest
        && score == old(score) + 10 * r.pairs && events == old(events) + Squeals(r.pairs)
    {
      ghost var kills := 0;
      ghost var p, outcome := bullets, PairOff(bullets, hogs, BulletHits);
      var i := |bullets|;
      assert p[..i] == p;
      while i > 0
        invariant 0 <= i <= |bullets|
        invariant Valid()
        invariant bullets[..i] == p[..i]
        invariant var r := PairOff(p[..i], hogs, BulletHits);
          outcome == Paired(r.kept + bullets[i..], r.rest, r.pairs + kills)
        invariant score == old(score) + 10 * kills && events == old(events) + Squeals(kills)
      {
        i := i - 1;
        ghost var b, h := bullets, hogs;
        ghost var j := ResolveBullet(i);
        PassStep(p, i, b, h, BulletHits, kills, outcome, j, bullets, hogs);
        if j >= 0 {
          SquealsSnoc(old(events), kills);
          kills := kills + 1;
        }
      }
      assert p[..0] == [] && bullets[0..] == bullets;
    }

    /** One hog of the capture pass: the inner reverse scan over the children; on a catch the
        child is spliced out, the counter goes down, the hog is spliced out and a squeal is
        requested. */
    method ResolveCapture(i: nat) returns (ghost j: int)
      requires Valid() && i < |hogs|
      modifies this`hogs, this`children, this`childrenRemaining, this`events
      ensures Valid()
      ensures j == LastMatch(old(hogs)[i], old(children), Catches)
      ensures && (j < 0 ==> hogs == old(hogs) && children == old(children)
                            && childrenRemaining == old(childrenRemaining) && events == old(events))
              && (j >= 0 ==> hogs == RemoveAt(old(hogs), i) && children == RemoveAt(old(children), j)
                             && childrenRemaining == old(childrenRemaining) - 1 && events == old(events) + [Squeal])
    {
      var caught := ScanBack(hogs[i], children, Catches);
      if caught >= 0 {
        RemoveKeepsDistinctChildren(children, caught);
        children := RemoveAt(children, caught);
        childrenRemaining := childrenRemaining - 1;
        RemoveKeepsDistinct(hogs, i);
        hogs := RemoveAt(hogs, i);
        events := events + [Squeal];
      }
      j := caught;
    }

    /** The capture pass of `checkCollisions`: a reverse loop over the hogs; a hog within 0.6
        of a child eats it and leaves. */
    method ResolveCaptures()
      requires Valid()
      modifies this`hogs, this`children, this`childrenRemaining, this`events
      ensures Valid()
      ensures var r := PairOff(old(hogs), old(children), Catches);
        && hogs == r.kept && children == r.rest
        && childrenRemaining == old(childrenRemaining) - r.pairs && events == old(events) + Squeals(r.pairs)
    {
      ghost var captures := 0;
      ghost var p, outcome := hogs, PairOff(hogs, children, Catches);
      var i := |hogs|;
      assert p[..i] == p;
      while i > 0
        invariant 0 <= i <= |hogs|
        invariant Valid()
        invariant hogs[..i] == p[..i]
        invariant var r := PairOff(p[..i], children, Catches);
          outcome == Paired(r.kept + hogs[i..], r.rest, r.pairs + captures)
        invariant childrenRemaining == old(childrenRemaining) - captures && events == old(events) + Squeals(captures)
      {
        i := i - 1;
        ghost var h, c := hogs, children;
        ghost var j := ResolveCapture(i);
        PassStep(p, i, h, c, Catches, captures, outcome, j, hogs, children);
        if j >= 0 {
          SquealsSnoc(old(events), captures);
          captures := captures + 1;
        }
      }
      assert p[..0] == [] && hogs[0..] == hogs;
    }

    /** The despawn pass of `checkCollisions`: hogs below -4.8 give up and are spliced out. */
    method DespawnEscapedHogs()
      requires Valid()
      modifies this`hogs
      ensures Valid()
      ensures hogs == Filter(old(hogs), StaysOnField)
    {
      ghost var p := hogs;
      var i := |hogs|;
      assert hogs[..i] == p && hogs[i..] == [] == Filter(p[i..], StaysOnField);
      while i > 0
        invariant 0 <= i <= |hogs|
        invariant Valid()
        invariant hogs[..i] == p[..i] && hogs[i..] == Filter(p[i..], StaysOnField)
      {
        i := i - 1;
        ghost var s := hogs;
        if hogs[i].pos.y < -4.8 {
          RemoveKeepsDistinct(hogs, i);
          hogs := RemoveAt(hogs, i);
        }
        FilterStep(p, i, s, StaysOnField, hogs);
      }
      assert p[0..] == p && hogs[0..] == hogs;
    }

    /** `showGameOver`: the popup shows the outcome and the current score. */
    method ShowGameOver(outcome: Outcome)
      modifies this`events
      ensures events == old(events) + [GameOver(outcome, score)]
    {
      events := events + [GameOver(outcome, score)];
    }

    /** The lose test of `checkCollisions`: the popup is raised when no child is left. */
    method CheckLost()
      modifies this`events
      ensures events == old(events) + (if children == [] then [GameOver(ChildrenEaten, score)] else [])
    {
      if |children| == 0 {
        ShowGameOver(ChildrenEaten);
      }
    }

    /** The win test of `checkCollisions`: the popup is raised when no hog is left. */
    method CheckWon()
      modifies this`events
      ensures events == old(events) + (if hogs == [] then [GameOver(PlayerWon, score)] else [])
    {
      if |hogs| == 0 {
        ShowGameOver(PlayerWon);
      }
    }

    /** The two collision passes of `checkCollisions`: bullets against hogs, then hogs
        against children. */
    method ResolvePasses()
      requires Valid()
      modifies this`bullets, this`hogs, this`children, this`score, this`childrenRemaining, this`events
      ensures Valid()
      ensures var shot := PairOff(old(bullets), old(hogs), BulletHits);
        var eaten := PairOff(shot.rest, old(children), Catches);
        && bullets == shot.kept && hogs == eaten.kept && children == eaten.rest
        && score == old(score) + 10 * shot.pairs
        && childrenRemaining == old(childrenRemaining) - eaten.pairs
        && events == old(events) + (Squeals(shot.pairs) + Squeals(eaten.pairs))
    {
      ResolveBulletHits();
      ResolveCaptures();
    }

    /** The end of `checkCollisions`: the lose test, the despawn pass and the win test. */
    method FinishCollisions()
      requires Valid()
      modifies this`hogs, this`events
      ensures Valid()
      ensures hogs == Filter(old(hogs), StaysOnField)
      ensures events == old(events) + (if children == [] then [GameOver(ChildrenEaten, score)] else [])
                                    + (if hogs == [] then [GameOver(PlayerWon, score)] else [])
    {
      CheckLost();
      DespawnEscapedHogs();
      CheckWon();
    }

    /** `checkCollisions`, with `killHog` running to its end. */
    method CheckCollisions()
      requires Valid()
      modifies this`bullets, this`hogs, this`children, this`score, this`childrenRemaining, this`events
      ensures Valid()
      ensures var r := Resolve(old(bullets), old(hogs), old(children));
        && bullets == r.bullets && hogs == r.hogs && children == r.children
        && score == old(score) + 10 * r.kills
        && childrenRemaining == old(childrenRemaining) - r.captures
        && events == old(events) + ResolutionEvents(r, old(score))
    {
      ghost var r := Resolve(bullets, hogs, children);
      ghost var lost := if r.lost then [GameOver(ChildrenEaten, score + 10 * r.kills)] else [];
      ghost var won := if r.won then [GameOver(PlayerWon, score + 10 * r.kills)] else [];
      EventsInOrder(events, r, score, lost, won);
      ResolvePasses();
      FinishCollisions();
    }

    /** The four updates of a frame of `animate` before `checkCollisions`: the player, the
        bullets, the hogs (each sensing the children before they move), then the children
        (each sensing the hogs after they moved). */
    method MoveAll(keys: Keys, hogInputs: seq<HogInputs>, senses: seq<Senses>, draws: seq<ChildDraws>)
      requires Valid()
      requires |hogInputs| == |hogs| && forall k :: 0 <= k < |hogInputs| ==> IsHogInputs(children, hogInputs[k])
      requires forall k :: 0 <= k < |hogInputs| ==> SensesChildren(hogs[k], children, hogInputs[k])
      requires |senses| == |children| && |draws| == |children|
      requires forall k :: 0 <= k < |children| ==>
                 Fits(TickedHogs(hogs, children, hogInputs), senses[k]) && IsChildDraws(draws[k])
      requires forall k :: 0 <= k < |children| ==>
                 SensesTick(children[k], TickedHogs(hogs, children, hogInputs), senses[k], draws[k])
      modifies this`player, this`playerHeading, this`bullets, this`hogs, this`children
      ensures Valid()
      ensures player == MovePlayer(old(player), keys) && playerHeading == Facing(keys)
      ensures bullets == Advance(old(bullets))
      ensures hogs == TickedHogs(old(hogs), old(children), hogInputs)
      ensures children == TickedChildren(old(children), hogs, senses, draws)
    {
      UpdatePlayer(keys);
      UpdateBullets();
      UpdateHogs(hogInputs);
      UpdateChildren(senses, draws);
    }

    /** One frame of `animate`: the four updates, then the collisions. The new state is their
        composition; after it no bullet sits in a hog, no hog is within reach of a child,
        every hog is on the field, the score has not gone down and the children counter has
        not gone up. */
    method Tick(keys: Keys, hogInputs: seq<HogInputs>, senses: seq<Senses>, draws: seq<ChildDraws>)
      requires Valid()
      requires |hogInputs| == |hogs| && forall k :: 0 <= k < |hogInputs| ==> IsHogInputs(children, hogInputs[k])
      requires forall k :: 0 <= k < |hogInputs| ==> SensesChildren(hogs[k], children, hogInputs[k])
      requires |senses| == |children| && |draws| == |children|
      requires forall k :: 0 <= k < |children| ==>
                 Fits(TickedHogs(hogs, children, hogInputs), senses[k]) && IsChildDraws(draws[k])
      requires forall k :: 0 <= k < |children| ==>
                 SensesTick(children[k], TickedHogs(hogs, children, hogInputs), senses[k], draws[k])
      modifies this`player, this`playerHeading, this`bullets, this`hogs, this`children
      modifies this`score, this`childrenRemaining, this`events
      ensures Valid()
      ensures player == MovePlayer(old(player), keys) && playerHeading == Facing(keys)
      ensures var moved := TickedHogs(old(hogs), old(children), hogInputs);
        var r := Resolve(Advance(old(bullets)), moved, TickedChildren(old(children), moved, senses, draws));
        && bullets == r.bullets && hogs == r.hogs && children == r.children
        && score == old(score) + 10 * r.kills
        && childrenRemaining == old(childrenRemaining) - r.captures
        && events == old(events) + ResolutionEvents(r, old(score))
      ensures forall k, l :: 0 <= k < |bullets| && 0 <= l < |hogs| ==> !BulletHits(bullets[k], hogs[l])
      ensures forall k, l :: 0 <= k < |hogs| && 0 <= l < |children| ==> !Catches(hogs[k], children[l])
      ensures forall k :: 0 <= k < |hogs| ==> StaysOnField(hogs[k])
      ensures score >= old(score) && childrenRemaining <= old(childrenRemaining)
      ensures |hogs| <= |old(hogs)|
    {
      MoveAll(keys, hogInputs, senses, draws);
      ghost var b, h, c := bullets, hogs, children;
      CheckCollisions();
      ResolveLeavesNoContact(b, h, c);
    }
  }
}
