# Hog Invaders: the per-frame game logic

Hog Invaders is a browser game. A farmer (the player) defends five children at the bottom of
a field against a wave of 45 hogs: 25 swarm hogs, 12 straglers that arrive late and 8 elites
that chase the nearest child and charge. Pressing Space fires. A hog within reach is
clubbed; otherwise a bullet rises up the screen. Bullets kill the hogs they touch, for 10
points each. A hog that reaches a child eats it and leaves. Hogs that walk off the bottom of
the field give up. The game is lost when no child is left and won when no hog is left.

This project models the part of `game.js` that changes game state on every frame of
`animate`. That is the player's step, the bullets' rise, each hog's and each child's tick,
and the collision passes of `checkCollisions`. It also models the fire action and the
construction of the level (children and the rejection-sampled obstacle layout).

- Positions are exact reals.
- What the game draws from `Math.random`, `Math.sqrt`, `Math.sin` and `Math.atan2` is passed
  in as parameters. Predicates state what those values satisfy (`IsDraw`, `IsAttempts`,
  `IsHogInputs`, `IsChildDraws`).
- Every square root the hogs and children act on is tied to the true squared distance
  between their positions (`SensesChildren` for a hog, `SensesHogs` and `SensesTick` for a
  child). The class methods require this, and lemmas restate each distance test on the
  positions themselves (`Geometry.RootBelow`, `Geometry.RootsKeepOrder`).
- Sounds and popups are recorded in an `events` log.

Modules:

- `Geometry`, `Options`, `Sequences`, `Entities`: points and squared distances, the clamp,
  `splice`/`indexOf`/filter on lists, and the hog, child and obstacle records.
- `Combat`: the collision passes, the bullet rise and the melee choice as functions on lists.
  It also holds the as-written variant of `checkCollisions` (see Findings).
- `HogBehavior`, `ChildBehavior`, `Player`: one tick of a hog, of a child and of the player.
- `Placement`: `placeObstacleRandomly` as a method with its loops.
- `Angles`: the heading-difference normalisation loops.
- `Game`: the class `HogInvaders`. Its fields (`bullets`, `hogs`, `children`, `obstacles`,
  `score`, `childrenRemaining`, …) are updated in place by methods with the source's reverse
  index loops. Each method is proved against the functions above. The class invariant
  `Valid` says three things:
  - the children counter equals the number of children;
  - hog identities are distinct, and so are child identities (a hog's target id therefore
    names at most one child);
  - the score is a non-negative multiple of 10.

In `checkCollisions` the lose test and the win test are two independent `if`s. So one tick
can raise both popups (`Combat.LastCaptureRaisesBothPopups`). Since `animate` never stops,
they are raised again on every later tick (`Combat.GameOverRepeats`). The model follows the
code here, not an "otherwise" between the two tests.

## Model

| member | source | states |
|---|---|---|
| Sequences.RemoveAt | game.js:1473 | `splice(i, 1)`: one element fewer, the elements before `i` in place, those after shifted down by one, and the multiset loses exactly `s[i]` |
| Sequences.IndexOf | game.js:1037-1041 | `indexOf`: -1 exactly when the value is absent, otherwise the first position holding it |
| Sequences.Filter | game.js:1517-1523 | the kept elements pass the test and come from the list, and every passing element is kept |
| Sequences.FilterByPosition | game.js:1517-1523 | the k-th survivor of the filter is the element at the k-th passing position, so survivors keep their relative order |
| Sequences.KeptPositionsExact | game.js:1517-1523 | the passing positions are strictly increasing and contain exactly the indices whose element passes |
| Geometry.Clamp | game.js:1581-1582 | `Math.max(lo, Math.min(hi, v))` lies in `[lo, hi]`, is `v` when `v` is in range, and is the nearer bound otherwise |
| Geometry.SquaresKeepOrder | game.js:1486-1488 | for non-negative `d`, `r`: `d < r` exactly when `d*d < r*r`, which justifies every squared threshold test |
| Geometry.Nearest | game.js:1633-1646 | the argmin scan with a strict `<` from Infinity: None exactly for no hogs, otherwise an index of a minimum distance that is strictly smaller than every earlier distance (the earliest minimum) |
| Geometry.Normalized | game.js:1557-1561 | dividing a displacement by its length gives a unit vector pointing the same way whose dot product with the displacement is the length |
| Geometry.StepAlong | game.js:1589-1592 | a step of `speed` along the normalised displacement has length `speed` and advances `speed * dist` along the displacement |
| Entities.Squeals | game.js:1035-1047 | `n` squeal requests: exactly `n` events, all squeals |
| Angles.NormalizeAngle | game.js:1245-1246 | the two `while` loops end with a value in `[-PI, PI]` that differs from the input by a whole number of turns (subtracted turns for inputs above PI, added turns below -PI) and return an in-range input unchanged |
| Player.StepDown | game.js:1057-1059 | a guarded step down: with the key held and the value above the bound the value drops by exactly 0.15, otherwise it is unchanged |
| Player.StepUp | game.js:1060-1062 | a guarded step up: with the key held and the value below the bound the value rises by exactly 0.15, otherwise it is unchanged |
| Player.MoveX | game.js:1052-1085 | at least one step inside the bounds every held horizontal key moves the player one step its way, so the two left keys give two steps and opposite keys cancel; a single left or right key with no opposite key moves it one step whenever its guard holds; x moves left only with a left key held and right only with a right key held, by at most two steps, and stays within the bounds widened by one step |
| Player.MoveY | game.js:1052-1085 | the same for y with the up keys (W, up arrow) against -2 and the down keys (S, down arrow) against -5 |
| Player.MovePlayer | game.js:1052-1085 | depth is kept, each axis moves as `MoveX` and `MoveY` say, and a player inside the arena (the bounds widened by one step) stays inside it |
| HogBehavior.PickIndex | game.js:1232 | `Math.floor(Math.random() * n)` is a valid index into a non-empty list |
| HogBehavior.SelectTarget | game.js:1231-1233 | a held target is kept (never cleared); without one there is no target exactly when there are no children; a new target is one of the children, and an elite's is the earliest child at the least sensed distance (which `EliteChasesNearest` turns into the nearest child in space) |
| HogBehavior.ChargeSpeed | game.js:1376-1383 | `Math.min(speed * 1.01, 0.08)`: at most both `speed * 1.01` and 0.08 and equal to one of them (so exactly their minimum: 1% faster per tick below the cap), and never below a speed that was within the cap |
| HogBehavior.NextHog | game.js:1197-1225 | an arriving stragler only counts its delay down by 0.016. Otherwise: the delay is kept and the target is the selected one; a hog with a target more than 0.1 away steps its speed along the turned heading, a swarm hog without a target walks down by its speed, any other hog stays, and the walk bob is added to y; an elite with a target charges exactly when the target distance is below 3, and no other hog changes speed; a swarm or stragler hog takes the new heading, an elite only when it steps; depth is kept |
| HogBehavior.EliteChasesNearest | game.js:1333-1348 | with the true distances, an elite without a target takes the child nearest to it in space, the earliest of several at the same distance |
| HogBehavior.TargetSensed | game.js:1350-1383 | with the true distances, a hog steps exactly when its target child is more than 0.1 away in the plane, and an elite charges exactly when that child is within 3 in space of where the elite stands after its move |
| HogBehavior.StepCoversSpeed | game.js:1240-1256 | a hog that steps moves by exactly its speed along its turned heading's unit vector |
| HogBehavior.NoChildrenLeft | game.js:1262-1270 | with no children and no target, a swarm hog walks straight down by its speed and the other kinds stay in place (apart from the bob); none gets a target |
| HogBehavior.Charged | game.js:1376-1383 | an elite's speed after any number of charging ticks stays between its starting speed and 0.08 |
| HogBehavior.ChargingNeverSlows | game.js:1376-1383 | charging for more ticks never gives a lower speed |
| ChildBehavior.ThreatScan | game.js:1622-1628 | the running maximum is non-negative, at least the threat of every hog within 5, and either 0 or the threat of one such hog |
| ChildBehavior.Panic | game.js:1618-1631 | panic lies in `[0, 1]`, is 0 when no hog is within 5, is at least every threat within 5 unless capped at 1, and is 0, the threat of one hog, or 1 only when some hog within 5 has a threat of at least 1 (so it is exactly the largest threat, capped at 1) |
| ChildBehavior.ThreatScanMonotone | game.js:1622-1628 | hogs that are each no farther away never give a smaller running maximum |
| ChildBehavior.PanicMonotone | game.js:1618-1631 | panic never decreases when no hog gets farther away |
| ChildBehavior.Steer | game.js:1544-1578 | panic is recomputed; with the nearest hog within 4 the child flees (for a non-zero planar distance the flee and last-safe directions become the unit vector away from the hog, for a zero one both are kept; the target is 3 across and 2 along the flee direction; the timer only counts down); otherwise a run-out timer or panic above 0.3 rerolls the target to a wander offset with a new timer in `[0.5, 2)`; otherwise only the timer counts down |
| ChildBehavior.CalmExactlyWhenNoHogNear | game.js:1618-1631 | with the true distances, panic is 0 exactly when no hog is within 5 of the child in space |
| ChildBehavior.FleesFromNearestHog | game.js:1548-1553 | with the true distances, a child flees exactly when some hog is within 4 of it in space, and it flees from the hog nearest to it (the earliest of several at the same distance) |
| ChildBehavior.MovesWhenTargetFar | game.js:1585-1589 | with the true distance, a child moves exactly when its clamped target is more than 0.1 away in the plane |
| ChildBehavior.ClampedTarget | game.js:1580-1582 | the target lies in `[-8, 8] x [-5, 6]` |
| ChildBehavior.Bob | game.js:1608-1611 | the running bob stays within 0.18 |
| ChildBehavior.NextChild | game.js:1537-1616 | after one tick the target lies in `[-8, 8] x [-5, 6]`, x in `[-8, 8]` and z in `[-1.5, 1.5]`; y lies only within 0.18 of `[-5, 6]`; the timer counted down or was reset into `[0.5, 2)` |
| ChildBehavior.FleeDirectionPointsAway | game.js:1555-1561 | the flee direction is a unit vector pointing from the hog to the child |
| ChildBehavior.FleeingKeepsCountingDown | game.js:1551-1570 | a threatened child flees even when its timer ran out or it panics, and its timer is not reset |
| ChildBehavior.WanderWithinReach | game.js:1572-1576 | a rerolled target lies between 1 and 4 from the child before clamping |
| ChildBehavior.StepHasSpeed | game.js:1585-1592 | a moving child covers exactly its speed, straight towards its target |
| ChildBehavior.BobLeavesTheField | game.js:1599-1611 | the bob is added after the clamp, so a child at the top edge can end above y = 6 |
| Placement.Candidate | game.js:588-590 | a candidate lies in `[-9, 9) x [0.5, 5.5)` with z = 0 |
| Placement.Fallback | game.js:641-647 | the fallback lies in `[-4, 4) x {2} x [-3, 3)` |
| Placement.TooCloseToSpawns | game.js:595-613 | the spawn check, given the five child spawn points and the player spawn point, fails exactly when the candidate is within 2 (in the plane) of one of them |
| Placement.TooCloseToObstacles | game.js:615-627 | the obstacle check fails exactly when the candidate is within 2.5 (in space) of a registered obstacle |
| Placement.PlaceObstacle | game.js:582-648 | some candidate was accepted exactly when one of the 50 is acceptable; then the first acceptable one is used, with z = 0, at least 2 from every spawn point and 2.5 from every registered obstacle; otherwise the fallback is used; exactly one position results |
| Combat.LastMatch | game.js:1453-1477 | the inner reverse scan finds -1 or a matching index with no match above it, i.e. the highest-index match |
| Combat.PairOff | game.js:1450-1478 | a pass removes the same number of elements from both lists, one pair per match (see `PairOffRemovesMatches` for which elements) |
| Combat.PairOffOnlyRemoves | game.js:1450-1509 | a pass only removes: what is left of either list was in it before |
| Combat.PairOffSurvivorsMiss | game.js:1450-1509 | after a pass no kept outer element matches any remaining inner element |
| Combat.PairOffRemovesMatches | game.js:1450-1509 | a pass removes an element exactly when it is paired with a match: as many pairs as the pass counts, each outer element hitting the inner element removed with it, and the kept and removed elements of each list together make up the whole list |
| Combat.Resolve | game.js:1449-1529 | each kill removes one bullet, each capture one child, and at least one hog each; the lose popup is raised exactly when no child is left after the capture pass and the win popup exactly when no hog is left after the despawn |
| Combat.ResolveLeavesNoContact | game.js:1449-1529 | after the passes no surviving bullet is inside a surviving hog, no surviving hog is within 0.6 of a surviving child, every surviving hog is at y >= -4.8, and each is unchanged from before (its target is kept even when that child was eaten) |
| Combat.GameOverRepeats | game.js:1511-1528 | with no children the lose popup is raised, and with no hogs the win popup is, on every tick |
| Combat.LastCaptureRaisesBothPopups | game.js:1511-1528 | one hog on the last child: the capture removes both, so one squeal, then the lose popup, then the win popup, all in one tick |
| Combat.HitShift | game.js:1456-1471 | the hitbox test depends only on the differences of the two positions |
| Combat.LastHitShift | game.js:1453-1477 | moving a bullet and all hogs by one vector leaves the index its scan finds unchanged |
| Combat.BulletPassShift | game.js:1450-1478 | moving everything by one vector moves the outcome of the bullet pass by that vector: the same bullets survive, the same hogs die, the same number of kills |
| Combat.AdvanceExact | game.js:1185-1195 | the survivors of `updateBullets` are, in their original order, exactly the bullets whose new y is at most 6, each risen by exactly 0.2 |
| Combat.MeleeTarget | game.js:979-991 | the melee target is the first hog in list order within 1.5 of the player (not the nearest), or -1 when none is in reach |
| Combat.ResolveAsWritten | game.js:1449-1529 | see Findings: there is a kill exactly when some bullet hits some hog, and then exactly one: the highest-index bullet that hits and the highest-index hog it hits are removed and nothing else changes (no other bullet, no capture, no despawn of hogs below the field, no popup); without a hit it is `Resolve` |
| Combat.NoHitKeepsAll | game.js:1450-1478 | a bullet pass without any hit removes nothing |
| Combat.AsWrittenSkipsCapture | game.js:1035-1050 | one bullet on one hog while another hog stands on a child: as written the capture is skipped, with `killHog` completing it happens |
| Combat.AsWrittenKillsOnePerTick | game.js:1035-1050 | two bullets in two hogs: as written one hog dies and the other bullet survives inside its hog; with `killHog` completing both die |
| Game.SpawnedChild | game.js:233-246 | a new child stands on its spawn point, aims at it, does not panic, and has a run speed in `[0.02, 0.05)` and a timer in `[0, 2)` |
| Game.ScanBack | game.js:1453-1477 | the inner reverse loop with its `break` finds the highest-index match |
| Game.RemoveKeepsDistinct | game.js:1501 | splicing out one hog keeps hog identities distinct |
| Game.RemoveKeepsDistinctChildren | game.js:1495 | splicing out one child keeps child identities distinct |
| Game.HogInvaders.constructor | game.js:2-27 | the player at (0, -4), no bullets, score 0, 5 children remaining, the five spawned children, the 21 obstacles laid out in order, then the hog wave; the invariant holds |
| Game.HogInvaders.CreateChildren | game.js:221-250 | one child per spawn point appended in order, with ids 0 to 4 |
| Game.HogInvaders.AddObstacles | game.js:406-414 | `count` obstacles of one kind appended, each placed against every obstacle registered before it |
| Game.HogInvaders.CreateObstacles | game.js:398-404 | 21 obstacles: 8 bushes, 4 trees, 3 cars, 6 boxes, each placed by its own attempts against the earlier ones |
| Game.HogInvaders.KillHog | game.js:1035-1047 | the hog is spliced out where `indexOf` finds it (nothing is removed if it is absent), one squeal is requested and the score rises by exactly 10; the invariant is kept |
| Game.HogInvaders.Shoot | game.js:976-1015 | exactly one of two outcomes: the first hog in reach is killed (score +10, no bullet), or nothing is killed and one bullet appears 0.5 above the player |
| Game.HogInvaders.UpdatePlayer | game.js:1052-1094 | the player moves as `MovePlayer` says and faces as `Facing` says |
| Game.HogInvaders.UpdateBullets | game.js:1185-1195 | the reverse loop leaves exactly `Advance` of the old bullets (see `Combat.AdvanceExact`) |
| Game.HogInvaders.UpdateHogs | game.js:1197-1225 | given the true distances from each hog to the children, every hog takes its own tick, in list order, and none is added or removed |
| Game.HogInvaders.UpdateChildren | game.js:1537-1616 | given the true distances from each child to the moved hogs and to its target, every child takes its own tick, in list order |
| Game.HogInvaders.MoveAll | game.js:1706-1710 | the player, the bullets, the hogs and then the children are updated in that order: the hogs sense the children before those move, and the children sense the hogs after those moved |
| Game.HogInvaders.ResolveBullet | game.js:1450-1477 | one bullet's scan: on a hit that bullet and the highest-index hog it hits are removed, score +10 and one squeal; otherwise nothing changes |
| Game.HogInvaders.ResolveBulletHits | game.js:1450-1478 | the in-place bullet pass leaves exactly what `PairOff` leaves, with 10 points and one squeal per kill |
| Game.HogInvaders.ResolveCapture | game.js:1481-1508 | one hog's scan: on a catch the highest-index child it catches and the hog are removed, the counter drops by one and one squeal is requested; otherwise nothing changes |
| Game.HogInvaders.ResolveCaptures | game.js:1481-1509 | the in-place capture pass leaves exactly what `PairOff` leaves, and the counter drops by one per capture, so it keeps equal to the number of children |
| Game.HogInvaders.DespawnEscapedHogs | game.js:1516-1523 | exactly the hogs with y < -4.8 are removed, the rest keep their order, and the score is unchanged |
| Game.HogInvaders.ShowGameOver | game.js:1531-1535 | the popup request carries the current score |
| Game.HogInvaders.CheckLost | game.js:1511-1514 | the lose popup is requested exactly when no child is left |
| Game.HogInvaders.CheckWon | game.js:1525-1528 | the win popup is requested exactly when no hog is left |
| Game.HogInvaders.ResolvePasses | game.js:1449-1509 | the bullet pass followed by the capture pass, with their scores, counter and squeals |
| Game.HogInvaders.FinishCollisions | game.js:1511-1528 | lose test, despawn, win test, in that order |
| Game.HogInvaders.CheckCollisions | game.js:1449-1529 | the in-place method leaves exactly `Resolve` of the lists before it, adds 10 per kill, lowers the counter by one per capture, and logs the squeals, then the lose popup, then the win popup |
| Game.HogInvaders.Tick | game.js:1701-1716 | after one frame the state is the composition of the updates: the player moved by `MovePlayer` and facing by `Facing`, and bullets, hogs, children, score, counter and events are `Resolve` of the advanced bullets, the ticked hogs and the children ticked against those hogs; the invariant holds, no bullet is inside a hog, no hog is within 0.6 of a child, no hog is below -4.8, the score has not gone down, the counter has not gone up, and there are no more hogs than before |

## Left out

- Rendering, lights, fog, spotlight, camera, window resizing and all three.js meshes: no game
  state depends on them. The bone pile of a capture and the melee flash are not modelled.
- Sounds and the DOM: `playRandomSqueal` becomes a `Squeal` event. `showGameOver` becomes a
  `GameOver` event carrying the popup kind and the score; it ignores its message argument.
- Keyboard listeners and the frame driver: `Shoot` is a method the caller invokes between
  ticks, and `Tick` takes the held keys as a parameter.
- The steering of `updateSwarmHog`, `updateStraglerHog` and `updateEliteHog`: the `atan2`
  heading, the gradual turn, the wander angle, the elite zigzag, the stragler's wander and
  flocking turn. The turned heading and its unit vector are parameters of `NextHog`.
- Angles.NormalizeAngle: its result is not fed into `NextHog`, because the turn it feeds is
  itself an input there.
- HogBehavior.NextHog: reads no other hog. The flocking turn reads the other hogs, but it
  only changes the heading, which is an input.
- Game.HogInvaders.UpdateHogs: the random target pick of a swarm or stragler hog is an input.
  A hog reads no other hog, so the moves of the hogs before it in the same pass do not
  affect it (they would only through the flocking turn).
- The cosmetic animation: `animatePlayer`, `animateChild` and the rotations. `animatePlayer`
  also shifts the player's y by its breathing and walking bob (game.js:1100, 1156). That
  shift is not modelled, so `MovePlayer` and `Muzzle` see the position `updatePlayer`
  leaves.
- The hog and child bobs are included, as sine values passed in.
- Square roots, `Math.random`, `Math.sin`, `Math.cos` and `Math.atan2`: their values are
  parameters. `SensesChildren`, `SensesHogs`, `SensesTick`, `IsRootOf`, `IsDraw` and
  `IsChildDraws` say which values are legal.
- Floating-point rounding: numbers are exact reals, and `Math.PI` is its printed decimal.
- The hog wave's spawn positions and extra random fields: they come from trigonometric
  formations. The wave is a constructor parameter, constrained by `IsWave` (kinds, speed
  ranges, no target, the stragler delay).
- The draws `createChildren` makes for `bobPhase` and `animationOffset`.
- The obstacle's random rotation.
- Per-hog phases (`walkPhase`, `wanderAngle`, `zigzagPhase`).
- A hog's target is a child's id. The source holds the child object itself, so a hog whose
  child was eaten keeps steering towards the eaten child's last position. In the model
  this shows only through the kept target, because the direction is an input. For the
  same reason `SensesChildren` ties the target distances to a position only while the
  target child is still in the list; for an eaten target they are free.
- Combat.Resolve: it is the corrected behaviour (see Findings). The class methods implement
  it; the as-written behaviour is `Combat.ResolveAsWritten`.

## Findings

| source | as written | input that shows it | evidently intended | confidence | as-written member | corrected member |
|---|---|---|---|---|---|---|
| game.js:1049 | `killHog` ends by calling `this.createDeathEffect`, which the class does not define (it defines `createBonePile`). So every kill throws a TypeError after the hog was spliced out, the squeal requested and the score raised. In `checkCollisions` the throw leaves the method: the other bullets, the capture pass, the despawn and both game-over tests are skipped for that frame, along with the render. | A bullet inside one hog while a second hog stands on a child: the capture is skipped. Two bullets inside two hogs: only one hog dies that frame, and the other bullet stays inside its hog. | `killHog` completes (for example by calling `createBonePile`), so `checkCollisions` runs all its passes every frame. | not executed | Combat.ResolveAsWritten (with Combat.AsWrittenSkipsCapture and Combat.AsWrittenKillsOnePerTick) | Combat.Resolve (with Combat.ResolveLeavesNoContact and Game.HogInvaders.CheckCollisions) |
