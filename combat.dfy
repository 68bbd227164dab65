/** Combat rules of `checkCollisions`, `shoot` and `updateBullets`, as functions on the entity
    lists. The class in module Game runs the same passes in place and is proved against these. */
module Combat {
  import opened Geometry
  import opened Options
  import opened Sequences
  import opened Entities

  /** The elongated hitbox: (dx/0.9)^2 + (dy/0.4)^2 + (dz/0.4)^2 < 1. */
  predicate BulletHits(b: Vec3, h: Hog) {
    var dx, dy, dz := b.x - h.pos.x, b.y - h.pos.y, b.z - h.pos.z;
    (dx * dx) / (0.9 * 0.9) + (dy * dy) / (0.4 * 0.4) + (dz * dz) / (0.4 * 0.4) < 1.0
  }

  /** A hog reaches a child when their distance in space is below 0.6. */
  predicate Catches(h: Hog, c: Child) {
    Dist2(h.pos, c.pos) < 0.6 * 0.6
  }

  /** A hog leaves the field (gives up) once its y drops below -4.8. */
  predicate StaysOnField(h: Hog) {
    !(h.pos.y < -4.8)
  }

  /** The fire action melees a hog at distance at most 1.5 from the player. */
  predicate InMeleeRange(player: Vec3, h: Hog) {
    Dist2(player, h.pos) <= 1.5 * 1.5
  }

  // ---------------------------------------------------------------------------------------
  // The two collision passes: a reverse scan over `outer` whose inner reverse scan over
  // `inner` stops at the first (so highest-index) match; a match removes both elements.

  /** The inner scan: the highest index of `inner` that `a` matches, or -1. */
  function LastMatch<A, B>(a: A, inner: seq<B>, hit: (A, B) -> bool): (j: int)
    ensures -1 <= j < |inner|
    ensures 0 <= j ==> hit(a, inner[j])
    ensures forall k :: j < k < |inner| ==> !hit(a, inner[k])
  {
    if inner == [] then -1
    else if hit(a, inner[|inner| - 1]) then |inner| - 1
    else LastMatch(a, inner[..|inner| - 1], hit)
  }

  /** What a pass leaves: the unmatched outer elements, the inner elements not consumed,
      and how many pairs were removed. */
  datatype Paired<A, B> = Paired(kept: seq<A>, rest: seq<B>, pairs: nat)

  /** One pass, element `|outer| - 1` first. Removing index i of `outer` leaves indices
      below i in place, so the scan simply continues on the prefix. */
  function PairOff<A, B>(outer: seq<A>, inner: seq<B>, hit: (A, B) -> bool): (r: Paired<A, B>)
    ensures |outer| == |r.kept| + r.pairs
    ensures |inner| == |r.rest| + r.pairs
    decreases |outer|
  {
    if outer == [] then Paired([], inner, 0)
    else
      var a := outer[|outer| - 1];
      var j := LastMatch(a, inner, hit);
      if j < 0 then
        var r := PairOff(outer[..|outer| - 1], inner, hit);
        Paired(r.kept + [a], r.rest, r.pairs)
      else
        var r := PairOff(outer[..|outer| - 1], RemoveAt(inner, j), hit);
        Paired(r.kept, r.rest, r.pairs + 1)
  }

  // One step of the in-place loop over `b`, a copy of `outer` whose suffix from `i + 1` on
  // holds the kept elements and whose prefix up to `i + 1` is still `outer`'s: once element
  // `i` has scanned `inner` and the pair, if any, was spliced out, the loop invariant holds
  // at `i`. `outcome` is the result of the whole pass and `pairs` the pairs already removed.

  /** The step when element `i` matched nothing: `b` and `inner` stay as they are. */
  lemma {:induction false} StepMiss<A, B>(outer: seq<A>, i: nat, b: seq<A>, inner: seq<B>, hit: (A, B) -> bool,
                                          pairs: nat, outcome: Paired<A, B>)
    requires i < |outer| && i < |b| && b[..i + 1] == outer[..i + 1]
    requires LastMatch(b[i], inner, hit) < 0
    requires var r := PairOff(outer[..i + 1], inner, hit);
      outcome == Paired(r.kept + b[i + 1..], r.rest, r.pairs + pairs)
    ensures b[..i] == outer[..i]
    ensures var r := PairOff(outer[..i], inner, hit);
      outcome == Paired(r.kept + b[i..], r.rest, r.pairs + pairs)
  {
    assert b[i] == outer[i] && b[..i] == outer[..i] by {
      assert b[..i + 1][i] == outer[..i + 1][i];
      assert b[..i] == b[..i + 1][..i] && outer[..i] == outer[..i + 1][..i];
    }
    PassMiss(outer, i, inner, hit);
    var r := PairOff(outer[..i], inner, hit);
    assert b[i..] == [outer[i]] + b[i + 1..];
    assert r.kept + [outer[i]] + b[i + 1..] == r.kept + b[i..];
  }

  /** The step when element `i` matched `inner[j]`: both are spliced out. */
  lemma {:induction false} StepHit<A, B>(outer: seq<A>, i: nat, b: seq<A>, inner: seq<B>, hit: (A, B) -> bool,
                                         pairs: nat, outcome: Paired<A, B>, j: nat)
    requires i < |outer| && i < |b| && b[..i + 1] == outer[..i + 1]
    requires j == LastMatch(b[i], inner, hit)
    requires var r := PairOff(outer[..i + 1], inner, hit);
      outcome == Paired(r.kept + b[i + 1..], r.rest, r.pairs + pairs)
    ensures RemoveAt(b, i)[..i] == outer[..i]
    ensures var r := PairOff(outer[..i], RemoveAt(inner, j), hit);
      outcome == Paired(r.kept + RemoveAt(b, i)[i..], r.rest, r.pairs + (pairs + 1))
  {
    assert b[i] == outer[i] && b[..i] == outer[..i] by {
      assert b[..i + 1][i] == outer[..i + 1][i];
      assert b[..i] == b[..i + 1][..i] && outer[..i] == outer[..i + 1][..i];
    }
    PassHit(outer, i, inner, hit, j);
    var b' := RemoveAt(b, i);
    assert b'[i..] == b[i + 1..] && b'[..i] == b[..i];
  }

  /** The step in either case: `j` is what element `i` matched (or -1), and `b'` and
      `inner'` are `b` and `inner` after the splice, if any. */
  lemma {:induction false} PassStep<A, B>(outer: seq<A>, i: nat, b: seq<A>, inner: seq<B>, hit: (A, B) -> bool,
                                          pairs: nat, outcome: Paired<A, B>, j: int, b': seq<A>, inner': seq<B>)
    requires i < |outer| && i < |b| && b[..i + 1] == outer[..i + 1]
    requires j == LastMatch(b[i], inner, hit)
    requires var r := PairOff(outer[..i + 1], inner, hit);
      outcome == Paired(r.kept + b[i + 1..], r.rest, r.pairs + pairs)
    requires j < 0 ==> b' == b && inner' == inner
    requires j >= 0 ==> b' == RemoveAt(b, i) && inner' == RemoveAt(inner, j)
    ensures i <= |b'| && b'[..i] == outer[..i]
    ensures var r := PairOff(outer[..i], inner', hit);
      outcome == Paired(r.kept + b'[i..], r.rest, r.pairs + (if j >= 0 then pairs + 1 else pairs))
  {
    if j >= 0 {
      StepHit(outer, i, b, inner, hit, pairs, outcome, j);
    } else {
      StepMiss(outer, i, b, inner, hit, pairs, outcome);
    }
  }

  /** When element `n` matches nothing, the pass over `outer[..n + 1]` keeps it last. */
  lemma {:induction false} PassMiss<A, B>(outer: seq<A>, n: nat, inner: seq<B>, hit: (A, B) -> bool)
    requires n < |outer| && LastMatch(outer[n], inner, hit) < 0
    ensures var r := PairOff(outer[..n], inner, hit);
      PairOff(outer[..n + 1], inner, hit) == Paired(r.kept + [outer[n]], r.rest, r.pairs)
  {
    assert outer[..n + 1][..n] == outer[..n];
    assert outer[..n + 1][n] == outer[n];
  }

  /** When element `n` matches `inner[j]`, the pass over `outer[..n + 1]` is one pair more
      than the pass over `outer[..n]` against `inner` without `inner[j]`. */
  lemma {:induction false} PassHit<A, B>(outer: seq<A>, n: nat, inner: seq<B>, hit: (A, B) -> bool, j: nat)
    requires n < |outer| && j == LastMatch(outer[n], inner, hit)
    ensures var r := PairOff(outer[..n], RemoveAt(inner, j), hit);
      PairOff(outer[..n + 1], inner, hit) == Paired(r.kept, r.rest, r.pairs + 1)
  {
    assert outer[..n + 1][..n] == outer[..n];
    assert outer[..n + 1][n] == outer[n];
  }

  /** A pass only removes: what is left of either list was in it before. */
  lemma {:induction false} PairOffOnlyRemoves<A, B>(outer: seq<A>, inner: seq<B>, hit: (A, B) -> bool)
    ensures multiset(PairOff(outer, inner, hit).kept) <= multiset(outer)
    ensures multiset(PairOff(outer, inner, hit).rest) <= multiset(inner)
    decreases |outer|
  {
    if outer != [] {
      var n := |outer| - 1;
      assert outer == outer[..n] + [outer[n]];
      var j := LastMatch(outer[n], inner, hit);
      if j < 0 {
        PairOffOnlyRemoves(outer[..n], inner, hit);
      } else {
        PairOffOnlyRemoves(outer[..n], RemoveAt(inner, j), hit);
      }
    }
  }

  /** The pairs a pass removes, outer element first, in the order the reverse scan removes them. */
  function Removed<A, B>(outer: seq<A>, inner: seq<B>, hit: (A, B) -> bool): (m: seq<(A, B)>)
    ensures forall k :: 0 <= k < |m| ==> hit(m[k].0, m[k].1)
    decreases |outer|
  {
    if outer == [] then []
    else
      var a := outer[|outer| - 1];
      var j := LastMatch(a, inner, hit);
      if j < 0 then Removed(outer[..|outer| - 1], inner, hit)
      else [(a, inner[j])] + Removed(outer[..|outer| - 1], RemoveAt(inner, j), hit)
  }

  function Firsts<A, B>(m: seq<(A, B)>): (r: seq<A>)
    ensures |r| == |m| && forall k :: 0 <= k < |m| ==> r[k] == m[k].0
  {
    seq(|m|, k requires 0 <= k < |m| => m[k].0)
  }

  function Seconds<A, B>(m: seq<(A, B)>): (r: seq<B>)
    ensures |r| == |m| && forall k :: 0 <= k < |m| ==> r[k] == m[k].1
  {
    seq(|m|, k requires 0 <= k < |m| => m[k].1)
  }

  /** A pass removes an element exactly when it is paired with a match: the removed pairs
      are as many as the pass counts, each outer element hits the inner element removed with
      it, and what the pass keeps of either list together with the removed elements is the
      whole list. */
  lemma {:induction false} PairOffRemovesMatches<A, B>(outer: seq<A>, inner: seq<B>, hit: (A, B) -> bool)
    ensures var r, m := PairOff(outer, inner, hit), Removed(outer, inner, hit);
      && |m| == r.pairs
      && (forall k :: 0 <= k < |m| ==> hit(m[k].0, m[k].1))
      && multiset(outer) == multiset(r.kept) + multiset(Firsts(m))
      && multiset(inner) == multiset(r.rest) + multiset(Seconds(m))
    decreases |outer|
  {
    if outer != [] {
      var n := |outer| - 1;
      var j := LastMatch(outer[n], inner, hit);
      if j < 0 {
        PairOffRemovesMatches(outer[..n], inner, hit);
        RemovesMatchesMiss(outer, inner, hit);
      } else {
        PairOffRemovesMatches(outer[..n], RemoveAt(inner, j), hit);
        RemovesMatchesHit(outer, inner, hit, j);
      }
    }
  }

  /** The step of `PairOffRemovesMatches` where the last outer element matches nothing. */
  lemma {:induction false} RemovesMatchesMiss<A, B>(outer: seq<A>, inner: seq<B>, hit: (A, B) -> bool)
    requires outer != [] && LastMatch(outer[|outer| - 1], inner, hit) < 0
    requires var n := |outer| - 1;
      var r, m := PairOff(outer[..n], inner, hit), Removed(outer[..n], inner, hit);
      && |m| == r.pairs
      && multiset(outer[..n]) == multiset(r.kept) + multiset(Firsts(m))
      && multiset(inner) == multiset(r.rest) + multiset(Seconds(m))
    ensures var r, m := PairOff(outer, inner, hit), Removed(outer, inner, hit);
      && |m| == r.pairs
      && multiset(outer) == multiset(r.kept) + multiset(Firsts(m))
      && multiset(inner) == multiset(r.rest) + multiset(Seconds(m))
  {
    var n := |outer| - 1;
    var a := outer[n];
    assert outer == outer[..n] + [a];
    var r' := PairOff(outer[..n], inner, hit);
    assert PairOff(outer, inner, hit) == Paired(r'.kept + [a], r'.rest, r'.pairs);
    assert Removed(outer, inner, hit) == Removed(outer[..n], inner, hit);
  }

  /** The step of `PairOffRemovesMatches` where the last outer element matches `inner[j]`. */
  lemma {:induction false} RemovesMatchesHit<A, B>(outer: seq<A>, inner: seq<B>, hit: (A, B) -> bool, j: nat)
    requires outer != [] && j == LastMatch(outer[|outer| - 1], inner, hit)
    requires var n := |outer| - 1;
      var r, m := PairOff(outer[..n], RemoveAt(inner, j), hit), Removed(outer[..n], RemoveAt(inner, j), hit);
      && |m| == r.pairs
      && multiset(outer[..n]) == multiset(r.kept) + multiset(Firsts(m))
      && multiset(RemoveAt(inner, j)) == multiset(r.rest) + multiset(Seconds(m))
    ensures var r, m := PairOff(outer, inner, hit), Removed(outer, inner, hit);
      && |m| == r.pairs
      && multiset(outer) == multiset(r.kept) + multiset(Firsts(m))
      && multiset(inner) == multiset(r.rest) + multiset(Seconds(m))
  {
    var n := |outer| - 1;
    var a := outer[n];
    var inner' := RemoveAt(inner, j);
    var r' := PairOff(outer[..n], inner', hit);
    var m' := Removed(outer[..n], inner', hit);
    assert PairOff(outer, inner, hit) == Paired(r'.kept, r'.rest, r'.pairs + 1);
    assert Removed(outer, inner, hit) == [(a, inner[j])] + m';
    MovedPair(outer, inner, j, r'.kept, r'.rest, m');
  }

  /** Moving the pair `(outer[n], inner[j])` from the two lists into the removed pairs. */
  lemma MovedPair<A, B>(outer: seq<A>, inner: seq<B>, j: nat, kept: seq<A>, rest: seq<B>, m: seq<(A, B)>)
    requires outer != [] && j < |inner|
    requires multiset(outer[..|outer| - 1]) == multiset(kept) + multiset(Firsts(m))
    requires multiset(RemoveAt(inner, j)) == multiset(rest) + multiset(Seconds(m))
    ensures var m' := [(outer[|outer| - 1], inner[j])] + m;
      && multiset(outer) == multiset(kept) + multiset(Firsts(m'))
      && multiset(inner) == multiset(rest) + multiset(Seconds(m'))
  {
    var n := |outer| - 1;
    var m' := [(outer[n], inner[j])] + m;
    assert outer == outer[..n] + [outer[n]];
    assert Firsts(m') == [outer[n]] + Firsts(m);
    assert Seconds(m') == [inner[j]] + Seconds(m);
    assert multiset(inner) == multiset(RemoveAt(inner, j)) + multiset{inner[j]} by {
      assert inner == inner[..j] + [inner[j]] + inner[j + 1..];
      assert RemoveAt(inner, j) == inner[..j] + inner[j + 1..];
    }
  }

  /** Every outer element a pass keeps matches none of the inner elements it leaves. */
  lemma {:induction false} PairOffSurvivorsMiss<A, B>(outer: seq<A>, inner: seq<B>, hit: (A, B) -> bool)
    ensures forall k, l :: 0 <= k < |PairOff(outer, inner, hit).kept| && 0 <= l < |PairOff(outer, inner, hit).rest| ==>
              !hit(PairOff(outer, inner, hit).kept[k], PairOff(outer, inner, hit).rest[l])
    decreases |outer|
  {
    if outer != [] {
      var n := |outer| - 1;
      var a := outer[n];
      var j := LastMatch(a, inner, hit);
      if j < 0 {
        var r' := PairOff(outer[..n], inner, hit);
        assert PairOff(outer, inner, hit) == Paired(r'.kept + [a], r'.rest, r'.pairs);
        PairOffSurvivorsMiss(outer[..n], inner, hit);
        assert forall l :: 0 <= l < |r'.rest| ==> !hit(a, r'.rest[l]) by {
          PairOffOnlyRemoves(outer[..n], inner, hit);
          forall l | 0 <= l < |r'.rest| ensures !hit(a, r'.rest[l]) {
            assert r'.rest[l] in multiset(inner);
          }
        }
        var kept := r'.kept + [a];
        forall k, l | 0 <= k < |kept| && 0 <= l < |r'.rest| ensures !hit(kept[k], r'.rest[l]) {
          if k < |r'.kept| {
            assert kept[k] == r'.kept[k];
          } else {
            assert kept[k] == a;
          }
        }
      } else {
        var inner' := RemoveAt(inner, j);
        var r' := PairOff(outer[..n], inner', hit);
        assert PairOff(outer, inner, hit) == Paired(r'.kept, r'.rest, r'.pairs + 1);
        PairOffSurvivorsMiss(outer[..n], inner', hit);
      }
    }
  }

  // ---------------------------------------------------------------------------------------
  // `checkCollisions` as a whole.

  /** The outcome of one `checkCollisions`: what is left of each list, how many hogs were
      shot, how many children were caught, and which game-over popups were raised. */
  datatype Resolution = Resolution(
    bullets: seq<Vec3>,
    hogs: seq<Hog>,
    children: seq<Child>,
    kills: nat,
    captures: nat,
    lost: bool,
    won: bool)

  /** Bullets against hogs, then hogs against children, then the lose check, then the
      despawn of hogs below the field, then the win check (two independent tests). */
  function Resolve(bullets: seq<Vec3>, hogs: seq<Hog>, children: seq<Child>): (r: Resolution)
    ensures |bullets| == |r.bullets| + r.kills
    ensures |children| == |r.children| + r.captures
    ensures |r.hogs| + r.kills + r.captures <= |hogs|
    ensures r.lost <==> r.children == []
    ensures r.won <==> r.hogs == []
  {
    var shot := PairOff(bullets, hogs, BulletHits);
    var eaten := PairOff(shot.rest, children, Catches);
    var remaining := Filter(eaten.kept, StaysOnField);
    Resolution(shot.kept, remaining, eaten.rest, shot.pairs, eaten.pairs,
               eaten.rest == [], remaining == [])
  }

  /** The requests `checkCollisions` sends out: a squeal per kill, then one per capture, then
      the lose popup, then the win popup, each carrying the score reached by then. */
  function ResolutionEvents(r: Resolution, score: int): seq<Event> {
    Squeals(r.kills) + Squeals(r.captures)
    + (if r.lost then [GameOver(ChildrenEaten, score + 10 * r.kills)] else [])
    + (if r.won then [GameOver(PlayerWon, score + 10 * r.kills)] else [])
  }

  /** After a tick no surviving bullet overlaps a surviving hog, no surviving hog is within
      capture range of a surviving child, every surviving hog is on the field, and every
      surviving hog is one of the hogs from before the tick, record unchanged (so a hog keeps
      its target even when that child was just caught by another hog). */
  lemma ResolveLeavesNoContact(bullets: seq<Vec3>, hogs: seq<Hog>, children: seq<Child>)
    ensures var r := Resolve(bullets, hogs, children);
      && (forall k, l :: 0 <= k < |r.bullets| && 0 <= l < |r.hogs| ==> !BulletHits(r.bullets[k], r.hogs[l]))
      && (forall k, l :: 0 <= k < |r.hogs| && 0 <= l < |r.children| ==> !Catches(r.hogs[k], r.children[l]))
      && (forall k :: 0 <= k < |r.hogs| ==> StaysOnField(r.hogs[k]) && r.hogs[k] in hogs)
  {
    var shot := PairOff(bullets, hogs, BulletHits);
    var eaten := PairOff(shot.rest, children, Catches);
    var remaining := Filter(eaten.kept, StaysOnField);
    PairOffSurvivorsMiss(bullets, hogs, BulletHits);
    PairOffOnlyRemoves(bullets, hogs, BulletHits);
    PairOffSurvivorsMiss(shot.rest, children, Catches);
    PairOffOnlyRemoves(shot.rest, children, Catches);
    forall k | 0 <= k < |remaining|
      ensures remaining[k] in eaten.kept && remaining[k] in shot.rest && remaining[k] in hogs
    {
      assert remaining[k] in multiset(eaten.kept);
      assert remaining[k] in multiset(shot.rest);
    }
    forall k, l | 0 <= k < |shot.kept| && 0 <= l < |remaining|
      ensures !BulletHits(shot.kept[k], remaining[l])
    {
      var m :| 0 <= m < |shot.rest| && shot.rest[m] == remaining[l];
    }
    forall k, l | 0 <= k < |remaining| && 0 <= l < |eaten.rest|
      ensures !Catches(remaining[k], eaten.rest[l])
    {
      var m :| 0 <= m < |eaten.kept| && eaten.kept[m] == remaining[k];
    }
  }

  /** With the last child gone the lose popup is raised again on every later tick, and with
      the last hog gone the win popup is; nothing in the tick stops the game. */
  lemma GameOverRepeats(bullets: seq<Vec3>, hogs: seq<Hog>, children: seq<Child>)
    ensures children == [] ==> Resolve(bullets, hogs, children).lost
    ensures hogs == [] ==> Resolve(bullets, hogs, children).won
  {
  }

  /** One hog sitting on the last child, nothing else: the capture removes both, so the lose
      popup and then the win popup are raised in the same tick. */
  lemma LastCaptureRaisesBothPopups(h: Hog, c: Child)
    requires h.pos == c.pos
    ensures var r := Resolve([], [h], [c]);
      r.lost && r.won && r.captures == 1 && r.kills == 0
      && ResolutionEvents(r, 0) == [Squeal, GameOver(ChildrenEaten, 0), GameOver(PlayerWon, 0)]
  {
    assert LastMatch(h, [c], Catches) == 0;
    assert PairOff([h], [c], Catches) == Paired([], [], 1);
    assert Filter([], StaysOnField) == [];
  }

  // ---------------------------------------------------------------------------------------
  // The bullet pass depends only on differences of positions.

  function ShiftBullets(bs: seq<Vec3>, t: Vec3): (r: seq<Vec3>)
    ensures |r| == |bs| && forall k :: 0 <= k < |bs| ==> r[k] == Add(bs[k], t)
  {
    seq(|bs|, k requires 0 <= k < |bs| => Add(bs[k], t))
  }

  function ShiftHogs(hs: seq<Hog>, t: Vec3): (r: seq<Hog>)
    ensures |r| == |hs| && forall k :: 0 <= k < |hs| ==> r[k] == hs[k].(pos := Add(hs[k].pos, t))
  {
    seq(|hs|, k requires 0 <= k < |hs| => hs[k].(pos := Add(hs[k].pos, t)))
  }

  /** The hitbox test sees only the differences of the two positions. */
  lemma HitShift(b: Vec3, h: Hog, t: Vec3)
    ensures BulletHits(Add(b, t), h.(pos := Add(h.pos, t))) == BulletHits(b, h)
  {
    var b', h' := Add(b, t), Add(h.pos, t);
    assert b'.x - h'.x == b.x - h.pos.x;
    assert b'.y - h'.y == b.y - h.pos.y;
    assert b'.z - h'.z == b.z - h.pos.z;
  }

  lemma {:induction false} LastHitShift(b: Vec3, hs: seq<Hog>, t: Vec3)
    ensures LastMatch(Add(b, t), ShiftHogs(hs, t), BulletHits) == LastMatch(b, hs, BulletHits)
  {
    if hs != [] {
      var n := |hs| - 1;
      assert ShiftHogs(hs, t)[..n] == ShiftHogs(hs[..n], t);
      HitShift(b, hs[n], t);
      LastHitShift(b, hs[..n], t);
    }
  }

  /** Moving every bullet and every hog by the same vector moves the outcome of the bullet
      pass by that vector and changes nothing else: the same bullets survive, the same hogs
      die, the same number of kills is scored. */
  lemma {:induction false} BulletPassShift(bs: seq<Vec3>, hs: seq<Hog>, t: Vec3)
    ensures var r := PairOff(bs, hs, BulletHits);
      PairOff(ShiftBullets(bs, t), ShiftHogs(hs, t), BulletHits)
        == Paired(ShiftBullets(r.kept, t), ShiftHogs(r.rest, t), r.pairs)
    decreases |bs|
  {
    if bs != [] {
      var n := |bs| - 1;
      var a := bs[n];
      var sb := ShiftBullets(bs, t);
      assert sb[..n] == ShiftBullets(bs[..n], t);
      assert sb[n] == Add(a, t);
      LastHitShift(a, hs, t);
      var j := LastMatch(a, hs, BulletHits);
      if j < 0 {
        BulletPassShiftMiss(bs, hs, t);
      } else {
        BulletPassShiftHit(bs, hs, t);
      }
    }
  }

  /** The step of `BulletPassShift` where the last bullet misses. */
  lemma {:induction false} BulletPassShiftMiss(bs: seq<Vec3>, hs: seq<Hog>, t: Vec3)
    requires bs != [] && LastMatch(bs[|bs| - 1], hs, BulletHits) < 0
    ensures var r := PairOff(bs, hs, BulletHits);
      PairOff(ShiftBullets(bs, t), ShiftHogs(hs, t), BulletHits)
        == Paired(ShiftBullets(r.kept, t), ShiftHogs(r.rest, t), r.pairs)
    decreases |bs|, 0
  {
    var n := |bs| - 1;
    var a := bs[n];
    var r' := PairOff(bs[..n], hs, BulletHits);
    var sr := PairOff(ShiftBullets(bs[..n], t), ShiftHogs(hs, t), BulletHits);
    assert PairOff(bs, hs, BulletHits) == Paired(r'.kept + [a], r'.rest, r'.pairs);
    assert PairOff(ShiftBullets(bs, t), ShiftHogs(hs, t), BulletHits) == Paired(sr.kept + [Add(a, t)], sr.rest, sr.pairs) by {
      var sb := ShiftBullets(bs, t);
      assert sb[..n] == ShiftBullets(bs[..n], t);
      assert sb[n] == Add(a, t);
      LastHitShift(a, hs, t);
    }
    BulletPassShift(bs[..n], hs, t);
    assert ShiftBullets(r'.kept + [a], t) == ShiftBullets(r'.kept, t) + [Add(a, t)];
  }

  /** The step of `BulletPassShift` where the last bullet hits a hog. */
  lemma {:induction false} BulletPassShiftHit(bs: seq<Vec3>, hs: seq<Hog>, t: Vec3)
    requires bs != [] && LastMatch(bs[|bs| - 1], hs, BulletHits) >= 0
    ensures var r := PairOff(bs, hs, BulletHits);
      PairOff(ShiftBullets(bs, t), ShiftHogs(hs, t), BulletHits)
        == Paired(ShiftBullets(r.kept, t), ShiftHogs(r.rest, t), r.pairs)
    decreases |bs|, 0
  {
    var n := |bs| - 1;
    var a := bs[n];
    var j := LastMatch(a, hs, BulletHits);
    var hs' := RemoveAt(hs, j);
    var r' := PairOff(bs[..n], hs', BulletHits);
    assert PairOff(bs, hs, BulletHits) == r'.(pairs := r'.pairs + 1);
    ShiftedHit(bs, hs, t, j);
    BulletPassShift(bs[..n], hs', t);
  }

  /** The shifted pass where the last bullet hits `hs[j]`: it hits the shifted hog `j`, so
      the shifted pass continues on the shifted lists without both. */
  lemma ShiftedHit(bs: seq<Vec3>, hs: seq<Hog>, t: Vec3, j: nat)
    requires bs != [] && j == LastMatch(bs[|bs| - 1], hs, BulletHits)
    ensures var n := |bs| - 1;
      var sr := PairOff(ShiftBullets(bs[..n], t), ShiftHogs(RemoveAt(hs, j), t), BulletHits);
      PairOff(ShiftBullets(bs, t), ShiftHogs(hs, t), BulletHits) == sr.(pairs := sr.pairs + 1)
  {
    var n := |bs| - 1;
    var sb, sh := ShiftBullets(bs, t), ShiftHogs(hs, t);
    assert sb[..n] == ShiftBullets(bs[..n], t);
    assert sb[n] == Add(bs[n], t);
    LastHitShift(bs[n], hs, t);
    assert ShiftHogs(RemoveAt(hs, j), t) == RemoveAt(sh, j);
  }

  // ---------------------------------------------------------------------------------------
  // `updateBullets` and `shoot`.

  /** One tick of a bullet's rise. */
  function Rise(b: Vec3): Vec3 {
    b.(y := b.y + 0.2)
  }

  predicate OnScreen(b: Vec3) {
    !(b.y > 6.0)
  }

  function Risen(bs: seq<Vec3>): (r: seq<Vec3>)
    ensures |r| == |bs| && forall k :: 0 <= k < |bs| ==> r[k] == Rise(bs[k])
  {
    seq(|bs|, k requires 0 <= k < |bs| => Rise(bs[k]))
  }

  /** The bullets after `updateBullets`. */
  function Advance(bs: seq<Vec3>): seq<Vec3> {
    Filter(Risen(bs), OnScreen)
  }

  /** The survivors of `updateBullets` are, in their original order, exactly the bullets whose
      risen y is at most 6, each risen by exactly 0.2. */
  lemma AdvanceExact(bs: seq<Vec3>)
    ensures var r, ix := Advance(bs), KeptPositions(Risen(bs), OnScreen, 0);
      && |r| == |ix|
      && (forall k :: 0 <= k < |ix| ==> ix[k] < |bs| && r[k] == bs[ix[k]].(y := bs[ix[k]].y + 0.2) && r[k].y <= 6.0)
      && (forall k, l :: 0 <= k < l < |ix| ==> ix[k] < ix[l])
      && (forall i :: 0 <= i < |bs| ==> (bs[i].y + 0.2 <= 6.0 <==> i in ix))
  {
    assert Risen(bs)[0..] == Risen(bs);
    FilterByPosition(Risen(bs), OnScreen, 0);
    KeptPositionsExact(Risen(bs), OnScreen, 0);
  }

  /** `Advance` taken apart at its first bullet, the way the reverse loop builds it. */
  lemma AdvanceHead(bs: seq<Vec3>)
    requires bs != []
    ensures Advance(bs) == (if OnScreen(Rise(bs[0])) then [Rise(bs[0])] else []) + Advance(bs[1..])
  {
    assert Risen(bs)[1..] == Risen(bs[1..]);
  }

  /** One step of the in-place reverse loop of `updateBullets` over `b`, a copy of `p` whose
      suffix from `i + 1` on is already advanced: raising bullet `i`, or splicing it out once
      it is off screen, extends the advanced suffix to `i`. */
  lemma {:induction false} AdvanceStep(p: seq<Vec3>, i: nat, b: seq<Vec3>, b': seq<Vec3>)
    requires i < |p| && i < |b| && b[..i + 1] == p[..i + 1] && b[i + 1..] == Advance(p[i + 1..])
    requires b' == if OnScreen(Rise(b[i])) then b[i := Rise(b[i])] else RemoveAt(b, i)
    ensures i <= |b'| && b'[..i] == p[..i] && b'[i..] == Advance(p[i..])
  {
    assert b[i] == p[i] && b[..i] == p[..i] by {
      assert b[..i + 1][i] == p[..i + 1][i];
      assert b[..i] == b[..i + 1][..i] && p[..i] == p[..i + 1][..i];
    }
    AdvanceHead(p[i..]);
    assert p[i..][0] == p[i] && p[i..][1..] == p[i + 1..];
    if OnScreen(Rise(b[i])) {
      assert b'[i..] == [Rise(b[i])] + b[i + 1..];
    } else {
      assert b'[i..] == b[i + 1..];
    }
    assert b'[..i] == b[..i];
  }

  /** The hog the fire action melees: the first one, in list order, within 1.5 of the player
      (not necessarily the nearest), or -1 when none is. */
  function MeleeTarget(hogs: seq<Hog>, player: Vec3): (k: int)
    ensures -1 <= k < |hogs|
    ensures 0 <= k ==> InMeleeRange(player, hogs[k])
    ensures forall m :: 0 <= m < |hogs| && (k < 0 || m < k) ==> !InMeleeRange(player, hogs[m])
  {
    if hogs == [] then -1
    else if InMeleeRange(player, hogs[0]) then 0
    else
      var k := MeleeTarget(hogs[1..], player);
      if k < 0 then -1 else k + 1
  }

  /** Where a fired bullet appears: half a unit above the player. */
  function Muzzle(player: Vec3): Vec3 {
    player.(y := player.y + 0.5)
  }

  // ---------------------------------------------------------------------------------------
  // `checkCollisions` as written: `killHog` ends by calling `this.createDeathEffect`, which
  // the class does not define, so the first kill throws a TypeError out of `checkCollisions`
  // after the hog was removed, the squeal requested and the score raised.

  /** Whether a bullet's inner scan finds a hog. */
  predicate HitsSomeHog(hogs: seq<Hog>, b: Vec3) {
    LastMatch(b, hogs, BulletHits) >= 0
  }

  /** `checkCollisions` when the first kill throws: the highest-index bullet that hits a hog
      removes itself and that hog and scores, and nothing after it in the method runs (no
      other bullet, no capture, no lose check, no despawn, no win check). Without a hit the
      method runs to its end as in `Resolve`. */
  function ResolveAsWritten(bullets: seq<Vec3>, hogs: seq<Hog>, children: seq<Child>): (r: Resolution)
    ensures r.kills <= 1
    ensures r.kills == 1 <==> exists k :: 0 <= k < |bullets| && HitsSomeHog(hogs, bullets[k])
    ensures r.kills == 1 ==> r.children == children && r.captures == 0 && !r.lost && !r.won
    ensures r.kills == 1 ==>
              exists i, j :: 0 <= i < |bullets| && 0 <= j < |hogs| && BulletHits(bullets[i], hogs[j])
                && (forall k :: i < k < |bullets| ==> !HitsSomeHog(hogs, bullets[k]))
                && (forall l :: j < l < |hogs| ==> !BulletHits(bullets[i], hogs[l]))
                && r.bullets == RemoveAt(bullets, i) && r.hogs == RemoveAt(hogs, j)
    ensures r.kills == 0 ==> r == Resolve(bullets, hogs, children)
  {
    var i := LastMatch(hogs, bullets, HitsSomeHog);
    if i < 0 then
      NoHitKeepsAll(bullets, hogs);
      Resolve(bullets, hogs, children)
    else
      var j := LastMatch(bullets[i], hogs, BulletHits);
      Resolution(RemoveAt(bullets, i), RemoveAt(hogs, j), children, 1, 0, false, false)
  }

  /** A bullet pass in which no bullet hits anything removes nothing. */
  lemma {:induction false} NoHitKeepsAll(bullets: seq<Vec3>, hogs: seq<Hog>)
    requires forall k :: 0 <= k < |bullets| ==> !HitsSomeHog(hogs, bullets[k])
    ensures PairOff(bullets, hogs, BulletHits) == Paired(bullets, hogs, 0)
    decreases |bullets|
  {
    if bullets != [] {
      var n := |bullets| - 1;
      NoHitKeepsAll(bullets[..n], hogs);
      assert bullets[..n] + [bullets[n]] == bullets;
    }
  }

  // Two small scenes, evaluated step by step.

  const Origin: Vec3 := Vec3(0.0, 0.0, 0.0)
  const Across: Vec3 := Vec3(4.0, 0.0, 0.0)

  /** A swarm hog without a target standing at `p`. */
  function HogAt(id: nat, p: Vec3): Hog {
    Hog(id, Swarm, p, 0.0, 0.02, None, 0.0)
  }

  /** A fresh child standing at `p`. */
  function ChildAt(p: Vec3): Child {
    Child(0, p, 0.02, p.x, p.y, 0.0, Vec2(0.0, 0.0), Vec2(0.0, -1.0), 1.0)
  }

  lemma SceneHitboxes()
    ensures BulletHits(Origin, HogAt(1, Origin)) && BulletHits(Across, HogAt(2, Across))
    ensures !BulletHits(Origin, HogAt(2, Across)) && !BulletHits(Across, HogAt(1, Origin))
    ensures Catches(HogAt(2, Across), ChildAt(Across))
  {
  }

  lemma SceneScans()
    ensures LastMatch(Origin, [HogAt(1, Origin), HogAt(2, Across)], BulletHits) == 0
    ensures LastMatch(Across, [HogAt(1, Origin), HogAt(2, Across)], BulletHits) == 1
    ensures LastMatch(Origin, [HogAt(1, Origin)], BulletHits) == 0
    ensures LastMatch(HogAt(2, Across), [ChildAt(Across)], Catches) == 0
  {
    SceneHitboxes();
    assert [HogAt(1, Origin), HogAt(2, Across)][..1] == [HogAt(1, Origin)];
  }

  /** A bullet on one hog while another hog stands on a child: as written the throwing kill
      skips the capture and the hog is left on the child; with `killHog` completing, the
      same tick resolves the capture. */
  lemma AsWrittenSkipsCapture()
    ensures var hogs, children := [HogAt(1, Origin), HogAt(2, Across)], [ChildAt(Across)];
      var written, intended := ResolveAsWritten([Origin], hogs, children), Resolve([Origin], hogs, children);
      && written.captures == 0 && written.hogs == [HogAt(2, Across)] && written.children == children
      && Catches(HogAt(2, Across), ChildAt(Across))
      && intended.captures == 1 && intended.children == []
  {
    var hogs := [HogAt(1, Origin), HogAt(2, Across)];
    SceneScans();
    SceneHitboxes();
    assert HitsSomeHog(hogs, Origin);
    assert LastMatch(hogs, [Origin], HitsSomeHog) == 0;
    assert RemoveAt(hogs, 0) == [HogAt(2, Across)];
    assert PairOff([Origin], hogs, BulletHits) == Paired([], [HogAt(2, Across)], 1);
    assert PairOff([HogAt(2, Across)], [ChildAt(Across)], Catches) == Paired([], [], 1);
  }

  /** Two bullets on two hogs: as written only the later bullet's hog dies this tick and the
      other bullet survives inside its hog; with `killHog` completing, both die. */
  lemma AsWrittenKillsOnePerTick()
    ensures var bullets, hogs := [Origin, Across], [HogAt(1, Origin), HogAt(2, Across)];
      var written, intended := ResolveAsWritten(bullets, hogs, []), Resolve(bullets, hogs, []);
      && written.kills == 1 && written.bullets == [Origin] && written.hogs == [HogAt(1, Origin)]
      && BulletHits(Origin, HogAt(1, Origin))
      && intended.kills == 2 && intended.bullets == [] && intended.hogs == []
  {
    SceneHitboxes();
    TwoShotsAsWritten();
    TwoShotsResolved();
  }

  lemma TwoShotsAsWritten()
    ensures ResolveAsWritten([Origin, Across], [HogAt(1, Origin), HogAt(2, Across)], [])
              == Resolution([Origin], [HogAt(1, Origin)], [], 1, 0, false, false)
  {
    var bullets, hogs := [Origin, Across], [HogAt(1, Origin), HogAt(2, Across)];
    SceneScans();
    assert HitsSomeHog(hogs, Across);
    assert LastMatch(hogs, bullets, HitsSomeHog) == 1;
    assert RemoveAt(hogs, 1) == [HogAt(1, Origin)];
    assert RemoveAt(bullets, 1) == [Origin];
  }

  lemma OneShotResolved()
    ensures PairOff([Origin], [HogAt(1, Origin)], BulletHits) == Paired([], [], 1)
  {
    SceneScans();
    assert [Origin][..0] == [];
    assert RemoveAt([HogAt(1, Origin)], 0) == [];
  }

  lemma TwoShotsResolved()
    ensures PairOff([Origin, Across], [HogAt(1, Origin), HogAt(2, Across)], BulletHits) == Paired([], [], 2)
  {
    var bullets, hogs := [Origin, Across], [HogAt(1, Origin), HogAt(2, Across)];
    assert LastMatch(Across, hogs, BulletHits) == 1 by {
      SceneScans();
    }
    assert bullets[..1] == [Origin];
    assert RemoveAt(hogs, 1) == [HogAt(1, Origin)];
    OneShotResolved();
  }
}
