/** Points, squared distances and the clamp the game applies to keep things on the field.
    Distances are compared through their squares: for r >= 0, d < r holds exactly when d*d < r*r. */
module Geometry {
  import opened Options

  /** A point (or displacement) in the arena: x across, y up the screen, z towards the camera. */
  datatype Vec3 = Vec3(x: real, y: real, z: real)

  /** A point or direction in the ground plane. */
  datatype Vec2 = Vec2(x: real, y: real)

  /** Math.PI, as the decimal that JavaScript prints for it. */
  const PI: real := 3.141592653589793

  function Add(a: Vec3, b: Vec3): Vec3 {
    Vec3(a.x + b.x, a.y + b.y, a.z + b.z)
  }

  /** Square of the Euclidean distance in space (three.js `distanceTo`, squared). */
  function Dist2(a: Vec3, b: Vec3): real {
    (a.x - b.x) * (a.x - b.x) + (a.y - b.y) * (a.y - b.y) + (a.z - b.z) * (a.z - b.z)
  }

  /** Square of the distance in the x/y plane. */
  function FlatDist2(a: Vec3, b: Vec2): real {
    (a.x - b.x) * (a.x - b.x) + (a.y - b.y) * (a.y - b.y)
  }

  /** `d` is what Math.sqrt returns for the squared distance `d2`. */
  predicate IsRootOf(d: real, d2: real) {
    d >= 0.0 && d * d == d2
  }

  /** `Math.max(lo, Math.min(hi, v))`. */
  function Clamp(lo: real, hi: real, v: real): (r: real)
    requires lo <= hi
    ensures lo <= r <= hi
    ensures lo <= v <= hi ==> r == v
    ensures v < lo ==> r == lo
    ensures v > hi ==> r == hi
  {
    if v > hi then hi else if v < lo then lo else v
  }

  /** Squares preserve the order of non-negative distances, so each threshold test
      `distance < r` of the game can be made on squared distances. */
  lemma {:induction false} SquaresKeepOrder(d: real, r: real)
    requires d >= 0.0 && r >= 0.0
    ensures d < r <==> d * d < r * r
  {
    var m := d * r;
    if d < r {
      assert d * d <= m;
      assert m < r * r;
    } else {
      assert r * r <= m;
      assert m <= d * d;
    }
  }

  /** Square roots keep the order of the squares they are roots of. */
  lemma RootsKeepOrder(d: real, d2: real, e: real, e2: real)
    requires IsRootOf(d, d2) && IsRootOf(e, e2)
    ensures d < e <==> d2 < e2
    ensures d <= e <==> d2 <= e2
  {
    SquaresKeepOrder(d, e);
    SquaresKeepOrder(e, d);
  }

  /** A root compared with a non-negative threshold: the same test on squares. */
  lemma RootBelow(d: real, d2: real, r: real)
    requires IsRootOf(d, d2) && r >= 0.0
    ensures d < r <==> d2 < r * r
    ensures d > r <==> d2 > r * r
  {
    SquaresKeepOrder(d, r);
    SquaresKeepOrder(r, d);
  }

  /** The `forEach` scan that keeps the entity at the smallest distance, replacing it only on
      a strictly smaller one (the running minimum starts at Infinity): the earliest index of
      the minimum, or None when there is nothing to scan. */
  function Nearest(ds: seq<real>): (r: Option<nat>)
    ensures r.None? <==> ds == []
    ensures r.Some? ==> r.value < |ds| && forall k :: 0 <= k < |ds| ==> ds[r.value] <= ds[k]
    ensures r.Some? ==> forall k :: 0 <= k < r.value ==> ds[r.value] < ds[k]
  {
    if ds == [] then None
    else
      var n := |ds| - 1;
      var best := Nearest(ds[..n]);
      if best.None? || ds[n] < ds[best.value] then Some(n) else best
  }

  /** A sine-like factor in [-1, 1] times a non-negative amplitude stays within the amplitude. */
  lemma {:induction false} WithinAmplitude(w: real, a: real)
    requires -1.0 <= w <= 1.0 && a >= 0.0
    ensures -a <= w * a <= a
  {
    if w >= 0.0 {
      assert w * a <= 1.0 * a;
    } else {
      assert (-w) * a <= 1.0 * a;
    }
  }

  lemma {:induction false} PositiveProduct(x: real, y: real)
    requires x > 0.0 && y > 0.0
    ensures x * y > 0.0
  {
  }

  /** A product with two positive factors is zero only when the third factor is. */
  lemma {:induction false} ZeroFactor(a: real, f: real, g: real)
    requires f > 0.0 && g > 0.0 && a * f * g == 0.0
    ensures a == 0.0
  {
    if a > 0.0 {
      PositiveProduct(a, f);
      PositiveProduct(a * f, g);
    } else if a < 0.0 {
      PositiveProduct(-a, f);
      PositiveProduct(-a * f, g);
    }
  }

  /** A displacement `(fx, fy)` of length `fd > 0` written as `fd` times `(ux, uy)`:
      `(ux, uy)` is a unit vector, agreeing in sign with the displacement component by
      component, whose dot product with the displacement is the length. */
  lemma {:induction false} UnitDirection(fx: real, fy: real, fd: real, ux: real, uy: real)
    requires fd > 0.0 && fd * fd == fx * fx + fy * fy
    requires fx == ux * fd && fy == uy * fd
    ensures ux * ux + uy * uy == 1.0
    ensures ux * fx >= 0.0 && uy * fy >= 0.0
    ensures ux * fx + uy * fy == fd
  {
    assert (ux * ux + uy * uy - 1.0) * fd * fd == 0.0;
    ZeroFactor(ux * ux + uy * uy - 1.0, fd, fd);
    assert ux * fx == ux * ux * fd;
    assert uy * fy == uy * uy * fd;
  }

  /** Dividing a displacement by its length (the game's normalisation) gives a unit vector
      pointing the same way. */
  lemma {:induction false} Normalized(fx: real, fy: real, fd: real)
    requires fd > 0.0 && fd * fd == fx * fx + fy * fy
    ensures (fx / fd) * (fx / fd) + (fy / fd) * (fy / fd) == 1.0
    ensures (fx / fd) * fx >= 0.0 && (fy / fd) * fy >= 0.0
    ensures (fx / fd) * fx + (fy / fd) * fy == fd
  {
    UnitDirection(fx, fy, fd, fx / fd, fy / fd);
  }

  /** Scaling a direction scales its squared length by the square of the factor. */
  lemma {:induction false} ScaledLength(ux: real, uy: real, k: real)
    ensures (ux * k) * (ux * k) + (uy * k) * (uy * k) == (ux * ux + uy * uy) * (k * k)
  {
  }

  /** A step of length `speed` along the normalised displacement `(dx, dy)` of length `m`:
      it has length `speed` and covers `speed` of the way towards the end of the displacement. */
  lemma {:induction false} StepAlong(dx: real, dy: real, m: real, speed: real)
    requires m > 0.0 && m * m == dx * dx + dy * dy
    ensures (dx / m * speed) * (dx / m * speed) + (dy / m * speed) * (dy / m * speed) == speed * speed
    ensures (dx / m * speed) * dx + (dy / m * speed) * dy == speed * m
  {
    Normalized(dx, dy, m);
    ScaledLength(dx / m, dy / m, speed);
    assert (dx / m * speed) * dx + (dy / m * speed) * dy == speed * ((dx / m) * dx + (dy / m) * dy);
  }

  /** Scaling a unit vector by `k` gives a vector of squared length `k * k`. */
  lemma {:induction false} ScaledUnit(ux: real, uy: real, k: real)
    requires ux * ux + uy * uy == 1.0
    ensures (ux * k) * (ux * k) + (uy * k) * (uy * k) == k * k
  {
    assert (ux * k) * (ux * k) + (uy * k) * (uy * k) - k * k == (ux * ux + uy * uy - 1.0) * k * k;
  }

  /** Equal numbers have equal squares. */
  lemma SameSquare(a: real, b: real)
    requires a == b
    ensures a * a == b * b
  {
  }

  /** A reach in [1, 4) has its square in [1, 16). */
  lemma {:induction false} ReachSquare(k: real)
    requires 1.0 <= k < 4.0
    ensures 1.0 <= k * k < 16.0
  {
    assert k * k >= 1.0 * k;
    assert k * k < 4.0 * k;
  }

  /** A unit vector scaled by a reach in [1, 4) has squared length in [1, 16). */
  lemma {:induction false} ScaledUnitWithin(ux: real, uy: real, k: real)
    requires ux * ux + uy * uy == 1.0
    requires 1.0 <= k < 4.0
    ensures 1.0 <= (ux * k) * (ux * k) + (uy * k) * (uy * k) < 16.0
  {
    ScaledUnit(ux, uy, k);
    ReachSquare(k);
  }
}
