/** Vector arithmetic over reals standing in for System.Numerics.Vector3 (float
    rounding is not modelled), and the floor division shared by the cell and
    terrain-chunk coordinate functions. */
module Numerics {

  datatype Vec3 = Vec3(x: real, y: real, z: real)

  function Min(a: real, b: real): real { if a <= b then a else b }
  function Max(a: real, b: real): real { if a >= b then a else b }

  function Add(a: Vec3, b: Vec3): Vec3 { Vec3(a.x + b.x, a.y + b.y, a.z + b.z) }
  function Sub(a: Vec3, b: Vec3): Vec3 { Vec3(a.x - b.x, a.y - b.y, a.z - b.z) }
  function Scale(k: real, v: Vec3): Vec3 { Vec3(k * v.x, k * v.y, k * v.z) }

  /** Vector3.Min and Vector3.Max: componentwise. */
  function MinV(a: Vec3, b: Vec3): Vec3 { Vec3(Min(a.x, b.x), Min(a.y, b.y), Min(a.z, b.z)) }
  function MaxV(a: Vec3, b: Vec3): Vec3 { Vec3(Max(a.x, b.x), Max(a.y, b.y), Max(a.z, b.z)) }

  /** Componentwise a <= b. */
  predicate LeV(a: Vec3, b: Vec3) { a.x <= b.x && a.y <= b.y && a.z <= b.z }

  /** Square of the Euclidean distance in 3D; comparing squares avoids the root. */
  function DistSq(a: Vec3, b: Vec3): (d: real)
    ensures d >= 0.0
  {
    var dx, dy, dz := a.x - b.x, a.y - b.y, a.z - b.z;
    dx * dx + dy * dy + dz * dz
  }

  /** Euclidean distance <= r, stated without a square root: a negative range
      admits nothing, since a distance is never negative. */
  predicate WithinDistance(a: Vec3, b: Vec3, r: real) {
    r >= 0.0 && DistSq(a, b) <= r * r
  }

  /** (int)MathF.Floor(a / l): floor division, not truncation. */
  function FloorDiv(a: real, l: real): int
    requires l != 0.0
  {
    (a / l).Floor
  }

  /** For l > 0, a / l <= t exactly when a <= t * l. */
  lemma DivLeIff(a: real, l: real, t: real)
    requires l > 0.0
    ensures a / l <= t <==> a <= t * l
    ensures t <= a / l <==> t * l <= a
    ensures a / l < t <==> a < t * l
  {
    assert (a / l) * l == a;
    if a / l <= t {
      assert (a / l) * l <= t * l;
    }
    if a <= t * l {
      assert a / l <= (t * l) / l;
    }
    if t <= a / l {
      assert t * l <= (a / l) * l;
    }
    if t * l <= a {
      assert (t * l) / l <= a / l;
    }
    if a / l < t {
      assert (a / l) * l < t * l;
    }
    if a < t * l {
      assert a / l < (t * l) / l;
    }
  }

  /** a lies in the half-open slot [k * l, (k + 1) * l). */
  predicate InSlot(a: real, l: real, k: int) {
    k as real * l <= a < (k + 1) as real * l
  }

  /** k is the floor of a / l exactly when a lies in [k * l, (k + 1) * l). */
  lemma FloorDivBounds(a: real, l: real, k: int)
    requires l > 0.0
    ensures FloorDiv(a, l) == k <==> InSlot(a, l, k)
  {
    DivLeIff(a, l, k as real);
    DivLeIff(a, l, (k + 1) as real);
  }

  /** Two values at most l apart fall in floor-division slots at most one apart. */
  lemma FloorDivNeighbour(a: real, b: real, l: real)
    requires l > 0.0
    requires -l <= a - b <= l
    ensures -1 <= FloorDiv(a, l) - FloorDiv(b, l) <= 1
  {
    var u, v := a / l, b / l;
    assert v * l == b;
    DivLeIff(a, l, v + 1.0);
    DivLeIff(a, l, v - 1.0);
    assert (v + 1.0) * l == b + l && (v - 1.0) * l == b - l;
    assert v - 1.0 <= u <= v + 1.0;
  }

  /** Squaring is strictly increasing on the non-negative reals. */
  lemma SquareStrict(y: real, x: real)
    ensures 0.0 <= y < x ==> y * y < x * x
  {
    if 0.0 <= y < x {
      var e := x - y;
      assert x * x == y * y + 2.0 * y * e + e * e;
      assert e * e > 0.0 && y * e >= 0.0;
    }
  }

  /** |d| <= r follows from d * d <= r * r when r is not negative. */
  lemma SquareBound(d: real, r: real)
    requires r >= 0.0 && d * d <= r * r
    ensures -r <= d <= r
  {
    SquareStrict(r, d);
    SquareStrict(r, -d);
    assert (-d) * (-d) == d * d;
  }

  /** Each coordinate of a point within distance r differs by at most r. */
  lemma WithinDistanceAxes(a: Vec3, b: Vec3, r: real)
    requires WithinDistance(a, b, r)
    ensures -r <= a.x - b.x <= r && -r <= a.y - b.y <= r && -r <= a.z - b.z <= r
  {
    var dx, dy, dz := a.x - b.x, a.y - b.y, a.z - b.z;
    assert DistSq(a, b) == dx * dx + dy * dy + dz * dz;
    assert dx * dx >= 0.0 && dy * dy >= 0.0 && dz * dz >= 0.0;
    assert dx * dx <= dx * dx + dy * dy + dz * dz <= r * r;
    assert dy * dy <= dx * dx + dy * dy + dz * dz <= r * r;
    assert dz * dz <= dx * dx + dy * dy + dz * dz <= r * r;
    SquareBound(dx, r);
    SquareBound(dy, r);
    SquareBound(dz, r);
  }
}
