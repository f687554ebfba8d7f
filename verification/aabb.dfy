/** AxisAlignedBoundingBox (src/Flop.Core/Geometry/AxisAlignedBoundingBox.cs):
    a box given by its minimum and maximum corners, with inclusive
    containment, overlap, union and the constructors from a centre or from a
    point set. */
module BoundingBoxes {
  import opened Numerics
  import opened Outcomes

  datatype AxisAlignedBoundingBox = AxisAlignedBoundingBox(min: Vec3, max: Vec3)
  {
    /** (Min + Max) / 2: the point as far from Min as from Max. */
    function Center(): (c: Vec3)
      ensures Sub(c, min) == Sub(max, c)
    {
      Scale(0.5, Add(min, max))
    }

    /** Max - Min: the offset that carries Min to Max. */
    function Size(): (s: Vec3)
      ensures Add(min, s) == max
    {
      Sub(max, min)
    }

    /** Size / 2: the offset from the centre to either corner. */
    function Extents(): (e: Vec3)
      ensures Sub(Center(), e) == min && Add(Center(), e) == max
    {
      Scale(0.5, Size())
    }

    /** Inclusive on all six faces: p lies between the corners on every
        axis, which only a well-formed box allows. */
    predicate Contains(p: Vec3)
      ensures Contains(p) <==> LeV(min, p) && LeV(p, max)
      ensures Contains(p) ==> WellFormed()
    {
      p.x >= min.x && p.x <= max.x
      && p.y >= min.y && p.y <= max.y
      && p.z >= min.z && p.z <= max.z
    }

    /** Overlap on every axis, faces included. For well-formed boxes it holds
        exactly when the componentwise maximum of the minima lies in both. */
    predicate Intersects(other: AxisAlignedBoundingBox)
      ensures WellFormed() && other.WellFormed() ==>
        (Intersects(other) <==> Contains(MaxV(min, other.min)) && other.Contains(MaxV(min, other.min)))
    {
      min.x <= other.max.x && max.x >= other.min.x
      && min.y <= other.max.y && max.y >= other.min.y
      && min.z <= other.max.z && max.z >= other.min.z
    }

    /** Min <= Max on every axis: a box that contains at least one point. */
    predicate WellFormed() { LeV(min, max) }
  }

  function FromCenterAndSize(center: Vec3, size: Vec3): (r: AxisAlignedBoundingBox)
    ensures r.Center() == center && r.Size() == size
  {
    var half := Scale(0.5, size);
    AxisAlignedBoundingBox(Sub(center, half), Add(center, half))
  }

  function FromCenterAndExtents(center: Vec3, extents: Vec3): (r: AxisAlignedBoundingBox)
    ensures r.Center() == center && r.Extents() == extents
  {
    AxisAlignedBoundingBox(Sub(center, extents), Add(center, extents))
  }

  /** The smallest box holding both: componentwise min of the minima and max of
      the maxima. */
  function Union(a: AxisAlignedBoundingBox, b: AxisAlignedBoundingBox): (r: AxisAlignedBoundingBox)
    ensures a.WellFormed() || b.WellFormed() ==> r.WellFormed()
    ensures a.WellFormed() ==> r.Contains(a.min) && r.Contains(a.max)
    ensures b.WellFormed() ==> r.Contains(b.min) && r.Contains(b.max)
    ensures LeV(r.min, a.min) && LeV(r.min, b.min) && LeV(a.max, r.max) && LeV(b.max, r.max)
  {
    AxisAlignedBoundingBox(MinV(a.min, b.min), MaxV(a.max, b.max))
  }

  /** A well-formed box contains both of its corners and its centre: the
      faces belong to the box. */
  lemma ContainsCornersAndCenter(b: AxisAlignedBoundingBox)
    ensures b.WellFormed() <==> b.Contains(b.min)
    ensures b.WellFormed() <==> b.Contains(b.max)
    ensures b.WellFormed() ==> b.Contains(b.Center())
  {
  }

  /** Every point of either box lies in their union. */
  lemma UnionContains(a: AxisAlignedBoundingBox, b: AxisAlignedBoundingBox, p: Vec3)
    requires a.Contains(p) || b.Contains(p)
    ensures Union(a, b).Contains(p)
  {
  }

  /** Union is commutative. */
  lemma UnionCommutative(a: AxisAlignedBoundingBox, b: AxisAlignedBoundingBox)
    ensures Union(a, b) == Union(b, a)
  {
  }

  /** Union is the smallest box holding both: any box containing the corners
      of a and b contains the corners of their union. */
  lemma UnionSmallest(a: AxisAlignedBoundingBox, b: AxisAlignedBoundingBox, c: AxisAlignedBoundingBox)
    requires c.Contains(a.min) && c.Contains(a.max) && c.Contains(b.min) && c.Contains(b.max)
    ensures c.Contains(Union(a, b).min) && c.Contains(Union(a, b).max)
  {
  }

  /** Intersects is symmetric. */
  lemma IntersectsSymmetric(a: AxisAlignedBoundingBox, b: AxisAlignedBoundingBox)
    ensures a.Intersects(b) <==> b.Intersects(a)
  {
  }

  /** For well-formed boxes, Intersects holds exactly when some point lies in
      both, a point on a shared face included: boxes that only touch intersect. */
  lemma IntersectsIffCommonPoint(a: AxisAlignedBoundingBox, b: AxisAlignedBoundingBox)
    requires a.WellFormed() && b.WellFormed()
    ensures a.Intersects(b) <==> exists p :: a.Contains(p) && b.Contains(p)
  {
    if a.Intersects(b) {
      var p := MaxV(a.min, b.min);
      assert a.Contains(p) && b.Contains(p);
    }
  }

  /** Every coordinate of both corners is the coordinate of some point: the
      box is no larger than the points demand. */
  predicate CornersAttained(points: seq<Vec3>, b: AxisAlignedBoundingBox) {
    (exists i :: 0 <= i < |points| && points[i].x == b.min.x)
    && (exists i :: 0 <= i < |points| && points[i].y == b.min.y)
    && (exists i :: 0 <= i < |points| && points[i].z == b.min.z)
    && (exists i :: 0 <= i < |points| && points[i].x == b.max.x)
    && (exists i :: 0 <= i < |points| && points[i].y == b.max.y)
    && (exists i :: 0 <= i < |points| && points[i].z == b.max.z)
  }

  /** The smallest box containing every point; ArgumentException when there
      are none. */
  method FromPoints(points: seq<Vec3>) returns (r: Outcome<AxisAlignedBoundingBox>)
    ensures r.Threw? <==> |points| == 0
    ensures r.Threw? ==> r.error == ArgumentException
    ensures r.Done? ==> r.value.WellFormed()
    ensures r.Done? ==> forall i :: 0 <= i < |points| ==> r.value.Contains(points[i])
    ensures r.Done? ==> CornersAttained(points, r.value)
    ensures |points| == 1 ==> r == Done(AxisAlignedBoundingBox(points[0], points[0]))
  {
    if |points| == 0 {
      return Threw(ArgumentException);
    }
    var lo, hi := points[0], points[0];
    var i := 0;
    while i < |points|
      invariant 0 <= i <= |points|
      invariant LeV(lo, hi)
      invariant forall j :: 0 <= j < i ==> AxisAlignedBoundingBox(lo, hi).Contains(points[j])
      invariant i <= 1 ==> lo == points[0] && hi == points[0]
      invariant CornersAttained(points, AxisAlignedBoundingBox(lo, hi))
    {
      var p := points[i];
      lo := MinV(lo, p);
      hi := MaxV(hi, p);
      i := i + 1;
    }
    r := Done(AxisAlignedBoundingBox(lo, hi));
  }

  /** A box built from one point has zero size. */
  lemma SinglePointSize(p: Vec3)
    ensures AxisAlignedBoundingBox(p, p).Size() == Vec3(0.0, 0.0, 0.0)
    ensures AxisAlignedBoundingBox(p, p).Contains(p)
  {
  }
}
