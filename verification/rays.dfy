/** Where a ray first meets an axis-aligned box, by the slab method: on each
    axis the ray parameter t is narrowed to the span in which the point lies
    between the box's faces on that axis. The ray is o + t * d for t in
    [0, maxDistance]; a ray that starts inside the box hits it at t = 0. */
module Rays {
  import opened Numerics
  import opened Outcomes
  import opened BoundingBoxes

  function PointAt(o: Vec3, d: Vec3, t: real): Vec3 {
    Add(o, Scale(t, d))
  }

  /** On one axis the point o + t * d lies between the faces lo and hi. */
  predicate OnSlab(lo: real, hi: real, o: real, d: real, t: real) {
    lo <= o + t * d <= hi
  }

  /** The closed span [enter, exit] of ray parameters; empty when enter > exit. */
  datatype Span = Span(enter: real, exit: real)
  {
    predicate Holds(t: real) { enter <= t <= exit }
  }

  /** Narrows a span to the parameters at which the ray is between lo and hi.
      A ray parallel to the faces keeps the span when it runs between them
      and has no parameter left otherwise. The faces are ordered by the sign
      of d, so a box with lo > hi leaves nothing. */
  function ClipAxis(s: Span, lo: real, hi: real, o: real, d: real): Span {
    if d == 0.0 then
      if lo <= o <= hi then s else Span(s.enter, s.enter - 1.0)
    else if d > 0.0 then
      Span(Max(s.enter, (lo - o) / d), Min(s.exit, (hi - o) / d))
    else
      Span(Max(s.enter, (hi - o) / d), Min(s.exit, (lo - o) / d))
  }

  /** A parameter survives the clipping exactly when it was in the span and
      puts the point between the faces. */
  lemma ClipAxisHolds(s: Span, lo: real, hi: real, o: real, d: real, t: real)
    ensures ClipAxis(s, lo, hi, o, d).Holds(t) <==> s.Holds(t) && OnSlab(lo, hi, o, d, t)
  {
    if d > 0.0 {
      DivLeIff(lo - o, d, t);
      DivLeIff(hi - o, d, t);
    } else if d < 0.0 {
      assert (hi - o) / d == (o - hi) / -d;
      assert (lo - o) / d == (o - lo) / -d;
      DivLeIff(o - hi, -d, t);
      DivLeIff(o - lo, -d, t);
      assert t * -d == -(t * d);
    }
  }

  /** The parameters in [0, maxDistance] at which the ray is inside the box. */
  function HitSpan(box: AxisAlignedBoundingBox, o: Vec3, d: Vec3, maxDistance: real): Span {
    var sx := ClipAxis(Span(0.0, maxDistance), box.min.x, box.max.x, o.x, d.x);
    var sy := ClipAxis(sx, box.min.y, box.max.y, o.y, d.y);
    ClipAxis(sy, box.min.z, box.max.z, o.z, d.z)
  }

  lemma HitSpanHolds(box: AxisAlignedBoundingBox, o: Vec3, d: Vec3, maxDistance: real, t: real)
    ensures HitSpan(box, o, d, maxDistance).Holds(t) <==>
      0.0 <= t <= maxDistance && box.Contains(PointAt(o, d, t))
  {
    var sx := ClipAxis(Span(0.0, maxDistance), box.min.x, box.max.x, o.x, d.x);
    var sy := ClipAxis(sx, box.min.y, box.max.y, o.y, d.y);
    ClipAxisHolds(Span(0.0, maxDistance), box.min.x, box.max.x, o.x, d.x, t);
    ClipAxisHolds(sx, box.min.y, box.max.y, o.y, d.y, t);
    ClipAxisHolds(sy, box.min.z, box.max.z, o.z, d.z, t);
    ContainsOnSlabs(box, o, d, t);
  }

  /** The box contains a point of the ray exactly when the point is between
      the faces on all three axes. */
  lemma ContainsOnSlabs(box: AxisAlignedBoundingBox, o: Vec3, d: Vec3, t: real)
    ensures box.Contains(PointAt(o, d, t)) <==>
      OnSlab(box.min.x, box.max.x, o.x, d.x, t)
      && OnSlab(box.min.y, box.max.y, o.y, d.y, t)
      && OnSlab(box.min.z, box.max.z, o.z, d.z, t)
  {
  }

  /** The parameter at which the ray enters the box, or none. */
  function Hit(box: AxisAlignedBoundingBox, o: Vec3, d: Vec3, maxDistance: real): Option<real> {
    var s := HitSpan(box, o, d, maxDistance);
    if s.enter <= s.exit then Some(s.enter) else None
  }

  /** A reported hit is a point of the box reached at a parameter in
      [0, maxDistance]: nothing behind the origin or past the maximum
      distance is hit. */
  lemma HitSound(box: AxisAlignedBoundingBox, o: Vec3, d: Vec3, maxDistance: real)
    ensures Hit(box, o, d, maxDistance).Some? ==>
      var t := Hit(box, o, d, maxDistance).value;
      0.0 <= t <= maxDistance && box.Contains(PointAt(o, d, t))
  {
    HitSpanHolds(box, o, d, maxDistance, HitSpan(box, o, d, maxDistance).enter);
  }

  /** Every point of the box on the ray within [0, maxDistance] is found,
      and the reported parameter is no later than it: it is the first hit. */
  lemma HitComplete(box: AxisAlignedBoundingBox, o: Vec3, d: Vec3, maxDistance: real, t: real)
    requires 0.0 <= t <= maxDistance && box.Contains(PointAt(o, d, t))
    ensures Hit(box, o, d, maxDistance).Some? && Hit(box, o, d, maxDistance).value <= t
  {
    HitSpanHolds(box, o, d, maxDistance, t);
  }

  /** A ray starting inside the box hits it at once. */
  lemma HitFromInside(box: AxisAlignedBoundingBox, o: Vec3, d: Vec3, maxDistance: real)
    requires maxDistance >= 0.0 && box.Contains(o)
    ensures Hit(box, o, d, maxDistance) == Some(0.0)
  {
    assert PointAt(o, d, 0.0) == o;
    HitComplete(box, o, d, maxDistance, 0.0);
    HitSound(box, o, d, maxDistance);
  }

  /** A box on the ray's path ahead is hit at its near face; pointing the
      ray the other way misses it. */
  lemma HitAheadNotBehind()
    ensures Hit(AxisAlignedBoundingBox(Vec3(4.0, -1.0, -1.0), Vec3(6.0, 1.0, 1.0)),
                Vec3(0.0, 0.0, 0.0), Vec3(1.0, 0.0, 0.0), 10.0) == Some(4.0)
    ensures Hit(AxisAlignedBoundingBox(Vec3(4.0, -1.0, -1.0), Vec3(6.0, 1.0, 1.0)),
                Vec3(0.0, 0.0, 0.0), Vec3(-1.0, 0.0, 0.0), 10.0) == None
  {
    var box := AxisAlignedBoundingBox(Vec3(4.0, -1.0, -1.0), Vec3(6.0, 1.0, 1.0));
    var o := Vec3(0.0, 0.0, 0.0);
    assert ClipAxis(Span(0.0, 10.0), 4.0, 6.0, 0.0, 1.0) == Span(4.0, 6.0);
    assert ClipAxis(Span(0.0, 10.0), 4.0, 6.0, 0.0, -1.0) == Span(0.0, -4.0);
  }
}
