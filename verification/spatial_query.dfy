/** The spatial query contract (src/Flop.Core/Spatial/ISpatialQueryEngine.cs),
    stated over the grid's enumeration of its actors (GetAll). The queries
    are declared by the interface without an implementation; their meaning
    here is the one the interface documents: inclusive box and range tests
    by Euclidean distance (independent of the cell length), the nearest
    actors in ascending order of distance, and the actors hit by a ray in
    ascending order of the hit parameter. Actors carry no bounding box of
    their own, so the ray queries take the box of each actor as a
    parameter. */
module SpatialQueries {
  import opened Numerics
  import opened Outcomes
  import opened BoundingBoxes
  import opened UniqueIds
  import opened Actors
  import opened SpatialExtensions
  import opened Rays
  import SpatialHashGrids

  /** An actor with the key it is ordered by: its squared distance or its
      ray parameter. */
  type Keyed = (Actor, real)

  predicate SortedByKey(s: seq<Keyed>) {
    forall i, j :: 0 <= i < j < |s| ==> s[i].1 <= s[j].1
  }

  /** A key no larger than any in a sorted list may go in front of it. */
  lemma SortedCons(x: Keyed, s: seq<Keyed>)
    requires SortedByKey(s)
    requires forall i :: 0 <= i < |s| ==> x.1 <= s[i].1
    ensures SortedByKey([x] + s)
  {
    var r := [x] + s;
    forall i, j | 0 <= i < j < |r|
      ensures r[i].1 <= r[j].1
    {
      assert r[j] == s[j - 1];
      if i > 0 {
        assert r[i] == s[i - 1];
      }
    }
  }

  /** Inserts x before the first entry whose key is not smaller. */
  function Insert(x: Keyed, s: seq<Keyed>): (r: seq<Keyed>)
    requires SortedByKey(s)
    ensures SortedByKey(r)
    ensures multiset(r) == multiset(s) + multiset{x}
  {
    if s == [] then [x]
    else if x.1 <= s[0].1 then
      SortedCons(x, s);
      [x] + s
    else
      var rest := Insert(x, s[1..]);
      assert s == [s[0]] + s[1..];
      InsertKeysAbove(x, s, rest);
      SortedCons(s[0], rest);
      [s[0]] + rest
  }

  /** What is inserted after the head of a sorted list has a key no smaller
      than the head's. */
  lemma InsertKeysAbove(x: Keyed, s: seq<Keyed>, rest: seq<Keyed>)
    requires SortedByKey(s) && s != [] && s[0].1 < x.1
    requires multiset(rest) == multiset(s[1..]) + multiset{x}
    ensures forall i :: 0 <= i < |rest| ==> s[0].1 <= rest[i].1
  {
    forall i | 0 <= i < |rest|
      ensures s[0].1 <= rest[i].1
    {
      assert rest[i] in multiset(s[1..]) + multiset{x};
    }
  }

  /** Stable insertion sort on the key. */
  function SortByKey(s: seq<Keyed>): (r: seq<Keyed>)
    ensures SortedByKey(r)
    ensures multiset(r) == multiset(s)
  {
    if s == [] then []
    else
      assert s == [s[0]] + s[1..];
      Insert(s[0], SortByKey(s[1..]))
  }

  function Firsts(s: seq<Keyed>): (r: seq<Actor>)
    ensures |r| == |s| && forall i :: 0 <= i < |s| ==> r[i] == s[i].0
  {
    seq(|s|, i requires 0 <= i < |s| => s[i].0)
  }

  lemma FirstsAppend(s: seq<Keyed>, t: seq<Keyed>)
    ensures Firsts(s + t) == Firsts(s) + Firsts(t)
  {
  }

  /** Taking one entry out of a keyed list takes its actor out of the actors. */
  lemma FirstsRemove(t: seq<Keyed>, j: int)
    requires 0 <= j < |t|
    ensures multiset(Firsts(t)) == multiset{t[j].0} + multiset(Firsts(t[..j] + t[j + 1..]))
  {
    assert t == t[..j] + [t[j]] + t[j + 1..];
    FirstsAppend(t[..j] + [t[j]], t[j + 1..]);
    FirstsAppend(t[..j], [t[j]]);
    FirstsAppend(t[..j], t[j + 1..]);
  }

  /** The actors of a prefix are among the actors of the whole list. */
  lemma FirstsPrefix(s: seq<Keyed>, k: nat)
    requires k <= |s|
    ensures multiset(Firsts(s[..k])) <= multiset(Firsts(s))
  {
    assert s == s[..k] + s[k..];
    FirstsAppend(s[..k], s[k..]);
  }

  /** The actors of a prefix are exactly the first entries' actors. */
  lemma FirstsPrefixIndex(s: seq<Keyed>, k: nat)
    requires k <= |s|
    ensures forall i :: 0 <= i < k ==> s[i].0 in Firsts(s[..k])
    ensures forall a :: a in Firsts(s[..k]) ==> exists i :: 0 <= i < k && s[i].0 == a
  {
    var r := Firsts(s[..k]);
    assert forall i :: 0 <= i < k ==> r[i] == s[i].0;
  }

  /** Reordering the keyed entries reorders their actors: the actors, with
      their multiplicities, depend only on the multiset of entries. */
  lemma {:induction false} FirstsMultiset(s: seq<Keyed>, t: seq<Keyed>)
    requires multiset(s) == multiset(t)
    ensures multiset(Firsts(s)) == multiset(Firsts(t))
    decreases |s|
  {
    if s == [] {
      assert |t| == |multiset(t)| == 0;
    } else {
      assert s[0] in multiset(t);
      var j :| 0 <= j < |t| && t[j] == s[0];
      var rest := t[..j] + t[j + 1..];
      assert t == t[..j] + [t[j]] + t[j + 1..];
      assert s == [s[0]] + s[1..];
      assert multiset(s[1..]) == multiset(s) - multiset{s[0]};
      assert multiset(rest) == multiset(t) - multiset{s[0]};
      FirstsMultiset(s[1..], rest);
      FirstsRemove(s, 0);
      assert s[..0] + s[1..] == s[1..];
      FirstsRemove(t, j);
    }
  }

  /** GetInside: the actors whose position the box contains, faces included. */
  function GetInside(actors: seq<Actor>, box: AxisAlignedBoundingBox): (r: seq<Actor>)
    ensures forall a :: a in r <==> a in actors && box.Contains(a.position)
    ensures |r| <= |actors|
  {
    if actors == [] then []
    else
      var init, last := actors[..|actors| - 1], actors[|actors| - 1];
      assert actors == init + [last];
      GetInside(init, box) + (if box.Contains(last.position) then [last] else [])
  }

  /** GetInside keeps every occurrence of an actor inside the box and drops
      every occurrence of one outside it. */
  lemma {:induction false} GetInsideMultiplicity(actors: seq<Actor>, box: AxisAlignedBoundingBox, a: Actor)
    ensures multiset(GetInside(actors, box))[a] == if box.Contains(a.position) then multiset(actors)[a] else 0
  {
    if actors != [] {
      var init, last := actors[..|actors| - 1], actors[|actors| - 1];
      assert actors == init + [last];
      GetInsideMultiplicity(init, box, a);
    }
  }

  /** GetInRange: the actors at Euclidean distance at most range from the
      position. */
  function GetInRange(actors: seq<Actor>, position: Vec3, range: real): (r: seq<Actor>)
    ensures forall a :: a in r <==> a in actors && WithinDistance(a.position, position, range)
    ensures |r| <= |actors|
  {
    if actors == [] then []
    else
      var init, last := actors[..|actors| - 1], actors[|actors| - 1];
      assert actors == init + [last];
      GetInRange(init, position, range) + (if WithinDistance(last.position, position, range) then [last] else [])
  }

  /** GetInRange keeps every occurrence of an actor in range and drops every
      occurrence of one out of range. */
  lemma {:induction false} GetInRangeMultiplicity(actors: seq<Actor>, position: Vec3, range: real, a: Actor)
    ensures multiset(GetInRange(actors, position, range))[a] ==
            if WithinDistance(a.position, position, range) then multiset(actors)[a] else 0
  {
    if actors != [] {
      var init, last := actors[..|actors| - 1], actors[|actors| - 1];
      assert actors == init + [last];
      GetInRangeMultiplicity(init, position, range, a);
    }
  }

  /** The range query distributes over concatenation of enumerations. */
  lemma {:induction false} GetInRangeAppend(a: seq<Actor>, b: seq<Actor>, position: Vec3, range: real)
    ensures GetInRange(a + b, position, range) == GetInRange(a, position, range) + GetInRange(b, position, range)
    decreases |b|
  {
    if b == [] {
      assert a + b == a;
    } else {
      var init, last := b[..|b| - 1], b[|b| - 1];
      assert (a + b)[..|a + b| - 1] == a + init;
      assert (a + b)[|a + b| - 1] == last;
      GetInRangeAppend(a, init, position, range);
    }
  }

  /** CountInRange: the number of actors GetInRange yields. */
  function CountInRange(actors: seq<Actor>, position: Vec3, range: real): (n: nat)
    ensures n == |GetInRange(actors, position, range)|
    ensures n <= |actors|
    ensures n == 0 <==> forall a :: a in actors ==> !WithinDistance(a.position, position, range)
  {
    var inRange := GetInRange(actors, position, range);
    assert inRange != [] ==> inRange[0] in inRange;
    |inRange|
  }

  /** AnyInRange: whether GetInRange yields anything. */
  function AnyInRange(actors: seq<Actor>, position: Vec3, range: real): (b: bool)
    ensures b <==> exists a :: a in actors && WithinDistance(a.position, position, range)
    ensures b <==> CountInRange(actors, position, range) > 0
  {
    var inRange := GetInRange(actors, position, range);
    assert inRange != [] ==> inRange[0] in inRange;
    inRange != []
  }

  /** The range query over a single actor. */
  lemma GetInRangeSingle(a: Actor, position: Vec3, range: real)
    ensures GetInRange([a], position, range) == if WithinDistance(a.position, position, range) then [a] else []
  {
    assert [a][..0] == [];
  }

  /** Counting over two enumerations adds their counts: each actor in range
      is counted once per occurrence. */
  lemma CountInRangeAppend(a: seq<Actor>, b: seq<Actor>, position: Vec3, range: real)
    ensures CountInRange(a + b, position, range) == CountInRange(a, position, range) + CountInRange(b, position, range)
  {
    GetInRangeAppend(a, b, position, range);
  }

  /** A single actor is counted once when in range and not at all otherwise. */
  lemma CountInRangeSingle(a: Actor, position: Vec3, range: real)
    ensures CountInRange([a], position, range) == if WithinDistance(a.position, position, range) then 1 else 0
  {
    GetInRangeSingle(a, position, range);
  }

  /** Three actors within range 10 of the origin and one 50 away are
      counted as three. */
  lemma CountInRangeThreeOfFour(ids: seq<Identity>)
    requires |ids| == 4
    ensures CountInRange([Actor(ids[0], Vec3(1.0, 0.0, 0.0)), Actor(ids[1], Vec3(2.0, 0.0, 0.0)),
                          Actor(ids[2], Vec3(3.0, 0.0, 0.0)), Actor(ids[3], Vec3(50.0, 0.0, 0.0))],
                         Vec3(0.0, 0.0, 0.0), 10.0) == 3
  {
    var o := Vec3(0.0, 0.0, 0.0);
    var a0, a1, a2, a3 := Actor(ids[0], Vec3(1.0, 0.0, 0.0)), Actor(ids[1], Vec3(2.0, 0.0, 0.0)),
                          Actor(ids[2], Vec3(3.0, 0.0, 0.0)), Actor(ids[3], Vec3(50.0, 0.0, 0.0));
    assert DistSq(a0.position, o) == 1.0 && DistSq(a1.position, o) == 4.0;
    assert DistSq(a2.position, o) == 9.0 && DistSq(a3.position, o) == 2500.0;
    CountInRangeSingle(a0, o, 10.0);
    CountInRangeSingle(a1, o, 10.0);
    CountInRangeSingle(a2, o, 10.0);
    CountInRangeSingle(a3, o, 10.0);
    assert [a0] + [a1] == [a0, a1] && [a0, a1] + [a2] == [a0, a1, a2];
    assert [a0, a1, a2] + [a3] == [a0, a1, a2, a3];
    CountInRangeAppend([a0], [a1], o, 10.0);
    CountInRangeAppend([a0, a1], [a2], o, 10.0);
    CountInRangeAppend([a0, a1, a2], [a3], o, 10.0);
  }

  /** The actors in range, each keyed by its squared distance. */
  function InRangeByDistance(actors: seq<Actor>, position: Vec3, maxRange: real): (r: seq<Keyed>)
    ensures forall k :: k in r <==>
      k.0 in actors && WithinDistance(k.0.position, position, maxRange) && k.1 == DistSq(k.0.position, position)
    ensures |r| == |GetInRange(actors, position, maxRange)|
  {
    if actors == [] then []
    else
      var init, last := actors[..|actors| - 1], actors[|actors| - 1];
      assert actors == init + [last];
      InRangeByDistance(init, position, maxRange)
        + (if WithinDistance(last.position, position, maxRange)
           then [(last, DistSq(last.position, position))] else [])
  }

  /** Keying by distance keeps the range query's actors in its order. */
  lemma {:induction false} InRangeByDistanceFirsts(actors: seq<Actor>, position: Vec3, maxRange: real)
    ensures Firsts(InRangeByDistance(actors, position, maxRange)) == GetInRange(actors, position, maxRange)
  {
    if actors != [] {
      var init, last := actors[..|actors| - 1], actors[|actors| - 1];
      assert actors == init + [last];
      var front := InRangeByDistance(init, position, maxRange);
      var back := if WithinDistance(last.position, position, maxRange)
                  then [(last, DistSq(last.position, position))] else [];
      FirstsAppend(front, back);
      InRangeByDistanceFirsts(init, position, maxRange);
    }
  }

  /** The number of entries GetNearest takes: count, at most the number
      available, and none for a count that is not positive. */
  function TakeCount(count: int, available: nat): (k: nat)
    ensures k <= available
    ensures count <= 0 ==> k == 0
    ensures count > 0 ==> k <= count && (k == count || k == available)
  {
    if count <= 0 then 0 else if count < available then count else available
  }

  /** The in-range actors sorted by distance, ties in enumeration order. */
  function NearestOrder(actors: seq<Actor>, position: Vec3, maxRange: real): (r: seq<Keyed>)
    ensures SortedByKey(r)
    ensures |r| == |GetInRange(actors, position, maxRange)|
    ensures forall i :: 0 <= i < |r| ==>
      r[i].0 in actors && WithinDistance(r[i].0.position, position, maxRange)
      && r[i].1 == DistSq(r[i].0.position, position)
  {
    var keyed := InRangeByDistance(actors, position, maxRange);
    var r := SortByKey(keyed);
    assert |r| == |multiset(r)| == |multiset(keyed)| == |keyed|;
    assert forall i :: 0 <= i < |r| ==> r[i] in multiset(keyed);
    r
  }

  /** Sorting by distance reorders the in-range actors and nothing more. */
  lemma NearestOrderActors(actors: seq<Actor>, position: Vec3, maxRange: real)
    ensures multiset(Firsts(NearestOrder(actors, position, maxRange))) == multiset(GetInRange(actors, position, maxRange))
  {
    var keyed := InRangeByDistance(actors, position, maxRange);
    FirstsMultiset(NearestOrder(actors, position, maxRange), keyed);
    InRangeByDistanceFirsts(actors, position, maxRange);
  }

  /** GetNearest(position, maxRange, count): at most count actors, all in
      range, in ascending order of distance. */
  function GetNearest(actors: seq<Actor>, position: Vec3, maxRange: real, count: int): (r: seq<Actor>)
    ensures |r| == TakeCount(count, |GetInRange(actors, position, maxRange)|)
    ensures forall a :: a in r ==> a in actors && WithinDistance(a.position, position, maxRange)
    ensures forall i, j :: 0 <= i < j < |r| ==> DistSq(r[i].position, position) <= DistSq(r[j].position, position)
  {
    var sorted := NearestOrder(actors, position, maxRange);
    var k := TakeCount(count, |sorted|);
    Firsts(sorted[..k])
  }

  /** GetNearest returns each in-range actor at most as often as the range
      query does: no actor is repeated beyond its own occurrences. */
  lemma GetNearestSubMultiset(actors: seq<Actor>, position: Vec3, maxRange: real, count: int)
    ensures multiset(GetNearest(actors, position, maxRange, count)) <= multiset(GetInRange(actors, position, maxRange))
  {
    var sorted := NearestOrder(actors, position, maxRange);
    var k := TakeCount(count, |sorted|);
    FirstsPrefix(sorted, k);
    NearestOrderActors(actors, position, maxRange);
  }

  /** Every in-range actor is in the distance order, keyed by its distance. */
  lemma NearestOrderHas(actors: seq<Actor>, position: Vec3, maxRange: real, b: Actor)
    requires b in actors && WithinDistance(b.position, position, maxRange)
    ensures (b, DistSq(b.position, position)) in NearestOrder(actors, position, maxRange)
  {
    var keyed := InRangeByDistance(actors, position, maxRange);
    assert (b, DistSq(b.position, position)) in keyed;
    assert (b, DistSq(b.position, position)) in multiset(NearestOrder(actors, position, maxRange));
  }

  /** No in-range actor left out by GetNearest is strictly closer than one
      it returns. */
  lemma GetNearestClosest(actors: seq<Actor>, position: Vec3, maxRange: real, count: int, b: Actor)
    requires b in actors && WithinDistance(b.position, position, maxRange)
    requires b !in GetNearest(actors, position, maxRange, count)
    ensures forall a :: a in GetNearest(actors, position, maxRange, count) ==>
      DistSq(a.position, position) <= DistSq(b.position, position)
  {
    NearestOrderHas(actors, position, maxRange, b);
    var sorted := NearestOrder(actors, position, maxRange);
    var k := TakeCount(count, |sorted|);
    var r := GetNearest(actors, position, maxRange, count);
    assert r == Firsts(sorted[..k]);
    FirstsPrefixIndex(sorted, k);
    var j :| 0 <= j < |sorted| && sorted[j] == (b, DistSq(b.position, position));
    assert k <= j;
    forall a | a in r
      ensures DistSq(a.position, position) <= DistSq(b.position, position)
    {
      var i :| 0 <= i < k && sorted[i].0 == a;
      assert sorted[i].1 <= sorted[j].1;
    }
  }

  /** GetNearest(position, maxRange): the closest actor in range, or none
      when no actor is in range. */
  function GetNearestOne(actors: seq<Actor>, position: Vec3, maxRange: real): (r: Option<Actor>)
    ensures r.None? <==> forall a :: a in actors ==> !WithinDistance(a.position, position, maxRange)
    ensures r.Some? ==> r.value in actors && WithinDistance(r.value.position, position, maxRange)
    ensures r.Some? ==> forall b :: b in actors && WithinDistance(b.position, position, maxRange) ==>
      DistSq(r.value.position, position) <= DistSq(b.position, position)
  {
    var nearest := GetNearest(actors, position, maxRange, 1);
    var inRange := GetInRange(actors, position, maxRange);
    assert inRange != [] ==> inRange[0] in inRange;
    if nearest == [] then None
    else
      assert forall b :: b in actors && WithinDistance(b.position, position, maxRange) ==>
        DistSq(nearest[0].position, position) <= DistSq(b.position, position) by {
        forall b | b in actors && WithinDistance(b.position, position, maxRange)
          ensures DistSq(nearest[0].position, position) <= DistSq(b.position, position)
        {
          if b != nearest[0] {
            GetNearestClosest(actors, position, maxRange, 1, b);
          }
        }
      }
      Some(nearest[0])
  }

  /** The actors whose box the ray hits, each keyed by its hit parameter. */
  function HitsByParameter(actors: seq<Actor>, bounds: Actor -> AxisAlignedBoundingBox,
                           origin: Vec3, direction: Vec3, maxDistance: real): (r: seq<Keyed>)
    ensures forall k :: k in r <==>
      k.0 in actors && Hit(bounds(k.0), origin, direction, maxDistance) == Some(k.1)
  {
    if actors == [] then []
    else
      var init, last := actors[..|actors| - 1], actors[|actors| - 1];
      assert actors == init + [last];
      var hit := Hit(bounds(last), origin, direction, maxDistance);
      HitsByParameter(init, bounds, origin, direction, maxDistance)
        + (if hit.Some? then [(last, hit.value)] else [])
  }

  /** Each occurrence of an actor the ray meets yields one entry; an actor
      it misses yields none. */
  lemma {:induction false} HitsByParameterMultiplicity(actors: seq<Actor>, bounds: Actor -> AxisAlignedBoundingBox,
                                                       origin: Vec3, direction: Vec3, maxDistance: real, a: Actor)
    ensures multiset(Firsts(HitsByParameter(actors, bounds, origin, direction, maxDistance)))[a] ==
            if Hit(bounds(a), origin, direction, maxDistance).Some? then multiset(actors)[a] else 0
  {
    if actors != [] {
      var init, last := actors[..|actors| - 1], actors[|actors| - 1];
      assert actors == init + [last];
      var hit := Hit(bounds(last), origin, direction, maxDistance);
      var front := HitsByParameter(init, bounds, origin, direction, maxDistance);
      var back := if hit.Some? then [(last, hit.value)] else [];
      assert HitsByParameter(actors, bounds, origin, direction, maxDistance) == front + back;
      FirstsAppend(front, back);
      HitsByParameterMultiplicity(init, bounds, origin, direction, maxDistance, a);
    }
  }

  /** The hits sorted by parameter, ties in enumeration order. */
  function HitOrder(actors: seq<Actor>, bounds: Actor -> AxisAlignedBoundingBox,
                    origin: Vec3, direction: Vec3, maxDistance: real): (r: seq<Keyed>)
    ensures SortedByKey(r)
    ensures forall k :: k in r <==>
      k.0 in actors && Hit(bounds(k.0), origin, direction, maxDistance) == Some(k.1)
  {
    var keyed := HitsByParameter(actors, bounds, origin, direction, maxDistance);
    var r := SortByKey(keyed);
    assert forall k :: k in r <==> k in multiset(keyed);
    r
  }

  /** RaycastAll: the actors whose box the ray meets within maxDistance, in
      ascending order of the parameter at which it enters each box (see
      RaycastAllOrdered). */
  function RaycastAll(actors: seq<Actor>, bounds: Actor -> AxisAlignedBoundingBox,
                      origin: Vec3, direction: Vec3, maxDistance: real): (r: seq<Actor>)
    ensures forall a :: a in r <==> a in actors && Hit(bounds(a), origin, direction, maxDistance).Some?
  {
    var sorted := HitOrder(actors, bounds, origin, direction, maxDistance);
    var r := Firsts(sorted);
    assert forall a :: a in r <==> a in actors && Hit(bounds(a), origin, direction, maxDistance).Some? by {
      forall a | a in r
        ensures a in actors && Hit(bounds(a), origin, direction, maxDistance).Some?
      {
        var i :| 0 <= i < |r| && r[i] == a;
        assert sorted[i] in sorted;
      }
      forall a | a in actors && Hit(bounds(a), origin, direction, maxDistance).Some?
        ensures a in r
      {
        var hit := Hit(bounds(a), origin, direction, maxDistance);
        assert (a, hit.value) in sorted;
        var i :| 0 <= i < |sorted| && sorted[i] == (a, hit.value);
        assert r[i] == a;
      }
    }
    r
  }

  /** RaycastAll keeps every occurrence of an actor the ray meets and no
      occurrence of one it misses. */
  lemma RaycastAllMultiplicity(actors: seq<Actor>, bounds: Actor -> AxisAlignedBoundingBox,
                               origin: Vec3, direction: Vec3, maxDistance: real, a: Actor)
    ensures multiset(RaycastAll(actors, bounds, origin, direction, maxDistance))[a] ==
            if Hit(bounds(a), origin, direction, maxDistance).Some? then multiset(actors)[a] else 0
  {
    var keyed := HitsByParameter(actors, bounds, origin, direction, maxDistance);
    FirstsMultiset(HitOrder(actors, bounds, origin, direction, maxDistance), keyed);
    HitsByParameterMultiplicity(actors, bounds, origin, direction, maxDistance, a);
  }

  /** RaycastAll lists the actors in ascending order of their hit parameter. */
  lemma RaycastAllOrdered(actors: seq<Actor>, bounds: Actor -> AxisAlignedBoundingBox,
                          origin: Vec3, direction: Vec3, maxDistance: real, i: int, j: int)
    requires 0 <= i < j < |RaycastAll(actors, bounds, origin, direction, maxDistance)|
    ensures var r := RaycastAll(actors, bounds, origin, direction, maxDistance);
      Hit(bounds(r[i]), origin, direction, maxDistance).Some?
      && Hit(bounds(r[j]), origin, direction, maxDistance).Some?
      && Hit(bounds(r[i]), origin, direction, maxDistance).value
         <= Hit(bounds(r[j]), origin, direction, maxDistance).value
  {
    var sorted := HitOrder(actors, bounds, origin, direction, maxDistance);
    assert sorted[i] in sorted && sorted[j] in sorted;
  }

  /** Every actor RaycastAll returns is met by the ray at a parameter in
      [0, maxDistance]: none lies behind the origin. Every actor whose box
      holds a point of the ray in that range is returned. */
  lemma RaycastAllSoundComplete(actors: seq<Actor>, bounds: Actor -> AxisAlignedBoundingBox,
                                origin: Vec3, direction: Vec3, maxDistance: real, a: Actor)
    ensures a in RaycastAll(actors, bounds, origin, direction, maxDistance) ==>
      exists t :: 0.0 <= t <= maxDistance && bounds(a).Contains(PointAt(origin, direction, t))
    ensures a in actors && (exists t :: 0.0 <= t <= maxDistance && bounds(a).Contains(PointAt(origin, direction, t))) ==>
      a in RaycastAll(actors, bounds, origin, direction, maxDistance)
  {
    HitSound(bounds(a), origin, direction, maxDistance);
    if a in actors && exists t :: 0.0 <= t <= maxDistance && bounds(a).Contains(PointAt(origin, direction, t)) {
      var t :| 0.0 <= t <= maxDistance && bounds(a).Contains(PointAt(origin, direction, t));
      HitComplete(bounds(a), origin, direction, maxDistance, t);
    }
  }

  /** Raycast: the first actor RaycastAll yields, or none. It is hit no
      later than any other actor the ray meets. */
  function Raycast(actors: seq<Actor>, bounds: Actor -> AxisAlignedBoundingBox,
                   origin: Vec3, direction: Vec3, maxDistance: real): (r: Option<Actor>)
    ensures r.None? <==> forall a :: a in actors ==> Hit(bounds(a), origin, direction, maxDistance).None?
    ensures r.Some? ==> r.value in actors && Hit(bounds(r.value), origin, direction, maxDistance).Some?
    ensures r.Some? ==> forall b :: b in actors && Hit(bounds(b), origin, direction, maxDistance).Some? ==>
      Hit(bounds(r.value), origin, direction, maxDistance).value
      <= Hit(bounds(b), origin, direction, maxDistance).value
  {
    var all := RaycastAll(actors, bounds, origin, direction, maxDistance);
    if all == [] then None
    else
      assert all[0] in all;
      assert forall b :: b in actors && Hit(bounds(b), origin, direction, maxDistance).Some? ==>
        Hit(bounds(all[0]), origin, direction, maxDistance).value
        <= Hit(bounds(b), origin, direction, maxDistance).value by {
        forall b | b in actors && Hit(bounds(b), origin, direction, maxDistance).Some?
          ensures Hit(bounds(all[0]), origin, direction, maxDistance).value
                  <= Hit(bounds(b), origin, direction, maxDistance).value
        {
          var j :| 0 <= j < |all| && all[j] == b;
          if j > 0 {
            RaycastAllOrdered(actors, bounds, origin, direction, maxDistance, 0, j);
          }
        }
      }
      Some(all[0])
  }

  /** A ray that starts inside an actor's box returns an actor hit at once. */
  lemma RaycastFromInside(actors: seq<Actor>, bounds: Actor -> AxisAlignedBoundingBox,
                          origin: Vec3, direction: Vec3, maxDistance: real, a: Actor)
    requires a in actors && maxDistance >= 0.0 && bounds(a).Contains(origin)
    ensures Raycast(actors, bounds, origin, direction, maxDistance).Some?
    ensures Hit(bounds(Raycast(actors, bounds, origin, direction, maxDistance).value),
                origin, direction, maxDistance) == Some(0.0)
  {
    HitFromInside(bounds(a), origin, direction, maxDistance);
    var r := Raycast(actors, bounds, origin, direction, maxDistance).value;
    HitSound(bounds(r), origin, direction, maxDistance);
  }

  /** The range query does not depend on the cell length: with cells of
      length 50, an actor at (100, 0, 100) sits two cells away from the
      origin, outside the 3 x 3 block GetActorsNear searches, yet lies
      within range 150 of it; an actor at (200, 0, 200) does not. */
  lemma InRangeBeyondNeighbourCells(ids: seq<Identity>)
    requires |ids| == 3
    ensures var actors := [Actor(ids[0], Vec3(0.0, 0.0, 0.0)), Actor(ids[1], Vec3(100.0, 0.0, 100.0)),
                           Actor(ids[2], Vec3(200.0, 0.0, 200.0))];
      var r := GetInRange(actors, Vec3(0.0, 0.0, 0.0), 150.0);
      GetCell(actors[1], 50.0) == Cell(2, 2) && GetCell(actors[0], 50.0) == Cell(0, 0)
      && actors[0] in r && actors[1] in r && actors[2] !in r
  {
    var a1 := Actor(ids[1], Vec3(100.0, 0.0, 100.0));
    GetCellBounds(a1, 50.0, Cell(2, 2));
    GetCellBounds(Actor(ids[0], Vec3(0.0, 0.0, 0.0)), 50.0, Cell(0, 0));
  }

  /** GetNearest(position, maxRange) asked twice of an unchanged grid: both
      answers are the nearest query over the grid's enumeration, which
      depends on the grid's state alone, so they agree even when several
      actors are equally near. */
  method NearestConsistent(grid: SpatialHashGrids.SpatialHashGrid, position: Vec3, maxRange: real)
    returns (first: Option<Actor>, second: Option<Actor>)
    requires grid.Valid()
    ensures first == second
    ensures first == GetNearestOne(SpatialHashGrids.Enumeration(grid.cellToActors), position, maxRange)
  {
    var all := grid.GetAll();
    first := GetNearestOne(all, position, maxRange);
    var again := grid.GetAll();
    second := GetNearestOne(again, position, maxRange);
  }
}
