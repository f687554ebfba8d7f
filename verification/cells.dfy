/** The grid's cell arithmetic and bucket insertion
    (src/Flop.Core/Spatial/Extensions.cs). A cell is the pair of floors of
    an actor's X and Z coordinates divided by the cell length. */
module SpatialExtensions {
  import opened Numerics
  import opened UniqueIds
  import opened Actors
  import opened MapSums

  datatype Cell = Cell(x: int, z: int)

  /** GetCell: (floor(X / cellLength), floor(Z / cellLength)). */
  function GetCell(actor: Actor, cellLength: real): (r: Cell)
    requires cellLength != 0.0
    ensures cellLength > 0.0 ==> InSlot(actor.position.x, cellLength, r.x) && InSlot(actor.position.z, cellLength, r.z)
  {
    var r := Cell(FloorDiv(actor.position.x, cellLength), FloorDiv(actor.position.z, cellLength));
    if cellLength > 0.0 then
      FloorDivBounds(actor.position.x, cellLength, r.x);
      FloorDivBounds(actor.position.z, cellLength, r.z);
      r
    else r
  }

  /** An actor lies in cell c exactly when its X lies in [c.x * L, (c.x + 1) * L)
      and its Z in [c.z * L, (c.z + 1) * L). */
  lemma GetCellBounds(actor: Actor, cellLength: real, c: Cell)
    requires cellLength > 0.0
    ensures GetCell(actor, cellLength) == c <==>
      (c.x as real * cellLength <= actor.position.x < (c.x + 1) as real * cellLength
       && c.z as real * cellLength <= actor.position.z < (c.z + 1) as real * cellLength)
  {
    FloorDivBounds(actor.position.x, cellLength, c.x);
    FloorDivBounds(actor.position.z, cellLength, c.z);
  }

  /** The height of an actor plays no part in its cell. */
  lemma GetCellIgnoresY(actor: Actor, y: real, cellLength: real)
    requires cellLength != 0.0
    ensures GetCell(actor.(position := actor.position.(y := y)), cellLength) == GetCell(actor, cellLength)
  {
  }

  /** Floor, not truncation toward zero: X = -0.5 with cell length 10 is in
      column -1, not column 0. */
  lemma GetCellNegativeCoordinate(id: Identity)
    ensures GetCell(Actor(id, Vec3(-0.5, 0.0, 0.5)), 10.0) == Cell(-1, 0)
  {
    GetCellBounds(Actor(id, Vec3(-0.5, 0.0, 0.5)), 10.0, Cell(-1, 0));
  }

  /** Two actors at most one cell length apart on X and on Z sit in cells
      that differ by at most one on each axis, so a 3 x 3 block of cells
      around one holds the other. */
  lemma GetCellNeighbour(a: Actor, b: Actor, cellLength: real)
    requires cellLength > 0.0
    requires -cellLength <= a.position.x - b.position.x <= cellLength
    requires -cellLength <= a.position.z - b.position.z <= cellLength
    ensures -1 <= GetCell(a, cellLength).x - GetCell(b, cellLength).x <= 1
    ensures -1 <= GetCell(a, cellLength).z - GetCell(b, cellLength).z <= 1
  {
    FloorDivNeighbour(a.position.x, b.position.x, cellLength);
    FloorDivNeighbour(a.position.z, b.position.z, cellLength);
  }

  /** The AddActor extension: a missing cell gets a one-actor bucket, an
      existing bucket gets the actor appended at its end, and every other
      bucket is left alone. */
  function AddActor(buckets: map<Cell, seq<Actor>>, actor: Actor, cellLength: real)
    : (r: map<Cell, seq<Actor>>)
    requires cellLength != 0.0
    ensures r.Keys == buckets.Keys + {GetCell(actor, cellLength)}
    ensures GetCell(actor, cellLength) !in buckets ==> r[GetCell(actor, cellLength)] == [actor]
    ensures GetCell(actor, cellLength) in buckets ==>
      r[GetCell(actor, cellLength)] == buckets[GetCell(actor, cellLength)] + [actor]
    ensures forall c :: c in buckets && c != GetCell(actor, cellLength) ==> r[c] == buckets[c]
  {
    var cell := GetCell(actor, cellLength);
    buckets[cell := if cell in buckets then buckets[cell] + [actor] else [actor]]
  }

  /** AddActor adds exactly one entry to the buckets. */
  lemma AddActorTotal(buckets: map<Cell, seq<Actor>>, actor: Actor, cellLength: real)
    requires cellLength != 0.0
    ensures Total(AddActor(buckets, actor, cellLength)) == Total(buckets) + 1
  {
    var cell := GetCell(actor, cellLength);
    TotalUpdate(buckets, cell, AddActor(buckets, actor, cellLength)[cell]);
    assert AddActor(buckets, actor, cellLength) == buckets[cell := AddActor(buckets, actor, cellLength)[cell]];
  }
}
