/** SpatialHashGrid (src/Flop.Core/Spatial/SpatialHashGrid.cs): actors
    bucketed by the square cell of the X-Z plane they stand in, with a
    reverse index from identity to cell, so that the actors near one actor
    are found by looking in the 3 x 3 block of cells around it. */
module SpatialHashGrids {
  import opened Numerics
  import opened Outcomes
  import opened UniqueIds
  import opened Actors
  import opened MapSums
  import opened SpatialExtensions
  import opened GridInvariant

  /** Cells at most one apart on each axis. */
  predicate Adjacent(a: Cell, b: Cell) {
    -1 <= a.x - b.x <= 1 && -1 <= a.z - b.z <= 1
  }

  /** GetCellsNearCell: the cell and its eight neighbours, as nine distinct
      cells with the cell itself in the middle of the list. */
  function GetCellsNearCell(cell: Cell): (r: seq<Cell>)
    ensures |r| == 9 && r[4] == cell
    ensures forall i, j :: 0 <= i < j < |r| ==> r[i] != r[j]
    ensures forall c :: c in r <==> Adjacent(c, cell)
  {
    var x, z := cell.x, cell.z;
    [Cell(x + 1, z + 1), Cell(x, z + 1), Cell(x - 1, z + 1),
     Cell(x + 1, z), Cell(x, z), Cell(x - 1, z),
     Cell(x + 1, z - 1), Cell(x, z - 1), Cell(x - 1, z - 1)]
  }

  /** RemoveActor as the source writes it: Dictionary.Remove(identity, out
      cell) leaves cell at its default (0, 0) when the identity is absent,
      and then the whole bucket of that cell is removed. */
  function RemoveActorAsWritten(buckets: map<Cell, seq<Actor>>, index: map<Identity, Cell>, id: Identity)
    : (r: (map<Cell, seq<Actor>>, map<Identity, Cell>))
    ensures r.1 == index - {id}
    ensures id in index ==> r.0 == buckets - {index[id]}
    ensures id !in index ==> r.0 == buckets - {Cell(0, 0)}
  {
    var cell := if id in index then index[id] else Cell(0, 0);
    (buckets - {cell}, index - {id})
  }

  /** The bucket of a cell, or nothing when the cell has none. */
  function InCell(buckets: map<Cell, seq<Actor>>, cell: Cell): seq<Actor> {
    if cell in buckets then buckets[cell] else []
  }

  /** The actors other than id in the buckets of the given cells, cell by
      cell in the order of the list. */
  function Gather(buckets: map<Cell, seq<Actor>>, cells: seq<Cell>, id: Identity): seq<Actor> {
    if cells == [] then []
    else Gather(buckets, cells[..|cells| - 1], id) + Others(InCell(buckets, cells[|cells| - 1]), id)
  }

  /** An actor is gathered exactly when it is not id and lies in the bucket
      of one of the cells. */
  lemma {:induction false} GatherContains(buckets: map<Cell, seq<Actor>>, cells: seq<Cell>, id: Identity, a: Actor)
    ensures a in Gather(buckets, cells, id) <==>
      a.identity != id && exists c :: c in cells && a in InCell(buckets, c)
  {
    if cells != [] {
      var init, last := cells[..|cells| - 1], cells[|cells| - 1];
      GatherContains(buckets, init, id, a);
      assert cells == init + [last];
      if a.identity != id && a !in Gather(buckets, init, id) && a in InCell(buckets, last) {
        assert a in Others(InCell(buckets, last), id);
      }
    }
  }

  /** Gather over a prefix of the cells one cell longer. */
  lemma GatherSnoc(buckets: map<Cell, seq<Actor>>, cells: seq<Cell>, i: int, id: Identity)
    requires 0 <= i < |cells|
    ensures Gather(buckets, cells[..i + 1], id) ==
      Gather(buckets, cells[..i], id) + Others(InCell(buckets, cells[i]), id)
  {
    assert cells[..i + 1][..i] == cells[..i];
  }

  /** The inner loop of GetActorsNear: appends to r, in order, the entries
      of s whose identity is not id. */
  method AppendOthers(r0: seq<Actor>, s: seq<Actor>, id: Identity) returns (r: seq<Actor>)
    ensures r == r0 + Others(s, id)
  {
    r := r0;
    var j := 0;
    assert s[..0] == [];
    while j < |s|
      invariant 0 <= j <= |s|
      invariant r == r0 + Others(s[..j], id)
    {
      OthersSnoc(s, j, id);
      if s[j].identity != id {
        r := r + [s[j]];
      }
      j := j + 1;
    }
    assert s[..j] == s;
  }

  /** Removing a key and then setting it is setting it. */
  lemma RemoveThenSet<K, V>(m: map<K, V>, k: K, v: V)
    ensures (m - {k})[k := v] == m[k := v]
  {
  }

  /** Filing the next actor of a list with distinct identities keeps every
      earlier one filed under its identity. */
  lemma StoreSnoc(contents: map<Identity, Actor>, actors: seq<Actor>, i: int)
    requires DistinctIds(actors) && 0 <= i < |actors|
    requires contents.Keys == IdSet(actors[..i])
    requires forall j :: 0 <= j < i ==> actors[j].identity in contents && contents[actors[j].identity] == actors[j]
    ensures contents[actors[i].identity := actors[i]].Keys == IdSet(actors[..i + 1])
    ensures forall j :: 0 <= j <= i ==>
      actors[j].identity in contents[actors[i].identity := actors[i]]
      && contents[actors[i].identity := actors[i]][actors[j].identity] == actors[j]
  {
    IdSetSnoc(actors, i);
  }

  /** The order in which the grid enumerates its buckets: by x, then by z. */
  predicate CellNotAfter(c: Cell, d: Cell) {
    c.x < d.x || (c.x == d.x && c.z <= d.z)
  }

  /** c is the first of the cells in that order. */
  predicate IsFirstCell(c: Cell, cells: set<Cell>) {
    c in cells && forall d :: d in cells ==> CellNotAfter(c, d)
  }

  /** Every non-empty finite set of cells has a first cell, and only one. */
  lemma {:induction false} FirstCellExists(cells: set<Cell>)
    requires cells != {}
    ensures exists c :: IsFirstCell(c, cells)
    ensures forall c, d :: IsFirstCell(c, cells) && IsFirstCell(d, cells) ==> c == d
    decreases |cells|
  {
    var x :| x in cells;
    var rest := cells - {x};
    if rest == {} {
      assert cells == {x};
      assert IsFirstCell(x, cells);
    } else {
      FirstCellExists(rest);
      var c :| IsFirstCell(c, rest);
      if CellNotAfter(c, x) {
        assert IsFirstCell(c, cells);
      } else {
        forall d | d in cells
          ensures CellNotAfter(x, d)
        {
          if d != x {
            assert CellNotAfter(c, d);
          }
        }
        assert IsFirstCell(x, cells);
      }
    }
  }

  /** The grid's enumeration of a bucket map: the bucket of the first cell,
      then the enumeration of the others. A function of the map alone, so
      enumerating an unchanged grid twice gives the same sequence. */
  ghost function Enumeration(buckets: map<Cell, seq<Actor>>): seq<Actor>
    decreases |buckets|
  {
    if buckets == map[] then []
    else
      FirstCellExists(buckets.Keys);
      var c :| IsFirstCell(c, buckets.Keys);
      buckets[c] + Enumeration(buckets - {c})
  }

  /** Enumeration starts with the bucket of whichever cell is first. */
  lemma EnumerationFirst(done: seq<Actor>, buckets: map<Cell, seq<Actor>>, c: Cell)
    requires IsFirstCell(c, buckets.Keys)
    ensures (done + buckets[c]) + Enumeration(buckets - {c}) == done + Enumeration(buckets)
  {
    FirstCellExists(buckets.Keys);
  }

  class SpatialHashGrid {
    const cellLength: real
    var cellToActors: map<Cell, seq<Actor>>
    var actorNameToCell: map<Identity, Cell>
    /** The actor stored under each identity. */
    ghost var contents: map<Identity, Actor>

    /** a is the actor the grid holds for a's identity. */
    ghost predicate Stored(a: Actor)
      reads this
    {
      a.identity in contents && contents[a.identity] == a
    }

    /** The two dictionaries agree (see GridInvariant.Consistent). */
    ghost predicate Valid()
      reads this
    {
      Consistent(cellLength, cellToActors, actorNameToCell, contents)
    }

    /** Builds the grid from a list of actors with distinct identities, adding
        them one by one. */
    constructor (actors: seq<Actor>, cellLength: real)
      requires cellLength > 0.0
      requires DistinctIds(actors)
      ensures Valid()
      ensures this.cellLength == cellLength
      ensures contents.Keys == IdSet(actors)
      ensures forall i :: 0 <= i < |actors| ==> contents[actors[i].identity] == actors[i]
      ensures |contents| == |actors|
    {
      this.cellLength := cellLength;
      cellToActors := map[];
      actorNameToCell := map[];
      contents := map[];
      new;
      EmptyConsistent(cellLength);
      var i := 0;
      while i < |actors|
        invariant 0 <= i <= |actors|
        invariant Valid() && this.cellLength == cellLength
        invariant contents.Keys == IdSet(actors[..i])
        invariant forall j :: 0 <= j < i ==> actors[j].identity in contents && contents[actors[j].identity] == actors[j]
      {
        DistinctIdsFresh(actors, i);
        StoreSnoc(contents, actors, i);
        AddActor(actors[i]);
        i := i + 1;
      }
      assert actors[..i] == actors;
      DistinctIdsCount(actors);
      assert |contents.Keys| == |contents|;
    }

    /** Adds an actor whose identity the grid does not hold: its cell's bucket
        gains it (see SpatialExtensions.AddActor) and the index records
        that cell. */
    method AddActor(actor: Actor)
      requires Valid() && actor.identity !in contents
      modifies this
      ensures Valid()
      ensures contents == old(contents)[actor.identity := actor]
      ensures cellToActors == SpatialExtensions.AddActor(old(cellToActors), actor, cellLength)
      ensures actorNameToCell == old(actorNameToCell)[actor.identity := GetCell(actor, cellLength)]
    {
      var cell := GetCell(actor, cellLength);
      AddPreserves(cellLength, cellToActors, actorNameToCell, contents, actor);
      cellToActors := SpatialExtensions.AddActor(cellToActors, actor, cellLength);
      actorNameToCell := actorNameToCell[actor.identity := cell];
      contents := contents[actor.identity := actor];
    }

    /** Removes the actor with this identity, if the grid holds one: it leaves
        its bucket, which is dropped once empty, and the index. Co-located
        actors stay. An identity the grid does not hold changes nothing. */
    method RemoveActorByIdentity(id: Identity)
      requires Valid()
      modifies this
      ensures Valid()
      ensures contents == old(contents) - {id}
      ensures actorNameToCell == old(actorNameToCell) - {id}
      ensures id !in old(contents) ==> cellToActors == old(cellToActors)
      ensures id in old(contents) ==>
        cellToActors == RemoveFromBucket(old(cellToActors), old(actorNameToCell[id]), id)
      ensures id in old(contents) && old(cellToActors[actorNameToCell[id]]) == [old(contents[id])] ==>
        old(actorNameToCell[id]) !in cellToActors
    {
      if id in actorNameToCell {
        RemovePreserves(cellLength, cellToActors, actorNameToCell, contents, id);
        cellToActors := RemoveFromBucket(cellToActors, actorNameToCell[id], id);
        actorNameToCell := actorNameToCell - {id};
        contents := contents - {id};
      }
    }

    /** RemoveActor(T): removal by the actor's identity. */
    method RemoveActor(actor: Actor)
      requires Valid()
      modifies this
      ensures Valid()
      ensures contents == old(contents) - {actor.identity}
      ensures actorNameToCell == old(actorNameToCell) - {actor.identity}
      ensures actor.identity !in old(contents) ==> cellToActors == old(cellToActors)
      ensures actor.identity in old(contents) ==>
        cellToActors == RemoveFromBucket(old(cellToActors), old(actorNameToCell[actor.identity]), actor.identity)
    {
      RemoveActorByIdentity(actor.identity);
    }

    /** GetAll: every bucket's actors, one after the other, the buckets in
        the grid's cell order. Each stored actor appears exactly once. */
    method GetAll() returns (r: seq<Actor>)
      requires Valid()
      ensures r == Enumeration(cellToActors)
      ensures forall a :: a in r <==> Stored(a)
      ensures DistinctIds(r)
      ensures |r| == |contents| == Total(cellToActors)
    {
      r := [];
      var left := cellToActors;
      while left != map[]
        invariant left.Keys <= cellToActors.Keys
        invariant forall c :: c in left ==> left[c] == cellToActors[c]
        invariant |r| + Total(left) == Total(cellToActors)
        invariant forall a :: a in r <==>
          exists c :: c in cellToActors && c !in left && a in cellToActors[c]
        invariant forall a :: a in r ==> a.identity in actorNameToCell && actorNameToCell[a.identity] !in left
        invariant DistinctIds(r)
        invariant r + Enumeration(left) == Enumeration(cellToActors)
        decreases |left|
      {
        FirstCellExists(left.Keys);
        var c :| IsFirstCell(c, left.Keys);
        EnumerationFirst(r, left, c);
        var bucket := left[c];
        TotalRemove(left, c);
        DistinctIdsAppend(r, bucket);
        r := r + bucket;
        left := left - {c};
      }
      forall a | Stored(a)
        ensures a in r
      {
        assert a in cellToActors[actorNameToCell[a.identity]];
      }
      assert IdSet(r) == contents.Keys by {
        forall id | id in contents
          ensures id in IdSet(r)
        {
          assert contents[id] in r;
        }
      }
      DistinctIdsCount(r);
      assert |contents.Keys| == |contents|;
    }

    /** GetActorFromIdentity: the stored actor with that identity, found by a
        scan of the bucket its index entry names, or none. */
    method GetActorFromIdentity(identity: Identity) returns (r: Option<Actor>)
      requires Valid()
      ensures identity in contents ==> r == Some(contents[identity])
      ensures identity !in contents ==> r == None
    {
      if identity !in actorNameToCell {
        return None;
      }
      var bucket := cellToActors[actorNameToCell[identity]];
      var i := 0;
      while bucket[i].identity != identity
        invariant 0 <= i < |bucket|
        invariant contents[identity] in bucket[i..]
        decreases |bucket| - i
      {
        assert bucket[i..] == [bucket[i]] + bucket[i + 1..];
        i := i + 1;
      }
      assert bucket[i] in cellToActors[actorNameToCell[identity]];
      r := Some(bucket[i]);
    }

    /** GetActorsCurrentCell: the cell the index records for the actor's
        identity, which is the cell of the stored actor, not of the argument;
        KeyNotFoundException for an identity the grid does not hold. */
    function GetActorsCurrentCell(actor: Actor): (r: Outcome<Cell>)
      requires Valid()
      reads this
      ensures r.Threw? <==> actor.identity !in contents
      ensures r.Threw? ==> r.error == KeyNotFoundException
      ensures r.Done? ==> r.value == GetCell(contents[actor.identity], cellLength)
    {
      if actor.identity in actorNameToCell then Done(actorNameToCell[actor.identity])
      else Threw(KeyNotFoundException)
    }

    /** GetActorsInCell: the bucket of the cell, or nothing. It is empty only
        for a cell with no bucket, and holds exactly the stored actors indexed
        to the cell. */
    function GetActorsInCell(cell: Cell): (r: seq<Actor>)
      requires Valid()
      reads this
      ensures r == [] <==> cell !in cellToActors
      ensures forall a :: a in r <==> Stored(a) && actorNameToCell[a.identity] == cell
      ensures DistinctIds(r)
    {
      InCell(cellToActors, cell)
    }

    /** TryUpdateActorPosition: the actor (a newer value with a stored
        identity) moves to the cell of its position when that differs from
        the recorded cell, by a removal and an add, and the answer says
        whether it moved. In the same cell nothing changes: the stored actor
        is kept. An identity the grid does not hold is the indexer's
        KeyNotFoundException. */
    method TryUpdateActorPosition(actor: Actor) returns (r: Outcome<bool>)
      requires Valid()
      modifies this
      ensures Valid()
      ensures actor.identity !in old(contents) ==> r == Threw(KeyNotFoundException) && unchanged(this)
      ensures actor.identity in old(contents) ==>
        r == Done(old(actorNameToCell[actor.identity]) != GetCell(actor, cellLength))
      ensures r == Done(false) ==> unchanged(this)
      ensures r == Done(true) ==>
        && contents == old(contents)[actor.identity := actor]
        && actorNameToCell == old(actorNameToCell)[actor.identity := GetCell(actor, cellLength)]
        && cellToActors == SpatialExtensions.AddActor(
             RemoveFromBucket(old(cellToActors), old(actorNameToCell[actor.identity]), actor.identity),
             actor, cellLength)
    {
      var currentCell := GetActorsCurrentCell(actor);
      if currentCell.Threw? {
        return Threw(currentCell.error);
      }
      var correctCell := GetCell(actor, cellLength);
      if currentCell.value != correctCell {
        ghost var removed := RemoveFromBucket(cellToActors, currentCell.value, actor.identity);
        ghost var stored, index := contents, actorNameToCell;
        RemoveActor(actor);
        assert cellToActors == removed;
        AddActor(actor);
        RemoveThenSet(stored, actor.identity, actor);
        RemoveThenSet(index, actor.identity, correctCell);
        return Done(true);
      }
      return Done(false);
    }

    /** GetActorsNear: the actors other than the argument's identity in the
        nine cells around the argument's cell, cell by cell in the order of
        GetCellsNearCell. They are exactly the stored actors, other than the
        argument's identity, whose recorded cell is the argument's cell or
        one of its eight neighbours. */
    method GetActorsNear(actor: Actor) returns (r: seq<Actor>)
      requires Valid()
      ensures r == Gather(cellToActors, GetCellsNearCell(GetCell(actor, cellLength)), actor.identity)
      ensures forall a :: a in r <==>
        a.identity != actor.identity && Stored(a)
        && Adjacent(actorNameToCell[a.identity], GetCell(actor, cellLength))
    {
      var nearbyCells := GetCellsNearCell(GetCell(actor, cellLength));
      r := [];
      var i := 0;
      while i < |nearbyCells|
        invariant 0 <= i <= |nearbyCells|
        invariant r == Gather(cellToActors, nearbyCells[..i], actor.identity)
      {
        var actorsInCell := GetActorsInCell(nearbyCells[i]);
        r := AppendOthers(r, actorsInCell, actor.identity);
        GatherSnoc(cellToActors, nearbyCells, i, actor.identity);
        i := i + 1;
      }
      assert nearbyCells[..i] == nearbyCells;
      NearMembers(actor);
    }

    /** What GetActorsNear gathers, as a set of stored actors. */
    lemma NearMembers(actor: Actor)
      requires Valid()
      ensures forall a :: a in Gather(cellToActors, GetCellsNearCell(GetCell(actor, cellLength)), actor.identity) <==>
        a.identity != actor.identity && Stored(a)
        && Adjacent(actorNameToCell[a.identity], GetCell(actor, cellLength))
    {
      GatherMembers(GetCellsNearCell(GetCell(actor, cellLength)), actor.identity);
    }

    /** The actors Gather collects from the buckets of some cells are the
        stored actors, other than id, whose recorded cell is among them. */
    lemma GatherMembers(cells: seq<Cell>, id: Identity)
      requires Valid()
      ensures forall a :: a in Gather(cellToActors, cells, id) <==>
        a.identity != id && Stored(a) && actorNameToCell[a.identity] in cells
    {
      forall a
        ensures a in Gather(cellToActors, cells, id) <==>
          a.identity != id && Stored(a) && actorNameToCell[a.identity] in cells
      {
        GatherContains(cellToActors, cells, id, a);
        if a.identity != id && Stored(a) && actorNameToCell[a.identity] in cells {
          assert a in InCell(cellToActors, actorNameToCell[a.identity]);
        }
      }
    }

    /** Every stored actor within one cell length of the argument on X and on
        Z, other than the argument itself, is among the actors near it. */
    lemma ActorsNearComplete(actor: Actor, b: Actor)
      requires Valid() && Stored(b) && b.identity != actor.identity
      requires -cellLength <= b.position.x - actor.position.x <= cellLength
      requires -cellLength <= b.position.z - actor.position.z <= cellLength
      ensures b in Gather(cellToActors, GetCellsNearCell(GetCell(actor, cellLength)), actor.identity)
    {
      GetCellNeighbour(b, actor, cellLength);
      GatherMembers(GetCellsNearCell(GetCell(actor, cellLength)), actor.identity);
    }

    /** The 3 x 3 block covers the disc of one cell length: every other stored
        actor within Euclidean distance cellLength is found. */
    lemma ActorsNearWithinCellLength(actor: Actor, b: Actor)
      requires Valid() && Stored(b) && b.identity != actor.identity
      requires WithinDistance(b.position, actor.position, cellLength)
      ensures b in Gather(cellToActors, GetCellsNearCell(GetCell(actor, cellLength)), actor.identity)
    {
      WithinDistanceAxes(b.position, actor.position, cellLength);
      ActorsNearComplete(actor, b);
    }

    /** Removal as written breaks the index: removing one of two co-located
        actors drops the whole bucket, and the other stays indexed to a cell
        that no longer has a bucket. */
    lemma RemoveAsWrittenLosesNeighbour(a: Actor, b: Actor)
      requires Valid() && Stored(a) && Stored(b) && a.identity != b.identity
      requires actorNameToCell[a.identity] == actorNameToCell[b.identity]
      ensures var (buckets, index) := RemoveActorAsWritten(cellToActors, actorNameToCell, a.identity);
        b.identity in index && index[b.identity] !in buckets
    {
    }

    /** Removal as written of an identity the grid does not hold drops
        bucket (0, 0), losing every actor in it from the buckets. */
    lemma RemoveAsWrittenAbsentDropsOrigin(id: Identity, b: Actor)
      requires Valid() && id !in contents && Stored(b)
      requires actorNameToCell[b.identity] == Cell(0, 0)
      ensures var (buckets, index) := RemoveActorAsWritten(cellToActors, actorNameToCell, id);
        index == actorNameToCell && Cell(0, 0) !in buckets && b.identity in index
    {
    }

    /** The corrected removal keeps a co-located actor in its bucket. */
    lemma RemoveKeepsNeighbour(a: Actor, b: Actor)
      requires Valid() && Stored(a) && Stored(b) && a.identity != b.identity
      requires actorNameToCell[a.identity] == actorNameToCell[b.identity]
      ensures var buckets := RemoveFromBucket(cellToActors, actorNameToCell[a.identity], a.identity);
        actorNameToCell[b.identity] in buckets && b in buckets[actorNameToCell[b.identity]]
    {
      var cell := actorNameToCell[a.identity];
      assert b in Others(cellToActors[cell], a.identity);
    }
  }
}
