/** The agreement the spatial hash grid keeps between its two dictionaries
    (src/Flop.Core/Spatial/SpatialHashGrid.cs:28-29), stated over their
    values, and its preservation by adding and by removing an actor. */
module GridInvariant {
  import opened Numerics
  import opened UniqueIds
  import opened Actors
  import opened SpatialExtensions

  /** Each stored actor is filed under its own identity. */
  ghost predicate StoreAgrees(contents: map<Identity, Actor>) {
    forall id :: id in contents ==> contents[id].identity == id
  }

  /** The index has exactly the stored identities, each at its actor's cell. */
  ghost predicate IndexAgrees(cellLength: real, index: map<Identity, Cell>, contents: map<Identity, Actor>)
    requires cellLength > 0.0
  {
    index.Keys == contents.Keys
    && forall id :: id in contents ==> index[id] == GetCell(contents[id], cellLength)
  }

  /** The bucket of each indexed cell holds the stored actor. */
  ghost predicate BucketsHold(buckets: map<Cell, seq<Actor>>, index: map<Identity, Cell>, contents: map<Identity, Actor>)
    requires index.Keys == contents.Keys
  {
    forall id :: id in contents ==> index[id] in buckets && contents[id] in buckets[index[id]]
  }

  /** No bucket is empty and none holds an identity twice. */
  ghost predicate BucketsWellFormed(buckets: map<Cell, seq<Actor>>) {
    forall c :: c in buckets ==> buckets[c] != [] && DistinctIds(buckets[c])
  }

  /** Every bucket entry is the stored actor of its identity, indexed to the
      bucket's cell: no actor sits in any other bucket. */
  ghost predicate BucketsStored(buckets: map<Cell, seq<Actor>>, index: map<Identity, Cell>, contents: map<Identity, Actor>)
    requires index.Keys == contents.Keys
  {
    forall c, a :: c in buckets && a in buckets[c] ==>
      a.identity in contents && contents[a.identity] == a && index[a.identity] == c
  }

  ghost predicate Consistent(cellLength: real, buckets: map<Cell, seq<Actor>>,
                             index: map<Identity, Cell>, contents: map<Identity, Actor>)
  {
    cellLength > 0.0
    && StoreAgrees(contents)
    && IndexAgrees(cellLength, index, contents)
    && BucketsHold(buckets, index, contents)
    && BucketsWellFormed(buckets)
    && BucketsStored(buckets, index, contents)
  }

  /** The empty grid is consistent. */
  lemma EmptyConsistent(cellLength: real)
    requires cellLength > 0.0
    ensures Consistent(cellLength, map[], map[], map[])
  {
  }

  /** Adding an actor with a new identity keeps the dictionaries in agreement. */
  lemma AddPreserves(cellLength: real, buckets: map<Cell, seq<Actor>>,
                     index: map<Identity, Cell>, contents: map<Identity, Actor>, actor: Actor)
    requires Consistent(cellLength, buckets, index, contents)
    requires actor.identity !in contents
    ensures Consistent(cellLength, AddActor(buckets, actor, cellLength),
                       index[actor.identity := GetCell(actor, cellLength)],
                       contents[actor.identity := actor])
  {
    var cell := GetCell(actor, cellLength);
    var buckets', index', contents' := AddActor(buckets, actor, cellLength),
      index[actor.identity := cell], contents[actor.identity := actor];
    assert StoreAgrees(contents');
    assert IndexAgrees(cellLength, index', contents');
    assert BucketsHold(buckets', index', contents');
    AddWellFormed(buckets, index, contents, actor, cell, buckets');
    AddStored(buckets, index, contents, actor, cell, buckets');
  }

  lemma AddWellFormed(buckets: map<Cell, seq<Actor>>, index: map<Identity, Cell>,
                      contents: map<Identity, Actor>, actor: Actor, cell: Cell,
                      buckets': map<Cell, seq<Actor>>)
    requires index.Keys == contents.Keys
    requires BucketsWellFormed(buckets) && BucketsStored(buckets, index, contents)
    requires actor.identity !in contents
    requires buckets' == buckets[cell := if cell in buckets then buckets[cell] + [actor] else [actor]]
    ensures BucketsWellFormed(buckets')
  {
    if cell in buckets {
      DistinctIdsAppend(buckets[cell], [actor]);
    }
  }

  lemma AddStored(buckets: map<Cell, seq<Actor>>, index: map<Identity, Cell>,
                  contents: map<Identity, Actor>, actor: Actor, cell: Cell,
                  buckets': map<Cell, seq<Actor>>)
    requires index.Keys == contents.Keys
    requires BucketsStored(buckets, index, contents)
    requires actor.identity !in contents
    requires buckets' == buckets[cell := if cell in buckets then buckets[cell] + [actor] else [actor]]
    ensures BucketsStored(buckets', index[actor.identity := cell], contents[actor.identity := actor])
  {
    forall c, a | c in buckets' && a in buckets'[c]
      ensures a.identity in contents[actor.identity := actor]
      ensures contents[actor.identity := actor][a.identity] == a
      ensures index[actor.identity := cell][a.identity] == c
    {
      if a != actor || c != cell {
        assert c in buckets && a in buckets[c];
      }
    }
  }

  /** The buckets after removing identity id from the bucket of cell: the
      bucket keeps its other actors and is dropped once empty. */
  function RemoveFromBucket(buckets: map<Cell, seq<Actor>>, cell: Cell, id: Identity)
    : (r: map<Cell, seq<Actor>>)
    requires cell in buckets
    ensures r.Keys <= buckets.Keys
    ensures forall c :: c in buckets && c != cell ==> c in r && r[c] == buckets[c]
    ensures forall a :: a in buckets[cell] && a.identity != id ==> cell in r && a in r[cell]
    ensures cell in r ==> forall a :: a in r[cell] <==> a in buckets[cell] && a.identity != id
    ensures cell !in r <==> forall a :: a in buckets[cell] ==> a.identity == id
  {
    var rest := Others(buckets[cell], id);
    if rest == [] then buckets - {cell}
    else
      assert rest[0] in buckets[cell];
      buckets[cell := rest]
  }

  /** Removing a stored identity keeps the dictionaries in agreement. */
  lemma RemovePreserves(cellLength: real, buckets: map<Cell, seq<Actor>>,
                        index: map<Identity, Cell>, contents: map<Identity, Actor>, id: Identity)
    requires Consistent(cellLength, buckets, index, contents)
    requires id in contents
    ensures Consistent(cellLength, RemoveFromBucket(buckets, index[id], id), index - {id}, contents - {id})
  {
    var cell := index[id];
    var buckets', index', contents' := RemoveFromBucket(buckets, cell, id), index - {id}, contents - {id};
    assert StoreAgrees(contents');
    assert IndexAgrees(cellLength, index', contents');
    forall id' | id' in contents'
      ensures index'[id'] in buckets' && contents'[id'] in buckets'[index'[id']]
    {
      if index[id'] == cell {
        assert contents[id'] in buckets[cell];
      }
    }
    assert BucketsHold(buckets', index', contents');
    OthersDistinct(buckets[cell], id);
    forall c | c in buckets'
      ensures buckets'[c] != [] && DistinctIds(buckets'[c])
    {
    }
    assert BucketsWellFormed(buckets');
    forall c: Cell, a: Actor | c in buckets' && a in buckets'[c]
      ensures a.identity in contents' && contents'[a.identity] == a && index'[a.identity] == c
    {
      assert a in buckets[c];
    }
  }
}
