/** Actor (src/Flop.Core/Actor.cs, src/Flop.Core/Entity.cs) as the spatial
    code sees it: an identity and a position, both fixed when the actor is
    made. A moved actor is a new Actor value with the same identity. */
module Actors {
  import opened Numerics
  import opened UniqueIds

  datatype Actor = Actor(identity: Identity, position: Vec3)

  /** No two entries share an identity. */
  predicate DistinctIds(s: seq<Actor>) {
    forall i, j :: 0 <= i < j < |s| ==> s[i].identity != s[j].identity
  }

  function IdSet(s: seq<Actor>): set<Identity> {
    set a | a in s :: a.identity
  }

  /** Identities of a list grown by one entry. */
  lemma IdSetSnoc(s: seq<Actor>, i: int)
    requires 0 <= i < |s|
    ensures IdSet(s[..i + 1]) == IdSet(s[..i]) + {s[i].identity}
  {
    assert s[..i + 1] == s[..i] + [s[i]];
    assert forall x :: x in s[..i + 1] <==> x in s[..i] || x == s[i];
  }

  /** In a list with distinct identities, no entry's identity occurs before it. */
  lemma DistinctIdsFresh(s: seq<Actor>, i: int)
    requires DistinctIds(s) && 0 <= i < |s|
    ensures s[i].identity !in IdSet(s[..i])
  {
    forall a | a in s[..i]
      ensures a.identity != s[i].identity
    {
      var j :| 0 <= j < i && s[j] == a;
    }
  }

  /** Entries with distinct identities have as many identities as entries. */
  lemma {:induction false} DistinctIdsCount(s: seq<Actor>)
    requires DistinctIds(s)
    ensures |IdSet(s)| == |s|
  {
    if |s| > 0 {
      var init := s[..|s| - 1];
      DistinctIdsCount(init);
      var last := s[|s| - 1];
      assert s == init + [last];
      assert IdSet(s) == IdSet(init) + {last.identity};
      forall x | x in init
        ensures x.identity != last.identity
      {
        var i :| 0 <= i < |init| && init[i] == x;
        assert s[i] == x;
      }
      assert last.identity !in IdSet(init);
    }
  }

  /** Joining two lists with distinct identities and no identity in common
      keeps identities distinct. */
  lemma DistinctIdsAppend(a: seq<Actor>, b: seq<Actor>)
    requires DistinctIds(a) && DistinctIds(b)
    requires forall x, y :: x in a && y in b ==> x.identity != y.identity
    ensures DistinctIds(a + b)
  {
    var s := a + b;
    forall i, j | 0 <= i < j < |s|
      ensures s[i].identity != s[j].identity
    {
      if j < |a| {
        assert s[i] == a[i] && s[j] == a[j];
      } else if i >= |a| {
        assert s[i] == b[i - |a|] && s[j] == b[j - |a|];
      } else {
        assert s[i] in a && s[j] in b;
      }
    }
  }

  /** The entries of s whose identity is not id, in their original order. */
  function Others(s: seq<Actor>, id: Identity): (r: seq<Actor>)
    ensures forall a :: a in r <==> a in s && a.identity != id
    ensures |r| <= |s|
  {
    if |s| == 0 then []
    else
      var init := Others(s[..|s| - 1], id);
      var last := s[|s| - 1];
      assert s == s[..|s| - 1] + [last];
      if last.identity == id then init else init + [last]
  }

  /** Others over a prefix one entry longer: the entry is kept unless it has
      identity id. */
  lemma OthersSnoc(s: seq<Actor>, j: int, id: Identity)
    requires 0 <= j < |s|
    ensures Others(s[..j + 1], id) ==
      Others(s[..j], id) + (if s[j].identity != id then [s[j]] else [])
  {
    assert s[..j + 1][..j] == s[..j];
  }

  /** Leaving entries out keeps the identities distinct. */
  lemma {:induction false} OthersDistinct(s: seq<Actor>, id: Identity)
    requires DistinctIds(s)
    ensures DistinctIds(Others(s, id))
  {
    if |s| > 0 {
      var init := s[..|s| - 1];
      var last := s[|s| - 1];
      OthersDistinct(init, id);
      if last.identity != id {
        forall x | x in Others(init, id)
          ensures x.identity != last.identity
        {
          var i :| 0 <= i < |s| - 1 && s[i] == x;
        }
        DistinctIdsAppend(Others(init, id), [last]);
      }
    }
  }
}
