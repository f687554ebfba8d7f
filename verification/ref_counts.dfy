/** The reference counting shared by the mesh and material managers
    (src/Flop.Core/Geometry/MeshManager.cs, src/Flop.Core/MeshManager.cs,
    src/Flop.Client/Rendering/MaterialManager.cs): a cache of GPU resources
    and a count per handle, kept over the same keys. */
module RefCounts {

  /** The cache and the counts have the same keys and every count is at
      least one: a handle is cached exactly while it is held. */
  predicate Agrees<K, V>(cache: map<K, V>, counts: map<K, int>) {
    cache.Keys == counts.Keys && forall k :: k in counts ==> counts[k] >= 1
  }

  /** GetValueOrDefault(k, 0). */
  function CountOf<K>(counts: map<K, int>, k: K): int {
    if k in counts then counts[k] else 0
  }

  /** The counts after one more acquisition of k: a new key starts from 0,
      so its count becomes 1; every other count is unchanged. */
  function Acquire<K>(counts: map<K, int>, k: K): (r: map<K, int>)
    ensures r.Keys == counts.Keys + {k}
    ensures r[k] == CountOf(counts, k) + 1
    ensures forall j :: j in counts && j != k ==> r[j] == counts[j]
  {
    counts[k := CountOf(counts, k) + 1]
  }

  /** The counts after one release of a held k: the count drops by one and
      the key is removed once it reaches zero; every other count is
      unchanged. */
  function Release<K>(counts: map<K, int>, k: K): (r: map<K, int>)
    requires k in counts
    ensures r.Keys == if counts[k] == 1 then counts.Keys - {k} else counts.Keys
    ensures counts[k] != 1 ==> r[k] == counts[k] - 1
    ensures forall j :: j in counts && j != k ==> r[j] == counts[j]
  {
    var value := counts[k] - 1;
    if value == 0 then counts - {k} else counts[k := value]
  }

  /** An acquisition keeps the dictionaries in agreement, whether it adds
      the resource or only counts it. */
  lemma AcquirePreserves<K, V>(cache: map<K, V>, counts: map<K, int>, k: K, v: V)
    requires Agrees(cache, counts)
    ensures Agrees(if k in cache then cache else cache[k := v], Acquire(counts, k))
  {
  }

  /** A release keeps the dictionaries in agreement: the resource leaves the
      cache with its last reference. */
  lemma ReleasePreserves<K, V>(cache: map<K, V>, counts: map<K, int>, k: K)
    requires Agrees(cache, counts) && k in counts
    ensures Agrees(if counts[k] == 1 then cache - {k} else cache, Release(counts, k))
  {
  }

  /** In agreement, counts are never negative and a handle's count is zero
      exactly when it is not cached. */
  lemma CountZeroIffUncached<K, V>(cache: map<K, V>, counts: map<K, int>, k: K)
    requires Agrees(cache, counts)
    ensures CountOf(counts, k) >= 0
    ensures CountOf(counts, k) == 0 <==> k !in cache
  {
  }

  /** Releasing what was just acquired restores the counts. */
  lemma ReleaseUndoesAcquire<K, V>(cache: map<K, V>, counts: map<K, int>, k: K)
    requires Agrees(cache, counts)
    ensures k in Acquire(counts, k) && Release(Acquire(counts, k), k) == counts
  {
    if k in counts {
      assert counts[k] >= 1;
      assert Acquire(counts, k)[k := counts[k]] == counts;
    } else {
      assert Acquire(counts, k) - {k} == counts;
    }
  }

  /** An unload log in which no handle occurs twice. */
  ghost predicate DistinctHandles<K, V>(log: seq<(K, V)>) {
    forall i, j :: 0 <= i < j < |log| ==> log[i].0 != log[j].0
  }

  ghost function HandlesOf<K, V>(log: seq<(K, V)>): set<K> {
    set i | 0 <= i < |log| :: log[i].0
  }

  /** The log unloads every cached resource exactly once, each under its
      own handle. */
  ghost predicate UnloadsEach<K, V>(log: seq<(K, V)>, cache: map<K, V>) {
    DistinctHandles(log)
    && HandlesOf(log) == cache.Keys
    && forall i :: 0 <= i < |log| ==> log[i].0 in cache && log[i].1 == cache[log[i].0]
  }

  /** Growing a log by a handle not yet in it. */
  lemma LogSnoc<K, V>(log: seq<(K, V)>, e: (K, V))
    requires DistinctHandles(log) && e.0 !in HandlesOf(log)
    ensures DistinctHandles(log + [e])
    ensures HandlesOf(log + [e]) == HandlesOf(log) + {e.0}
  {
    var l := log + [e];
    forall i, j | 0 <= i < j < |l|
      ensures l[i].0 != l[j].0
    {
      if j == |log| {
        assert l[i].0 in HandlesOf(log);
      }
    }
    assert forall i :: 0 <= i < |log| ==> l[i] == log[i];
    assert l[|log|] == e;
    forall h | h in HandlesOf(l)
      ensures h in HandlesOf(log) + {e.0}
    {
      var i :| 0 <= i < |l| && l[i].0 == h;
      if i < |log| {
        assert log[i].0 == h;
      }
    }
  }

  /** A log with distinct handles has one entry per handle. */
  lemma {:induction false} LogSize<K, V>(log: seq<(K, V)>)
    requires DistinctHandles(log)
    ensures |HandlesOf(log)| == |log|
  {
    if log != [] {
      var init := log[..|log| - 1];
      var last := log[|log| - 1];
      assert log == init + [last];
      assert DistinctHandles(init);
      LogSize(init);
      assert last.0 !in HandlesOf(init) by {
        forall i | 0 <= i < |init|
          ensures init[i].0 != last.0
        {
          assert log[i] == init[i];
        }
      }
      assert HandlesOf(log) == HandlesOf(init) + {last.0} by {
        forall i | 0 <= i < |init|
          ensures log[i] == init[i]
        {
        }
      }
    }
  }

  /** Part way through unloading a cache: the log holds each handle not in
      left exactly once, with its cached resource. */
  ghost predicate UnloadsSoFar<K, V>(log: seq<(K, V)>, cache: map<K, V>, left: set<K>) {
    DistinctHandles(log)
    && HandlesOf(log) == cache.Keys - left
    && forall i :: 0 <= i < |log| ==> log[i].0 in cache && log[i].1 == cache[log[i].0]
  }

  /** Unloading one more handle still left keeps the log in step. */
  lemma UnloadStep<K, V>(log: seq<(K, V)>, cache: map<K, V>, left: set<K>, h: K)
    requires left <= cache.Keys && h in left
    requires UnloadsSoFar(log, cache, left)
    ensures UnloadsSoFar(log + [(h, cache[h])], cache, left - {h})
  {
    LogSnoc(log, (h, cache[h]));
    var l := log + [(h, cache[h])];
    forall i | 0 <= i < |l|
      ensures l[i].0 in cache && l[i].1 == cache[l[i].0]
    {
      if i < |log| {
        assert l[i] == log[i];
      }
    }
  }

  /** Once nothing is left, the log unloads the whole cache, one entry per
      cached handle. */
  lemma UnloadsAll<K, V>(log: seq<(K, V)>, cache: map<K, V>)
    requires UnloadsSoFar(log, cache, {})
    ensures UnloadsEach(log, cache)
    ensures |log| == |cache.Keys|
  {
    LogSize(log);
  }
}
