/** Instanced rendering groups (src/Flop.Client/Rendering/RenderBatch.cs and
    RenderBatchCollection.cs): a batch holds the world transforms of every
    instance drawn with one mesh and one material, and the collection keeps
    one batch per (mesh, material) pair, reused from frame to frame. The
    transform matrix type is a type parameter; drawing is not modelled. */
module RenderBatches {
  import opened Handles
  import opened MapSums

  type BatchKey = (MeshHandle, MaterialHandle)

  /** The per-key transform lists after one more instance under k: a new key
      starts from an empty list; every other list is unchanged. */
  function Appended<M>(m: map<BatchKey, seq<M>>, k: BatchKey, t: M): (r: map<BatchKey, seq<M>>)
    ensures r.Keys == m.Keys + {k}
    ensures r[k] == (if k in m then m[k] else []) + [t]
    ensures forall j :: j in m && j != k ==> r[j] == m[j]
  {
    m[k := (if k in m then m[k] else []) + [t]]
  }

  /** One more instance adds exactly one to the total. */
  lemma AppendedTotal<M>(m: map<BatchKey, seq<M>>, k: BatchKey, t: M)
    ensures Total(Appended(m, k, t)) == Total(m) + 1
  {
    TotalUpdate(m, k, Appended(m, k, t)[k]);
  }

  /** Taking one key out of a map leaves every other key's value. */
  lemma ValuesRemove<K, V>(m: map<K, V>, k: K)
    requires k in m
    ensures m.Values <= (m - {k}).Values + {m[k]}
  {
    forall v | v in m.Values
      ensures v in (m - {k}).Values + {m[k]}
    {
      var j :| j in m && m[j] == v;
      if j != k {
        assert (m - {k})[j] == v;
      }
    }
  }

  /** A map that never sends two keys to the same value has as many values
      as keys. */
  lemma {:induction false} InjectiveValuesCount<K, V>(m: map<K, V>)
    requires forall a, b :: a in m && b in m && a != b ==> m[a] != m[b]
    ensures |m.Values| == |m.Keys|
    decreases |m|
  {
    if m != map[] {
      var k :| k in m;
      var rest := m - {k};
      assert |rest| < |m| by { assert rest.Keys < m.Keys; }
      InjectiveValuesCount(rest);
      assert m[k] !in rest.Values by {
        forall j | j in rest
          ensures rest[j] != m[k]
        {
          assert rest[j] == m[j];
        }
      }
      assert m.Values == rest.Values + {m[k]} by {
        ValuesRemove(m, k);
      }
      assert m.Keys == rest.Keys + {k};
    }
  }

  class RenderBatch<M> {
    const meshHandle: MeshHandle
    const materialHandle: MaterialHandle
    /** Transforms: the world transform of each instance, in the order added. */
    var transforms: seq<M>

    /** A new batch for the given handles, with no instances. */
    constructor (meshHandle: MeshHandle, materialHandle: MaterialHandle)
      ensures this.meshHandle == meshHandle && this.materialHandle == materialHandle
      ensures transforms == []
    {
      this.meshHandle := meshHandle;
      this.materialHandle := materialHandle;
      transforms := [];
    }

    /** Add: the transform goes at the end; the earlier ones keep their order. */
    method Add(transform: M)
      modifies this
      ensures transforms == old(transforms) + [transform]
    {
      transforms := transforms + [transform];
    }

    /** Clear: no transforms are left; the handles stay. */
    method Clear()
      modifies this
      ensures transforms == []
    {
      transforms := [];
    }
  }

  class RenderBatchCollection<M> {
    var batches: map<BatchKey, RenderBatch<M>>
    /** The transforms held under each key. */
    ghost var contents: map<BatchKey, seq<M>>

    /** Every batch is filed under its own mesh and material handles, so two
        keys never share a batch, and contents is what the batches hold. */
    ghost predicate Valid()
      reads this, batches.Values
    {
      && contents.Keys == batches.Keys
      && (forall k :: k in batches ==> batches[k].meshHandle == k.0 && batches[k].materialHandle == k.1)
      && (forall k :: k in batches ==> batches[k].transforms == contents[k])
    }

    constructor ()
      ensures Valid() && batches == map[] && contents == map[]
    {
      batches := map[];
      contents := map[];
    }

    /** AddInstance: the transform is appended to the batch of its (mesh,
        material) pair, which is created first when the pair is new. Every
        existing batch object is kept, and no other batch changes. */
    method AddInstance(meshHandle: MeshHandle, materialHandle: MaterialHandle, worldTransform: M)
      requires Valid()
      modifies this, batches.Values
      ensures Valid()
      ensures batches.Keys == old(batches.Keys) + {(meshHandle, materialHandle)}
      ensures forall k :: k in old(batches) ==> batches[k] == old(batches[k])
      ensures contents == Appended(old(contents), (meshHandle, materialHandle), worldTransform)
    {
      var key := (meshHandle, materialHandle);
      if key in batches {
        AppendToBatch(key, worldTransform);
      } else {
        var batch := new RenderBatch(meshHandle, materialHandle);
        batch.Add(worldTransform);
        batches := batches[key := batch];
        contents := contents[key := [worldTransform]];
      }
    }

    /** The existing batch under key takes one more transform. */
    method AppendToBatch(key: BatchKey, worldTransform: M)
      requires Valid() && key in batches
      modifies this, batches[key]
      ensures Valid() && batches == old(batches)
      ensures contents == old(contents)[key := old(contents[key]) + [worldTransform]]
    {
      var batch := batches[key];
      assert forall k :: k in batches && k != key ==> batches[k] != batch;
      batch.Add(worldTransform);
      contents := contents[key := contents[key] + [worldTransform]];
    }

    /** GetBatches: every batch, one per (mesh, material) pair. */
    function GetBatches(): (r: set<RenderBatch<M>>)
      requires Valid()
      reads this, batches.Values
      ensures |r| == BatchCount()
      ensures forall k :: k in batches ==> batches[k] in r
      ensures forall b :: b in r ==> (b.meshHandle, b.materialHandle) in batches
    {
      InjectiveValuesCount(batches);
      batches.Values
    }

    /** Clear: every batch is emptied, and every batch is kept for reuse. */
    method Clear()
      requires Valid()
      modifies this, batches.Values
      ensures Valid() && batches == old(batches)
      ensures contents.Keys == old(contents.Keys)
      ensures forall k :: k in contents ==> contents[k] == []
      ensures Total(contents) == 0
    {
      var left := batches.Keys;
      while left != {}
        invariant left <= batches.Keys && batches == old(batches)
        invariant forall k :: k in batches && k !in left ==> batches[k].transforms == []
        invariant forall k :: k in batches ==> batches[k].meshHandle == k.0 && batches[k].materialHandle == k.1
        decreases left
      {
        var key :| key in left;
        var batch := batches[key];
        assert forall k :: k in batches && k != key ==> batches[k] != batch;
        batch.Clear();
        left := left - {key};
      }
      contents := map k | k in batches :: [];
      TotalAllEmpty(contents);
    }

    /** BatchCount: the number of distinct (mesh, material) pairs. */
    function BatchCount(): (n: nat)
      requires Valid()
      reads this, batches.Values
      ensures n == |contents.Keys|
    {
      |batches.Keys|
    }

    /** TotalInstanceCount: the number of transforms over all batches. */
    method TotalInstanceCount() returns (total: nat)
      requires Valid()
      ensures total == Total(contents)
    {
      total := 0;
      var left := batches;
      ghost var rest := contents;
      while left != map[]
        invariant left.Keys == rest.Keys <= batches.Keys
        invariant forall k :: k in left ==> left[k] == batches[k] && rest[k] == left[k].transforms
        invariant total + Total(rest) == Total(contents)
        decreases |left|
      {
        var key :| key in left;
        TotalRemove(rest, key);
        total := total + |left[key].transforms|;
        left := left - {key};
        rest := rest - {key};
      }
    }
  }
}
