/** MaterialManager (src/Flop.Client/Rendering/MaterialManager.cs): caches one
    GPU material per material handle and counts the references to it. The
    handle of a material is a hash of its colour's four channels, given as a
    function; the loader's LoadMaterial is given as a function from colour to
    GPU material, and what the loader is asked to load and unload is recorded
    in two logs. */
module Materials {
  import opened Outcomes
  import opened Handles
  import opened RefCounts

  class MaterialManager<GpuMaterial> {
    /** HashCode.Combine(R, G, B, A), the hash behind new MaterialHandle(material). */
    const colorHash: Color -> int
    /** IMaterialLoader.LoadMaterial. */
    const load: Color -> GpuMaterial
    var materialCache: map<MaterialHandle, GpuMaterial>
    var refCounts: map<MaterialHandle, int>
    /** The materials the loader loaded and unloaded, in order. */
    ghost var loads: seq<(MaterialHandle, GpuMaterial)>
    ghost var unloads: seq<(MaterialHandle, GpuMaterial)>

    ghost predicate Valid()
      reads this
    {
      Agrees(materialCache, refCounts)
    }

    /** new MaterialHandle(material). */
    function HandleOf(material: Material): MaterialHandle
      reads this
    {
      MaterialHandle(colorHash(material.color))
    }

    constructor (colorHash: Color -> int, load: Color -> GpuMaterial)
      ensures Valid()
      ensures this.colorHash == colorHash && this.load == load
      ensures materialCache == map[] && refCounts == map[]
      ensures loads == [] && unloads == []
    {
      this.colorHash := colorHash;
      this.load := load;
      materialCache := map[];
      refCounts := map[];
      loads := [];
      unloads := [];
    }

    /** GetOrCreate: the cached GPU material of the material's handle, loading
        it from the material's colour first when the handle is not cached;
        the handle's count goes up by one either way. */
    method GetOrCreate(material: Material) returns (r: GpuMaterial)
      requires Valid()
      modifies this
      ensures Valid()
      ensures var h := HandleOf(material);
        && h in materialCache
        && r == materialCache[h]
        && refCounts == Acquire(old(refCounts), h)
        && unloads == old(unloads)
        && (h in old(materialCache) ==> materialCache == old(materialCache) && loads == old(loads))
        && (h !in old(materialCache) ==>
              materialCache == old(materialCache)[h := load(material.color)]
              && loads == old(loads) + [(h, load(material.color))])
    {
      var handle := HandleOf(material);
      AcquirePreserves(materialCache, refCounts, handle, load(material.color));
      if handle in materialCache {
        r := materialCache[handle];
      } else {
        var gpuMaterial := load(material.color);
        loads := loads + [(handle, gpuMaterial)];
        r := gpuMaterial;
        materialCache := materialCache[handle := r];
        refCounts := refCounts[handle := 0];
      }
      refCounts := refCounts[handle := refCounts[handle] + 1];
    }

    /** Release(MaterialHandle): one reference fewer; the last one unloads the
        material and removes the handle from both dictionaries. A handle never
        acquired, or already released to zero, throws and changes nothing. */
    method Release(handle: MaterialHandle) returns (r: Outcome<()>)
      requires Valid()
      modifies this
      ensures Valid()
      ensures handle !in old(refCounts) ==> r == Threw(InvalidOperationException) && unchanged(this)
      ensures handle in old(refCounts) ==>
        && r == Done(())
        && refCounts == RefCounts.Release(old(refCounts), handle)
        && loads == old(loads)
      ensures handle in old(refCounts) && old(refCounts[handle]) == 1 ==>
        materialCache == old(materialCache) - {handle}
        && unloads == old(unloads) + [(handle, old(materialCache[handle]))]
      ensures handle in old(refCounts) && old(refCounts[handle]) > 1 ==>
        materialCache == old(materialCache) && unloads == old(unloads)
    {
      if handle !in refCounts {
        return Threw(InvalidOperationException);
      }
      ReleasePreserves(materialCache, refCounts, handle);
      var value := refCounts[handle] - 1;
      refCounts := refCounts[handle := value];
      if value == 0 {
        unloads := unloads + [(handle, materialCache[handle])];
        materialCache := materialCache - {handle};
        refCounts := refCounts - {handle};
      } else if value < 0 {
        assert false;
      }
      r := Done(());
    }

    /** Release(Material): Release of the material's handle. */
    method ReleaseMaterial(material: Material) returns (r: Outcome<()>)
      requires Valid()
      modifies this
      ensures Valid()
      ensures var h := HandleOf(material);
        && (h !in old(refCounts) ==> r == Threw(InvalidOperationException) && unchanged(this))
        && (h in old(refCounts) ==>
              && r == Done(())
              && refCounts == RefCounts.Release(old(refCounts), h)
              && loads == old(loads))
        && (h in old(refCounts) && old(refCounts[h]) == 1 ==>
              materialCache == old(materialCache) - {h}
              && unloads == old(unloads) + [(h, old(materialCache[h]))])
        && (h in old(refCounts) && old(refCounts[h]) > 1 ==>
              materialCache == old(materialCache) && unloads == old(unloads))
    {
      r := Release(HandleOf(material));
    }

    /** GetRefCount: the count, 0 for a handle that is not cached. */
    function GetRefCount(handle: MaterialHandle): (n: int)
      requires Valid()
      reads this
      ensures n >= 0
      ensures n == 0 <==> !IsCached(handle)
    {
      CountZeroIffUncached(materialCache, refCounts, handle);
      CountOf(refCounts, handle)
    }

    /** IsCached: the handle has a cached material, which is to say it is held. */
    predicate IsCached(handle: MaterialHandle)
      requires Valid()
      reads this
      ensures IsCached(handle) <==> handle in refCounts
    {
      handle in materialCache
    }

    /** CachedMaterialCount: the number of distinct handles held. */
    function CachedMaterialCount(): (n: nat)
      requires Valid()
      reads this
      ensures n == |refCounts.Keys|
    {
      |materialCache.Keys|
    }

    /** Dispose: every cached material is unloaded once and both dictionaries
        are emptied. */
    method Dispose()
      requires Valid()
      modifies this
      ensures Valid()
      ensures materialCache == map[] && refCounts == map[] && loads == old(loads)
      ensures |unloads| == |old(unloads)| + |old(materialCache).Keys|
      ensures unloads[..|old(unloads)|] == old(unloads)
      ensures UnloadsEach(unloads[|old(unloads)|..], old(materialCache))
    {
      ghost var log: seq<(MaterialHandle, GpuMaterial)> := [];
      var cache := materialCache;
      var left := cache.Keys;
      while left != {}
        invariant left <= cache.Keys
        invariant unloads == old(unloads) + log
        invariant UnloadsSoFar(log, cache, left)
        invariant materialCache == cache && refCounts == old(refCounts) && loads == old(loads)
        decreases left
      {
        var handle :| handle in left;
        UnloadStep(log, cache, left, handle);
        log := log + [(handle, cache[handle])];
        unloads := unloads + [(handle, cache[handle])];
        left := left - {handle};
      }
      UnloadsAll(log, cache);
      assert unloads[|old(unloads)|..] == log;
      materialCache := map[];
      refCounts := map[];
    }
  }

  /** Three acquisitions of one material count 1, 2, 3 and keep one cache
      entry; two releases then count 2, 1. */
  method CountsUpAndDown<G>(colorHash: Color -> int, load: Color -> G, material: Material)
    returns (counts: seq<int>, entries: nat)
    ensures counts == [1, 2, 3, 2, 1] && entries == 1
  {
    var manager := new MaterialManager(colorHash, load);
    var handle := manager.HandleOf(material);
    var _ := manager.GetOrCreate(material);
    var c1 := manager.GetRefCount(handle);
    assert manager.refCounts[handle] == 1 && c1 == 1;
    var _ := manager.GetOrCreate(material);
    var c2 := manager.GetRefCount(handle);
    assert manager.refCounts[handle] == 2 && c2 == 2;
    var _ := manager.GetOrCreate(material);
    var c3 := manager.GetRefCount(handle);
    assert manager.refCounts[handle] == 3 && c3 == 3;
    var _ := manager.Release(handle);
    var c4 := manager.GetRefCount(handle);
    assert manager.refCounts[handle] == 2 && c4 == 2;
    var _ := manager.Release(handle);
    var c5 := manager.GetRefCount(handle);
    assert manager.refCounts[handle] == 1 && c5 == 1;
    counts := [c1, c2, c3, c4, c5];
    entries := manager.CachedMaterialCount();
  }

  /** Releasing the only reference forgets the handle (its count reads 0),
      so releasing it again throws. */
  method ReleaseTwice<G>(colorHash: Color -> int, load: Color -> G, material: Material)
    returns (first: Outcome<()>, second: Outcome<()>, count: int, cached: bool)
    ensures first == Done(()) && second == Threw(InvalidOperationException)
    ensures count == 0 && !cached
  {
    var manager := new MaterialManager(colorHash, load);
    var handle := manager.HandleOf(material);
    var _ := manager.GetOrCreate(material);
    first := manager.Release(handle);
    cached := manager.IsCached(handle);
    count := manager.GetRefCount(handle);
    second := manager.Release(handle);
  }

  /** Equal materials share one cache entry; a material with a different
      handle adds a second one. */
  method DistinctMaterialsCounted<G>(colorHash: Color -> int, load: Color -> G, a: Material, b: Material)
    returns (sizes: seq<nat>)
    requires colorHash(a.color) != colorHash(b.color)
    ensures sizes == [0, 1, 1, 2]
  {
    var manager := new MaterialManager(colorHash, load);
    var n0 := manager.CachedMaterialCount();
    assert n0 == 0;
    var _ := manager.GetOrCreate(a);
    var n1 := manager.CachedMaterialCount();
    assert n1 == 1;
    var _ := manager.GetOrCreate(a);
    var n2 := manager.CachedMaterialCount();
    assert n2 == 1;
    var _ := manager.GetOrCreate(b);
    var n3 := manager.CachedMaterialCount();
    assert n3 == 2;
    sizes := [n0, n1, n2, n3];
  }

  /** Releasing a material's only reference by the material unloads it once
      and forgets its handle. */
  method ReleaseByMaterialUnloadsOnce<G>(colorHash: Color -> int, load: Color -> G, material: Material)
    returns (released: Outcome<()>, cached: bool, ghost unloadCount: nat)
    ensures released == Done(()) && !cached && unloadCount == 1
  {
    var manager := new MaterialManager(colorHash, load);
    var _ := manager.GetOrCreate(material);
    released := manager.ReleaseMaterial(material);
    cached := manager.IsCached(manager.HandleOf(material));
    unloadCount := |manager.unloads|;
  }
}
