/** MeshManager (src/Flop.Core/Geometry/MeshManager.cs): caches one GPU mesh
    per mesh handle and counts the references to it. The mesh generator and
    the hash of a primitive's parameters are given to the constructor; what
    the uploader is asked to upload and unload is recorded in two logs. */
module GeometryMeshes {
  import opened Outcomes
  import opened Handles
  import opened RefCounts

  class MeshManager<Primitive, Mesh> {
    /** ComputeHash: the hash of a known primitive's parameters, or none for
        a primitive type it does not know (its ArgumentException). */
    const computeHash: Primitive -> Option<int>
    /** primitive.GetMesh(generator). */
    const generate: Primitive -> Mesh
    var meshCache: map<MeshHandle, Mesh>
    var refCounts: map<MeshHandle, int>
    /** The meshes handed to the uploader's Upload and Unload, in order. */
    ghost var uploads: seq<(MeshHandle, Mesh)>
    ghost var unloads: seq<(MeshHandle, Mesh)>

    /** The cache and the counts agree (see RefCounts.Agrees). */
    ghost predicate Valid()
      reads this
    {
      Agrees(meshCache, refCounts)
    }

    constructor (computeHash: Primitive -> Option<int>, generate: Primitive -> Mesh)
      ensures Valid()
      ensures this.computeHash == computeHash && this.generate == generate
      ensures meshCache == map[] && refCounts == map[]
      ensures uploads == [] && unloads == []
    {
      this.computeHash := computeHash;
      this.generate := generate;
      meshCache := map[];
      refCounts := map[];
      uploads := [];
      unloads := [];
    }

    /** UploadMesh: a primitive whose handle is not cached has its mesh
        generated, uploaded once and cached; either way the handle's count
        goes up by one. A primitive type ComputeHash does not know is an
        ArgumentException and changes nothing. */
    method UploadMesh(primitive: Primitive) returns (r: Outcome<MeshHandle>)
      requires Valid()
      modifies this
      ensures Valid()
      ensures computeHash(primitive).None? ==> r == Threw(ArgumentException) && unchanged(this)
      ensures computeHash(primitive).Some? ==>
        var h := MeshHandle(computeHash(primitive).value);
        && r == Done(h)
        && refCounts == Acquire(old(refCounts), h)
        && unloads == old(unloads)
        && (h in old(meshCache) ==> meshCache == old(meshCache) && uploads == old(uploads))
        && (h !in old(meshCache) ==>
              meshCache == old(meshCache)[h := generate(primitive)]
              && uploads == old(uploads) + [(h, generate(primitive))])
    {
      var hash := computeHash(primitive);
      if hash.None? {
        return Threw(ArgumentException);
      }
      var handle := MeshHandle(hash.value);
      AcquirePreserves(meshCache, refCounts, handle, generate(primitive));
      if handle !in meshCache {
        var mesh := generate(primitive);
        uploads := uploads + [(handle, mesh)];
        meshCache := meshCache[handle := mesh];
        refCounts := refCounts[handle := 0];
      }
      refCounts := refCounts[handle := refCounts[handle] + 1];
      r := Done(handle);
    }

    /** GetMesh: the cached mesh, or InvalidOperationException for a handle
        that is not held. */
    function GetMesh(handle: MeshHandle): (r: Outcome<Mesh>)
      requires Valid()
      reads this
      ensures r.Done? <==> GetRefCount(handle) > 0
      ensures r.Done? ==> r.value == meshCache[handle]
      ensures r.Threw? ==> r.error == InvalidOperationException
    {
      if handle in meshCache then Done(meshCache[handle]) else Threw(InvalidOperationException)
    }

    /** Release(MeshHandle): one reference fewer; the last one unloads the
        mesh and removes the handle from both dictionaries. A handle that is
        not held (never acquired, or already fully released) is an
        InvalidOperationException and changes nothing. */
    method Release(handle: MeshHandle) returns (r: Outcome<()>)
      requires Valid()
      modifies this
      ensures Valid()
      ensures handle !in old(refCounts) ==> r == Threw(InvalidOperationException) && unchanged(this)
      ensures handle in old(refCounts) ==>
        && r == Done(())
        && refCounts == RefCounts.Release(old(refCounts), handle)
        && uploads == old(uploads)
      ensures handle in old(refCounts) && old(refCounts[handle]) == 1 ==>
        meshCache == old(meshCache) - {handle} && unloads == old(unloads) + [(handle, old(meshCache[handle]))]
      ensures handle in old(refCounts) && old(refCounts[handle]) > 1 ==>
        meshCache == old(meshCache) && unloads == old(unloads)
    {
      if handle !in refCounts {
        return Threw(InvalidOperationException);
      }
      ReleasePreserves(meshCache, refCounts, handle);
      var value := refCounts[handle] - 1;
      refCounts := refCounts[handle := value];
      if value == 0 {
        unloads := unloads + [(handle, meshCache[handle])];
        meshCache := meshCache - {handle};
        refCounts := refCounts - {handle};
      } else if value < 0 {
        assert false;
      }
      r := Done(());
    }

    /** Release(IGeometryPrimitive): Release of the primitive's handle. */
    method ReleasePrimitive(primitive: Primitive) returns (r: Outcome<()>)
      requires Valid()
      modifies this
      ensures Valid()
      ensures computeHash(primitive).None? ==> r == Threw(ArgumentException) && unchanged(this)
      ensures computeHash(primitive).Some? ==>
        var h := MeshHandle(computeHash(primitive).value);
        && (h !in old(refCounts) ==> r == Threw(InvalidOperationException) && unchanged(this))
        && (h in old(refCounts) ==>
              && r == Done(())
              && refCounts == RefCounts.Release(old(refCounts), h)
              && uploads == old(uploads))
        && (h in old(refCounts) && old(refCounts[h]) == 1 ==>
              meshCache == old(meshCache) - {h} && unloads == old(unloads) + [(h, old(meshCache[h]))])
        && (h in old(refCounts) && old(refCounts[h]) > 1 ==>
              meshCache == old(meshCache) && unloads == old(unloads))
    {
      var hash := computeHash(primitive);
      if hash.None? {
        return Threw(ArgumentException);
      }
      r := Release(MeshHandle(hash.value));
    }

    /** GetRefCount: the count, 0 for a handle that is not cached. */
    function GetRefCount(handle: MeshHandle): (n: int)
      requires Valid()
      reads this
      ensures n >= 0
      ensures n == 0 <==> !IsCached(handle)
    {
      CountZeroIffUncached(meshCache, refCounts, handle);
      CountOf(refCounts, handle)
    }

    /** IsCached: the handle has a cached mesh, which is to say it is held. */
    predicate IsCached(handle: MeshHandle)
      requires Valid()
      reads this
      ensures IsCached(handle) <==> handle in refCounts
    {
      handle in meshCache
    }

    /** CachedMeshCount: the number of distinct handles held. */
    function CachedMeshCount(): (n: nat)
      requires Valid()
      reads this
      ensures n == |refCounts.Keys|
    {
      |meshCache.Keys|
    }

    /** Dispose: every cached mesh is unloaded once and both dictionaries are
        emptied. */
    method Dispose()
      requires Valid()
      modifies this
      ensures Valid()
      ensures meshCache == map[] && refCounts == map[] && uploads == old(uploads)
      ensures |unloads| == |old(unloads)| + |old(meshCache).Keys|
      ensures unloads[..|old(unloads)|] == old(unloads)
      ensures UnloadsEach(unloads[|old(unloads)|..], old(meshCache))
    {
      ghost var log: seq<(MeshHandle, Mesh)> := [];
      var cache := meshCache;
      var left := cache.Keys;
      while left != {}
        invariant left <= cache.Keys
        invariant unloads == old(unloads) + log
        invariant UnloadsSoFar(log, cache, left)
        invariant meshCache == cache && refCounts == old(refCounts) && uploads == old(uploads)
        decreases left
      {
        var handle :| handle in left;
        UnloadStep(log, cache, left, handle);
        log := log + [(handle, cache[handle])];
        unloads := unloads + [(handle, cache[handle])];
        left := left - {handle};
      }
      UnloadsAll(log, cache);
      assert unloads[|old(unloads)|..] == log;
      meshCache := map[];
      refCounts := map[];
    }
  }

  /** Releasing a primitive's only reference by the primitive unloads its
      mesh once and forgets its handle. */
  method ReleaseByPrimitiveUnloadsOnce<Primitive, Mesh>(
    computeHash: Primitive -> Option<int>, generate: Primitive -> Mesh, primitive: Primitive)
    returns (released: Outcome<()>, cached: bool, ghost unloadCount: nat)
    requires computeHash(primitive).Some?
    ensures released == Done(()) && !cached && unloadCount == 1
  {
    var manager := new MeshManager(computeHash, generate);
    var _ := manager.UploadMesh(primitive);
    released := manager.ReleasePrimitive(primitive);
    cached := manager.IsCached(MeshHandle(computeHash(primitive).value));
    unloadCount := |manager.unloads|;
  }
}
