/** The older MeshManager (src/Flop.Core/MeshManager.cs): the same reference
    counted mesh cache as GeometryMeshes.MeshManager, but GetOrCreate hands
    back the mesh itself and the GPU is reached through Raylib directly. The
    mesh handle of a primitive (MeshHandle's primitive constructor) and the
    primitive's own mesh are given as functions; the Raylib calls are
    recorded in two logs. */
module CoreMeshes {
  import opened Outcomes
  import opened Handles
  import opened RefCounts

  class MeshManager<Primitive, Mesh> {
    /** new MeshHandle(primitive): the hash of a Box, Cylinder, Sphere or
        Hemisphere, none for any other primitive type (ArgumentException). */
    const handleHash: Primitive -> Option<int>
    /** primitive.GetMesh(). */
    const meshOf: Primitive -> Mesh
    var meshCache: map<MeshHandle, Mesh>
    var refCounts: map<MeshHandle, int>
    /** The meshes passed to Raylib.UploadMesh and Raylib.UnloadMesh, in order. */
    ghost var uploads: seq<(MeshHandle, Mesh)>
    ghost var unloads: seq<(MeshHandle, Mesh)>

    ghost predicate Valid()
      reads this
    {
      Agrees(meshCache, refCounts)
    }

    constructor (handleHash: Primitive -> Option<int>, meshOf: Primitive -> Mesh)
      ensures Valid()
      ensures this.handleHash == handleHash && this.meshOf == meshOf
      ensures meshCache == map[] && refCounts == map[]
      ensures uploads == [] && unloads == []
    {
      this.handleHash := handleHash;
      this.meshOf := meshOf;
      meshCache := map[];
      refCounts := map[];
      uploads := [];
      unloads := [];
    }

    /** GetOrCreate: the cached mesh of the primitive's handle, generating and
        uploading it first when the handle is not cached; the handle's count
        goes up by one either way. An unknown primitive type throws before
        anything changes. */
    method GetOrCreate(primitive: Primitive) returns (r: Outcome<Mesh>)
      requires Valid()
      modifies this
      ensures Valid()
      ensures handleHash(primitive).None? ==> r == Threw(ArgumentException) && unchanged(this)
      ensures handleHash(primitive).Some? ==>
        var h := MeshHandle(handleHash(primitive).value);
        && h in meshCache
        && r == Done(meshCache[h])
        && refCounts == Acquire(old(refCounts), h)
        && unloads == old(unloads)
        && (h in old(meshCache) ==> meshCache == old(meshCache) && uploads == old(uploads))
        && (h !in old(meshCache) ==>
              meshCache == old(meshCache)[h := meshOf(primitive)]
              && uploads == old(uploads) + [(h, meshOf(primitive))])
    {
      var hash := handleHash(primitive);
      if hash.None? {
        return Threw(ArgumentException);
      }
      var handle := MeshHandle(hash.value);
      AcquirePreserves(meshCache, refCounts, handle, meshOf(primitive));
      var value;
      if handle in meshCache {
        value := meshCache[handle];
      } else {
        var mesh := meshOf(primitive);
        uploads := uploads + [(handle, mesh)];
        value := mesh;
        meshCache := meshCache[handle := value];
        refCounts := refCounts[handle := 0];
      }
      refCounts := refCounts[handle := refCounts[handle] + 1];
      r := Done(value);
    }

    /** Release(MeshHandle): one reference fewer; the last one unloads the
        mesh and removes the handle from both dictionaries. A handle never
        acquired, or already released to zero, throws and changes nothing. */
    method Release(handle: MeshHandle) returns (r: Outcome<()>)
      requires Valid()
      modifies this
      ensures Valid()
      ensures handle !in old(refCounts) ==> r == Threw(InvalidOperationException) && unchanged(this)
      ensures handle in old(refCounts) ==>
        && r == Done(())
        && refCounts == RefCounts.Release(old(refCounts), handle)
        && uploads == old(uploads)
      ensures handle in old(refCounts) && old(refCounts[handle]) == 1 ==>
        meshCache == old(meshCache) - {handle} && unloads == old(unloads) + [(handle, old(meshCache[handle]))]
      ensures handle in old(refCounts) && old(refCounts[handle]) > 1 ==>
        meshCache == old(meshCache) && unloads == old(unloads)
    {
      if handle !in refCounts {
        return Threw(InvalidOperationException);
      }
      ReleasePreserves(meshCache, refCounts, handle);
      var value := refCounts[handle] - 1;
      refCounts := refCounts[handle := value];
      if value == 0 {
        unloads := unloads + [(handle, meshCache[handle])];
        meshCache := meshCache - {handle};
        refCounts := refCounts - {handle};
      } else if value < 0 {
        assert false;
      }
      r := Done(());
    }

    /** Release(IGeometryPrimitive): Release of the primitive's handle; an
        unknown primitive type throws while computing the handle. */
    method ReleasePrimitive(primitive: Primitive) returns (r: Outcome<()>)
      requires Valid()
      modifies this
      ensures Valid()
      ensures handleHash(primitive).None? ==> r == Threw(ArgumentException) && unchanged(this)
      ensures handleHash(primitive).Some? ==>
        var h := MeshHandle(handleHash(primitive).value);
        && (h !in old(refCounts) ==> r == Threw(InvalidOperationException) && unchanged(this))
        && (h in old(refCounts) ==>
              && r == Done(())
              && refCounts == RefCounts.Release(old(refCounts), h)
              && uploads == old(uploads))
        && (h in old(refCounts) && old(refCounts[h]) == 1 ==>
              meshCache == old(meshCache) - {h} && unloads == old(unloads) + [(h, old(meshCache[h]))])
        && (h in old(refCounts) && old(refCounts[h]) > 1 ==>
              meshCache == old(meshCache) && unloads == old(unloads))
    {
      var hash := handleHash(primitive);
      if hash.None? {
        return Threw(ArgumentException);
      }
      r := Release(MeshHandle(hash.value));
    }

    /** GetRefCount: the count, 0 for a handle that is not cached. */
    function GetRefCount(handle: MeshHandle): (n: int)
      requires Valid()
      reads this
      ensures n >= 0
      ensures n == 0 <==> !IsCached(handle)
    {
      CountZeroIffUncached(meshCache, refCounts, handle);
      CountOf(refCounts, handle)
    }

    /** IsCached: the handle has a cached mesh, which is to say it is held. */
    predicate IsCached(handle: MeshHandle)
      requires Valid()
      reads this
      ensures IsCached(handle) <==> handle in refCounts
    {
      handle in meshCache
    }

    /** CachedMeshCount: the number of distinct handles held. */
    function CachedMeshCount(): (n: nat)
      requires Valid()
      reads this
      ensures n == |refCounts.Keys|
    {
      |meshCache.Keys|
    }

    /** Dispose: every cached mesh is unloaded once and both dictionaries are
        emptied. */
    method Dispose()
      requires Valid()
      modifies this
      ensures Valid()
      ensures meshCache == map[] && refCounts == map[] && uploads == old(uploads)
      ensures |unloads| == |old(unloads)| + |old(meshCache).Keys|
      ensures unloads[..|old(unloads)|] == old(unloads)
      ensures UnloadsEach(unloads[|old(unloads)|..], old(meshCache))
    {
      ghost var log: seq<(MeshHandle, Mesh)> := [];
      var cache := meshCache;
      var left := cache.Keys;
      while left != {}
        invariant left <= cache.Keys
        invariant unloads == old(unloads) + log
        invariant UnloadsSoFar(log, cache, left)
        invariant meshCache == cache && refCounts == old(refCounts) && uploads == old(uploads)
        decreases left
      {
        var handle :| handle in left;
        UnloadStep(log, cache, left, handle);
        log := log + [(handle, cache[handle])];
        unloads := unloads + [(handle, cache[handle])];
        left := left - {handle};
      }
      UnloadsAll(log, cache);
      assert unloads[|old(unloads)|..] == log;
      meshCache := map[];
      refCounts := map[];
    }
  }
}
