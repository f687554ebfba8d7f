# Flop core, modelled in Dafny

This project models the data-structure core of Flop, a small C# game engine.

- **Spatial hash grid.** It buckets actors by the square cell of the X-Z plane they stand in. It keeps a reverse index from identity to cell, and answers "who is near this actor" from the 3 x 3 block of cells around the actor's own cell.
- **Spatial query contract.** `ISpatialQueryEngine` declares box, range, nearest-N and ray queries over the same actors.
- **Axis-aligned bounding box.** The box value and the slab test a ray query needs.
- **Reference-counted GPU caches.** Three caches follow one pattern:
  - the geometry `MeshManager`, which uploads meshes;
  - the core `MeshManager`, which creates them on demand;
  - the client `MaterialManager`.
- **Render batches.** The transforms drawn with one (mesh, material) pair, grouped per pair by `RenderBatchCollection`.
- **Smaller values:**
  - `HealthFactor`, with its clamped increase and decrease;
  - `TerrainConfig`'s chunk-type and biome bands;
  - `TerrainIndex`'s position-to-chunk mapping;
  - `UniqueId`'s string form;
  - `IGeometryRig.AllPrimitives`.

Classes whose fields the C# code updates in place are Dafny classes:
- the grid;
- the three managers;
- `RenderBatch` and `RenderBatchCollection`;
- `HealthFactor`.

The grid, the three managers and `RenderBatchCollection` have a `Valid()` invariant; `RenderBatch` and `HealthFactor` need none. Each method states its whole new state. The invariants and their preservation are proved on values in the modules `GridInvariant` and `RefCounts`, so the class methods only connect the two. Records and pure computations are datatypes, functions and lemmas.

Floats are modelled as `real`. A `(int)MathF.Floor(x / l)` cell or chunk coordinate is the mathematical floor. Hash codes (`HashCode.Combine`) are given to the managers as functions, so equal inputs give equal handles and nothing more is assumed.

## Model

| member | source | states |
|---|---|---|
| BoundingBoxes.AxisAlignedBoundingBox.Center | src/Flop.Core/Geometry/AxisAlignedBoundingBox.cs:24 | the center is equally far from min and max |
| BoundingBoxes.AxisAlignedBoundingBox.Size | src/Flop.Core/Geometry/AxisAlignedBoundingBox.cs:29 | min plus the size is max |
| BoundingBoxes.AxisAlignedBoundingBox.Extents | src/Flop.Core/Geometry/AxisAlignedBoundingBox.cs:34 | center minus the extents is min, center plus the extents is max |
| BoundingBoxes.FromCenterAndSize | src/Flop.Core/Geometry/AxisAlignedBoundingBox.cs:53-57 | the box built from a center and a size has that center and that size |
| BoundingBoxes.FromCenterAndExtents | src/Flop.Core/Geometry/AxisAlignedBoundingBox.cs:65-68 | the box built from a center and extents has that center and those extents |
| BoundingBoxes.FromPoints | src/Flop.Core/Geometry/AxisAlignedBoundingBox.cs:76-94 | an empty point set is an ArgumentException; otherwise the box is well formed, contains every point, each of its six faces is attained by some point, and a single point gives the degenerate box at that point |
| BoundingBoxes.SinglePointSize | src/Flop.Core/Geometry/AxisAlignedBoundingBox.cs:76-94 | the box of one point has size zero and contains the point |
| BoundingBoxes.AxisAlignedBoundingBox.Contains | src/Flop.Core/Geometry/AxisAlignedBoundingBox.cs:112-120 | a point is contained exactly when it lies between min and max on every axis, faces included; a box that contains any point is well formed |
| BoundingBoxes.AxisAlignedBoundingBox.Intersects | src/Flop.Core/Geometry/AxisAlignedBoundingBox.cs:127-135 | for well-formed boxes, they intersect exactly when the componentwise maximum of their minima lies in both |
| BoundingBoxes.Union | src/Flop.Core/Geometry/AxisAlignedBoundingBox.cs:102-105 | the union's min is below both minima and its max above both maxima, so it contains the corners of each well-formed box and is well formed when either box is |
| BoundingBoxes.ContainsCornersAndCenter | src/Flop.Core/Geometry/AxisAlignedBoundingBox.cs:112-120 | the inclusive test contains min exactly when min <= max, likewise max, and a well-formed box contains its center |
| BoundingBoxes.UnionContains | src/Flop.Core/Geometry/AxisAlignedBoundingBox.cs:102-105 | the union contains every point of either box |
| BoundingBoxes.UnionCommutative | src/Flop.Core/Geometry/AxisAlignedBoundingBox.cs:102-105 | the union does not depend on the order of its arguments |
| BoundingBoxes.UnionSmallest | src/Flop.Core/Geometry/AxisAlignedBoundingBox.cs:102-105 | any box containing the corners of both boxes contains the union's corners |
| BoundingBoxes.IntersectsSymmetric | src/Flop.Core/Geometry/AxisAlignedBoundingBox.cs:127-135 | intersection is symmetric |
| BoundingBoxes.IntersectsIffCommonPoint | src/Flop.Core/Geometry/AxisAlignedBoundingBox.cs:127-135 | two well-formed boxes intersect exactly when some point lies in both (touching faces count) |
| UniqueIds.GuidText | src/Flop.Core/UniqueId.cs:19 | a Guid prints as 36 characters with hyphens at 8, 13, 18 and 23 |
| UniqueIds.ParseGuid | src/Flop.Core/UniqueId.cs:28 | a parsed Guid is the text's 32 digits or its hyphenated form; anything else is a FormatException |
| UniqueIds.ParseGuidText | src/Flop.Core/UniqueId.cs:28 | parsing the printed form of a Guid gives the Guid back |
| UniqueIds.ParseGuidDigits | src/Flop.Core/UniqueId.cs:28 | parsing the 32 bare digits gives the Guid back |
| UniqueIds.ParseGuidBadLength | src/Flop.Core/UniqueId.cs:28 | text of any length other than 32 or 36 is a FormatException |
| UniqueIds.IndexOf | src/Flop.Core/UniqueId.cs:27 | the first occurrence of the character, or -1 exactly when it does not occur |
| UniqueIds.Split | src/Flop.Core/UniqueId.cs:27 | splitting yields at least one piece and no piece contains the separator; text without the separator is its own single piece, and text with it gives at least two pieces, the first being the text before the first separator |
| UniqueIds.SplitAfterPiece | src/Flop.Core/UniqueId.cs:27 | a separator-free piece followed by the separator splits off as the first piece |
| UniqueIds.UniqueId.ToString | src/Flop.Core/UniqueId.cs:19 | the prefix, one hyphen, then the Guid's printed form |
| UniqueIds.FromString | src/Flop.Core/UniqueId.cs:25-29 | IndexOutOfRangeException exactly when the text has no hyphen; otherwise it succeeds exactly when the second hyphen-separated piece parses as a Guid, giving the text before the first hyphen as prefix and that parsed Guid; every failure is an IndexOutOfRange or Format exception |
| UniqueIds.FromStringNoHyphen | src/Flop.Core/UniqueId.cs:25-29 | text without a hyphen has no second piece: IndexOutOfRangeException |
| UniqueIds.FromStringBareDigits | src/Flop.Core/UniqueId.cs:25-29 | a hyphen-free prefix, a hyphen and 32 bare digits parse to that id |
| UniqueIds.SecondPieceOfToString | src/Flop.Core/UniqueId.cs:25-29 | for a hyphen-free prefix the second piece of an id's string is only the Guid's first 8 digits |
| UniqueIds.FromStringOfToStringFails | src/Flop.Core/UniqueId.cs:25-29 | parsing the string of an id with a hyphen-free prefix is a FormatException |
| UniqueIds.FromStringNeverRoundTrips | src/Flop.Core/UniqueId.cs:19-29 | parsing an id's string never gives the id back, whatever its prefix |
| UniqueIds.FromStringFirstHyphen | src/Flop.Core/UniqueId.cs:25-29 | corrected parse: a prefix without hyphens and the Guid parsed from all the rest |
| UniqueIds.FromStringFirstHyphenRoundTrip | src/Flop.Core/UniqueId.cs:19-29 | the corrected parse inverts ToString for every hyphen-free prefix |
| UniqueIds.New | src/Flop.Core/UniqueId.cs:36 | a new id keeps its prefix and, for a hyphen-free prefix, survives the corrected round trip |
| Actors.Others | src/Flop.Core/Spatial/SpatialHashGrid.cs:163-183 | the actors of a list other than the one with the given identity, and only those |
| Actors.DistinctIdsCount | src/Flop.Core/Spatial/SpatialHashGrid.cs:26-29 | a list of actors with distinct identities has as many identities as actors |
| SpatialExtensions.GetCell | src/Flop.Core/Spatial/Extensions.cs:13-21 | for a positive cell length the actor's X lies in [x * l, (x + 1) * l) and its Z in [z * l, (z + 1) * l) of the cell returned |
| SpatialExtensions.GetCellBounds | src/Flop.Core/Spatial/Extensions.cs:13-21 | an actor is in cell (x, z) exactly when its X lies in [x * l, (x + 1) * l) and its Z in [z * l, (z + 1) * l) |
| SpatialExtensions.GetCellIgnoresY | src/Flop.Core/Spatial/Extensions.cs:13-21 | the height of an actor does not change its cell |
| SpatialExtensions.GetCellNegativeCoordinate | src/Flop.Core/Spatial/Extensions.cs:13-21 | cells round toward minus infinity: X = -0.5 with length 10 is cell -1 |
| SpatialExtensions.GetCellNeighbour | src/Flop.Core/Spatial/Extensions.cs:13-21 | actors at most one cell length apart on X and Z are in adjacent cells |
| SpatialExtensions.AddActor | src/Flop.Core/Spatial/Extensions.cs:23-58 | a missing cell gets the one-actor list, an existing cell's list gets the actor appended, every other cell is unchanged |
| SpatialExtensions.AddActorTotal | src/Flop.Core/Spatial/Extensions.cs:23-58 | adding an actor grows the number of bucketed actors by one |
| GridInvariant.EmptyConsistent | src/Flop.Core/Spatial/SpatialHashGrid.cs:26-29 | empty dictionaries satisfy the grid invariant |
| GridInvariant.AddPreserves | src/Flop.Core/Spatial/SpatialHashGrid.cs:52-56 | adding an actor whose identity is new keeps the grid invariant |
| GridInvariant.RemoveFromBucket | src/Flop.Core/Spatial/SpatialHashGrid.cs:76-84 | removing one identity from its cell keeps every other actor of that cell and every other cell; the cell disappears only when no actor is left in it |
| GridInvariant.RemovePreserves | src/Flop.Core/Spatial/SpatialHashGrid.cs:76-84 | removing a stored actor from its cell and the index keeps the grid invariant |
| SpatialHashGrids.GetCellsNearCell | src/Flop.Core/Spatial/SpatialHashGrid.cs:225-245 | nine distinct cells, the cell itself in the middle, exactly the cells adjacent to it |
| SpatialHashGrids.RemoveActorAsWritten | src/Flop.Core/Spatial/SpatialHashGrid.cs:62-84 | as written: the identity leaves the index and its whole cell is dropped; an absent identity drops cell (0, 0) |
| SpatialHashGrids.GatherContains | src/Flop.Core/Spatial/SpatialHashGrid.cs:163-183 | the gathered list holds an actor exactly when it is in one of the listed cells and is not the querying actor |
| SpatialHashGrids.AppendOthers | src/Flop.Core/Spatial/SpatialHashGrid.cs:172-180 | the loop appends exactly the bucket's actors other than the querying one, in order |
| SpatialHashGrids.SpatialHashGrid.constructor | src/Flop.Core/Spatial/SpatialHashGrid.cs:31-46 | the grid stores every given actor under its identity, one entry per actor, and is valid |
| SpatialHashGrids.SpatialHashGrid.AddActor | src/Flop.Core/Spatial/SpatialHashGrid.cs:52-56 | a new actor is stored, indexed under its cell and appended to that cell's bucket |
| SpatialHashGrids.SpatialHashGrid.RemoveActorByIdentity | src/Flop.Core/Spatial/SpatialHashGrid.cs:76-84 | corrected: the identity leaves the store and the index and only it leaves its cell's bucket; an absent identity changes no bucket |
| SpatialHashGrids.SpatialHashGrid.RemoveActor | src/Flop.Core/Spatial/SpatialHashGrid.cs:62-70 | removing by actor is removing by its identity |
| SpatialHashGrids.SpatialHashGrid.GetAll | src/Flop.Core/Spatial/SpatialHashGrid.cs:89-92 | every stored actor once, nothing else: as many as stored and as bucketed; the result is the enumeration of the bucket map, a function of the grid's state |
| SpatialHashGrids.SpatialHashGrid.GetActorFromIdentity | src/Flop.Core/Spatial/SpatialHashGrid.cs:103-120 | the stored actor of that identity, or none exactly when none is stored |
| SpatialHashGrids.SpatialHashGrid.GetActorsCurrentCell | src/Flop.Core/Spatial/SpatialHashGrid.cs:193-196 | the cell of the stored actor's position; KeyNotFoundException exactly when the actor is not stored |
| SpatialHashGrids.SpatialHashGrid.GetActorsInCell | src/Flop.Core/Spatial/SpatialHashGrid.cs:205-218 | exactly the stored actors indexed to the cell, each once; empty exactly when the cell has no bucket |
| SpatialHashGrids.SpatialHashGrid.TryUpdateActorPosition | src/Flop.Core/Spatial/SpatialHashGrid.cs:129-149 | an unknown actor is a KeyNotFoundException; true exactly when the actor's cell changes, in which case it moves buckets and the index; false changes nothing. The move uses the corrected single-actor removal; as written, line 141 calls the whole-bucket RemoveActor, which also drops the actor's former cell-mates (see Findings) |
| SpatialHashGrids.SpatialHashGrid.GetActorsNear | src/Flop.Core/Spatial/SpatialHashGrid.cs:163-183 | exactly the other stored actors whose cell is adjacent to the actor's cell |
| SpatialHashGrids.SpatialHashGrid.NearMembers | src/Flop.Core/Spatial/SpatialHashGrid.cs:163-183 | membership in the near list is adjacency of cells, for any querying actor |
| SpatialHashGrids.SpatialHashGrid.GatherMembers | src/Flop.Core/Spatial/SpatialHashGrid.cs:163-183 | gathering any list of cells yields exactly the other stored actors indexed to those cells |
| SpatialHashGrids.SpatialHashGrid.ActorsNearComplete | src/Flop.Core/Spatial/SpatialHashGrid.cs:163-183 | every other stored actor within one cell length on X and Z is found |
| SpatialHashGrids.SpatialHashGrid.ActorsNearWithinCellLength | src/Flop.Core/Spatial/SpatialHashGrid.cs:163-183 | every other stored actor within Euclidean distance of one cell length is found |
| SpatialHashGrids.SpatialHashGrid.RemoveAsWrittenLosesNeighbour | src/Flop.Core/Spatial/SpatialHashGrid.cs:76-84 | as written, removing one of two actors sharing a cell drops the other from the buckets while it stays indexed |
| SpatialHashGrids.SpatialHashGrid.RemoveAsWrittenAbsentDropsOrigin | src/Flop.Core/Spatial/SpatialHashGrid.cs:76-84 | as written, removing an identity that is not stored drops the actors of cell (0, 0) |
| SpatialHashGrids.SpatialHashGrid.RemoveKeepsNeighbour | src/Flop.Core/Spatial/SpatialHashGrid.cs:76-84 | corrected removal keeps the other actor of a shared cell in its bucket |
| Rays.ClipAxisHolds | src/Flop.Core/Spatial/ISpatialQueryEngine.cs:47-54 | a ray parameter survives clipping on one axis exactly when it was in the span and puts the point between that axis's faces |
| Rays.HitSpanHolds | src/Flop.Core/Spatial/ISpatialQueryEngine.cs:47-54 | the span after three clips is exactly the parameters in [0, maxDistance] at which the box contains the ray's point |
| Rays.ContainsOnSlabs | src/Flop.Core/Geometry/AxisAlignedBoundingBox.cs:112-120 | the box contains a ray point exactly when the point is between the faces on all three axes |
| Rays.HitSound | src/Flop.Core/Spatial/ISpatialQueryEngine.cs:47-54 | a reported hit is a point of the box at a parameter in [0, maxDistance] |
| Rays.HitComplete | src/Flop.Core/Spatial/ISpatialQueryEngine.cs:47-54 | every point of the box on the ray within range is found, no earlier than the reported one |
| Rays.HitFromInside | src/Flop.Core/Spatial/ISpatialQueryEngine.cs:47-54 | a ray starting inside a box hits it at parameter 0 |
| Rays.HitAheadNotBehind | src/Flop.Core/Spatial/ISpatialQueryEngine.cs:47-54 | a box ahead is hit at its near face; the same box behind the origin is missed |
| SpatialQueries.GetInside | src/Flop.Core/Spatial/ISpatialQueryEngine.cs:14-19 | exactly the actors whose position the box contains |
| SpatialQueries.GetInsideMultiplicity | src/Flop.Core/Spatial/ISpatialQueryEngine.cs:14-19 | every occurrence of an actor inside the box is kept and none outside it |
| SpatialQueries.GetInRange | src/Flop.Core/Spatial/ISpatialQueryEngine.cs:21-27 | exactly the actors within the range of the position |
| SpatialQueries.GetInRangeMultiplicity | src/Flop.Core/Spatial/ISpatialQueryEngine.cs:21-27 | every occurrence of an actor in range is kept and none out of range |
| SpatialQueries.GetInRangeAppend | src/Flop.Core/Spatial/ISpatialQueryEngine.cs:21-27 | the range query over two enumerations is the concatenation of the queries over each |
| SpatialQueries.CountInRange | src/Flop.Core/Spatial/ISpatialQueryEngine.cs:74-77 | the number of actors GetInRange yields, so zero exactly when no actor is within range, and never more than the actors |
| SpatialQueries.CountInRangeAppend | src/Flop.Core/Spatial/ISpatialQueryEngine.cs:74-77 | counting over two enumerations adds their counts |
| SpatialQueries.CountInRangeThreeOfFour | tests/Flop.Core.Tests/Spatial/SpatialHashGridTests.cs:438-453 | actors at X = 1, 2, 3 and 50 give a count of 3 within range 10 of the origin |
| SpatialQueries.AnyInRange | src/Flop.Core/Spatial/ISpatialQueryEngine.cs:85-88 | true exactly when some actor is within range, which is a positive count |
| SpatialQueries.TakeCount | src/Flop.Core/Spatial/ISpatialQueryEngine.cs:37 | count actors when that many are in range, all of them otherwise, none for a count of zero or less |
| SpatialQueries.GetNearest | src/Flop.Core/Spatial/ISpatialQueryEngine.cs:29-37 | as many actors in range as the count allows, in ascending order of distance |
| SpatialQueries.NearestOrderActors | src/Flop.Core/Spatial/ISpatialQueryEngine.cs:29-37 | sorting the in-range actors by distance keeps each of them exactly as often as the range query yields it |
| SpatialQueries.GetNearestSubMultiset | src/Flop.Core/Spatial/ISpatialQueryEngine.cs:29-37 | no actor is returned more often than the range query yields it |
| SpatialQueries.GetNearestClosest | src/Flop.Core/Spatial/ISpatialQueryEngine.cs:29-37 | every returned actor is at least as close as any in-range actor left out |
| SpatialQueries.GetNearestOne | src/Flop.Core/Spatial/ISpatialQueryEngine.cs:39-45 | none exactly when nothing is in range; otherwise an in-range actor no farther than any other in range |
| SpatialQueries.NearestConsistent | tests/Flop.Core.Tests/Spatial/SpatialHashGridTests.cs:555-570 | two nearest queries on an unchanged grid give the same actor, even with two actors equally near |
| SpatialQueries.RaycastAllMultiplicity | src/Flop.Core/Spatial/ISpatialQueryEngine.cs:47-54 | every occurrence of an actor whose box the ray hits is kept and none of one it misses |
| SpatialQueries.RaycastAll | src/Flop.Core/Spatial/ISpatialQueryEngine.cs:47-54 | exactly the actors whose box the ray hits within maxDistance |
| SpatialQueries.RaycastAllOrdered | src/Flop.Core/Spatial/ISpatialQueryEngine.cs:47-54 | the hits are in ascending order of the hit parameter |
| SpatialQueries.RaycastAllSoundComplete | src/Flop.Core/Spatial/ISpatialQueryEngine.cs:47-54 | every listed actor's box contains a point of the ray within range, and every actor whose box does is listed |
| SpatialQueries.Raycast | src/Flop.Core/Spatial/ISpatialQueryEngine.cs:63-66 | none exactly when no box is hit; otherwise a hit actor whose hit is no later than any other |
| SpatialQueries.RaycastFromInside | src/Flop.Core/Spatial/ISpatialQueryEngine.cs:63-66 | a ray starting inside an actor's box finds an actor hit at parameter 0 |
| SpatialQueries.InRangeBeyondNeighbourCells | src/Flop.Core/Spatial/ISpatialQueryEngine.cs:21-27 | the range query reaches actors outside the 3 x 3 block of cells that GetActorsNear searches |
| RefCounts.Acquire | src/Flop.Core/Geometry/MeshManager.cs:27-42 | one acquisition: the handle's count goes up by one from 0 when new; other counts are unchanged |
| RefCounts.Release | src/Flop.Core/Geometry/MeshManager.cs:93-117 | one release: the count goes down by one, and the handle leaves when it reaches zero; other counts are unchanged |
| RefCounts.AcquirePreserves | src/Flop.Core/Geometry/MeshManager.cs:27-42 | acquiring keeps cache and counts over the same keys with every count at least one |
| RefCounts.ReleasePreserves | src/Flop.Core/Geometry/MeshManager.cs:93-117 | releasing keeps that agreement: the resource leaves the cache with its last reference |
| RefCounts.CountZeroIffUncached | src/Flop.Core/Geometry/MeshManager.cs:133-144 | counts are never negative and a handle's count is zero exactly when it is not cached |
| RefCounts.ReleaseUndoesAcquire | src/Flop.Core/Geometry/MeshManager.cs:27-117 | releasing what was just acquired restores the counts |
| RefCounts.UnloadsAll | src/Flop.Core/Geometry/MeshManager.cs:155-166 | once nothing is left to unload, the log unloads each cached resource exactly once |
| GeometryMeshes.MeshManager.constructor | src/Flop.Core/Geometry/MeshManager.cs:11-14 | an empty cache and empty counts |
| GeometryMeshes.MeshManager.UploadMesh | src/Flop.Core/Geometry/MeshManager.cs:27-71 | an unknown primitive type is an ArgumentException changing nothing; a miss generates, uploads and caches the mesh once; either way the handle's count goes up by one |
| GeometryMeshes.MeshManager.GetMesh | src/Flop.Core/Geometry/MeshManager.cs:77-87 | the cached mesh exactly when the handle is held, InvalidOperationException otherwise |
| GeometryMeshes.MeshManager.Release | src/Flop.Core/Geometry/MeshManager.cs:93-117 | a handle not held is an InvalidOperationException changing nothing; the last reference unloads the mesh and removes the handle; others only count down |
| GeometryMeshes.MeshManager.ReleasePrimitive | src/Flop.Core/Geometry/MeshManager.cs:123-127 | release of the primitive's handle, with the unknown-type exception first: an unheld handle throws and changes nothing; otherwise the count drops, the last reference unloads the cached mesh and removes it from the cache, an earlier one leaves cache and unload log alone, and nothing is uploaded |
| GeometryMeshes.MeshManager.GetRefCount | src/Flop.Core/Geometry/MeshManager.cs:133-136 | never negative; zero exactly when the handle is not cached |
| GeometryMeshes.MeshManager.IsCached | src/Flop.Core/Geometry/MeshManager.cs:141-144 | cached exactly when counted |
| GeometryMeshes.MeshManager.CachedMeshCount | src/Flop.Core/Geometry/MeshManager.cs:149 | the number of handles held |
| GeometryMeshes.MeshManager.Dispose | src/Flop.Core/Geometry/MeshManager.cs:155-166 | each cached mesh is unloaded exactly once with its own handle, after what was unloaded before, and both dictionaries end empty |
| GeometryMeshes.ReleaseByPrimitiveUnloadsOnce | tests/Flop.Core.Tests/MeshManagerTests.cs:120-133 | acquiring a primitive once and releasing it by the primitive succeeds, unloads exactly one mesh and leaves the handle uncached |
| CoreMeshes.MeshManager.constructor | src/Flop.Core/MeshManager.cs:11-14 | an empty cache and empty counts |
| CoreMeshes.MeshManager.GetOrCreate | src/Flop.Core/MeshManager.cs:21-36 | an unknown primitive type is an ArgumentException changing nothing; otherwise the cached mesh of its handle, created and uploaded once on a miss, with the count up by one |
| CoreMeshes.MeshManager.Release | src/Flop.Core/MeshManager.cs:42-66 | a handle not held is an InvalidOperationException changing nothing; the last reference unloads the mesh and removes the handle |
| CoreMeshes.MeshManager.ReleasePrimitive | src/Flop.Core/MeshManager.cs:72-75 | release of the primitive's handle, with the unknown-type exception first: an unheld handle throws and changes nothing; otherwise the count drops, the last reference unloads the cached mesh and removes it from the cache, an earlier one leaves cache and unload log alone, and nothing is uploaded |
| CoreMeshes.MeshManager.GetRefCount | src/Flop.Core/MeshManager.cs:81-84 | never negative; zero exactly when the handle is not cached |
| CoreMeshes.MeshManager.IsCached | src/Flop.Core/MeshManager.cs:89-92 | cached exactly when counted |
| CoreMeshes.MeshManager.CachedMeshCount | src/Flop.Core/MeshManager.cs:97 | the number of handles held |
| CoreMeshes.MeshManager.Dispose | src/Flop.Core/MeshManager.cs:103-114 | each cached mesh is unloaded exactly once and both dictionaries end empty |
| Materials.MaterialManager.constructor | src/Flop.Client/Rendering/MaterialManager.cs:11-15 | an empty cache and empty counts |
| Materials.MaterialManager.GetOrCreate | src/Flop.Client/Rendering/MaterialManager.cs:25-39 | the cached material of the colour's handle, loaded once on a miss, with the count up by one |
| Materials.MaterialManager.Release | src/Flop.Client/Rendering/MaterialManager.cs:45-69 | a handle not held is an InvalidOperationException changing nothing; the last reference unloads the material and removes the handle |
| Materials.MaterialManager.ReleaseMaterial | src/Flop.Client/Rendering/MaterialManager.cs:75-78 | release of the material's handle: an unheld handle throws and changes nothing; otherwise the count drops, the last reference unloads the cached material and removes it from the cache, an earlier one leaves cache and unload log alone, and nothing is loaded |
| Materials.MaterialManager.GetRefCount | src/Flop.Client/Rendering/MaterialManager.cs:84-87 | never negative; zero exactly when the handle is not cached |
| Materials.MaterialManager.IsCached | src/Flop.Client/Rendering/MaterialManager.cs:92-95 | cached exactly when counted |
| Materials.MaterialManager.CachedMaterialCount | src/Flop.Client/Rendering/MaterialManager.cs:100 | the number of handles held |
| Materials.MaterialManager.Dispose | src/Flop.Client/Rendering/MaterialManager.cs:106-117 | each cached material is unloaded exactly once and both dictionaries end empty |
| Materials.CountsUpAndDown | tests/Flop.Client.Tests/Rendering/MaterialManagerTests.cs:35-65 | three acquisitions count 1, 2, 3 and two releases count back 2, 1, with one cache entry throughout |
| Materials.ReleaseTwice | tests/Flop.Client.Tests/Rendering/MaterialManagerTests.cs:67-105 | releasing the only reference succeeds and uncaches the material; releasing again is an InvalidOperationException |
| Materials.ReleaseByMaterialUnloadsOnce | tests/Flop.Client.Tests/Rendering/MaterialManagerTests.cs:107-119 | acquiring a material once and releasing it by the material succeeds, unloads exactly one material and leaves the handle uncached |
| Materials.DistinctMaterialsCounted | tests/Flop.Client.Tests/Rendering/MaterialManagerTests.cs:134-151 | the cache holds 0, 1, 1, then 2 materials as the same and then a different colour is acquired |
| RenderBatches.Appended | src/Flop.Client/Rendering/RenderBatchCollection.cs:18-33 | the key's list grows by the transform at its end, starting from empty for a new key; other keys keep their lists |
| RenderBatches.AppendedTotal | src/Flop.Client/Rendering/RenderBatchCollection.cs:63-74 | adding an instance grows the total instance count by one |
| RenderBatches.InjectiveValuesCount | src/Flop.Client/Rendering/RenderBatchCollection.cs:38-41 | a dictionary with distinct values has as many values as keys |
| RenderBatches.RenderBatch.constructor | src/Flop.Client/Rendering/RenderBatch.cs:11-17 | the batch keeps its two handles and has no transforms |
| RenderBatches.RenderBatch.Add | src/Flop.Client/Rendering/RenderBatch.cs:22-25 | the transform is appended |
| RenderBatches.RenderBatch.Clear | src/Flop.Client/Rendering/RenderBatch.cs:30-33 | no transforms are left |
| RenderBatches.RenderBatchCollection.constructor | src/Flop.Client/Rendering/RenderBatchCollection.cs:12 | no batches |
| RenderBatches.RenderBatchCollection.AddInstance | src/Flop.Client/Rendering/RenderBatchCollection.cs:18-33 | the pair's batch, created on first use and reused after, gets the transform appended; existing batch objects and other lists are unchanged |
| RenderBatches.RenderBatchCollection.AppendToBatch | src/Flop.Client/Rendering/RenderBatchCollection.cs:26-32 | the existing batch of the key gets the transform appended and nothing else changes |
| RenderBatches.RenderBatchCollection.GetBatches | src/Flop.Client/Rendering/RenderBatchCollection.cs:38-41 | every batch, as many as there are pairs, each under its own pair of handles |
| RenderBatches.RenderBatchCollection.Clear | src/Flop.Client/Rendering/RenderBatchCollection.cs:47-53 | the same batches stay, every list is emptied, and the total becomes zero |
| RenderBatches.RenderBatchCollection.BatchCount | src/Flop.Client/Rendering/RenderBatchCollection.cs:58 | the number of distinct (mesh, material) pairs |
| RenderBatches.RenderBatchCollection.TotalInstanceCount | src/Flop.Client/Rendering/RenderBatchCollection.cs:63-74 | the sum of the lengths of all batches' transform lists |
| HealthFactors.TypeOfCode | src/Flop.Core/HealthFactorType.cs:6-22 | codes 0 to 2 and only they name a health factor type, the inverse of its declaration order |
| HealthFactors.CodeRoundTrip | src/Flop.Core/HealthFactorType.cs:6-22 | a type's code maps back to the type |
| HealthFactors.DescriptionsDistinct | src/Flop.Core/HealthFactor.cs:44-51 | two types have the same description exactly when they are the same type |
| HealthFactors.Increased | src/Flop.Core/HealthFactor.cs:57-60 | the sum capped at the maximum: never above either, and equal to one of them |
| HealthFactors.Decreased | src/Flop.Core/HealthFactor.cs:66-69 | the difference floored at zero: never below either, and equal to one of them |
| HealthFactors.StepsKeepRange | src/Flop.Core/HealthFactor.cs:57-69 | with a non-negative amount both steps keep a value in [0, max] |
| HealthFactors.IncreaseByZeroClampsOverfull | src/Flop.Core/HealthFactor.cs:57-60 | an increase by zero pulls an over-full value down to the maximum |
| HealthFactors.HealthFactor.constructor | src/Flop.Core/HealthFactor.cs:7-51 | the given values and type; higher is better exactly for hit points; the description is the type's |
| HealthFactors.HealthFactor.Increase | src/Flop.Core/HealthFactor.cs:57-60 | the current value is increased with the cap, and stays in [0, max] for a non-negative amount |
| HealthFactors.HealthFactor.Decrease | src/Flop.Core/HealthFactor.cs:66-69 | the current value is decreased with the floor, and stays in [0, max] for a non-negative amount |
| HealthFactors.HealthFactor.FractionValue | src/Flop.Core/HealthFactor.cs:22 | undefined exactly when the maximum is zero; otherwise the fraction times the maximum is the current value, within [0, 1] for an in-range value |
| HealthFactors.Create | src/Flop.Core/HealthFactor.cs:32-51 | a type code outside the enum is an ArgumentException; otherwise a fresh factor with the given values |
| Terrain.TerrainConfig.GetChunkType | src/Flop.Core/Terrain/TerrainConfig.cs:65-79 | water exactly below the water cutoff, sand exactly from it to below the sand cutoff, grass exactly from both on |
| Terrain.ChunkTypeMonotone | src/Flop.Core/Terrain/TerrainConfig.cs:65-79 | with ordered cutoffs, more noise never gives lower terrain (water, sand, grass) |
| Terrain.TerrainConfig.GetBiome | src/Flop.Core/Terrain/TerrainConfig.cs:86-96 | meadow exactly below the meadow cutoff, snow exactly from it on |
| Terrain.DefaultReachesEverything | src/Flop.Core/Terrain/TerrainConfig.cs:48-58 | the default cutoffs are ordered and every chunk type and biome occurs for some noise in [0, 1] |
| Terrain.FromPosition | src/Flop.Core/StaticEntities/Terrain/TerrainIndex.cs:18-21 | undefined exactly for chunk size zero; otherwise the floored chunk coordinates |
| Terrain.ToPosition | src/Flop.Core/StaticEntities/Terrain/TerrainIndex.cs:28-31 | the chunk's origin at height 0, which maps back to the same index |
| Terrain.FromPositionSquare | src/Flop.Core/StaticEntities/Terrain/TerrainIndex.cs:18-21 | for a positive size, a position is in chunk (x, z) exactly when it lies in that chunk's half-open square |
| Terrain.NegativePositionNegativeIndex | src/Flop.Core/StaticEntities/Terrain/TerrainIndex.cs:18-21 | negative coordinates fall in chunk -1; 0 and 31 with size 32 fall in chunk 0 |
| GeometryRigs.AllPrimitives | src/Flop.Core/Geometry/IGeometryRig.cs:26-35 | as many primitives as the components hold together |
| GeometryRigs.AllPrimitivesAppend | src/Flop.Core/Geometry/IGeometryRig.cs:26-35 | flattening distributes over concatenation of components |
| GeometryRigs.ComponentBlock | src/Flop.Core/Geometry/IGeometryRig.cs:26-35 | each component's primitives appear, in order, as one contiguous block at the position of the components before it |
| GeometryRigs.AllPrimitivesMembers | src/Flop.Core/Geometry/IGeometryRig.cs:26-35 | a primitive is yielded exactly when some component holds it |
| GeometryRigs.AllPrimitivesCounts | tests/Flop.Core.Tests/Geometry/GeometryRigTests.cs:23-43 | an empty rig yields nothing; a three-primitive capsule and a sphere yield four primitives in order |

## Left out

- SpatialHashGrids.SpatialHashGrid.GetAll: the buckets are enumerated in ascending cell order (by x, then by z). .NET's `Dictionary` enumerates in an order it does not specify, so the model fixes one. The set of actors, the order inside each bucket, and the fact that an unchanged grid enumerates the same way every time are as in the source; the particular order of the buckets is not.

- Floating point: positions, box corners, health values, noise values and cutoffs are `real`. Rounding, NaN, infinities and the overflow of `(int)` casts are not modelled.
- Hash codes: `HashCode.Combine` is given as a function. Hash collisions between different primitives or colours are therefore not excluded, and handles are only as distinct as the function makes them.
- `MeshHandle(IGeometryPrimitive)` (src/Flop.Core/Geometry/MeshHandle.cs:10-23) and `ComputeHash` are modelled as that given function. Its `None` is the ArgumentException for an unknown primitive type.
- The uploader, the generator and the material loader are given as functions. What they are asked to upload, load and unload is kept as a ghost log. The geometry uploader's in-place update of the mesh it is given is not modelled.
- The parameterless constructors of the managers build the Raylib implementations. They are not part of this model.
- `RenderBatch.Draw` issues GPU calls and is not modelled. Matrix transforms are an opaque type parameter.
- The spatial query interface has no implementation in the repository. It is stated over the grid's enumeration of its actors with the semantics its documentation gives. Actors carry no bounding box, so the ray queries take each actor's box as a parameter.
- SpatialQueries.GetNearest: does not promise which of several equally distant actors is kept when the count cuts between them. The interface leaves ties unspecified.
- SpatialQueries.RaycastAllOrdered: ties between equal hit parameters are left unordered for the same reason.
- SpatialHashGrids.SpatialHashGrid.constructor: requires a positive cell length and distinct actor identities. The C# constructor checks neither, and repeated identities would make its index and buckets disagree.
- Actors are an abstract C# class compared by reference. Here they are values compared by value, so two actor objects with the same identity and position become one value, and the queries over a list of actors count them as one actor listed twice. Inside the grid this is harmless: its `DistinctIds` invariant keeps one actor per identity, and the grid compares identities, not objects. Render batches are Dafny objects, so their reference identity is kept.
- CoreMeshes.MeshManager.GetOrCreate: the cached and returned mesh is the generated one; `Raylib.UploadMesh(ref mesh, false)` updates the mesh in place (setting its GPU ids), and that update is not modelled.
- `Guid` formatting and parsing cover only the hyphenated "D" form and the 32-digit "N" form, in lower case. The other formats `Guid.Parse` accepts, and upper case, are not modelled.
- `Guid.NewGuid()` randomness is a parameter of `UniqueIds.New`.
- Dispose releases the cache in an order chosen by the model, where C# uses dictionary order. `GC.SuppressFinalize` has no counterpart.
- RenderBatches.RenderBatchCollection.TotalInstanceCount: does not model 32-bit overflow of the running `int` total.
- HealthFactors.HealthFactor.Increase: keeps the value in [0, max] only for a non-negative amount. A negative amount can leave the range in C#, and the model computes the same value.
- HealthFactors.HealthFactor.FractionValue: a zero maximum gives NaN or infinity in C#. Here it is "no value".
- Terrain.FromPosition: a zero chunk size gives an undefined cast in C#. Here it is "no index".
- The seed and the variation scales of `TerrainConfig` feed Perlin noise, which is not part of this model.
- The repository's tests call `RenderBatchCollection.AddPrimitive` and `MeshManager.GetOrCreate(uploader, generator)`, which do not exist in the source files modelled. The model follows the source.
- `MeshHandle.FromHashCode`, called at src/Flop.Core/Geometry/MeshManager.cs:30 and :126, is not defined in src/Flop.Core/Geometry/MeshHandle.cs. The model reads it as the handle that wraps the hash.
- SpatialHashGrids.SpatialHashGrid.AddActor: requires the identity to be absent; re-adding an identity (index overwritten, stale bucket entry kept) is not modelled.

## Findings

| source | as written | input that shows it | evidently intended | confidence | as-written member | corrected member |
|---|---|---|---|---|---|---|
| src/Flop.Core/UniqueId.cs:25-29 | splits the id at every hyphen and parses only the second piece as the Guid | the string of any id whose prefix has no hyphen: the Guid text has four hyphens, so the second piece is its first 8 digits and parsing fails | split at the first hyphen only, so that FromString inverts ToString | high; not executed | UniqueIds.FromStringNeverRoundTrips | UniqueIds.FromStringFirstHyphenRoundTrip |
| src/Flop.Core/Spatial/SpatialHashGrid.cs:62-84 | removes the actor's whole cell from the bucket dictionary, and for an unknown identity removes cell (0, 0); TryUpdateActorPosition (line 141) moves an actor through this same removal | two actors in one cell: removing one, or moving one to another cell, drops the other from the buckets while it stays indexed; removing an unknown identity drops everyone in cell (0, 0) | remove only that actor from its cell's list, and change nothing for an unknown identity | high; not executed | SpatialHashGrids.SpatialHashGrid.RemoveAsWrittenLosesNeighbour | SpatialHashGrids.SpatialHashGrid.RemoveKeepsNeighbour |
