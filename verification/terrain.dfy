/** Procedural terrain (src/Flop.Core/Terrain/TerrainConfig.cs and
    src/Flop.Core/StaticEntities/Terrain/TerrainIndex.cs): the cut-offs that
    turn a noise value into a chunk type and a biome, and the index of the
    square chunk that contains a point of the horizontal plane.
    Single-precision floats are modelled as reals. */
module Terrain {
  import opened Numerics
  import opened Outcomes

  datatype TerrainChunkType = Grass | Sand | Water

  datatype Biome = Meadow | Snow

  /** Water lies lowest, then sand, then grass. */
  function Rank(t: TerrainChunkType): int {
    match t
    case Water => 0
    case Sand => 1
    case Grass => 2
  }

  datatype TerrainConfig = TerrainConfig(
    seed: nat,
    chunkSize: real,
    waterCutoff: real,
    sandCutoff: real,
    chunkVariationScale: real,
    meadowCutoff: real,
    biomeVariationScale: real)
  {
    /** GetChunkType: water below the water cut-off, else sand below the sand
        cut-off, else grass. Each type is chosen for exactly one band of noise
        values; the sand band is empty when the sand cut-off is not above the
        water one. */
    function GetChunkType(noiseValue: real): (t: TerrainChunkType)
      ensures t == Water <==> noiseValue < waterCutoff
      ensures t == Sand <==> waterCutoff <= noiseValue < sandCutoff
      ensures t == Grass <==> noiseValue >= waterCutoff && noiseValue >= sandCutoff
    {
      if noiseValue < waterCutoff then Water
      else if noiseValue < sandCutoff then Sand
      else Grass
    }

    /** GetBiome: meadow below the meadow cut-off, else snow. */
    function GetBiome(noiseValue: real): (b: Biome)
      ensures b == Meadow <==> noiseValue < meadowCutoff
      ensures b == Snow <==> noiseValue >= meadowCutoff
    {
      if noiseValue < meadowCutoff then Meadow else Snow
    }
  }

  /** TerrainConfig.Default. The seed is an unsigned 32-bit value. */
  const Default: TerrainConfig := TerrainConfig(42, 32.0, 0.3, 0.4, 100.0, 0.6, 200.0)

  /** With the cut-offs in order, a larger noise value never gives a lower
      chunk type. */
  lemma ChunkTypeMonotone(config: TerrainConfig, a: real, b: real)
    requires config.waterCutoff <= config.sandCutoff && a <= b
    ensures Rank(config.GetChunkType(a)) <= Rank(config.GetChunkType(b))
  {
  }

  /** The default cut-offs are in order, so every chunk type and both biomes
      occur for some noise value in [0, 1]. */
  lemma DefaultReachesEverything()
    ensures Default.waterCutoff < Default.sandCutoff
    ensures exists n: real :: 0.0 <= n <= 1.0 && Default.GetChunkType(n) == Water
    ensures exists n: real :: 0.0 <= n <= 1.0 && Default.GetChunkType(n) == Sand
    ensures exists n: real :: 0.0 <= n <= 1.0 && Default.GetChunkType(n) == Grass
    ensures exists n: real :: 0.0 <= n <= 1.0 && Default.GetBiome(n) == Meadow
    ensures exists n: real :: 0.0 <= n <= 1.0 && Default.GetBiome(n) == Snow
  {
    assert Default.GetChunkType(0.1) == Water;
    assert Default.GetChunkType(0.35) == Sand;
    assert Default.GetChunkType(0.5) == Grass;
    assert Default.GetBiome(0.5) == Meadow;
    assert Default.GetBiome(0.7) == Snow;
  }

  /** A chunk index in the horizontal plane. */
  datatype TerrainIndex = TerrainIndex(x: int, z: int)

  /** FromPosition: (floor(x / chunkSize), floor(z / chunkSize)). A zero
      chunk size makes the float division infinite or NaN, whose int cast
      has no meaningful value: that case is none. */
  function FromPosition(x: real, z: real, chunkSize: real): (r: Option<TerrainIndex>)
    ensures r.None? <==> chunkSize == 0.0
  {
    if chunkSize == 0.0 then None
    else Some(TerrainIndex(FloorDiv(x, chunkSize), FloorDiv(z, chunkSize)))
  }

  /** ToPosition: the chunk's corner, at height zero. For any non-zero chunk
      size the corner maps back to the chunk it came from. */
  function ToPosition(index: TerrainIndex, chunkSize: real): (r: Vec3)
    ensures r.y == 0.0
    ensures chunkSize != 0.0 ==> FromPosition(r.x, r.z, chunkSize) == Some(index)
  {
    var r := Vec3(index.x as real * chunkSize, 0.0, index.z as real * chunkSize);
    assert chunkSize != 0.0 ==> r.x / chunkSize == index.x as real && r.z / chunkSize == index.z as real;
    r
  }

  /** A point lies in chunk (i, k) exactly when its coordinates lie in
      [i * chunkSize, (i + 1) * chunkSize) and [k * chunkSize, (k + 1) * chunkSize). */
  lemma FromPositionSquare(x: real, z: real, chunkSize: real, index: TerrainIndex)
    requires chunkSize > 0.0
    ensures FromPosition(x, z, chunkSize) == Some(index) <==>
      && index.x as real * chunkSize <= x < (index.x + 1) as real * chunkSize
      && index.z as real * chunkSize <= z < (index.z + 1) as real * chunkSize
  {
    FloorDivBounds(x, chunkSize, index.x);
    FloorDivBounds(z, chunkSize, index.z);
  }

  /** Points just below zero fall in chunk -1, not 0. */
  lemma NegativePositionNegativeIndex()
    ensures FromPosition(-0.5, -31.0, 32.0) == Some(TerrainIndex(-1, -1))
    ensures FromPosition(0.0, 31.0, 32.0) == Some(TerrainIndex(0, 0))
  {
    FromPositionSquare(-0.5, -31.0, 32.0, TerrainIndex(-1, -1));
    FromPositionSquare(0.0, 31.0, 32.0, TerrainIndex(0, 0));
  }
}
