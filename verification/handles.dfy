/** The handles that key the GPU caches and the render batches
    (src/Flop.Core/Geometry/MeshHandle.cs, MaterialHandle.cs) and the
    material they are computed from (src/Flop.Core/Material.cs,
    src/Flop.Core/Color.cs). A handle wraps a hash; the hash functions
    themselves (HashCode.Combine, seeded per process) are not modelled and
    are given to the managers as functions, so equal inputs give equal
    handles and nothing more is assumed. */
module Handles {

  datatype MeshHandle = MeshHandle(hash: int)

  datatype MaterialHandle = MaterialHandle(hash: int)

  newtype byte = x: int | 0 <= x < 256

  /** An RGBA colour with 8-bit channels. */
  datatype Color = Color(r: byte, g: byte, b: byte, a: byte)

  /** A solid-colour material. */
  datatype Material = Material(color: Color)
}
