/** IGeometryRig.AllPrimitives (src/Flop.Core/Geometry/IGeometryRig.cs): a rig
    is a list of components, each a list of primitives, and AllPrimitives
    yields every primitive of every component, component by component. The
    primitive type is a type parameter; the components' bounding boxes and
    placement play no part here. */
module GeometryRigs {

  datatype GeometryComponent<P> = GeometryComponent(primitives: seq<P>)

  /** The number of primitives over all components. */
  function PrimitiveCount<P>(components: seq<GeometryComponent<P>>): nat {
    if components == [] then 0
    else PrimitiveCount(components[..|components| - 1]) + |components[|components| - 1].primitives|
  }

  /** AllPrimitives: the components' primitives, one component after the
      other; one entry per primitive. */
  function AllPrimitives<P>(components: seq<GeometryComponent<P>>): (r: seq<P>)
    ensures |r| == PrimitiveCount(components)
  {
    if components == [] then []
    else AllPrimitives(components[..|components| - 1]) + components[|components| - 1].primitives
  }

  /** Flattening a rig made of two lists of components flattens each in turn. */
  lemma {:induction false} AllPrimitivesAppend<P>(a: seq<GeometryComponent<P>>, b: seq<GeometryComponent<P>>)
    ensures AllPrimitives(a + b) == AllPrimitives(a) + AllPrimitives(b)
    decreases |b|
  {
    if b != [] {
      var init := b[..|b| - 1];
      assert (a + b)[..|a + b| - 1] == a + init;
      AllPrimitivesAppend(a, init);
    } else {
      assert a + b == a;
    }
  }

  /** Component i's primitives appear, in their own order, as one block that
      starts after every primitive of the components before it. */
  lemma ComponentBlock<P>(components: seq<GeometryComponent<P>>, i: int)
    requires 0 <= i < |components|
    ensures PrimitiveCount(components[..i]) + |components[i].primitives| == PrimitiveCount(components[..i + 1])
    ensures PrimitiveCount(components[..i + 1]) <= PrimitiveCount(components)
    ensures AllPrimitives(components)[PrimitiveCount(components[..i])..PrimitiveCount(components[..i + 1])]
      == components[i].primitives
  {
    var front := components[..i + 1];
    assert front[..i] == components[..i];
    assert components == front + components[i + 1..];
    AllPrimitivesAppend(front, components[i + 1..]);
  }

  /** A primitive is yielded exactly when some component holds it. */
  lemma {:induction false} AllPrimitivesMembers<P>(components: seq<GeometryComponent<P>>, p: P)
    ensures p in AllPrimitives(components) <==>
      exists i :: 0 <= i < |components| && p in components[i].primitives
  {
    if components != [] {
      var init := components[..|components| - 1];
      AllPrimitivesMembers(init, p);
      if p in AllPrimitives(components) {
        if p !in components[|components| - 1].primitives {
          var i :| 0 <= i < |init| && p in init[i].primitives;
          assert components[i] == init[i];
        }
      } else {
        forall i | 0 <= i < |components|
          ensures p !in components[i].primitives
        {
          if i < |init| {
            assert components[i] == init[i];
          }
        }
      }
    }
  }

  /** A rig with no components yields nothing; a capsule (three primitives)
      and a single sphere yield four. */
  lemma AllPrimitivesCounts<P>(c1: P, c2: P, c3: P, s: P)
    ensures AllPrimitives<P>([]) == []
    ensures AllPrimitives([GeometryComponent([c1, c2, c3]), GeometryComponent([s])]) == [c1, c2, c3, s]
  {
    var rig := [GeometryComponent([c1, c2, c3]), GeometryComponent([s])];
    assert rig[..1][..0] == [];
  }
}
