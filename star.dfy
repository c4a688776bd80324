/**
 * `createParticlesFromGLTF` of src/star.js: collect the position buffers of a
 * loaded scene, merge them into one zero-filled buffer of `maxCount * 3`
 * floats, and give every vertex slot a point size.
 */
module Star {
  import opened Wrappers
  import opened StarSpec

  /** The error thrown when no node has a position attribute. */
  datatype ParticleError = NoPositionGeometry

  /** The two attributes given to the points' BufferGeometry. */
  datatype Particles = Particles(positions: array<real>, sizes: array<real>)

  /** The traversal callback: push the position array of every node that has one, in visiting order. */
  method CollectPositions(nodes: seq<SceneNode>) returns (positions: seq<PositionArray>)
    ensures positions == Positions(nodes)
  {
    positions := [];
    var i := 0;
    while i < |nodes|
      invariant 0 <= i <= |nodes|
      invariant positions == Positions(nodes[..i])
    {
      var child := nodes[i];
      if child.geometry.Some? && child.geometry.value.position.Some? {
        positions := positions + [child.geometry.value.position.value.values];
      }
      assert nodes[..i + 1][..i] == nodes[..i];
      i := i + 1;
    }
    assert nodes[..i] == nodes;
  }

  /**
   * Allocate the zero-filled merged buffer and apply every buffer at offset
   * `i * length`, skipping those that would run past its end.
   */
  method MergePositions(positions: seq<PositionArray>) returns (merged: array<real>)
    requires positions != []
    ensures fresh(merged)
    ensures merged.Length == ToIndex(MaxCount(positions) * 3.0) == MaxLength(positions)
    ensures merged[..] == Merged(positions)
  {
    var maxCount := MaxCount(positions);
    TypedArrayLengths(positions);
    ghost var n := MaxLength(positions);
    merged := new real[ToIndex(maxCount * 3.0)](_ => 0.0);
    var i := 0;
    while i < |positions|
      invariant 0 <= i <= |positions|
      invariant merged.Length == n
      invariant forall k :: 0 <= k < n ==> merged[k] == CellAfter(positions, i, n, k)
    {
      var buffer := positions[i];
      var offset := i * |buffer|;
      if offset + |buffer| <= merged.Length {
        forall j | 0 <= j < |buffer| {
          merged[offset + j] := buffer[j];
        }
        forall k | 0 <= k < n
          ensures merged[k] == CellAfter(positions, i + 1, n, k)
        {
          if offset <= k < offset + |buffer| {
            assert merged[offset + (k - offset)] == buffer[k - offset];
          }
        }
      }
      i := i + 1;
    }
    assert merged[..] == Merged(positions);
  }

  /**
   * The whole operation. `sizeDraw(v)` stands for the size `Math.random() * 5 + 3`
   * drawn for vertex slot `v`.
   */
  method CreateParticlesFromGLTF(nodes: seq<SceneNode>, sizeDraw: nat -> real)
    returns (r: Result<Particles, ParticleError>)
    ensures (forall i :: 0 <= i < |nodes| ==> !HasPosition(nodes[i])) <==> r == Failure(NoPositionGeometry)
    ensures Positions(nodes) == [] <==> r == Failure(NoPositionGeometry)
    ensures Positions(nodes) != [] ==> r.Success?
    ensures r.Success? ==>
              var buffers := Positions(nodes);
              var p := r.value;
              && fresh(p.positions) && fresh(p.sizes)
              && buffers != []
              && p.positions[..] == Merged(buffers)
              && p.positions.Length == ToIndex(MaxCount(buffers) * 3.0) == MaxLength(buffers)
              && p.sizes.Length == ToIndex(MaxCount(buffers)) == MaxLength(buffers) / 3
              && forall v :: 0 <= v < p.sizes.Length ==> p.sizes[v] == sizeDraw(v)
  {
    var positions := CollectPositions(nodes);
    NoPositionsIffNoPositionAttribute(nodes);
    if |positions| == 0 {
      return Failure(NoPositionGeometry);
    }
    var merged := MergePositions(positions);
    var maxCount := MaxCount(positions);
    TypedArrayLengths(positions);
    var sizes := new real[ToIndex(maxCount)];
    forall v | 0 <= v < sizes.Length {
      sizes[v] := sizeDraw(v);
    }
    r := Success(Particles(merged, sizes));
  }
}
