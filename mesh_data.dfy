/** The per-chunk mesh buffer: an append-only accumulator of vertices, texture coordinates and
    triangle indices, with a running vertex counter that rebases each appended tile's indices. */
module Meshes {
  import opened Geometry

  /** A tile: the mesh fragment of its definition (local vertex positions and triangle indices into
      them) and the atlas texture coordinates computed for it. */
  datatype Tile = Tile(positions: seq<Vector3>, triangles: seq<int>, atlasUVCoords: seq<Vector2>)

  /** Every triangle index of the tile names one of its own vertices. */
  ghost predicate WellFormedTile(tile: Tile)
  {
    forall i :: 0 <= i < |tile.triangles| ==> 0 <= tile.triangles[i] < |tile.positions|
  }

  /** The contents of a mesh buffer, as a value. */
  datatype MeshState = MeshState(vertices: seq<Vector3>, triangles: seq<int>, uvs: seq<Vector2>, vertexIndex: int)

  const Cleared := MeshState([], [], [], 0)

  /** The counter invariant: the running vertex index is the number of vertices appended so far. */
  ghost predicate CounterInvariant(m: MeshState)
  {
    m.vertexIndex == |m.vertices|
  }

  /** Every triangle index names a vertex of the buffer. */
  ghost predicate IndicesInRange(m: MeshState)
  {
    forall i :: 0 <= i < |m.triangles| ==> 0 <= m.triangles[i] < |m.vertices|
  }

  /** The tile's local positions moved to `origin`. */
  function Translated(origin: Vector3, positions: seq<Vector3>): (r: seq<Vector3>)
    ensures |r| == |positions|
    ensures forall i :: 0 <= i < |positions| ==> r[i] == Add3(origin, positions[i])
  {
    if positions == [] then []
    else Translated(origin, positions[..|positions| - 1]) + [Add3(origin, positions[|positions| - 1])]
  }

  /** The tile's triangle indices shifted by the buffer's vertex count. */
  function Rebased(base: int, indices: seq<int>): (r: seq<int>)
    ensures |r| == |indices|
    ensures forall i :: 0 <= i < |indices| ==> r[i] == base + indices[i]
  {
    if indices == [] then []
    else Rebased(base, indices[..|indices| - 1]) + [base + indices[|indices| - 1]]
  }

  /** What one call of AddMesh does to the buffer's contents. */
  function Append(m: MeshState, origin: Vector3, tile: Tile): MeshState
  {
    MeshState(m.vertices + Translated(origin, tile.positions),
              m.triangles + Rebased(m.vertexIndex, tile.triangles),
              m.uvs + tile.atlasUVCoords,
              m.vertexIndex + |tile.positions|)
  }

  /** Appending a tile keeps the buffer's old contents as a prefix and adds, in order: one vertex per tile
      position moved to `origin`, the tile's texture coordinates verbatim, and the tile's triangle indices
      shifted by the old vertex counter; the counter grows by the tile's vertex count. */
  lemma AppendContents(m: MeshState, origin: Vector3, tile: Tile)
    ensures var r := Append(m, origin, tile);
      && |r.vertices| == |m.vertices| + |tile.positions| && r.vertices[..|m.vertices|] == m.vertices
      && (forall i :: 0 <= i < |tile.positions| ==> r.vertices[|m.vertices| + i] == Add3(origin, tile.positions[i]))
      && r.uvs == m.uvs + tile.atlasUVCoords
      && |r.triangles| == |m.triangles| + |tile.triangles| && r.triangles[..|m.triangles|] == m.triangles
      && (forall i :: 0 <= i < |tile.triangles| ==> r.triangles[|m.triangles| + i] == m.vertexIndex + tile.triangles[i])
      && r.vertexIndex == m.vertexIndex + |tile.positions|
  {
    var r := Append(m, origin, tile);
    assert r.vertices[..|m.vertices|] == m.vertices;
    assert r.triangles[..|m.triangles|] == m.triangles;
  }

  /** Appending keeps the counter equal to the vertex count. */
  lemma AppendKeepsCounter(m: MeshState, origin: Vector3, tile: Tile)
    requires CounterInvariant(m)
    ensures CounterInvariant(Append(m, origin, tile))
  {
  }

  /** Appending a well-formed tile to a buffer whose indices are in range keeps every index in range:
      the new indices are rebased past the vertices already there. */
  lemma AppendKeepsIndicesInRange(m: MeshState, origin: Vector3, tile: Tile)
    requires CounterInvariant(m) && IndicesInRange(m) && WellFormedTile(tile)
    ensures IndicesInRange(Append(m, origin, tile))
  {
    var r := Append(m, origin, tile);
    AppendContents(m, origin, tile);
    forall i | 0 <= i < |r.triangles|
      ensures 0 <= r.triangles[i] < |r.vertices|
    {
      if i < |m.triangles| {
        assert r.triangles[i] == r.triangles[..|m.triangles|][i] == m.triangles[i];
      } else {
        var k := i - |m.triangles|;
        assert r.triangles[|m.triangles| + k] == m.vertexIndex + tile.triangles[k];
      }
    }
  }

  class MeshData {
    var vertices: seq<Vector3>
    var triangles: seq<int>
    var uvs: seq<Vector2>
    var vertexIndex: int

    function State(): MeshState
      reads this
    {
      MeshState(vertices, triangles, uvs, vertexIndex)
    }

    /** An empty buffer (the C# constructor's capacity hint only pre-sizes the lists). */
    constructor()
      ensures State() == Cleared
    {
      vertices, triangles, uvs := [], [], [];
      vertexIndex := 0;
    }

    /** Appends one tile placed at `origin`. */
    method AddMesh(origin: Vector3, tile: Tile)
      modifies this
      ensures State() == Append(old(State()), origin, tile)
      ensures CounterInvariant(old(State())) ==> CounterInvariant(State())
    {
      var i := 0;
      while i < |tile.positions|
        invariant 0 <= i <= |tile.positions|
        invariant vertices == old(vertices) + Translated(origin, tile.positions[..i])
        invariant triangles == old(triangles) && uvs == old(uvs) && vertexIndex == old(vertexIndex)
      {
        assert tile.positions[..i + 1][..i] == tile.positions[..i];
        vertices := vertices + [Add3(origin, tile.positions[i])];
        i := i + 1;
      }
      assert tile.positions[..i] == tile.positions;

      i := 0;
      while i < |tile.atlasUVCoords|
        invariant 0 <= i <= |tile.atlasUVCoords|
        invariant uvs == old(uvs) + tile.atlasUVCoords[..i]
        invariant triangles == old(triangles) && vertexIndex == old(vertexIndex)
        invariant vertices == old(vertices) + Translated(origin, tile.positions)
      {
        assert tile.atlasUVCoords[..i + 1] == tile.atlasUVCoords[..i] + [tile.atlasUVCoords[i]];
        uvs := uvs + [tile.atlasUVCoords[i]];
        i := i + 1;
      }
      assert tile.atlasUVCoords[..i] == tile.atlasUVCoords;

      i := 0;
      while i < |tile.triangles|
        invariant 0 <= i <= |tile.triangles|
        invariant triangles == old(triangles) + Rebased(vertexIndex, tile.triangles[..i])
        invariant vertexIndex == old(vertexIndex)
        invariant vertices == old(vertices) + Translated(origin, tile.positions)
        invariant uvs == old(uvs) + tile.atlasUVCoords
      {
        assert tile.triangles[..i + 1][..i] == tile.triangles[..i];
        triangles := triangles + [vertexIndex + tile.triangles[i]];
        i := i + 1;
      }
      assert tile.triangles[..i] == tile.triangles;

      vertexIndex := vertexIndex + |tile.positions|;
    }

    /** Empties the buffer for reuse. */
    method ClearData()
      modifies this
      ensures State() == Cleared
    {
      vertices, triangles, uvs := [], [], [];
      vertexIndex := 0;
    }
  }
}
