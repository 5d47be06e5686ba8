/** The chunk driver: the map is cut into 32 by 32 chunks, each with its own mesh buffer; a chunk's buffer
    is cleared and refilled by autotiling every cell of its footprint in row-major order. */
module MeshGeneration {
  import opened Geometry
  import opened HeightGrid
  import opened Meshes
  import opened AutoTiling

  const ChunkSize := 32

  /** Up, right, down, left: the order of the mask's bits 1, 2, 4, 8. */
  const NeighbourOffsets: seq<Vector2Int> := [Vector2Int(0, 1), Vector2Int(1, 0), Vector2Int(0, -1), Vector2Int(-1, 0)]

  /** ---- Chunk grid ---- */

  /** Chunks along an axis of `size` cells: (size + 31) / 32, which for a non-negative size is the ceiling. */
  function ChunkCount(size: int): (r: int)
    requires size >= 0
    ensures r >= 0
    ensures ChunkSize * (r - 1) < size <= ChunkSize * r
  {
    (size + (ChunkSize - 1)) / ChunkSize
  }

  /** The chunk coordinates GenerateMapMesh fills for a map of this size. */
  predicate InGrid(mapSize: Vector2Int, c: Vector2Int)
    requires 0 <= mapSize.x && 0 <= mapSize.y
  {
    0 <= c.x < ChunkCount(mapSize.x) && 0 <= c.y < ChunkCount(mapSize.y)
  }

  function ChunkOrigin(c: Vector2Int): Vector2Int
  {
    Vector2Int(ChunkSize * c.x, ChunkSize * c.y)
  }

  /** The chunk's extent clamped to the map: what is left of the map past the chunk's origin, at most 32. */
  function Footprint(mapSize: Vector2Int, c: Vector2Int): (r: Vector2Int)
    ensures 0 <= r.x <= ChunkSize && 0 <= r.y <= ChunkSize
    ensures ChunkSize * c.x + r.x <= mapSize.x || r.x == 0
    ensures ChunkSize * c.y + r.y <= mapSize.y || r.y == 0
    ensures 0 <= mapSize.x - ChunkSize * c.x <= ChunkSize ==> ChunkSize * c.x + r.x == mapSize.x
    ensures mapSize.x - ChunkSize * c.x >= ChunkSize ==> r.x == ChunkSize
    ensures 0 <= mapSize.y - ChunkSize * c.y <= ChunkSize ==> ChunkSize * c.y + r.y == mapSize.y
    ensures mapSize.y - ChunkSize * c.y >= ChunkSize ==> r.y == ChunkSize
  {
    Vector2Int(Clamp(mapSize.x - ChunkSize * c.x, 0, ChunkSize), Clamp(mapSize.y - ChunkSize * c.y, 0, ChunkSize))
  }

  predicate InFootprint(mapSize: Vector2Int, c: Vector2Int, cell: Vector2Int)
  {
    var f := Footprint(mapSize, c);
    ChunkSize * c.x <= cell.x < ChunkSize * c.x + f.x && ChunkSize * c.y <= cell.y < ChunkSize * c.y + f.y
  }

  /** The footprints of the grid's chunks partition the map: every map cell lies in the footprint of exactly
      one chunk, that chunk is in the grid, and no footprint of a chunk with non-negative coordinates holds a
      cell off the map. (A chunk with a negative coordinate has a full 32-cell footprint off the map.) */
  lemma ChunksPartitionMap(mapSize: Vector2Int, cell: Vector2Int, c: Vector2Int)
    requires 0 <= mapSize.x && 0 <= mapSize.y
    ensures 0 <= c.x && 0 <= c.y && InFootprint(mapSize, c, cell) ==> 0 <= cell.x < mapSize.x && 0 <= cell.y < mapSize.y
    ensures 0 <= cell.x < mapSize.x && 0 <= cell.y < mapSize.y ==>
      (InFootprint(mapSize, c, cell) <==> c == Vector2Int(cell.x / ChunkSize, cell.y / ChunkSize))
    ensures 0 <= cell.x < mapSize.x && 0 <= cell.y < mapSize.y ==>
      InGrid(mapSize, Vector2Int(cell.x / ChunkSize, cell.y / ChunkSize))
  {
    var f := Footprint(mapSize, c);
    if 0 <= cell.x < mapSize.x && 0 <= cell.y < mapSize.y {
      var qx, qy := cell.x / ChunkSize, cell.y / ChunkSize;
      assert ChunkSize * qx <= cell.x < ChunkSize * qx + ChunkSize;
      assert ChunkSize * qy <= cell.y < ChunkSize * qy + ChunkSize;
      if InFootprint(mapSize, c, cell) {
        DivUnique(cell.x, ChunkSize, c.x, cell.x - ChunkSize * c.x);
        DivUnique(cell.y, ChunkSize, c.y, cell.y - ChunkSize * c.y);
      }
    }
  }

  /** ---- Visit order ---- */

  /** The first `width` cells of row `z` of a chunk, left to right. */
  function Row(origin: Vector2Int, width: int, z: int): (r: seq<Vector2Int>)
    requires width >= 0
    ensures |r| == width
    ensures forall i :: 0 <= i < width ==> r[i] == Vector2Int(origin.x + i, origin.y + z)
  {
    if width == 0 then []
    else Row(origin, width - 1, z) + [Vector2Int(origin.x + width - 1, origin.y + z)]
  }

  /** The first `rows` rows of a chunk `width` cells wide, row after row. */
  function Cells(origin: Vector2Int, width: int, rows: int): (r: seq<Vector2Int>)
    requires width >= 0 && rows >= 0
    ensures |r| == width * rows
    ensures forall k :: 0 <= k < |r| ==>
      origin.x <= r[k].x < origin.x + width && origin.y <= r[k].y < origin.y + rows
  {
    if rows == 0 then []
    else
      assert width * rows == width * (rows - 1) + width;
      Cells(origin, width, rows - 1) + Row(origin, width, rows - 1)
  }

  /** The cells GenerateChunk visits, in the order it visits them. */
  function ChunkCells(mapSize: Vector2Int, c: Vector2Int): seq<Vector2Int>
  {
    var f := Footprint(mapSize, c);
    Cells(ChunkOrigin(c), f.x, f.y)
  }

  /** Position `j * width + i` of a row-major rectangle `rows` rows high lies in its last row exactly when
      `j` is the last row index, and in the rows before it otherwise. */
  lemma RowMajorIndex(width: int, rows: int, i: int, j: int)
    requires 0 <= i < width && 0 <= j < rows
    ensures width * rows == width * (rows - 1) + width
    ensures j < rows - 1 ==> 0 <= j * width + i < width * (rows - 1)
    ensures j == rows - 1 ==> j * width + i == width * (rows - 1) + i
  {
    if j < rows - 1 {
      assert j * width + i < (j + 1) * width;
      assert (j + 1) * width <= (rows - 1) * width;
    }
  }

  /** Row-major order: cell (i, j) of the rectangle is visited at position j * width + i. */
  lemma {:induction false} CellsRowMajor(origin: Vector2Int, width: int, rows: int, i: int, j: int)
    requires width >= 0 && rows >= 0 && 0 <= i < width && 0 <= j < rows
    ensures 0 <= j * width + i < width * rows
    ensures Cells(origin, width, rows)[j * width + i] == Vector2Int(origin.x + i, origin.y + j)
  {
    var prefix, row := Cells(origin, width, rows - 1), Row(origin, width, rows - 1);
    assert Cells(origin, width, rows) == prefix + row;
    RowMajorIndex(width, rows, i, j);
    var p := j * width + i;
    if j < rows - 1 {
      CellsRowMajor(origin, width, rows - 1, i, j);
      assert (prefix + row)[p] == prefix[p];
    } else {
      assert (prefix + row)[|prefix| + i] == row[i];
    }
  }

  /** No cell is visited twice. */
  lemma {:induction false} CellsDistinct(origin: Vector2Int, width: int, rows: int, k1: int, k2: int)
    requires width >= 0 && rows >= 0
    requires 0 <= k1 < |Cells(origin, width, rows)| && 0 <= k2 < |Cells(origin, width, rows)| && k1 != k2
    ensures Cells(origin, width, rows)[k1] != Cells(origin, width, rows)[k2]
  {
    var prefix := Cells(origin, width, rows - 1);
    var row := Row(origin, width, rows - 1);
    assert Cells(origin, width, rows) == prefix + row;
    var all := prefix + row;
    if k1 < |prefix| && k2 < |prefix| {
      assert all[k1] == prefix[k1] && all[k2] == prefix[k2];
      CellsDistinct(origin, width, rows - 1, k1, k2);
    } else if k1 >= |prefix| && k2 >= |prefix| {
      assert all[k1] == row[k1 - |prefix|] && all[k2] == row[k2 - |prefix|];
    } else if k1 < |prefix| {
      assert all[k1].y == prefix[k1].y < origin.y + rows - 1 == row[k2 - |prefix|].y == all[k2].y;
    } else {
      assert all[k2].y == prefix[k2].y < origin.y + rows - 1 == row[k1 - |prefix|].y == all[k1].y;
    }
  }

  lemma ChunkCellsInFootprint(mapSize: Vector2Int, c: Vector2Int, k: int)
    requires 0 <= k < |ChunkCells(mapSize, c)|
    ensures InFootprint(mapSize, c, ChunkCells(mapSize, c)[k])
  {
  }

  lemma FootprintCellVisited(mapSize: Vector2Int, c: Vector2Int, cell: Vector2Int)
    requires InFootprint(mapSize, c, cell)
    ensures var f, o := Footprint(mapSize, c), ChunkOrigin(c);
      && 0 <= (cell.y - o.y) * f.x + (cell.x - o.x) < |ChunkCells(mapSize, c)|
      && ChunkCells(mapSize, c)[(cell.y - o.y) * f.x + (cell.x - o.x)] == cell
  {
    var f, o := Footprint(mapSize, c), ChunkOrigin(c);
    CellsRowMajor(o, f.x, f.y, cell.x - o.x, cell.y - o.y);
  }

  /** GenerateChunk visits each cell of the chunk's footprint, at its row-major position, and nothing else. */
  lemma ChunkVisitsFootprint(mapSize: Vector2Int, c: Vector2Int, cell: Vector2Int)
    ensures cell in ChunkCells(mapSize, c) <==> InFootprint(mapSize, c, cell)
    ensures InFootprint(mapSize, c, cell) ==>
      var f, o := Footprint(mapSize, c), ChunkOrigin(c);
      && 0 <= (cell.y - o.y) * f.x + (cell.x - o.x) < |ChunkCells(mapSize, c)|
      && ChunkCells(mapSize, c)[(cell.y - o.y) * f.x + (cell.x - o.x)] == cell
  {
    var cs := ChunkCells(mapSize, c);
    if cell in cs {
      var k :| 0 <= k < |cs| && cs[k] == cell;
      ChunkCellsInFootprint(mapSize, c, k);
    }
    if InFootprint(mapSize, c, cell) {
      FootprintCellVisited(mapSize, c, cell);
    }
  }

  /** ... and it visits each of them once. */
  lemma ChunkVisitsOnce(mapSize: Vector2Int, c: Vector2Int)
    ensures forall k1, k2 :: 0 <= k1 < |ChunkCells(mapSize, c)| && 0 <= k2 < |ChunkCells(mapSize, c)| && k1 != k2 ==>
      ChunkCells(mapSize, c)[k1] != ChunkCells(mapSize, c)[k2]
  {
    var f := Footprint(mapSize, c);
    forall k1, k2 | 0 <= k1 < |ChunkCells(mapSize, c)| && 0 <= k2 < |ChunkCells(mapSize, c)| && k1 != k2
      ensures ChunkCells(mapSize, c)[k1] != ChunkCells(mapSize, c)[k2]
    {
      CellsDistinct(ChunkOrigin(c), f.x, f.y, k1, k2);
    }
  }

  /** ---- What a chunk's buffer holds ---- */

  /** A cell's neighbours can be read when the map has cells or every neighbour lies below the map. */
  predicate Readable(g: Heights, cell: Vector2Int)
  {
    HasCells(g) || cell.y + 1 < 0
  }

  /** The clamping reads of the four neighbours, in the order of NeighbourOffsets. */
  function Neighbours(g: Heights, cell: Vector2Int): (r: seq<int>)
    requires Shaped(g) && Readable(g, cell)
    ensures |r| == |NeighbourOffsets|
  {
    [ReadAt(g, AddInt(cell, NeighbourOffsets[0])), ReadAt(g, AddInt(cell, NeighbourOffsets[1])),
     ReadAt(g, AddInt(cell, NeighbourOffsets[2])), ReadAt(g, AddInt(cell, NeighbourOffsets[3]))]
  }

  /** What autotiling one cell emits. */
  function CellPlacements(g: Heights, cell: Vector2Int): seq<Placement>
    requires Shaped(g) && Readable(g, cell)
  {
    TilePlacements(cell.x, cell.y, ReadAt(g, cell), Neighbours(g, cell))
  }

  ghost predicate AllReadable(g: Heights, cells: seq<Vector2Int>)
  {
    forall k :: 0 <= k < |cells| ==> Readable(g, cells[k])
  }

  /** What autotiling a cell emits, as a function of the cell; a cell whose neighbours cannot be read emits
      nothing here (GenerateChunk never visits one, see ChunkCellsReadable). */
  function CellEmitter(g: Heights): Vector2Int -> seq<Placement>
    requires Shaped(g)
  {
    cell => if Readable(g, cell) then CellPlacements(g, cell) else []
  }

  /** `emit` gives every readable cell's placements. (The trigger keeps the cells' placements out of every
      proof that only needs `emit` as an opaque value.) */
  ghost predicate EmitsCells(emit: Vector2Int -> seq<Placement>, g: Heights)
  {
    Shaped(g) && forall c {:trigger CellPlacements(g, c)} :: Readable(g, c) ==> emit(c) == CellPlacements(g, c)
  }

  lemma CellEmitterEmitsCells(g: Heights)
    requires Shaped(g)
    ensures EmitsCells(CellEmitter(g), g)
  {
  }

  /** What autotiling the cells one after the other emits. */
  function PlacementsOf(emit: Vector2Int -> seq<Placement>, cells: seq<Vector2Int>): seq<Placement>
  {
    if cells == [] then []
    else PlacementsOf(emit, cells[..|cells| - 1]) + emit(cells[|cells| - 1])
  }

  /** GenerateChunk never reads a non-negative row of an empty map (`heights` is the height map's size). */
  predicate ChunkReadable(heights: Vector2Int, mapSize: Vector2Int, c: Vector2Int)
  {
    var f := Footprint(mapSize, c);
    (heights.x >= 1 && heights.y >= 1) || f.x == 0 || f.y == 0 || ChunkSize * c.y + f.y < 0
  }

  /** Every cell GenerateChunk visits is readable, so what it emits there is the cell's placements. */
  lemma ChunkCellsReadable(g: Heights, mapSize: Vector2Int, c: Vector2Int)
    requires Shaped(g) && ChunkReadable(g.size, mapSize, c)
    ensures AllReadable(g, ChunkCells(mapSize, c))
    ensures forall k :: 0 <= k < |ChunkCells(mapSize, c)| ==>
      CellEmitter(g)(ChunkCells(mapSize, c)[k]) == CellPlacements(g, ChunkCells(mapSize, c)[k])
  {
  }

  /** The contents of chunk `c`'s buffer once GenerateChunk has run on heights `g`. */
  function ChunkMesh(g: Heights, tileset: seq<Tile>, mapSize: Vector2Int, c: Vector2Int): MeshState
    requires Shaped(g) && |tileset| >= RuleTileCount && ChunkReadable(g.size, mapSize, c)
  {
    EmitAll(Cleared, tileset, PlacementsOf(CellEmitter(g), ChunkCells(mapSize, c)))
  }

  /** A regenerated chunk's buffer keeps the counter invariant and, for a tileset whose tiles only index
      their own vertices, every triangle index is below the vertex count. */
  lemma ChunkMeshValid(g: Heights, tileset: seq<Tile>, mapSize: Vector2Int, c: Vector2Int)
    requires Shaped(g) && |tileset| >= RuleTileCount && ChunkReadable(g.size, mapSize, c)
    ensures CounterInvariant(ChunkMesh(g, tileset, mapSize, c))
    ensures WellFormedTileset(tileset) ==> IndicesInRange(ChunkMesh(g, tileset, mapSize, c))
  {
    EmitAllFromCleared(tileset, PlacementsOf(CellEmitter(g), ChunkCells(mapSize, c)));
  }

  lemma NeighbourReads(g: Heights, cell: Vector2Int)
    requires Shaped(g) && Readable(g, cell)
    ensures Neighbours(g, cell)[0] == ReadAt(g, Vector2Int(cell.x, cell.y + 1))
    ensures Neighbours(g, cell)[1] == ReadAt(g, Vector2Int(cell.x + 1, cell.y))
    ensures Neighbours(g, cell)[2] == ReadAt(g, Vector2Int(cell.x, cell.y - 1))
    ensures Neighbours(g, cell)[3] == ReadAt(g, Vector2Int(cell.x - 1, cell.y))
  {
  }

  /** At the map's edges the clamping reader makes a cell its own north (i = 0), east (1) or west (3)
      neighbour, so those sides always count as solid; the south neighbour (2) of the bottom row reads 0. */
  lemma EdgeNeighbour(g: Heights, cell: Vector2Int, i: int)
    requires Shaped(g) && HasCells(g) && 0 <= cell.x < g.size.x && 0 <= cell.y < g.size.y
    requires (i == 0 && cell.y == g.size.y - 1) || (i == 1 && cell.x == g.size.x - 1)
      || (i == 2 && cell.y == 0) || (i == 3 && cell.x == 0)
    ensures Neighbours(g, cell)[i] == if i == 2 then 0 else g.cells[cell.x][cell.y]
  {
    NeighbourReads(g, cell);
    if i == 0 {
      EdgeRead(g, Vector2Int(cell.x, cell.y + 1), cell);
    } else if i == 1 {
      EdgeRead(g, Vector2Int(cell.x + 1, cell.y), cell);
    } else if i == 3 {
      EdgeRead(g, Vector2Int(cell.x - 1, cell.y), cell);
    }
  }

  /** A read one step off the map's west, east or north edge clamps back onto the edge cell `cell`. */
  lemma EdgeRead(g: Heights, off: Vector2Int, cell: Vector2Int)
    requires Shaped(g) && HasCells(g) && 0 <= cell.x < g.size.x && 0 <= cell.y < g.size.y
    requires (off.y == cell.y && ((cell.x == 0 && off.x == -1) || (cell.x == g.size.x - 1 && off.x == g.size.x)))
      || (off.x == cell.x && cell.y == g.size.y - 1 && off.y == g.size.y)
    ensures ReadAt(g, off) == g.cells[cell.x][cell.y]
  {
    assert Clamp(off.x, 0, g.size.x - 1) == cell.x && Clamp(off.y, 0, g.size.y - 1) == cell.y;
  }

  /** Hence a cell on the west or east edge never gets a straight west or east wall. */
  lemma NoStraightWallsOffMapSides(g: Heights, cell: Vector2Int, k: int)
    requires Shaped(g) && HasCells(g) && 0 <= cell.x < g.size.x && 0 <= cell.y < g.size.y
    requires !IsCornerMask(Mask(ReadAt(g, cell), Neighbours(g, cell)))
    ensures cell.x == 0 ==> multiset(CellPlacements(g, cell))[Placement(cell.x, k, cell.y, WallW)] == 0
    ensures cell.x == g.size.x - 1 ==> multiset(CellPlacements(g, cell))[Placement(cell.x, k, cell.y, WallE)] == 0
  {
    if cell.x == 0 {
      EdgeNeighbour(g, cell, 3);
    }
    if cell.x == g.size.x - 1 {
      EdgeNeighbour(g, cell, 1);
    }
    StraightWalls(cell.x, cell.y, ReadAt(g, cell), Neighbours(g, cell), k);
  }

  /** ---- The buffer row by row, as GenerateChunk's loops build it ---- */

  /** `m` followed by the first `x` cells of row `z` of the chunk at `origin`, autotiled from west to east. */
  function RowMesh(m: MeshState, tileset: seq<Tile>, emit: Vector2Int -> seq<Placement>, origin: Vector2Int,
                   z: int, x: int): MeshState
    requires |tileset| >= RuleTileCount && x >= 0
    decreases x
  {
    if x == 0 then m
    else EmitAll(RowMesh(m, tileset, emit, origin, z, x - 1), tileset, emit(Vector2Int(origin.x + x - 1, origin.y + z)))
  }

  /** A cleared buffer followed by the first `z` rows, `width` cells each, of the chunk at `origin`. */
  function RowsMesh(tileset: seq<Tile>, emit: Vector2Int -> seq<Placement>, origin: Vector2Int, width: int, z: int): MeshState
    requires |tileset| >= RuleTileCount && width >= 0 && z >= 0
    decreases z
  {
    if z == 0 then Cleared
    else RowMesh(RowsMesh(tileset, emit, origin, width, z - 1), tileset, emit, origin, z - 1, width)
  }

  /** Autotiling two runs of cells one after the other emits the placements of the first, then those of the
      second. */
  lemma {:induction false} PlacementsOfConcat(emit: Vector2Int -> seq<Placement>, a: seq<Vector2Int>, b: seq<Vector2Int>)
    ensures PlacementsOf(emit, a + b) == PlacementsOf(emit, a) + PlacementsOf(emit, b)
    decreases |b|
  {
    if b != [] {
      PlacementsOfConcat(emit, a, b[..|b| - 1]);
      assert (a + b)[..|a + b| - 1] == a + b[..|b| - 1];
    } else {
      assert a + b == a;
    }
  }

  /** The row built cell by cell is the emission of the placements of the row's cells. */
  lemma {:induction false} RowMeshEmits(m: MeshState, tileset: seq<Tile>, emit: Vector2Int -> seq<Placement>,
                                        origin: Vector2Int, z: int, x: int)
    requires |tileset| >= RuleTileCount && x >= 0
    ensures RowMesh(m, tileset, emit, origin, z, x) == EmitAll(m, tileset, PlacementsOf(emit, Row(origin, x, z)))
  {
    if x > 0 {
      RowMeshEmits(m, tileset, emit, origin, z, x - 1);
      var r := Row(origin, x, z);
      assert r[..|r| - 1] == Row(origin, x - 1, z);
      EmitAllConcat(m, tileset, PlacementsOf(emit, Row(origin, x - 1, z)), emit(r[x - 1]));
    }
  }

  /** The rows built one after the other are the emission of the placements of the cells in row-major
      order. */
  lemma {:induction false} RowsMeshEmits(tileset: seq<Tile>, emit: Vector2Int -> seq<Placement>, origin: Vector2Int,
                                         width: int, z: int)
    requires |tileset| >= RuleTileCount && width >= 0 && z >= 0
    ensures RowsMesh(tileset, emit, origin, width, z) == EmitAll(Cleared, tileset, PlacementsOf(emit, Cells(origin, width, z)))
  {
    if z > 0 {
      RowsMeshEmits(tileset, emit, origin, width, z - 1);
      NextRowEmits(tileset, emit, origin, width, z);
      RowsJoin(tileset, emit, origin, width, z);
    }
  }

  /** Row `z - 1` is emitted on top of the rows before it. */
  lemma NextRowEmits(tileset: seq<Tile>, emit: Vector2Int -> seq<Placement>, origin: Vector2Int, width: int, z: int)
    requires |tileset| >= RuleTileCount && width >= 0 && z > 0
    ensures RowsMesh(tileset, emit, origin, width, z) ==
      EmitAll(RowsMesh(tileset, emit, origin, width, z - 1), tileset, PlacementsOf(emit, Row(origin, width, z - 1)))
  {
    RowMeshEmits(RowsMesh(tileset, emit, origin, width, z - 1), tileset, emit, origin, z - 1, width);
  }

  /** The emission of the first `z - 1` rows followed by that of row `z - 1` is the emission of the first `z`
      rows. */
  lemma RowsJoin(tileset: seq<Tile>, emit: Vector2Int -> seq<Placement>, origin: Vector2Int, width: int, z: int)
    requires |tileset| >= RuleTileCount && width >= 0 && z > 0
    requires RowsMesh(tileset, emit, origin, width, z - 1) ==
      EmitAll(Cleared, tileset, PlacementsOf(emit, Cells(origin, width, z - 1)))
    requires RowsMesh(tileset, emit, origin, width, z) ==
      EmitAll(RowsMesh(tileset, emit, origin, width, z - 1), tileset, PlacementsOf(emit, Row(origin, width, z - 1)))
    ensures RowsMesh(tileset, emit, origin, width, z) == EmitAll(Cleared, tileset, PlacementsOf(emit, Cells(origin, width, z)))
  {
    PlacementsOfConcat(emit, Cells(origin, width, z - 1), Row(origin, width, z - 1));
    EmitAllConcat(Cleared, tileset, PlacementsOf(emit, Cells(origin, width, z - 1)), PlacementsOf(emit, Row(origin, width, z - 1)));
  }

  /** The rows of a chunk's clamped footprint, built one after the other, are the emission of the
      placements of the chunk's cells in the order GenerateChunk visits them. */
  lemma ChunkRowsEmit(tileset: seq<Tile>, emit: Vector2Int -> seq<Placement>, mapSize: Vector2Int, c: Vector2Int)
    requires |tileset| >= RuleTileCount
    ensures var f := Footprint(mapSize, c);
      RowsMesh(tileset, emit, ChunkOrigin(c), f.x, f.y) == EmitAll(Cleared, tileset, PlacementsOf(emit, ChunkCells(mapSize, c)))
  {
    var f := Footprint(mapSize, c);
    RowsMeshEmits(tileset, emit, ChunkOrigin(c), f.x, f.y);
  }

  /** GenerateChunk's origin and clamped extents are the chunk's origin and footprint. */
  lemma ChunkExtent(mapSize: Vector2Int, c: Vector2Int, origin: Vector2Int, width: int, rows: int)
    requires origin == Vector2Int(c.x * ChunkSize, c.y * ChunkSize)
    requires width == Clamp(mapSize.x - ChunkSize * c.x, 0, ChunkSize)
    requires rows == Clamp(mapSize.y - ChunkSize * c.y, 0, ChunkSize)
    ensures origin == ChunkOrigin(c) && width == Footprint(mapSize, c).x && rows == Footprint(mapSize, c).y
  {
  }

  /** Once every row of the clamped footprint has been autotiled, the buffer holds the chunk's mesh. */
  lemma ChunkMeshReached(g: Heights, tileset: seq<Tile>, mapSize: Vector2Int, c: Vector2Int,
                         origin: Vector2Int, width: int, rows: int)
    requires Shaped(g) && |tileset| >= RuleTileCount && ChunkReadable(g.size, mapSize, c)
    requires origin == Vector2Int(c.x * ChunkSize, c.y * ChunkSize)
    requires width == Clamp(mapSize.x - ChunkSize * c.x, 0, ChunkSize)
    requires rows == Clamp(mapSize.y - ChunkSize * c.y, 0, ChunkSize)
    ensures width == 0 || rows == 0 || Readable(g, Vector2Int(origin.x, origin.y + rows - 1))
    ensures RowsMesh(tileset, CellEmitter(g), origin, width, rows) == ChunkMesh(g, tileset, mapSize, c)
  {
    ChunkExtent(mapSize, c, origin, width, rows);
    ChunkRowsEmit(tileset, CellEmitter(g), mapSize, c);
  }

  /** One more cell of the row: autotiling the cell at column `x` of row `z` extends the row's buffer. */
  lemma CellStep(m: MeshState, tileset: seq<Tile>, emit: Vector2Int -> seq<Placement>, origin: Vector2Int, z: int, x: int,
                 before: MeshState, after: MeshState)
    requires |tileset| >= RuleTileCount && x >= 0
    requires before == RowMesh(m, tileset, emit, origin, z, x)
    requires after == EmitAll(before, tileset, emit(AddInt(origin, Vector2Int(x, z))))
    ensures after == RowMesh(m, tileset, emit, origin, z, x + 1)
  {
  }

  /** The heights AutotileCell reads from the map are those of the map's snapshot. */
  lemma CellReads(hm: HeightMap, g: Heights, cell: Vector2Int, tileHeight: int, neighbours: seq<int>)
    requires hm.Valid() && g == Snapshot(hm) && Readable(g, cell)
    requires tileHeight == hm.GetCellAt(cell) && |neighbours| == |NeighbourOffsets|
    requires forall i :: 0 <= i < |NeighbourOffsets| ==> neighbours[i] == hm.GetCellAt(AddInt(cell, NeighbourOffsets[i]))
    ensures tileHeight == ReadAt(g, cell) && neighbours == Neighbours(g, cell)
  {
    forall i | 0 <= i < |NeighbourOffsets| ensures neighbours[i] == ReadAt(g, AddInt(cell, NeighbourOffsets[i])) {
      SnapshotReads(hm, g, AddInt(cell, NeighbourOffsets[i]));
    }
    SnapshotReads(hm, g, cell);
  }

  /** Autotiling a cell with the height and neighbours read from the map emits the cell's placements. */
  lemma CellEmission(g: Heights, tileset: seq<Tile>, cell: Vector2Int, tileHeight: int, neighbours: seq<int>,
                     before: MeshState, after: MeshState)
    requires Shaped(g) && |tileset| >= RuleTileCount && Readable(g, cell)
    requires tileHeight == ReadAt(g, cell) && neighbours == Neighbours(g, cell)
    requires after == EmitAll(before, tileset, TilePlacements(cell.x, cell.y, tileHeight, neighbours))
    ensures after == EmitAll(before, tileset, CellPlacements(g, cell))
  {
  }

  /** The mesh of every chunk of the grid of a map of size `mapSize`, regenerated from that map's heights `g`. */
  ghost function GridMeshes(g: Heights, tileset: seq<Tile>, mapSize: Vector2Int): map<Vector2Int, MeshState>
    requires Shaped(g) && |tileset| >= RuleTileCount && g.size == mapSize
  {
    map c | c in GridChunks(mapSize) :: GridChunksReadable(mapSize, c); ChunkMesh(g, tileset, mapSize, c)
  }

  /** The chunk coordinates of the grid of a map of size `mapSize`. */
  ghost function GridChunks(mapSize: Vector2Int): (r: set<Vector2Int>)
    requires 0 <= mapSize.x && 0 <= mapSize.y
    ensures forall c :: c in r <==> InGrid(mapSize, c)
  {
    set x, y | 0 <= x < ChunkCount(mapSize.x) && 0 <= y < ChunkCount(mapSize.y) :: Vector2Int(x, y)
  }

  /** `meshes` holds the mesh of every chunk of the grid, regenerated from heights `g`. (As with EmitsCells,
      the trigger keeps the chunks' meshes out of every proof that only needs `meshes` as an opaque value.) */
  ghost predicate ChunkMeshes(meshes: map<Vector2Int, MeshState>, g: Heights, tileset: seq<Tile>, mapSize: Vector2Int)
  {
    && Shaped(g) && |tileset| >= RuleTileCount
    && (forall c {:trigger ChunkReadable(g.size, mapSize, c)} :: c in meshes ==> ChunkReadable(g.size, mapSize, c))
    && forall c {:trigger ChunkMesh(g, tileset, mapSize, c)} :: c in meshes ==>
      ChunkReadable(g.size, mapSize, c) && meshes[c] == ChunkMesh(g, tileset, mapSize, c)
  }

  lemma GridMeshesGivesChunkMeshes(g: Heights, tileset: seq<Tile>, mapSize: Vector2Int)
    requires Shaped(g) && |tileset| >= RuleTileCount && g.size == mapSize
    ensures ChunkMeshes(GridMeshes(g, tileset, mapSize), g, tileset, mapSize)
    ensures forall c :: InGrid(mapSize, c) ==> c in GridMeshes(g, tileset, mapSize)
  {
    var meshes := GridMeshes(g, tileset, mapSize);
    forall c | c in meshes
      ensures ChunkReadable(g.size, mapSize, c) && meshes[c] == ChunkMesh(g, tileset, mapSize, c)
    {
      GridChunksReadable(mapSize, c);
    }
  }

  /** The chunks GenerateMapMesh's loops have regenerated before reaching chunk (x, z) of a grid `chunksX`
      chunks wide: the rows below `z`, and the first `x` chunks of row `z`. */
  predicate Generated(k: Vector2Int, chunksX: int, z: int, x: int)
  {
    (0 <= k.x < chunksX && 0 <= k.y < z) || (0 <= k.x < x && k.y == z)
  }

  /** A chunk DeleteUnusedChunks keeps for a grid of `chunksX` by `chunksZ` chunks. */
  predicate Kept(chunksX: int, chunksZ: int, c: Vector2Int)
  {
    c.x < chunksX && c.y < chunksZ
  }

  /** Every chunk of a map's grid can be regenerated from that map: a non-empty grid means a non-empty map. */
  lemma GridChunksReadable(mapSize: Vector2Int, c: Vector2Int)
    requires 0 <= mapSize.x && 0 <= mapSize.y && InGrid(mapSize, c)
    ensures mapSize.x >= 1 && mapSize.y >= 1 && ChunkReadable(mapSize, mapSize, c)
  {
  }

  /** The grid's chunks are kept by DeleteUnusedChunks. */
  lemma GridChunksKept(mapSize: Vector2Int, c: Vector2Int)
    requires 0 <= mapSize.x && 0 <= mapSize.y && InGrid(mapSize, c)
    ensures Kept(ChunkCount(mapSize.x), ChunkCount(mapSize.y), c)
  {
  }

  /** ---- The generator ---- */

  class MapMeshGenerator {
    /** The 25 tiles, indexed by rule tile. */
    const tileset: seq<Tile>
    /** The map size recorded by the last GenerateMapMesh; GenerateChunk clamps footprints against it. */
    var mapSize: Vector2Int
    /** Chunk coordinates to the mesh buffer of that chunk. */
    var mapChunks: map<Vector2Int, MeshData>
    /** The buffer PlaceAutoTiles currently appends to. */
    var meshData: MeshData?
    /** The chunk each buffer was created for. */
    ghost var owners: map<MeshData, Vector2Int>

    /** The tileset has all 25 slots, and every chunk's buffer was created for that chunk, so no two chunks
        share a buffer (see BuffersDistinct). */
    ghost predicate Valid()
      reads this
    {
      && |tileset| >= RuleTileCount
      && forall k :: k in mapChunks ==> mapChunks[k] in owners && owners[mapChunks[k]] == k
    }

    lemma BuffersDistinct(a: Vector2Int, b: Vector2Int)
      requires Valid() && a in mapChunks && b in mapChunks && a != b
      ensures mapChunks[a] != mapChunks[b]
    {
    }

    constructor(tileset: seq<Tile>)
      requires |tileset| >= RuleTileCount
      ensures Valid() && this.tileset == tileset
      ensures mapSize == Vector2Int(0, 0) && mapChunks == map[] && meshData == null
    {
      this.tileset := tileset;
      mapSize := Vector2Int(0, 0);
      mapChunks := map[];
      meshData := null;
      owners := map[];
    }

    /** One bit per neighbour, set when the neighbour is at or above the tile. */
    method GetBitmask(tileHeight: int, neighbours: array<int>) returns (bitmask: seq<bool>)
      ensures bitmask == SolidSides(tileHeight, neighbours[..])
    {
      var bits := new bool[neighbours.Length](i => false);
      var i := 0;
      while i < neighbours.Length
        invariant 0 <= i <= neighbours.Length
        invariant forall j :: 0 <= j < neighbours.Length ==> bits[j] == (j < i && tileHeight <= neighbours[j])
      {
        if tileHeight <= neighbours[i] {
          bits[i] := true;
        }
        i := i + 1;
      }
      bitmask := bits[..];
    }

    /** Clears chunk `chunkCoord`'s buffer, makes it the current buffer and autotiles every cell of the chunk's
        footprint (clamped against the recorded map size) in row-major order. */
    method GenerateChunk(chunkCoord: Vector2Int, heightMap: HeightMap)
      requires Valid() && chunkCoord in mapChunks && heightMap.Valid()
      requires ChunkReadable(heightMap.mapSize, mapSize, chunkCoord)
      modifies this`meshData, mapChunks[chunkCoord]
      ensures Valid() && mapChunks == old(mapChunks) && mapSize == old(mapSize)
      ensures meshData == mapChunks[chunkCoord]
      ensures mapChunks[chunkCoord].State() == ChunkMesh(Snapshot(heightMap), tileset, mapSize, chunkCoord)
    {
      ghost var g := Snapshot(heightMap);
      var chunk := mapChunks[chunkCoord];
      chunk.ClearData();
      meshData := chunk;

      var chunkSizeX := Clamp(mapSize.x - ChunkSize * chunkCoord.x, 0, ChunkSize);
      var chunkSizeZ := Clamp(mapSize.y - ChunkSize * chunkCoord.y, 0, ChunkSize);
      var origin := Vector2Int(chunkCoord.x * ChunkSize, chunkCoord.y * ChunkSize);
      ChunkMeshReached(g, tileset, mapSize, chunkCoord, origin, chunkSizeX, chunkSizeZ);
      CellEmitterEmitsCells(g);
      AutotileRows(heightMap, g, CellEmitter(g), origin, chunkSizeX, chunkSizeZ);
    }

    /** GenerateChunk's row loop: autotiles rows 0 to `rows - 1` of the footprint at `origin`, `width` cells
        each, into the current buffer, which starts out cleared; `g` is the map's snapshot and `emit` gives
        each cell's placements. */
    method AutotileRows(heightMap: HeightMap, ghost g: Heights, ghost emit: Vector2Int -> seq<Placement>,
                        origin: Vector2Int, width: int, rows: int)
      requires meshData != null && |tileset| >= RuleTileCount && heightMap.Valid()
      requires g == Snapshot(heightMap) && EmitsCells(emit, g)
      requires width >= 0 && rows >= 0 && (width == 0 || rows == 0 || Readable(g, Vector2Int(origin.x, origin.y + rows - 1)))
      requires meshData.State() == Cleared
      modifies meshData
      ensures meshData.State() == RowsMesh(tileset, emit, origin, width, rows)
    {
      var z := 0;
      while z < rows
        invariant 0 <= z <= rows
        invariant meshData.State() == RowsMesh(tileset, emit, origin, width, z)
      {
        AutotileRow(heightMap, g, emit, origin, width, z);
        z := z + 1;
      }
    }

    /** GenerateChunk's cell loop: autotiles row `z` of the footprint, cell by cell from west to east. */
    method AutotileRow(heightMap: HeightMap, ghost g: Heights, ghost emit: Vector2Int -> seq<Placement>,
                       origin: Vector2Int, width: int, z: int)
      requires meshData != null && |tileset| >= RuleTileCount && heightMap.Valid()
      requires g == Snapshot(heightMap) && EmitsCells(emit, g)
      requires width >= 0 && (width == 0 || Readable(g, Vector2Int(origin.x, origin.y + z)))
      modifies meshData
      ensures meshData.State() == RowMesh(old(meshData.State()), tileset, emit, origin, z, width)
    {
      ghost var rowStart := meshData.State();
      var x := 0;
      while x < width
        invariant 0 <= x <= width
        invariant meshData.State() == RowMesh(rowStart, tileset, emit, origin, z, x)
      {
        var tileCoord := AddInt(origin, Vector2Int(x, z));
        ghost var before := meshData.State();
        AutotileCell(heightMap, g, emit, tileCoord);
        CellStep(rowStart, tileset, emit, origin, z, x, before, meshData.State());
        x := x + 1;
      }
    }

    /** The body of GenerateChunk's cell loop: reads the cell's height and its four neighbours through the
        clamping reader and autotiles the cell. */
    method AutotileCell(heightMap: HeightMap, ghost g: Heights, ghost emit: Vector2Int -> seq<Placement>,
                        tileCoord: Vector2Int)
      requires meshData != null && |tileset| >= RuleTileCount && heightMap.Valid()
      requires g == Snapshot(heightMap) && EmitsCells(emit, g) && Readable(g, tileCoord)
      modifies meshData
      ensures meshData.State() == EmitAll(old(meshData.State()), tileset, emit(tileCoord))
    {
      var tileHeight := heightMap.GetCellAt(tileCoord);
      var neighbours := ReadNeighbours(heightMap, tileCoord);
      CellReads(heightMap, g, tileCoord, tileHeight, neighbours[..]);
      ghost var before := meshData.State();
      PlaceAutoTiles(tileCoord, tileHeight, neighbours);
      CellEmission(g, tileset, tileCoord, tileHeight, neighbours[..], before, meshData.State());
    }

    /** The neighbour loop of GenerateChunk: the clamping reads of the four neighbours of `tileCoord`. */
    method ReadNeighbours(heightMap: HeightMap, tileCoord: Vector2Int) returns (neighbours: array<int>)
      requires heightMap.Valid() && (heightMap.NonEmpty() || tileCoord.y + 1 < 0)
      ensures fresh(neighbours) && neighbours.Length == |NeighbourOffsets|
      ensures forall i :: 0 <= i < |NeighbourOffsets| ==>
        neighbours[i] == heightMap.GetCellAt(AddInt(tileCoord, NeighbourOffsets[i]))
    {
      neighbours := new int[|NeighbourOffsets|];
      var i := 0;
      while i < neighbours.Length
        invariant 0 <= i <= neighbours.Length
        invariant forall j :: 0 <= j < i ==> neighbours[j] == heightMap.GetCellAt(AddInt(tileCoord, NeighbourOffsets[j]))
      {
        neighbours[i] := heightMap.GetCellAt(AddInt(tileCoord, NeighbourOffsets[i]));
        i := i + 1;
      }
    }

    /** Autotiles the grid cell `tileCoord` of height `tileHeight` whose neighbours (up, right, down, left)
        have heights `neighbours`: the corner pieces of a corner mask, then the ground tile the mask selects,
        then, outside the corner masks, a wall column on every open east, south and west side. */
    method PlaceAutoTiles(tileCoord: Vector2Int, tileHeight: int, neighbours: array<int>)
      requires meshData != null && |tileset| >= RuleTileCount && neighbours.Length == 4
      modifies meshData
      ensures meshData.State() ==
        EmitAll(old(meshData.State()), tileset, TilePlacements(tileCoord.x, tileCoord.y, tileHeight, neighbours[..]))
    {
      var x, z := tileCoord.x, tileCoord.y;
      ghost var n := neighbours[..];
      ghost var start := meshData.State();
      var bitArrayMask := GetBitmask(tileHeight, neighbours);
      var bitmask := BitArrayToInt(bitArrayMask);
      var groundTile := GroundTile(bitmask);
      assert bitmask == Mask(tileHeight, n);
      assert bitArrayMask[1] == (tileHeight <= n[1]) && bitArrayMask[2] == (tileHeight <= n[2])
        && bitArrayMask[3] == (tileHeight <= n[3]);

      PlaceCornerTiles(tileCoord, tileHeight, neighbours, bitmask);
      ghost var afterCorner := meshData.State();
      PlaceGroundTile(x, tileHeight, z, groundTile);
      ghost var afterGround := meshData.State();

      // Corner walls have already been placed.
      if bitmask == 3 || bitmask == 6 || bitmask == 9 || bitmask == 12 {
        CornerEmission(start, tileset, x, z, tileHeight, n, afterCorner, afterGround);
        return;
      }

      if !bitArrayMask[1] {
        PlaceWallTiles(tileCoord, neighbours[1], tileHeight, WallE);
      }
      ghost var afterEast := meshData.State();
      assert afterEast == EmitAll(afterGround, tileset, SideColumn(x, z, tileHeight, n[1], WallE));
      if !bitArrayMask[2] {
        PlaceWallTiles(tileCoord, neighbours[2], tileHeight, WallS);
      }
      ghost var afterSouth := meshData.State();
      assert afterSouth == EmitAll(afterEast, tileset, SideColumn(x, z, tileHeight, n[2], WallS));
      if !bitArrayMask[3] {
        PlaceWallTiles(tileCoord, neighbours[3], tileHeight, WallW);
      }
      assert meshData.State() == EmitAll(afterSouth, tileset, SideColumn(x, z, tileHeight, n[3], WallW));
      NonCornerEmission(start, tileset, x, z, tileHeight, n, afterCorner, afterGround, afterEast, afterSouth,
                        meshData.State());
    }

    /** The corner cases of the autotiling switch: what masks 3, 6, 9 and 12 place before the ground tile. */
    method PlaceCornerTiles(tileCoord: Vector2Int, tileHeight: int, neighbours: array<int>, bitmask: int)
      requires meshData != null && |tileset| >= RuleTileCount && neighbours.Length == 4
      modifies meshData
      ensures meshData.State() ==
        EmitAll(old(meshData.State()), tileset, CornerTiles(tileCoord.x, tileCoord.y, tileHeight, neighbours[..], bitmask))
    {
      var x, z := tileCoord.x, tileCoord.y;
      ghost var start := meshData.State();
      if bitmask == 3 {
        var wallStart := Max(neighbours[2], neighbours[3]);
        PlaceCornerStep(tileCoord, neighbours[2], neighbours[3], EdgeW, WallW, EdgeS, WallS);
        ghost var step := CornerStep(x, z, neighbours[2], neighbours[3], EdgeW, WallW, EdgeS, WallS);
        ghost var before := meshData.State();
        PlaceDiagWallTiles(tileCoord, wallStart, tileHeight, WallSWBase, WallSW, WallSWTop);
        EmitAllExtend(start, tileset, step, DiagonalWall(x, z, wallStart, tileHeight, WallSWBase, WallSW, WallSWTop),
                      before, meshData.State());
      } else if bitmask == 6 {
        PlaceNorthCornerStep(tileCoord, neighbours[3], neighbours[0], EdgeW, WallW);
      } else if bitmask == 9 {
        var wallStart := Max(neighbours[1], neighbours[2]);
        PlaceCornerStep(tileCoord, neighbours[1], neighbours[2], EdgeS, WallS, EdgeE, WallE);
        ghost var step := CornerStep(x, z, neighbours[1], neighbours[2], EdgeS, WallS, EdgeE, WallE);
        ghost var before := meshData.State();
        PlaceDiagWallTiles(tileCoord, wallStart, tileHeight, WallSEBase, WallSE, WallSETop);
        EmitAllExtend(start, tileset, step, DiagonalWall(x, z, wallStart, tileHeight, WallSEBase, WallSE, WallSETop),
                      before, meshData.State());
      } else if bitmask == 12 {
        PlaceNorthCornerStep(tileCoord, neighbours[1], neighbours[0], EdgeE, WallE);
      } else {
        assert CornerTiles(x, z, tileHeight, neighbours[..], bitmask) == [];
      }
    }

    /** The start of a south corner: the edge of the higher of the two neighbours `a` and `b` at that height,
        with a wall column from the lower one up to it, or a ground piece when they are level. */
    method PlaceCornerStep(tileCoord: Vector2Int, a: int, b: int,
                           aEdge: RuleTile, aWall: RuleTile, bEdge: RuleTile, bWall: RuleTile)
      requires meshData != null && |tileset| >= RuleTileCount
      modifies meshData
      ensures meshData.State() ==
        EmitAll(old(meshData.State()), tileset, CornerStep(tileCoord.x, tileCoord.y, a, b, aEdge, aWall, bEdge, bWall))
    {
      var x, z := tileCoord.x, tileCoord.y;
      var wallStart := Max(a, b);
      ghost var start := meshData.State();
      if a > b {
        PlaceGroundTile(x, wallStart, z, aEdge);
        ghost var before := meshData.State();
        PlaceWallTiles(tileCoord, b, a, aWall);
        EmitAllExtend(start, tileset, [Placement(x, wallStart, z, aEdge)], WallColumn(x, z, b, a, aWall), before, meshData.State());
      } else if b > a {
        PlaceGroundTile(x, wallStart, z, bEdge);
        ghost var before := meshData.State();
        PlaceWallTiles(tileCoord, a, b, bWall);
        EmitAllExtend(start, tileset, [Placement(x, wallStart, z, bEdge)], WallColumn(x, z, a, b, bWall), before, meshData.State());
      } else {
        PlaceGroundTile(x, wallStart, z, Ground);
      }
    }

    /** The start of a north corner: the edge at the up neighbour's height `up` with a wall column from the
        side neighbour's height `side` up to it when the side neighbour is lower, a ground piece otherwise. */
    method PlaceNorthCornerStep(tileCoord: Vector2Int, side: int, up: int, edge: RuleTile, wall: RuleTile)
      requires meshData != null && |tileset| >= RuleTileCount
      modifies meshData
      ensures meshData.State() ==
        EmitAll(old(meshData.State()), tileset, NorthCornerStep(tileCoord.x, tileCoord.y, side, up, edge, wall))
    {
      var x, z := tileCoord.x, tileCoord.y;
      ghost var start := meshData.State();
      if side < up {
        PlaceGroundTile(x, up, z, edge);
        ghost var before := meshData.State();
        PlaceWallTiles(tileCoord, side, up, wall);
        EmitAllExtend(start, tileset, [Placement(x, up, z, edge)], WallColumn(x, z, side, up, wall), before, meshData.State());
      } else {
        PlaceGroundTile(x, up, z, Ground);
      }
    }

    /** Appends one tile at (x, y, z). */
    method PlaceGroundTile(x: int, y: int, z: int, tile: RuleTile)
      requires meshData != null && |tileset| >= RuleTileCount
      modifies meshData
      ensures meshData.State() == EmitAll(old(meshData.State()), tileset, [Placement(x, y, z, tile)])
    {
      meshData.AddMesh(FromInts(x, y, z), GetTile(tileset, tile));
      EmitAllSnoc(old(meshData.State()), tileset, [], Placement(x, y, z, tile));
    }

    /** Appends a column of `tile` at every height from `baseHeight` up to, not including, `topHeight`. */
    method PlaceWallTiles(tileCoord: Vector2Int, baseHeight: int, topHeight: int, tile: RuleTile)
      requires meshData != null && |tileset| >= RuleTileCount
      modifies meshData
      ensures meshData.State() ==
        EmitAll(old(meshData.State()), tileset, WallColumn(tileCoord.x, tileCoord.y, baseHeight, topHeight, tile))
    {
      ghost var start := meshData.State();
      var height := baseHeight;
      while height < topHeight
        invariant baseHeight <= height <= Max(baseHeight, topHeight)
        invariant meshData.State() == EmitAll(start, tileset, WallColumn(tileCoord.x, tileCoord.y, baseHeight, height, tile))
      {
        ghost var before := meshData.State();
        meshData.AddMesh(FromInts(tileCoord.x, height, tileCoord.y), GetTile(tileset, tile));
        WallColumnStep(start, tileset, tileCoord.x, tileCoord.y, baseHeight, height, tile, before, meshData.State());
        height := height + 1;
      }
      assert height == Max(baseHeight, topHeight);
    }

    /** Appends the base piece at `baseHeight`, wall pieces strictly between, and the top piece at `topHeight`. */
    method PlaceDiagWallTiles(tileCoord: Vector2Int, baseHeight: int, topHeight: int,
                              baseTile: RuleTile, wallTile: RuleTile, topTile: RuleTile)
      requires meshData != null && |tileset| >= RuleTileCount
      modifies meshData
      ensures meshData.State() == EmitAll(old(meshData.State()), tileset,
        DiagonalWall(tileCoord.x, tileCoord.y, baseHeight, topHeight, baseTile, wallTile, topTile))
    {
      var x, z := tileCoord.x, tileCoord.y;
      ghost var start := meshData.State();
      meshData.AddMesh(FromInts(x, baseHeight, z), GetTile(tileset, baseTile));
      ghost var afterBase := meshData.State();
      // The C# middle loop runs over the heights baseHeight + 1 .. topHeight - 1 appending wallTile,
      // which is exactly the loop of PlaceWallTiles on that range.
      PlaceWallTiles(tileCoord, baseHeight + 1, topHeight, wallTile);
      ghost var afterWalls := meshData.State();
      meshData.AddMesh(FromInts(x, topHeight, z), GetTile(tileset, topTile));
      DiagonalWallSteps(start, tileset, x, z, baseHeight, topHeight, baseTile, wallTile, topTile,
                        afterBase, afterWalls, meshData.State());
    }

    /** Drops every chunk outside the first `chunksX` columns and `chunksZ` rows of chunks; the others keep
        their buffers. */
    method DeleteUnusedChunks(chunksX: int, chunksZ: int)
      requires Valid()
      modifies this`mapChunks
      ensures Valid()
      ensures forall k :: k in mapChunks <==> k in old(mapChunks) && Kept(chunksX, chunksZ, k)
      ensures forall k :: k in mapChunks ==> mapChunks[k] == old(mapChunks)[k]
    {
      var chunksToDelete := set k | k in mapChunks && !Kept(chunksX, chunksZ, k);
      while chunksToDelete != {}
        invariant Valid()
        invariant forall k :: k in chunksToDelete ==> k in old(mapChunks) && !Kept(chunksX, chunksZ, k)
        invariant forall k :: k in mapChunks <==> k in old(mapChunks) && (Kept(chunksX, chunksZ, k) || k in chunksToDelete)
        invariant forall k :: k in mapChunks ==> mapChunks[k] == old(mapChunks)[k]
        decreases |chunksToDelete|
      {
        var k :| k in chunksToDelete;
        mapChunks := mapChunks - {k};
        chunksToDelete := chunksToDelete - {k};
      }
    }

    /** Adds a chunk with a new, empty buffer (the C# code also instantiates the chunk's game object and mesh). */
    method InitializeChunk(chunkCoord: Vector2Int)
      requires Valid() && chunkCoord !in mapChunks
      modifies this`mapChunks, this`owners
      ensures Valid() && chunkCoord in mapChunks && fresh(mapChunks[chunkCoord])
      ensures mapChunks == old(mapChunks)[chunkCoord := mapChunks[chunkCoord]]
      ensures mapChunks[chunkCoord].State() == Cleared
    {
      var chunkMeshData := new MeshData();
      mapChunks := mapChunks[chunkCoord := chunkMeshData];
      owners := owners[chunkMeshData := chunkCoord];
    }

    /** Records the map's size, drops the chunks outside the map's grid of chunks, and regenerates every chunk
        of the grid row by row, creating the ones that do not exist yet. Chunks the grid does not cover but
        DeleteUnusedChunks keeps (those with a negative coordinate) are left as they were. */
    method GenerateMapMesh(heightMap: HeightMap)
      requires Valid() && heightMap.Valid()
      modifies this, mapChunks.Values
      ensures Valid() && mapSize == heightMap.mapSize
      ensures forall k :: k in mapChunks <==>
        (k in old(mapChunks) && Kept(ChunkCount(mapSize.x), ChunkCount(mapSize.y), k)) || InGrid(mapSize, k)
      ensures forall k :: k in mapChunks && k in old(mapChunks) ==> mapChunks[k] == old(mapChunks)[k]
      ensures forall k :: k in mapChunks && k !in old(mapChunks) ==> fresh(mapChunks[k])
      ensures forall k :: InGrid(mapSize, k) ==> mapChunks[k].State() == ChunkMesh(Snapshot(heightMap), tileset, mapSize, k)
      ensures forall k :: k in mapChunks && !InGrid(mapSize, k) ==> mapChunks[k].State() == old(mapChunks[k].State())
    {
      mapSize := heightMap.GetMapSize();
      var chunksX := ChunkCount(mapSize.x);
      var chunksZ := ChunkCount(mapSize.y);
      ghost var g := Snapshot(heightMap);
      ghost var mesh := GridMeshes(g, tileset, mapSize);
      GridMeshesGivesChunkMeshes(g, tileset, mapSize);
      DeleteUnusedChunks(chunksX, chunksZ);
      ghost var kept := mapChunks;
      forall k
        ensures Generated(k, chunksX, chunksZ, 0) <==> InGrid(mapSize, k)
      {
      }
      GenerateChunks(heightMap, g, mesh, chunksX, chunksZ);
      forall k
        ensures k in kept <==> k in old(mapChunks) && Kept(chunksX, chunksZ, k)
      {
      }
    }

    /** GenerateMapMesh's outer loop: regenerates chunk rows 0 to `chunksZ - 1`, from south to north. */
    method GenerateChunks(heightMap: HeightMap, ghost g: Heights, ghost mesh: map<Vector2Int, MeshState>,
                          chunksX: int, chunksZ: int)
      requires Valid() && heightMap.Valid() && mapSize == heightMap.mapSize && g == Snapshot(heightMap)
      requires ChunkMeshes(mesh, g, tileset, mapSize) && chunksX >= 0 && chunksZ >= 0
      requires forall k :: Generated(k, chunksX, chunksZ, 0) ==> k in mesh
      modifies this`mapChunks, this`owners, this`meshData, mapChunks.Values
      ensures Valid()
      ensures forall k :: k in mapChunks <==> k in old(mapChunks) || Generated(k, chunksX, chunksZ, 0)
      ensures forall k :: k in old(mapChunks) ==> mapChunks[k] == old(mapChunks)[k]
      ensures forall k :: k in mapChunks && k !in old(mapChunks) ==> fresh(mapChunks[k])
      ensures forall k :: Generated(k, chunksX, chunksZ, 0) ==> mapChunks[k].State() == mesh[k]
      ensures forall k :: k in old(mapChunks) && !Generated(k, chunksX, chunksZ, 0) ==>
        mapChunks[k].State() == old(mapChunks[k].State())
    {
      ghost var kept := mapChunks;
      ghost var before := map k | k in kept :: kept[k].State();
      var z := 0;
      while z < chunksZ
        invariant 0 <= z <= chunksZ && Valid()
        invariant forall k :: k in mapChunks <==> k in kept || Generated(k, chunksX, z, 0)
        invariant forall k :: k in kept ==> mapChunks[k] == kept[k]
        invariant forall k :: k in mapChunks && k !in kept ==> fresh(mapChunks[k])
        invariant forall k :: Generated(k, chunksX, z, 0) ==> k in mapChunks && k in mesh && mapChunks[k].State() == mesh[k]
        invariant forall k :: k in kept && !Generated(k, chunksX, z, 0) ==> mapChunks[k].State() == before[k]
      {
        assert forall k :: Generated(k, chunksX, z + 1, 0) ==> Generated(k, chunksX, chunksZ, 0);
        GenerateChunkRow(heightMap, g, mesh, kept, before, chunksX, z);
        z := z + 1;
      }
    }

    /** GenerateMapMesh's inner loop: regenerates the chunks of chunk row `z`, from west to east, extending the
        regenerated part of the grid by that row; the chunks GenerateMapMesh kept (`kept`, whose meshes were
        `before`) keep their buffers and, outside what is regenerated, their meshes. */
    method GenerateChunkRow(heightMap: HeightMap, ghost g: Heights, ghost mesh: map<Vector2Int, MeshState>,
                            ghost kept: map<Vector2Int, MeshData>, ghost before: map<Vector2Int, MeshState>,
                            chunksX: int, z: int)
      requires Valid() && heightMap.Valid() && mapSize == heightMap.mapSize && g == Snapshot(heightMap)
      requires ChunkMeshes(mesh, g, tileset, mapSize) && chunksX >= 0 && z >= 0
      requires forall k :: Generated(k, chunksX, z + 1, 0) ==> k in mesh
      requires kept.Keys <= before.Keys
      requires forall k :: k in mapChunks <==> k in kept || Generated(k, chunksX, z, 0)
      requires forall k :: k in kept ==> mapChunks[k] == kept[k]
      requires forall k :: Generated(k, chunksX, z, 0) ==> k in mapChunks && k in mesh && mapChunks[k].State() == mesh[k]
      requires forall k :: k in kept && !Generated(k, chunksX, z, 0) ==> mapChunks[k].State() == before[k]
      modifies this`mapChunks, this`owners, this`meshData, mapChunks.Values
      ensures Valid()
      ensures forall k :: k in mapChunks <==> k in kept || Generated(k, chunksX, z + 1, 0)
      ensures forall k :: k in old(mapChunks) ==> k in mapChunks && mapChunks[k] == old(mapChunks)[k]
      ensures forall k :: k in mapChunks && k !in old(mapChunks) ==> fresh(mapChunks[k])
      ensures forall k :: Generated(k, chunksX, z + 1, 0) ==> k in mapChunks && k in mesh && mapChunks[k].State() == mesh[k]
      ensures forall k :: k in kept && !Generated(k, chunksX, z + 1, 0) ==> mapChunks[k].State() == before[k]
    {
      ghost var start := mapChunks;
      var x := 0;
      while x < chunksX
        invariant 0 <= x <= chunksX && Valid()
        invariant forall k :: k in mapChunks <==> k in kept || Generated(k, chunksX, z, x)
        invariant forall k :: k in start ==> k in mapChunks && mapChunks[k] == start[k]
        invariant forall k :: k in mapChunks && k !in start ==> fresh(mapChunks[k])
        invariant forall k :: Generated(k, chunksX, z, x) ==> k in mapChunks && k in mesh && mapChunks[k].State() == mesh[k]
        invariant forall k :: k in kept && !Generated(k, chunksX, z, x) ==> mapChunks[k].State() == before[k]
      {
        ghost var next := x + 1;
        assert forall k :: Generated(k, chunksX, z, next) ==> Generated(k, chunksX, z + 1, 0);
        GenerateChunkAt(heightMap, g, mesh, kept, before, chunksX, x, z);
        x := x + 1;
      }
      forall k
        ensures Generated(k, chunksX, z, chunksX) <==> Generated(k, chunksX, z + 1, 0)
      {
      }
    }

    /** The body of GenerateMapMesh's inner loop: creates chunk (x, z) if it does not exist yet and
        regenerates it, extending the regenerated part of the grid by that chunk. */
    method GenerateChunkAt(heightMap: HeightMap, ghost g: Heights, ghost mesh: map<Vector2Int, MeshState>,
                           ghost kept: map<Vector2Int, MeshData>, ghost before: map<Vector2Int, MeshState>,
                           chunksX: int, x: int, z: int)
      requires Valid() && heightMap.Valid() && mapSize == heightMap.mapSize && g == Snapshot(heightMap)
      requires ChunkMeshes(mesh, g, tileset, mapSize) && 0 <= x < chunksX && 0 <= z
      requires forall k :: Generated(k, chunksX, z, x + 1) ==> k in mesh
      requires kept.Keys <= before.Keys
      requires forall k :: k in mapChunks <==> k in kept || Generated(k, chunksX, z, x)
      requires forall k :: k in kept ==> mapChunks[k] == kept[k]
      requires forall k :: Generated(k, chunksX, z, x) ==> k in mapChunks && k in mesh && mapChunks[k].State() == mesh[k]
      requires forall k :: k in kept && !Generated(k, chunksX, z, x) ==> mapChunks[k].State() == before[k]
      modifies this`mapChunks, this`owners, this`meshData
      modifies if Vector2Int(x, z) in mapChunks then {mapChunks[Vector2Int(x, z)]} else {}
      ensures Valid()
      ensures forall k :: k in mapChunks <==> k in kept || Generated(k, chunksX, z, x + 1)
      ensures forall k :: k in kept ==> mapChunks[k] == kept[k]
      ensures forall k :: k in old(mapChunks) ==> k in mapChunks && mapChunks[k] == old(mapChunks)[k]
      ensures forall k :: k in mapChunks && k !in old(mapChunks) ==> fresh(mapChunks[k])
      ensures forall k :: Generated(k, chunksX, z, x + 1) ==> k in mapChunks && k in mesh && mapChunks[k].State() == mesh[k]
      ensures forall k :: k in kept && !Generated(k, chunksX, z, x + 1) ==> mapChunks[k].State() == before[k]
    {
      var chunkCoord := Vector2Int(x, z);
      forall k
        ensures Generated(k, chunksX, z, x + 1) <==> Generated(k, chunksX, z, x) || k == chunkCoord
      {
      }
      if chunkCoord !in mapChunks {
        InitializeChunk(chunkCoord);
      }
      RegenerateChunk(heightMap, g, mesh, chunkCoord);
    }

    /** GenerateChunk on a chunk of the map's grid, with its result stated through `mesh`. */
    method RegenerateChunk(heightMap: HeightMap, ghost g: Heights, ghost mesh: map<Vector2Int, MeshState>,
                           chunkCoord: Vector2Int)
      requires Valid() && heightMap.Valid() && mapSize == heightMap.mapSize && g == Snapshot(heightMap)
      requires ChunkMeshes(mesh, g, tileset, mapSize) && chunkCoord in mesh && chunkCoord in mapChunks
      modifies this`meshData, mapChunks[chunkCoord]
      ensures Valid() && mapChunks == old(mapChunks)
      ensures mapChunks[chunkCoord].State() == mesh[chunkCoord] && meshData == mapChunks[chunkCoord]
      ensures forall k :: k in mapChunks && k != chunkCoord ==> mapChunks[k].State() == old(mapChunks[k].State())
    {
      assert ChunkReadable(g.size, mapSize, chunkCoord);
      forall k | k in mapChunks && k != chunkCoord
        ensures mapChunks[k] != mapChunks[chunkCoord]
      {
        BuffersDistinct(k, chunkCoord);
      }
      GenerateChunk(chunkCoord, heightMap);
    }
  }
}
