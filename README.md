# Terrain mesh generation, modelled in Dafny

This project models the mesh-generation core of a tile-based terrain editor. A 2D grid of integer heights is
turned into a 3D mesh built from autotiled ground, wall and corner pieces, cut into chunks of 32 × 32 cells.
The core has three parts.

- **The height grid** (`height_map.dfy`, module `HeightGrid`). The class `HeightMap` holds a `mapSize` and an
  `array2<int>` of heights. It has two readers:
  - `GetCell(x, y)` is bounds-checked and gives 0 off the map;
  - `GetCellAt(coords)` is the clamping reader the autotiler uses. It gives 0 for any negative row and
    otherwise reads the nearest cell of the map.

  It also has a bounds-checked writer and an in-place resize that keeps the overlapping rectangle.
  `Heights` is a value copy of the grid (`Snapshot`), so the pure specification functions can talk about
  heights without reading the heap.
- **The mesh buffer** (`mesh_data.dfy`, module `Meshes`). The class `MeshData` is an append-only
  accumulator of vertices, texture coordinates and triangle indices. A running `vertexIndex` rebases each
  appended tile's triangle indices. `MeshState` is its contents as a value, and `Append` is what one
  `AddMesh` call does to it.
- **The autotiler and the chunk driver.**
  - `autotiler.dfy` (module `AutoTiling`) holds the pure rules:
    - the 25 `RuleTile` slots;
    - the four-neighbour bitmask (up, right, down, left give bits 1, 2, 4, 8);
    - the 16-case ground-tile choice;
    - `TilePlacements`, the exact sequence of tiles one cell emits, in emission order;
    - `EmitAll`, which folds placements into a buffer.
  - `map_mesh_generator.dfy` (module `MeshGeneration`) holds the chunk grid and the class
    `MapMeshGenerator`:
    - `ChunkMesh` is the specification of one chunk's buffer: the placements of the chunk's footprint
      cells, in row-major order, from a cleared buffer;
    - the class's methods (`GenerateMapMesh`, `GenerateChunk`, `PlaceAutoTiles`, `PlaceWallTiles`, …) are
      proved to produce exactly that, and each source loop is modelled by a Dafny loop or by a method
      whose contract is the loop's invariant.

`geometry.dfy` (module `Geometry`) supplies Unity's `Vector2Int`, `Vector2` and `Vector3`, and `Mathf.Clamp`,
`Min` and `Max`.

Behaviour of the code worth knowing:

- **Off-map neighbours.** The autotiler reads neighbours through the clamping reader. An off-map east, west
  or north neighbour reads as the nearest edge cell of the map, and any row below the map reads 0.
  `OffMapReadsNearestEdge`, `EdgeNeighbour` and `NoStraightWallsOffMapSides` pin this down.
- **Diagonal walls.** Masks 3 and 9 place a diagonal wall, whose base sits at `Mathf.Max` of the two side
  neighbours' heights. Masks 6 and 12 place an edge or ground piece at the up neighbour's height and at most
  one straight wall column.
- **Whole-grid regeneration.** `GenerateMapMesh` regenerates every chunk of the grid on each call.
- **Negative chunk coordinates.** `DeleteUnusedChunks` removes a chunk when a coordinate is at or past the
  grid's chunk count, so a chunk with a negative coordinate stays in the dictionary.

## Model

| member | source | states |
|---|---|---|
| Geometry.Clamp | Assets/Scripts/HeightMap.cs:31-32 | for a non-empty interval [min, max]: the result lies in it, a value inside it is returned unchanged, a value below min gives min and a value above max gives max |
| HeightGrid.HeightMap.constructor | Assets/Scripts/HeightMap.cs:11-15 | the map records the given size, owns a fresh array of exactly that extent, and every cell is 0 |
| HeightGrid.HeightMap.GetCell | Assets/Scripts/HeightMap.cs:17-24 | inside the bounds the stored height is returned; anywhere outside them the result is 0 |
| HeightGrid.HeightMap.GetCellAt | Assets/Scripts/HeightMap.cs:25-34 | a negative row reads 0 whatever the column; any other coordinate reads the bounds-checked height of the coordinate clamped onto the map |
| HeightGrid.HeightMap.GetMapSize | Assets/Scripts/HeightMap.cs:49-52 | the reported size is the extent of the height array |
| HeightGrid.HeightMap.SetCell | Assets/Scripts/HeightMap.cs:36-42 | an in-bounds write changes exactly that cell, which then reads back the new height; a write off the map leaves every cell unchanged and reading there still gives 0 |
| HeightGrid.HeightMap.SetMapSize | Assets/Scripts/HeightMap.cs:54-70 | the size becomes the new size, the array is fresh with that extent, cells inside both the old and new extents keep their heights and every other cell is 0 |
| HeightGrid.ReadAtCells | Assets/Scripts/HeightMap.cs:25-34 | the value-level clamping reader gives 0 below the map and the stored cell at every on-map coordinate |
| HeightGrid.SnapshotCells | Assets/Scripts/HeightMap.cs:8-9 | the value copy of the grid holds, at (x, y), exactly the array's cell (x, y) |
| HeightGrid.SnapshotReads | Assets/Scripts/HeightMap.cs:25-34 | the clamping reader of the class and the value reader on its snapshot agree at every readable coordinate |
| HeightGrid.WithinBoundsIsIndexable | Assets/Scripts/HeightMap.cs:44-47 | the bounds test holds exactly when the coordinate indexes the height array |
| HeightGrid.ReadersAgreeOnMap | Assets/Scripts/HeightMap.cs:17-34 | on the map, the clamping reader, the bounds-checked reader and the array cell are all equal |
| HeightGrid.BelowMapIsVoid | Assets/Scripts/HeightMap.cs:27-30 | every negative row reads 0 through the clamping reader, for any column and even on an empty map |
| HeightGrid.OffMapReadsNearestEdge | Assets/Scripts/HeightMap.cs:17-34 | past the east, west or north edge the clamping reader returns the nearest edge cell, while the bounds-checked reader returns 0 there |
| Meshes.Translated | Assets/Scripts/MeshData.cs:24-27 | one vertex per tile position, in order, each the position moved by the origin |
| Meshes.Rebased | Assets/Scripts/MeshData.cs:34-37 | one index per tile index, in order, each shifted by the vertex counter |
| Meshes.AppendContents | Assets/Scripts/MeshData.cs:22-40 | appending keeps the old buffer as a prefix; it adds the translated positions, the texture coordinates verbatim and the indices shifted by the pre-call counter, and raises the counter by the tile's vertex count |
| Meshes.AppendKeepsCounter | Assets/Scripts/MeshData.cs:39 | appending preserves the invariant that the counter equals the number of vertices |
| Meshes.AppendKeepsIndicesInRange | Assets/Scripts/MeshData.cs:34-39 | appending a tile whose indices name its own vertices keeps every triangle index of the buffer below the vertex count |
| Meshes.MeshData.constructor | Assets/Scripts/MeshData.cs:14-20 | a new buffer holds no vertices, UVs or indices and its counter is 0 |
| Meshes.MeshData.AddMesh | Assets/Scripts/MeshData.cs:22-40 | the three loops and the counter update leave the buffer at exactly Append of the old contents, and the counter invariant is preserved |
| Meshes.MeshData.ClearData | Assets/Scripts/MeshData.cs:42-48 | the buffer is empty and the counter is 0 |
| AutoTiling.Index | Assets/Scripts/MapMeshGenerator.cs:12-40 | every rule tile has a slot below RULE_TILE_COUNT = 25 |
| AutoTiling.IndexInjective | Assets/Scripts/MapMeshGenerator.cs:12-40 | distinct rule tiles have distinct tileset slots |
| AutoTiling.BitArrayToInt | Assets/Scripts/MapMeshGenerator.cs:163-168 | for fewer than 32 bits the integer is the bits' value read least significant bit first; in all cases it is a 32-bit signed integer |
| AutoTiling.SolidSides | Assets/Scripts/MapMeshGenerator.cs:150-161 | one bit per neighbour, in order, set exactly when the tile height is at most that neighbour's height |
| AutoTiling.Mask | Assets/Scripts/MapMeshGenerator.cs:181-182 | the mask lies in [0, 15] and is the sum of 1, 2, 4 and 8 over the up, right, down and left neighbours at or above the tile |
| AutoTiling.SidesValue | Assets/Scripts/MapMeshGenerator.cs:150-168 | the little-endian value of the four neighbour bits is that same sum of 1, 2, 4 and 8 |
| AutoTiling.GroundTile | Assets/Scripts/MapMeshGenerator.cs:184-309 | each mask in [0, 15] selects a non-wall tile whose role names that mask back; any other value selects GROUND |
| AutoTiling.MaskBit | Assets/Scripts/MapMeshGenerator.cs:150-161 | bit i of the mask is set if and only if neighbour i is at or above the tile |
| AutoTiling.MaskOfRoundTrip | Assets/Scripts/MapMeshGenerator.cs:184-309 | every non-wall tile is the ground tile of exactly the mask its role names; the wall pieces are the ground tile of no mask |
| AutoTiling.WallColumn | Assets/Scripts/MapMeshGenerator.cs:335-341 | max(0, top − base) copies of the tile, at heights base, base + 1, … in increasing order |
| AutoTiling.DiagonalWall | Assets/Scripts/MapMeshGenerator.cs:343-351 | 2 + max(0, top − base − 1) pieces: the base piece at base, wall pieces at the heights in between, the top piece at top |
| AutoTiling.CornerStep | Assets/Scripts/MapMeshGenerator.cs:204-219 | a south corner starts at the higher side height with that side's edge, or GROUND when level, followed by the higher side's wall tile at each height from the lower side's height up to, not including, the higher one |
| AutoTiling.NorthCornerStep | Assets/Scripts/MapMeshGenerator.cs:235-243 | a north corner starts at the up neighbour's height with the edge when the side neighbour is lower, GROUND otherwise, followed by the wall tile at each height from the side's height up to, not including, the up neighbour's |
| AutoTiling.CornerTiles | Assets/Scripts/MapMeshGenerator.cs:187-309 | the corner pieces are non-empty exactly for the corner masks 3, 6, 9 and 12 |
| AutoTiling.SideColumn | Assets/Scripts/MapMeshGenerator.cs:316-327 | one side's wall column has max(0, tile − neighbour) pieces of that side's wall tile, at heights neighbour, neighbour + 1, … |
| AutoTiling.SideWalls | Assets/Scripts/MapMeshGenerator.cs:316-327 | the east, south and west columns together hold one piece per unit each of those neighbours lies below the tile |
| AutoTiling.TilePlacements | Assets/Scripts/MapMeshGenerator.cs:170-328 | every tile a cell emits is placed in that cell's own (x, z) column |
| AutoTiling.GroundTileEmitted | Assets/Scripts/MapMeshGenerator.cs:311 | the chosen ground tile is emitted at the cell's height, after the corner pieces: last for a corner mask, first otherwise |
| AutoTiling.WallColumnCount | Assets/Scripts/MapMeshGenerator.cs:335-341 | a wall column holds each placement of its tile and column exactly once per height in [base, top) and nothing else |
| AutoTiling.StraightWalls | Assets/Scripts/MapMeshGenerator.cs:313-327 | outside the corner masks, a cell emits exactly one east, south or west wall piece at each height from that neighbour's height up to the tile's, and none elsewhere; there is no north wall |
| AutoTiling.StraightWallCount | Assets/Scripts/MapMeshGenerator.cs:313-327 | outside the corner masks, every wall piece a cell emits comes from its side wall columns |
| AutoTiling.NonCornerLayout | Assets/Scripts/MapMeshGenerator.cs:311-327 | outside the corner masks, a cell emits its ground tile followed by the east, south and west side columns |
| AutoTiling.CornerLayout | Assets/Scripts/MapMeshGenerator.cs:311-314 | for masks 3, 6, 9 and 12, a cell emits the corner pieces followed by the ground tile and no straight walls |
| AutoTiling.SideWallsCount | Assets/Scripts/MapMeshGenerator.cs:316-327 | a side wall column exists exactly for an open side, and it spans from that neighbour's height to the tile's height |
| AutoTiling.SouthWestCorner | Assets/Scripts/MapMeshGenerator.cs:201-222 | mask 3 emits, piece by piece: EDGE_W, EDGE_S or GROUND at m = max(down, left); the higher side's WALL_W or WALL_S from min(down, left) up to m; WALL_SW_BASE at m, WALL_SW at each height in between and WALL_SW_TOP at the tile's height; then EDGE_SW |
| AutoTiling.SouthEastCorner | Assets/Scripts/MapMeshGenerator.cs:254-275 | mask 9 emits, piece by piece: EDGE_S, EDGE_E or GROUND at m = max(right, down); the higher side's WALL_S or WALL_E from min(right, down) up to m; WALL_SE_BASE at m, WALL_SE in between and WALL_SE_TOP at the tile's height; then EDGE_SE |
| AutoTiling.NorthCorners | Assets/Scripts/MapMeshGenerator.cs:232-244 | masks 6 and 12 (the latter at lines 285-297) start at the up neighbour's height with the side's edge or GROUND, then the side's WALL_W or WALL_E from the side's height up to the up neighbour's, and end with EDGE_NW or EDGE_NE; no piece is a diagonal wall piece |
| AutoTiling.CornerStepSymmetry | Assets/Scripts/MapMeshGenerator.cs:206-219 | exchanging the two side heights of a corner step exchanges its edge and wall tiles and nothing else |
| AutoTiling.SouthWestSymmetry | Assets/Scripts/MapMeshGenerator.cs:201-222 | swapping the down and left heights of a mask-3 cell keeps mask 3 and swaps the west and south pieces of its output |
| AutoTiling.SouthEastSymmetry | Assets/Scripts/MapMeshGenerator.cs:254-275 | swapping the right and down heights of a mask-9 cell keeps mask 9 and swaps the south and east pieces of its output |
| AutoTiling.EmitAllSnoc | Assets/Scripts/MapMeshGenerator.cs:330-333 | placing one more tile appends that tile's mesh at its grid position to what the earlier placements built |
| AutoTiling.EmitAllConcat | Assets/Scripts/MapMeshGenerator.cs:330-333 | emitting two runs of placements one after the other builds what emitting their concatenation builds |
| AutoTiling.EmitAllKeepsInvariants | Assets/Scripts/MeshData.cs:34-39 | any sequence of placements from a tileset whose tiles index their own vertices keeps the counter invariant and every triangle index in range |
| AutoTiling.EmitAllFromCleared | Assets/Scripts/MeshData.cs:34-39 | any placements emitted into a cleared buffer leave the counter equal to the vertex count and, for a well-formed tileset, every triangle index in range |
| AutoTiling.EmitAllVertexIndex | Assets/Scripts/MeshData.cs:39 | after any sequence of placements, the counter and the vertex count have both grown by the placed tiles' vertex counts |
| MeshGeneration.ChunkCount | Assets/Scripts/MapMeshGenerator.cs:82-83 | the chunk count is the ceiling of size / 32 |
| MeshGeneration.Footprint | Assets/Scripts/MapMeshGenerator.cs:127-128 | a chunk's footprint is at most 32 cells along each axis, never passes the map's edge, and reaches the edge in the last chunk |
| MeshGeneration.ChunksPartitionMap | Assets/Scripts/MapMeshGenerator.cs:127-130 | every map cell lies in the footprint of exactly one chunk, the chunk (x / 32, y / 32), which is in the grid; no footprint of a non-negative chunk holds an off-map cell |
| MeshGeneration.Cells | Assets/Scripts/MapMeshGenerator.cs:132-136 | the row-major walk of a width × rows rectangle has width · rows cells, all inside the rectangle |
| MeshGeneration.CellsRowMajor | Assets/Scripts/MapMeshGenerator.cs:132-136 | position j · width + i of the walk is the cell (origin.x + i, origin.y + j) |
| MeshGeneration.CellsDistinct | Assets/Scripts/MapMeshGenerator.cs:132-136 | no cell is visited twice |
| MeshGeneration.ChunkVisitsFootprint | Assets/Scripts/MapMeshGenerator.cs:127-136 | GenerateChunk visits a cell if and only if it lies in the chunk's footprint, at its row-major position |
| MeshGeneration.ChunkVisitsOnce | Assets/Scripts/MapMeshGenerator.cs:132-136 | GenerateChunk visits each footprint cell exactly once |
| MeshGeneration.NeighbourReads | Assets/Scripts/MapMeshGenerator.cs:52-58 | the four neighbour heights are the clamping reads of the cells above, to the right of, below and to the left of the cell, in that order |
| MeshGeneration.EdgeNeighbour | Assets/Scripts/MapMeshGenerator.cs:138-143 | on the map's edge, the neighbour past the north, east or west edge reads as the cell itself, and the one below row 0 reads 0 |
| MeshGeneration.NoStraightWallsOffMapSides | Assets/Scripts/MapMeshGenerator.cs:316-327 | a cell in the westmost column never gets a west straight wall, and one in the eastmost column never gets an east straight wall |
| MeshGeneration.ChunkCellsReadable | Assets/Scripts/MapMeshGenerator.cs:137-143 | every cell GenerateChunk visits can be read, so what it emits there is that cell's placements |
| MeshGeneration.ChunkMeshValid | Assets/Scripts/MapMeshGenerator.cs:121-148 | a regenerated chunk's buffer satisfies the counter invariant and, for a well-formed tileset, every triangle index is in range |
| MeshGeneration.RowMeshEmits | Assets/Scripts/MapMeshGenerator.cs:134-145 | the inner loop's buffer after x cells is the emission of the first x cells of the row |
| MeshGeneration.RowsMeshEmits | Assets/Scripts/MapMeshGenerator.cs:132-146 | the outer loop's buffer after z rows is the emission of the first z rows in row-major order, from a cleared buffer |
| MeshGeneration.ChunkRowsEmit | Assets/Scripts/MapMeshGenerator.cs:132-146 | running the row loops over a chunk's whole footprint emits exactly the chunk's visited cells in order |
| MeshGeneration.ChunkExtent | Assets/Scripts/MapMeshGenerator.cs:127-130 | the origin and clamped sizes GenerateChunk computes are the chunk's origin and footprint |
| MeshGeneration.ChunkMeshReached | Assets/Scripts/MapMeshGenerator.cs:127-146 | the row loops over the computed origin and sizes build exactly the chunk's specified mesh |
| MeshGeneration.CellReads | Assets/Scripts/MapMeshGenerator.cs:137-143 | the height and neighbour reads of the cell loop are the value-level reads of the map's snapshot |
| MeshGeneration.CellEmission | Assets/Scripts/MapMeshGenerator.cs:144 | autotiling a cell with the heights it read emits that cell's placements |
| MeshGeneration.GridChunksReadable | Assets/Scripts/MapMeshGenerator.cs:82-83 | a non-empty grid of chunks comes from a non-empty map, so each of its chunks can be regenerated |
| MeshGeneration.GridChunksKept | Assets/Scripts/MapMeshGenerator.cs:66-74 | no chunk of the grid is deleted by DeleteUnusedChunks |
| MeshGeneration.MapMeshGenerator.BuffersDistinct | Assets/Scripts/MapMeshGenerator.cs:103-119 | two different chunk coordinates never share a mesh buffer, since each chunk gets its own new buffer |
| MeshGeneration.MapMeshGenerator.constructor | Assets/Scripts/MapMeshGenerator.cs:60-64 | the generator starts with an empty chunk dictionary, no current buffer and the given tileset |
| MeshGeneration.MapMeshGenerator.GetBitmask | Assets/Scripts/MapMeshGenerator.cs:150-161 | bit i of the result is set exactly when the tile height is at most neighbour i |
| MeshGeneration.MapMeshGenerator.GenerateChunk | Assets/Scripts/MapMeshGenerator.cs:121-148 | the chunk's buffer becomes the current buffer and holds exactly the chunk's specified mesh; the dictionary and map size are unchanged |
| MeshGeneration.MapMeshGenerator.AutotileRows | Assets/Scripts/MapMeshGenerator.cs:132-146 | starting from a cleared buffer, the buffer ends holding the emission of the first `rows` rows |
| MeshGeneration.MapMeshGenerator.AutotileRow | Assets/Scripts/MapMeshGenerator.cs:134-145 | the buffer is extended by the emission of the row's cells from west to east |
| MeshGeneration.MapMeshGenerator.AutotileCell | Assets/Scripts/MapMeshGenerator.cs:136-144 | the buffer is extended by exactly the cell's placements |
| MeshGeneration.MapMeshGenerator.ReadNeighbours | Assets/Scripts/MapMeshGenerator.cs:138-143 | a fresh array of four heights, each the clamping read at the matching neighbour offset |
| MeshGeneration.MapMeshGenerator.PlaceAutoTiles | Assets/Scripts/MapMeshGenerator.cs:170-328 | the buffer is extended by exactly TilePlacements of the cell, in emission order |
| MeshGeneration.MapMeshGenerator.PlaceCornerTiles | Assets/Scripts/MapMeshGenerator.cs:187-309 | the buffer is extended by the corner pieces the mask calls for, nothing for a non-corner mask |
| MeshGeneration.MapMeshGenerator.PlaceCornerStep | Assets/Scripts/MapMeshGenerator.cs:204-219 | the buffer is extended by the south corner's starting piece and wall column |
| MeshGeneration.MapMeshGenerator.PlaceNorthCornerStep | Assets/Scripts/MapMeshGenerator.cs:235-243 | the buffer is extended by the north corner's starting piece and wall column |
| MeshGeneration.MapMeshGenerator.PlaceGroundTile | Assets/Scripts/MapMeshGenerator.cs:330-333 | the buffer is extended by one tile at the given position |
| MeshGeneration.MapMeshGenerator.PlaceWallTiles | Assets/Scripts/MapMeshGenerator.cs:335-341 | the height loop extends the buffer by exactly the wall column from base up to, not including, top |
| MeshGeneration.MapMeshGenerator.PlaceDiagWallTiles | Assets/Scripts/MapMeshGenerator.cs:343-351 | the buffer is extended by exactly the diagonal wall: base piece, middle pieces, top piece |
| MeshGeneration.MapMeshGenerator.DeleteUnusedChunks | Assets/Scripts/MapMeshGenerator.cs:66-74 | a chunk remains if and only if it was there and lies below chunksX and chunksZ; the remaining chunks keep their buffers |
| MeshGeneration.MapMeshGenerator.InitializeChunk | Assets/Scripts/MapMeshGenerator.cs:103-119 | exactly one entry is added, for the given chunk, with a fresh empty buffer |
| MeshGeneration.MapMeshGenerator.GenerateMapMesh | Assets/Scripts/MapMeshGenerator.cs:76-101 | afterwards the chunks are exactly the kept old ones plus the grid. Every grid chunk holds its specified mesh from the map's heights, new chunks have fresh buffers, kept chunks keep theirs, and kept chunks outside the grid are untouched |
| MeshGeneration.MapMeshGenerator.GenerateChunks | Assets/Scripts/MapMeshGenerator.cs:89-100 | the nested loops reach exactly the chunks (x, z) with 0 ≤ x < chunksX and 0 ≤ z < chunksZ: each of them is regenerated, missing ones created, and every other chunk is left as it was |
| MeshGeneration.MapMeshGenerator.GenerateChunkRow | Assets/Scripts/MapMeshGenerator.cs:91-99 | the inner loop extends the regenerated part of the grid by one whole chunk row |
| MeshGeneration.MapMeshGenerator.GenerateChunkAt | Assets/Scripts/MapMeshGenerator.cs:93-98 | one chunk is created if missing and regenerated, extending the regenerated part of the grid by that chunk |
| MeshGeneration.MapMeshGenerator.RegenerateChunk | Assets/Scripts/MapMeshGenerator.cs:98 | one chunk is regenerated and every other chunk's buffer contents are unchanged |

## Left out

- Unity plumbing is not part of this model: `MapChunk`, the chunk's `Mesh`, `RebuildMesh`, game objects and
  their names, `Instantiate`, `DestroyImmediate` and `Debug.Log`. A chunk is its `MeshData`, and clearing the
  chunk's mesh is `ClearData`.
- Meshes.MeshData.constructor: the chunk-size and chunk-height arguments only pre-size the lists, which
  changes no contents, so they are not parameters.
- `InitializeChunkDictionary` is not modelled: the chunk dictionary is a `map` that always exists.
- The tileset asset is a sequence of at least 25 tiles indexed by rule tile; its material and the atlas UV
  computation are not part of this model. UVs are given data copied verbatim.
- Floating point: `Vector3` and `Vector2` are exact real triples and pairs. Rounding of vertex positions is not
  modelled.
- Integer width: heights, sizes and chunk coordinates are unbounded integers. 32-bit overflow of
  `mapSize.x + 31`, `chunkCoord * chunkSize` or a wall-height loop counter is not modelled. The one place
  where the 32-bit width matters for the rules, the bit array copied into an `int`, is modelled.
- AutoTiling.BitArrayToInt: requires at most 32 bits, because `BitArray.CopyTo` into a one-element `int` array
  throws for more.
- HeightGrid.HeightMap.GetCellAt: requires a map with at least one row and one column when the row is not
  negative, because HeightMap.cs then indexes an empty array and throws. Callers carry the same condition:
  ReadNeighbours, AutotileCell, GenerateChunk (through `ChunkReadable`).
- HeightGrid.HeightMap.constructor: requires non-negative dimensions, because allocating a negative-sized
  array throws. SetMapSize has the same precondition.
- MeshGeneration.MapMeshGenerator.GenerateMapMesh: does not state which buffer `meshData` points to
  afterwards (the last chunk regenerated). It requires a well-formed height map.
- Height-map persistence (JSON), the editor, cameras and the inspector attribute drawers are not part of this
  model.
