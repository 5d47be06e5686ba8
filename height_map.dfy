/** The height grid: a `mapSize.x` by `mapSize.y` array of integer heights. */
module HeightGrid {
  import opened Geometry

  class HeightMap {
    var mapSize: Vector2Int
    var heightMap: array2<int>

    /** The array always has exactly the extent recorded in `mapSize`. */
    ghost predicate Valid()
      reads this
    {
      0 <= mapSize.x && 0 <= mapSize.y &&
      heightMap.Length0 == mapSize.x && heightMap.Length1 == mapSize.y
    }

    /** A map whose dimensions are at least one, so that the clamping reader always has a cell to read. */
    predicate NonEmpty()
      reads this
    {
      mapSize.x >= 1 && mapSize.y >= 1
    }

    /** A fresh all-zero grid (a C# `int[,]` starts zeroed); a negative size would make the allocation throw. */
    constructor(mapSize: Vector2Int)
      requires 0 <= mapSize.x && 0 <= mapSize.y
      ensures Valid() && this.mapSize == mapSize && fresh(heightMap)
      ensures forall x, y :: 0 <= x < mapSize.x && 0 <= y < mapSize.y ==> heightMap[x, y] == 0
    {
      this.mapSize := mapSize;
      heightMap := new int[mapSize.x, mapSize.y]((x, y) => 0);
    }

    predicate IsCellWithinBounds(x: int, y: int)
      reads this
    {
      x >= 0 && y >= 0 && x < mapSize.x && y < mapSize.y
    }

    /** The bounds-checked reader: the stored height on the map, 0 anywhere off it. */
    function GetCell(x: int, y: int): (r: int)
      reads this, heightMap
      requires Valid()
      ensures IsCellWithinBounds(x, y) ==> r == heightMap[x, y]
      ensures !IsCellWithinBounds(x, y) ==> r == 0
    {
      if x >= 0 && y >= 0 && x < mapSize.x && y < mapSize.y then heightMap[x, y] else 0
    }

    /** The clamping reader used by the autotiler: 0 below the map (negative row), otherwise the
        nearest cell of the map. On an empty map a non-negative row indexes outside the array,
        which HeightMap.cs does not guard against. */
    function GetCellAt(coords: Vector2Int): (r: int)
      reads this, heightMap
      requires Valid()
      requires coords.y < 0 || NonEmpty()
      ensures coords.y < 0 ==> r == 0
      ensures coords.y >= 0 ==> r == GetCell(Clamp(coords.x, 0, mapSize.x - 1), Clamp(coords.y, 0, mapSize.y - 1))
    {
      if coords.y < 0 then 0
      else heightMap[Clamp(coords.x, 0, mapSize.x - 1), Clamp(coords.y, 0, mapSize.y - 1)]
    }

    function GetMapSize(): (r: Vector2Int)
      reads this
      requires Valid()
      ensures r.x == heightMap.Length0 && r.y == heightMap.Length1
    {
      mapSize
    }

    /** Writes one cell when it is on the map; off the map nothing changes. */
    method SetCell(x: int, y: int, height: int)
      requires Valid()
      modifies heightMap
      ensures Valid()
      ensures forall i, j :: 0 <= i < mapSize.x && 0 <= j < mapSize.y ==>
        heightMap[i, j] == if i == x && j == y then height else old(heightMap[i, j])
      ensures !IsCellWithinBounds(x, y) ==> forall i, j :: 0 <= i < mapSize.x && 0 <= j < mapSize.y ==>
        heightMap[i, j] == old(heightMap[i, j])
      ensures GetCell(x, y) == if IsCellWithinBounds(x, y) then height else 0
    {
      if IsCellWithinBounds(x, y) {
        heightMap[x, y] := height;
      }
    }

    /** Resizes the grid: the overlapping rectangle keeps its heights, every other cell of the new grid is 0. */
    method SetMapSize(newMapSize: Vector2Int)
      requires Valid()
      requires 0 <= newMapSize.x && 0 <= newMapSize.y
      modifies this
      ensures Valid() && mapSize == newMapSize && fresh(heightMap)
      ensures forall i, j :: 0 <= i < mapSize.x && 0 <= j < mapSize.y ==>
        heightMap[i, j] == if i < old(mapSize.x) && j < old(mapSize.y) then old(heightMap[i, j]) else 0
    {
      var newHeightmap := new int[newMapSize.x, newMapSize.y]((i, j) => 0);
      var minX := Min(mapSize.x, newMapSize.x);
      var minY := Min(mapSize.y, newMapSize.y);
      var y := 0;
      while y < minY
        modifies newHeightmap
        invariant 0 <= y <= minY
        invariant forall i, j :: 0 <= i < newMapSize.x && 0 <= j < newMapSize.y ==>
          newHeightmap[i, j] == if i < minX && j < y then heightMap[i, j] else 0
      {
        var x := 0;
        while x < minX
          modifies newHeightmap
          invariant 0 <= x <= minX
          invariant forall i, j :: 0 <= i < newMapSize.x && 0 <= j < newMapSize.y ==>
            newHeightmap[i, j] == if i < minX && (j < y || (j == y && i < x)) then heightMap[i, j] else 0
        {
          newHeightmap[x, y] := heightMap[x, y];
          x := x + 1;
        }
        y := y + 1;
      }
      heightMap := newHeightmap;
      mapSize := newMapSize;
    }
  }

  /** The map's heights as a value: `cells[x][y]` is the height of column x, row y. */
  datatype Heights = Heights(size: Vector2Int, cells: seq<seq<int>>)

  /** The value has exactly the extent it records. */
  ghost predicate Shaped(g: Heights)
  {
    && 0 <= g.size.x && 0 <= g.size.y && |g.cells| == g.size.x
    && forall x :: 0 <= x < |g.cells| ==> |g.cells[x]| == g.size.y
  }

  predicate HasCells(g: Heights)
  {
    g.size.x >= 1 && g.size.y >= 1
  }

  /** The clamping reader on the value: 0 below the map, otherwise the nearest cell of the map. */
  function ReadAt(g: Heights, coords: Vector2Int): int
    requires Shaped(g) && (coords.y < 0 || HasCells(g))
  {
    if coords.y < 0 then 0 else g.cells[Clamp(coords.x, 0, g.size.x - 1)][Clamp(coords.y, 0, g.size.y - 1)]
  }

  /** Below the map the reader gives 0; on the map it gives the cell itself. */
  lemma ReadAtCells(g: Heights, coords: Vector2Int)
    requires Shaped(g) && (coords.y < 0 || HasCells(g))
    ensures coords.y < 0 ==> ReadAt(g, coords) == 0
    ensures 0 <= coords.x < g.size.x && 0 <= coords.y < g.size.y ==> ReadAt(g, coords) == g.cells[coords.x][coords.y]
  {
  }

  /** Rows 0 to n - 1 of column x of the array. */
  function Column(a: array2<int>, x: int, n: int): (r: seq<int>)
    reads a
    requires 0 <= x < a.Length0 && 0 <= n <= a.Length1
    ensures |r| == n && forall y :: 0 <= y < n ==> r[y] == a[x, y]
  {
    if n == 0 then [] else Column(a, x, n - 1) + [a[x, n - 1]]
  }

  /** Columns 0 to n - 1 of the array. */
  function Columns(a: array2<int>, n: int): (r: seq<seq<int>>)
    reads a
    requires 0 <= n <= a.Length0
    ensures |r| == n && forall x :: 0 <= x < n ==> r[x] == Column(a, x, a.Length1)
  {
    if n == 0 then [] else Columns(a, n - 1) + [Column(a, n - 1, a.Length1)]
  }

  /** The current heights of the map, as a value. */
  function Snapshot(hm: HeightMap): (g: Heights)
    reads hm, hm.heightMap
    requires hm.Valid()
    ensures Shaped(g) && g.size == hm.mapSize
  {
    Heights(hm.mapSize, Columns(hm.heightMap, hm.heightMap.Length0))
  }

  /** The snapshot holds the map's heights: cell (x, y) of the value is cell (x, y) of the array. */
  lemma SnapshotCells(hm: HeightMap)
    requires hm.Valid()
    ensures forall x, y :: 0 <= x < hm.mapSize.x && 0 <= y < hm.mapSize.y ==>
      Snapshot(hm).cells[x][y] == hm.heightMap[x, y]
  {
  }

  /** The clamping reader of the map reads what the value reader reads on the map's snapshot. */
  lemma SnapshotReads(hm: HeightMap, g: Heights, coords: Vector2Int)
    requires hm.Valid() && g == Snapshot(hm) && (coords.y < 0 || hm.NonEmpty())
    ensures coords.y < 0 || HasCells(g)
    ensures hm.GetCellAt(coords) == ReadAt(g, coords)
  {
  }

  /** The bounds test holds exactly at the cells the array can be indexed at. */
  lemma WithinBoundsIsIndexable(hm: HeightMap, x: int, y: int)
    requires hm.Valid()
    ensures hm.IsCellWithinBounds(x, y) <==> 0 <= x < hm.heightMap.Length0 && 0 <= y < hm.heightMap.Length1
  {
  }

  /** On the map the two readers agree. */
  lemma ReadersAgreeOnMap(hm: HeightMap, x: int, y: int)
    requires hm.Valid() && hm.IsCellWithinBounds(x, y)
    ensures hm.GetCellAt(Vector2Int(x, y)) == hm.GetCell(x, y) == hm.heightMap[x, y]
  {
  }

  /** The clamping reader returns 0 for every negative row, whatever the column. */
  lemma BelowMapIsVoid(hm: HeightMap, coords: Vector2Int)
    requires hm.Valid() && coords.y < 0
    ensures hm.GetCellAt(coords) == 0
  {
  }

  /** Off the east, west and north edges, the clamping reader returns the nearest edge cell instead of 0,
      while the bounds-checked reader returns 0 there. */
  lemma OffMapReadsNearestEdge(hm: HeightMap, x: int, y: int)
    requires hm.Valid() && hm.NonEmpty() && y >= 0
    ensures 0 <= y < hm.mapSize.y && x >= hm.mapSize.x ==>
      hm.GetCellAt(Vector2Int(x, y)) == hm.heightMap[hm.mapSize.x - 1, y] && hm.GetCell(x, y) == 0
    ensures 0 <= y < hm.mapSize.y && x < 0 ==>
      hm.GetCellAt(Vector2Int(x, y)) == hm.heightMap[0, y] && hm.GetCell(x, y) == 0
    ensures 0 <= x < hm.mapSize.x && y >= hm.mapSize.y ==>
      hm.GetCellAt(Vector2Int(x, y)) == hm.heightMap[x, hm.mapSize.y - 1] && hm.GetCell(x, y) == 0
  {
  }
}
