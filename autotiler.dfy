/** The autotiling rules: the four-neighbour bitmask, the 16-case choice among the 25 rule tiles,
    and the exact sequence of tile placements one grid cell emits. */
module AutoTiling {
  import opened Geometry
  import opened Meshes

  /** The 25 tile slots of a tileset, in the order of their indices. */
  datatype RuleTile =
    | NarrowN | EdgeNW | EdgeN | EdgeNE | NarrowVertical | EdgeW | Ground | EdgeE
    | NarrowS | EdgeSW | EdgeS | EdgeSE | Block | NarrowW | NarrowHorizontal | NarrowE
    | WallW | WallS | WallE | WallSWBase | WallSW | WallSWTop | WallSEBase | WallSE | WallSETop

  const RuleTileCount := 25

  /** The slot of a rule tile in the tileset. */
  function Index(t: RuleTile): (i: nat)
    ensures i < RuleTileCount
  {
    match t
    case NarrowN => 0          case EdgeNW => 1         case EdgeN => 2        case EdgeNE => 3
    case NarrowVertical => 4   case EdgeW => 5          case Ground => 6       case EdgeE => 7
    case NarrowS => 8          case EdgeSW => 9         case EdgeS => 10       case EdgeSE => 11
    case Block => 12           case NarrowW => 13       case NarrowHorizontal => 14
    case NarrowE => 15         case WallW => 16         case WallS => 17       case WallE => 18
    case WallSWBase => 19      case WallSW => 20        case WallSWTop => 21
    case WallSEBase => 22      case WallSE => 23        case WallSETop => 24
  }

  /** Distinct rule tiles use distinct tileset slots. */
  lemma IndexInjective(a: RuleTile, b: RuleTile)
    ensures Index(a) == Index(b) ==> a == b
  {
  }

  function GetTile(tileset: seq<Tile>, t: RuleTile): Tile
    requires |tileset| >= RuleTileCount
  {
    tileset[Index(t)]
  }

  /** ---- The bitmask ---- */

  function Pow2(n: nat): (r: nat)
    ensures r >= 1
  {
    if n == 0 then 1 else 2 * Pow2(n - 1)
  }

  /** Bit i of the mask is set when the i-th neighbour (up, right, down, left) is at or above the tile. */
  function SolidSides(tileHeight: int, neighbours: seq<int>): (r: seq<bool>)
    ensures |r| == |neighbours|
    ensures forall i :: 0 <= i < |neighbours| ==> (r[i] <==> tileHeight <= neighbours[i])
  {
    if neighbours == [] then []
    else SolidSides(tileHeight, neighbours[..|neighbours| - 1]) + [tileHeight <= neighbours[|neighbours| - 1]]
  }

  /** The value of a bit array read least significant bit first. */
  function BitsValue(bits: seq<bool>): (r: nat)
    ensures r < Pow2(|bits|)
  {
    if bits == [] then 0 else (if bits[0] then 1 else 0) + 2 * BitsValue(bits[1..])
  }

  /** BitArray.CopyTo into a one-element int array: the bits fill a 32-bit two's-complement integer. */
  function BitArrayToInt(bits: seq<bool>): (r: int)
    requires |bits| <= 32
    ensures |bits| < 32 ==> r == BitsValue(bits)
    ensures -0x8000_0000 <= r < 0x8000_0000
  {
    Pow2Monotone(|bits|, 32);
    Pow2Of32();
    var u := BitsValue(bits);
    if u >= 0x8000_0000 then u - 0x1_0000_0000 else u
  }

  lemma {:induction false} Pow2Monotone(a: nat, b: nat)
    requires a <= b
    ensures Pow2(a) <= Pow2(b)
    ensures a < b ==> 2 * Pow2(a) <= Pow2(b)
  {
    if a < b {
      Pow2Monotone(a, b - 1);
    }
  }

  lemma {:induction false} Pow2Add(a: nat, b: nat)
    ensures Pow2(a + b) == Pow2(a) * Pow2(b)
  {
    if a > 0 {
      Pow2Add(a - 1, b);
    }
  }

  lemma Pow2Of32()
    ensures Pow2(4) == 16 && Pow2(32) == 0x1_0000_0000
  {
    assert Pow2(2) == 4;
    Pow2Add(2, 2);
    Pow2Add(4, 4);
    Pow2Add(8, 8);
    Pow2Add(16, 16);
  }

  /** The mask of a tile: an integer whose bit i records whether neighbour i is solid. It lies in [0, 15]
      and is the sum of 1, 2, 4 and 8 over the solid sides up, right, down, left. */
  function Mask(tileHeight: int, neighbours: seq<int>): (r: int)
    requires |neighbours| == 4
    ensures 0 <= r < 16
    ensures r ==
      (if tileHeight <= neighbours[0] then 1 else 0) + (if tileHeight <= neighbours[1] then 2 else 0) +
      (if tileHeight <= neighbours[2] then 4 else 0) + (if tileHeight <= neighbours[3] then 8 else 0)
  {
    SidesValue(tileHeight, neighbours);
    BitArrayToInt(SolidSides(tileHeight, neighbours))
  }

  /** Euclidean division is determined by any quotient with an in-range remainder. */
  lemma DivUnique(a: int, d: int, q: int, r: int)
    requires d >= 1 && 0 <= r < d && a == q * d + r
    ensures a / d == q
  {
    var q', r' := a / d, a % d;
    assert a == q' * d + r' && 0 <= r' < d;
    assert (q' - q) * d == r - r';
    if q' > q {
      MulAtLeast(q' - q, d);
    } else if q' < q {
      MulAtLeast(q - q', d);
    }
  }

  lemma MulAtLeast(k: int, d: int)
    requires k >= 1 && d >= 1
    ensures k * d >= d
  {
  }

  /** (b + 2r) / 2p == r / p: dropping the lowest bit and dividing by the rest of the power of two. */
  lemma DivideOutLowBit(b: int, rest: int, p: int)
    requires 0 <= b <= 1 && rest >= 0 && p >= 1
    ensures (b + 2 * rest) / (2 * p) == rest / p
  {
    var q, s := rest / p, rest % p;
    assert rest == q * p + s && 0 <= s < p;
    assert b + 2 * rest == q * (2 * p) + (2 * s + b);
    DivUnique(b + 2 * rest, 2 * p, q, 2 * s + b);
  }

  /** Reading bit i of the value gives back the i-th bit of the array. */
  lemma {:induction false} BitOf(bits: seq<bool>, i: nat)
    requires i < |bits|
    ensures (BitsValue(bits) / Pow2(i)) % 2 == if bits[i] then 1 else 0
  {
    var b := if bits[0] then 1 else 0;
    var rest := BitsValue(bits[1..]);
    assert BitsValue(bits) == b + 2 * rest;
    if i > 0 {
      BitOf(bits[1..], i - 1);
      DivideOutLowBit(b, rest, Pow2(i - 1));
    }
  }

  /** The four side bits, read as a number, weigh the up, right, down and left sides 1, 2, 4 and 8. */
  lemma SidesValue(tileHeight: int, neighbours: seq<int>)
    requires |neighbours| == 4
    ensures BitsValue(SolidSides(tileHeight, neighbours)) ==
      (if tileHeight <= neighbours[0] then 1 else 0) + (if tileHeight <= neighbours[1] then 2 else 0) +
      (if tileHeight <= neighbours[2] then 4 else 0) + (if tileHeight <= neighbours[3] then 8 else 0)
  {
    var bits := SolidSides(tileHeight, neighbours);
    var b1, b2, b3 := bits[1..], bits[1..][1..], bits[1..][1..][1..];
    assert BitsValue(b3[1..]) == 0;
    assert BitsValue(b3) == (if tileHeight <= neighbours[3] then 1 else 0);
    assert BitsValue(b2) == (if tileHeight <= neighbours[2] then 1 else 0) + 2 * BitsValue(b3);
    assert BitsValue(b1) == (if tileHeight <= neighbours[1] then 1 else 0) + 2 * BitsValue(b2);
    assert BitsValue(bits) == (if tileHeight <= neighbours[0] then 1 else 0) + 2 * BitsValue(b1);
  }

  /** Bit i of the mask is set exactly when neighbour i is at or above the tile. */
  lemma MaskBit(tileHeight: int, neighbours: seq<int>, i: nat)
    requires |neighbours| == 4 && i < 4
    ensures (Mask(tileHeight, neighbours) / Pow2(i)) % 2 == 1 <==> tileHeight <= neighbours[i]
  {
    BitOf(SolidSides(tileHeight, neighbours), i);
  }

  /** ---- The tile choice ---- */

  /** The ground tile a mask selects; any value outside the 16 cases keeps the default GROUND tile. The 16
      masks select 16 distinct non-wall tiles, each the one whose role MaskOf names that mask. */
  function GroundTile(mask: int): (t: RuleTile)
    ensures 0 <= mask < 16 ==> MaskOf(t) == Some(mask)
    ensures !IsWall(t)
    ensures !(0 <= mask < 16) ==> t == Ground
  {
    if mask == 0 then Block
    else if mask == 1 then NarrowS
    else if mask == 2 then NarrowW
    else if mask == 3 then EdgeSW
    else if mask == 4 then NarrowN
    else if mask == 5 then NarrowVertical
    else if mask == 6 then EdgeNW
    else if mask == 7 then EdgeW
    else if mask == 8 then NarrowE
    else if mask == 9 then EdgeSE
    else if mask == 10 then NarrowHorizontal
    else if mask == 11 then EdgeS
    else if mask == 12 then EdgeNE
    else if mask == 13 then EdgeE
    else if mask == 14 then EdgeN
    else Ground
  }

  /** The mask whose ground tile a rule tile is, read off the tile's role; None for the wall pieces. */
  function MaskOf(t: RuleTile): Option<int>
  {
    match t
    case Block => Some(0)             case NarrowS => Some(1)      case NarrowW => Some(2)
    case EdgeSW => Some(3)            case NarrowN => Some(4)      case NarrowVertical => Some(5)
    case EdgeNW => Some(6)            case EdgeW => Some(7)        case NarrowE => Some(8)
    case EdgeSE => Some(9)            case NarrowHorizontal => Some(10)
    case EdgeS => Some(11)            case EdgeNE => Some(12)      case EdgeE => Some(13)
    case EdgeN => Some(14)            case Ground => Some(15)
    case _ => None
  }

  predicate IsWall(t: RuleTile)
  {
    t in {WallW, WallS, WallE, WallSWBase, WallSW, WallSWTop, WallSEBase, WallSE, WallSETop}
  }

  lemma MaskOfRoundTrip(t: RuleTile)
    ensures MaskOf(t).Some? ==> GroundTile(MaskOf(t).value) == t
    ensures MaskOf(t).None? <==> IsWall(t)
  {
  }

  /** ---- Placements ---- */

  /** One emitted tile: a rule tile placed at world position (x, y, z), y being the height. */
  datatype Placement = Placement(x: int, y: int, z: int, tile: RuleTile)

  function Origin(p: Placement): Vector3
  {
    FromInts(p.x, p.y, p.z)
  }

  /** PlaceWallTiles: one `tile` per height from `baseHeight` up to, but not including, `topHeight`. */
  function WallColumn(x: int, z: int, baseHeight: int, topHeight: int, tile: RuleTile): (r: seq<Placement>)
    decreases topHeight - baseHeight
    ensures |r| == if baseHeight < topHeight then topHeight - baseHeight else 0
    ensures forall i :: 0 <= i < |r| ==> r[i] == Placement(x, baseHeight + i, z, tile)
  {
    if topHeight <= baseHeight then []
    else WallColumn(x, z, baseHeight, topHeight - 1, tile) + [Placement(x, topHeight - 1, z, tile)]
  }

  /** PlaceDiagWallTiles: the base piece at `baseHeight`, wall pieces strictly between, the top piece at `topHeight`. */
  function DiagonalWall(x: int, z: int, baseHeight: int, topHeight: int,
                        baseTile: RuleTile, wallTile: RuleTile, topTile: RuleTile): (r: seq<Placement>)
    ensures |r| == 2 + Max(0, topHeight - baseHeight - 1)
    ensures r[0] == Placement(x, baseHeight, z, baseTile)
    ensures r[|r| - 1] == Placement(x, topHeight, z, topTile)
    ensures forall i :: 0 < i < |r| - 1 ==> r[i] == Placement(x, baseHeight + i, z, wallTile)
  {
    [Placement(x, baseHeight, z, baseTile)] + WallColumn(x, z, baseHeight + 1, topHeight, wallTile)
      + [Placement(x, topHeight, z, topTile)]
  }

  predicate IsCornerMask(mask: int)
  {
    mask == 3 || mask == 6 || mask == 9 || mask == 12
  }

  /** The piece a south corner starts with, at the higher of two neighbour heights `a` and `b`: when `a` is
      higher, the edge `aEdge` on top of a column of `aWall` from `b` up to `a`; symmetrically when `b` is
      higher; a plain ground piece when they are level. */
  function CornerStep(x: int, z: int, a: int, b: int,
                      aEdge: RuleTile, aWall: RuleTile, bEdge: RuleTile, bWall: RuleTile): (r: seq<Placement>)
    ensures |r| == 1 + (if a > b then a - b else b - a)
    ensures r[0] == Placement(x, Max(a, b), z, if a > b then aEdge else if b > a then bEdge else Ground)
    ensures forall i :: 1 <= i < |r| ==> r[i] == Placement(x, Min(a, b) + i - 1, z, if a > b then aWall else bWall)
  {
    if a > b then [Placement(x, Max(a, b), z, aEdge)] + WallColumn(x, z, b, a, aWall)
    else if b > a then [Placement(x, Max(a, b), z, bEdge)] + WallColumn(x, z, a, b, bWall)
    else [Placement(x, Max(a, b), z, Ground)]
  }

  /** The piece a north corner starts with, at the up neighbour's height `up`: the edge `edge` on top of a
      column of `wall` from the side neighbour's height `side` up to `up` when the side neighbour is lower,
      a plain ground piece otherwise. */
  function NorthCornerStep(x: int, z: int, side: int, up: int, edge: RuleTile, wall: RuleTile): (r: seq<Placement>)
    ensures |r| == 1 + (if side < up then up - side else 0)
    ensures r[0] == Placement(x, up, z, if side < up then edge else Ground)
    ensures forall i :: 1 <= i < |r| ==> r[i] == Placement(x, side + i - 1, z, wall)
  {
    if side < up then [Placement(x, up, z, edge)] + WallColumn(x, z, side, up, wall)
    else [Placement(x, up, z, Ground)]
  }

  /** What the corner cases of the switch emit before the ground tile. Neighbours are up, right, down, left. */
  function CornerTiles(x: int, z: int, tileHeight: int, n: seq<int>, mask: int): (r: seq<Placement>)
    requires |n| == 4
    ensures r != [] <==> IsCornerMask(mask)
  {
    if mask == 3 then
      CornerStep(x, z, n[2], n[3], EdgeW, WallW, EdgeS, WallS)
      + DiagonalWall(x, z, Max(n[2], n[3]), tileHeight, WallSWBase, WallSW, WallSWTop)
    else if mask == 6 then NorthCornerStep(x, z, n[3], n[0], EdgeW, WallW)
    else if mask == 9 then
      CornerStep(x, z, n[1], n[2], EdgeS, WallS, EdgeE, WallE)
      + DiagonalWall(x, z, Max(n[1], n[2]), tileHeight, WallSEBase, WallSE, WallSETop)
    else if mask == 12 then NorthCornerStep(x, z, n[1], n[0], EdgeE, WallE)
    else []
  }

  /** The straight wall columns of the open east, south and west sides (never the north side). */
  function SideWalls(x: int, z: int, tileHeight: int, n: seq<int>): (r: seq<Placement>)
    requires |n| == 4
    ensures |r| == Max(0, tileHeight - n[1]) + Max(0, tileHeight - n[2]) + Max(0, tileHeight - n[3])
  {
    SideColumn(x, z, tileHeight, n[1], WallE) + SideColumn(x, z, tileHeight, n[2], WallS)
    + SideColumn(x, z, tileHeight, n[3], WallW)
  }

  /** The wall column of one side: nothing when the neighbour is at or above the tile, otherwise `tile`
      from the neighbour's height up to the tile's. */
  function SideColumn(x: int, z: int, tileHeight: int, neighbour: int, tile: RuleTile): (r: seq<Placement>)
    ensures |r| == Max(0, tileHeight - neighbour)
    ensures forall i :: 0 <= i < |r| ==> r[i] == Placement(x, neighbour + i, z, tile)
  {
    if tileHeight <= neighbour then [] else WallColumn(x, z, neighbour, tileHeight, tile)
  }

  /** PlaceAutoTiles: every tile the grid cell at (x, z) of height `tileHeight` emits, in emission order; all of
      them stand in the cell's own column. */
  function TilePlacements(x: int, z: int, tileHeight: int, n: seq<int>): (r: seq<Placement>)
    requires |n| == 4
    ensures InColumn(r, x, z)
  {
    var mask := Mask(tileHeight, n);
    var corner := CornerTiles(x, z, tileHeight, n, mask);
    var rest := if IsCornerMask(mask) then [] else SideWalls(x, z, tileHeight, n);
    CornerTilesInColumn(x, z, tileHeight, n, mask);
    SideWallsInColumn(x, z, tileHeight, n);
    InColumnConcat(corner, [Placement(x, tileHeight, z, GroundTile(mask))], x, z);
    InColumnConcat(corner + [Placement(x, tileHeight, z, GroundTile(mask))], rest, x, z);
    corner + [Placement(x, tileHeight, z, GroundTile(mask))] + rest
  }

  ghost predicate InColumn(ps: seq<Placement>, x: int, z: int)
  {
    forall i :: 0 <= i < |ps| ==> ps[i].x == x && ps[i].z == z
  }

  lemma InColumnConcat(a: seq<Placement>, b: seq<Placement>, x: int, z: int)
    requires InColumn(a, x, z) && InColumn(b, x, z)
    ensures InColumn(a + b, x, z)
  {
    forall i | 0 <= i < |a + b|
      ensures (a + b)[i].x == x && (a + b)[i].z == z
    {
      if i >= |a| {
        assert (a + b)[i] == b[i - |a|];
      }
    }
  }

  lemma CornerTilesInColumn(x: int, z: int, tileHeight: int, n: seq<int>, mask: int)
    requires |n| == 4
    ensures InColumn(CornerTiles(x, z, tileHeight, n, mask), x, z)
  {
    if mask == 3 || mask == 9 {
      var a, b := if mask == 3 then n[2] else n[1], if mask == 3 then n[3] else n[2];
      var ae, aw, be, bw := if mask == 3 then EdgeW else EdgeS, if mask == 3 then WallW else WallS,
                            if mask == 3 then EdgeS else EdgeE, if mask == 3 then WallS else WallE;
      CornerStepInColumn(x, z, a, b, ae, aw, be, bw);
      var diag := if mask == 3 then DiagonalWall(x, z, Max(a, b), tileHeight, WallSWBase, WallSW, WallSWTop)
                  else DiagonalWall(x, z, Max(a, b), tileHeight, WallSEBase, WallSE, WallSETop);
      InColumnConcat(CornerStep(x, z, a, b, ae, aw, be, bw), diag, x, z);
    } else if mask == 6 || mask == 12 {
      var side := if mask == 6 then n[3] else n[1];
      if side < n[0] {
        InColumnConcat([Placement(x, n[0], z, if mask == 6 then EdgeW else EdgeE)],
          WallColumn(x, z, side, n[0], if mask == 6 then WallW else WallE), x, z);
      }
    }
  }

  lemma CornerStepInColumn(x: int, z: int, a: int, b: int,
                           aEdge: RuleTile, aWall: RuleTile, bEdge: RuleTile, bWall: RuleTile)
    ensures InColumn(CornerStep(x, z, a, b, aEdge, aWall, bEdge, bWall), x, z)
  {
    if a > b {
      InColumnConcat([Placement(x, a, z, aEdge)], WallColumn(x, z, b, a, aWall), x, z);
    } else if b > a {
      InColumnConcat([Placement(x, b, z, bEdge)], WallColumn(x, z, a, b, bWall), x, z);
    }
  }

  lemma SideWallsInColumn(x: int, z: int, tileHeight: int, n: seq<int>)
    requires |n| == 4
    ensures InColumn(SideWalls(x, z, tileHeight, n), x, z)
  {
    var e := if tileHeight <= n[1] then [] else WallColumn(x, z, n[1], tileHeight, WallE);
    var s := if tileHeight <= n[2] then [] else WallColumn(x, z, n[2], tileHeight, WallS);
    var w := if tileHeight <= n[3] then [] else WallColumn(x, z, n[3], tileHeight, WallW);
    InColumnConcat(e, s, x, z);
    InColumnConcat(e + s, w, x, z);
  }

  /** The chosen ground tile is always emitted at the tile's own height, right after the corner pieces:
      for a corner mask it is the last tile emitted (corner masks emit no straight walls), for every other
      mask it is the first. */
  lemma GroundTileEmitted(x: int, z: int, tileHeight: int, n: seq<int>)
    requires |n| == 4
    ensures var r := TilePlacements(x, z, tileHeight, n);
      var ground := Placement(x, tileHeight, z, GroundTile(Mask(tileHeight, n)));
      var k := |CornerTiles(x, z, tileHeight, n, Mask(tileHeight, n))|;
      && k < |r| && r[k] == ground
      && (IsCornerMask(Mask(tileHeight, n)) ==> r[|r| - 1] == ground)
      && (!IsCornerMask(Mask(tileHeight, n)) ==> r[0] == ground)
  {
  }

  /** A wall column holds each height of its range exactly once, and nothing else. */
  lemma {:induction false} WallColumnCount(x: int, z: int, baseHeight: int, topHeight: int, tile: RuleTile, p: Placement)
    ensures multiset(WallColumn(x, z, baseHeight, topHeight, tile))[p] ==
      if p.x == x && p.z == z && p.tile == tile && baseHeight <= p.y < topHeight then 1 else 0
    decreases topHeight - baseHeight
  {
    if baseHeight < topHeight {
      WallColumnCount(x, z, baseHeight, topHeight - 1, tile, p);
    }
  }

  /** Outside the corner masks, the straight walls are exactly: an east column from the east neighbour's
      height up to the tile's height when the east side is open, and likewise south and west. */
  lemma StraightWalls(x: int, z: int, tileHeight: int, n: seq<int>, k: int)
    requires |n| == 4 && !IsCornerMask(Mask(tileHeight, n))
    ensures var r := multiset(TilePlacements(x, z, tileHeight, n));
      && r[Placement(x, k, z, WallE)] == (if n[1] <= k < tileHeight then 1 else 0)
      && r[Placement(x, k, z, WallS)] == (if n[2] <= k < tileHeight then 1 else 0)
      && r[Placement(x, k, z, WallW)] == (if n[3] <= k < tileHeight then 1 else 0)
  {
    StraightWallCount(x, z, tileHeight, n, Placement(x, k, z, WallE));
    SideWallsCount(x, z, tileHeight, n, Placement(x, k, z, WallE));
    StraightWallCount(x, z, tileHeight, n, Placement(x, k, z, WallS));
    SideWallsCount(x, z, tileHeight, n, Placement(x, k, z, WallS));
    StraightWallCount(x, z, tileHeight, n, Placement(x, k, z, WallW));
    SideWallsCount(x, z, tileHeight, n, Placement(x, k, z, WallW));
  }

  /** Outside the corner masks, a wall placement occurs in the cell's placements as often as in its side walls:
      the ground tile is never a wall piece. */
  lemma StraightWallCount(x: int, z: int, tileHeight: int, n: seq<int>, p: Placement)
    requires |n| == 4 && !IsCornerMask(Mask(tileHeight, n)) && IsWall(p.tile)
    ensures multiset(TilePlacements(x, z, tileHeight, n))[p] == multiset(SideWalls(x, z, tileHeight, n))[p]
  {
    var mask := Mask(tileHeight, n);
    var ground := Placement(x, tileHeight, z, GroundTile(mask));
    NonCornerLayout(x, z, tileHeight, n);
    assert multiset(TilePlacements(x, z, tileHeight, n)) == multiset{ground} + multiset(SideWalls(x, z, tileHeight, n));
  }

  lemma NonCornerLayout(x: int, z: int, tileHeight: int, n: seq<int>)
    requires |n| == 4 && !IsCornerMask(Mask(tileHeight, n))
    ensures TilePlacements(x, z, tileHeight, n) ==
      [Placement(x, tileHeight, z, GroundTile(Mask(tileHeight, n)))] + SideWalls(x, z, tileHeight, n)
  {
    var mask := Mask(tileHeight, n);
    assert CornerTiles(x, z, tileHeight, n, mask) == [];
  }

  lemma CornerLayout(x: int, z: int, tileHeight: int, n: seq<int>)
    requires |n| == 4 && IsCornerMask(Mask(tileHeight, n))
    ensures TilePlacements(x, z, tileHeight, n) ==
      CornerTiles(x, z, tileHeight, n, Mask(tileHeight, n)) + [Placement(x, tileHeight, z, GroundTile(Mask(tileHeight, n)))]
  {
  }

  lemma SideWallsCount(x: int, z: int, tileHeight: int, n: seq<int>, p: Placement)
    requires |n| == 4
    ensures multiset(SideWalls(x, z, tileHeight, n))[p] ==
      (if p.x == x && p.z == z && p.tile == WallE && n[1] <= p.y < tileHeight then 1 else 0) +
      (if p.x == x && p.z == z && p.tile == WallS && n[2] <= p.y < tileHeight then 1 else 0) +
      (if p.x == x && p.z == z && p.tile == WallW && n[3] <= p.y < tileHeight then 1 else 0)
  {
    var e := if tileHeight <= n[1] then [] else WallColumn(x, z, n[1], tileHeight, WallE);
    var s := if tileHeight <= n[2] then [] else WallColumn(x, z, n[2], tileHeight, WallS);
    var w := if tileHeight <= n[3] then [] else WallColumn(x, z, n[3], tileHeight, WallW);
    assert multiset(SideWalls(x, z, tileHeight, n)) == multiset(e) + multiset(s) + multiset(w);
    WallColumnCount(x, z, n[1], tileHeight, WallE, p);
    WallColumnCount(x, z, n[2], tileHeight, WallS, p);
    WallColumnCount(x, z, n[3], tileHeight, WallW, p);
  }

  /** Mask 3 (up and right solid): an edge piece at the higher of the south and west neighbours, a wall
      column between the two, then the south-west diagonal up to the tile and the EDGE_SW ground tile. */
  lemma SouthWestCorner(x: int, z: int, tileHeight: int, n: seq<int>)
    requires |n| == 4 && Mask(tileHeight, n) == 3
    ensures var r := TilePlacements(x, z, tileHeight, n);
      var m, d := Max(n[2], n[3]), if n[2] > n[3] then n[2] - n[3] else n[3] - n[2];
      && |r| == d + (tileHeight - m) + 3
      && r[0] == Placement(x, m, z, if n[2] > n[3] then EdgeW else if n[3] > n[2] then EdgeS else Ground)
      && (forall i :: 1 <= i <= d ==> r[i] == Placement(x, Min(n[2], n[3]) + i - 1, z, if n[2] > n[3] then WallW else WallS))
      && r[d + 1] == Placement(x, m, z, WallSWBase)
      && (forall i :: d + 1 < i < |r| - 2 ==> r[i] == Placement(x, m + i - d - 1, z, WallSW))
      && r[|r| - 2] == Placement(x, tileHeight, z, WallSWTop)
      && r[|r| - 1] == Placement(x, tileHeight, z, EdgeSW)
  {
    SouthWestLayout(x, z, tileHeight, n);
  }

  /** Mask 9 (up and left solid) mirrors mask 3 with the east and south neighbours. */
  lemma SouthEastCorner(x: int, z: int, tileHeight: int, n: seq<int>)
    requires |n| == 4 && Mask(tileHeight, n) == 9
    ensures var r := TilePlacements(x, z, tileHeight, n);
      var m, d := Max(n[1], n[2]), if n[1] > n[2] then n[1] - n[2] else n[2] - n[1];
      && |r| == d + (tileHeight - m) + 3
      && r[0] == Placement(x, m, z, if n[1] > n[2] then EdgeS else if n[2] > n[1] then EdgeE else Ground)
      && (forall i :: 1 <= i <= d ==> r[i] == Placement(x, Min(n[1], n[2]) + i - 1, z, if n[1] > n[2] then WallS else WallE))
      && r[d + 1] == Placement(x, m, z, WallSEBase)
      && (forall i :: d + 1 < i < |r| - 2 ==> r[i] == Placement(x, m + i - d - 1, z, WallSE))
      && r[|r| - 2] == Placement(x, tileHeight, z, WallSETop)
      && r[|r| - 1] == Placement(x, tileHeight, z, EdgeSE)
  {
    SouthEastLayout(x, z, tileHeight, n);
  }

  /** Masks 6 and 12 (the two northern corners) place one flat piece at the north neighbour's height,
      with a wall column below it only when the west (mask 6) or east (mask 12) neighbour is lower;
      no diagonal wall is stitched. */
  lemma NorthCorners(x: int, z: int, tileHeight: int, n: seq<int>)
    requires |n| == 4 && (Mask(tileHeight, n) == 6 || Mask(tileHeight, n) == 12)
    ensures var r := TilePlacements(x, z, tileHeight, n);
      var side := if Mask(tileHeight, n) == 6 then n[3] else n[1];
      && |r| == 2 + (if side < n[0] then n[0] - side else 0)
      && r[0] == Placement(x, n[0], z,
           if side >= n[0] then Ground else if Mask(tileHeight, n) == 6 then EdgeW else EdgeE)
      && (forall i :: 1 <= i < |r| - 1 ==> r[i] == Placement(x, side + i - 1, z, if Mask(tileHeight, n) == 6 then WallW else WallE))
      && r[|r| - 1] == Placement(x, tileHeight, z, if Mask(tileHeight, n) == 6 then EdgeNW else EdgeNE)
      && forall i :: 0 <= i < |r| ==> !IsDiagonalPiece(r[i].tile)
  {
    CornerLayout(x, z, tileHeight, n);
  }

  /** The pieces of the two diagonal walls. */
  predicate IsDiagonalPiece(t: RuleTile)
  {
    t in {WallSWBase, WallSW, WallSWTop, WallSEBase, WallSE, WallSETop}
  }

  /** Replaces every placement's rule tile by its image under `f`. */
  function Retiled(ps: seq<Placement>, f: RuleTile -> RuleTile): (r: seq<Placement>)
    ensures |r| == |ps|
  {
    seq(|ps|, i requires 0 <= i < |ps| => ps[i].(tile := f(ps[i].tile)))
  }

  lemma RetiledConcat(a: seq<Placement>, b: seq<Placement>, f: RuleTile -> RuleTile)
    ensures Retiled(a + b, f) == Retiled(a, f) + Retiled(b, f)
  {
  }

  lemma RetiledFixed(ps: seq<Placement>, f: RuleTile -> RuleTile)
    requires forall i :: 0 <= i < |ps| ==> f(ps[i].tile) == ps[i].tile
    ensures Retiled(ps, f) == ps
  {
  }

  lemma RetiledWallColumn(x: int, z: int, baseHeight: int, topHeight: int, tile: RuleTile, f: RuleTile -> RuleTile)
    ensures Retiled(WallColumn(x, z, baseHeight, topHeight, tile), f) == WallColumn(x, z, baseHeight, topHeight, f(tile))
  {
  }

  function SwapSouthWest(t: RuleTile): RuleTile
  {
    match t
    case EdgeW => EdgeS   case EdgeS => EdgeW
    case WallW => WallS   case WallS => WallW
    case _ => t
  }

  function SwapSouthEast(t: RuleTile): RuleTile
  {
    match t
    case EdgeS => EdgeE   case EdgeE => EdgeS
    case WallS => WallE   case WallE => WallS
    case _ => t
  }

  /** Exchanging the two neighbour heights of a corner step exchanges its edge and wall pieces. */
  lemma CornerStepSymmetry(x: int, z: int, a: int, b: int,
                           aEdge: RuleTile, aWall: RuleTile, bEdge: RuleTile, bWall: RuleTile,
                           f: RuleTile -> RuleTile)
    requires f(aEdge) == bEdge && f(bEdge) == aEdge && f(aWall) == bWall && f(bWall) == aWall && f(Ground) == Ground
    ensures CornerStep(x, z, b, a, aEdge, aWall, bEdge, bWall) == Retiled(CornerStep(x, z, a, b, aEdge, aWall, bEdge, bWall), f)
  {
    if a > b {
      var col := WallColumn(x, z, b, a, aWall);
      assert CornerStep(x, z, a, b, aEdge, aWall, bEdge, bWall) == [Placement(x, a, z, aEdge)] + col;
      assert CornerStep(x, z, b, a, aEdge, aWall, bEdge, bWall) == [Placement(x, a, z, bEdge)] + WallColumn(x, z, b, a, bWall);
      RetiledConcat([Placement(x, a, z, aEdge)], col, f);
      RetiledWallColumn(x, z, b, a, aWall, f);
      assert Retiled([Placement(x, a, z, aEdge)], f) == [Placement(x, a, z, bEdge)];
    } else if b > a {
      var col := WallColumn(x, z, a, b, bWall);
      assert CornerStep(x, z, a, b, aEdge, aWall, bEdge, bWall) == [Placement(x, b, z, bEdge)] + col;
      assert CornerStep(x, z, b, a, aEdge, aWall, bEdge, bWall) == [Placement(x, b, z, aEdge)] + WallColumn(x, z, a, b, aWall);
      RetiledConcat([Placement(x, b, z, bEdge)], col, f);
      RetiledWallColumn(x, z, a, b, bWall, f);
      assert Retiled([Placement(x, b, z, bEdge)], f) == [Placement(x, b, z, aEdge)];
    } else {
      assert Retiled([Placement(x, a, z, Ground)], f) == [Placement(x, a, z, Ground)];
    }
  }

  /** A diagonal wall is left alone by any retiling that fixes its three pieces. */
  lemma DiagonalWallFixed(x: int, z: int, baseHeight: int, topHeight: int,
                          baseTile: RuleTile, wallTile: RuleTile, topTile: RuleTile, f: RuleTile -> RuleTile)
    requires f(baseTile) == baseTile && f(wallTile) == wallTile && f(topTile) == topTile
    ensures Retiled(DiagonalWall(x, z, baseHeight, topHeight, baseTile, wallTile, topTile), f) ==
            DiagonalWall(x, z, baseHeight, topHeight, baseTile, wallTile, topTile)
  {
    var diag := DiagonalWall(x, z, baseHeight, topHeight, baseTile, wallTile, topTile);
    forall i | 0 <= i < |diag|
      ensures f(diag[i].tile) == diag[i].tile
    {
      if 0 < i < |diag| - 1 {
        assert diag[i].tile == wallTile;
      }
    }
    RetiledFixed(diag, f);
  }

  /** Exchanging two neighbours of equal solidity keeps the mask. */
  lemma SouthWestMaskSwap(tileHeight: int, n: seq<int>)
    requires |n| == 4 && Mask(tileHeight, n) == 3
    ensures Mask(tileHeight, [n[0], n[1], n[3], n[2]]) == 3
  {
  }

  lemma SouthWestLayout(x: int, z: int, tileHeight: int, n: seq<int>)
    requires |n| == 4 && Mask(tileHeight, n) == 3
    ensures TilePlacements(x, z, tileHeight, n) ==
      CornerStep(x, z, n[2], n[3], EdgeW, WallW, EdgeS, WallS)
      + DiagonalWall(x, z, Max(n[2], n[3]), tileHeight, WallSWBase, WallSW, WallSWTop) + [Placement(x, tileHeight, z, EdgeSW)]
  {
    CornerLayout(x, z, tileHeight, n);
  }

  lemma SouthWestRetiled(x: int, z: int, tileHeight: int, a: int, b: int)
    ensures Retiled(CornerStep(x, z, a, b, EdgeW, WallW, EdgeS, WallS)
                    + DiagonalWall(x, z, Max(a, b), tileHeight, WallSWBase, WallSW, WallSWTop) + [Placement(x, tileHeight, z, EdgeSW)], SwapSouthWest)
         == CornerStep(x, z, b, a, EdgeW, WallW, EdgeS, WallS)
            + DiagonalWall(x, z, Max(a, b), tileHeight, WallSWBase, WallSW, WallSWTop) + [Placement(x, tileHeight, z, EdgeSW)]
  {
    var lead := CornerStep(x, z, a, b, EdgeW, WallW, EdgeS, WallS);
    var diag := DiagonalWall(x, z, Max(a, b), tileHeight, WallSWBase, WallSW, WallSWTop);
    var ground := [Placement(x, tileHeight, z, EdgeSW)];
    RetiledConcat(lead + diag, ground, SwapSouthWest);
    RetiledConcat(lead, diag, SwapSouthWest);
    CornerStepSymmetry(x, z, a, b, EdgeW, WallW, EdgeS, WallS, SwapSouthWest);
    DiagonalWallFixed(x, z, Max(a, b), tileHeight, WallSWBase, WallSW, WallSWTop, SwapSouthWest);
    RetiledFixed(ground, SwapSouthWest);
  }

  /** At mask 3, exchanging the south and west neighbour heights exchanges the west and south edge
      and wall pieces and changes nothing else. */
  lemma SouthWestSymmetry(x: int, z: int, tileHeight: int, n: seq<int>)
    requires |n| == 4 && Mask(tileHeight, n) == 3
    ensures Mask(tileHeight, [n[0], n[1], n[3], n[2]]) == 3
    ensures TilePlacements(x, z, tileHeight, [n[0], n[1], n[3], n[2]]) ==
            Retiled(TilePlacements(x, z, tileHeight, n), SwapSouthWest)
  {
    var n' := [n[0], n[1], n[3], n[2]];
    SouthWestMaskSwap(tileHeight, n);
    SouthWestLayout(x, z, tileHeight, n);
    SouthWestLayout(x, z, tileHeight, n');
    assert n'[2] == n[3] && n'[3] == n[2] && Max(n[3], n[2]) == Max(n[2], n[3]);
    SouthWestRetiled(x, z, tileHeight, n[2], n[3]);
  }

  /** Exchanging two neighbours of equal solidity keeps the mask. */
  lemma SouthEastMaskSwap(tileHeight: int, n: seq<int>)
    requires |n| == 4 && Mask(tileHeight, n) == 9
    ensures Mask(tileHeight, [n[0], n[2], n[1], n[3]]) == 9
  {
  }

  lemma SouthEastLayout(x: int, z: int, tileHeight: int, n: seq<int>)
    requires |n| == 4 && Mask(tileHeight, n) == 9
    ensures TilePlacements(x, z, tileHeight, n) ==
      CornerStep(x, z, n[1], n[2], EdgeS, WallS, EdgeE, WallE)
      + DiagonalWall(x, z, Max(n[1], n[2]), tileHeight, WallSEBase, WallSE, WallSETop) + [Placement(x, tileHeight, z, EdgeSE)]
  {
    CornerLayout(x, z, tileHeight, n);
  }

  lemma SouthEastRetiled(x: int, z: int, tileHeight: int, a: int, b: int)
    ensures Retiled(CornerStep(x, z, a, b, EdgeS, WallS, EdgeE, WallE)
                    + DiagonalWall(x, z, Max(a, b), tileHeight, WallSEBase, WallSE, WallSETop) + [Placement(x, tileHeight, z, EdgeSE)], SwapSouthEast)
         == CornerStep(x, z, b, a, EdgeS, WallS, EdgeE, WallE)
            + DiagonalWall(x, z, Max(a, b), tileHeight, WallSEBase, WallSE, WallSETop) + [Placement(x, tileHeight, z, EdgeSE)]
  {
    var lead := CornerStep(x, z, a, b, EdgeS, WallS, EdgeE, WallE);
    var diag := DiagonalWall(x, z, Max(a, b), tileHeight, WallSEBase, WallSE, WallSETop);
    var ground := [Placement(x, tileHeight, z, EdgeSE)];
    RetiledConcat(lead + diag, ground, SwapSouthEast);
    RetiledConcat(lead, diag, SwapSouthEast);
    CornerStepSymmetry(x, z, a, b, EdgeS, WallS, EdgeE, WallE, SwapSouthEast);
    DiagonalWallFixed(x, z, Max(a, b), tileHeight, WallSEBase, WallSE, WallSETop, SwapSouthEast);
    RetiledFixed(ground, SwapSouthEast);
  }

  /** At mask 9, exchanging the east and south neighbour heights exchanges the south and east edge
      and wall pieces and changes nothing else. */
  lemma SouthEastSymmetry(x: int, z: int, tileHeight: int, n: seq<int>)
    requires |n| == 4 && Mask(tileHeight, n) == 9
    ensures Mask(tileHeight, [n[0], n[2], n[1], n[3]]) == 9
    ensures TilePlacements(x, z, tileHeight, [n[0], n[2], n[1], n[3]]) ==
            Retiled(TilePlacements(x, z, tileHeight, n), SwapSouthEast)
  {
    var n' := [n[0], n[2], n[1], n[3]];
    SouthEastMaskSwap(tileHeight, n);
    SouthEastLayout(x, z, tileHeight, n);
    SouthEastLayout(x, z, tileHeight, n');
    assert n'[1] == n[2] && n'[2] == n[1] && Max(n[2], n[1]) == Max(n[1], n[2]);
    SouthEastRetiled(x, z, tileHeight, n[1], n[2]);
  }

  /** ---- Folding placements into a mesh buffer ---- */

  /** The buffer contents after appending every placement, in order, each with its tileset tile. */
  function EmitAll(m: MeshState, tileset: seq<Tile>, ps: seq<Placement>): MeshState
    requires |tileset| >= RuleTileCount
  {
    if ps == [] then m
    else Append(EmitAll(m, tileset, ps[..|ps| - 1]), Origin(ps[|ps| - 1]), GetTile(tileset, ps[|ps| - 1].tile))
  }

  /** Emitting one more placement appends its tile at its position. */
  lemma EmitAllSnoc(m: MeshState, tileset: seq<Tile>, ps: seq<Placement>, p: Placement)
    requires |tileset| >= RuleTileCount
    ensures EmitAll(m, tileset, ps + [p]) == Append(EmitAll(m, tileset, ps), Origin(p), GetTile(tileset, p.tile))
  {
    assert (ps + [p])[..|ps + [p]| - 1] == ps;
  }

  /** One step of a wall column: emitting the column up to `height + 1` is emitting it up to `height`
      and then appending the tile at `height`. */
  lemma WallColumnStep(m: MeshState, tileset: seq<Tile>, x: int, z: int, baseHeight: int, height: int, tile: RuleTile,
                       before: MeshState, after: MeshState)
    requires |tileset| >= RuleTileCount && baseHeight <= height
    requires before == EmitAll(m, tileset, WallColumn(x, z, baseHeight, height, tile))
    requires after == Append(before, FromInts(x, height, z), GetTile(tileset, tile))
    ensures after == EmitAll(m, tileset, WallColumn(x, z, baseHeight, height + 1, tile))
  {
    var column := WallColumn(x, z, baseHeight, height, tile);
    assert WallColumn(x, z, baseHeight, height + 1, tile) == column + [Placement(x, height, z, tile)];
    EmitAllSnoc(m, tileset, column, Placement(x, height, z, tile));
  }

  /** Emitting a diagonal wall is appending its base piece, emitting the wall column above it, and
      appending its top piece. */
  lemma DiagonalWallSteps(m: MeshState, tileset: seq<Tile>, x: int, z: int, baseHeight: int, topHeight: int,
                          baseTile: RuleTile, wallTile: RuleTile, topTile: RuleTile,
                          afterBase: MeshState, afterWalls: MeshState, after: MeshState)
    requires |tileset| >= RuleTileCount
    requires afterBase == Append(m, FromInts(x, baseHeight, z), GetTile(tileset, baseTile))
    requires afterWalls == EmitAll(afterBase, tileset, WallColumn(x, z, baseHeight + 1, topHeight, wallTile))
    requires after == Append(afterWalls, FromInts(x, topHeight, z), GetTile(tileset, topTile))
    ensures after == EmitAll(m, tileset, DiagonalWall(x, z, baseHeight, topHeight, baseTile, wallTile, topTile))
  {
    var base, top := Placement(x, baseHeight, z, baseTile), Placement(x, topHeight, z, topTile);
    var walls := WallColumn(x, z, baseHeight + 1, topHeight, wallTile);
    EmitAllSnoc(m, tileset, [], base);
    EmitAllConcat(m, tileset, [base], walls);
    EmitAllSnoc(m, tileset, [base] + walls, top);
  }

  /** Emitting two runs of placements one after the other is emitting their concatenation. */
  lemma {:induction false} EmitAllConcat(m: MeshState, tileset: seq<Tile>, a: seq<Placement>, b: seq<Placement>)
    requires |tileset| >= RuleTileCount
    ensures EmitAll(EmitAll(m, tileset, a), tileset, b) == EmitAll(m, tileset, a + b)
    decreases |b|
  {
    if b != [] {
      EmitAllConcat(m, tileset, a, b[..|b| - 1]);
      assert (a + b)[..|a + b| - 1] == a + b[..|b| - 1];
    } else {
      assert a + b == a;
    }
  }

  /** Emitting `more` on top of the emission of `done` continues that emission. */
  lemma EmitAllExtend(m: MeshState, tileset: seq<Tile>, done: seq<Placement>, more: seq<Placement>,
                      before: MeshState, after: MeshState)
    requires |tileset| >= RuleTileCount
    requires before == EmitAll(m, tileset, done) && after == EmitAll(before, tileset, more)
    ensures after == EmitAll(m, tileset, done + more)
  {
    EmitAllConcat(m, tileset, done, more);
  }

  /** PlaceAutoTiles on a corner mask: the corner pieces, then the ground tile, is the cell's whole emission. */
  lemma CornerEmission(m: MeshState, tileset: seq<Tile>, x: int, z: int, tileHeight: int, n: seq<int>,
                       afterCorner: MeshState, after: MeshState)
    requires |tileset| >= RuleTileCount && |n| == 4 && IsCornerMask(Mask(tileHeight, n))
    requires afterCorner == EmitAll(m, tileset, CornerTiles(x, z, tileHeight, n, Mask(tileHeight, n)))
    requires after == EmitAll(afterCorner, tileset, [Placement(x, tileHeight, z, GroundTile(Mask(tileHeight, n)))])
    ensures after == EmitAll(m, tileset, TilePlacements(x, z, tileHeight, n))
  {
    var mask := Mask(tileHeight, n);
    EmitAllConcat(m, tileset, CornerTiles(x, z, tileHeight, n, mask), [Placement(x, tileHeight, z, GroundTile(mask))]);
    CornerLayout(x, z, tileHeight, n);
  }

  /** PlaceAutoTiles outside the corner masks: the ground tile, then the east, south and west side columns,
      is the cell's whole emission. */
  lemma NonCornerEmission(m: MeshState, tileset: seq<Tile>, x: int, z: int, tileHeight: int, n: seq<int>,
                          afterCorner: MeshState, afterGround: MeshState,
                          afterEast: MeshState, afterSouth: MeshState, after: MeshState)
    requires |tileset| >= RuleTileCount && |n| == 4 && !IsCornerMask(Mask(tileHeight, n))
    requires afterCorner == EmitAll(m, tileset, CornerTiles(x, z, tileHeight, n, Mask(tileHeight, n)))
    requires afterGround == EmitAll(afterCorner, tileset, [Placement(x, tileHeight, z, GroundTile(Mask(tileHeight, n)))])
    requires afterEast == EmitAll(afterGround, tileset, SideColumn(x, z, tileHeight, n[1], WallE))
    requires afterSouth == EmitAll(afterEast, tileset, SideColumn(x, z, tileHeight, n[2], WallS))
    requires after == EmitAll(afterSouth, tileset, SideColumn(x, z, tileHeight, n[3], WallW))
    ensures after == EmitAll(m, tileset, TilePlacements(x, z, tileHeight, n))
  {
    var mask := Mask(tileHeight, n);
    var ground := [Placement(x, tileHeight, z, GroundTile(mask))];
    assert afterGround == EmitAll(m, tileset, ground) by {
      assert CornerTiles(x, z, tileHeight, n, mask) == [];
    }
    var e, s, w := SideColumn(x, z, tileHeight, n[1], WallE), SideColumn(x, z, tileHeight, n[2], WallS),
                   SideColumn(x, z, tileHeight, n[3], WallW);
    EmitAllChain(m, tileset, ground, e, s, w, afterGround, afterEast, afterSouth, after);
    NonCornerLayout(x, z, tileHeight, n);
    assert SideWalls(x, z, tileHeight, n) == e + s + w;
    ConcatAssociates(ground, e, s, w);
  }

  lemma ConcatAssociates(a: seq<Placement>, b: seq<Placement>, c: seq<Placement>, d: seq<Placement>)
    ensures a + b + c + d == a + (b + c + d)
  {
  }

  /** Four emissions one after the other are the emission of the four runs joined. */
  lemma EmitAllChain(m: MeshState, tileset: seq<Tile>, a: seq<Placement>, b: seq<Placement>, c: seq<Placement>,
                     d: seq<Placement>, s0: MeshState, s1: MeshState, s2: MeshState, s3: MeshState)
    requires |tileset| >= RuleTileCount
    requires s0 == EmitAll(m, tileset, a) && s1 == EmitAll(s0, tileset, b)
    requires s2 == EmitAll(s1, tileset, c) && s3 == EmitAll(s2, tileset, d)
    ensures s3 == EmitAll(m, tileset, a + b + c + d)
  {
    EmitAllExtend(m, tileset, a, b, s0, s1);
    EmitAllExtend(m, tileset, a + b, c, s1, s2);
    EmitAllExtend(m, tileset, a + b + c, d, s2, s3);
  }

  ghost predicate WellFormedTileset(tileset: seq<Tile>)
  {
    |tileset| >= RuleTileCount && forall i :: 0 <= i < |tileset| ==> WellFormedTile(tileset[i])
  }

  /** Emitting placements from a well-formed tileset keeps the counter invariant and keeps every
      triangle index below the vertex count. */
  lemma {:induction false} EmitAllKeepsInvariants(m: MeshState, tileset: seq<Tile>, ps: seq<Placement>)
    requires WellFormedTileset(tileset)
    requires CounterInvariant(m) && IndicesInRange(m)
    ensures CounterInvariant(EmitAll(m, tileset, ps)) && IndicesInRange(EmitAll(m, tileset, ps))
  {
    if ps != [] {
      var last := ps[|ps| - 1];
      EmitAllKeepsInvariants(m, tileset, ps[..|ps| - 1]);
      AppendKeepsCounter(EmitAll(m, tileset, ps[..|ps| - 1]), Origin(last), GetTile(tileset, last.tile));
      AppendKeepsIndicesInRange(EmitAll(m, tileset, ps[..|ps| - 1]), Origin(last), GetTile(tileset, last.tile));
    }
  }

  /** A buffer filled from a cleared one keeps the counter invariant and, when the tileset is well formed,
      keeps every triangle index below the vertex count. */
  lemma EmitAllFromCleared(tileset: seq<Tile>, ps: seq<Placement>)
    requires |tileset| >= RuleTileCount
    ensures CounterInvariant(EmitAll(Cleared, tileset, ps))
    ensures WellFormedTileset(tileset) ==> IndicesInRange(EmitAll(Cleared, tileset, ps))
  {
    EmitAllVertexIndex(Cleared, tileset, ps);
    if WellFormedTileset(tileset) {
      EmitAllKeepsInvariants(Cleared, tileset, ps);
    }
  }

  /** The number of vertices emitted is the sum of the emitted tiles' vertex counts. */
  function VertexCount(tileset: seq<Tile>, ps: seq<Placement>): nat
    requires |tileset| >= RuleTileCount
  {
    if ps == [] then 0 else VertexCount(tileset, ps[..|ps| - 1]) + |GetTile(tileset, ps[|ps| - 1].tile).positions|
  }

  lemma {:induction false} EmitAllVertexIndex(m: MeshState, tileset: seq<Tile>, ps: seq<Placement>)
    requires |tileset| >= RuleTileCount
    ensures EmitAll(m, tileset, ps).vertexIndex == m.vertexIndex + VertexCount(tileset, ps)
    ensures |EmitAll(m, tileset, ps).vertices| == |m.vertices| + VertexCount(tileset, ps)
  {
    if ps != [] {
      EmitAllVertexIndex(m, tileset, ps[..|ps| - 1]);
    }
  }
}
