/**
 * Raster planning of `getMapRaster` (main/java/MapServer.java:204-290) without
 * the image work: choosing the tile depth, counting rows and columns of the
 * sorted tiles, placing each tile on the image, the raster bounding box and
 * the pixel coordinates of the route overlay.
 */
module Raster {
  import opened QuadTree
  import Graph

  const TILE_SIZE: int := 256
  /** ROOT_LRLON - ROOT_ULLON, exactly 45/512 degrees. */
  const ROOT_WIDTH: real := ROOT_LRLON - ROOT_ULLON
  const MAX_DEPTH: nat := 7
  /** The depth at which `2^depth * 256` no longer fits in a Java `int`. */
  const OVERFLOW_DEPTH: nat := 23

  /**
   * The query's degrees per pixel `|(ullon - lrlon) / w|`. A width of zero
   * gives an infinity or NaN in Java; neither compares smaller than a tile's
   * degrees per pixel, so both are one case here.
   */
  datatype Dpp = Finite(value: NonNegReal) | NonFinite

  type NonNegReal = r: real | r >= 0.0

  function Abs(x: real): NonNegReal {
    if x < 0.0 then -x else x
  }

  function QueryDpp(ullon: real, lrlon: real, w: real): (d: Dpp)
    ensures d.Finite? <==> w != 0.0
    ensures d.Finite? ==> d.value >= 0.0
  {
    if w == 0.0 then NonFinite else Finite(Abs((ullon - lrlon) / w))
  }

  function Pow2(d: nat): (p: nat)
    ensures p >= 1
  {
    if d == 0 then 1 else 2 * Pow2(d - 1)
  }

  lemma {:induction false} Pow2Sum(a: nat, b: nat)
    ensures Pow2(a + b) == Pow2(a) * Pow2(b)
    decreases a
  {
    if a > 0 {
      Pow2Sum(a - 1, b);
    }
  }

  lemma {:induction false} Pow2Monotone(a: nat, b: nat)
    requires a <= b
    ensures Pow2(a) <= Pow2(b)
    decreases b
  {
    if a < b {
      Pow2Monotone(a, b - 1);
    }
  }

  lemma Pow2Values()
    ensures Pow2(22) == 0x40_0000 && Pow2(23) == 0x80_0000
  {
    assert Pow2(1) == 2 && Pow2(2) == 4 && Pow2(3) == 8 && Pow2(4) == 16;
    Pow2Sum(4, 4);
    Pow2Sum(8, 8);
    Pow2Sum(16, 4);
    Pow2Sum(20, 2);
    Pow2Sum(22, 1);
  }

  /**
   * `(int) Math.pow(2, depth) * TILE_SIZE` in Java `int` arithmetic: the cast
   * saturates at the largest `int` and the product wraps around.
   */
  function LoopDivisor(d: nat): (r: int)
    ensures Graph.IsInt32(r)
  {
    Graph.Wrap32((if Pow2(d) < 0x7FFF_FFFF then Pow2(d) else 0x7FFF_FFFF) * TILE_SIZE)
  }

  /** `tDPP` after `d` iterations of the depth loop. */
  function LoopDpp(d: nat): real
    requires LoopDivisor(d) != 0
  {
    ROOT_WIDTH / LoopDivisor(d) as real
  }

  /** The intended degrees per pixel of a tile at depth `d`: ROOT_WIDTH / (2^d * 256). */
  function TileDpp(d: nat): (r: real)
    ensures r > 0.0
  {
    ROOT_WIDTH / (Pow2(d) * TILE_SIZE) as real
  }

  /** Up to depth 22 the Java expression is exact; at depth 23 it wraps to -2^31. */
  lemma {:induction false} LoopDppAgrees(d: nat)
    requires d <= OVERFLOW_DEPTH
    ensures LoopDivisor(d) != 0
    ensures d < OVERFLOW_DEPTH ==> LoopDpp(d) == TileDpp(d)
    ensures d == OVERFLOW_DEPTH ==> LoopDivisor(d) == INT_MIN_VALUE && LoopDpp(d) < 0.0
  {
    Pow2Values();
    if d < OVERFLOW_DEPTH {
      Pow2Monotone(d, 22);
      assert Pow2(d) * TILE_SIZE <= 0x4000_0000;
    }
  }

  const INT_MIN_VALUE: int := -0x8000_0000

  /** Tile degrees per pixel strictly shrink with depth. */
  lemma TileDppDecreasing(a: nat, b: nat)
    requires a < b
    ensures TileDpp(b) < TileDpp(a)
  {
    Pow2Monotone(a + 1, b);
    assert Pow2(a + 1) == 2 * Pow2(a);
    assert (Pow2(a) * TILE_SIZE) as real < (Pow2(b) * TILE_SIZE) as real;
    DivideByLarger(ROOT_WIDTH, (Pow2(a) * TILE_SIZE) as real, (Pow2(b) * TILE_SIZE) as real);
  }

  lemma DivideByLarger(x: real, p: real, q: real)
    requires x > 0.0 && 0.0 < p < q
    ensures x / q < x / p
  {
    assert x / q * q == x == x / p * p;
  }

  /**
   * The depth the loop stops at, starting from depth `d`: the loop keeps
   * deepening while the current `tDPP` is strictly greater than the query's.
   */
  function LoopDepth(dpp: real, d: nat): (r: nat)
    requires dpp >= 0.0 && d <= OVERFLOW_DEPTH
    ensures d <= r <= OVERFLOW_DEPTH
    decreases OVERFLOW_DEPTH - d
  {
    LoopDppAgrees(d);
    if LoopDpp(d) > dpp then LoopDepth(dpp, d + 1) else d
  }

  /** The selected depth before clamping. */
  function RawDepth(dpp: Dpp): (d: nat)
    ensures d <= OVERFLOW_DEPTH
  {
    match dpp
    case NonFinite => 0
    case Finite(v) => LoopDepth(v, 0)
  }

  /** The selected depth: the loop's result clamped to 7. */
  function DepthFor(dpp: Dpp): (d: nat)
    ensures d <= MAX_DEPTH
  {
    if RawDepth(dpp) > MAX_DEPTH then MAX_DEPTH else RawDepth(dpp)
  }

  /** The depth loop and clamp of `getMapRaster`, on the query's degrees per pixel. */
  method SelectDepth(dpp: Dpp) returns (depth: nat)
    ensures depth == DepthFor(dpp)
    ensures depth <= MAX_DEPTH
  {
    depth := 0;
    if dpp.Finite? {
      LoopDppAgrees(0);
      var tDpp := LoopDpp(0);
      while tDpp > dpp.value
        invariant depth <= OVERFLOW_DEPTH
        invariant LoopDivisor(depth) != 0 && tDpp == LoopDpp(depth)
        invariant LoopDepth(dpp.value, depth) == LoopDepth(dpp.value, 0)
        decreases OVERFLOW_DEPTH - depth
      {
        LoopDppAgrees(depth);
        depth := depth + 1;
        LoopDppAgrees(depth);
        tDpp := LoopDpp(depth);
      }
    }
    if depth > MAX_DEPTH {
      depth := MAX_DEPTH;
    }
  }

  /**
   * For a positive query resolution, the loop stops at the least depth whose
   * tile resolution is no coarser than the query's; the only exception is
   * depth 23, which the loop reaches through integer overflow without the
   * comparison holding.
   */
  lemma DepthIsLeast(v: real)
    requires v >= 0.0
    ensures var d := RawDepth(Finite(v));
      && d <= OVERFLOW_DEPTH
      && (forall e :: 0 <= e < d ==> TileDpp(e) > v)
      && (d < OVERFLOW_DEPTH ==> TileDpp(d) <= v)
  {
    LoopDepthIsLeast(v, 0);
  }

  lemma {:induction false} LoopDepthIsLeast(v: real, d: nat)
    requires v >= 0.0 && d <= OVERFLOW_DEPTH
    requires forall e :: 0 <= e < d ==> TileDpp(e) > v
    ensures var r := LoopDepth(v, d);
      && (forall e :: 0 <= e < r ==> TileDpp(e) > v)
      && (r < OVERFLOW_DEPTH ==> TileDpp(r) <= v)
    decreases OVERFLOW_DEPTH - d
  {
    LoopDppAgrees(d);
    if LoopDpp(d) > v {
      LoopDepthIsLeast(v, d + 1);
    }
  }

  /** A finer query resolution never selects a shallower depth. */
  lemma {:induction false} LoopDepthMonotone(v1: real, v2: real, d: nat)
    requires 0.0 <= v2 <= v1 && d <= OVERFLOW_DEPTH
    ensures LoopDepth(v1, d) <= LoopDepth(v2, d)
    decreases OVERFLOW_DEPTH - d
  {
    LoopDppAgrees(d);
    if LoopDpp(d) > v1 {
      LoopDepthMonotone(v1, v2, d + 1);
    }
  }

  /**
   * For a fixed query box, widening the requested image (w1 <= w2, both
   * positive) never selects a shallower depth.
   */
  lemma DepthMonotoneInWidth(ullon: real, lrlon: real, w1: real, w2: real)
    requires 0.0 < w1 <= w2
    ensures DepthFor(QueryDpp(ullon, lrlon, w1)) <= DepthFor(QueryDpp(ullon, lrlon, w2))
  {
    var x := Abs(ullon - lrlon);
    assert Abs((ullon - lrlon) / w1) == x / w1;
    assert Abs((ullon - lrlon) / w2) == x / w2;
    if x > 0.0 && w1 < w2 {
      DivideByLarger(x, w1, w2);
    }
    LoopDepthMonotone(x / w1, x / w2, 0);
  }

  /**
   * A query of zero longitudinal span has no least depth; the loop then only
   * stops because of the overflow at depth 23, and the clamp gives 7.
   */
  lemma ZeroSpanDepth(ullon: real, w: real)
    requires w != 0.0
    ensures RawDepth(QueryDpp(ullon, ullon, w)) == OVERFLOW_DEPTH
    ensures DepthFor(QueryDpp(ullon, ullon, w)) == MAX_DEPTH
  {
    assert QueryDpp(ullon, ullon, w) == Finite(0.0);
    ZeroLoopDepth(0);
  }

  lemma {:induction false} ZeroLoopDepth(d: nat)
    requires d <= OVERFLOW_DEPTH
    ensures LoopDepth(0.0, d) == OVERFLOW_DEPTH
    decreases OVERFLOW_DEPTH - d
  {
    LoopDppAgrees(d);
    if d < OVERFLOW_DEPTH {
      ZeroLoopDepth(d + 1);
    }
  }

  /** A zero image width (infinite or NaN resolution) selects depth 0. */
  lemma ZeroWidthDepth(ullon: real, lrlon: real)
    ensures DepthFor(QueryDpp(ullon, lrlon, 0.0)) == 0
  {
  }

  // ---------------------------------------------------------------------
  // Sorting the collected tiles (Collections.sort with the tile order)
  // ---------------------------------------------------------------------

  /** No tile comes after a later one in reading order. */
  predicate Sorted(tiles: seq<QTreeNode>) {
    forall i, j | 0 <= i < j < |tiles| :: !Precedes(tiles[j].box, tiles[i].box)
  }

  /** Inserts `t` before the first tile that does not precede it (so equal tiles keep their order). */
  function Insert(t: QTreeNode, s: seq<QTreeNode>): (r: seq<QTreeNode>)
    ensures multiset(r) == multiset(s) + multiset{t}
  {
    if s == [] || CompareTo(s[0], t) == 1 then
      [t] + s
    else
      assert s == [s[0]] + s[1..];
      [s[0]] + Insert(t, s[1..])
  }

  lemma {:induction false} InsertSorted(t: QTreeNode, s: seq<QTreeNode>)
    requires Sorted(s)
    ensures Sorted(Insert(t, s))
  {
    if s == [] || CompareTo(s[0], t) == 1 {
      forall j | 0 < j < |s| ensures !Precedes(s[j].box, t.box) {
        NotPrecedesTransitive(s[j].box, s[0].box, t.box);
      }
    } else {
      InsertSorted(t, s[1..]);
      var r := Insert(t, s[1..]);
      assert multiset(r) == multiset(s[1..]) + multiset{t};
      forall j | 0 <= j < |r| ensures !Precedes(r[j].box, s[0].box) {
        assert r[j] in multiset(r);
        if r[j] != t {
          assert r[j] in multiset(s[1..]);
          var k :| 0 <= k < |s[1..]| && s[1..][k] == r[j];
          assert s[k + 1] == r[j];
        }
      }
    }
  }

  /**
   * The tile sort: the result is a permutation of the input in reading
   * order. When the upper-left corners are pairwise distinct there is one
   * such order, so this is the list `Collections.sort` returns; tiles with
   * equal corners compare greater both ways, and their order is not fixed.
   */
  function SortTiles(s: seq<QTreeNode>): (r: seq<QTreeNode>)
    ensures multiset(r) == multiset(s)
    ensures Sorted(r)
  {
    if s == [] then [] else
      assert s == [s[0]] + s[1..];
      InsertSorted(s[0], SortTiles(s[1..]));
      Insert(s[0], SortTiles(s[1..]))
  }

  // ---------------------------------------------------------------------
  // Rows and columns of the sorted tiles
  // ---------------------------------------------------------------------

  /** Tile i starts a new row: its top edge lies strictly south of tile i-1's. */
  predicate RowBreak(tiles: seq<QTreeNode>, i: nat)
    requires 0 < i < |tiles|
  {
    tiles[i].box.ullat < tiles[i - 1].box.ullat
  }

  /** The row index of tile i: the number of row breaks up to it. */
  function Row(tiles: seq<QTreeNode>, i: nat): nat
    requires i < |tiles|
  {
    if i == 0 then 0 else Row(tiles, i - 1) + (if RowBreak(tiles, i) then 1 else 0)
  }

  /** The position of tile i within its row. */
  function Col(tiles: seq<QTreeNode>, i: nat): nat
    requires i < |tiles|
  {
    if i == 0 then 0 else if RowBreak(tiles, i) then 0 else Col(tiles, i - 1) + 1
  }

  /** Number of rows; an empty list still counts one. */
  function RowCount(tiles: seq<QTreeNode>): nat {
    if |tiles| == 0 then 1 else Row(tiles, |tiles| - 1) + 1
  }

  /** Length of the last row; an empty list still counts one. */
  function LastRowLength(tiles: seq<QTreeNode>): nat {
    if |tiles| == 0 then 1 else Col(tiles, |tiles| - 1) + 1
  }

  /** The first counting loop: `count4` rows and `count3` tiles in the last row. */
  method CountRows(tiles: seq<QTreeNode>) returns (count4: nat, count3: nat)
    ensures count4 == RowCount(tiles) && count3 == LastRowLength(tiles)
    ensures 1 <= count4 && 1 <= count3
    ensures tiles != [] ==> count4 <= |tiles| && count3 <= |tiles|
  {
    count4 := 0;
    count3 := 0;
    for k := 0 to |tiles|
      invariant k > 0 ==> count4 == Row(tiles, k - 1) && count3 == Col(tiles, k - 1)
      invariant k == 0 ==> count4 == 0 && count3 == 0
    {
      if k > 0 {
        if tiles[k].box.ullat < tiles[k - 1].box.ullat {
          count3 := 0;
          count4 := count4 + 1;
        } else {
          count3 := count3 + 1;
        }
      }
    }
    count4 := count4 + 1;
    count3 := count3 + 1;
    if tiles != [] {
      RowColBounds(tiles, |tiles| - 1);
    }
  }

  lemma {:induction false} RowColBounds(tiles: seq<QTreeNode>, i: nat)
    requires i < |tiles|
    ensures Row(tiles, i) <= i && Col(tiles, i) <= i
  {
    if i > 0 {
      RowColBounds(tiles, i - 1);
    }
  }

  /** Where a tile is drawn on the raster image, in pixels. */
  datatype Placement = Placement(x: int, y: int)

  /**
   * The drawing loop: tile i is drawn at x = 256 * (its place in its row) and
   * y = 256 * (its row), `count1` counts the tiles drawn and `count2` the rows.
   */
  method PlaceTiles(tiles: seq<QTreeNode>) returns (placements: seq<Placement>, count1: nat, count2: nat)
    ensures |placements| == |tiles|
    ensures forall i | 0 <= i < |tiles| ::
      placements[i] == Placement(TILE_SIZE * Col(tiles, i), TILE_SIZE * Row(tiles, i))
    ensures count1 == |tiles|
    ensures count2 == RowCount(tiles)
  {
    var x, y := 0, 0;
    count1, count2 := 0, 0;
    placements := [];
    for i := 0 to |tiles|
      invariant |placements| == i && count1 == i
      invariant forall j | 0 <= j < i ::
        placements[j] == Placement(TILE_SIZE * Col(tiles, j), TILE_SIZE * Row(tiles, j))
      invariant i < |tiles| ==> x == TILE_SIZE * Col(tiles, i) && y == TILE_SIZE * Row(tiles, i)
      invariant count2 == if i < |tiles| then Row(tiles, i) else if i > 0 then Row(tiles, i - 1) else 0
    {
      placements := placements + [Placement(x, y)];
      x := x + TILE_SIZE;
      count1 := count1 + 1;
      if i < |tiles| - 1 {
        if tiles[i + 1].box.ullat < tiles[i].box.ullat {
          x := 0;
          y := y + TILE_SIZE;
          count2 := count2 + 1;
        }
        assert Row(tiles, i + 1) == Row(tiles, i) + (if RowBreak(tiles, i + 1) then 1 else 0);
        assert Col(tiles, i + 1) == if RowBreak(tiles, i + 1) then 0 else Col(tiles, i) + 1;
      }
    }
    count2 := count2 + 1;
  }

  /** Row indices never decrease along the list. */
  lemma {:induction false} RowMonotone(tiles: seq<QTreeNode>, i: nat, j: nat)
    requires i <= j < |tiles|
    ensures Row(tiles, i) <= Row(tiles, j)
    decreases j
  {
    if i < j {
      RowMonotone(tiles, i, j - 1);
    }
  }

  /** Within one row, columns count up one tile at a time. */
  lemma {:induction false} SameRowColumns(tiles: seq<QTreeNode>, i: nat, j: nat)
    requires i <= j < |tiles| && Row(tiles, i) == Row(tiles, j)
    ensures Col(tiles, j) == Col(tiles, i) + (j - i)
    decreases j
  {
    if i < j {
      RowMonotone(tiles, i, j - 1);
      assert !RowBreak(tiles, j);
      SameRowColumns(tiles, i, j - 1);
    }
  }

  /** No two tiles are drawn at the same place. */
  lemma PlacementsDistinct(tiles: seq<QTreeNode>, i: nat, j: nat)
    requires i < j < |tiles|
    ensures Row(tiles, i) != Row(tiles, j) || Col(tiles, i) != Col(tiles, j)
  {
    RowMonotone(tiles, i, j);
    if Row(tiles, i) == Row(tiles, j) {
      SameRowColumns(tiles, i, j);
    }
  }

  /** The ullat values of the first `k` tiles. */
  function Latitudes(tiles: seq<QTreeNode>, k: nat): set<real>
    requires k <= |tiles|
  {
    set i | 0 <= i < k :: tiles[i].box.ullat
  }

  /** For sorted tiles, the number of rows is the number of distinct top-edge latitudes. */
  lemma RowCountIsLatitudes(tiles: seq<QTreeNode>)
    requires Sorted(tiles) && tiles != []
    ensures RowCount(tiles) == |Latitudes(tiles, |tiles|)|
  {
    RowIsLatitudes(tiles, |tiles| - 1);
  }

  lemma {:induction false} RowIsLatitudes(tiles: seq<QTreeNode>, i: nat)
    requires Sorted(tiles) && i < |tiles|
    ensures Row(tiles, i) + 1 == |Latitudes(tiles, i + 1)|
  {
    if i == 0 {
      assert Latitudes(tiles, 1) == {tiles[0].box.ullat};
    } else {
      RowIsLatitudes(tiles, i - 1);
      LatitudesStep(tiles, i);
      if RowBreak(tiles, i) {
        NewRowNewLatitude(tiles, i);
      } else {
        assert !Precedes(tiles[i].box, tiles[i - 1].box);
        assert tiles[i].box.ullat == tiles[i - 1].box.ullat;
        assert tiles[i].box.ullat in Latitudes(tiles, i);
        assert Latitudes(tiles, i + 1) == Latitudes(tiles, i);
        assert Row(tiles, i) == Row(tiles, i - 1);
      }
    }
  }

  lemma LatitudesStep(tiles: seq<QTreeNode>, i: nat)
    requires i < |tiles|
    ensures Latitudes(tiles, i + 1) == Latitudes(tiles, i) + {tiles[i].box.ullat}
  {
  }

  /** In sorted tiles, the first tile of a new row lies strictly south of every earlier tile. */
  lemma NewRowNewLatitude(tiles: seq<QTreeNode>, i: nat)
    requires Sorted(tiles) && 0 < i < |tiles| && RowBreak(tiles, i)
    ensures tiles[i].box.ullat !in Latitudes(tiles, i)
  {
    forall j | 0 <= j < i ensures tiles[j].box.ullat > tiles[i].box.ullat {
      assert !Precedes(tiles[i - 1].box, tiles[j].box) || j == i - 1;
    }
  }

  /** Every row holds `c` tiles: row breaks fall exactly on the multiples of `c`. */
  predicate EqualRows(tiles: seq<QTreeNode>, c: nat) {
    c > 0 && |tiles| % c == 0 && forall i | 0 < i < |tiles| :: RowBreak(tiles, i) <==> i % c == 0
  }

  lemma DivModUnique(n: nat, c: nat, q: int, r: int)
    requires c > 0 && 0 <= r < c && n == c * q + r
    ensures n / c == q && n % c == r
  {
    var d := q - n / c;
    assert c * d == n % c - r;
    if d >= 1 {
      assert false;
    } else if d <= -1 {
      assert false;
    }
  }

  lemma DivModStep(i: nat, c: nat)
    requires c > 0 && i > 0
    ensures i % c == 0 ==> i / c == (i - 1) / c + 1 && (i - 1) % c == c - 1
    ensures i % c != 0 ==> i / c == (i - 1) / c && i % c == (i - 1) % c + 1
  {
    var q, r := (i - 1) / c, (i - 1) % c;
    if r + 1 < c {
      DivModUnique(i, c, q, r + 1);
    } else {
      assert i == c * (q + 1) + 0;
      DivModUnique(i, c, q + 1, 0);
    }
  }

  lemma {:induction false} GridRowCol(tiles: seq<QTreeNode>, c: nat, i: nat)
    requires EqualRows(tiles, c) && i < |tiles|
    ensures Row(tiles, i) == i / c && Col(tiles, i) == i % c
  {
    if i == 0 {
      DivModUnique(0, c, 0, 0);
    } else {
      GridRowCol(tiles, c, i - 1);
      DivModStep(i, c);
    }
  }

  /**
   * When every row has the same length, the reported raster width
   * `(count1 / count2) * 256` equals the drawn image width `count3 * 256`.
   */
  lemma ReportedWidthMatchesImage(tiles: seq<QTreeNode>, c: nat)
    requires EqualRows(tiles, c) && tiles != []
    ensures RowCount(tiles) == |tiles| / c
    ensures LastRowLength(tiles) == c
    ensures (|tiles| / RowCount(tiles)) * TILE_SIZE == LastRowLength(tiles) * TILE_SIZE
  {
    var n := |tiles|;
    GridRowCol(tiles, c, n - 1);
    var k := n / c;
    DivModUnique(n, c, k, 0);
    assert n == c * k;
    DivModStep(n, c);
    DivModUnique(n, k, c, 0);
  }

  /** The raster's bounding box: the first tile's upper-left and the last tile's lower-right corner. */
  function RasterBox(tiles: seq<QTreeNode>): (b: Box)
    requires tiles != []
    ensures Sorted(tiles) ==> forall t | t in tiles :: tiles[|tiles| - 1].box.ullat <= t.box.ullat <= b.ullat
  {
    Box(tiles[0].box.ullat, tiles[0].box.ullon, tiles[|tiles| - 1].box.lrlat, tiles[|tiles| - 1].box.lrlon)
  }

  // ---------------------------------------------------------------------
  // Route overlay
  // ---------------------------------------------------------------------

  /** A route vertex's position. */
  datatype Point = Point(lon: real, lat: real)

  /** A pixel position on the raster image. */
  datatype Pixel = Pixel(x: int, y: int)

  /** One drawn line of the route overlay. */
  datatype Segment = Segment(from: Pixel, to: Pixel)

  const INT_MAX_VALUE: int := 0x7FFF_FFFF

  /**
   * Java's `(int) Math.floor(a / d)` for a divisor that is a positive double
   * or positive zero. Dividing by zero gives an infinity of the sign of `a`,
   * or NaN when `a` is zero as well; the cast maps an infinity to the `int`
   * bound of its sign and NaN to 0, and saturates finite values out of range.
   */
  function FloorToInt(a: real, d: real): (r: int)
    ensures INT_MIN_VALUE <= r <= INT_MAX_VALUE
    ensures d != 0.0 && INT_MIN_VALUE <= (a / d).Floor <= INT_MAX_VALUE ==> r == (a / d).Floor
    ensures d == 0.0 ==> (r == 0 <==> a == 0.0) && (r > 0 <==> a > 0.0)
  {
    if d == 0.0 then (if a > 0.0 then INT_MAX_VALUE else if a < 0.0 then INT_MIN_VALUE else 0)
    else if (a / d).Floor > INT_MAX_VALUE then INT_MAX_VALUE
    else if (a / d).Floor < INT_MIN_VALUE then INT_MIN_VALUE
    else (a / d).Floor
  }

  /** The pixel of a position, given the raster's upper-left corner and its degrees per pixel. */
  function ToPixel(p: Point, ullon: real, ullat: real, wDdp: real, hDdp: real): Pixel {
    Pixel(FloorToInt(p.lon - ullon, wDdp), FloorToInt(ullat - p.lat, hDdp))
  }

  /** A position inside the raster box lands on the image: between 0 and the width, 0 and the height. */
  lemma PixelInRaster(p: Point, b: Box, w: real, h: real)
    requires b.ullon < b.lrlon && b.lrlat < b.ullat && 0.0 < w <= INT_MAX_VALUE as real && 0.0 < h <= INT_MAX_VALUE as real
    requires b.ullon <= p.lon <= b.lrlon && b.lrlat <= p.lat <= b.ullat
    ensures var px := ToPixel(p, b.ullon, b.ullat, (b.lrlon - b.ullon) / w, (b.ullat - b.lrlat) / h);
      0 <= px.x && px.x as real <= w && 0 <= px.y && px.y as real <= h
  {
    ScaledInRange(p.lon - b.ullon, b.lrlon - b.ullon, w);
    ScaledInRange(b.ullat - p.lat, b.ullat - b.lrlat, h);
  }

  /** 0 <= a <= span implies 0 <= a / (span / size) <= size. */
  lemma ScaledInRange(a: real, span: real, size: real)
    requires 0.0 <= a <= span && span > 0.0 && size > 0.0
    ensures 0.0 <= a / (span / size) <= size
  {
    assert a / (span / size) == a * size / span;
    assert a * size <= span * size;
    assert a * size / span <= span * size / span;
  }

  /** The line from route vertex i to vertex i + 1. */
  function SegmentAt(points: seq<Point>, i: nat, ullon: real, ullat: real, wDdp: real, hDdp: real): Segment
    requires i + 1 < |points|
  {
    Segment(ToPixel(points[i], ullon, ullat, wDdp, hDdp), ToPixel(points[i + 1], ullon, ullat, wDdp, hDdp))
  }

  /**
   * The overlay loop: one line from each route vertex to the next, so
   * `|points| - 1` lines (none for an empty route), each joined to the next.
   */
  method RouteSegments(points: seq<Point>, ullon: real, ullat: real, wDdp: real, hDdp: real)
    returns (segments: seq<Segment>)
    ensures |segments| == if points == [] then 0 else |points| - 1
    ensures forall i | 0 <= i < |segments| :: segments[i] == SegmentAt(points, i, ullon, ullat, wDdp, hDdp)
    ensures forall i | 0 <= i < |segments| - 1 :: segments[i].to == segments[i + 1].from
  {
    var count := if points == [] then 0 else |points| - 1;
    segments := [];
    var i := 0;
    while i < count
      invariant 0 <= i <= count && |segments| == i
      invariant forall j | 0 <= j < i :: segments[j] == SegmentAt(points, j, ullon, ullat, wDdp, hDdp)
    {
      segments := segments + [SegmentAt(points, i, ullon, ullat, wDdp, hDdp)];
      i := i + 1;
    }
  }
}
