/**
 * The server of main/java/MapServer.java: the road graph, the catalog of
 * tile images, and the route last computed, with the three operations
 * `getMapRaster`, `findAndSetRoute` and `clearRoute`. The Java class keeps
 * this state in static fields; here it is one object.
 */
module MapServer {
  import opened Wrappers
  import QT = QuadTree
  import R = Raster
  import G = Graph
  import Rt = Routing

  /** The parameters of a raster request: the query box and the viewport size in pixels. */
  datatype RasterRequest = RasterRequest(ullat: real, ullon: real, lrlat: real, lrlon: real, w: real, h: real)

  /** The parameters of a route request. */
  datatype RouteRequest = RouteRequest(startLon: real, startLat: real, endLon: real, endLat: real)

  /** The entries `getMapRaster` puts in its result map. */
  datatype RasterParams = RasterParams(
    rasterUlLon: real, rasterUlLat: real, rasterLrLon: real, rasterLrLat: real,
    rasterWidth: int, rasterHeight: int, depth: nat, querySuccess: bool)

  /**
   * A rastered image: the result map, the size of the image buffer, the
   * tiles drawn and where, and the lines of the route overlay.
   */
  datatype Raster = Raster(
    params: RasterParams, imageWidth: int, imageHeight: int,
    tiles: seq<QT.QTreeNode>, placements: seq<R.Placement>, segments: seq<R.Segment>)

  /**
   * The unchecked exceptions the modelled code can throw. An `IOException`
   * while reading a tile image is caught by `getMapRaster` itself, which then
   * returns its result map still empty; that outcome is `Ok(None)`.
   */
  datatype Failure = NullPointer | IndexOutOfBounds

  /** `getConnected().get(id)`: the node with that id, or null. */
  function NodeWithId(nodes: seq<G.Node>, id: int): (r: Option<G.Node>)
    ensures r.Some? <==> exists k | 0 <= k < |nodes| :: nodes[k].id == id
    ensures r.Some? ==> r.value in nodes && r.value.id == id
  {
    if nodes == [] then None
    else if nodes[0].id == id then Some(nodes[0])
    else NodeWithId(nodes[1..], id)
  }

  /** The positions of the route's nodes, or None when one of the ids is not in the graph. */
  function RoutePoints(nodes: seq<G.Node>, ids: seq<int>): (r: Option<seq<R.Point>>)
    ensures r.Some? <==> forall k | 0 <= k < |ids| :: NodeWithId(nodes, ids[k]).Some?
    ensures r.Some? ==> |r.value| == |ids| && forall k | 0 <= k < |ids| ::
      r.value[k] == R.Point(NodeWithId(nodes, ids[k]).value.lon, NodeWithId(nodes, ids[k]).value.lat)
  {
    if ids == [] then Some([])
    else
      var head := NodeWithId(nodes, ids[0]);
      var tail := RoutePoints(nodes, ids[1..]);
      if head.None? || tail.None? then None
      else Some([R.Point(head.value.lon, head.value.lat)] + tail.value)
  }

  /** The reported raster width: tiles per row, as the integer quotient of tiles by rows, times the tile size. */
  function RasterWidth(tiles: seq<QT.QTreeNode>): (w: int)
    ensures tiles != [] ==> w >= R.TILE_SIZE
  {
    if tiles != [] then R.RowColBounds(tiles, |tiles| - 1); (|tiles| / R.RowCount(tiles)) * R.TILE_SIZE
    else (|tiles| / R.RowCount(tiles)) * R.TILE_SIZE
  }

  /** The reported raster height: rows times the tile size. */
  function RasterHeight(tiles: seq<QT.QTreeNode>): (h: int)
    ensures h >= R.TILE_SIZE
  {
    R.RowCount(tiles) * R.TILE_SIZE
  }

  /** The depth `getMapRaster` chooses for a request. */
  function RequestDepth(req: RasterRequest): (d: nat)
    ensures d <= R.MAX_DEPTH
  {
    R.DepthFor(R.QueryDpp(req.ullon, req.lrlon, req.w))
  }

  /** The query box of a request. */
  function RequestBox(req: RasterRequest): QT.Box {
    QT.Box(req.ullat, req.ullon, req.lrlat, req.lrlon)
  }

  /** Lists with the same multiset of elements have the same members. */
  lemma SameElements<T>(a: seq<T>, b: seq<T>)
    requires multiset(a) == multiset(b)
    ensures forall x :: x in a <==> x in b
  {
    forall x ensures x in a <==> x in b {
      assert x in a <==> x in multiset(a);
      assert x in b <==> x in multiset(b);
    }
  }

  /**
   * The result map for the non-empty sorted `tiles` at `depth`: the box
   * spanned by the first and last tiles, the width and height from the tile
   * and row counts, the depth, and success.
   */
  predicate Reports(params: RasterParams, tiles: seq<QT.QTreeNode>, depth: nat) {
    && tiles != []
    && var b := R.RasterBox(tiles);
    params == RasterParams(b.ullon, b.ullat, b.lrlon, b.lrlat, RasterWidth(tiles), RasterHeight(tiles), depth, true)
  }

  /** The image is as wide as the last row and as tall as all rows; tile i is drawn at its column and row. */
  predicate LaidOut(imageWidth: int, imageHeight: int, placements: seq<R.Placement>, tiles: seq<QT.QTreeNode>) {
    && imageWidth == R.LastRowLength(tiles) * R.TILE_SIZE
    && imageHeight == R.RowCount(tiles) * R.TILE_SIZE
    && |placements| == |tiles|
    && forall i | 0 <= i < |tiles| ::
         placements[i] == R.Placement(R.TILE_SIZE * R.Col(tiles, i), R.TILE_SIZE * R.Row(tiles, i))
  }

  /**
   * The overlay joins consecutive route positions, mapped to pixels by the
   * raster's upper-left corner and degrees per pixel.
   */
  predicate Overlaid(segments: seq<R.Segment>, tiles: seq<QT.QTreeNode>, points: seq<R.Point>) {
    && tiles != []
    && var b := R.RasterBox(tiles);
    && var wDdp := (b.lrlon - b.ullon) / RasterWidth(tiles) as real;
    && var hDdp := (b.ullat - b.lrlat) / RasterHeight(tiles) as real;
    && |segments| == (if points == [] then 0 else |points| - 1)
    && forall i | 0 <= i < |segments| :: segments[i] == R.SegmentAt(points, i, b.ullon, b.ullat, wDdp, hDdp)
  }

  /** `r` is the raster drawn from the non-empty sorted `tiles` at `depth` with the route through `points`. */
  predicate Depicts(r: Raster, tiles: seq<QT.QTreeNode>, depth: nat, points: seq<R.Point>) {
    && r.tiles == tiles
    && Reports(r.params, tiles, depth)
    && LaidOut(r.imageWidth, r.imageHeight, r.placements, tiles)
    && Overlaid(r.segments, tiles, points)
  }

  class MapServer {
    /** The nodes of `getConnected()`, in its iteration order. */
    const nodes: seq<G.Node>
    /** The connection sets of the graph's nodes; the graph is not changed after loading. */
    ghost const adj: Rt.Adjacency
    /** The tile images present under the image folder, by file name without extension. */
    const catalog: set<string>
    /** `Math.sqrt`. */
    const sqrt: real -> real
    /** The route last found, or null. */
    var route: Option<seq<int>>

    /**
     * The graph is well formed: `adj` covers exactly the listed nodes and
     * records their connections, and ids are unique.
     */
    ghost predicate GraphValid()
      reads adj.Keys`connections
    {
      && (forall n | n in adj :: n in nodes)
      && (forall k | 0 <= k < |nodes| :: nodes[k] in adj)
      && (forall i, j | 0 <= i < j < |nodes| :: nodes[i].id != nodes[j].id)
      && Rt.Snapshot(adj) && Rt.Closed(adj) && Rt.SqrtNonNegative(sqrt)
    }

    /** Every id of a route names a node of the graph. */
    predicate RouteKnown(r: Option<seq<int>>) {
      r.Some? ==> forall k | 0 <= k < |r.value| :: NodeWithId(nodes, r.value[k]).Some?
    }

    ghost predicate Valid()
      reads this, adj.Keys`connections
    {
      GraphValid() && RouteKnown(route)
    }

    /** A server over a loaded graph and a tile catalog, with no route. */
    constructor (nodes: seq<G.Node>, ghost adj: Rt.Adjacency, catalog: set<string>, sqrt: real -> real)
      requires (forall n | n in adj :: n in nodes) && (forall k | 0 <= k < |nodes| :: nodes[k] in adj)
      requires forall i, j | 0 <= i < j < |nodes| :: nodes[i].id != nodes[j].id
      requires Rt.Snapshot(adj) && Rt.Closed(adj) && Rt.SqrtNonNegative(sqrt)
      ensures Valid()
      ensures this.nodes == nodes && this.adj == adj && this.catalog == catalog && this.sqrt == sqrt
      ensures route == None
    {
      this.nodes := nodes;
      this.adj := adj;
      this.catalog := catalog;
      this.sqrt := sqrt;
      route := None;
    }

    /**
     * The positions the overlay draws lines between: none unless the route
     * has at least two ids, and None when one of those ids is not in the graph.
     */
    function OverlayPoints(r: Option<seq<int>>): (points: Option<seq<R.Point>>)
      ensures r.None? || |r.value| < 2 ==> points == Some([])
      ensures r.Some? && |r.value| >= 2 ==> points == RoutePoints(nodes, r.value)
    {
      if r.Some? && |r.value| >= 2 then RoutePoints(nodes, r.value) else Some([])
    }

    /**
     * The drawing half of `getMapRaster`, from the sorted tile list on: the
     * image is sized by the row counts, each tile image is read and drawn,
     * the raster box and degrees per pixel are taken from the first and last
     * tiles, and the route is drawn over the tiles.
     */
    method Draw(tiles: seq<QT.QTreeNode>, depth: nat) returns (result: Result<Option<Raster>, Failure>)
      ensures tiles == [] ==> result == Err(IndexOutOfBounds)
      ensures tiles != [] ==> ((exists t | t in tiles :: t.fileName !in catalog) <==> result == Ok(None))
      ensures tiles != [] && (forall t | t in tiles :: t.fileName in catalog) ==>
        && (result.Err? <==> OverlayPoints(route).None?)
        && (result.Err? ==> result.error == NullPointer)
        && (result.Ok? ==> result.value.Some? && Depicts(result.value.value, tiles, depth, OverlayPoints(route).value))
    {
      var count4, count3 := R.CountRows(tiles);
      if exists t | t in tiles :: t.fileName !in catalog {
        return Ok(None);
      }
      var placements, count1, count2 := R.PlaceTiles(tiles);
      if tiles == [] {
        return Err(IndexOutOfBounds);
      }
      var h := count2 * R.TILE_SIZE;
      var w := (count1 / count2) * R.TILE_SIZE;
      assert w == RasterWidth(tiles) && h == RasterHeight(tiles);
      var box := R.RasterBox(tiles);
      var wDdp := (box.lrlon - box.ullon) / w as real;
      var hDdp := (box.ullat - box.lrlat) / h as real;
      var points := OverlayPoints(route);
      if points.None? {
        return Err(NullPointer);
      }
      var segments := DrawRoute(tiles, points.value, box.ullon, box.ullat, wDdp, hDdp);
      var params := RasterParams(box.ullon, box.ullat, box.lrlon, box.lrlat, w, h, depth, true);
      assert Reports(params, tiles, depth);
      assert LaidOut(count3 * R.TILE_SIZE, count4 * R.TILE_SIZE, placements, tiles);
      result := Ok(Some(Raster(params, count3 * R.TILE_SIZE, count4 * R.TILE_SIZE, tiles, placements, segments)));
    }

    /** The overlay loop, with the raster's corner and degrees per pixel as `getMapRaster` computes them. */
    method DrawRoute(tiles: seq<QT.QTreeNode>, points: seq<R.Point>, ullon: real, ullat: real, wDdp: real, hDdp: real)
      returns (segments: seq<R.Segment>)
      requires tiles != [] && ullon == R.RasterBox(tiles).ullon && ullat == R.RasterBox(tiles).ullat
      requires wDdp == (R.RasterBox(tiles).lrlon - ullon) / RasterWidth(tiles) as real
      requires hDdp == (ullat - R.RasterBox(tiles).lrlat) / RasterHeight(tiles) as real
      ensures Overlaid(segments, tiles, points)
    {
      segments := R.RouteSegments(points, ullon, ullat, wDdp, hDdp);
    }

    /**
     * `getMapRaster`: choose the depth, collect the tiles that meet the query
     * box at that depth, sort them into reading order, and draw them with the
     * current route over them. Nothing is changed.
     */
    method GetMapRaster(req: RasterRequest) returns (result: Result<Option<Raster>, Failure>)
      ensures var depth, query, root := RequestDepth(req), RequestBox(req), QT.NewQuadTree(catalog);
        && (!QT.Traversable(root, depth, query) ==> result == Err(NullPointer))
        && (QT.Traversable(root, depth, query) ==>
              var collected := QT.Collect(root, depth, query);
              && (collected == [] ==> result == Err(IndexOutOfBounds))
              && (collected != [] ==> ((exists t | t in collected :: t.fileName !in catalog) <==> result == Ok(None)))
              && (collected != [] && (forall t | t in collected :: t.fileName in catalog) ==>
                    (result.Err? <==> OverlayPoints(route).None?)))
      ensures result.Err? ==> result.error == NullPointer || result.error == IndexOutOfBounds
      ensures result.Ok? && result.value.Some? ==>
        var depth, query, root := RequestDepth(req), RequestBox(req), QT.NewQuadTree(catalog);
        var r := result.value.value;
        && QT.Traversable(root, depth, query) && depth <= R.MAX_DEPTH
        && multiset(r.tiles) == multiset(QT.Collect(root, depth, query)) && R.Sorted(r.tiles)
        && OverlayPoints(route).Some? && Depicts(r, r.tiles, depth, OverlayPoints(route).value)
    {
      var dpp := R.QueryDpp(req.ullon, req.lrlon, req.w);
      var depth := R.SelectDepth(dpp);
      var query := QT.Box(req.ullat, req.ullon, req.lrlat, req.lrlon);
      var root := QT.NewQuadTree(catalog);
      if !QT.Traversable(root, depth, query) {
        return Err(NullPointer);
      }
      var collected := QT.TraverseDepth(root, depth, query, []);
      assert collected == QT.Collect(root, depth, query);
      var tiles := R.SortTiles(collected);
      SameElements(tiles, collected);
      result := Draw(tiles, depth);
    }

    /**
     * A route whose ids all name graph nodes, as `findAndSetRoute` leaves it,
     * never makes the overlay dereference null.
     */
    lemma KnownRouteDraws(r: Option<seq<int>>)
      requires RouteKnown(r)
      ensures OverlayPoints(r).Some?
      ensures r.Some? && |r.value| >= 2 ==> |OverlayPoints(r).value| == |r.value|
    {
    }

    /** `clearRoute`: forget the route. */
    method ClearRoute()
      modifies this`route
      ensures route == None
      ensures old(Valid()) ==> Valid()
    {
      route := None;
    }
  
    /**
     * `findAndSetRoute`: the route is reset to an empty list first; the
     * nodes nearest the two positions are found, the search runs, and the
     * walk back fills the route. An empty graph makes the search dereference
     * a null start node; an end node that is the start or cannot be reached
     * makes the walk dereference null after it has put the end node's id in
     * the route. Either way the route keeps what was written before the
     * exception.
     */
    method FindAndSetRoute(req: RouteRequest) returns (result: Result<seq<int>, Failure>)
      requires Valid()
      modifies this`route, adj.Keys`fn
      ensures Valid() && route.Some?
      ensures nodes == [] ==> result == Err(NullPointer) && route == Some([])
      ensures nodes != [] ==>
        && (exists i: nat :: Rt.EarliestNearest(nodes, req.startLon, req.startLat, i))
        && (exists j: nat :: Rt.EarliestNearest(nodes, req.endLon, req.endLat, j))
      ensures forall i: nat, j: nat
        | Rt.EarliestNearest(nodes, req.startLon, req.startLat, i) && Rt.EarliestNearest(nodes, req.endLon, req.endLat, j) ::
        && (result.Ok? <==>
              nodes[i] != nodes[j] && exists p :: Rt.IsPath(adj, p) && p[0] == nodes[i] && p[|p| - 1] == nodes[j])
        && (result.Ok? ==>
              route == Some(result.value) &&
              exists p :: Rt.IsPath(adj, p) && p[0] == nodes[i] && p[|p| - 1] == nodes[j] && result.value == Rt.Ids(p))
        && (result.Err? ==> result == Err(NullPointer) && route == Some([nodes[j].id]))
    {
      route := Some([]);
      var s := Rt.Nearest(nodes, req.startLon, req.startLat);
      var e := Rt.Nearest(nodes, req.endLon, req.endLat);
      if s.None? || e.None? {
        result := Err(NullPointer);
        return;
      }
      var r, crashed := SearchAndWalk(nodes[s.value], nodes[e.value]);
      route := Some(r);
      result := if crashed then Err(NullPointer) else Ok(r);
      forall i: nat, j: nat | Rt.EarliestNearest(nodes, req.startLon, req.startLat, i) && Rt.EarliestNearest(nodes, req.endLon, req.endLat, j)
        ensures i == s.value && j == e.value
      {
        Rt.EarliestNearestUnique(nodes, req.startLon, req.startLat, i, s.value);
        Rt.EarliestNearestUnique(nodes, req.endLon, req.endLat, j, e.value);
      }
    }

    /**
     * The search from `start` towards `end` followed by the walk back: the
     * list the walk leaves and whether it ended in a null dereference.
     */
    method SearchAndWalk(start: G.Node, end: G.Node) returns (r: seq<int>, crashed: bool)
      requires GraphValid() && start in adj && end in adj
      modifies adj.Keys`fn
      ensures !crashed <==> start != end && exists p :: Rt.IsPath(adj, p) && p[0] == start && p[|p| - 1] == end
      ensures !crashed ==> exists p :: Rt.IsPath(adj, p) && p[0] == start && p[|p| - 1] == end && r == Rt.Ids(p)
      ensures crashed ==> r == [end.id]
      ensures RouteKnown(Some(r))
    {
      var visited, distan, prev, stamp, clock := Rt.Search(adj, start, end, sqrt);
      r, crashed := Rt.WalkBack(start, end, prev, distan, stamp);
      RouteFacts(start, end, visited, distan, prev, stamp, clock, r, crashed);
    }

    /** What the search and the walk leave behind, in terms of paths of the graph. */
    lemma RouteFacts(start: G.Node, end: G.Node, visited: set<G.Node>, distan: map<G.Node, real>,
                     prev: map<G.Node, G.Node>, stamp: map<G.Node, nat>, clock: nat, r: seq<int>, crashed: bool)
      requires (forall n | n in adj :: n in nodes) && start in adj && end in adj
      requires Rt.Tables(adj, start, visited, distan, prev, stamp, clock, sqrt)
      requires Rt.Expanded(adj, visited, {end}, distan)
      requires end in visited || forall x | x in distan :: x in visited
      requires var c := Rt.Chain(start, prev, distan, stamp, end);
        && (crashed <==> c[|c| - 1] !in prev)
        && r == Rt.Ids((if crashed then [] else [start]) + Rt.Reversed(c))
      ensures !crashed <==> start != end && exists p :: Rt.IsPath(adj, p) && p[0] == start && p[|p| - 1] == end
      ensures !crashed ==> exists p :: Rt.IsPath(adj, p) && p[0] == start && p[|p| - 1] == end && r == Rt.Ids(p)
      ensures crashed ==> r == [end.id]
      ensures forall k | 0 <= k < |r| :: NodeWithId(nodes, r[k]).Some?
    {
      Rt.SearchOutcome(adj, start, end, visited, distan, prev, stamp, clock, sqrt);
      var c := Rt.Chain(start, prev, distan, stamp, end);
      if end in prev {
        Rt.ChainIsPath(adj, start, visited, distan, prev, stamp, clock, end);
        var p := [start] + Rt.Reversed(c);
        assert p[|p| - 1] == c[0];
        Rt.IdsAt(p);
        forall k | 0 <= k < |r| ensures NodeWithId(nodes, r[k]).Some? {
          assert p[k] in adj && p[k] in nodes;
        }
      } else {
        assert c == [end];
        assert [end][1..] == [];
        assert r == Rt.Ids([end]);
        assert Rt.Ids([end]) == [end.id] + Rt.Ids([]);
        assert end in nodes;
      }
    }
  }
}
