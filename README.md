# bearMaps core in Dafny

This project models the core of bearMaps, a small map server for Berkeley.

- A **quad-tree tile index** (`QuadTree.java`) cuts the map's root box into quarters, level by level. It keeps a child level only where tile images exist.
- **`getMapRaster`** (`MapServer.java`) answers a viewport request:
  - it picks the tile depth whose resolution fits the request;
  - it collects the tiles of that depth that meet the query box and sorts them into reading order;
  - it lays them out in rows and columns, and reports the raster's bounding box and size;
  - it maps the current route onto pixel coordinates for the overlay.
- **`findAndSetRoute`** finds the graph nodes nearest to the start and end positions. It runs a best-first search with lazy deletion, then walks the predecessor map back into a list of node ids. That list becomes the server's current `route`. **`clearRoute`** forgets the route.
- **`Node`** (`Node.java`) is a road-graph vertex. Its `fn` priority is rewritten in place during a search. It defines the `compareTo`, `equals` and `hashCode` that the frontier and the hash maps use.

Modules:

| file | module | models |
|---|---|---|
| `wrappers.dfy` | `Wrappers` | `Option` and `Result` |
| `quad_tree.dfy` | `QuadTree` | `QTreeNode`, `intersectsTile`, `satisfiesDepth`, `compareTo`, `completeQTree`, `traverseDepth`, the `QuadTree` constructor |
| `graph.dfy` | `Graph` | the `Node` class |
| `raster.dfy` | `Raster` | depth selection, tile sorting, row and column counting, tile placement, the raster box, overlay pixels |
| `routing.dfy` | `Routing` | the nearest-node scans, the search loop and its relaxations, the walk back |
| `map_server.dfy` | `MapServer` | the server state (`nodes`, `catalog`, `route`) and `getMapRaster`, `findAndSetRoute`, `clearRoute` |

Data and state:

- The quad tree is built once and never changed, so a node is a datatype value.
- `completeQTree` is a function that returns the completed node.
- Whether a tile image exists is membership of its id in a finite `catalog` set.
- `Node` is a class. `id`, `lat` and `lon` are constants, while `connections` and `fn` are fields.
- The static `route` field of `MapServer` is a field of the `MapServer` class. `findAndSetRoute` and `clearRoute` are methods that modify it.
- The search's `visited` set, its `distan` and `prev` maps and its frontier are local variables of the `Routing.Search` loop. The frontier is a multiset.

### Where the model follows the code rather than the documented intent

- **The depth loop always terminates.**
  - `(int) Math.pow(2, 23) * 256` is 2^31, which wraps to -2^31 in Java `int` arithmetic. `tDPP` then becomes negative and the loop stops.
  - So a query of zero longitudinal span does not hang: it selects depth 23, which is clamped to 7 (`Raster.ZeroSpanDepth`).
  - A zero viewport width gives an infinite or NaN resolution, so the loop never runs and the depth is 0 (`Raster.ZeroWidthDepth`).
- **Crashes are outcomes, not preconditions.** The exceptions the code throws are results of type `Err(NullPointer)` or `Err(IndexOutOfBounds)`, because callers can reach them and `findAndSetRoute` has already changed `route` when it throws:
  - traversing into a leaf that is shallower than the target depth (`QuadTree.java:103`);
  - an empty tile list (`MapServer.java:260`);
  - a route id missing from the graph while drawing the overlay (`MapServer.java:267-269`);
  - an empty graph, or a start node that equals the end node or cannot reach it (`MapServer.java:332-358`). In these cases the route is left as `[]` (empty graph) or as `[end id]`.
- **A missing tile image gives an empty result, not an error.** The `IOException` from `ImageIO.read` is caught, so `getMapRaster` returns its result map still empty. This is `Ok(None)`.
- **The reported width can differ from the image.** `raster_width` is `(tiles / rows) * 256` with integer division. It equals the image buffer's width `count3 * 256` only when every row has the same length (`Raster.ReportedWidthMatchesImage`).
- **`compareTo` breaks the `Comparable` contract.**
  - `Node.compareTo` never returns 0, and a node compares greater than itself.
  - The tile `compareTo` returns 1 both ways for equal corners.
  - The model states exactly this and proves which order properties still hold.

## Model

| member | source | states |
|---|---|---|
| QuadTree.IntersectsIffCommonPoint | main/java/QuadTree.java:46-51 | For oriented boxes, `intersectsTile` holds exactly when tile and query share a point, edges included. |
| QuadTree.IntersectsTile | main/java/QuadTree.java:46-51 | `intersectsTile`: the query is not entirely east, west, south or north of the tile. It has no contract; `IntersectsIffCommonPoint` states what it means. |
| QuadTree.SatisfiesDepth | main/java/QuadTree.java:41-43 | `satisfiesDepth`: the node's depth is the target depth. It has no contract; `CollectSound` and `CollectComplete` use it. |
| QuadTree.IntersectsEnlarged | main/java/QuadTree.java:46-51 | If a box intersects the query, every box containing it does too. This is why pruning a missed child loses nothing. |
| QuadTree.QuarterInside | main/java/QuadTree.java:88-91 | Each child box cut at the midpoints is oriented and lies inside its parent. |
| QuadTree.QuarterCovers | main/java/QuadTree.java:88-91 | The four children cover the parent: every point of it lies in one of them. |
| QuadTree.QuartersMeetOnlyAtEdges | main/java/QuadTree.java:88-91 | Two different children share no interior point. |
| QuadTree.Quarter | main/java/QuadTree.java:88-91 | The box of child k: the parent's box split at its midpoints. It has no contract; `QuarterInside`, `QuarterCovers` and `QuartersMeetOnlyAtEdges` state its properties. |
| QuadTree.ChildOf | main/java/QuadTree.java:88-91 | Child k before completion: the prefix plus digit k as its name, `Quarter(box, k)` as its box, one level deeper, no children. It has no contract; `CompleteQTreeShape` states the completed children through it. |
| QuadTree.CompleteQTree | main/java/QuadTree.java:79-97 | `completeQTree` keeps the node's name, box and depth. Its children are stated by `CompleteQTreeShape`. |
| QuadTree.CompleteQTreeShape | main/java/QuadTree.java:79-97 | Completing a leaf keeps its name, box and depth. It gives every node zero or four children, four exactly when tile `prefix+"1"` exists. Child k is the k-th quarter at depth + 1, named prefix plus digit k, and is completed with its own name as prefix. |
| QuadTree.NewQuadTree | main/java/QuadTree.java:69-73 | The constructor's root is named "root", has the root box and depth 0. Its children are stated by `NewQuadTreeShape`. |
| QuadTree.NewQuadTreeShape | main/java/QuadTree.java:69-73 | The root is "root" at depth 0 over the root box, built from prefix "". It has children exactly when tile "1" exists, and they are named "1" to "4". |
| QuadTree.RootBoxOriented | main/java/MapServer.java:27-28 | The root box's upper-left corner is north-west of its lower-right corner. |
| QuadTree.TraverseDepth | main/java/QuadTree.java:99-116 | The result is the incoming list followed by the tiles the traversal takes (`Collect`). Entries already in the list are kept. |
| QuadTree.Traversable | main/java/QuadTree.java:100-114 | The traversal does not dereference a null child at lines 103-112. Either the node is taken, or it has four children and each child it descends into is traversable. It has no contract; `CollectComplete` and `RootTraversal` prove it for a built tree, and `GetMapRaster` gives `Err(NullPointer)` when it fails. |
| QuadTree.Collect | main/java/QuadTree.java:99-116 | The tiles the traversal appends: the node itself when it is taken, else the parts of its four children in order. It has no contract; `CollectSound`, `CollectComplete`, `CollectCovers` and `CollectNoDuplicates` state its properties. |
| QuadTree.ChildPart | main/java/QuadTree.java:103-114 | The contribution of one child: its traversal when it intersects the query, else nothing. It has no contract. |
| QuadTree.CollectSound | main/java/QuadTree.java:99-102 | Every appended tile has the target depth and intersects the query. In a quartered tree it lies inside the start node. |
| QuadTree.LevelInside | main/java/QuadTree.java:88-91 | Every node of a level of a quartered tree is an oriented box inside the root, at that depth. |
| QuadTree.CollectComplete | main/java/QuadTree.java:103-114 | In a tree complete to the target depth, the traversal cannot crash. It appends exactly the nodes of that depth that intersect the query, in child order 1 to 4. |
| QuadTree.CollectCovers | main/java/QuadTree.java:99-116 | In a tree complete to the target depth, every point common to the node and the query lies in some appended tile. |
| QuadTree.CoveringTile | main/java/QuadTree.java:99-116 | The tile that `CollectCovers` promises, found by following the quarter that holds the point. |
| QuadTree.LevelNamesUnder | main/java/QuadTree.java:80-95 | A node under child k of a node built with `prefix` is named `prefix`, then digit k, then more digits. |
| QuadTree.LevelDistinct | main/java/QuadTree.java:80-95 | The nodes of one level of a built tree have pairwise distinct file names. |
| QuadTree.CollectNoDuplicates | main/java/QuadTree.java:99-116 | In a built tree complete to the target depth, no tile is appended twice. |
| QuadTree.BuiltCompleteTo | main/java/QuadTree.java:84-96 | If the catalog has every first-child tile above the target depth, the built tree has four children at every node above that depth. |
| QuadTree.RootTraversal | main/java/MapServer.java:207-219 | With such a catalog, traversal from the root completes. It appends some tile exactly when the query meets the root box. |
| QuadTree.CompareTo | main/java/QuadTree.java:54-66 | The tile comparison returns -1 exactly when the tile is further north, or equally far north and further west. Otherwise it returns 1, never 0. |
| QuadTree.CompareToReverses | main/java/QuadTree.java:54-62 | Tiles with different upper-left corners compare in opposite directions. |
| QuadTree.CompareToEqualCorners | main/java/QuadTree.java:63-65 | Tiles with equal corners each compare after the other. |
| QuadTree.NotPrecedesTransitive | main/java/QuadTree.java:54-66 | "Not before" is transitive, so the order is a total preorder on corners. |
| Graph.Wrap32 | main/java/Node.java:57-61 | The `int` arithmetic of `hashCode` stays in the 32-bit range, is congruent to the exact value modulo 2^32, and is exact when no overflow occurs. |
| Graph.Node.constructor | main/java/Node.java:13-18 | A new node has the given id, latitude and longitude and an empty connection set. |
| Graph.Node.SetFn | main/java/Node.java:20-22 | `setFn` sets `fn` and changes nothing else. |
| Graph.Node.CompareTo | main/java/Node.java:24-30 | Returns -1 exactly when this node's `fn` is smaller, 1 exactly when it is not, and never 0. |
| Graph.Node.Equals | main/java/Node.java:42-53 | `equals` is true for the same reference and false for null. For another non-null node it holds exactly when id, latitude, longitude and connection set are all equal. |
| Graph.Node.HashCode | main/java/Node.java:56-62 | The hash is a 32-bit `int`. |
| Graph.CompareToSelf | main/java/Node.java:24-30 | A node compares greater than itself. |
| Graph.CompareToNotAntisymmetric | main/java/Node.java:27-28 | Two nodes of equal `fn` each compare greater than the other. |
| Graph.CompareToStrictOrder | main/java/Node.java:24-30 | The -1 relation is asymmetric and transitive. |
| Graph.EqualsEquivalence | main/java/Node.java:42-53 | `equals` is reflexive, symmetric and transitive. |
| Graph.EqualsSameHash | main/java/Node.java:56-62 | Nodes that are `equals` have equal `hashCode`. |
| Graph.EqualsIsIdentity | main/java/Node.java:42-53 | When ids are unique, `equals` is reference identity. |
| Raster.QueryDpp | main/java/MapServer.java:205-206 | The query's degrees per pixel are finite and non-negative exactly when the width is non-zero. |
| Raster.LoopDppAgrees | main/java/MapServer.java:209-212 | The loop's `tDPP` is the true tile resolution up to depth 22. At depth 23 the divisor wraps to -2^31 and `tDPP` turns negative. |
| Raster.TileDppDecreasing | main/java/MapServer.java:212 | Tile resolution strictly refines with depth. |
| Raster.LoopDivisor | main/java/MapServer.java:212 | `(int) Math.pow(2, d) * TILE_SIZE` in Java `int` arithmetic is a 32-bit value. `LoopDppAgrees` states where it is exact and where it wraps. |
| Raster.LoopDpp | main/java/MapServer.java:209-212 | `tDPP` after d iterations. It has no contract; `LoopDppAgrees` relates it to the true tile resolution. |
| Raster.LoopDepth | main/java/MapServer.java:210-214 | The loop, started at depth d, stops between d and 23. |
| Raster.RawDepth | main/java/MapServer.java:208-214 | The depth before clamping is at most 23. A non-finite resolution gives 0. |
| Raster.DepthFor | main/java/MapServer.java:215-217 | The clamped depth is at most 7. |
| Raster.SelectDepth | main/java/MapServer.java:208-217 | The depth loop and clamp compute `DepthFor`, which lies in [0, 7]. |
| Raster.DepthIsLeast | main/java/MapServer.java:209-214 | For a finite resolution, the loop stops at the least depth whose tile resolution is no coarser than the query's, or at 23 through overflow. |
| Raster.LoopDepthIsLeast | main/java/MapServer.java:210-214 | The same least-depth property for a loop resumed at any depth. |
| Raster.LoopDepthMonotone | main/java/MapServer.java:210-214 | A finer query resolution never stops the loop earlier. |
| Raster.DepthMonotoneInWidth | main/java/MapServer.java:205-217 | For a fixed query box, a wider viewport never selects a shallower depth. |
| Raster.ZeroSpanDepth | main/java/MapServer.java:205-217 | A query of zero span runs the loop to 23 through overflow and selects depth 7. |
| Raster.ZeroLoopDepth | main/java/MapServer.java:210-214 | With query resolution 0, the loop only stops at depth 23. |
| Raster.ZeroWidthDepth | main/java/MapServer.java:205-214 | A zero viewport width selects depth 0. |
| Raster.Insert | main/java/MapServer.java:220 | Inserting a tile adds exactly that tile to the multiset. |
| Raster.InsertSorted | main/java/MapServer.java:220 | Inserting into a sorted list keeps it sorted. |
| Raster.SortTiles | main/java/MapServer.java:220 | The sort returns a permutation of the tiles in reading order. |
| Raster.Row | main/java/MapServer.java:223-236 | The row of tile i: the number of strict latitude drops up to it. It has no contract; `RowColBounds`, `RowMonotone` and `RowIsLatitudes` state its properties. |
| Raster.Col | main/java/MapServer.java:223-236 | The place of tile i in its row, reset at each latitude drop. It has no contract; `RowColBounds` and `SameRowColumns` state its properties. |
| Raster.RowCount | main/java/MapServer.java:223-235 | `count4` after the loop: one more than the last tile's row, and 1 for no tiles. It has no contract; `RowCountIsLatitudes` states what it counts. |
| Raster.LastRowLength | main/java/MapServer.java:223-236 | `count3` after the loop: one more than the last tile's column, and 1 for no tiles. It has no contract; `CountRows` bounds it and `ReportedWidthMatchesImage` relates it to the reported width. |
| Raster.CountRows | main/java/MapServer.java:223-236 | `count4` is 1 plus the number of row breaks. `count3` is the length of the last row. Both are at least 1 and at most the tile count. |
| Raster.RowColBounds | main/java/MapServer.java:223-236 | A tile's row and column never exceed its index. |
| Raster.PlaceTiles | main/java/MapServer.java:239-257 | Tile i is drawn at x = 256 * column and y = 256 * row. `count1` is the tile count and `count2` the row count. |
| Raster.RowMonotone | main/java/MapServer.java:243-256 | Row indices never decrease along the list. |
| Raster.SameRowColumns | main/java/MapServer.java:243-256 | Within a row, columns go up by one per tile. |
| Raster.PlacementsDistinct | main/java/MapServer.java:243-256 | No two tiles are drawn at the same place. |
| Raster.RowCountIsLatitudes | main/java/MapServer.java:223-236 | For sorted tiles, the row count is the number of distinct top-edge latitudes. |
| Raster.RowIsLatitudes | main/java/MapServer.java:223-236 | For sorted tiles, the row of tile i plus one is the number of distinct latitudes among tiles 0..i. |
| Raster.NewRowNewLatitude | main/java/MapServer.java:226-229 | In sorted tiles, a tile that starts a row lies strictly south of every earlier tile. |
| Raster.GridRowCol | main/java/MapServer.java:239-257 | When all rows hold c tiles, tile i sits at row i / c and column i % c. |
| Raster.ReportedWidthMatchesImage | main/java/MapServer.java:235-259 | When all rows hold c tiles, the reported width `(count1 / count2) * 256` equals the image width `count3 * 256`. |
| Raster.RasterBox | main/java/MapServer.java:276-279 | For sorted tiles, the reported upper latitude is that of the first tile and bounds every tile's top edge. The last tile is southernmost. |
| Raster.FloorToInt | main/java/MapServer.java:269-272 | `(int) Math.floor(a / d)` is an `int`. It is the exact floor when that fits. A zero divisor gives the sign of `a`, or 0 for NaN. |
| Raster.ToPixel | main/java/MapServer.java:269-272 | A route position's pixel, each coordinate by `FloorToInt`. It has no contract; `PixelInRaster` states where it lands. |
| Raster.PixelInRaster | main/java/MapServer.java:269-272 | A position inside the raster box lands on a pixel between 0 and the raster width and height. |
| Raster.SegmentAt | main/java/MapServer.java:269-273 | One `drawLine`: from the pixel of route vertex i to the pixel of vertex i+1. It has no contract; `RouteSegments` and `PixelInRaster` state its properties. |
| Raster.RouteSegments | main/java/MapServer.java:266-274 | The overlay loop draws one line per consecutive pair of route positions, so `size - 1` lines, each ending where the next begins. |
| Routing.Weight | main/java/MapServer.java:344-345 | The length of an edge, `Math.sqrt` of the squared distance. It has no contract; `WeightFacts` states its properties. |
| Routing.Heuristic | main/java/MapServer.java:346 | The straight-line estimate from a node to the end node. It has no contract; `WeightFacts` states its properties. |
| Routing.WeightFacts | main/java/MapServer.java:344-346 | Edge lengths and estimates are non-negative, an edge has the same length both ways, and the estimate from a node to the end is the length of the straight edge between them. |
| Routing.SqDist | main/java/MapServer.java:312 | A squared distance is non-negative. |
| Routing.EarliestNearestUnique | main/java/MapServer.java:308-317 | At most one node is the earliest of the nearest. |
| Routing.Nearest | main/java/MapServer.java:308-317 | The scan returns null exactly for an empty graph. Otherwise it returns the earliest node of minimal distance, because the comparison is strict. |
| Routing.RelaxPreserves | main/java/MapServer.java:344-348 | A relaxation that strictly improves a node keeps the search tables consistent and never touches the start or the expanded node. |
| Routing.RelaxKeepsShape | main/java/MapServer.java:344-348 | A relaxation keeps the key-set discipline: the start at distance 0 without a predecessor, every other reached node with a finalized predecessor linked to it. |
| Routing.RelaxKeepsBound | main/java/MapServer.java:344-348 | Each recorded distance stays at least its predecessor's plus the edge length. |
| Routing.SuccessorsFarther | main/java/MapServer.java:344-348 | Because edge lengths are non-negative, a node whose predecessor is p is at least as far from the start as p. |
| Routing.RelaxKeepsDescent | main/java/MapServer.java:344-348 | Predecessor links keep descending, so `prev` stays acyclic. |
| Routing.RelaxKeepsRecord | main/java/MapServer.java:344-348 | Every reached node that is not finalized stays in the frontier. A changed entry has a strictly smaller distance and the expanded node as predecessor. |
| Routing.RelaxStep | main/java/MapServer.java:344-348 | One relaxation preserves the expansion invariant. |
| Routing.Relax | main/java/MapServer.java:344-349 | One connection is relaxed, as `Relaxed` states. A node that is unreached, or reached by a strictly longer way, gets distance `distan[v]` + edge, `prev` = `v` and one more frontier entry. Otherwise the tables and the frontier are unchanged. Every node's `fn` follows its entry. |
| Routing.Prioritize | main/java/MapServer.java:346 | `setFn` on the improved node gives it priority estimate + new distance. Every other node keeps its priority. |
| Routing.RelaxKeeps | main/java/MapServer.java:343-349 | A relaxation keeps the expansion invariant. It adds its connection to those whose target is reached no further than through `v`, and every rewritten entry holds the distance through `v`. |
| Routing.Expand | main/java/MapServer.java:343-351 | Expanding a finalized node `v` keeps the tables and the frontier consistent. Every neighbour ends at distance at most `distan[v]` + edge. Every entry that changed holds exactly `distan[v]` + edge and has `v` as predecessor; the others are unchanged. Each node's `fn` is its new priority if its entry changed, else its old `fn`. |
| Routing.Finalize | main/java/MapServer.java:339-342 | Finalizing a polled node keeps the tables and frontier consistent. |
| Routing.Skip | main/java/MapServer.java:336-338 | Skipping an already-visited polled node keeps the frontier consistent. |
| Routing.ExpandTracks | main/java/MapServer.java:346 | After an expansion, every node's `fn` still equals its heuristic plus distance if it was reached, or its value before the search otherwise. |
| Routing.Search | main/java/MapServer.java:328-352 | The search ends with consistent tables, either with the end node finalized or with every reached node finalized. Every finalized node except the end has all its neighbours reached. Every node with a predecessor has `fn` = heuristic plus distance. Every other node, the start included, keeps its old `fn`. The poll may take any queued node, so these facts hold whatever order the heap polls in. |
| Routing.BelowShrinks | main/java/MapServer.java:354-356 | Following `prev` strictly shrinks the set of nodes below, so the walk terminates. |
| Routing.Chain | main/java/MapServer.java:353-357 | The nodes the walk visits, starting at the given node. |
| Routing.IdsAt | main/java/MapServer.java:355-359 | The id list keeps each node's id in place. |
| Routing.WalkBack | main/java/MapServer.java:353-360 | The walk crashes exactly when it reaches a node without a predecessor, after prepending that node's id. Otherwise the route is the start's id followed by the chain read forwards. |
| Routing.ChainLinks | main/java/MapServer.java:354-357 | Consecutive walk nodes are linked by `prev`, none of them after the first is the start, and the walk stops where the loop does. |
| Routing.ChainIsPath | main/java/MapServer.java:353-359 | In consistent tables, the walk from a node with a predecessor ends at a node whose predecessor is the start. Read forwards from the start, it is a path of the graph. |
| Routing.ReachedAll | main/java/MapServer.java:334-352 | If the frontier empties before the end node is finalized, every node reachable from the start was reached. |
| Routing.SearchOutcome | main/java/MapServer.java:328-352 | After the search, the end node has a predecessor exactly when it differs from the start and a path leads to it. |
| MapServer.NodeWithId | main/java/MapServer.java:267-268 | `getConnected().get(id)` is non-null exactly when some node has that id, and then returns such a node. |
| MapServer.RoutePoints | main/java/MapServer.java:266-268 | Route positions exist exactly when every id is found, and they are the nodes' positions in route order. |
| MapServer.RasterWidth | main/java/MapServer.java:259 | For a non-empty tile list, the reported width is at least one tile. |
| MapServer.RasterHeight | main/java/MapServer.java:258 | The reported height is at least one tile. |
| MapServer.RequestDepth | main/java/MapServer.java:205-217 | A request's depth is at most 7. |
| MapServer.MapServer.constructor | main/java/MapServer.java:63-73 | A server over a well-formed graph and tile catalog starts with no route. |
| MapServer.MapServer.OverlayPoints | main/java/MapServer.java:262-268 | No route, or a route of fewer than two ids, draws nothing. Otherwise the result is the positions of the route's ids in order. It is None when some id is not in the graph: that is the null dereference at line 269, which `Draw` turns into `Err(NullPointer)`. |
| MapServer.MapServer.Draw | main/java/MapServer.java:221-289 | No tiles throws IndexOutOfBounds. A missing tile image gives the empty map. Otherwise a missing route node throws NullPointer, and else the raster reports the tiles' box, width, height and depth, lays tiles out by row and column, and draws the route. |
| MapServer.MapServer.DrawRoute | main/java/MapServer.java:262-275 | The overlay lines join consecutive route positions, scaled by the raster's corner and degrees per pixel. |
| MapServer.MapServer.GetMapRaster | main/java/MapServer.java:204-290 | The outcomes are checked in the source's order. The call crashes with NullPointer exactly when the traversal reaches a missing child. Otherwise it crashes with IndexOutOfBounds exactly when the tile list is empty. Otherwise it returns the empty map exactly when a tile image is missing. Otherwise it crashes with NullPointer exactly when a route node is missing. Otherwise the raster holds the collected tiles sorted in reading order, at a depth of at most 7, laid out and overlaid as `Draw` states. |
| MapServer.MapServer.KnownRouteDraws | main/java/MapServer.java:262-268 | A route left by `findAndSetRoute` never makes the overlay dereference null, and draws between all its nodes. |
| MapServer.MapServer.ClearRoute | main/java/MapServer.java:366-368 | The route becomes null and the server stays well formed. |
| MapServer.MapServer.FindAndSetRoute | main/java/MapServer.java:302-361 | For a non-empty graph, earliest nearest nodes s and e to the two positions exist. Take s and e as those nodes. The call succeeds exactly when s differs from e and the graph has a path from s to e. It then returns, and stores as `route`, the ids of such a path. Otherwise it throws NullPointer, leaving `route` as `[]` for an empty graph and `[e's id]` otherwise. |
| MapServer.MapServer.SearchAndWalk | main/java/MapServer.java:328-360 | Search plus walk: no crash exactly when a path from start to end exists and start differs from end. The list is then a path's ids; after a crash it is `[end id]`. Every id names a graph node. |
| MapServer.MapServer.RouteFacts | main/java/MapServer.java:328-360 | The same facts, derived from what `Search` and `WalkBack` guarantee. |

## Left out

- The HTTP layer is not modelled: Spark routes, parameter parsing and validation, JSON and Base64 encoding (`MapServer.java:75-167`). It is input/output plumbing.
- The image work is not modelled: allocating the buffer, reading each tile image, drawing tiles and lines, stroke and colour, and writing the PNG. The model keeps the image size, each tile's placement and the list of overlay lines. An `IOException` from `ImageIO.write` is not modelled.
- `File.exists` and `ImageIO.read` are replaced by membership in the `catalog` set. The same set answers both, so the tree and the tile reads agree on which images exist.
- Graph loading (`GraphDB`, the OSM file) is not modelled. The graph is given as a sequence of nodes in `getConnected()` iteration order, plus their connection sets.
- `Connections` is not part of this model. A connection is represented by its target node.
- `getLocationsByPrefix` and `getLocations` are not modelled, because they only return empty lists.
- Floating point is modelled with exact reals:
  - `Math.sqrt` is a parameter that is non-negative on non-negative input;
  - the nearest-node scans compare squared distances, which order nodes the same way;
  - rounding, `Double.MAX_VALUE` as a start value, and NaN or infinities are not modelled, except in `Raster.FloorToInt` and the zero-width depth case.
- `Graph.Node.HashCode`: the `hashCode` of `Long`, `Double` and `HashSet` are parameters, so only the 32-bit fold is modelled.
- The `PriorityQueue` is modelled as a multiset, and `poll` may return any queued node. The heap layout is not modelled. When `setFn` changes a queued node's priority in place, the heap can be left out of order. The source can then poll a node that is not least. For example, a node lowered below the head is re-added under its own stale entry and is not polled first. So the search's facts are proved for every poll order.
- Iteration over `HashSet` connections is an arbitrary order. Iteration over `getConnected()` is the order of the `nodes` sequence.
- `Collections.sort` is modelled by a stable insertion sort. When the tiles have pairwise distinct upper-left corners, this is the one sorted order, so it is the list Java's sort returns. For tiles with equal corners the tile comparison returns 1 both ways, and Java's sort may order them differently or throw. The model does not prove that the tiles of one level have distinct corners.
- MapServer.MapServer.FindAndSetRoute: does not state that the stored route is the shortest one, although its documentation (MapServer.java:293) promises that. The source cannot guarantee it: because priorities are rewritten in place, `poll` can return a node that is not least, as the `PriorityQueue` line above says. The contract states only that the route is the ids of some graph path from s to e.
- `Routing.Search`: does not state that the route is a shortest path. The source gives no such guarantee once queued priorities are rewritten in place. The model proves only that the route follows the graph from the start node to the end node.
- `MapServer.MapServer.GetMapRaster`: the request's height `h` is not read by the source, so it has no effect.
- Concurrent requests sharing the static `route` are not modelled.

