/**
 * The quad-tree tile index of QuadTree.java.
 *
 * A node is a value: the tree is built once by `CompleteQTree` and is never
 * changed afterwards. Whether a tile image exists on disk is membership of its
 * digit-path id in a finite `catalog` of ids.
 */
module QuadTree {

  /** The bounding box of the root tile (MapServer.ROOT_ULLAT and friends). */
  const ROOT_ULLAT: real := 37.892195547244356
  const ROOT_ULLON: real := -122.2998046875
  const ROOT_LRLAT: real := 37.82280243352756
  const ROOT_LRLON: real := -122.2119140625

  /** An axis-aligned box given by its upper-left and lower-right corners. */
  datatype Box = Box(ullat: real, ullon: real, lrlat: real, lrlon: real)

  const RootBox: Box := Box(ROOT_ULLAT, ROOT_ULLON, ROOT_LRLAT, ROOT_LRLON)

  /**
   * QTreeNode: the tile's file name, its extent, its depth and its children
   * (`child1` .. `child4` in this order, or none).
   */
  datatype QTreeNode = QTreeNode(fileName: string, box: Box, depth: nat, children: seq<QTreeNode>)

  /** North is up and west is left: the upper-left corner really is upper and left. */
  predicate Oriented(b: Box) {
    b.lrlat <= b.ullat && b.ullon <= b.lrlon
  }

  /** The closed box contains the point. */
  predicate Contains(b: Box, lat: real, lon: real) {
    b.lrlat <= lat <= b.ullat && b.ullon <= lon <= b.lrlon
  }

  /** The point lies strictly inside the box, off its edges. */
  predicate InInterior(b: Box, lat: real, lon: real) {
    b.lrlat < lat < b.ullat && b.ullon < lon < b.lrlon
  }

  /** Box `inner` lies within box `outer`. */
  predicate Inside(inner: Box, outer: Box) {
    outer.lrlat <= inner.lrlat && inner.ullat <= outer.ullat &&
    outer.ullon <= inner.ullon && inner.lrlon <= outer.lrlon
  }

  /** QTreeNode.satisfiesDepth. */
  predicate SatisfiesDepth(n: QTreeNode, depth: nat) {
    n.depth == depth
  }

  /**
   * QTreeNode.intersectsTile: the query box is not entirely east, west,
   * south or north of the tile.
   */
  predicate IntersectsTile(tile: Box, query: Box) {
    !(query.ullon > tile.lrlon ||
      query.lrlon < tile.ullon ||
      query.ullat < tile.lrlat ||
      query.lrlat > tile.ullat)
  }

  /** Two oriented boxes intersect exactly when they have a point in common, edges included. */
  lemma IntersectsIffCommonPoint(tile: Box, query: Box)
    requires Oriented(tile) && Oriented(query)
    ensures IntersectsTile(tile, query) <==>
            exists lat: real, lon: real :: Contains(tile, lat, lon) && Contains(query, lat, lon)
  {
    if IntersectsTile(tile, query) {
      var lat := if tile.lrlat < query.lrlat then query.lrlat else tile.lrlat;
      var lon := if tile.ullon < query.ullon then query.ullon else tile.ullon;
      assert Contains(tile, lat, lon) && Contains(query, lat, lon);
    }
  }

  /** A box that intersects the query keeps doing so when it is enlarged. */
  lemma IntersectsEnlarged(inner: Box, outer: Box, query: Box)
    requires Inside(inner, outer) && IntersectsTile(inner, query)
    ensures IntersectsTile(outer, query)
  {
  }

  /** The digit of child `k`: '1' .. '4'. */
  function Digit(k: nat): char
    requires 1 <= k <= 4
  {
    "1234"[k - 1]
  }

  /**
   * The extent of child `k` of a node with extent `b`, cut at the midpoints:
   * 1 top-left, 2 top-right, 3 bottom-left, 4 bottom-right.
   */
  function Quarter(b: Box, k: nat): Box
    requires 1 <= k <= 4
  {
    var midLat := (b.ullat + b.lrlat) / 2.0;
    var midLon := (b.ullon + b.lrlon) / 2.0;
    if k == 1 then Box(b.ullat, b.ullon, midLat, midLon)
    else if k == 2 then Box(b.ullat, midLon, midLat, b.lrlon)
    else if k == 3 then Box(midLat, b.ullon, b.lrlat, midLon)
    else Box(midLat, midLon, b.lrlat, b.lrlon)
  }

  /** Each quarter of an oriented box is oriented and lies within it. */
  lemma QuarterInside(b: Box, k: nat)
    requires Oriented(b) && 1 <= k <= 4
    ensures Oriented(Quarter(b, k)) && Inside(Quarter(b, k), b)
  {
  }

  /** The four quarters cover the box: every point of it lies in some quarter. */
  lemma QuarterCovers(b: Box, lat: real, lon: real) returns (k: nat)
    requires Contains(b, lat, lon)
    ensures 1 <= k <= 4 && Contains(Quarter(b, k), lat, lon)
  {
    var midLat := (b.ullat + b.lrlat) / 2.0;
    var midLon := (b.ullon + b.lrlon) / 2.0;
    if lat >= midLat {
      k := if lon <= midLon then 1 else 2;
    } else {
      k := if lon <= midLon then 3 else 4;
    }
  }

  /** Distinct quarters share at most an edge: no point is interior to two of them. */
  lemma QuartersMeetOnlyAtEdges(b: Box, k: nat, l: nat, lat: real, lon: real)
    requires 1 <= k <= 4 && 1 <= l <= 4 && k != l
    ensures !(InInterior(Quarter(b, k), lat, lon) && InInterior(Quarter(b, l), lat, lon))
  {
  }

  /** A fresh node for child `k` of `n`, named by the prefix plus the digit. */
  function ChildOf(n: QTreeNode, prefix: string, k: nat): QTreeNode
    requires 1 <= k <= 4
  {
    QTreeNode(prefix + [Digit(k)], Quarter(n.box, k), n.depth + 1, [])
  }

  /** The ids of the catalog that are longer than `len` characters. */
  function LongerIds(catalog: set<string>, len: nat): set<string> {
    set id | id in catalog && |id| > len
  }

  /**
   * completeQTree(n, prefix): when the tile `prefix + "1"` exists, give `n` its
   * four children, each completed in turn with its own name as the new prefix;
   * otherwise leave `n` as it is. The recursion ends because every level needs
   * a longer id from the finite catalog.
   */
  function CompleteQTree(n: QTreeNode, prefix: string, catalog: set<string>): (r: QTreeNode)
    ensures r.fileName == n.fileName && r.box == n.box && r.depth == n.depth
    decreases LongerIds(catalog, |prefix|)
  {
    if prefix + "1" !in catalog then n
    else
      assert prefix + "1" in LongerIds(catalog, |prefix|) - LongerIds(catalog, |prefix| + 1);
      n.(children := [
        CompleteQTree(ChildOf(n, prefix, 1), prefix + "1", catalog),
        CompleteQTree(ChildOf(n, prefix, 2), prefix + "2", catalog),
        CompleteQTree(ChildOf(n, prefix, 3), prefix + "3", catalog),
        CompleteQTree(ChildOf(n, prefix, 4), prefix + "4", catalog)])
  }

  /** The QuadTree constructor: a root named "root" over the root box, completed from prefix "". */
  function NewQuadTree(catalog: set<string>): (root: QTreeNode)
    ensures root.fileName == "root" && root.box == RootBox && root.depth == 0
  {
    CompleteQTree(QTreeNode("root", RootBox, 0, []), "", catalog)
  }

  /**
   * Every node has zero or four children; child k has extent Quarter(parent, k)
   * and depth one more than its parent.
   */
  predicate Quartered(n: QTreeNode)
    decreases n
  {
    && (|n.children| == 0 || |n.children| == 4)
    && forall k | 0 <= k < |n.children| ::
         && n.children[k].box == Quarter(n.box, k + 1)
         && n.children[k].depth == n.depth + 1
         && Quartered(n.children[k])
  }

  /**
   * The naming and existence discipline of completeQTree below a node that was
   * completed with `prefix`: it has children exactly when tile `prefix + "1"`
   * exists, child k is named `prefix` plus digit k, and each child was completed
   * with its own name as prefix.
   */
  predicate Built(n: QTreeNode, prefix: string, catalog: set<string>)
    decreases n
  {
    && (|n.children| == 4 <==> prefix + "1" in catalog)
    && (|n.children| == 0 <==> prefix + "1" !in catalog)
    && forall k | 0 <= k < |n.children| ::
         && n.children[k].fileName == prefix + [Digit(k + 1)]
         && Built(n.children[k], n.children[k].fileName, catalog)
  }

  /** Completing a leaf yields a quartered tree built by the naming discipline, rooted at the same node. */
  lemma {:induction false} CompleteQTreeShape(n: QTreeNode, prefix: string, catalog: set<string>)
    requires n.children == []
    ensures var r := CompleteQTree(n, prefix, catalog);
      && r.fileName == n.fileName && r.box == n.box && r.depth == n.depth
      && Quartered(r) && Built(r, prefix, catalog)
    decreases LongerIds(catalog, |prefix|)
  {
    if prefix + "1" in catalog {
      assert prefix + "1" in LongerIds(catalog, |prefix|) - LongerIds(catalog, |prefix| + 1);
      var r := CompleteQTree(n, prefix, catalog);
      forall k | 0 <= k < 4
        ensures r.children[k].box == Quarter(n.box, k + 1)
        ensures r.children[k].depth == n.depth + 1
        ensures Quartered(r.children[k])
        ensures r.children[k].fileName == prefix + [Digit(k + 1)]
        ensures Built(r.children[k], r.children[k].fileName, catalog)
      {
        var name := prefix + [Digit(k + 1)];
        assert name == prefix + "1" || name == prefix + "2" || name == prefix + "3" || name == prefix + "4";
        CompleteQTreeShape(ChildOf(n, prefix, k + 1), name, catalog);
      }
    }
  }

  /** The tree the QuadTree constructor builds: root "root" at depth 0 over the root box, children "1" .. "4". */
  lemma NewQuadTreeShape(catalog: set<string>)
    ensures var root := NewQuadTree(catalog);
      && root.fileName == "root" && root.box == RootBox && root.depth == 0
      && Quartered(root) && Built(root, "", catalog)
      && (|root.children| == 4 <==> "1" in catalog)
      && forall k | 0 <= k < |root.children| :: root.children[k].fileName == [Digit(k + 1)]
  {
    assert "" + "1" == "1";
    CompleteQTreeShape(QTreeNode("root", RootBox, 0, []), "", catalog);
  }

  /** The root box is oriented. */
  lemma RootBoxOriented()
    ensures Oriented(RootBox)
  {
  }

  // ---------------------------------------------------------------------------
  // traverseDepth
  // ---------------------------------------------------------------------------

  /**
   * The calls traverseDepth(n, depth, query) that complete: the node is taken,
   * or it has all four children (traverseDepth reads child1 .. child4 of every
   * node it does not take, which throws at a leaf) and every child that
   * intersects the query can be traversed in turn.
   */
  predicate Traversable(n: QTreeNode, depth: nat, query: Box)
    decreases n
  {
    || (SatisfiesDepth(n, depth) && IntersectsTile(n.box, query))
    || (&& |n.children| == 4
        && forall k | 0 <= k < 4 ::
             IntersectsTile(n.children[k].box, query) ==> Traversable(n.children[k], depth, query))
  }

  /** The tiles traverseDepth appends, in the order it appends them. */
  function Collect(n: QTreeNode, depth: nat, query: Box): seq<QTreeNode>
    requires Traversable(n, depth, query)
    decreases n, 1
  {
    if SatisfiesDepth(n, depth) && IntersectsTile(n.box, query) then [n]
    else ChildPart(n, 0, depth, query) + ChildPart(n, 1, depth, query) +
         ChildPart(n, 2, depth, query) + ChildPart(n, 3, depth, query)
  }

  /** What the visit of child k + 1 of a node that is not taken contributes. */
  function ChildPart(n: QTreeNode, k: nat, depth: nat, query: Box): seq<QTreeNode>
    requires k < 4 && |n.children| == 4
    requires IntersectsTile(n.children[k].box, query) ==> Traversable(n.children[k], depth, query)
    decreases n, 0
  {
    if IntersectsTile(n.children[k].box, query) then Collect(n.children[k], depth, query) else []
  }

  /**
   * traverseDepth: appends to the `tiles` list every node it takes, keeping
   * what the list already held.
   */
  method TraverseDepth(n: QTreeNode, depth: nat, query: Box, tiles: seq<QTreeNode>)
    returns (result: seq<QTreeNode>)
    requires Traversable(n, depth, query)
    ensures result == tiles + Collect(n, depth, query)
    decreases n
  {
    if SatisfiesDepth(n, depth) && IntersectsTile(n.box, query) {
      result := tiles + [n];
    } else {
      var c := n.children;
      assert |c| == 4 && forall k | 0 <= k < 4 :: IntersectsTile(c[k].box, query) ==> Traversable(c[k], depth, query);
      var r0, r1, r2, r3 := tiles, tiles, tiles, tiles;
      if IntersectsTile(c[0].box, query) {
        r0 := TraverseDepth(c[0], depth, query, tiles);
      }
      assert r0 == tiles + ChildPart(n, 0, depth, query);
      r1 := r0;
      if IntersectsTile(c[1].box, query) {
        r1 := TraverseDepth(c[1], depth, query, r0);
      }
      assert r1 == r0 + ChildPart(n, 1, depth, query);
      r2 := r1;
      if IntersectsTile(c[2].box, query) {
        r2 := TraverseDepth(c[2], depth, query, r1);
      }
      assert r2 == r1 + ChildPart(n, 2, depth, query);
      r3 := r2;
      if IntersectsTile(c[3].box, query) {
        r3 := TraverseDepth(c[3], depth, query, r2);
      }
      assert r3 == r2 + ChildPart(n, 3, depth, query);
      var p0, p1, p2, p3 := ChildPart(n, 0, depth, query), ChildPart(n, 1, depth, query),
                            ChildPart(n, 2, depth, query), ChildPart(n, 3, depth, query);
      assert Collect(n, depth, query) == p0 + p1 + p2 + p3;
      calc {
        r3;
        tiles + p0 + p1 + p2 + p3;
        { AppendAssoc(tiles, p0, p1, p2, p3); }
        tiles + (p0 + p1 + p2 + p3);
      }
      result := r3;
    }
  }

  lemma AppendAssoc<T>(a: seq<T>, b: seq<T>, c: seq<T>, d: seq<T>, e: seq<T>)
    ensures a + b + c + d + e == a + (b + c + d + e)
  {
  }

  /**
   * Every tile traverseDepth appends has the target depth and intersects the
   * query; in a quartered tree over an oriented box it also lies within the
   * node the traversal started from.
   */
  lemma {:induction false} CollectSound(n: QTreeNode, depth: nat, query: Box)
    requires Traversable(n, depth, query)
    ensures forall t | t in Collect(n, depth, query) ::
      && t.depth == depth && IntersectsTile(t.box, query)
      && (Quartered(n) && Oriented(n.box) ==> Inside(t.box, n.box))
    decreases n
  {
    if !(SatisfiesDepth(n, depth) && IntersectsTile(n.box, query)) {
      var c := n.children;
      forall k | 0 <= k < 4 && IntersectsTile(c[k].box, query)
        ensures forall t | t in Collect(c[k], depth, query) ::
          && t.depth == depth && IntersectsTile(t.box, query)
          && (Quartered(n) && Oriented(n.box) ==> Inside(t.box, n.box))
      {
        CollectSound(c[k], depth, query);
        if Quartered(n) && Oriented(n.box) {
          QuarterInside(n.box, k + 1);
        }
      }
    }
  }

  /** Every node of depth below `depth` has its four children. */
  predicate CompleteTo(n: QTreeNode, depth: nat)
    decreases n
  {
    n.depth < depth ==>
      && |n.children| == 4
      && forall k | 0 <= k < 4 :: CompleteTo(n.children[k], depth)
  }

  /** The nodes at depth `depth` below `n`, children visited in order 1 to 4. */
  function Level(n: QTreeNode, depth: nat): seq<QTreeNode>
    decreases n
  {
    if n.depth == depth then [n]
    else if n.depth > depth || |n.children| != 4 then []
    else
      var c := n.children;
      Level(c[0], depth) + Level(c[1], depth) + Level(c[2], depth) + Level(c[3], depth)
  }

  /** The tiles of `s` that intersect the query, in order. */
  function Intersecting(s: seq<QTreeNode>, query: Box): seq<QTreeNode> {
    if s == [] then []
    else (if IntersectsTile(s[0].box, query) then [s[0]] else []) + Intersecting(s[1..], query)
  }

  lemma {:induction false} IntersectingConcat(a: seq<QTreeNode>, b: seq<QTreeNode>, query: Box)
    ensures Intersecting(a + b, query) == Intersecting(a, query) + Intersecting(b, query)
  {
    if a == [] {
      assert a + b == b;
    } else {
      assert (a + b)[0] == a[0] && (a + b)[1..] == a[1..] + b;
      IntersectingConcat(a[1..], b, query);
      var head := if IntersectsTile(a[0].box, query) then [a[0]] else [];
      calc {
        Intersecting(a + b, query);
        head + Intersecting(a[1..] + b, query);
        head + (Intersecting(a[1..], query) + Intersecting(b, query));
        (head + Intersecting(a[1..], query)) + Intersecting(b, query);
      }
    }
  }

  lemma {:induction false} IntersectingNone(s: seq<QTreeNode>, query: Box)
    requires forall t | t in s :: !IntersectsTile(t.box, query)
    ensures Intersecting(s, query) == []
  {
    if s != [] {
      IntersectingNone(s[1..], query);
    }
  }

  lemma {:induction false} IntersectingSubset(s: seq<QTreeNode>, query: Box)
    ensures forall t | t in Intersecting(s, query) :: t in s
  {
    if s != [] {
      IntersectingSubset(s[1..], query);
    }
  }

  /** In a quartered tree over an oriented box, every node of a level is an oriented box within the root. */
  lemma {:induction false} LevelInside(n: QTreeNode, depth: nat)
    requires Quartered(n) && Oriented(n.box)
    ensures forall t | t in Level(n, depth) :: t.depth == depth && Oriented(t.box) && Inside(t.box, n.box)
    decreases n
  {
    if n.depth < depth && |n.children| == 4 {
      forall k | 0 <= k < 4
        ensures forall t | t in Level(n.children[k], depth) ::
          t.depth == depth && Oriented(t.box) && Inside(t.box, n.box)
      {
        QuarterInside(n.box, k + 1);
        LevelInside(n.children[k], depth);
      }
    }
  }

  /**
   * When the tree is complete down to the target depth, traverseDepth appends
   * exactly the nodes of that depth that intersect the query, in the order
   * child1 to child4 at every level: pruning a child that misses the query
   * loses nothing, since everything below it lies within it.
   */
  lemma {:induction false} CollectComplete(n: QTreeNode, depth: nat, query: Box)
    requires Quartered(n) && Oriented(n.box) && CompleteTo(n, depth) && n.depth <= depth
    requires n.depth < depth || IntersectsTile(n.box, query)
    ensures Traversable(n, depth, query)
    ensures Collect(n, depth, query) == Intersecting(Level(n, depth), query)
    decreases n
  {
    if n.depth == depth {
      assert Intersecting([n], query) == [n] + Intersecting([], query);
    } else {
      var c := n.children;
      forall k | 0 <= k < 4
        ensures IntersectsTile(c[k].box, query) ==>
          Traversable(c[k], depth, query) && Collect(c[k], depth, query) == Intersecting(Level(c[k], depth), query)
        ensures !IntersectsTile(c[k].box, query) ==> Intersecting(Level(c[k], depth), query) == []
      {
        QuarterInside(n.box, k + 1);
        if IntersectsTile(c[k].box, query) {
          CollectComplete(c[k], depth, query);
        } else {
          LevelInside(c[k], depth);
          forall t | t in Level(c[k], depth) ensures !IntersectsTile(t.box, query) {
            if IntersectsTile(t.box, query) {
              IntersectsEnlarged(t.box, c[k].box, query);
            }
          }
          IntersectingNone(Level(c[k], depth), query);
        }
      }
      assert Traversable(n, depth, query);
      var l0, l1, l2, l3 := Level(c[0], depth), Level(c[1], depth), Level(c[2], depth), Level(c[3], depth);
      IntersectingConcat(l0 + l1 + l2, l3, query);
      IntersectingConcat(l0 + l1, l2, query);
      IntersectingConcat(l0, l1, query);
    }
  }

  /**
   * Coverage: in a tree complete down to the target depth, every point shared
   * by the node's box and the query lies in some tile traverseDepth appends.
   */
  lemma {:induction false} CollectCovers(n: QTreeNode, depth: nat, query: Box, lat: real, lon: real)
    requires Quartered(n) && Oriented(n.box) && CompleteTo(n, depth) && n.depth <= depth
    requires Contains(n.box, lat, lon) && Contains(query, lat, lon)
    ensures Traversable(n, depth, query)
    ensures exists t :: t in Collect(n, depth, query) && Contains(t.box, lat, lon)
    decreases n
  {
    CollectComplete(n, depth, query);
    var t := CoveringTile(n, depth, query, lat, lon);
  }

  /** The tile of CollectCovers, found by following the quarter that holds the point. */
  lemma {:induction false} CoveringTile(n: QTreeNode, depth: nat, query: Box, lat: real, lon: real)
    returns (t: QTreeNode)
    requires Quartered(n) && Oriented(n.box) && CompleteTo(n, depth) && n.depth <= depth
    requires Contains(n.box, lat, lon) && Contains(query, lat, lon)
    requires Traversable(n, depth, query)
    ensures t in Collect(n, depth, query) && Contains(t.box, lat, lon)
    decreases n
  {
    if n.depth == depth {
      t := n;
    } else {
      var k := QuarterCovers(n.box, lat, lon);
      var child := n.children[k - 1];
      QuarterInside(n.box, k);
      assert IntersectsTile(child.box, query);
      CollectComplete(child, depth, query);
      t := CoveringTile(child, depth, query, lat, lon);
      assert t in ChildPart(n, k - 1, depth, query);
      assert Collect(n, depth, query) == ChildPart(n, 0, depth, query) + ChildPart(n, 1, depth, query) +
                                         ChildPart(n, 2, depth, query) + ChildPart(n, 3, depth, query);
    }
  }

  /** No two tiles of the sequence share a file name. */
  predicate DistinctNames(s: seq<QTreeNode>) {
    forall i, j | 0 <= i < j < |s| :: s[i].fileName != s[j].fileName
  }

  lemma DistinctConcat(a: seq<QTreeNode>, b: seq<QTreeNode>)
    requires DistinctNames(a) && DistinctNames(b)
    requires forall x, y | x in a && y in b :: x.fileName != y.fileName
    ensures DistinctNames(a + b)
  {
    forall i, j | 0 <= i < j < |a + b| ensures (a + b)[i].fileName != (a + b)[j].fileName {
      if j < |a| {
      } else if i >= |a| {
        assert (a + b)[i] == b[i - |a|] && (a + b)[j] == b[j - |a|];
      } else {
        assert (a + b)[i] in a && (a + b)[j] in b;
      }
    }
  }

  lemma DigitsDiffer(k: nat, j: nat)
    requires 1 <= k <= 4 && 1 <= j <= 4 && k != j
    ensures Digit(k) != Digit(j)
  {
    assert "1234"[0] == '1' && "1234"[1] == '2' && "1234"[2] == '3' && "1234"[3] == '4';
  }

  /**
   * Below a node built with `prefix`, every node of a deeper level that lies
   * under child k is named `prefix`, then digit k, then more digits.
   */
  lemma {:induction false} LevelNamesUnder(n: QTreeNode, prefix: string, catalog: set<string>, depth: nat)
    requires Quartered(n) && Built(n, prefix, catalog)
    ensures forall k, t | 0 <= k < |n.children| && t in Level(n.children[k], depth) ::
      |prefix| < |t.fileName| && t.fileName[..|prefix| + 1] == prefix + [Digit(k + 1)]
    decreases n
  {
    forall k, t | 0 <= k < |n.children| && t in Level(n.children[k], depth)
      ensures |prefix| < |t.fileName| && t.fileName[..|prefix| + 1] == prefix + [Digit(k + 1)]
    {
      var c := n.children[k];
      var name := prefix + [Digit(k + 1)];
      assert c.fileName == name;
      if t != c {
        assert c.depth < depth && |c.children| == 4;
        LevelNamesUnder(c, name, catalog, depth);
        var l := Level(c, depth);
        assert l == Level(c.children[0], depth) + Level(c.children[1], depth) +
                    Level(c.children[2], depth) + Level(c.children[3], depth);
        var j :| 0 <= j < 4 && t in Level(c.children[j], depth);
        assert t.fileName[..|name| + 1] == name + [Digit(j + 1)];
        assert t.fileName[..|prefix| + 1] == (t.fileName[..|name| + 1])[..|prefix| + 1];
      }
    }
  }

  /** Nodes of one level that lie under two different children of `n` have different names. */
  lemma ChildLevelsApart(n: QTreeNode, prefix: string, catalog: set<string>, depth: nat, k: nat, j: nat)
    requires Quartered(n) && Built(n, prefix, catalog)
    requires k < |n.children| && j < |n.children| && k != j
    ensures forall x, y | x in Level(n.children[k], depth) && y in Level(n.children[j], depth) ::
      x.fileName != y.fileName
  {
    LevelNamesUnder(n, prefix, catalog, depth);
    forall x, y | x in Level(n.children[k], depth) && y in Level(n.children[j], depth)
      ensures x.fileName != y.fileName
    {
      assert x.fileName[..|prefix| + 1][|prefix|] == Digit(k + 1);
      assert y.fileName[..|prefix| + 1][|prefix|] == Digit(j + 1);
      DigitsDiffer(k + 1, j + 1);
    }
  }

  /** The nodes of one level of a tree built by completeQTree have pairwise distinct names. */
  lemma {:induction false} LevelDistinct(n: QTreeNode, prefix: string, catalog: set<string>, depth: nat)
    requires Quartered(n) && Built(n, prefix, catalog)
    ensures DistinctNames(Level(n, depth))
    decreases n
  {
    if n.depth < depth && |n.children| == 4 {
      var c := n.children;
      var l0, l1, l2, l3 := Level(c[0], depth), Level(c[1], depth), Level(c[2], depth), Level(c[3], depth);
      assert Level(n, depth) == l0 + l1 + l2 + l3;
      LevelDistinct(c[0], c[0].fileName, catalog, depth);
      LevelDistinct(c[1], c[1].fileName, catalog, depth);
      LevelDistinct(c[2], c[2].fileName, catalog, depth);
      LevelDistinct(c[3], c[3].fileName, catalog, depth);
      ChildLevelsApart(n, prefix, catalog, depth, 0, 1);
      ChildLevelsApart(n, prefix, catalog, depth, 0, 2);
      ChildLevelsApart(n, prefix, catalog, depth, 1, 2);
      ChildLevelsApart(n, prefix, catalog, depth, 0, 3);
      ChildLevelsApart(n, prefix, catalog, depth, 1, 3);
      ChildLevelsApart(n, prefix, catalog, depth, 2, 3);
      DistinctConcat(l0, l1);
      DistinctConcat(l0 + l1, l2);
      DistinctConcat(l0 + l1 + l2, l3);
    }
  }

  lemma {:induction false} IntersectingDistinct(s: seq<QTreeNode>, query: Box)
    requires DistinctNames(s)
    ensures DistinctNames(Intersecting(s, query))
  {
    if s != [] {
      IntersectingDistinct(s[1..], query);
      IntersectingSubset(s[1..], query);
      var head := if IntersectsTile(s[0].box, query) then [s[0]] else [];
      forall x, y | x in head && y in Intersecting(s[1..], query) ensures x.fileName != y.fileName {
        var j :| 0 <= j < |s[1..]| && s[1..][j] == y;
        assert s[0] == s[0] && y == s[j + 1];
      }
      DistinctConcat(head, Intersecting(s[1..], query));
    }
  }

  /**
   * Exactly once: in a tree built by completeQTree and complete down to the
   * target depth, traverseDepth never appends the same tile twice.
   */
  lemma CollectNoDuplicates(n: QTreeNode, prefix: string, catalog: set<string>, depth: nat, query: Box)
    requires Quartered(n) && Built(n, prefix, catalog) && Oriented(n.box)
    requires CompleteTo(n, depth) && n.depth <= depth
    requires n.depth < depth || IntersectsTile(n.box, query)
    ensures Traversable(n, depth, query) && DistinctNames(Collect(n, depth, query))
  {
    CollectComplete(n, depth, query);
    LevelDistinct(n, prefix, catalog, depth);
    IntersectingDistinct(Level(n, depth), query);
  }

  /** A digit-path id: every character is one of '1' .. '4'. */
  predicate IsPath(s: string) {
    forall i | 0 <= i < |s| :: s[i] in "1234"
  }

  /** The catalog holds the first child tile of every path shorter than `depth`. */
  ghost predicate CatalogComplete(catalog: set<string>, depth: nat) {
    forall s: string | IsPath(s) && |s| < depth :: s + "1" in catalog
  }

  lemma {:induction false} BuiltCompleteTo(n: QTreeNode, prefix: string, catalog: set<string>, depth: nat)
    requires Quartered(n) && Built(n, prefix, catalog) && IsPath(prefix) && n.depth == |prefix|
    requires CatalogComplete(catalog, depth)
    ensures CompleteTo(n, depth)
    decreases n
  {
    if n.depth < depth {
      assert prefix + "1" in catalog;
      forall k | 0 <= k < 4 ensures CompleteTo(n.children[k], depth) {
        var c := n.children[k];
        assert Digit(k + 1) in "1234";
        assert IsPath(c.fileName);
        BuiltCompleteTo(c, c.fileName, catalog, depth);
      }
    }
  }

  /**
   * With a catalog that has every tile down to the target depth, traverseDepth
   * from the root of the QuadTree completes, and it appends at least one tile
   * exactly when the (oriented) query box meets the root box.
   */
  lemma RootTraversal(catalog: set<string>, depth: nat, query: Box)
    requires CatalogComplete(catalog, depth) && Oriented(query)
    requires depth > 0 || IntersectsTile(RootBox, query)
    ensures var root := NewQuadTree(catalog);
      && CompleteTo(root, depth) && Traversable(root, depth, query)
      && (|Collect(root, depth, query)| > 0 <==> IntersectsTile(RootBox, query))
  {
    var root := NewQuadTree(catalog);
    NewQuadTreeShape(catalog);
    RootBoxOriented();
    BuiltCompleteTo(root, "", catalog, depth);
    CollectComplete(root, depth, query);
    CollectSound(root, depth, query);
    if IntersectsTile(RootBox, query) {
      IntersectsIffCommonPoint(RootBox, query);
      var lat: real, lon: real :| Contains(RootBox, lat, lon) && Contains(query, lat, lon);
      var t := CoveringTile(root, depth, query, lat, lon);
    } else if |Collect(root, depth, query)| > 0 {
      var t := Collect(root, depth, query)[0];
      IntersectsEnlarged(t.box, RootBox, query);
    }
  }

  /** Reading order of tiles: further north first, then further west at the same latitude. */
  predicate Precedes(a: Box, b: Box) {
    a.ullat > b.ullat || (a.ullat == b.ullat && a.ullon < b.ullon)
  }

  /** The tile order used to sort a raster: -1 when `a` comes first, 1 otherwise, never 0. */
  function CompareTo(a: QTreeNode, b: QTreeNode): (r: int)
    ensures r == -1 <==> Precedes(a.box, b.box)
    ensures r == 1 <==> !Precedes(a.box, b.box)
  {
    if a.box.ullat > b.box.ullat then -1
    else if a.box.ullat < b.box.ullat then 1
    else if a.box.ullat == b.box.ullat && a.box.ullon < b.box.ullon then -1
    else if a.box.ullat == b.box.ullat && a.box.ullon > b.box.ullon then 1
    else 1
  }

  /** Tiles with different upper-left corners compare in opposite directions. */
  lemma CompareToReverses(a: QTreeNode, b: QTreeNode)
    requires a.box.ullat != b.box.ullat || a.box.ullon != b.box.ullon
    ensures CompareTo(a, b) == -CompareTo(b, a)
  {
  }

  /** Tiles with the same upper-left corner each compare after the other, 0 is never returned. */
  lemma CompareToEqualCorners(a: QTreeNode, b: QTreeNode)
    requires a.box.ullat == b.box.ullat && a.box.ullon == b.box.ullon
    ensures CompareTo(a, b) == 1 && CompareTo(b, a) == 1
  {
  }

  /** "Does not come after" is transitive, so the order is a total preorder on corners. */
  lemma NotPrecedesTransitive(a: Box, b: Box, c: Box)
    requires !Precedes(a, b) && !Precedes(b, c)
    ensures !Precedes(a, c)
  {
  }
}
