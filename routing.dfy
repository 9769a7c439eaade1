/**
 * Route finding of `findAndSetRoute` (main/java/MapServer.java:302-361):
 * the two nearest-node scans, the best-first search with lazy deletion and
 * the walk back along the predecessor map.
 *
 * `Math.sqrt` is a parameter that is non-negative on non-negative input;
 * the nearest-node scans compare squared distances, which orders the nodes
 * the same way as the Euclidean distances the source compares.
 */
module Routing {
  import opened Wrappers
  import opened Graph

  /** Squared Euclidean distance, in degrees, from a node to a position. */
  function SqDist(n: Node, lon: real, lat: real): (d: real)
    ensures d >= 0.0
  {
    (lon - n.lon) * (lon - n.lon) + (lat - n.lat) * (lat - n.lat)
  }

  ghost predicate SqrtNonNegative(sqrt: real -> real) {
    forall x :: x >= 0.0 ==> sqrt(x) >= 0.0
  }

  /** Length of the edge from `u` to `v`. */
  function Weight(u: Node, v: Node, sqrt: real -> real): real {
    sqrt(SqDist(v, u.lon, u.lat))
  }

  /** The straight-line estimate of the distance left from `n` to `end`. */
  function Heuristic(n: Node, end: Node, sqrt: real -> real): real {
    sqrt(SqDist(n, end.lon, end.lat))
  }

  /** Edge lengths and estimates are non-negative, an edge is as long both ways, and the estimate is the straight edge's length. */
  lemma WeightFacts(u: Node, v: Node, sqrt: real -> real)
    requires SqrtNonNegative(sqrt)
    ensures Weight(u, v, sqrt) >= 0.0 && Heuristic(u, v, sqrt) >= 0.0
    ensures Weight(u, v, sqrt) == Weight(v, u, sqrt)
    ensures Heuristic(u, v, sqrt) == Weight(v, u, sqrt)
  {
    assert SqDist(v, u.lon, u.lat) == SqDist(u, v.lon, v.lat);
  }

  // ---------------------------------------------------------------------
  // Nearest-node scans
  // ---------------------------------------------------------------------

  /**
   * Node `i` is a closest node to the position, and strictly closer than
   * every node before it: the one a strict-comparison scan settles on.
   */
  predicate EarliestNearest(nodes: seq<Node>, lon: real, lat: real, i: nat) {
    && i < |nodes|
    && (forall j | 0 <= j < |nodes| :: SqDist(nodes[i], lon, lat) <= SqDist(nodes[j], lon, lat))
    && (forall j | 0 <= j < i :: SqDist(nodes[i], lon, lat) < SqDist(nodes[j], lon, lat))
  }

  /** At most one node is the earliest nearest. */
  lemma EarliestNearestUnique(nodes: seq<Node>, lon: real, lat: real, i: nat, j: nat)
    requires EarliestNearest(nodes, lon, lat, i) && EarliestNearest(nodes, lon, lat, j)
    ensures i == j
  {
    assert SqDist(nodes[i], lon, lat) == SqDist(nodes[j], lon, lat);
  }

  /**
   * The nearest-node scan over the graph's entries in iteration order. The
   * result is null only for an empty graph; otherwise it is the earliest of
   * the closest nodes, because the comparison is strict.
   */
  method Nearest(nodes: seq<Node>, lon: real, lat: real) returns (best: Option<nat>)
    ensures best.None? <==> nodes == []
    ensures best.Some? ==> EarliestNearest(nodes, lon, lat, best.value)
  {
    best := None;
    var dist: real := 0.0;  // meaningful only once `best` is set; stands for Double.MAX_VALUE before
    for i := 0 to |nodes|
      invariant best.None? <==> i == 0
      invariant best.Some? ==> best.value < i && dist == SqDist(nodes[best.value], lon, lat)
      invariant best.Some? ==> forall j | 0 <= j < i :: dist <= SqDist(nodes[j], lon, lat)
      invariant best.Some? ==> forall j | 0 <= j < best.value :: dist < SqDist(nodes[j], lon, lat)
    {
      var newDist := SqDist(nodes[i], lon, lat);
      if best.None? || newDist < dist {
        best := Some(i);
        dist := newDist;
      }
    }
  }

  // ---------------------------------------------------------------------
  // Search state
  // ---------------------------------------------------------------------

  /** The adjacency of the road graph: each node's connection set, fixed while a route is searched. */
  type Adjacency = map<Node, set<Connection>>

  /** `adj` records the current connection set of every node it holds. */
  ghost predicate Snapshot(adj: Adjacency)
    reads adj.Keys`connections
  {
    forall n | n in adj :: n.connections == adj[n]
  }

  /** Every connection of a graph node leads to a graph node. */
  ghost predicate Closed(adj: Adjacency) {
    forall u, c | u in adj && c in adj[u] :: c.n2 in adj
  }

  /**
   * The predecessor `p` of `x` is strictly closer to the start, or equally
   * close and recorded earlier; this rules out cycles in `prev`.
   */
  ghost predicate Descends(p: Node, x: Node, distan: map<Node, real>, stamp: map<Node, nat>) {
    && p in distan && x in distan && p in stamp && x in stamp
    && (distan[p] < distan[x] || (distan[p] == distan[x] && stamp[p] < stamp[x]))
  }

  /** Each recorded distance is at least its predecessor's plus the edge between them. */
  ghost predicate Bounded(distan: map<Node, real>, prev: map<Node, Node>, sqrt: real -> real) {
    forall x | x in prev :: x in distan && prev[x] in distan && distan[x] >= distan[prev[x]] + Weight(prev[x], x, sqrt)
  }

  /** Every predecessor link descends, so following `prev` cannot cycle. */
  ghost predicate Acyclic(distan: map<Node, real>, prev: map<Node, Node>, stamp: map<Node, nat>) {
    forall x | x in prev :: Descends(prev[x], x, distan, stamp)
  }

  /**
   * The key sets of the tables: the start is reached at distance 0 and has no
   * predecessor, every other reached node has one, which is a finalized node
   * with an edge to it; `stamp` records when each distance was last written.
   */
  ghost predicate Shape(adj: Adjacency, start: Node, visited: set<Node>, distan: map<Node, real>,
                        prev: map<Node, Node>, stamp: map<Node, nat>, clock: nat)
  {
    && start in adj && start in distan && distan[start] == 0.0 && start !in prev
    && (forall x | x in visited :: x in distan)
    && (forall x | x in distan :: x in adj && x in stamp && stamp[x] < clock && distan[x] >= 0.0)
    && (forall x | x in distan && x != start :: x in prev)
    && (forall x | x in prev :: x in distan && prev[x] in visited && Connection(x) in adj[prev[x]])
  }

  /** The consistency of the search tables `visited`, `distan` and `prev`. */
  ghost predicate Tables(adj: Adjacency, start: Node, visited: set<Node>, distan: map<Node, real>,
                         prev: map<Node, Node>, stamp: map<Node, nat>, clock: nat, sqrt: real -> real)
  {
    && Shape(adj, start, visited, distan, prev, stamp, clock)
    && Bounded(distan, prev, sqrt)
    && Acyclic(distan, prev, stamp)
  }

  /** Every reached node not yet finalized is waiting in the frontier, and the frontier holds only reached nodes. */
  ghost predicate Frontier(visited: set<Node>, distan: map<Node, real>, fringe: multiset<Node>) {
    && (forall x | x in fringe :: x in distan)
    && (forall x | x in distan && x !in visited :: x in fringe)
  }

  /** Every finalized node other than those in `except` has had all its neighbours reached. */
  ghost predicate Expanded(adj: Adjacency, visited: set<Node>, except: set<Node>, distan: map<Node, real>) {
    forall u, c | u in visited && u !in except && u in adj && c in adj[u] :: c.n2 in distan
  }

  /** The entry of `x` was written since (`distan0`, `prev0`). */
  ghost predicate Changed(x: Node, distan0: map<Node, real>, distan: map<Node, real>) {
    x in distan && (x !in distan0 || distan[x] != distan0[x])
  }

  /**
   * From (`distan0`, `prev0`) to (`distan`, `prev`) through relaxations from
   * `v`: no entry is lost, and each entry either keeps its distance and
   * predecessor or has a strictly smaller (or first) distance and `v` as
   * predecessor.
   */
  ghost predicate ImprovedVia(v: Node, distan0: map<Node, real>, prev0: map<Node, Node>,
                              distan: map<Node, real>, prev: map<Node, Node>) {
    && (forall x | x in distan0 :: x in distan)
    && (forall x | x in distan ::
          if x in distan0 && distan[x] == distan0[x] then
            (x in prev0 <==> x in prev) && (x in prev ==> prev[x] == prev0[x])
          else
            x in prev && prev[x] == v && (x in distan0 ==> distan[x] < distan0[x]))
  }

  /** A relaxation that strictly improves `n2` via `v` keeps the tables consistent. */
  lemma {:induction false} RelaxPreserves(adj: Adjacency, start: Node, visited: set<Node>, distan: map<Node, real>,
                                          prev: map<Node, Node>, stamp: map<Node, nat>, clock: nat, sqrt: real -> real,
                                          v: Node, n2: Node)
    requires Shape(adj, start, visited, distan, prev, stamp, clock)
    requires Bounded(distan, prev, sqrt) && Acyclic(distan, prev, stamp) && SqrtNonNegative(sqrt)
    requires v in visited && Connection(n2) in adj[v] && n2 in adj
    requires n2 !in distan || distan[n2] > distan[v] + Weight(v, n2, sqrt)
    ensures n2 != v && n2 != start
    ensures Tables(adj, start, visited, distan[n2 := distan[v] + Weight(v, n2, sqrt)], prev[n2 := v],
                   stamp[n2 := clock], clock + 1, sqrt)
  {
    var w := Weight(v, n2, sqrt);
    var d := distan[v] + w;
    assert w >= 0.0;
    assert n2 != v && n2 != start && d >= 0.0;
    RelaxKeepsShape(adj, start, visited, distan, prev, stamp, clock, v, n2, d);
    RelaxKeepsBound(distan, prev, sqrt, v, n2);
    SuccessorsFarther(distan, prev, sqrt, n2);
    RelaxKeepsDescent(distan, prev, stamp, clock, v, n2, d);
  }

  /** With non-negative edges, every node whose predecessor is `p` is at least as far from the start as `p`. */
  lemma SuccessorsFarther(distan: map<Node, real>, prev: map<Node, Node>, sqrt: real -> real, p: Node)
    requires Bounded(distan, prev, sqrt) && SqrtNonNegative(sqrt)
    ensures forall x | x in prev && prev[x] == p && x in distan && p in distan :: distan[x] >= distan[p]
  {
    forall x | x in prev && prev[x] == p && x in distan && p in distan ensures distan[x] >= distan[p] {
      assert Weight(p, x, sqrt) >= 0.0;
    }
  }

  lemma RelaxKeepsShape(adj: Adjacency, start: Node, visited: set<Node>, distan: map<Node, real>,
                        prev: map<Node, Node>, stamp: map<Node, nat>, clock: nat, v: Node, n2: Node, d: real)
    requires Shape(adj, start, visited, distan, prev, stamp, clock)
    requires v in visited && Connection(n2) in adj[v] && n2 in adj && d >= 0.0 && n2 != start
    ensures Shape(adj, start, visited, distan[n2 := d], prev[n2 := v], stamp[n2 := clock], clock + 1)
  {
  }

  lemma RelaxKeepsBound(distan: map<Node, real>, prev: map<Node, Node>, sqrt: real -> real, v: Node, n2: Node)
    requires Bounded(distan, prev, sqrt) && v in distan && v != n2
    requires n2 !in distan || distan[n2] > distan[v] + Weight(v, n2, sqrt)
    ensures Bounded(distan[n2 := distan[v] + Weight(v, n2, sqrt)], prev[n2 := v], sqrt)
  {
    var distan', prev' := distan[n2 := distan[v] + Weight(v, n2, sqrt)], prev[n2 := v];
    forall x | x in prev' ensures distan'[x] >= distan'[prev'[x]] + Weight(prev'[x], x, sqrt) {
      if x != n2 && prev[x] == n2 {
        assert distan[x] >= distan[n2] + Weight(n2, x, sqrt);
      }
    }
  }

  lemma RelaxKeepsDescent(distan: map<Node, real>, prev: map<Node, Node>, stamp: map<Node, nat>, clock: nat,
                          v: Node, n2: Node, d: real)
    requires forall x | x in distan :: x in stamp && stamp[x] < clock
    requires forall x | x in prev && prev[x] == n2 && x in distan && n2 in distan :: distan[x] >= distan[n2]
    requires Acyclic(distan, prev, stamp) && v in distan && v in stamp && v != n2
    requires d >= distan[v] && (n2 in distan ==> d < distan[n2])
    ensures Acyclic(distan[n2 := d], prev[n2 := v], stamp[n2 := clock])
  {
    var distan', prev', stamp' := distan[n2 := d], prev[n2 := v], stamp[n2 := clock];
    forall x | x in prev' ensures Descends(prev'[x], x, distan', stamp') {
      if x == n2 {
        assert distan'[v] == distan[v] && stamp'[v] == stamp[v] < clock;
      } else if prev[x] == n2 {
        assert distan'[n2] < distan[n2] <= distan'[x];
      } else {
        assert Descends(prev[x], x, distan, stamp);
      }
    }
  }

  /** A relaxation keeps the frontier complete and the record of what changed since the expansion began. */
  lemma RelaxKeepsRecord(visited: set<Node>, distan0: map<Node, real>, prev0: map<Node, Node>,
                         distan: map<Node, real>, prev: map<Node, Node>, fringe: multiset<Node>,
                         v: Node, n2: Node, d: real)
    requires Frontier(visited, distan, fringe) && ImprovedVia(v, distan0, prev0, distan, prev)
    requires n2 in distan ==> d < distan[n2]
    ensures Frontier(visited, distan[n2 := d], fringe + multiset{n2})
    ensures ImprovedVia(v, distan0, prev0, distan[n2 := d], prev[n2 := v])
  {
    var distan', prev' := distan[n2 := d], prev[n2 := v];
    if n2 in distan0 {
      assert distan'[n2] < distan0[n2];
    }
  }

  /** What holds of the tables between two relaxations while `v` is being expanded. */
  ghost predicate ExpandInv(adj: Adjacency, start: Node, v: Node, visited: set<Node>,
                            distan0: map<Node, real>, prev0: map<Node, Node>,
                            distan: map<Node, real>, prev: map<Node, Node>, fringe: multiset<Node>,
                            stamp: map<Node, nat>, clock: nat, sqrt: real -> real)
  {
    && Tables(adj, start, visited, distan, prev, stamp, clock, sqrt)
    && Frontier(visited, distan, fringe) && Expanded(adj, visited, {v}, distan)
    && ImprovedVia(v, distan0, prev0, distan, prev)
  }

  lemma RelaxStep(adj: Adjacency, start: Node, v: Node, visited: set<Node>,
                  distan0: map<Node, real>, prev0: map<Node, Node>,
                  distan: map<Node, real>, prev: map<Node, Node>, fringe: multiset<Node>,
                  stamp: map<Node, nat>, clock: nat, sqrt: real -> real, n2: Node)
    requires ExpandInv(adj, start, v, visited, distan0, prev0, distan, prev, fringe, stamp, clock, sqrt)
    requires SqrtNonNegative(sqrt) && v in visited && Connection(n2) in adj[v] && n2 in adj
    requires n2 !in distan || distan[n2] > distan[v] + Weight(v, n2, sqrt)
    ensures ExpandInv(adj, start, v, visited, distan0, prev0, distan[n2 := distan[v] + Weight(v, n2, sqrt)],
                      prev[n2 := v], fringe + multiset{n2}, stamp[n2 := clock], clock + 1, sqrt)
  {
    RelaxPreserves(adj, start, visited, distan, prev, stamp, clock, sqrt, v, n2);
    RelaxKeepsRecord(visited, distan0, prev0, distan, prev, fringe, v, n2, distan[v] + Weight(v, n2, sqrt));
  }

  /** The priority the search gives every graph node: its new priority if its entry changed, otherwise the old one. */
  ghost predicate Priorities(adj: Adjacency, end: Node, distan0: map<Node, real>, distan: map<Node, real>,
                             oldFn: map<Node, real>, sqrt: real -> real)
    reads adj.Keys`fn
  {
    forall x | x in adj :: x in oldFn && x.fn == if Changed(x, distan0, distan) then Heuristic(x, end, sqrt) + distan[x] else oldFn[x]
  }

  /**
   * The tables after one relaxation of the edge from `v` (of length `w`) to
   * `n2`: when `n2` is unreached or reached by a strictly longer way, it gets
   * distance distan[v] + w, `v` as its predecessor and a place in the
   * frontier; otherwise nothing changes.
   */
  ghost predicate Relaxed(v: Node, n2: Node, w: real,
                          distan: map<Node, real>, prev: map<Node, Node>, fringe: multiset<Node>,
                          stamp: map<Node, nat>, clock: nat,
                          distan': map<Node, real>, prev': map<Node, Node>, fringe': multiset<Node>,
                          stamp': map<Node, nat>, clock': nat)
    requires v in distan
  {
    if n2 !in distan || distan[n2] > distan[v] + w then
      && distan' == distan[n2 := distan[v] + w] && prev' == prev[n2 := v] && fringe' == fringe + multiset{n2}
      && stamp' == stamp[n2 := clock] && clock' == clock + 1
    else
      distan' == distan && prev' == prev && fringe' == fringe && stamp' == stamp && clock' == clock
  }

  /**
   * One relaxation of the edge from `v` to `n2`, as `Relaxed` states; an
   * improved `n2` also gets priority estimate + distance.
   */
  method Relax(ghost adj: Adjacency, end: Node, v: Node,
               ghost distan0: map<Node, real>, ghost prev0: map<Node, Node>, ghost oldFn: map<Node, real>,
               distan: map<Node, real>, prev: map<Node, Node>, fringe: multiset<Node>,
               ghost stamp: map<Node, nat>, ghost clock: nat, sqrt: real -> real, n2: Node)
    returns (distan': map<Node, real>, prev': map<Node, Node>, fringe': multiset<Node>,
             ghost stamp': map<Node, nat>, ghost clock': nat)
    requires v in distan && n2 in adj
    requires ImprovedVia(v, distan0, prev0, distan, prev)
    requires Priorities(adj, end, distan0, distan, oldFn, sqrt)
    modifies {n2}`fn
    ensures Relaxed(v, n2, Weight(v, n2, sqrt), distan, prev, fringe, stamp, clock, distan', prev', fringe', stamp', clock')
    ensures Priorities(adj, end, distan0, distan', oldFn, sqrt)
  {
    distan', prev', fringe', stamp', clock' := distan, prev, fringe, stamp, clock;
    var w := Weight(v, n2, sqrt);
    if n2 !in distan || distan[n2] > distan[v] + w {
      distan' := distan[n2 := distan[v] + w];
      Prioritize(adj, end, distan0, distan, oldFn, sqrt, n2, distan[v] + w);
      fringe' := fringe + multiset{n2};
      prev' := prev[n2 := v];
      stamp' := stamp[n2 := clock];
      clock' := clock + 1;
    }
  }

  /** `setFn` on a node whose distance was just lowered to `d`: its priority becomes estimate + `d`. */
  method Prioritize(ghost adj: Adjacency, end: Node, ghost distan0: map<Node, real>, ghost distan: map<Node, real>,
                    ghost oldFn: map<Node, real>, sqrt: real -> real, n2: Node, d: real)
    requires Priorities(adj, end, distan0, distan, oldFn, sqrt) && n2 in adj
    requires n2 in distan0 ==> d != distan0[n2]
    modifies {n2}`fn
    ensures Priorities(adj, end, distan0, distan[n2 := d], oldFn, sqrt)
  {
    n2.SetFn(Heuristic(n2, end, sqrt) + d);
    forall x | x in adj
      ensures x in oldFn && x.fn == if Changed(x, distan0, distan[n2 := d]) then Heuristic(x, end, sqrt) + distan[n2 := d][x] else oldFn[x]
    {
      if x != n2 {
        assert x.fn == old(x.fn);
        assert Changed(x, distan0, distan[n2 := d]) == Changed(x, distan0, distan);
      }
    }
  }

  /**
   * What the relaxations of the connections in `done` have achieved: `v`
   * keeps its distance, each of those neighbours is reached no further than
   * through `v`, and every entry written since the expansion began holds the
   * distance through `v`.
   */
  ghost predicate ExpandBounds(v: Node, distan0: map<Node, real>, distan: map<Node, real>,
                               done: set<Connection>, sqrt: real -> real)
  {
    && v in distan0 && v in distan && distan[v] == distan0[v]
    && (forall c | c in done :: c.n2 in distan && distan[c.n2] <= distan0[v] + Weight(v, c.n2, sqrt))
    && (forall x | x in distan && Changed(x, distan0, distan) :: distan[x] == distan0[v] + Weight(v, x, sqrt))
  }

  /** A relaxation keeps the expansion invariant and adds its connection to those done. */
  lemma RelaxKeeps(adj: Adjacency, start: Node, v: Node, visited: set<Node>,
                   distan0: map<Node, real>, prev0: map<Node, Node>, done: set<Connection>, sqrt: real -> real, n2: Node,
                   distan: map<Node, real>, prev: map<Node, Node>, fringe: multiset<Node>, stamp: map<Node, nat>, clock: nat,
                   distan': map<Node, real>, prev': map<Node, Node>, fringe': multiset<Node>, stamp': map<Node, nat>, clock': nat)
    requires ExpandInv(adj, start, v, visited, distan0, prev0, distan, prev, fringe, stamp, clock, sqrt)
    requires ExpandBounds(v, distan0, distan, done, sqrt)
    requires SqrtNonNegative(sqrt) && v in visited && Connection(n2) in adj[v] && n2 in adj
    requires Relaxed(v, n2, Weight(v, n2, sqrt), distan, prev, fringe, stamp, clock, distan', prev', fringe', stamp', clock')
    ensures ExpandInv(adj, start, v, visited, distan0, prev0, distan', prev', fringe', stamp', clock', sqrt)
    ensures ExpandBounds(v, distan0, distan', done + {Connection(n2)}, sqrt)
  {
    var w := Weight(v, n2, sqrt);
    if n2 !in distan || distan[n2] > distan[v] + w {
      assert w >= 0.0;
      RelaxStep(adj, start, v, visited, distan0, prev0, distan, prev, fringe, stamp, clock, sqrt, n2);
      forall x | Changed(x, distan0, distan') ensures distan'[x] == distan0[v] + Weight(v, x, sqrt) {
        if x != n2 {
          assert Changed(x, distan0, distan);
        }
      }
    }
  }

  /**
   * The relaxation loop over the connections of the node `v` just finalized:
   * each connection is relaxed once, in the set's iteration order.
   */
  method Expand(ghost adj: Adjacency, start: Node, end: Node, v: Node, visited: set<Node>,
                distan0: map<Node, real>, prev0: map<Node, Node>, fringe0: multiset<Node>,
                ghost stamp0: map<Node, nat>, ghost clock0: nat, sqrt: real -> real)
    returns (distan: map<Node, real>, prev: map<Node, Node>, fringe: multiset<Node>,
             ghost stamp: map<Node, nat>, ghost clock: nat)
    requires SqrtNonNegative(sqrt) && Closed(adj) && Snapshot(adj)
    requires Tables(adj, start, visited, distan0, prev0, stamp0, clock0, sqrt)
    requires Frontier(visited, distan0, fringe0) && Expanded(adj, visited, {v}, distan0)
    requires v in visited
    modifies adj.Keys`fn
    ensures Tables(adj, start, visited, distan, prev, stamp, clock, sqrt)
    ensures Frontier(visited, distan, fringe) && Expanded(adj, visited, {}, distan)
    ensures ImprovedVia(v, distan0, prev0, distan, prev)
    ensures forall x | x in adj :: x.fn == if Changed(x, distan0, distan) then Heuristic(x, end, sqrt) + distan[x] else old(x.fn)
    ensures forall c | c in adj[v] :: c.n2 in distan && distan[c.n2] <= distan0[v] + Weight(v, c.n2, sqrt)
    ensures forall x | Changed(x, distan0, distan) :: distan[x] == distan0[v] + Weight(v, x, sqrt)
  {
    ghost var oldFn: map<Node, real> := map x: Node | x in adj :: x.fn;
    distan, prev, fringe, stamp, clock := distan0, prev0, fringe0, stamp0, clock0;
    var todo := v.connections;
    ghost var done: set<Connection> := {};
    while todo != {}
      invariant todo <= adj[v] && forall c | c in adj[v] :: c in todo || c in done
      invariant ExpandInv(adj, start, v, visited, distan0, prev0, distan, prev, fringe, stamp, clock, sqrt)
      invariant ExpandBounds(v, distan0, distan, done, sqrt)
      invariant Priorities(adj, end, distan0, distan, oldFn, sqrt)
      decreases todo
    {
      var c :| c in todo;
      assert c == Connection(c.n2) && c.n2 in adj;
      ghost var distan1, prev1, fringe1, stamp1, clock1 := distan, prev, fringe, stamp, clock;
      distan, prev, fringe, stamp, clock :=
        Relax(adj, end, v, distan0, prev0, oldFn, distan, prev, fringe, stamp, clock, sqrt, c.n2);
      RelaxKeeps(adj, start, v, visited, distan0, prev0, done, sqrt, c.n2,
                 distan1, prev1, fringe1, stamp1, clock1, distan, prev, fringe, stamp, clock);
      todo := todo - {c};
      done := done + {c};
    }
  }

  /** Each node with a predecessor carries the priority it was last given; every other node keeps its old one. */
  ghost predicate FnTracked(adj: Adjacency, end: Node, distan: map<Node, real>, prev: map<Node, Node>,
                            oldFn: map<Node, real>, fn: map<Node, real>, sqrt: real -> real)
  {
    forall x | x in adj :: (x in oldFn && x in fn &&
      fn[x] == if x in prev && x in distan then Heuristic(x, end, sqrt) + distan[x] else oldFn[x])
  }

  /** Polling `v` off the frontier and finalizing it keeps the tables and the frontier consistent. */
  lemma Finalize(adj: Adjacency, start: Node, visited: set<Node>, distan: map<Node, real>, prev: map<Node, Node>,
                 stamp: map<Node, nat>, clock: nat, sqrt: real -> real, fringe: multiset<Node>, v: Node)
    requires Tables(adj, start, visited, distan, prev, stamp, clock, sqrt)
    requires Frontier(visited, distan, fringe) && v in fringe
    ensures Tables(adj, start, visited + {v}, distan, prev, stamp, clock, sqrt)
    ensures Frontier(visited + {v}, distan, fringe - multiset{v})
  {
  }

  /** Polling an already finalized node off the frontier keeps the frontier consistent. */
  lemma Skip(visited: set<Node>, distan: map<Node, real>, fringe: multiset<Node>, v: Node)
    requires Frontier(visited, distan, fringe) && v in visited
    ensures Frontier(visited, distan, fringe - multiset{v})
  {
  }

  /** An expansion keeps every node's priority in step with the tables. */
  lemma ExpandTracks(adj: Adjacency, end: Node, v: Node, distan0: map<Node, real>, prev0: map<Node, Node>,
                     distan: map<Node, real>, prev: map<Node, Node>, oldFn: map<Node, real>,
                     midFn: map<Node, real>, newFn: map<Node, real>, sqrt: real -> real)
    requires FnTracked(adj, end, distan0, prev0, oldFn, midFn, sqrt)
    requires forall x | x in adj :: (x in newFn &&
      newFn[x] == if Changed(x, distan0, distan) then Heuristic(x, end, sqrt) + distan[x] else midFn[x])
    requires ImprovedVia(v, distan0, prev0, distan, prev)
    requires forall x | x in prev :: x in distan
    ensures FnTracked(adj, end, distan, prev, oldFn, newFn, sqrt)
  {
    forall x | x in adj
      ensures newFn[x] == if x in prev && x in distan then Heuristic(x, end, sqrt) + distan[x] else oldFn[x]
    {
      if !Changed(x, distan0, distan) && x in distan0 {
        assert (x in prev0 <==> x in prev);
      }
    }
  }

  /**
   * The search loop: poll a node off the frontier; skip it when already
   * finalized; otherwise finalize it, stop if it is the end node, and relax
   * its connections. The poll may return any queued node: relaxing a queued
   * node rewrites its priority in place and leaves the heap out of order,
   * so the head is not always a least node. The loop ends with the end node finalized or with
   * every reached node finalized and the frontier empty.
   */
  method Search(ghost adj: Adjacency, start: Node, end: Node, sqrt: real -> real)
    returns (visited: set<Node>, distan: map<Node, real>, prev: map<Node, Node>,
             ghost stamp: map<Node, nat>, ghost clock: nat)
    requires SqrtNonNegative(sqrt) && Closed(adj) && Snapshot(adj) && start in adj && end in adj
    modifies adj.Keys`fn
    ensures Tables(adj, start, visited, distan, prev, stamp, clock, sqrt)
    ensures Expanded(adj, visited, {end}, distan)
    ensures end in visited || forall x | x in distan :: x in visited
    ensures forall x | x in adj ::
      x.fn == if x in prev && x in distan then Heuristic(x, end, sqrt) + distan[x] else old(x.fn)
  {
    ghost var oldFn: map<Node, real> := map x: Node | x in adj :: x.fn;
    ghost var curFn: map<Node, real> := oldFn;
    visited, distan, prev := {}, map[start := 0.0], map[];
    var fringe := multiset{start};
    stamp, clock := map[start := 0], 1;
    while |fringe| > 0
      invariant Tables(adj, start, visited, distan, prev, stamp, clock, sqrt)
      invariant Frontier(visited, distan, fringe)
      invariant end !in visited && Expanded(adj, visited, {}, distan)
      invariant forall x | x in adj :: x in curFn && x.fn == curFn[x]
      invariant FnTracked(adj, end, distan, prev, oldFn, curFn, sqrt)
      decreases adj.Keys - visited, |fringe|
    {
      var v :| v in fringe;
      if v in visited {
        Skip(visited, distan, fringe, v);
        fringe := fringe - multiset{v};
        continue;
      }
      Finalize(adj, start, visited, distan, prev, stamp, clock, sqrt, fringe, v);
      fringe := fringe - multiset{v};
      visited := visited + {v};
      if v == end {
        break;
      }
      ghost var distan0, prev0 := distan, prev;
      ghost var midFn := curFn;
      distan, prev, fringe, stamp, clock := Expand(adj, start, end, v, visited, distan, prev, fringe, stamp, clock, sqrt);
      curFn := map x: Node | x in adj :: x.fn;
      ExpandTracks(adj, end, v, distan0, prev0, distan, prev, oldFn, midFn, curFn, sqrt);
    }
  }

  // ---------------------------------------------------------------------
  // Walking the predecessor map back from the end node
  // ---------------------------------------------------------------------

  /** The reached nodes that come strictly before `x` in the descent order. */
  ghost function Below(distan: map<Node, real>, stamp: map<Node, nat>, x: Node): set<Node> {
    if x in distan && x in stamp then
      set y | y in distan && y in stamp && (distan[y] < distan[x] || (distan[y] == distan[x] && stamp[y] < stamp[x]))
    else {}
  }

  /** A predecessor has strictly fewer nodes below it, which bounds every walk along `prev`. */
  lemma BelowShrinks(distan: map<Node, real>, stamp: map<Node, nat>, p: Node, x: Node)
    requires Descends(p, x, distan, stamp)
    ensures Below(distan, stamp, p) < Below(distan, stamp, x)
  {
    assert p in Below(distan, stamp, x) && p !in Below(distan, stamp, p);
  }

  /**
   * The nodes the walk-back loop visits, from `x` backwards: it stops at a
   * node whose predecessor is the start, or at a node with no predecessor.
   */
  ghost function Chain(start: Node, prev: map<Node, Node>, distan: map<Node, real>, stamp: map<Node, nat>,
                       x: Node): (c: seq<Node>)
    requires Acyclic(distan, prev, stamp)
    ensures |c| > 0 && c[0] == x
    decreases Below(distan, stamp, x)
  {
    if x !in prev || prev[x] == start then [x]
    else
      BelowShrinks(distan, stamp, prev[x], x);
      [x] + Chain(start, prev, distan, stamp, prev[x])
  }

  /** `s` back to front. */
  function Reversed<T>(s: seq<T>): (r: seq<T>)
    ensures |r| == |s|
  {
    if s == [] then [] else Reversed(s[1..]) + [s[0]]
  }

  /** The ids of a sequence of nodes, in the same order. */
  function Ids(p: seq<Node>): (r: seq<int>)
    ensures |r| == |p|
  {
    if p == [] then [] else [p[0].id] + Ids(p[1..])
  }

  /** Position by position, `Ids` keeps each node's id. */
  lemma {:induction false} IdsAt(p: seq<Node>)
    ensures forall i | 0 <= i < |p| :: Ids(p)[i] == p[i].id
  {
    if p != [] {
      IdsAt(p[1..]);
    }
  }

  /**
   * The walk back from the end node. It prepends each node's id while that
   * node's predecessor is not the start; when it meets a node with no
   * predecessor the source dereferences null after having prepended that
   * node's id, which is reported as `crashed` with the list as it was left.
   */
  method WalkBack(start: Node, end: Node, prev: map<Node, Node>, ghost distan: map<Node, real>,
                  ghost stamp: map<Node, nat>) returns (route: seq<int>, crashed: bool)
    requires Acyclic(distan, prev, stamp)
    ensures var c := Chain(start, prev, distan, stamp, end);
      && (crashed <==> c[|c| - 1] !in prev)
      && route == Ids((if crashed then [] else [start]) + Reversed(c))
  {
    var n := end;
    route := [];
    ghost var walked: seq<Node> := [];
    while n in prev && prev[n] != start
      invariant route == Ids(walked)
      invariant var c, d := Chain(start, prev, distan, stamp, end), Chain(start, prev, distan, stamp, n);
        Reversed(c) == Reversed(d) + walked && c[|c| - 1] == d[|d| - 1]
      decreases Below(distan, stamp, n)
    {
      BelowShrinks(distan, stamp, prev[n], n);
      ghost var d := Chain(start, prev, distan, stamp, prev[n]);
      assert Chain(start, prev, distan, stamp, n) == [n] + d;
      assert ([n] + d)[1..] == d;
      assert Reversed([n] + d) == Reversed(d) + [n];
      assert ([n] + walked)[1..] == walked;
      route, walked := [n.id] + route, [n] + walked;
      n := prev[n];
    }
    assert Chain(start, prev, distan, stamp, n) == [n];
    assert [n][1..] == [] && Reversed([n]) == [n];
    assert ([n] + walked)[1..] == walked;
    route, walked := [n.id] + route, [n] + walked;
    crashed := n !in prev;
    if !crashed {
      assert ([start] + walked)[1..] == walked;
      route, walked := [start.id] + route, [start] + walked;
    }
    assert walked == (if crashed then [] else [start]) + Reversed(Chain(start, prev, distan, stamp, end));
  }

  // ---------------------------------------------------------------------
  // What the walk finds
  // ---------------------------------------------------------------------

  /** `p` follows connections of the graph from node to node. */
  ghost predicate IsPath(adj: Adjacency, p: seq<Node>) {
    && |p| > 0
    && (forall i | 0 <= i < |p| :: p[i] in adj)
    && (forall i | 0 <= i < |p| - 1 :: Connection(p[i + 1]) in adj[p[i]])
  }

  /** Consecutive chain nodes are linked by `prev`, and the chain stops where the loop does. */
  lemma {:induction false} ChainLinks(start: Node, prev: map<Node, Node>, distan: map<Node, real>,
                                      stamp: map<Node, nat>, x: Node)
    requires Acyclic(distan, prev, stamp)
    ensures var c := Chain(start, prev, distan, stamp, x);
      && (forall i {:trigger c[i]} | 0 <= i < |c| - 1 :: c[i] in prev && prev[c[i]] == c[i + 1] && c[i + 1] != start)
      && (c[|c| - 1] !in prev || prev[c[|c| - 1]] == start)
    decreases Below(distan, stamp, x)
  {
    if x in prev && prev[x] != start {
      BelowShrinks(distan, stamp, prev[x], x);
      ChainLinks(start, prev, distan, stamp, prev[x]);
      var d := Chain(start, prev, distan, stamp, prev[x]);
      var c := Chain(start, prev, distan, stamp, x);
      assert c == [x] + d;
      assert c[|c| - 1] == d[|d| - 1];
      forall i {:trigger c[i]} | 0 <= i < |c| - 1
        ensures c[i] in prev && prev[c[i]] == c[i + 1] && c[i + 1] != start
      {
        if i > 0 {
          assert c[i] == d[i - 1] && c[i + 1] == d[i];
        }
      }
    }
  }

  /**
   * In consistent tables the chain of a node with a predecessor ends at a
   * node whose predecessor is the start, and read forwards from the start
   * it is a path of the graph to that node.
   */
  lemma {:induction false} ChainIsPath(adj: Adjacency, start: Node, visited: set<Node>, distan: map<Node, real>,
                                       prev: map<Node, Node>, stamp: map<Node, nat>, clock: nat, x: Node)
    requires Shape(adj, start, visited, distan, prev, stamp, clock) && Acyclic(distan, prev, stamp)
    requires x in prev
    ensures var c := Chain(start, prev, distan, stamp, x);
      && c[|c| - 1] in prev && prev[c[|c| - 1]] == start
      && IsPath(adj, [start] + Reversed(c))
    decreases Below(distan, stamp, x)
  {
    var c := Chain(start, prev, distan, stamp, x);
    if prev[x] == start {
      assert [start] + Reversed(c) == [start, x];
    } else {
      BelowShrinks(distan, stamp, prev[x], x);
      var d := Chain(start, prev, distan, stamp, prev[x]);
      ChainIsPath(adj, start, visited, distan, prev, stamp, clock, prev[x]);
      var q := [start] + Reversed(d);
      assert c == [x] + d;
      assert Reversed(c) == Reversed(d) + [x];
      assert [start] + Reversed(c) == q + [x];
      assert q[|q| - 1] == prev[x];
    }
  }

  /**
   * When the search has run out of frontier without finalizing the end
   * node, every node reachable from the start was reached.
   */
  lemma {:induction false} ReachedAll(adj: Adjacency, start: Node, end: Node, visited: set<Node>,
                                      distan: map<Node, real>, p: seq<Node>, i: nat)
    requires start in distan && end !in visited
    requires forall x | x in distan :: x in visited
    requires Expanded(adj, visited, {end}, distan)
    requires IsPath(adj, p) && p[0] == start && i < |p|
    ensures p[i] in distan
  {
    if i > 0 {
      ReachedAll(adj, start, end, visited, distan, p, i - 1);
      assert Connection(p[i]) in adj[p[i - 1]];
    }
  }

  /**
   * The outcome of the search: the end node gets a predecessor exactly when
   * it differs from the start and is reachable from it.
   */
  lemma SearchOutcome(adj: Adjacency, start: Node, end: Node, visited: set<Node>, distan: map<Node, real>,
                      prev: map<Node, Node>, stamp: map<Node, nat>, clock: nat, sqrt: real -> real)
    requires Tables(adj, start, visited, distan, prev, stamp, clock, sqrt)
    requires Expanded(adj, visited, {end}, distan)
    requires end in visited || forall x | x in distan :: x in visited
    ensures end in prev <==> end != start && exists p :: IsPath(adj, p) && p[0] == start && p[|p| - 1] == end
  {
    if end in prev {
      ChainIsPath(adj, start, visited, distan, prev, stamp, clock, end);
      var c := Chain(start, prev, distan, stamp, end);
      var p := [start] + Reversed(c);
      assert p[|p| - 1] == c[0];
    } else if end != start && exists p :: IsPath(adj, p) && p[0] == start && p[|p| - 1] == end {
      var p :| IsPath(adj, p) && p[0] == start && p[|p| - 1] == end;
      if end !in visited {
        ReachedAll(adj, start, end, visited, distan, p, |p| - 1);
      }
      assert false;
    }
  }
}
