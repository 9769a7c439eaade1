/**
 * Road-graph vertices (main/java/Node.java). A node's identity and position
 * never change after construction; the search rewrites its `fn` priority
 * in place, and the graph loader adds to its connection set.
 */
module Graph {

  /** Java `int` range, used by `hashCode`. */
  const INT_MIN: int := -0x8000_0000
  const INT_MODULUS: int := 0x1_0000_0000

  predicate IsInt32(x: int) {
    INT_MIN <= x < INT_MIN + INT_MODULUS
  }

  /** Two's-complement wrap-around of a Java `int` computation. */
  function Wrap32(x: int): (r: int)
    ensures IsInt32(r)
    ensures (r - x) % INT_MODULUS == 0
    ensures IsInt32(x) ==> r == x
  {
    (x - INT_MIN) % INT_MODULUS + INT_MIN
  }

  /**
   * An edge of the road graph, represented by its target node
   * (the `Connections` class itself is not part of this model).
   */
  datatype Connection = Connection(n2: Node)

  /** The hash functions of the boxed field types, taken as parameters. */
  datatype FieldHashes = FieldHashes(
    ofLong: int -> int,
    ofDouble: real -> int,
    ofConnections: set<Connection> -> int)

  class Node {
    const id: int
    const lat: real
    const lon: real
    var connections: set<Connection>
    /** Search priority: estimated remaining distance plus distance so far. */
    var fn: real

    /** A new node has the given id and position and no connections. */
    constructor (id: int, lat: real, lon: real)
      ensures this.id == id && this.lat == lat && this.lon == lon
      ensures connections == {} && fn == 0.0
    {
      this.id := id;
      this.lat := lat;
      this.lon := lon;
      connections := {};
      fn := 0.0;
    }

    /** Overwrites the priority and nothing else. */
    method SetFn(f: real)
      modifies this`fn
      ensures fn == f
    {
      fn := f;
    }

    /** The frontier order: -1 when this node's priority is strictly smaller, 1 otherwise, never 0. */
    function CompareTo(n: Node): (r: int)
      reads this, n
      ensures r == -1 <==> fn < n.fn
      ensures r == 1 <==> fn >= n.fn
      ensures r != 0
    {
      if fn < n.fn then -1 else 1
    }

    /** Reference equality, or equal id, position and connection set. */
    predicate Equals(o: Node?)
      reads this, o
      ensures o == this ==> Equals(o)
      ensures o == null ==> !Equals(o)
      ensures Equals(o) && o != null ==> id == o.id && lat == o.lat && lon == o.lon && connections == o.connections
      ensures o != null && o != this ==> (Equals(o) <==> id == o.id && lat == o.lat && lon == o.lon && connections == o.connections)
    {
      if this == o then true
      else if o == null then false
      else id == o.id && lat == o.lat && lon == o.lon && connections == o.connections
    }

    /** `31 * result + field` folded over id, lat, lon and the connection set, in 32-bit arithmetic. */
    function HashCode(h: FieldHashes): (r: int)
      reads this
      ensures IsInt32(r)
    {
      var r0 := Wrap32(h.ofLong(id));
      var r1 := Wrap32(31 * r0 + h.ofDouble(lat));
      var r2 := Wrap32(31 * r1 + h.ofDouble(lon));
      Wrap32(31 * r2 + h.ofConnections(connections))
    }
  }

  /** `compareTo` breaks the `Comparable` contract: a node compares greater than itself. */
  lemma CompareToSelf(a: Node)
    ensures a.CompareTo(a) == 1
  {
  }

  /** Two nodes of equal priority each compare greater than the other. */
  lemma CompareToNotAntisymmetric(a: Node, b: Node)
    requires a.fn == b.fn
    ensures a.CompareTo(b) == 1 && b.CompareTo(a) == 1
  {
  }

  /** The strict part of the order is a strict order: asymmetric and transitive. */
  lemma CompareToStrictOrder(a: Node, b: Node, c: Node)
    ensures a.CompareTo(b) == -1 ==> b.CompareTo(a) == 1
    ensures a.CompareTo(b) == -1 && b.CompareTo(c) == -1 ==> a.CompareTo(c) == -1
  {
  }

  /** `equals` is an equivalence relation. */
  lemma EqualsEquivalence(a: Node, b: Node, c: Node)
    ensures a.Equals(a)
    ensures a.Equals(b) ==> b.Equals(a)
    ensures a.Equals(b) && b.Equals(c) ==> a.Equals(c)
  {
  }

  /** Nodes that are `equals` have the same `hashCode`. */
  lemma EqualsSameHash(a: Node, b: Node, h: FieldHashes)
    requires a.Equals(b)
    ensures a.HashCode(h) == b.HashCode(h)
  {
  }

  /** When ids are unique, `equals` is reference identity, so hash maps keyed by nodes key them by identity. */
  lemma EqualsIsIdentity(a: Node, b: Node)
    requires a != b ==> a.id != b.id
    ensures a.Equals(b) <==> a == b
  {
  }
}
