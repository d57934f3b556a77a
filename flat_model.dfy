/** The flat graph model's `Edge` and `Vertex`.  An edge refers to its end
    vertices by their ids (within one graph the ids are the positions of
    the vertices, and `Vertex.equals` compares ids); a vertex is its id and
    its edge list.  `List.remove` and `List.contains` on edge lists go by
    `Edge.equals`, that is, by the ids of the two end vertices. */
module FlatModel {
  import opened Exceptions

  /** `Edge.NON_GRAPH_EDGE_ID`. */
  const NonGraphEdgeId: int := -2

  /** An `Edge`: the ids of its start and target vertex, and its own id. */
  datatype Edge = Edge(start: nat, target: nat, id: int)

  /** A `Vertex`: its id and its list of incident edges. */
  datatype Vertex = Vertex(id: nat, edges: seq<Edge>)

  // ---------------------------------------------------------------------
  // Integer helpers of the Java library

  /** `Integer.compare(x, y)`. */
  function IntCompare(x: int, y: int): (c: int)
    ensures c == -1 || c == 0 || c == 1
    ensures c < 0 <==> x < y
    ensures c == 0 <==> x == y
  {
    if x < y then -1 else if x == y then 0 else 1
  }

  /** Java `int` arithmetic: the value reduced into `[-2^31, 2^31)`. */
  function Int32(x: int): (r: int)
    ensures -0x8000_0000 <= r < 0x8000_0000
    ensures (r - x) % 0x1_0000_0000 == 0
  {
    (x + 0x8000_0000) % 0x1_0000_0000 - 0x8000_0000
  }

  // ---------------------------------------------------------------------
  // Edge

  /** `new Edge(start, target, id)` up to its self-registration (which
      `FlatGraphs.Graph.AddEdge` performs): a null end vertex, or a
      negative id other than `NON_GRAPH_EDGE_ID`, throws
      IllegalArgumentException. */
  function NewEdge(start: Option<Vertex>, target: Option<Vertex>, id: int): (r: Result<Edge>)
    ensures r.Ok? <==> start.Some? && target.Some? && (id >= 0 || id == NonGraphEdgeId)
    ensures r.Ok? ==> r.value.start == start.value.id && r.value.target == target.value.id
    ensures r.Ok? ==> r.value.id == id
    ensures !r.Ok? ==> r.exception == IllegalArgument
  {
    if start.None? || target.None? then Throw(IllegalArgument)
    else if id < 0 && id != NonGraphEdgeId then Throw(IllegalArgument)
    else Ok(Edge(start.value.id, target.value.id, id))
  }

  /** `isVertexOfEdge(v)`. */
  predicate IsVertexOfEdge(e: Edge, v: nat)
  {
    e.start == v || e.target == v
  }

  /** `getOtherEnd(v)`: the opposite end vertex; a vertex that is not an
      end of the edge throws IllegalArgumentException. */
  function GetOtherEnd(e: Edge, v: nat): (r: Result<nat>)
    ensures r.Ok? <==> IsVertexOfEdge(e, v)
    ensures r.Ok? ==> (v == e.start && r.value == e.target) || (v == e.target && v != e.start && r.value == e.start)
    ensures !r.Ok? ==> r.exception == IllegalArgument
  {
    if v == e.start then Ok(e.target)
    else if v == e.target then Ok(e.start)
    else Throw(IllegalArgument)
  }

  /** Going to the other end and back returns to the start. */
  lemma OtherEndTwice(e: Edge, v: nat)
    requires IsVertexOfEdge(e, v)
    ensures IsVertexOfEdge(e, GetOtherEnd(e, v).value)
    ensures GetOtherEnd(e, GetOtherEnd(e, v).value) == Ok(v)
  {
  }

  /** `Edge.equals`: the same start id and the same target id; the edge
      ids play no part. */
  predicate EdgeEquals(a: Edge, b: Edge)
  {
    a.start == b.start && a.target == b.target
  }

  /** `Edge.hashCode`, in 32-bit arithmetic. */
  function EdgeHash(e: Edge): (h: int)
    ensures -0x8000_0000 <= h < 0x8000_0000
  {
    Int32(Int32(17 * 4003 + e.start) * 31 + e.target)
  }

  /** `Edge.compareTo`: lexicographic on (start id, target id). */
  function EdgeCompare(a: Edge, b: Edge): (c: int)
    ensures c == -1 || c == 0 || c == 1
    ensures c < 0 <==> a.start < b.start || (a.start == b.start && a.target < b.target)
    ensures c == 0 <==> EdgeEquals(a, b)
  {
    var startComparison := IntCompare(a.start, b.start);
    if startComparison != 0 then startComparison else IntCompare(a.target, b.target)
  }

  /** `equals`, `hashCode` and `compareTo` of edges agree: equal edges
      hash alike and compare as 0, and comparison is antisymmetric. */
  lemma EdgeIdentityAgrees(a: Edge, b: Edge)
    ensures EdgeEquals(a, b) ==> EdgeHash(a) == EdgeHash(b)
    ensures EdgeEquals(a, b) <==> EdgeCompare(a, b) == 0
    ensures EdgeCompare(a, b) == -EdgeCompare(b, a)
  {
  }

  // ---------------------------------------------------------------------
  // Vertex

  /** `new Vertex(id)`: a negative id throws IllegalArgumentException. */
  function NewVertex(id: int): (r: Result<Vertex>)
    ensures r.Ok? <==> id >= 0
    ensures r.Ok? ==> r.value.id == id && r.value.edges == []
    ensures !r.Ok? ==> r.exception == IllegalArgument
  {
    if id < 0 then Throw(IllegalArgument) else Ok(Vertex(id, []))
  }

  /** `Vertex.equals`. */
  predicate VertexEquals(a: Vertex, b: Vertex)
  {
    a.id == b.id
  }

  /** `Vertex.hashCode`. */
  function VertexHash(v: Vertex): int
  {
    v.id
  }

  /** `Vertex.compareTo`. */
  function VertexCompare(a: Vertex, b: Vertex): (c: int)
    ensures c == 0 <==> VertexEquals(a, b)
    ensures c < 0 <==> a.id < b.id
  {
    IntCompare(a.id, b.id)
  }

  /** Identity, hashing and order of vertices are decided by the id alone:
      two vertices with the same id are interchangeable in all three. */
  lemma VertexIdentityById(a: Vertex, b: Vertex, c: Vertex)
    requires a.id == b.id
    ensures VertexEquals(a, c) == VertexEquals(b, c)
    ensures VertexHash(a) == VertexHash(b)
    ensures VertexCompare(a, c) == VertexCompare(b, c)
    ensures VertexCompare(c, a) == VertexCompare(c, b)
  {
  }

  /** `Vertex.addEdge(e)`: an edge that does not end at this vertex throws
      IllegalArgumentException; otherwise it is appended. */
  function AddEdgeTo(v: Vertex, e: Edge): (r: Result<Vertex>)
    ensures r.Ok? <==> IsVertexOfEdge(e, v.id)
    ensures r.Ok? ==> r.value == Vertex(v.id, v.edges + [e])
    ensures !r.Ok? ==> r.exception == IllegalArgument
  {
    if e.start != v.id && e.target != v.id then Throw(IllegalArgument)
    else Ok(Vertex(v.id, v.edges + [e]))
  }

  /** The first position in `s` of an edge equal to `e`, or -1. */
  function FirstEqual(s: seq<Edge>, e: Edge): (i: int)
    ensures -1 <= i < |s|
    ensures i == -1 <==> forall k :: 0 <= k < |s| ==> !EdgeEquals(s[k], e)
    ensures 0 <= i ==> EdgeEquals(s[i], e) && forall k :: 0 <= k < i ==> !EdgeEquals(s[k], e)
  {
    if s == [] then -1
    else if EdgeEquals(s[0], e) then 0
    else
      var j := FirstEqual(s[1..], e);
      assert forall k :: 1 <= k < |s| ==> s[k] == s[1..][k - 1];
      if j == -1 then -1 else j + 1
  }

  /** `List.remove(e)` on an edge list: drops the first edge equal to `e`. */
  function RemoveEqual(s: seq<Edge>, e: Edge): seq<Edge>
  {
    if s == [] then []
    else if EdgeEquals(s[0], e) then s[1..]
    else [s[0]] + RemoveEqual(s[1..], e)
  }

  /** `RemoveEqual` keeps the list when no edge equals `e`, and otherwise
      cuts out exactly the first equal one, keeping the order of the rest. */
  lemma {:induction false} RemoveEqualSpec(s: seq<Edge>, e: Edge)
    ensures FirstEqual(s, e) == -1 ==> RemoveEqual(s, e) == s
    ensures FirstEqual(s, e) >= 0 ==> RemoveEqual(s, e) == s[..FirstEqual(s, e)] + s[FirstEqual(s, e) + 1..]
  {
    if s != [] && !EdgeEquals(s[0], e) {
      RemoveEqualSpec(s[1..], e);
      var f := FirstEqual(s[1..], e);
      if f >= 0 {
        assert s[..f + 1] == [s[0]] + s[1..][..f];
        assert s[f + 2..] == s[1..][f + 1..];
      } else {
        assert s == [s[0]] + s[1..];
      }
    }
  }

  /** `List.contains(e)` on an edge list. */
  predicate ContainsEqual(s: seq<Edge>, e: Edge)
  {
    exists k :: 0 <= k < |s| && EdgeEquals(s[k], e)
  }

  /** The end vertex `getNeighbors` reports for edge `e` of vertex `v`:
      the target when `v` is the start, the start otherwise. */
  function Neighbor(v: Vertex, e: Edge): nat
  {
    if e.start == v.id then e.target else e.start
  }

  /** For an edge of `v`, the reported neighbour is the other end. */
  lemma NeighborIsOtherEnd(v: Vertex, e: Edge)
    requires IsVertexOfEdge(e, v.id)
    ensures GetOtherEnd(e, v.id) == Ok(Neighbor(v, e))
  {
  }

  /** `getNeighbors`: one entry per edge, in the order of the edge list. */
  method GetNeighbors(v: Vertex) returns (neighbors: array<nat>)
    ensures fresh(neighbors) && neighbors.Length == |v.edges|
    ensures forall i :: 0 <= i < |v.edges| ==> neighbors[i] == Neighbor(v, v.edges[i])
  {
    neighbors := new nat[|v.edges|];
    var i := 0;
    while i < |v.edges|
      invariant 0 <= i <= |v.edges|
      invariant forall k :: 0 <= k < i ==> neighbors[k] == Neighbor(v, v.edges[k])
    {
      if v.edges[i].start == v.id {
        neighbors[i] := v.edges[i].target;
      } else {
        neighbors[i] := v.edges[i].start;
      }
      i := i + 1;
    }
  }

  /** Some edge of `v` leads to the vertex with id `w`. */
  ghost predicate HasNeighbor(v: Vertex, w: nat)
  {
    exists i :: 0 <= i < |v.edges| && Neighbor(v, v.edges[i]) == w
  }

  /** `isNeighbor(w)`: a scan of `getNeighbors` for id `w`. */
  method IsNeighbor(v: Vertex, w: nat) returns (r: bool)
    ensures r <==> HasNeighbor(v, w)
  {
    var neighbors := GetNeighbors(v);
    var i := 0;
    while i < neighbors.Length
      invariant 0 <= i <= neighbors.Length
      invariant forall k :: 0 <= k < i ==> neighbors[k] != w
    {
      if neighbors[i] == w {
        return true;
      }
      i := i + 1;
    }
    return false;
  }

  /** What `isValid` needs to look up: every edge of `v` ends at `v` (as
      `addEdge` guarantees), and its ends are vertices of `vs`, where the
      vertex with id `w` is found at position `w`. */
  ghost predicate Lookups(vs: seq<Vertex>, v: Vertex)
  {
    forall k :: 0 <= k < |v.edges| ==>
      IsVertexOfEdge(v.edges[k], v.id) && v.edges[k].start < |vs| && v.edges[k].target < |vs|
  }

  /** The checks `isValid` makes for the edge at position `k` of `v`: it
      is no loop, its other end lists `v` as a neighbour, and no edge at
      another position leads to the same vertex. */
  ghost predicate EdgeOk(vs: seq<Vertex>, v: Vertex, k: nat)
    requires Lookups(vs, v) && k < |v.edges|
  {
    var w := Neighbor(v, v.edges[k]);
    w != v.id && HasNeighbor(vs[w], v.id) &&
    forall j :: 0 <= j < |v.edges| && j != k ==> Neighbor(v, v.edges[j]) != w
  }

  /** `Vertex.isValid`: no loop, no multi-edge, and every neighbour
      lists this vertex back.  (The id is never negative.) */
  ghost predicate VertexValid(vs: seq<Vertex>, v: Vertex)
    requires Lookups(vs, v)
  {
    forall k :: 0 <= k < |v.edges| ==> EdgeOk(vs, v, k)
  }

  /** The body of `isValid`'s outer loop for the edge at position `k`. */
  method CheckEdge(vs: seq<Vertex>, v: Vertex, k: nat) returns (r: bool)
    requires Lookups(vs, v) && k < |v.edges|
    ensures r <==> EdgeOk(vs, v, k)
  {
    var edge := v.edges[k];
    var neighbor := GetOtherEnd(edge, v.id).value;
    NeighborIsOtherEnd(v, edge);
    if neighbor == v.id {
      return false;
    }
    var back := IsNeighbor(vs[neighbor], v.id);
    if !back {
      return false;
    }
    var j := 0;
    while j < |v.edges|
      invariant 0 <= j <= |v.edges|
      invariant forall i :: 0 <= i < j && i != k ==> Neighbor(v, v.edges[i]) != neighbor
    {
      if j != k {
        NeighborIsOtherEnd(v, v.edges[j]);
        if GetOtherEnd(v.edges[j], v.id).value == neighbor {
          return false;
        }
      }
      j := j + 1;
    }
    return true;
  }

  /** `Vertex.isValid`, edge by edge with early exit. */
  method IsVertexValid(vs: seq<Vertex>, v: Vertex) returns (r: bool)
    requires Lookups(vs, v)
    ensures r <==> VertexValid(vs, v)
  {
    var k := 0;
    while k < |v.edges|
      invariant 0 <= k <= |v.edges|
      invariant forall i :: 0 <= i < k ==> EdgeOk(vs, v, i)
    {
      var ok := CheckEdge(vs, v, k);
      if !ok {
        return false;
      }
      k := k + 1;
    }
    return true;
  }
}
