/** The flat `Graph`: `n` vertices with ids `0 .. n - 1`, an edge list,
    the edge count field `m` and the edge id counter.  Every edge is
    registered in the edge lists of both of its end vertices, so a vertex's
    edge list is determined by the graph's edge list (`Incident`); the
    graph holds its vertices as records in the sequence `vertices`. */
module FlatGraphs {
  import opened Exceptions
  import opened FlatModel

  // ---------------------------------------------------------------------
  // Edge lists seen from one vertex

  /** The entries edge `e` contributes to the edge list of vertex `i`:
      one per end equal to `i` (a loop registers itself twice). */
  function Slots(e: Edge, i: nat): seq<Edge>
  {
    (if e.start == i then [e] else []) + (if e.target == i then [e] else [])
  }

  /** The edge list of vertex `i` when the edges of `es` were added in
      order. */
  function Incident(es: seq<Edge>, i: nat): seq<Edge>
  {
    if es == [] then [] else Slots(es[0], i) + Incident(es[1..], i)
  }

  /** The vertex records of a graph with `n` vertices and edge list `es`. */
  function Incidences(n: nat, es: seq<Edge>): (vs: seq<Vertex>)
    ensures |vs| == n
    ensures forall i :: 0 <= i < n ==> vs[i] == Vertex(i, Incident(es, i))
  {
    seq(n, i requires 0 <= i => Vertex(i, Incident(es, i)))
  }

  /** Both ends of every edge are vertices of the graph. */
  ghost predicate EndsBelow(es: seq<Edge>, n: nat)
  {
    forall k :: 0 <= k < |es| ==> es[k].start < n && es[k].target < n
  }

  /** Edge ids strictly increase along the list and stay below `bound`. */
  ghost predicate IdsBelow(es: seq<Edge>, bound: nat)
  {
    (forall k :: 0 <= k < |es| ==> 0 <= es[k].id < bound) &&
    forall k, l :: 0 <= k < l < |es| ==> es[k].id < es[l].id
  }

  /** Every edge starts at its end with the lower id. */
  ghost predicate Ordered(es: seq<Edge>)
  {
    forall k :: 0 <= k < |es| ==> es[k].start <= es[k].target
  }

  /** No two edges share an id. */
  ghost predicate NoRepeatedId(es: seq<Edge>)
  {
    forall k, l :: 0 <= k < l < |es| ==> es[k].id != es[l].id
  }

  /** `Edge.isValid(directed)` for an edge of the graph: an undirected
      edge starts at its lower end, and both end vertices list it. */
  predicate EdgeValid(e: Edge, directed: bool, vs: seq<Vertex>)
    requires e.start < |vs| && e.target < |vs|
  {
    (directed || e.start < e.target) &&
    ContainsEqual(vs[e.start].edges, e) && ContainsEqual(vs[e.target].edges, e)
  }

  /** The sum of the degrees. */
  function DegreeSum(vs: seq<Vertex>): nat
  {
    if vs == [] then 0 else DegreeSum(vs[..|vs| - 1]) + |vs[|vs| - 1].edges|
  }

  /** No loop and no two edges between the same two vertices. */
  ghost predicate Simple(es: seq<Edge>)
  {
    (forall k :: 0 <= k < |es| ==> es[k].start != es[k].target) &&
    forall k, l :: 0 <= k < l < |es| ==> !SameEnds(es[k], es[l])
  }

  /** Two edges join the same two vertices, in either direction. */
  predicate SameEnds(a: Edge, b: Edge)
  {
    (a.start == b.start && a.target == b.target) || (a.start == b.target && a.target == b.start)
  }

  class Graph {
    var vertices: seq<Vertex>
    var edges: seq<Edge>
    const n: nat
    var m: int
    var edgeIdCounter: nat
    const isDirected: bool

    /** What every public operation keeps: the vertex records are those of
        the edge list, ends are vertices, ids increase below the counter,
        and an undirected graph stores each edge from its lower end. */
    ghost predicate Valid()
      reads this
    {
      EndsBelow(edges, n) && IdsBelow(edges, edgeIdCounter) &&
      (!isDirected ==> Ordered(edges)) && vertices == Incidences(n, edges)
    }

    /** `new Graph(n, m, directed)` once its arguments are known to be
        admissible: vertex `i` has id `i`, there are no edges. */
    constructor(n: nat, directed: bool)
      ensures this.n == n && isDirected == directed
      ensures vertices == seq(n, i requires 0 <= i => Vertex(i, [])) && edges == []
      ensures m == 0 && edgeIdCounter == 0
      ensures Valid()
    {
      this.n := n;
      isDirected := directed;
      vertices := seq(n, i requires 0 <= i => Vertex(i, []));
      edges := [];
      m := 0;
      edgeIdCounter := 0;
    }

    /** `getM`: the length of the edge list (not the field `m`). */
    function GetM(): (r: nat)
      reads this
      ensures r == |edges|
    {
      |edges|
    }

    /** `addEdge(first, second)` on two vertices of this graph: an
        undirected graph starts the edge at the lower id; the edge gets the
        counter as id and is registered at its start, then its target. */
    method AddEdge(first: nat, second: nat)
      requires Valid() && first < n && second < n
      modifies this
      ensures Valid()
      ensures edges == old(edges) + [if !isDirected && first > second
                                     then Edge(second, first, old(edgeIdCounter))
                                     else Edge(first, second, old(edgeIdCounter))]
      ensures edgeIdCounter == old(edgeIdCounter) + 1 && m == |edges|
    {
      var a, b := first, second;
      if !isDirected && a > b {
        a, b := b, a;
      }
      var e := Edge(a, b, edgeIdCounter);
      ghost var es := edges;
      var va := AddEdgeTo(vertices[a], e).value;
      vertices := vertices[a := va];
      var vb := AddEdgeTo(vertices[b], e).value;
      vertices := vertices[b := vb];
      edges := edges + [e];
      edgeIdCounter := edgeIdCounter + 1;
      m := |edges|;
      AppendIncidences(n, es, e);
    }

    /** `addEdge(firstId, secondId)`: an id outside `[0, n)` throws
        ArrayIndexOutOfBoundsException and leaves the graph as it was. */
    method AddEdgeById(first: int, second: int) returns (r: Outcome)
      requires Valid()
      modifies this
      ensures Valid()
      ensures r.Done? <==> 0 <= first < n && 0 <= second < n
      ensures r.Raise? ==> r.exception == IndexOutOfBounds && unchanged(this)
      ensures r.Done? ==> edges == old(edges) + [if !isDirected && first > second
                                                 then Edge(second, first, old(edgeIdCounter))
                                                 else Edge(first, second, old(edgeIdCounter))]
      ensures r.Done? ==> edgeIdCounter == old(edgeIdCounter) + 1 && m == |edges|
    {
      if !(0 <= first < n && 0 <= second < n) {
        return Raise(IndexOutOfBounds);
      }
      AddEdge(first, second);
      return Done;
    }

    /** `removeEdge(e)` for an edge whose ends are vertices of this graph:
        the first edge equal to `e` leaves the edge list and the edge lists
        of both ends; the field `m` is not updated. */
    method RemoveEdge(e: Edge)
      requires Valid() && e.start < n && e.target < n
      modifies this
      ensures Valid()
      ensures edges == RemoveEqual(old(edges), e)
      ensures m == old(m) && edgeIdCounter == old(edgeIdCounter)
    {
      ghost var es := edges;
      edges := RemoveEqual(edges, e);
      vertices := vertices[e.start := Vertex(e.start, RemoveEqual(vertices[e.start].edges, e))];
      vertices := vertices[e.target := Vertex(e.target, RemoveEqual(vertices[e.target].edges, e))];
      RemoveKeeps(es, e, edgeIdCounter, n, isDirected);
      RemoveIncidences(n, es, e);
    }

    /** What `isValid` relies on to run without an exception: edge ids
        index its counting array, and every vertex's edges end there and
        at vertices of the graph. */
    ghost predicate Lookable()
      reads this
    {
      Checkable(vertices, edges, edgeIdCounter)
    }

    /** The verdict of `isValid`. */
    ghost predicate ValidGraph()
      reads this
      requires Lookable()
    {
      IsValidGraph(n, vertices, edges, m, isDirected)
    }

    /** `isValid`: the checks in the order of the source, each returning
        false at the first failure. */
    method IsValid() returns (r: bool)
      requires Lookable()
      ensures r == ValidGraph()
    {
      if n != |vertices| {
        return false;
      }
      var i := 0;
      while i < |vertices|
        invariant 0 <= i <= |vertices|
        invariant forall j :: 0 <= j < i ==> vertices[j].id == j
      {
        if vertices[i].id != i {
          return false;
        }
        i := i + 1;
      }
      if m != |edges| {
        return false;
      }
      i := 0;
      while i < |vertices|
        invariant 0 <= i <= |vertices|
        invariant forall j :: 0 <= j < i ==> VertexValid(vertices, vertices[j])
      {
        var ok := IsVertexValid(vertices, vertices[i]);
        if !ok {
          return false;
        }
        i := i + 1;
      }
      var okIds := CheckEdges(vertices, edges, isDirected, edgeIdCounter);
      if !okIds {
        return false;
      }
      var sumDegree := 0;
      i := 0;
      while i < |vertices|
        invariant 0 <= i <= |vertices|
        invariant sumDegree == DegreeSum(vertices[..i])
      {
        assert vertices[..i + 1][..i] == vertices[..i];
        sumDegree := sumDegree + |vertices[i].edges|;
        i := i + 1;
      }
      assert vertices[..|vertices|] == vertices;
      return sumDegree == 2 * GetM();
    }

    /** `copy`: a new graph with the same vertex count and directedness,
        receiving the edges by `addEdge(startId, targetId)` in order, so
        its edge count and id counter are up to date even when this
        graph's `m` is stale.  The copy passes `isValid` exactly when the
        edges form a simple graph. */
    method Copy() returns (c: Graph)
      requires Valid()
      ensures fresh(c) && c.Valid()
      ensures c.n == n && c.isDirected == isDirected && c.GetM() == GetM()
      ensures forall k :: 0 <= k < |edges| ==> c.edges[k] == Edge(edges[k].start, edges[k].target, k)
      ensures c.m == |c.edges| && c.edgeIdCounter == |edges|
      ensures c.Lookable() && (c.ValidGraph() <==> Simple(edges))
    {
      c := new Graph(n, isDirected);
      var k := 0;
      while k < |edges|
        invariant 0 <= k <= |edges|
        invariant fresh(c) && c.Valid() && c.n == n && c.isDirected == isDirected
        invariant c.edgeIdCounter == k && |c.edges| == k && c.m == k
        invariant forall j :: 0 <= j < k ==> c.edges[j] == Edge(edges[j].start, edges[j].target, j)
      {
        c.AddEdge(edges[k].start, edges[k].target);
        k := k + 1;
      }
      ValidGraphIffSimple(c.n, c.edges, c.m, c.isDirected, c.edgeIdCounter);
      SimpleByEnds(edges, c.edges);
    }
  }

  /** Simplicity depends on the ends of the edges alone. */
  lemma SimpleByEnds(es: seq<Edge>, cs: seq<Edge>)
    requires |es| == |cs|
    requires forall k :: 0 <= k < |es| ==> cs[k] == Edge(es[k].start, es[k].target, k)
    ensures Simple(cs) <==> Simple(es)
  {
    forall k | 0 <= k < |es| ensures cs[k].start == es[k].start && cs[k].target == es[k].target {
    }
  }

  /** `GraphUtils.initVerticesArray`: slot `i` receives a new vertex with
      id `i`; the same array is returned. */
  method InitVerticesArray(vertices: array<Vertex>) returns (r: array<Vertex>)
    modifies vertices
    ensures r == vertices
    ensures forall i :: 0 <= i < vertices.Length ==> vertices[i] == Vertex(i, [])
  {
    var i := 0;
    while i < vertices.Length
      invariant 0 <= i <= vertices.Length
      invariant forall j :: 0 <= j < i ==> vertices[j] == Vertex(j, [])
    {
      vertices[i] := NewVertex(i).value;
      i := i + 1;
    }
    return vertices;
  }

  /** `GraphUtils.getInitialVertexArray(n)`: a negative length throws
      NegativeArraySizeException. */
  method GetInitialVertexArray(n: int) returns (r: Result<array<Vertex>>)
    ensures r.Ok? <==> n >= 0
    ensures !r.Ok? ==> r.exception == NegativeArraySize
    ensures r.Ok? ==> fresh(r.value) && r.value.Length == n
    ensures r.Ok? ==> forall i :: 0 <= i < n ==> r.value[i] == Vertex(i, [])
  {
    if n < 0 {
      return Throw(NegativeArraySize);
    }
    var vertices := new Vertex[n];
    vertices := InitVerticesArray(vertices);
    return Ok(vertices);
  }

  /** `new Graph(n, m, directed)`: the vertex array throws for a negative
      `n`, the edge list's initial capacity throws IllegalArgumentException
      for a negative `m`; otherwise `n` vertices with ids `0 .. n - 1`, no
      edges, `m` field 0. */
  method NewGraph(n: int, m: int, directed: bool) returns (r: Result<Graph>)
    ensures r.Ok? <==> n >= 0 && m >= 0
    ensures !r.Ok? ==> r.exception == (if n < 0 then NegativeArraySize else IllegalArgument)
    ensures r.Ok? ==> fresh(r.value) && r.value.Valid()
    ensures r.Ok? ==> r.value.n == n && r.value.isDirected == directed
    ensures r.Ok? ==> r.value.edges == [] && r.value.m == 0 && r.value.edgeIdCounter == 0
    ensures r.Ok? ==> r.value.vertices == seq(n, i requires 0 <= i => Vertex(i, []))
  {
    var vertices := GetInitialVertexArray(n);
    if vertices.Throw? {
      return Throw(vertices.exception);
    }
    if m < 0 {
      return Throw(IllegalArgument);
    }
    var g := new Graph(n, directed);
    return Ok(g);
  }

  /** After `removeEdge` took an edge out of a graph whose field `m` was
      up to date, `isValid` fails: `m` still counts the removed edge. */
  lemma RemoveLeavesStale(n: nat, es: seq<Edge>, e: Edge, m: int, directed: bool, bound: nat)
    requires EndsBelow(es, n) && IdsBelow(es, bound) && (!directed ==> Ordered(es))
    requires m == |es| && FirstEqual(es, e) >= 0
    ensures Checkable(Incidences(n, RemoveEqual(es, e)), RemoveEqual(es, e), bound)
    ensures !IsValidGraph(n, Incidences(n, RemoveEqual(es, e)), RemoveEqual(es, e), m, directed)
  {
    RemoveKeeps(es, e, bound, n, directed);
    RemoveEqualSpec(es, e);
    ValidGraphIffSimple(n, RemoveEqual(es, e), m, directed, bound);
  }

  /** See `Graph.Lookable`. */
  ghost predicate Checkable(vs: seq<Vertex>, es: seq<Edge>, bound: nat)
  {
    (forall k :: 0 <= k < |es| ==> es[k].start < |vs| && es[k].target < |vs| && 0 <= es[k].id < bound) &&
    forall i :: 0 <= i < |vs| ==> Lookups(vs, vs[i])
  }

  /** `Graph.isValid` on the state of a graph, clause by clause. */
  ghost predicate IsValidGraph(n: nat, vs: seq<Vertex>, es: seq<Edge>, m: int, directed: bool)
    requires forall i :: 0 <= i < |vs| ==> Lookups(vs, vs[i])
    requires forall k :: 0 <= k < |es| ==> es[k].start < |vs| && es[k].target < |vs|
  {
    n == |vs| && (forall i :: 0 <= i < |vs| ==> vs[i].id == i) && m == |es| &&
    (forall i :: 0 <= i < |vs| ==> VertexValid(vs, vs[i])) &&
    (forall k :: 0 <= k < |es| ==> EdgeValid(es[k], directed, vs)) &&
    NoRepeatedId(es) && DegreeSum(vs) == 2 * |es|
  }

  /** How many edges of `es` carry the id `x`. */
  function CountId(es: seq<Edge>, x: int): nat
  {
    if es == [] then 0 else CountId(es[..|es| - 1], x) + (if es[|es| - 1].id == x then 1 else 0)
  }

  /** The edge loop of `isValid` (each edge's id counted in `edgeIds`,
      each edge checked) and the scan of `edgeIds` for an id used twice. */
  method CheckEdges(vs: seq<Vertex>, es: seq<Edge>, directed: bool, bound: nat) returns (r: bool)
    requires Checkable(vs, es, bound)
    ensures r <==> (forall k :: 0 <= k < |es| ==> EdgeValid(es[k], directed, vs)) && NoRepeatedId(es)
  {
    var edgeIds := new int[bound](_ => 0);
    var k := 0;
    while k < |es|
      invariant 0 <= k <= |es|
      invariant forall x :: 0 <= x < bound ==> edgeIds[x] == CountId(es[..k], x)
      invariant forall j :: 0 <= j < k ==> EdgeValid(es[j], directed, vs)
    {
      assert es[..k + 1][..k] == es[..k];
      edgeIds[es[k].id] := edgeIds[es[k].id] + 1;
      if !EdgeValid(es[k], directed, vs) {
        return false;
      }
      k := k + 1;
    }
    assert es[..|es|] == es;
    var x := 0;
    while x < bound
      invariant 0 <= x <= bound
      invariant forall y :: 0 <= y < x ==> CountId(es, y) <= 1
    {
      if edgeIds[x] > 1 {
        CountsFindRepeat(es, x);
        return false;
      }
      x := x + 1;
    }
    CountsBoundRepeats(es, bound);
    return true;
  }

  /** An id counted twice is carried by two edges. */
  lemma {:induction false} CountsFindRepeat(es: seq<Edge>, x: int)
    requires CountId(es, x) > 1
    ensures !NoRepeatedId(es)
  {
    var last := |es| - 1;
    var front := es[..last];
    if es[last].id == x && CountId(front, x) > 0 {
      var k := CountedAt(front, x);
      assert es[k] == front[k];
    } else {
      CountsFindRepeat(front, x);
      assert forall k :: 0 <= k < last ==> es[k] == front[k];
    }
  }

  /** An id with a positive count is carried by some edge. */
  lemma {:induction false} CountedAt(es: seq<Edge>, x: int) returns (k: nat)
    requires CountId(es, x) > 0
    ensures k < |es| && es[k].id == x
  {
    var last := |es| - 1;
    if es[last].id == x {
      k := last;
    } else {
      k := CountedAt(es[..last], x);
    }
  }

  /** Distinct ids below `bound` are each counted at most once. */
  lemma CountsBoundRepeats(es: seq<Edge>, bound: nat)
    requires forall k :: 0 <= k < |es| ==> 0 <= es[k].id < bound
    requires forall y :: 0 <= y < bound ==> CountId(es, y) <= 1
    ensures NoRepeatedId(es)
  {
    forall k, l | 0 <= k < l < |es|
      ensures es[k].id != es[l].id
    {
      if es[k].id == es[l].id {
        TwoCounted(es, k, l);
      }
    }
  }

  /** Two edges with the same id are both counted. */
  lemma {:induction false} TwoCounted(es: seq<Edge>, k: nat, l: nat)
    requires k < l < |es| && es[k].id == es[l].id
    ensures CountId(es, es[k].id) >= 2
  {
    var last := |es| - 1;
    var front := es[..last];
    if l == last {
      OneCounted(front, k);
    } else {
      TwoCounted(front, k, l);
    }
  }

  /** An edge's id is counted. */
  lemma {:induction false} OneCounted(es: seq<Edge>, k: nat)
    requires k < |es|
    ensures CountId(es, es[k].id) >= 1
  {
    var last := |es| - 1;
    if k < last {
      OneCounted(es[..last], k);
    }
  }

  // ---------------------------------------------------------------------
  // Lemmas about the representation

  /** Adding an edge at the end appends its slots to each vertex's list. */
  lemma {:induction false} IncidentAppend(es: seq<Edge>, e: Edge, i: nat)
    ensures Incident(es + [e], i) == Incident(es, i) + Slots(e, i)
  {
    if es == [] {
      assert Incident([e], i) == Slots(e, i) + Incident([], i);
    } else {
      var rest := es[1..];
      assert (es + [e])[0] == es[0] && (es + [e])[1..] == rest + [e];
      calc {
        Incident(es + [e], i);
        Slots(es[0], i) + Incident(rest + [e], i);
        { IncidentAppend(rest, e, i); }
        Slots(es[0], i) + (Incident(rest, i) + Slots(e, i));
        (Slots(es[0], i) + Incident(rest, i)) + Slots(e, i);
      }
    }
  }

  /** The vertex records after `addEdge` registered `e` at its start,
      then at its target, are those of the longer edge list. */
  lemma AppendIncidences(n: nat, es: seq<Edge>, e: Edge)
    requires e.start < n && e.target < n
    ensures var vs := Incidences(n, es);
            var vs1 := vs[e.start := Vertex(e.start, vs[e.start].edges + [e])];
            vs1[e.target := Vertex(e.target, vs1[e.target].edges + [e])] == Incidences(n, es + [e])
  {
    var vs := Incidences(n, es);
    var vs1 := vs[e.start := Vertex(e.start, vs[e.start].edges + [e])];
    var vs2 := vs1[e.target := Vertex(e.target, vs1[e.target].edges + [e])];
    forall i | 0 <= i < n
      ensures vs2[i] == Incidences(n, es + [e])[i]
    {
      IncidentAppend(es, e, i);
    }
  }

  /** `removeEdge` as seen by vertex `i`: one removal per end of `e` equal
      to `i`, at the start vertex first. */
  function Strip(s: seq<Edge>, e: Edge, i: nat): seq<Edge>
  {
    var s1 := if e.start == i then RemoveEqual(s, e) else s;
    if e.target == i then RemoveEqual(s1, e) else s1
  }

  /** Removing an edge equal to the head removes the head. */
  lemma RemoveHead(x: Edge, s: seq<Edge>, e: Edge)
    requires EdgeEquals(x, e)
    ensures RemoveEqual([x] + s, e) == s
  {
    assert ([x] + s)[1..] == s;
  }

  /** A prefix without edges equal to `e` is kept in front. */
  lemma {:induction false} RemoveAfter(p: seq<Edge>, s: seq<Edge>, e: Edge)
    requires forall k :: 0 <= k < |p| ==> !EdgeEquals(p[k], e)
    ensures RemoveEqual(p + s, e) == p + RemoveEqual(s, e)
  {
    if p == [] {
      assert p + s == s;
    } else {
      RemoveAfter(p[1..], s, e);
      assert (p + s)[0] == p[0] && (p + s)[1..] == p[1..] + s;
      assert p + RemoveEqual(s, e) == [p[0]] + (p[1..] + RemoveEqual(s, e));
    }
  }

  /** `removeEdge` removes from each end vertex's list exactly what the
      removal from the graph's list takes away from it. */
  lemma {:induction false} IncidentRemove(es: seq<Edge>, e: Edge, i: nat)
    ensures Incident(RemoveEqual(es, e), i) == Strip(Incident(es, i), e, i)
  {
    if es != [] {
      var x := es[0];
      var rest := es[1..];
      var tail := Incident(rest, i);
      if EdgeEquals(x, e) {
        if e.start == i && e.target == i {
          RemoveHead(x, [x] + tail, e);
          RemoveHead(x, tail, e);
          assert Slots(x, i) + tail == [x] + ([x] + tail);
        } else if e.start == i || e.target == i {
          RemoveHead(x, tail, e);
          assert Slots(x, i) + tail == [x] + tail;
        } else {
          assert Slots(x, i) + tail == tail;
        }
      } else {
        IncidentRemove(rest, e, i);
        var r := RemoveEqual(rest, e);
        assert RemoveEqual(es, e) == [x] + r;
        assert ([x] + r)[0] == x && ([x] + r)[1..] == r;
        var p := Slots(x, i);
        assert forall k :: 0 <= k < |p| ==> p[k] == x;
        RemoveAfter(p, tail, e);
        RemoveAfter(p, RemoveEqual(tail, e), e);
        RemoveAfter(p, Strip(tail, e, i), e);
        if e.start == i {
          RemoveAfter(p, RemoveEqual(tail, e), e);
        }
      }
    }
  }

  /** The vertex records after `removeEdge(e)` are those of the shortened
      edge list. */
  lemma RemoveIncidences(n: nat, es: seq<Edge>, e: Edge)
    requires e.start < n && e.target < n
    ensures var vs := Incidences(n, es);
            var vs1 := vs[e.start := Vertex(e.start, RemoveEqual(vs[e.start].edges, e))];
            vs1[e.target := Vertex(e.target, RemoveEqual(vs1[e.target].edges, e))]
            == Incidences(n, RemoveEqual(es, e))
  {
    forall i | 0 <= i < n {
      IncidentRemove(es, e, i);
    }
  }

  /** Removing the first equal edge keeps the representation properties. */
  lemma RemoveKeeps(es: seq<Edge>, e: Edge, bound: nat, n: nat, directed: bool)
    requires EndsBelow(es, n) && IdsBelow(es, bound) && (!directed ==> Ordered(es))
    ensures EndsBelow(RemoveEqual(es, e), n) && IdsBelow(RemoveEqual(es, e), bound)
    ensures !directed ==> Ordered(RemoveEqual(es, e))
  {
    RemoveEqualSpec(es, e);
    var f := FirstEqual(es, e);
    if f >= 0 {
      DropKeeps(es, f, bound, n, directed);
    }
  }

  /** Dropping the edge at position `f` keeps the representation
      properties. */
  lemma DropKeeps(es: seq<Edge>, f: nat, bound: nat, n: nat, directed: bool)
    requires f < |es| && EndsBelow(es, n) && IdsBelow(es, bound) && (!directed ==> Ordered(es))
    ensures EndsBelow(es[..f] + es[f + 1..], n) && IdsBelow(es[..f] + es[f + 1..], bound)
    ensures !directed ==> Ordered(es[..f] + es[f + 1..])
  {
    var r := es[..f] + es[f + 1..];
    forall k | 0 <= k < |r|
      ensures r[k] == es[if k < f then k else k + 1]
    {
      if k < f {
        assert r[k] == es[..f][k];
      } else {
        assert r[k] == es[f + 1..][k - f];
      }
    }
    forall k, l | 0 <= k < l < |r|
      ensures r[k].id < r[l].id
    {
      var k', l' := if k < f then k else k + 1, if l < f then l else l + 1;
      assert r[k] == es[k'] && r[l] == es[l'] && k' < l';
    }
  }

  // ---------------------------------------------------------------------
  // What `isValid` decides on a graph kept by its operations

  /** The entries of a vertex's list are the edges of the graph that end
      there. */
  lemma {:induction false} IncidentMembers(es: seq<Edge>, i: nat, x: Edge)
    ensures x in Incident(es, i) <==> x in es && IsVertexOfEdge(x, i)
  {
    if es != [] {
      IncidentMembers(es[1..], i, x);
      assert es == [es[0]] + es[1..];
    }
  }

  /** Every vertex record of the graph can be checked by `isValid`. */
  lemma IncidencesCheckable(n: nat, es: seq<Edge>, bound: nat)
    requires EndsBelow(es, n) && IdsBelow(es, bound)
    ensures Checkable(Incidences(n, es), es, bound)
  {
    var vs := Incidences(n, es);
    forall i | 0 <= i < n
      ensures Lookups(vs, vs[i])
    {
      forall k | 0 <= k < |vs[i].edges|
        ensures IsVertexOfEdge(vs[i].edges[k], i)
        ensures vs[i].edges[k].start < n && vs[i].edges[k].target < n
      {
        IncidentMembers(es, i, vs[i].edges[k]);
      }
    }
  }

  /** A graph with `n` vertices and no edges has degree sum 0. */
  lemma {:induction false} DegreeSumEmpty(n: nat)
    ensures DegreeSum(Incidences(n, [])) == 0
  {
    if n > 0 {
      assert Incidences(n, [])[..n - 1] == Incidences(n - 1, []);
      DegreeSumEmpty(n - 1);
    }
  }

  /** Putting edge `x` in front adds one to the degree sum per end of `x`
      among the first `n` vertices. */
  lemma {:induction false} DegreeSumCons(n: nat, x: Edge, rest: seq<Edge>)
    ensures DegreeSum(Incidences(n, [x] + rest))
            == DegreeSum(Incidences(n, rest)) + (if x.start < n then 1 else 0) + (if x.target < n then 1 else 0)
  {
    if n > 0 {
      DegreeSumCons(n - 1, x, rest);
      assert Incidences(n, [x] + rest)[..n - 1] == Incidences(n - 1, [x] + rest);
      assert Incidences(n, rest)[..n - 1] == Incidences(n - 1, rest);
      assert ([x] + rest)[1..] == rest;
      assert Incident([x] + rest, n - 1) == Slots(x, n - 1) + Incident(rest, n - 1);
    }
  }

  /** The degrees sum to twice the number of edges. */
  lemma {:induction false} DegreeSumEdges(n: nat, es: seq<Edge>)
    requires EndsBelow(es, n)
    ensures DegreeSum(Incidences(n, es)) == 2 * |es|
  {
    if es == [] {
      DegreeSumEmpty(n);
    } else {
      DegreeSumEdges(n, es[1..]);
      DegreeSumCons(n, es[0], es[1..]);
      assert es == [es[0]] + es[1..];
    }
  }

  /** Without loops and repeated ids, no vertex lists an edge twice. */
  lemma {:induction false} IncidentDistinct(es: seq<Edge>, i: nat)
    requires NoRepeatedId(es)
    requires forall k :: 0 <= k < |es| ==> es[k].start != es[k].target
    ensures forall p, q :: 0 <= p < q < |Incident(es, i)| ==> Incident(es, i)[p] != Incident(es, i)[q]
  {
    if es != [] {
      var rest := es[1..];
      assert forall k :: 0 <= k < |rest| ==> rest[k] == es[k + 1];
      IncidentDistinct(rest, i);
      IncidentMembers(rest, i, es[0]);
      assert es[0] !in rest;
    }
  }

  /** Every vertex record of the graph passes `Vertex.isValid`. */
  ghost predicate AllVerticesValid(n: nat, es: seq<Edge>)
  {
    var vs := Incidences(n, es);
    forall i :: 0 <= i < n ==> Lookups(vs, vs[i]) && VertexValid(vs, vs[i])
  }

  /** A simple graph passes every vertex check. */
  lemma SimpleVertexValid(n: nat, es: seq<Edge>, bound: nat, i: nat)
    requires EndsBelow(es, n) && IdsBelow(es, bound) && Simple(es) && i < n
    ensures Lookups(Incidences(n, es), Incidences(n, es)[i])
    ensures VertexValid(Incidences(n, es), Incidences(n, es)[i])
  {
    IncidencesCheckable(n, es, bound);
    forall p | 0 <= p < |Incident(es, i)|
      ensures EdgeOk(Incidences(n, es), Incidences(n, es)[i], p)
    {
      SimpleEdgeOk(n, es, bound, i, p);
    }
  }

  /** The check of one edge of vertex `i` passes in a simple graph. */
  lemma SimpleEdgeOk(n: nat, es: seq<Edge>, bound: nat, i: nat, p: nat)
    requires EndsBelow(es, n) && IdsBelow(es, bound) && Simple(es) && i < n && p < |Incident(es, i)|
    ensures Lookups(Incidences(n, es), Incidences(n, es)[i])
    ensures EdgeOk(Incidences(n, es), Incidences(n, es)[i], p)
  {
    var vs := Incidences(n, es);
    var v := vs[i];
    var list := Incident(es, i);
    IncidencesCheckable(n, es, bound);
    var x := list[p];
    IncidentMembers(es, i, x);
    var w := Neighbor(v, x);
    IncidentMembers(es, w, x);
    var q :| 0 <= q < |Incident(es, w)| && Incident(es, w)[q] == x;
    assert Neighbor(vs[w], vs[w].edges[q]) == i;
    forall j | 0 <= j < |list| && j != p
      ensures Neighbor(v, list[j]) != w
    {
      SimpleOtherNeighbor(n, es, bound, i, p, j);
    }
  }

  /** Two edges at different positions of vertex `i` lead to different
      neighbours in a simple graph. */
  lemma SimpleOtherNeighbor(n: nat, es: seq<Edge>, bound: nat, i: nat, p: nat, j: nat)
    requires EndsBelow(es, n) && IdsBelow(es, bound) && Simple(es) && i < n && p < |Incident(es, i)| && j < |Incident(es, i)| && j != p
    ensures Neighbor(Incidences(n, es)[i], Incident(es, i)[j]) != Neighbor(Incidences(n, es)[i], Incident(es, i)[p])
  {
    var list := Incident(es, i);
    assert NoRepeatedId(es);
    IncidentDistinct(es, i);
    IncidentMembers(es, i, list[p]);
    IncidentMembers(es, i, list[j]);
    var k :| 0 <= k < |es| && es[k] == list[p];
    var l :| 0 <= l < |es| && es[l] == list[j];
    assert list[j] != list[p];
    assert !SameEnds(es[k], es[l]) && !SameEnds(es[l], es[k]);
  }

  /** A graph whose vertices all pass the check is simple. */
  lemma ValidVerticesSimple(n: nat, es: seq<Edge>, bound: nat)
    requires EndsBelow(es, n) && IdsBelow(es, bound) && AllVerticesValid(n, es)
    ensures Simple(es)
  {
    var vs := Incidences(n, es);
    forall k | 0 <= k < |es|
      ensures es[k].start != es[k].target
    {
      var a := es[k].start;
      IncidentMembers(es, a, es[k]);
      var p :| 0 <= p < |vs[a].edges| && vs[a].edges[p] == es[k];
      assert EdgeOk(vs, vs[a], p);
    }
    forall k, l | 0 <= k < l < |es|
      ensures !SameEnds(es[k], es[l])
    {
      var a := es[k].start;
      if IsVertexOfEdge(es[l], a) {
        IncidentMembers(es, a, es[k]);
        IncidentMembers(es, a, es[l]);
        var p :| 0 <= p < |vs[a].edges| && vs[a].edges[p] == es[k];
        var q :| 0 <= q < |vs[a].edges| && vs[a].edges[q] == es[l];
        assert es[k] != es[l];
        assert EdgeOk(vs, vs[a], p);
        assert Neighbor(vs[a], vs[a].edges[q]) != Neighbor(vs[a], vs[a].edges[p]);
      }
    }
  }

  /** On a graph kept by its operations, `isValid` holds exactly when the
      field `m` is up to date and the graph has neither loops nor
      multi-edges: vertex ids, edge registration, edge ids and the degree
      sum are always in order. */
  lemma ValidGraphIffSimple(n: nat, es: seq<Edge>, m: int, directed: bool, bound: nat)
    requires EndsBelow(es, n) && IdsBelow(es, bound) && (!directed ==> Ordered(es))
    ensures Checkable(Incidences(n, es), es, bound)
    ensures IsValidGraph(n, Incidences(n, es), es, m, directed) <==> m == |es| && Simple(es)
  {
    var vs := Incidences(n, es);
    IncidencesCheckable(n, es, bound);
    DegreeSumEdges(n, es);
    EdgesRegistered(n, es);
    if Simple(es) {
      SimpleAllValid(n, es, bound);
    }
    if IsValidGraph(n, vs, es, m, directed) {
      ValidVerticesSimple(n, es, bound);
    }
  }

  /** Every edge is in the lists of both its ends. */
  lemma EdgesRegistered(n: nat, es: seq<Edge>)
    requires EndsBelow(es, n)
    ensures forall k :: 0 <= k < |es| ==>
      ContainsEqual(Incidences(n, es)[es[k].start].edges, es[k]) && ContainsEqual(Incidences(n, es)[es[k].target].edges, es[k])
  {
    var vs := Incidences(n, es);
    forall k | 0 <= k < |es|
      ensures ContainsEqual(vs[es[k].start].edges, es[k]) && ContainsEqual(vs[es[k].target].edges, es[k])
    {
      IncidentMembers(es, es[k].start, es[k]);
      IncidentMembers(es, es[k].target, es[k]);
    }
  }

  lemma SimpleAllValid(n: nat, es: seq<Edge>, bound: nat)
    requires EndsBelow(es, n) && IdsBelow(es, bound) && Simple(es)
    ensures AllVerticesValid(n, es)
  {
    forall i | 0 <= i < n
      ensures Lookups(Incidences(n, es), Incidences(n, es)[i]) && VertexValid(Incidences(n, es), Incidences(n, es)[i])
    {
      SimpleVertexValid(n, es, bound, i);
    }
  }
}
