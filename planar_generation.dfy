/** `PlanarGraphGeneration`: the Apollonian network, built in place on a
    `PlanarGraph`. */
module PlanarGeneration {
  import opened Exceptions
  import opened Lists
  import opened PlanarEmbedding
  import opened PlanarInvariants
  import opened Apollonian
  import opened Subdivision
  import opened EdgeFlips
  import opened FlipTriangulation
  import opened PlanarGraphs
  import opened JavaRandom

  /** `createApollonianNetwork(numVertices, seed)`: fewer than three
      vertices throw IllegalArgumentException; otherwise the base triangle
      is subdivided in randomly drawn faces until there are `numVertices`
      vertices.  Every intermediate graph is a plane triangulation, so the
      result has `3n - 6` edges and `2n - 4` triangular faces, whatever the
      draws. */
  method CreateApollonianNetwork(numVertices: int, random: Random) returns (r: Result<PlanarGraph>)
    modifies random
    ensures r.Throw? <==> numVertices < 3
    ensures r.Throw? ==> r.exception == IllegalArgument
    ensures r.Ok? ==> fresh(r.value)
    ensures r.Ok? ==> PlaneTriangulation(r.value.Model())
    ensures r.Ok? ==> r.value.GetN() == numVertices && r.value.GetM() == 3 * numVertices - 6
                      && r.value.GetF() == 2 * numVertices - 4
  {
    if numVertices < 3 {
      return Throw(IllegalArgument);
    }
    var g := new PlanarGraph([], [], [], []);
    BuildBaseTriangle(g);
    BaseTriangleIsPlaneTriangulation();
    while |g.vertices| != numVertices
      invariant fresh(g)
      invariant PlaneTriangulation(g.Model())
      invariant 3 <= |g.vertices| <= numVertices
      decreases numVertices - |g.vertices|
    {
      var d := random.NextInt(|g.faces|);
      var fi := d.value;
      ghost var E := g.Model();
      SubdividePreserves(E, fi);
      TriangleFace(E, fi);
      SubdivideFace(g, fi);
    }
    return Ok(g);
  }

  /** Step 1 of `createApollonianNetwork`: vertices v0, v1, v2, the outer
      face f0 and the inner face f1, the edges v0 -> v1, v1 -> v2, v2 -> v0
      with f1 on their left, and the rotation and boundary lists. */
  method BuildBaseTriangle(g: PlanarGraph)
    requires g.Model() == Embedding([], [], [], [])
    modifies g
    ensures g.Model() == BaseTriangle()
  {
    BaseVerticesAndFaces(g);
    var e0, e1, e2 := BaseEdges(g);
    BaseRotations(g);
    BaseBoundaries(g);
    g.AddEdge(e0);
    g.AddEdge(e1);
    g.AddEdge(e2);
  }

  /** Step 1 a) and b): vertices v0, v1, v2 and faces f0, f1. */
  method BaseVerticesAndFaces(g: PlanarGraph)
    requires g.Model() == Embedding([], [], [], [])
    modifies g
    ensures g.vertices == [PlanarVertex(0, []), PlanarVertex(1, []), PlanarVertex(2, [])]
    ensures g.faces == [PlanarFace(0, []), PlanarFace(1, [])]
    ensures g.halfEdges == [] && g.edges == []
  {
    var v0 := g.NewVertex(0);
    var v1 := g.NewVertex(1);
    var v2 := g.NewVertex(2);
    var f0 := g.NewFace(0);
    var f1 := g.NewFace(1);
  }

  /** Step 1 c): the edges v0 -> v1, v1 -> v2 and v2 -> v0 with the inner
      face f1 on their left and the outer face f0 on their right. */
  method BaseEdges(g: PlanarGraph) returns (e0: nat, e1: nat, e2: nat)
    requires g.halfEdges == []
    modifies g
    ensures (e0, e1, e2) == (0, 2, 4)
    ensures g.halfEdges == BaseTriangle().halfEdges
    ensures g.vertices == old(g.vertices) && g.edges == old(g.edges) && g.faces == old(g.faces)
  {
    e0 := g.EdgeFactory(0, 1, 1, 0, 0);
    e1 := g.EdgeFactory(1, 2, 1, 0, 1);
    e2 := g.EdgeFactory(2, 0, 1, 0, 2);
  }

  /** Step 1 d): the rotation lists of the base triangle. */
  method BaseRotations(g: PlanarGraph)
    requires g.vertices == [PlanarVertex(0, []), PlanarVertex(1, []), PlanarVertex(2, [])]
    requires g.halfEdges == BaseTriangle().halfEdges
    modifies g
    ensures g.vertices == BaseTriangle().vertices
    ensures g.halfEdges == old(g.halfEdges) && g.edges == old(g.edges) && g.faces == old(g.faces)
  {
    g.VertexAddEdgeAtEnd(0, g.halfEdges[4].partner);
    g.VertexAddEdgeAtEnd(0, 0);
    assert g.vertices[0] == PlanarVertex(0, [5, 0]);
    g.VertexAddEdgeAtEnd(1, g.halfEdges[0].partner);
    g.VertexAddEdgeAtEnd(1, 2);
    assert g.vertices[1] == PlanarVertex(1, [1, 2]);
    g.VertexAddEdgeAtEnd(2, g.halfEdges[2].partner);
    g.VertexAddEdgeAtEnd(2, 4);
    assert g.vertices[2] == PlanarVertex(2, [3, 4]);
  }

  /** Step 1 e): the outer face lists the reversed edges, the inner face
      the edges themselves. */
  method BaseBoundaries(g: PlanarGraph)
    requires g.faces == [PlanarFace(0, []), PlanarFace(1, [])]
    requires g.halfEdges == BaseTriangle().halfEdges
    modifies g
    ensures g.faces == BaseTriangle().faces
    ensures g.halfEdges == old(g.halfEdges) && g.edges == old(g.edges) && g.vertices == old(g.vertices)
  {
    var added := g.FaceAddEdgeAtEnd(0, g.halfEdges[0].partner);
    added := g.FaceAddEdgeAtEnd(0, g.halfEdges[4].partner);
    added := g.FaceAddEdgeAtEnd(0, g.halfEdges[2].partner);
    assert g.faces[0] == PlanarFace(0, [1, 5, 3]);
    added := g.FaceAddEdgeAtEnd(1, 0);
    added := g.FaceAddEdgeAtEnd(1, 2);
    added := g.FaceAddEdgeAtEnd(1, 4);
    assert g.faces[1] == PlanarFace(1, [0, 2, 4]);
  }

  /** Step 2 of `createApollonianNetwork` for the chosen face `fi`, whose
      boundary is e0, e1, e2 leaving the corners v0, v1, v2. */
  method SubdivideFace(g: PlanarGraph, fi: nat)
    requires Subdividable(g.Model(), fi) && Corners(g.Model(), fi)
    modifies g
    ensures g.Model() == Subdivide(old(g.Model()), fi)
  {
    ghost var E := g.Model();
    var x, f2, f3, e3, e4, e5 := AddSubdivisionEntities(g, fi, E);
    RewireRotations(g, fi, E, x, e3, e4, e5);
    RewireBoundaries(g, fi, E, f2, f3, e3, e4, e5);
  }

  /** Steps 2 b) to e): the vertex x, the faces f2 and f3, the edges
      v0 -> x (f3 on the left, f1 on the right), v1 -> x (f1, f2) and
      v2 -> x (f2, f3), and e1, e2 moved to f2, f3. */
  method AddSubdivisionEntities(g: PlanarGraph, fi: nat, ghost E: Embedding)
      returns (x: nat, f2: nat, f3: nat, e3: nat, e4: nat, e5: nat)
    requires E == g.Model() && Subdividable(E, fi) && Corners(E, fi)
    modifies g
    ensures x == |E.vertices| && f2 == |E.faces| && f3 == f2 + 1
    ensures e3 == |E.halfEdges| && e4 == e3 + 2 && e5 == e3 + 4
    ensures g.vertices == E.vertices + [PlanarVertex(x, [])]
    ensures g.halfEdges == Subdivide(E, fi).halfEdges
    ensures g.edges == Subdivide(E, fi).edges
    ensures g.faces == E.faces + [PlanarFace(|E.faces|, []), PlanarFace(|E.faces| + 1, [])]
  {
    var b := g.faces[fi].edges;
    var e1, e2 := b[1], b[2];
    x := g.NewVertex(|g.vertices|);
    f2 := g.NewFace(|g.faces|);
    f3 := g.NewFace(|g.faces|);
    e3, e4, e5 := AddSubdivisionEdges(g, fi, E, x, f2, f3);
    g.SetLeftFace(e1, f2);
    g.SetLeftFace(e2, f3);
    SubdividedHalfEdgesForm(E, fi);
  }

  /** Step 2 c): the three new edges, each appended to the edge list. */
  method AddSubdivisionEdges(g: PlanarGraph, fi: nat, ghost E: Embedding, x: nat, f2: nat, f3: nat)
      returns (e3: nat, e4: nat, e5: nat)
    requires Subdividable(E, fi)
    requires fi < |g.faces| && g.faces[fi] == E.faces[fi]
    requires g.halfEdges == E.halfEdges && g.edges == E.edges
    requires x == |E.vertices| && f2 == |E.faces| && f3 == f2 + 1
    modifies g
    ensures e3 == |E.halfEdges| && e4 == e3 + 2 && e5 == e3 + 4
    ensures g.halfEdges == E.halfEdges + NewHalfEdges(E, fi)
    ensures g.edges == E.edges + [e3, e4, e5]
    ensures g.vertices == old(g.vertices) && g.faces == old(g.faces)
  {
    var b := g.faces[fi].edges;
    assert b == Boundary(E, fi);
    var v0, v1, v2 := g.halfEdges[b[0]].start, g.halfEdges[b[1]].start, g.halfEdges[b[2]].start;
    e3 := g.EdgeFactory(v0, x, f3, fi, |g.edges|);
    g.AddEdge(e3);
    e4 := g.EdgeFactory(v1, x, fi, f2, |g.edges|);
    g.AddEdge(e4);
    e5 := g.EdgeFactory(v2, x, f2, f3, |g.edges|);
    g.AddEdge(e5);
    assert g.halfEdges == E.halfEdges + NewHalfEdges(E, fi);
  }

  /** Step 2 f): each corner gets its new edge right behind the partner of
      the boundary edge ending there; x gets x -> v0, x -> v2, x -> v1. */
  method RewireRotations(g: PlanarGraph, fi: nat, ghost E: Embedding, x: nat, e3: nat, e4: nat, e5: nat)
    requires Subdividable(E, fi) && Corners(E, fi)
    requires x == |E.vertices| && e3 == |E.halfEdges| && e4 == e3 + 2 && e5 == e3 + 4
    requires g.vertices == E.vertices + [PlanarVertex(x, [])]
    requires g.halfEdges == Subdivide(E, fi).halfEdges
    requires fi < |g.faces| && g.faces[fi] == E.faces[fi]
    modifies g
    ensures g.vertices == Subdivide(E, fi).vertices
    ensures g.halfEdges == old(g.halfEdges) && g.edges == old(g.edges) && g.faces == old(g.faces)
  {
    SubdividedHalfEdgesForm(E, fi);
    var v0, v1, v2, t0, t1, t2 := ReadCorners(g, fi, E);
    ghost var V := g.vertices;
    assert V[v0] == E.vertices[v0] && V[v1] == E.vertices[v1] && V[v2] == E.vertices[v2];
    ghost var w0 := PlanarVertex(V[v0].id, InsertAfter<nat>(V[v0].edges, e3, t2));
    ghost var w1 := PlanarVertex(V[v1].id, InsertAfter<nat>(V[v1].edges, e4, t0));
    ghost var w2 := PlanarVertex(V[v2].id, InsertAfter<nat>(V[v2].edges, e5, t1));
    InsertAtCorners(g, v0, v1, v2, e3, e4, e5, t2, t0, t1);
    assert g.vertices == V[v0 := w0][v1 := w1][v2 := w2];
    assert |g.vertices| == |V| && g.vertices[x] == V[x];
    ghost var corners := g.vertices;
    AddToNewVertex(g, x, e3, e4, e5);
    assert g.vertices == corners[x := PlanarVertex(x, [e3 + 1, e5 + 1, e4 + 1])];
    SubdividedVerticesForm(E, fi);
  }

  /** The rotation of the new vertex: the partners of its three spokes,
      read from the graph. */
  method AddToNewVertex(g: PlanarGraph, x: nat, e3: nat, e4: nat, e5: nat)
    requires x < |g.vertices| && g.vertices[x].edges == []
    requires e3 + 1 < |g.halfEdges| && e4 + 1 < |g.halfEdges| && e5 + 1 < |g.halfEdges|
    requires g.halfEdges[e3].partner == e3 + 1 && g.halfEdges[e4].partner == e4 + 1
    requires g.halfEdges[e5].partner == e5 + 1
    modifies g
    ensures g.vertices == old(g.vertices)[x := PlanarVertex(old(g.vertices[x].id), [e3 + 1, e5 + 1, e4 + 1])]
    ensures g.halfEdges == old(g.halfEdges) && g.edges == old(g.edges) && g.faces == old(g.faces)
  {
    g.VertexAddEdgeAtEnd(x, g.halfEdges[e3].partner);
    g.VertexAddEdgeAtEnd(x, g.halfEdges[e5].partner);
    g.VertexAddEdgeAtEnd(x, g.halfEdges[e4].partner);
    assert [] + [e3 + 1] + [e5 + 1] + [e4 + 1] == [e3 + 1, e5 + 1, e4 + 1];
  }

  /** The corners `v0, v1, v2` of face `fi` (the starts of its boundary
      edges) and the partners `t0, t1, t2` of those edges, as read from the
      graph during step 2 f). */
  method ReadCorners(g: PlanarGraph, fi: nat, ghost E: Embedding) returns (v0: nat, v1: nat, v2: nat, t0: nat, t1: nat, t2: nat)
    requires Subdividable(E, fi) && Corners(E, fi)
    requires var b := Boundary(E, fi);
      g.halfEdges ==
        (E.halfEdges + NewHalfEdges(E, fi))
          [b[1] := E.halfEdges[b[1]].(leftFace := |E.faces|)]
          [b[2] := E.halfEdges[b[2]].(leftFace := |E.faces| + 1)]
    requires fi < |g.faces| && g.faces[fi] == E.faces[fi]
    ensures var b := Boundary(E, fi);
      v0 == Start(E, b[0]) && v1 == Start(E, b[1]) && v2 == Start(E, b[2]) &&
      t0 == Twin(E, b[0]) && t1 == Twin(E, b[1]) && t2 == Twin(E, b[2])
    ensures v0 < |E.vertices| && v1 < |E.vertices| && v2 < |E.vertices|
    ensures v0 != v1 && v1 != v2 && v0 != v2
  {
    var b := g.faces[fi].edges;
    assert b == Boundary(E, fi);
    v0, v1, v2 := g.halfEdges[b[0]].start, g.halfEdges[b[1]].start, g.halfEdges[b[2]].start;
    t0, t1, t2 := g.halfEdges[b[0]].partner, g.halfEdges[b[1]].partner, g.halfEdges[b[2]].partner;
  }

  /** The three `addEdgeAfter` calls at distinct corners. */
  method InsertAtCorners(g: PlanarGraph, v0: nat, v1: nat, v2: nat, e3: nat, e4: nat, e5: nat, a0: nat, a1: nat, a2: nat)
    requires v0 < |g.vertices| && v1 < |g.vertices| && v2 < |g.vertices|
    requires v0 != v1 && v1 != v2 && v0 != v2
    modifies g
    ensures g.vertices ==
      old(g.vertices)
        [v0 := PlanarVertex(old(g.vertices[v0].id), InsertAfter<nat>(old(g.vertices[v0].edges), e3, a0))]
        [v1 := PlanarVertex(old(g.vertices[v1].id), InsertAfter<nat>(old(g.vertices[v1].edges), e4, a1))]
        [v2 := PlanarVertex(old(g.vertices[v2].id), InsertAfter<nat>(old(g.vertices[v2].edges), e5, a2))]
    ensures g.halfEdges == old(g.halfEdges) && g.edges == old(g.edges) && g.faces == old(g.faces)
  {
    ghost var V := g.vertices;
    ghost var w0 := PlanarVertex(V[v0].id, InsertAfter<nat>(V[v0].edges, e3, a0));
    ghost var w1 := PlanarVertex(V[v1].id, InsertAfter<nat>(V[v1].edges, e4, a1));
    ghost var w2 := PlanarVertex(V[v2].id, InsertAfter<nat>(V[v2].edges, e5, a2));
    g.VertexAddEdgeAfter(v0, e3, a0);
    assert g.vertices == V[v0 := w0];
    assert g.vertices[v1] == V[v1];
    g.VertexAddEdgeAfter(v1, e4, a1);
    assert g.vertices == V[v0 := w0][v1 := w1];
    assert g.vertices[v2] == V[v2];
    g.VertexAddEdgeAfter(v2, e5, a2);
    assert g.vertices == V[v0 := w0][v1 := w1][v2 := w2];
  }

  /** Step 2 g): f1 drops e2 and e1 and gains v1 -> x and x -> v0; f2 is
      e1, v2 -> x, x -> v1; f3 is e2, v0 -> x, x -> v2. */
  method RewireBoundaries(g: PlanarGraph, fi: nat, ghost E: Embedding, f2: nat, f3: nat,
                          e3: nat, e4: nat, e5: nat)
    requires Subdividable(E, fi) && Corners(E, fi)
    requires f2 == |E.faces| && f3 == f2 + 1
    requires e3 == |E.halfEdges| && e4 == e3 + 2 && e5 == e3 + 4
    requires g.halfEdges == Subdivide(E, fi).halfEdges
    requires g.faces == E.faces + [PlanarFace(|E.faces|, []), PlanarFace(|E.faces| + 1, [])]
    modifies g
    ensures g.faces == Subdivide(E, fi).faces
    ensures g.halfEdges == old(g.halfEdges) && g.edges == old(g.edges) && g.vertices == old(g.vertices)
  {
    SubdividedHalfEdgesForm(E, fi);
    var b := g.faces[fi].edges;
    assert b == Boundary(E, fi);
    var e0, e1, e2 := b[0], b[1], b[2];
    var p3, p4, p5 := g.halfEdges[e3].partner, g.halfEdges[e4].partner, g.halfEdges[e5].partner;
    assert p3 == e3 + 1 && p4 == e4 + 1 && p5 == e5 + 1;
    ghost var F0 := g.faces;
    ShrinkFace(g, fi, e4, p3);
    assert g.faces == F0[fi := PlanarFace(E.faces[fi].index, [e0, e4, e3 + 1])];
    FillFace(g, f2, e1, e5, p4);
    assert g.faces == F0[fi := PlanarFace(E.faces[fi].index, [e0, e4, e3 + 1])]
                        [f2 := PlanarFace(f2, [e1, e5, e4 + 1])];
    FillFace(g, f3, e2, e3, p5);
    assert g.faces == F0[fi := PlanarFace(E.faces[fi].index, [e0, e4, e3 + 1])]
                        [f2 := PlanarFace(f2, [e1, e5, e4 + 1])]
                        [f3 := PlanarFace(f3, [e2, e3, e5 + 1])];
    SubdividedFacesForm(E, fi);
  }

  /** The split face keeps its first edge, loses the other two (`removeEdge`
      of e2, then of e1) and gains `a` and `b` at the end. */
  method ShrinkFace(g: PlanarGraph, fi: nat, a: nat, b: nat)
    requires fi < |g.faces| && |g.faces[fi].edges| == 3
    requires var t := g.faces[fi].edges; t[0] != t[1] && t[1] != t[2] && t[0] != t[2]
    modifies g
    ensures g.faces == old(g.faces)[fi := PlanarFace(old(g.faces[fi].index), [old(g.faces[fi].edges[0]), a, b])]
    ensures g.halfEdges == old(g.halfEdges) && g.edges == old(g.edges) && g.vertices == old(g.vertices)
  {
    var t := g.faces[fi].edges;
    var removed := g.FaceRemoveEdge(fi, t[2]);
    assert RemoveFirst<nat>(t, t[2]) == [t[0], t[1]];
    removed := g.FaceRemoveEdge(fi, t[1]);
    assert RemoveFirst<nat>([t[0], t[1]], t[1]) == [t[0]];
    var added := g.FaceAddEdgeAtEnd(fi, a);
    added := g.FaceAddEdgeAtEnd(fi, b);
    assert [t[0]] + [a] + [b] == [t[0], a, b];
  }

  /** A new face receives its three boundary edges with `addEdge`. */
  method FillFace(g: PlanarGraph, f: nat, a: nat, b: nat, c: nat)
    requires f < |g.faces| && g.faces[f].edges == []
    modifies g
    ensures g.faces == old(g.faces)[f := PlanarFace(old(g.faces[f].index), [a, b, c])]
    ensures g.halfEdges == old(g.halfEdges) && g.edges == old(g.edges) && g.vertices == old(g.vertices)
  {
    var added := g.FaceAddEdgeAtEnd(f, a);
    added := g.FaceAddEdgeAtEnd(f, b);
    added := g.FaceAddEdgeAtEnd(f, c);
    assert [] + [a] + [b] + [c] == [a, b, c];
  }

  // ---------------------------------------------------------------------
  // flipEdges

  /** Steps a) and a2) of one iteration of `flipEdges` on the half-edge
      `h`: the neighbourhood lookups, and the rejection when v1 already
      neighbours v3 (asked with `hasNeighbor`). */
  method FlipAttempt(g: PlanarGraph, h: nat) returns (r: Result<Attempt>)
    requires Wf(g.Model()) && h < |g.halfEdges|
    ensures r == TryFlip(g.Model(), h)
  {
    var E := g.Model();
    var n0 := NextEdgeAtStart(E, h);
    if n0.Throw? {
      return Throw(n0.exception);
    }
    var n2 := NextEdge(E, h);
    if n2.Throw? {
      return Throw(n2.exception);
    }
    var e0, e2 := n0.value, n2.value;
    var v1, v3 := Target(E, e0), Target(E, e2);
    var adjacent := g.HasNeighbor(v1, v3);
    if adjacent {
      return Ok(Rejected);
    }
    var n1 := NextEdge(E, e0);
    if n1.Throw? {
      return Throw(n1.exception);
    }
    var n3 := NextEdge(E, e2);
    if n3.Throw? {
      return Throw(n3.exception);
    }
    r := Ok(Flipped(Quad(h, Twin(E, h), Start(E, h), v1, Target(E, h), v3,
                         e0, n1.value, e2, n3.value, LeftFace(E, h), RightFace(E, h))));
  }

  /** Steps b) to e) of one iteration of `flipEdges`: the diagonal is
      re-pointed to v1 -> v3 and the rotations, left faces and boundaries
      around it are rewired; the result is `Flip`. */
  method FlipAt(g: PlanarGraph, q: Quad)
    requires QuadIn(g.Model(), q)
    modifies g
    ensures g.Model() == Flip(old(g.Model()), q)
  {
    ghost var E := g.Model();
    var a, b := g.halfEdges[q.e0].partner, g.halfEdges[q.e2].partner;
    assert a == Twin(E, q.e0) && b == Twin(E, q.e2);
    // b)
    g.SetStart(q.h, q.v1);
    g.SetTarget(q.h, q.v3);
    // c)
    FlipRotations(g, q.h, q.t, q.v0, q.v1, q.v2, q.v3, a, b);
    // d)
    g.SetLeftFace(q.e0, q.f1);
    g.SetLeftFace(q.e2, q.f2);
    assert g.halfEdges == FlippedHalfEdges(E, q);
    // e)
    FlipBoundaries(g, q.e0, q.e1, q.e2, q.e3, q.f1, q.f2);
  }

  /** Step c): `h` leaves the rotation of v0 and `t` that of v2; `h` enters
      v1 behind `a` and `t` enters v3 behind `b`. */
  method FlipRotations(g: PlanarGraph, h: nat, t: nat, v0: nat, v1: nat, v2: nat, v3: nat, a: nat, b: nat)
    requires v0 < |g.vertices| && v1 < |g.vertices| && v2 < |g.vertices| && v3 < |g.vertices|
    modifies g
    ensures g.vertices == PutAfter(PutAfter(DropAt(DropAt(old(g.vertices), v0, h), v2, t), v1, h, a), v3, t, b)
    ensures g.halfEdges == old(g.halfEdges) && g.edges == old(g.edges) && g.faces == old(g.faces)
  {
    ghost var V0 := g.vertices;
    g.VertexRemoveEdge(v0, h);
    ghost var V1 := g.vertices;
    assert V1 == DropAt(V0, v0, h);
    g.VertexRemoveEdge(v2, t);
    ghost var V2 := g.vertices;
    assert V2 == DropAt(V1, v2, t);
    g.VertexAddEdgeAfter(v1, h, a);
    ghost var V3 := g.vertices;
    assert V3 == PutAfter(V2, v1, h, a);
    g.VertexAddEdgeAfter(v3, t, b);
    assert g.vertices == PutAfter(V3, v3, t, b);
  }

  /** Step e): f1 trades e2 for e0, placed behind e3; f2 trades e0 for e2,
      placed behind e1. */
  method FlipBoundaries(g: PlanarGraph, e0: nat, e1: nat, e2: nat, e3: nat, f1: nat, f2: nat)
    requires f1 < |g.faces| && f2 < |g.faces|
    modifies g
    ensures g.faces == PutOn(DropOn(PutOn(DropOn(old(g.faces), f1, e2), f1, e0, e3), f2, e0), f2, e2, e1)
    ensures g.halfEdges == old(g.halfEdges) && g.edges == old(g.edges) && g.vertices == old(g.vertices)
  {
    ghost var F0 := g.faces;
    var removed := g.FaceRemoveEdge(f1, e2);
    ghost var F1 := g.faces;
    assert F1 == DropOn(F0, f1, e2);
    g.FaceAddEdgeAfter(f1, e0, e3);
    ghost var F2 := g.faces;
    assert F2 == PutOn(F1, f1, e0, e3);
    removed := g.FaceRemoveEdge(f2, e0);
    ghost var F3 := g.faces;
    assert F3 == DropOn(F2, f2, e0);
    g.FaceAddEdgeAfter(f2, e2, e1);
    assert g.faces == PutOn(F3, f2, e2, e1);
  }

  /** `flipEdges(g, numEdgesToFlip, seed)`: fewer than five vertices throw
      IllegalArgumentException.  Otherwise edges drawn from the edge list
      are flipped until `numEdgesToFlip` flips are done; a drawn edge whose
      flip would duplicate an existing edge is redrawn and not counted.
      No vertex, half-edge, edge or face is added or removed, and ids,
      indices and partners stay as they were, so n, m and f are kept.
      A plane triangulation stays one after every flip, and on one only
      the size check can throw. `attempts` bounds the number of draws (see README). */
  method FlipEdges(g: PlanarGraph, numEdgesToFlip: int, random: Random, attempts: nat)
    returns (o: Outcome, flipped: nat)
    requires Wf(g.Model())
    modifies g, random
    ensures old(g.GetN()) < 5 ==> o == Raise(IllegalArgument)
    ensures o == Raise(IllegalArgument) ==> old(g.GetN()) < 5 || old(g.GetM()) == 0
    ensures o.Raise? ==> o.exception in {IllegalArgument, IndexOutOfBounds}
    ensures Wf(g.Model()) && SameShape(old(g.Model()), g.Model())
    ensures g.GetN() == old(g.GetN()) && g.GetM() == old(g.GetM()) && g.GetF() == old(g.GetF())
    ensures o.Done? ==> flipped >= numEdgesToFlip || random.position == old(random.position) + attempts
    ensures o.Done? && numEdgesToFlip >= 0 ==> flipped <= numEdgesToFlip
    ensures PlaneTriangulation(old(g.Model())) ==> PlaneTriangulation(g.Model())
    ensures PlaneTriangulation(old(g.Model())) ==> (o.Raise? <==> old(g.GetN()) < 5)
  {
    flipped := 0;
    if |g.vertices| < 5 {
      return Raise(IllegalArgument), 0;
    }
    ghost var E0 := g.Model();
    var i: int := 0;
    var tries: nat := 0;
    while i < numEdgesToFlip && tries < attempts
      invariant 0 <= i && flipped == i
      invariant numEdgesToFlip >= 0 ==> i <= numEdgesToFlip
      invariant tries <= attempts && random.position == old(random.position) + tries
      invariant Wf(g.Model()) && SameShape(E0, g.Model())
      invariant |g.vertices| >= 5
      invariant PlaneTriangulation(E0) ==> PlaneTriangulation(g.Model())
      decreases attempts - tries
    {
      var d := random.NextInt(|g.edges|);
      tries := tries + 1;
      if d.Throw? {
        return Raise(d.exception), flipped;
      }
      var h := g.edges[d.value];
      var attempt := FlipAttempt(g, h);
      FlipNeverThrows(E0, g.Model(), h);
      match attempt {
        case Throw(x) =>
          return Raise(x), flipped;
        case Ok(Rejected) =>
        case Ok(Flipped(q)) =>
          ghost var E := g.Model();
          FlipKeeps(E0, E, h, q);
          FlipAt(g, q);
          i := i + 1;
          flipped := i;
      }
    }
    return Done, flipped;
  }

  /** On a plane triangulation a flip attempt does not throw. */
  lemma FlipNeverThrows(E0: Embedding, E: Embedding, h: nat)
    requires Wf(E) && h < |E.halfEdges| && (PlaneTriangulation(E0) ==> PlaneTriangulation(E))
    ensures PlaneTriangulation(E0) ==> TryFlip(E, h).Ok?
  {
    if PlaneTriangulation(E0) {
      TryFlipInTriangulation(E, h);
    }
  }

  /** One accepted flip keeps what the flip loop maintains: the shape of
      the input and, on a plane triangulation, the triangulation. */
  lemma FlipKeeps(E0: Embedding, E: Embedding, h: nat, q: Quad)
    requires Wf(E) && SameShape(E0, E) && |E.vertices| >= 5 && h < |E.halfEdges|
    requires PlaneTriangulation(E0) ==> PlaneTriangulation(E)
    requires TryFlip(E, h) == Ok(Flipped(q))
    ensures QuadIn(E, q)
    ensures var E' := Flip(E, q);
      && Wf(E') && SameShape(E0, E') && |E'.vertices| >= 5
      && (PlaneTriangulation(E0) ==> PlaneTriangulation(E'))
  {
    FlipShape(E, q);
    if PlaneTriangulation(E0) {
      FlipOfTriangulation(E, h, q);
    }
    SameShapeKeeps(E0, E, Flip(E, q));
  }

  /** `createMaxPlanarGraph(numVertices, numFlips, seed)`: an Apollonian
      network on `numVertices` vertices (drawn with `random`), then
      `numFlips` edge flips (drawn with `flipRandom`).  Fewer than three
      vertices are refused by the network, three or four by `flipEdges`;
      otherwise the result is a plane triangulation: n vertices, 3n - 6
      edges and 2n - 4 faces, every face a triangle, no loops or parallel
      edges, with ids and indices equal to positions. */
  method CreateMaxPlanarGraph(numVertices: int, numFlips: int, random: Random, flipRandom: Random, attempts: nat)
    returns (r: Result<PlanarGraph>)
    modifies random, flipRandom
    ensures r.Throw? <==> numVertices < 5
    ensures r.Throw? ==> r.exception == IllegalArgument
    ensures r.Ok? ==> fresh(r.value) && PlaneTriangulation(r.value.Model())
    ensures r.Ok? ==> Layout(r.value.Model()) && IdsArePositions(r.value.Model())
    ensures r.Ok? ==> r.value.GetN() == numVertices && r.value.GetM() == 3 * numVertices - 6
                      && r.value.GetF() == 2 * numVertices - 4
  {
    var a := CreateApollonianNetwork(numVertices, random);
    if a.Throw? {
      return Throw(a.exception);
    }
    var g := a.value;
    ghost var E := g.Model();
    var o, flipped := FlipEdges(g, numFlips, flipRandom, attempts);
    if o.Raise? {
      return Throw(o.exception);
    }
    SameShapeKeeps(E, E, g.Model());
    return Ok(g);
  }
}
