/** The edge flip of `flipEdges` as a function on embeddings: the diagonal
    v0 -> v2 of the quadrilateral v0 - v1 - v2 - v3 formed by its two
    neighbouring faces is re-pointed to v1 -> v3. */
module EdgeFlips {
  import opened Exceptions
  import opened Lists
  import opened PlanarEmbedding
  import opened PlanarInvariants

  /** The neighbourhood of the half-edge `h` = v0 -> v2 that a flip reads:
      its partner `t`, the next half-edge `e0` = v0 -> v1 clockwise at v0,
      the next half-edge `e2` = v2 -> v3 along the left face, their
      successors `e1` and `e3` along their faces, and the faces `f1` left
      and `f2` right of `h`. */
  datatype Quad = Quad(h: nat, t: nat, v0: nat, v1: nat, v2: nat, v3: nat,
                       e0: nat, e1: nat, e2: nat, e3: nat, f1: nat, f2: nat)

  /** What one attempt of the loop decides: a flip, or a retry because the
      new diagonal already exists. */
  datatype Attempt = Rejected | Flipped(q: Quad)

  /** `v.hasNeighbor(w)`. */
  ghost predicate Adjacent(E: Embedding, v: nat, w: nat)
    requires Wf(E) && v < |E.vertices|
  {
    exists e :: e in Rotation(E, v) && Target(E, e) == w
  }

  /** Every handle of the neighbourhood lies in its arena and the partner
      and the corners are the ones the half-edges carry. */
  ghost predicate QuadIn(E: Embedding, q: Quad)
  {
    && Wf(E)
    && q.h < |E.halfEdges| && q.e0 < |E.halfEdges| && q.e1 < |E.halfEdges|
    && q.e2 < |E.halfEdges| && q.e3 < |E.halfEdges|
    && q.t == Twin(E, q.h)
    && q.v0 == Start(E, q.h) && q.v2 == Target(E, q.h)
    && q.v1 == Target(E, q.e0) && q.v3 == Target(E, q.e2)
    && q.f1 == LeftFace(E, q.h) && q.f2 == RightFace(E, q.h)
  }

  /** Steps a) and a2) of the loop body: the lookups in source order, the
      rejection when v1 already neighbours v3, and the exception a lookup
      on an empty rotation list raises. */
  ghost function TryFlip(E: Embedding, h: nat): (r: Result<Attempt>)
    requires Wf(E) && h < |E.halfEdges|
    ensures r.Ok? && r.value.Flipped? ==> QuadIn(E, r.value.q) && r.value.q.h == h
    ensures r.Ok? && r.value.Flipped? ==> !Adjacent(E, r.value.q.v1, r.value.q.v3)
    ensures r.Throw? ==> r.exception == IndexOutOfBounds
  {
    match NextEdgeAtStart(E, h)
    case Throw(x) => Throw(x)
    case Ok(e0) =>
      match NextEdge(E, h)
      case Throw(x) => Throw(x)
      case Ok(e2) =>
        if Adjacent(E, Target(E, e0), Target(E, e2)) then Ok(Rejected)
        else
          match NextEdge(E, e0)
          case Throw(x) => Throw(x)
          case Ok(e1) =>
            match NextEdge(E, e2)
            case Throw(x) => Throw(x)
            case Ok(e3) =>
              Ok(Flipped(Quad(h, Twin(E, h), Start(E, h), Target(E, e0), Target(E, h), Target(E, e2),
                              e0, e1, e2, e3, LeftFace(E, h), RightFace(E, h))))
  }

  /** `removeEdge` on the rotation of `v`. */
  function DropAt(V: seq<PlanarVertex>, v: nat, e: nat): seq<PlanarVertex>
    requires v < |V|
  {
    V[v := PlanarVertex(V[v].id, RemoveFirst<nat>(V[v].edges, e))]
  }

  /** `addEdgeAfter` on the rotation of `v`. */
  function PutAfter(V: seq<PlanarVertex>, v: nat, e: nat, after: nat): seq<PlanarVertex>
    requires v < |V|
  {
    V[v := PlanarVertex(V[v].id, InsertAfter<nat>(V[v].edges, e, after))]
  }

  /** `removeEdge` on the boundary of `f`. */
  function DropOn(F: seq<PlanarFace>, f: nat, e: nat): seq<PlanarFace>
    requires f < |F|
  {
    F[f := PlanarFace(F[f].index, RemoveFirst<nat>(F[f].edges, e))]
  }

  /** `addEdgeAfter` on the boundary of `f`. */
  function PutOn(F: seq<PlanarFace>, f: nat, e: nat, after: nat): seq<PlanarFace>
    requires f < |F|
  {
    F[f := PlanarFace(F[f].index, InsertAfter<nat>(F[f].edges, e, after))]
  }

  /** The half-edges after steps b) and d): `h` starts at v1, its partner
      at v3, e0 moves to f1 and e2 to f2. */
  ghost function FlippedHalfEdges(E: Embedding, q: Quad): seq<PlanarEdge>
    requires QuadIn(E, q)
  {
    var H1 := E.halfEdges[q.h := E.halfEdges[q.h].(start := q.v1)];
    var H2 := H1[q.t := H1[q.t].(start := q.v3)];
    var H3 := H2[q.e0 := H2[q.e0].(leftFace := q.f1)];
    H3[q.e2 := H3[q.e2].(leftFace := q.f2)]
  }

  /** The rotations after step c): `h` leaves v0 and its partner leaves v2;
      `h` enters v1 behind the partner of e0, and its partner enters v3
      behind the partner of e2. */
  ghost function FlippedVertices(E: Embedding, q: Quad): seq<PlanarVertex>
    requires QuadIn(E, q)
  {
    var V1 := DropAt(E.vertices, q.v0, q.h);
    var V2 := DropAt(V1, q.v2, q.t);
    var V3 := PutAfter(V2, q.v1, q.h, Twin(E, q.e0));
    PutAfter(V3, q.v3, q.t, Twin(E, q.e2))
  }

  /** The boundaries after step e): f1 trades e2 for e0 (behind e3), f2
      trades e0 for e2 (behind e1). */
  ghost function FlippedFaces(E: Embedding, q: Quad): seq<PlanarFace>
    requires QuadIn(E, q)
  {
    var F1 := DropOn(E.faces, q.f1, q.e2);
    var F2 := PutOn(F1, q.f1, q.e0, q.e3);
    var F3 := DropOn(F2, q.f2, q.e0);
    PutOn(F3, q.f2, q.e2, q.e1)
  }

  /** One accepted flip. */
  ghost function Flip(E: Embedding, q: Quad): (E': Embedding)
    requires QuadIn(E, q)
  {
    Embedding(FlippedVertices(E, q), FlippedHalfEdges(E, q), E.edges, FlippedFaces(E, q))
  }

  // ---------------------------------------------------------------------
  // What a flip keeps

  /** Every rotation entry is a half-edge handle below `n`. */
  ghost predicate RotationsBelow(V: seq<PlanarVertex>, n: nat)
  {
    forall v, h :: 0 <= v < |V| && h in V[v].edges ==> h < n
  }

  /** Every boundary entry is a half-edge handle below `n`. */
  ghost predicate BoundariesBelow(F: seq<PlanarFace>, n: nat)
  {
    forall f, h :: 0 <= f < |F| && h in F[f].edges ==> h < n
  }

  lemma DropAtBelow(V: seq<PlanarVertex>, v: nat, e: nat, n: nat)
    requires v < |V| && RotationsBelow(V, n)
    ensures RotationsBelow(DropAt(V, v, e), n) && |DropAt(V, v, e)| == |V|
    ensures forall w :: 0 <= w < |V| ==> DropAt(V, v, e)[w].id == V[w].id
  {
    var W := DropAt(V, v, e);
    var s := RemoveFirst<nat>(V[v].edges, e);
    RemoveFirstMembers<nat>(V[v].edges, e);
    assert forall x :: x in s ==> x < n;
    forall w, x | 0 <= w < |W| && x in W[w].edges ensures x < n {
      if w == v {
        assert W[w].edges == s;
      } else {
        assert W[w] == V[w];
      }
    }
    forall w | 0 <= w < |V| ensures W[w].id == V[w].id {
      if w == v {
        assert W[w].id == V[v].id;
      }
    }
  }

  lemma PutAfterBelow(V: seq<PlanarVertex>, v: nat, e: nat, after: nat, n: nat)
    requires v < |V| && RotationsBelow(V, n) && e < n
    ensures RotationsBelow(PutAfter(V, v, e, after), n) && |PutAfter(V, v, e, after)| == |V|
    ensures forall w :: 0 <= w < |V| ==> PutAfter(V, v, e, after)[w].id == V[w].id
  {
    var W := PutAfter(V, v, e, after);
    var s := InsertAfter<nat>(V[v].edges, e, after);
    InsertAfterMembers<nat>(V[v].edges, e, after);
    assert forall x :: x in s ==> x < n;
    forall w, x | 0 <= w < |W| && x in W[w].edges ensures x < n {
      if w == v {
        assert W[w].edges == s;
      } else {
        assert W[w] == V[w];
      }
    }
    forall w | 0 <= w < |V| ensures W[w].id == V[w].id {
      if w == v {
        assert W[w].id == V[v].id;
      }
    }
  }

  lemma DropOnBelow(F: seq<PlanarFace>, f: nat, e: nat, n: nat)
    requires f < |F| && BoundariesBelow(F, n)
    ensures BoundariesBelow(DropOn(F, f, e), n) && |DropOn(F, f, e)| == |F|
    ensures forall g :: 0 <= g < |F| ==> DropOn(F, f, e)[g].index == F[g].index
  {
    var W := DropOn(F, f, e);
    var s := RemoveFirst<nat>(F[f].edges, e);
    RemoveFirstMembers<nat>(F[f].edges, e);
    assert forall x :: x in s ==> x < n;
    forall w, x | 0 <= w < |W| && x in W[w].edges ensures x < n {
      if w == f {
        assert W[w].edges == s;
      } else {
        assert W[w] == F[w];
      }
    }
    forall w | 0 <= w < |F| ensures W[w].index == F[w].index {
      if w == f {
        assert W[w].index == F[f].index;
      }
    }
  }

  lemma PutOnBelow(F: seq<PlanarFace>, f: nat, e: nat, after: nat, n: nat)
    requires f < |F| && BoundariesBelow(F, n) && e < n
    ensures BoundariesBelow(PutOn(F, f, e, after), n) && |PutOn(F, f, e, after)| == |F|
    ensures forall g :: 0 <= g < |F| ==> PutOn(F, f, e, after)[g].index == F[g].index
  {
    var W := PutOn(F, f, e, after);
    var s := InsertAfter<nat>(F[f].edges, e, after);
    InsertAfterMembers<nat>(F[f].edges, e, after);
    assert forall x :: x in s ==> x < n;
    forall w, x | 0 <= w < |W| && x in W[w].edges ensures x < n {
      if w == f {
        assert W[w].edges == s;
      } else {
        assert W[w] == F[w];
      }
    }
    forall w | 0 <= w < |F| ensures W[w].index == F[w].index {
      if w == f {
        assert W[w].index == F[f].index;
      }
    }
  }

  /** Each half-edge after a flip keeps its index and partner, and its
      start and left face stay in their arenas. */
  lemma FlippedHalfEdgeAt(E: Embedding, q: Quad, h: nat)
    requires QuadIn(E, q) && h < |E.halfEdges|
    ensures |FlippedHalfEdges(E, q)| == |E.halfEdges|
    ensures var r := FlippedHalfEdges(E, q)[h];
      && r.index == E.halfEdges[h].index && r.partner == E.halfEdges[h].partner
      && r.start < |E.vertices| && r.leftFace < |E.faces|
  {
    assert HalfEdgeWf(E, h);
  }

  /** The rotation lists after a flip still hold half-edge handles only,
      and every vertex keeps its id. */
  lemma FlippedVerticesBelow(E: Embedding, q: Quad)
    requires QuadIn(E, q)
    ensures |FlippedVertices(E, q)| == |E.vertices|
    ensures RotationsBelow(FlippedVertices(E, q), |E.halfEdges|)
    ensures forall v :: 0 <= v < |E.vertices| ==> FlippedVertices(E, q)[v].id == E.vertices[v].id
  {
    var n := |E.halfEdges|;
    assert RotationsBelow(E.vertices, n);
    var V1 := DropAt(E.vertices, q.v0, q.h);
    var V2 := DropAt(V1, q.v2, q.t);
    var V3 := PutAfter(V2, q.v1, q.h, Twin(E, q.e0));
    DropAtBelow(E.vertices, q.v0, q.h, n);
    DropAtBelow(V1, q.v2, q.t, n);
    PutAfterBelow(V2, q.v1, q.h, Twin(E, q.e0), n);
    PutAfterBelow(V3, q.v3, q.t, Twin(E, q.e2), n);
  }

  /** The boundary lists after a flip still hold half-edge handles only,
      and every face keeps its index. */
  lemma FlippedFacesBelow(E: Embedding, q: Quad)
    requires QuadIn(E, q)
    ensures |FlippedFaces(E, q)| == |E.faces|
    ensures BoundariesBelow(FlippedFaces(E, q), |E.halfEdges|)
    ensures forall f :: 0 <= f < |E.faces| ==> FlippedFaces(E, q)[f].index == E.faces[f].index
  {
    var n := |E.halfEdges|;
    assert BoundariesBelow(E.faces, n);
    var F1 := DropOn(E.faces, q.f1, q.e2);
    var F2 := PutOn(F1, q.f1, q.e0, q.e3);
    var F3 := DropOn(F2, q.f2, q.e0);
    DropOnBelow(E.faces, q.f1, q.e2, n);
    PutOnBelow(F1, q.f1, q.e0, q.e3, n);
    DropOnBelow(F2, q.f2, q.e0, n);
    PutOnBelow(F3, q.f2, q.e2, q.e1, n);
  }

  /** A flip keeps the embedding well formed, keeps the sizes of all lists
      and the graph's edge list, and changes no half-edge's index or
      partner, no vertex id and no face index: only starts, left faces,
      rotations and boundaries move. */
  lemma FlipShape(E: Embedding, q: Quad)
    requires QuadIn(E, q)
    ensures var E' := Flip(E, q);
      && Wf(E')
      && |E'.vertices| == |E.vertices| && |E'.halfEdges| == |E.halfEdges|
      && E'.edges == E.edges && |E'.faces| == |E.faces|
      && (forall h :: 0 <= h < |E.halfEdges| ==>
            E'.halfEdges[h].index == E.halfEdges[h].index &&
            E'.halfEdges[h].partner == E.halfEdges[h].partner)
      && (forall v :: 0 <= v < |E.vertices| ==> E'.vertices[v].id == E.vertices[v].id)
      && (forall f :: 0 <= f < |E.faces| ==> E'.faces[f].index == E.faces[f].index)
  {
    var E' := Flip(E, q);
    FlippedVerticesBelow(E, q);
    FlippedFacesBelow(E, q);
    forall h | 0 <= h < |E.halfEdges|
      ensures E'.halfEdges[h].index == E.halfEdges[h].index
      ensures E'.halfEdges[h].partner == E.halfEdges[h].partner
      ensures E'.halfEdges[h].start < |E'.vertices| && E'.halfEdges[h].leftFace < |E'.faces|
    {
      FlippedHalfEdgeAt(E, q, h);
    }
    forall h | 0 <= h < |E'.halfEdges| ensures HalfEdgeWf(E', h) {
      assert HalfEdgeWf(E, h);
    }
    assert forall k :: 0 <= k < |E.edges| ==> E.edges[k] < |E.halfEdges|;
  }

  /** The flipped half-edge keeps its index and now runs from v1 to v3. */
  lemma FlipRepoints(E: Embedding, q: Quad)
    requires QuadIn(E, q)
    ensures Wf(Flip(E, q)) && |Flip(E, q).halfEdges| == |E.halfEdges|
    ensures Start(Flip(E, q), q.h) == q.v1 && Target(Flip(E, q), q.h) == q.v3
    ensures Flip(E, q).halfEdges[q.h].index == E.halfEdges[q.h].index
  {
    FlipShape(E, q);
    FlippedEnds(E, q);
  }

  lemma FlippedEnds(E: Embedding, q: Quad)
    requires QuadIn(E, q)
    ensures var H := FlippedHalfEdges(E, q);
      |H| == |E.halfEdges| && H[q.h].start == q.v1 && H[q.h].partner == q.t && H[q.t].start == q.v3
  {
  }

  // ---------------------------------------------------------------------
  // The neighbourhood of a flip in a plane triangulation

  /** Around a triangular face the successor is a 3-cycle through three
      distinct half-edges of that face. */
  lemma TriangleSuccessors(E: Embedding, h: nat)
    requires PlaneTriangulation(E) && h < |E.halfEdges|
    ensures var s1 := FaceSuccessor(E, h);
      var s2 := FaceSuccessor(E, s1);
      && FaceSuccessor(E, s2) == h
      && h != s1 && s1 != s2 && h != s2
      && LeftFace(E, s1) == LeftFace(E, h) && LeftFace(E, s2) == LeftFace(E, h)
  {
    var f := LeftFace(E, h);
    TriangleFace(E, f);
    var b := Boundary(E, f);
    assert b == [b[0], b[1], b[2]];
    NextCyclicThree<nat>(b[0], b[1], b[2]);
    assert h in b;
  }

  /** A half-edge and its partner never bound the same triangle. */
  lemma TwinOutsideTriangle(E: Embedding, h: nat)
    requires PlaneTriangulation(E) && h < |E.halfEdges|
    ensures LeftFace(E, h) != RightFace(E, h)
  {
    var f := LeftFace(E, h);
    var t := Twin(E, h);
    TriangleFace(E, f);
    assert h in Boundary(E, f);
    CornersExcludeTwin(E, f, h);
    assert t in Boundary(E, LeftFace(E, t));
  }

  lemma CornersExcludeTwin(E: Embedding, f: nat, h: nat)
    requires Wf(E) && f < |E.faces| && Corners(E, f) && h in Boundary(E, f)
    ensures Twin(E, h) !in Boundary(E, f)
  {
    var t := Twin(E, h);
    var b := Boundary(E, f);
    forall k | 0 <= k < 3 ensures t != b[k] {
      if h == b[0] {
        assert Target(E, b[1]) == Start(E, b[2]) != Start(E, b[0]) == Target(E, t);
        assert Start(E, b[2]) != Start(E, b[1]) == Start(E, t);
      } else if h == b[1] {
        assert Target(E, b[2]) == Start(E, b[0]) != Start(E, b[1]) == Target(E, t);
        assert Start(E, b[0]) != Start(E, b[2]) == Start(E, t);
      } else {
        assert Target(E, b[0]) == Start(E, b[1]) != Start(E, b[2]) == Target(E, t);
        assert Start(E, b[1]) != Start(E, b[0]) == Start(E, t);
      }
    }
    assert b == [b[0], b[1], b[2]];
  }

  /** In a plane triangulation no lookup of an attempt fails, the attempt
      reads e0 as the clockwise successor of `h` at its start and e2 as the
      face successor of `h`, and it is rejected exactly when v1 already
      neighbours v3. */
  lemma TryFlipInTriangulation(E: Embedding, h: nat)
    requires PlaneTriangulation(E) && h < |E.halfEdges|
    ensures TryFlip(E, h).Ok?
    ensures var e0 := NextCyclic<nat>(Rotation(E, Start(E, h)), h);
      var e2 := FaceSuccessor(E, h);
      && e0 < |E.halfEdges|
      && (TryFlip(E, h) == Ok(Rejected) <==> Adjacent(E, Target(E, e0), Target(E, e2)))
      && (TryFlip(E, h).value.Flipped? ==>
            TryFlip(E, h).value.q.e0 == e0 && TryFlip(E, h).value.q.e2 == e2 &&
            TryFlip(E, h).value.q.e1 == FaceSuccessor(E, e0) &&
            TryFlip(E, h).value.q.e3 == FaceSuccessor(E, e2))
  {
    assert h in Rotation(E, Start(E, h));
    var e0 := NextEdgeAtStart(E, h).value;
    assert NextEdge(E, h) == Ok(FaceSuccessor(E, h));
    assert NextEdge(E, e0) == Ok(FaceSuccessor(E, e0));
    assert NextEdge(E, FaceSuccessor(E, h)) == Ok(FaceSuccessor(E, FaceSuccessor(E, h)));
  }

  /** The vertex and face facts an accepted flip relies on. */
  ghost predicate FlipReady(E: Embedding, q: Quad)
    requires QuadIn(E, q)
  {
    && q.v0 != q.v1 && q.v0 != q.v2 && q.v0 != q.v3
    && q.v1 != q.v2 && q.v1 != q.v3 && q.v2 != q.v3
    && q.f1 != q.f2
    && q.e2 in Boundary(E, q.f1) && q.e0 in Boundary(E, q.f2)
    && q.h in Rotation(E, q.v0) && q.t in Rotation(E, q.v2)
  }

  /** In a plane triangulation with four or more vertices, an accepted
      attempt sees a proper quadrilateral: four distinct corners, two
      distinct faces, e2 on the left face, e0 on the right face, and the
      two halves of the diagonal in the rotations of v0 and v2. */
  lemma FlipConditions(E: Embedding, h: nat, q: Quad)
    requires PlaneTriangulation(E) && |E.vertices| >= 4 && h < |E.halfEdges|
    requires TryFlip(E, h) == Ok(Flipped(q))
    ensures FlipReady(E, q)
  {
    TryFlipInTriangulation(E, h);
    var rot0 := Rotation(E, q.v0);
    assert q.h in rot0 && Distinct<nat>(rot0) && |rot0| >= 3;
    NextCyclicMoves<nat>(rot0, q.h);
    assert q.e0 in rot0;
    assert Start(E, q.e0) == q.v0;
    assert q.v1 != q.v2;
    FaceSuccessorFacts(E, q.h);
    TwinTwin(E, q.h);
    var rot2 := Rotation(E, q.v2);
    assert q.t in rot2 && Distinct<nat>(rot2) && |rot2| >= 3;
    NextCyclicMoves<nat>(rot2, q.t);
    assert q.v3 != q.v0;
    assert NextEdge(E, q.t) == Ok(FaceSuccessor(E, q.t));
    TwinOutsideTriangle(E, q.h);
    FlipApexesDiffer(E, q);
  }

  /** The apexes v1 and v3 of the two triangles differ: otherwise v0 would
      have only the two half-edges h and e0 in its rotation. */
  lemma FlipApexesDiffer(E: Embedding, q: Quad)
    requires PlaneTriangulation(E) && |E.vertices| >= 4 && QuadIn(E, q)
    requires q.e0 == NextCyclic<nat>(Rotation(E, q.v0), q.h) && q.e2 == FaceSuccessor(E, q.h)
    ensures q.v1 != q.v3
  {
    var rot0 := Rotation(E, q.v0);
    assert q.h in rot0 && Distinct<nat>(rot0) && |rot0| >= 3;
    assert q.e0 in rot0;
    NextCyclicNoSwap<nat>(rot0, q.h, q.e0);
    var x := FaceSuccessor(E, q.e2);
    TriangleSuccessors(E, q.h);
    FaceSuccessorFacts(E, q.e2);
    FaceSuccessorFacts(E, x);
    assert Twin(E, x) != q.e0;
    assert Start(E, Twin(E, x)) == q.v0 == Start(E, q.e0);
    TwinTwin(E, x);
    assert Start(E, x) != q.v1;
  }

  // ---------------------------------------------------------------------
  // What an accepted flip changes

  lemma DropAtLengths(V: seq<PlanarVertex>, v: nat, e: nat)
    requires v < |V|
    ensures |DropAt(V, v, e)| == |V|
    ensures forall w :: 0 <= w < |V| ==>
      |DropAt(V, v, e)[w].edges| == |V[w].edges| - (if w == v && e in V[v].edges then 1 else 0)
  {
    var W := DropAt(V, v, e);
    RemoveFirstSpec<nat>(V[v].edges, e);
    forall w | 0 <= w < |V|
      ensures |W[w].edges| == |V[w].edges| - (if w == v && e in V[v].edges then 1 else 0)
    {
      if w != v {
        assert W[w] == V[w];
      }
    }
  }

  lemma PutAfterLengths(V: seq<PlanarVertex>, v: nat, e: nat, after: nat)
    requires v < |V|
    ensures |PutAfter(V, v, e, after)| == |V|
    ensures forall w :: 0 <= w < |V| ==>
      |PutAfter(V, v, e, after)[w].edges| == |V[w].edges| + (if w == v then 1 else 0)
  {
    var W := PutAfter(V, v, e, after);
    InsertAfterPlacement<nat>(V[v].edges, e, after);
    forall w | 0 <= w < |V| ensures |W[w].edges| == |V[w].edges| + (if w == v then 1 else 0) {
      if w != v {
        assert W[w] == V[w];
      }
    }
  }

  lemma DropOnLengths(F: seq<PlanarFace>, f: nat, e: nat)
    requires f < |F|
    ensures |DropOn(F, f, e)| == |F|
    ensures forall g :: 0 <= g < |F| ==>
      |DropOn(F, f, e)[g].edges| == |F[g].edges| - (if g == f && e in F[f].edges then 1 else 0)
    ensures forall x :: x in DropOn(F, f, e)[f].edges ==> x in F[f].edges
  {
    var W := DropOn(F, f, e);
    RemoveFirstSpec<nat>(F[f].edges, e);
    RemoveFirstMembers<nat>(F[f].edges, e);
    forall g | 0 <= g < |F|
      ensures |W[g].edges| == |F[g].edges| - (if g == f && e in F[f].edges then 1 else 0)
    {
      if g != f {
        assert W[g] == F[g];
      }
    }
  }

  lemma PutOnLengths(F: seq<PlanarFace>, f: nat, e: nat, after: nat)
    requires f < |F|
    ensures |PutOn(F, f, e, after)| == |F|
    ensures forall g :: 0 <= g < |F| ==>
      |PutOn(F, f, e, after)[g].edges| == |F[g].edges| + (if g == f then 1 else 0)
  {
    var W := PutOn(F, f, e, after);
    InsertAfterPlacement<nat>(F[f].edges, e, after);
    forall g | 0 <= g < |F| ensures |W[g].edges| == |F[g].edges| + (if g == f then 1 else 0) {
      if g != f {
        assert W[g] == F[g];
      }
    }
  }

  /** v0 and v2 lose one rotation entry each, v1 and v3 gain one, and all
      other rotations keep their length. */
  lemma FlipDegrees(E: Embedding, q: Quad)
    requires QuadIn(E, q) && FlipReady(E, q)
    ensures |FlippedVertices(E, q)| == |E.vertices|
    ensures forall v :: 0 <= v < |E.vertices| ==>
      |FlippedVertices(E, q)[v].edges| ==
        |E.vertices[v].edges| + (if v == q.v1 || v == q.v3 then 1 else if v == q.v0 || v == q.v2 then -1 else 0)
  {
    var V := E.vertices;
    var V1 := DropAt(V, q.v0, q.h);
    var V2 := DropAt(V1, q.v2, q.t);
    var V3 := PutAfter(V2, q.v1, q.h, Twin(E, q.e0));
    DropAtLengths(V, q.v0, q.h);
    assert V1[q.v2] == V[q.v2];
    DropAtLengths(V1, q.v2, q.t);
    PutAfterLengths(V2, q.v1, q.h, Twin(E, q.e0));
    PutAfterLengths(V3, q.v3, q.t, Twin(E, q.e2));
  }

  /** When e2 lies on f1 and e0 on f2 and the faces differ, every face
      keeps its number of boundary half-edges: f1 drops e2 and gains e0,
      f2 drops e0 and gains e2. */
  lemma FlipFaceSizes(E: Embedding, q: Quad)
    requires QuadIn(E, q) && FlipReady(E, q)
    ensures |FlippedFaces(E, q)| == |E.faces|
    ensures forall f :: 0 <= f < |E.faces| ==> |FlippedFaces(E, q)[f].edges| == |E.faces[f].edges|
  {
    var F := E.faces;
    var F1 := DropOn(F, q.f1, q.e2);
    var F2 := PutOn(F1, q.f1, q.e0, q.e3);
    var F3 := DropOn(F2, q.f2, q.e0);
    DropOnLengths(F, q.f1, q.e2);
    PutOnLengths(F1, q.f1, q.e0, q.e3);
    assert F2[q.f2] == F[q.f2];
    DropOnLengths(F2, q.f2, q.e0);
    PutOnLengths(F3, q.f2, q.e2, q.e1);
  }

  /** A flip keeps the generators' layout of handles, ids and indices
      and the counts 3n - 6 and 2n - 4. */
  lemma FlipKeepsLayout(E: Embedding, q: Quad)
    requires QuadIn(E, q) && Layout(E) && IdsArePositions(E) && Counts(E)
    ensures Wf(Flip(E, q)) && Layout(Flip(E, q)) && IdsArePositions(Flip(E, q)) && Counts(Flip(E, q))
  {
    FlipShape(E, q);
    var E' := Flip(E, q);
    assert |E'.halfEdges| == 2 * |E'.edges|;
    forall h | 0 <= h < |E'.halfEdges|
      ensures E'.halfEdges[h].index == h / 2
      ensures E'.halfEdges[h].partner == if h % 2 == 0 then h + 1 else h - 1
    {
      assert E'.halfEdges[h].index == E.halfEdges[h].index;
      assert E'.halfEdges[h].partner == E.halfEdges[h].partner;
    }
    forall v | 0 <= v < |E'.vertices| ensures E'.vertices[v].id == v {
      assert E'.vertices[v].id == E.vertices[v].id;
    }
    forall f | 0 <= f < |E'.faces| ensures E'.faces[f].index == f {
      assert E'.faces[f].index == E.faces[f].index;
    }
  }

  /** With the conditions of `FlipReady`, a flip keeps every face a triangle. */
  lemma FlipKeepsTriangles(E: Embedding, q: Quad)
    requires QuadIn(E, q) && FlipReady(E, q) && Triangulated(E)
    ensures Wf(Flip(E, q)) && Triangulated(Flip(E, q))
  {
    FlipShape(E, q);
    FlipFaceSizes(E, q);
    var E' := Flip(E, q);
    forall f | 0 <= f < |E'.faces| ensures |Boundary(E', f)| == 3 {
      assert |Boundary(E, f)| == 3;
    }
  }

  /** The rotation lengths of the four corners, read through `Rotation`. */
  lemma FlipCornerDegrees(E: Embedding, q: Quad)
    requires QuadIn(E, q) && FlipReady(E, q)
    ensures var E' := Flip(E, q);
      && Wf(E')
      && |Rotation(E', q.v0)| == |Rotation(E, q.v0)| - 1 && |Rotation(E', q.v2)| == |Rotation(E, q.v2)| - 1
      && |Rotation(E', q.v1)| == |Rotation(E, q.v1)| + 1 && |Rotation(E', q.v3)| == |Rotation(E, q.v3)| + 1
  {
    FlipShape(E, q);
    FlipDegrees(E, q);
    var V' := FlippedVertices(E, q);
    assert Flip(E, q).vertices == V';
    assert Rotation(Flip(E, q), q.v0) == V'[q.v0].edges;
    assert Rotation(Flip(E, q), q.v1) == V'[q.v1].edges;
    assert Rotation(Flip(E, q), q.v2) == V'[q.v2].edges;
    assert Rotation(Flip(E, q), q.v3) == V'[q.v3].edges;
  }

  /** Two embeddings with the same handles, the same edge list, and the
      same ids, indices and partners: everything a flip leaves alone. */
  ghost predicate SameShape(E: Embedding, E': Embedding)
  {
    && |E'.vertices| == |E.vertices| && |E'.halfEdges| == |E.halfEdges|
    && E'.edges == E.edges && |E'.faces| == |E.faces|
    && (forall h :: 0 <= h < |E.halfEdges| ==>
          E'.halfEdges[h].index == E.halfEdges[h].index &&
          E'.halfEdges[h].partner == E.halfEdges[h].partner)
    && (forall v :: 0 <= v < |E.vertices| ==> E'.vertices[v].id == E.vertices[v].id)
    && (forall f :: 0 <= f < |E.faces| ==> E'.faces[f].index == E.faces[f].index)
  }

  /** The shape is kept along any number of flips, and with it the layout
      of handles, ids and indices and the counts 3n - 6 and 2n - 4. */
  lemma SameShapeKeeps(E: Embedding, E': Embedding, E'': Embedding)
    requires SameShape(E, E') && SameShape(E', E'')
    ensures SameShape(E, E'')
    ensures Layout(E) ==> Layout(E'')
    ensures IdsArePositions(E) ==> IdsArePositions(E'')
    ensures Counts(E) ==> Counts(E'')
  {
  }
}
