/** One step of the Apollonian construction: a new vertex inside a
    triangular face, joined to the face's three corners. */
module Subdivision {
  import opened Exceptions
  import opened Lists
  import opened PlanarEmbedding
  import opened PlanarInvariants

  /** What subdividing a triangular face needs: a well-formed map whose
      face `fi` has three boundary half-edges. */
  ghost predicate Subdividable(E: Embedding, fi: nat)
  {
    Wf(E) && fi < |E.faces| && |Boundary(E, fi)| == 3
  }

  /** Subdividing face `fi` = (e0, e1, e2), where e_i leaves corner v_i, by
      a new vertex x = n.  Three new edges join the corners to x: edge m is
      v0 -> x (half-edge H) and x -> v0 (H + 1), edge m + 1 is v1 -> x (H + 2)
      and x -> v1 (H + 3), edge m + 2 is v2 -> x (H + 4) and x -> v2 (H + 5).
      The rotation at v_i gains H + 2i right behind the partner of the
      boundary half-edge that ends at v_i; x's rotation is
      (x -> v0, x -> v2, x -> v1). */
  ghost function SubdividedVertex(E: Embedding, fi: nat, v: nat): PlanarVertex
    requires Subdividable(E, fi) && v <= |E.vertices|
  {
    var b := Boundary(E, fi);
    var H: nat := |E.halfEdges|;
    if v == |E.vertices| then PlanarVertex(v, [H + 1, H + 5, H + 3])
    else if v == Start(E, b[0]) then
      E.vertices[v].(edges := InsertAfter<nat>(E.vertices[v].edges, H, Twin(E, b[2])))
    else if v == Start(E, b[1]) then
      E.vertices[v].(edges := InsertAfter<nat>(E.vertices[v].edges, H + 2, Twin(E, b[0])))
    else if v == Start(E, b[2]) then
      E.vertices[v].(edges := InsertAfter<nat>(E.vertices[v].edges, H + 4, Twin(E, b[1])))
    else E.vertices[v]
  }

  /** The half-edges after the subdivision: e1 and e2 move to the new faces
      F and F + 1, and the six new half-edges are appended. */
  ghost function SubdividedHalfEdge(E: Embedding, fi: nat, h: nat): PlanarEdge
    requires Subdividable(E, fi) && h < |E.halfEdges| + 6
  {
    var b := Boundary(E, fi);
    var H, m, F, n := |E.halfEdges|, |E.edges|, |E.faces|, |E.vertices|;
    if h < H then
      if h == b[1] then E.halfEdges[h].(leftFace := F)
      else if h == b[2] then E.halfEdges[h].(leftFace := F + 1)
      else E.halfEdges[h]
    else if h == H then PlanarEdge(Start(E, b[0]), F + 1, m, H + 1)
    else if h == H + 1 then PlanarEdge(n, fi, m, H)
    else if h == H + 2 then PlanarEdge(Start(E, b[1]), fi, m + 1, H + 3)
    else if h == H + 3 then PlanarEdge(n, F, m + 1, H + 2)
    else if h == H + 4 then PlanarEdge(Start(E, b[2]), F, m + 2, H + 5)
    else PlanarEdge(n, F + 1, m + 2, H + 4)
  }

  /** The faces after the subdivision: fi = (e0, v1 -> x, x -> v0),
      F = (e1, v2 -> x, x -> v1), F + 1 = (e2, v0 -> x, x -> v2). */
  ghost function SubdividedFace(E: Embedding, fi: nat, f: nat): PlanarFace
    requires Subdividable(E, fi) && f < |E.faces| + 2
  {
    var b := Boundary(E, fi);
    var H: nat, F: nat := |E.halfEdges|, |E.faces|;
    if f == fi then PlanarFace(E.faces[fi].index, [b[0], H + 2, H + 1])
    else if f == F then PlanarFace(F, [b[1], H + 4, H + 3])
    else if f == F + 1 then PlanarFace(F + 1, [b[2], H, H + 5])
    else E.faces[f]
  }

  /** The map after subdividing face `fi` (`createApollonianNetwork`'s loop
      body). */
  ghost function Subdivide(E: Embedding, fi: nat): (E': Embedding)
    requires Subdividable(E, fi)
    ensures |E'.vertices| == |E.vertices| + 1
    ensures |E'.halfEdges| == |E.halfEdges| + 6
    ensures |E'.edges| == |E.edges| + 3
    ensures |E'.faces| == |E.faces| + 2
  {
    var H: nat := |E.halfEdges|;
    Embedding(
      seq(|E.vertices| + 1, v requires 0 <= v <= |E.vertices| => SubdividedVertex(E, fi, v)),
      seq(|E.halfEdges| + 6, h requires 0 <= h < |E.halfEdges| + 6 => SubdividedHalfEdge(E, fi, h)),
      E.edges + [H, H + 2, H + 4],
      seq(|E.faces| + 2, f requires 0 <= f < |E.faces| + 2 => SubdividedFace(E, fi, f)))
  }

  // ---------------------------------------------------------------------
  // Well-formedness and layout

  /** The corners' rotations gain one new half-edge each; every other old
      rotation is unchanged. */
  lemma SubdividedRotationMembers(E: Embedding, fi: nat, v: nat)
    requires Subdividable(E, fi) && v < |E.vertices|
    ensures forall h :: h in E.vertices[v].edges ==> h in SubdividedVertex(E, fi, v).edges
    ensures var H: nat := |E.halfEdges|;
      var b := Boundary(E, fi);
      forall h :: h in SubdividedVertex(E, fi, v).edges ==>
        || h in E.vertices[v].edges
        || (h == H && v == Start(E, b[0]))
        || (h == H + 2 && v == Start(E, b[1]))
        || (h == H + 4 && v == Start(E, b[2]))
  {
    var b := Boundary(E, fi);
    var H: nat := |E.halfEdges|;
    var s := E.vertices[v].edges;
    assert forall z :: z in s ==> z < H by {
      assert s == Rotation(E, v);
    }
    if v == Start(E, b[0]) {
      InsertAfterMembers<nat>(s, H, Twin(E, b[2]));
    } else if v == Start(E, b[1]) {
      InsertAfterMembers<nat>(s, H + 2, Twin(E, b[0]));
    } else if v == Start(E, b[2]) {
      InsertAfterMembers<nat>(s, H + 4, Twin(E, b[1]));
    }
  }

  lemma SubdivideRotationEntries(E: Embedding, fi: nat, v: nat)
    requires Subdividable(E, fi) && v <= |E.vertices|
    ensures forall h :: h in SubdividedVertex(E, fi, v).edges ==> h < |E.halfEdges| + 6
  {
    if v < |E.vertices| {
      SubdividedRotationMembers(E, fi, v);
      assert forall z :: z in E.vertices[v].edges ==> z < |E.halfEdges| by {
        assert E.vertices[v].edges == Rotation(E, v);
      }
    }
  }

  lemma SubdivideBoundaryEntries(E: Embedding, fi: nat, f: nat)
    requires Subdividable(E, fi) && f < |E.faces| + 2
    ensures forall h :: h in SubdividedFace(E, fi, f).edges ==> h < |E.halfEdges| + 6
  {
    if f < |E.faces| && f != fi {
      assert E.faces[f].edges == Boundary(E, f);
    }
  }

  lemma SubdivideHalfEdgeWf(E: Embedding, fi: nat, h: nat)
    requires Subdividable(E, fi) && h < |E.halfEdges| + 6
    ensures HalfEdgeWf(Subdivide(E, fi), h)
  {
    var E' := Subdivide(E, fi);
    if h < |E.halfEdges| {
      assert HalfEdgeWf(E, h);
      var p := E.halfEdges[h].partner;
      assert E'.halfEdges[h] == SubdividedHalfEdge(E, fi, h);
      assert E'.halfEdges[p] == SubdividedHalfEdge(E, fi, p);
    } else {
      var p := E'.halfEdges[h].partner;
      assert E'.halfEdges[p] == SubdividedHalfEdge(E, fi, p);
    }
  }

  lemma SubdivideWf(E: Embedding, fi: nat)
    requires Subdividable(E, fi)
    ensures Wf(Subdivide(E, fi))
  {
    var E' := Subdivide(E, fi);
    forall v, h | 0 <= v < |E'.vertices| && h in E'.vertices[v].edges
      ensures h < |E'.halfEdges|
    {
      SubdivideRotationEntries(E, fi, v);
    }
    forall f, h | 0 <= f < |E'.faces| && h in E'.faces[f].edges
      ensures h < |E'.halfEdges|
    {
      SubdivideBoundaryEntries(E, fi, f);
    }
    forall h | 0 <= h < |E'.halfEdges| ensures HalfEdgeWf(E', h) {
      SubdivideHalfEdgeWf(E, fi, h);
    }
  }

  /** The graph's edge list, ids and face indices keep the generators'
      layout. */
  lemma SubdivideLayout(E: Embedding, fi: nat)
    requires Subdividable(E, fi) && Layout(E) && IdsArePositions(E)
    ensures Layout(Subdivide(E, fi)) && IdsArePositions(Subdivide(E, fi))
  {
    var E' := Subdivide(E, fi);
    forall h | 0 <= h < |E'.halfEdges|
      ensures E'.halfEdges[h].index == h / 2
      ensures E'.halfEdges[h].partner == if h % 2 == 0 then h + 1 else h - 1
    {
      assert E'.halfEdges[h] == SubdividedHalfEdge(E, fi, h);
    }
    forall v | 0 <= v < |E'.vertices| ensures E'.vertices[v].id == v {
      assert E'.vertices[v] == SubdividedVertex(E, fi, v);
    }
    forall f | 0 <= f < |E'.faces| ensures E'.faces[f].index == f {
      assert E'.faces[f] == SubdividedFace(E, fi, f);
    }
  }

  // ---------------------------------------------------------------------
  // Rotations

  /** Old half-edges keep their start and partner. */
  lemma SubdividedOldHalfEdge(E: Embedding, fi: nat, h: nat)
    requires Subdividable(E, fi) && h < |E.halfEdges|
    ensures SubdividedHalfEdge(E, fi, h).start == E.halfEdges[h].start
    ensures SubdividedHalfEdge(E, fi, h).partner == E.halfEdges[h].partner
  {
  }

  /** Each rotation stays free of repetitions. */
  lemma SubdivideRotationDistinct(E: Embedding, fi: nat, v: nat)
    requires Subdividable(E, fi) && RotationsOk(E) && v <= |E.vertices|
    ensures Distinct<nat>(SubdividedVertex(E, fi, v).edges)
  {
    var H: nat := |E.halfEdges|;
    if v == |E.vertices| {
      NextCyclicThree<nat>(H + 1, H + 5, H + 3);
    } else {
      OldRotationDistinct(E, v);
      var s := E.vertices[v].edges;
      var t := SubdividedVertex(E, fi, v).edges;
      if t != s {
        var x: nat, after: nat := CornerInsert(E, fi, v);
        InsertAfterDistinct<nat>(s, x, after);
      }
    }
  }

  /** A corner of the subdivided face gains one new half-edge, inserted
      after an old one. */
  lemma CornerInsert(E: Embedding, fi: nat, v: nat) returns (x: nat, after: nat)
    requires Subdividable(E, fi) && v < |E.vertices|
    requires SubdividedVertex(E, fi, v).edges != E.vertices[v].edges
    ensures x >= |E.halfEdges|
    ensures SubdividedVertex(E, fi, v).edges == InsertAfter<nat>(E.vertices[v].edges, x, after)
  {
    var b := Boundary(E, fi);
    var H: nat := |E.halfEdges|;
    if v == Start(E, b[0]) {
      x, after := H, Twin(E, b[2]);
    } else if v == Start(E, b[1]) {
      x, after := H + 2, Twin(E, b[0]);
    } else {
      x, after := H + 4, Twin(E, b[1]);
    }
  }

  lemma OldRotationDistinct(E: Embedding, v: nat)
    requires Wf(E) && RotationsOk(E) && v < |E.vertices|
    ensures Distinct<nat>(E.vertices[v].edges)
    ensures forall z :: z in E.vertices[v].edges ==> z < |E.halfEdges|
  {
    assert E.vertices[v].edges == Rotation(E, v);
  }

  /** Each rotation lists only half-edges leaving its vertex. */
  lemma SubdivideRotationStarts(E: Embedding, fi: nat, v: nat)
    requires Subdividable(E, fi) && Corners(E, fi) && RotationsOk(E) && v <= |E.vertices|
    ensures forall h :: h in SubdividedVertex(E, fi, v).edges ==>
      h < |E.halfEdges| + 6 && SubdividedHalfEdge(E, fi, h).start == v
  {
    var H: nat := |E.halfEdges|;
    if v < |E.vertices| {
      var s := E.vertices[v].edges;
      assert RotationStartsHere(E, v) && forall z :: z in s ==> z < H by {
        assert s == Rotation(E, v);
      }
      SubdividedRotationMembers(E, fi, v);
      forall h | h in SubdividedVertex(E, fi, v).edges
        ensures h < H + 6 && SubdividedHalfEdge(E, fi, h).start == v
      {
        if h < H {
          assert h in Rotation(E, v);
          SubdividedOldHalfEdge(E, fi, h);
        }
      }
    }
  }

  /** Each old half-edge stays in the rotation of its start. */
  lemma SubdivideInRotationOld(E: Embedding, fi: nat, h: nat)
    requires Subdividable(E, fi) && RotationsOk(E) && h < |E.halfEdges|
    ensures SubdividedHalfEdge(E, fi, h).start < |E.vertices|
    ensures h in SubdividedVertex(E, fi, SubdividedHalfEdge(E, fi, h).start).edges
  {
    SubdividedOldHalfEdge(E, fi, h);
    assert h in Rotation(E, Start(E, h));
    SubdividedRotationMembers(E, fi, Start(E, h));
  }

  /** Each new half-edge lies in the rotation of its start. */
  lemma SubdivideInRotationNew(E: Embedding, fi: nat, h: nat)
    requires Subdividable(E, fi) && Corners(E, fi) && |E.halfEdges| <= h < |E.halfEdges| + 6
    ensures SubdividedHalfEdge(E, fi, h).start <= |E.vertices|
    ensures h in SubdividedVertex(E, fi, SubdividedHalfEdge(E, fi, h).start).edges
  {
    var b := Boundary(E, fi);
    var H: nat := |E.halfEdges|;
    if h == H {
      InsertAfterMembers<nat>(E.vertices[Start(E, b[0])].edges, H, Twin(E, b[2]));
    } else if h == H + 2 {
      InsertAfterMembers<nat>(E.vertices[Start(E, b[1])].edges, H + 2, Twin(E, b[0]));
    } else if h == H + 4 {
      InsertAfterMembers<nat>(E.vertices[Start(E, b[2])].edges, H + 4, Twin(E, b[1]));
    }
  }

  lemma SubdivideRotationsOk(E: Embedding, fi: nat)
    requires Subdividable(E, fi) && Corners(E, fi) && RotationsOk(E)
    ensures Wf(Subdivide(E, fi)) && RotationsOk(Subdivide(E, fi))
  {
    SubdivideWf(E, fi);
    var E' := Subdivide(E, fi);
    forall v | 0 <= v < |E'.vertices|
      ensures Distinct<nat>(Rotation(E', v)) && RotationStartsHere(E', v)
    {
      SubdivideRotationDistinct(E, fi, v);
      SubdivideRotationStarts(E, fi, v);
    }
    forall h | 0 <= h < |E'.halfEdges| ensures h in Rotation(E', Start(E', h)) {
      if h < |E.halfEdges| {
        SubdivideInRotationOld(E, fi, h);
      } else {
        SubdivideInRotationNew(E, fi, h);
      }
    }
  }

  // ---------------------------------------------------------------------
  // Boundaries

  /** Each boundary stays free of repetitions and lists only half-edges
      with its face on the left. */
  lemma SubdivideBoundaryOkAt(E: Embedding, fi: nat, f: nat)
    requires Subdividable(E, fi) && Corners(E, fi) && BoundariesOk(E) && f < |E.faces| + 2
    ensures Distinct<nat>(SubdividedFace(E, fi, f).edges)
    ensures forall h :: h in SubdividedFace(E, fi, f).edges ==>
      h < |E.halfEdges| + 6 && SubdividedHalfEdge(E, fi, h).leftFace == f
  {
    var b := Boundary(E, fi);
    var H: nat := |E.halfEdges|;
    if f == fi {
      NextCyclicThree<nat>(b[0], H + 2, H + 1);
    } else if f == |E.faces| {
      NextCyclicThree<nat>(b[1], H + 4, H + 3);
    } else if f == |E.faces| + 1 {
      NextCyclicThree<nat>(b[2], H, H + 5);
    } else {
      var s := E.faces[f].edges;
      assert s == Boundary(E, f);
      assert Distinct<nat>(s) && BoundaryLeftHere(E, f);
      forall h | h in s ensures h < H + 6 && SubdividedHalfEdge(E, fi, h).leftFace == f {
        assert LeftFace(E, h) == f;
      }
    }
  }

  /** Each half-edge lies in the boundary of its left face. */
  lemma SubdivideInBoundary(E: Embedding, fi: nat, h: nat)
    requires Subdividable(E, fi) && Corners(E, fi) && BoundariesOk(E) && h < |E.halfEdges| + 6
    ensures SubdividedHalfEdge(E, fi, h).leftFace < |E.faces| + 2
    ensures h in SubdividedFace(E, fi, SubdividedHalfEdge(E, fi, h).leftFace).edges
  {
    var b := Boundary(E, fi);
    if h < |E.halfEdges| && h != b[0] && h != b[1] && h != b[2] {
      assert h in Boundary(E, LeftFace(E, h));
      assert LeftFace(E, h) != fi by {
        assert b == [b[0], b[1], b[2]];
      }
    }
  }

  lemma SubdivideBoundariesOk(E: Embedding, fi: nat)
    requires Subdividable(E, fi) && Corners(E, fi) && BoundariesOk(E)
    ensures Wf(Subdivide(E, fi)) && BoundariesOk(Subdivide(E, fi))
  {
    SubdivideWf(E, fi);
    var E' := Subdivide(E, fi);
    forall f | 0 <= f < |E'.faces|
      ensures Distinct<nat>(Boundary(E', f)) && BoundaryLeftHere(E', f)
    {
      SubdivideBoundaryOkAt(E, fi, f);
    }
    forall h | 0 <= h < |E'.halfEdges| ensures h in Boundary(E', LeftFace(E', h)) {
      SubdivideInBoundary(E, fi, h);
    }
  }

  // ---------------------------------------------------------------------
  // Rotations and boundaries agree

  /** What `getNextEdge` of `h` reads after the subdivision, at the start
      `u` of its partner `t`, equals the successor of `h` on its new left
      face `f`. */
  ghost predicate TurnAgrees(E: Embedding, fi: nat, h: nat, t: nat, u: nat, f: nat)
    requires Subdividable(E, fi)
  {
    && h < |E.halfEdges| + 6 && t < |E.halfEdges| + 6
    && u <= |E.vertices| && f < |E.faces| + 2
    && SubdividedHalfEdge(E, fi, h).partner == t
    && SubdividedHalfEdge(E, fi, h).leftFace == f
    && SubdividedHalfEdge(E, fi, t).start == u
    && h in SubdividedFace(E, fi, f).edges
    && t in SubdividedVertex(E, fi, u).edges
    && NextCyclic<nat>(SubdividedVertex(E, fi, u).edges, t) == NextCyclic<nat>(SubdividedFace(E, fi, f).edges, h)
  }

  /** v0 -> x: the successor of x -> v0 at x is x -> v2, as on face F + 1. */
  lemma SubdivideTurnH0(E: Embedding, fi: nat)
    requires Subdividable(E, fi)
    ensures TurnAgrees(E, fi, |E.halfEdges|, |E.halfEdges| + 1, |E.vertices|, |E.faces| + 1)
  {
    var b := Boundary(E, fi);
    NextCyclicThree<nat>(|E.halfEdges| + 1, |E.halfEdges| + 5, |E.halfEdges| + 3);
    NextCyclicThree<nat>(b[2], |E.halfEdges|, |E.halfEdges| + 5);
  }

  /** v1 -> x: the successor of x -> v1 at x is x -> v0, as on face fi. */
  lemma SubdivideTurnH2(E: Embedding, fi: nat)
    requires Subdividable(E, fi)
    ensures TurnAgrees(E, fi, |E.halfEdges| + 2, |E.halfEdges| + 3, |E.vertices|, fi)
  {
    var b := Boundary(E, fi);
    NextCyclicThree<nat>(|E.halfEdges| + 1, |E.halfEdges| + 5, |E.halfEdges| + 3);
    NextCyclicThree<nat>(b[0], |E.halfEdges| + 2, |E.halfEdges| + 1);
  }

  /** v2 -> x: the successor of x -> v2 at x is x -> v1, as on face F. */
  lemma SubdivideTurnH4(E: Embedding, fi: nat)
    requires Subdividable(E, fi)
    ensures TurnAgrees(E, fi, |E.halfEdges| + 4, |E.halfEdges| + 5, |E.vertices|, |E.faces|)
  {
    var b := Boundary(E, fi);
    NextCyclicThree<nat>(|E.halfEdges| + 1, |E.halfEdges| + 5, |E.halfEdges| + 3);
    NextCyclicThree<nat>(b[1], |E.halfEdges| + 4, |E.halfEdges| + 3);
  }

  /** Inserting `y` behind `a` in a rotation where `a` is followed by `e`. */
  lemma InsertedTurn(s: seq<nat>, y: nat, a: nat, e: nat)
    requires Distinct<nat>(s) && a in s && y !in s && NextCyclic<nat>(s, a) == e
    ensures y in InsertAfter<nat>(s, y, a) && a in InsertAfter<nat>(s, y, a)
    ensures NextCyclic<nat>(InsertAfter<nat>(s, y, a), y) == e
    ensures NextCyclic<nat>(InsertAfter<nat>(s, y, a), a) == y
  {
    InsertAfterNext<nat>(s, y, a);
  }

  /** At corner i, the partner of boundary half-edge j (the one ending at
      the corner) is followed by boundary half-edge i, in a rotation of old
      half-edges without repetitions. */
  ghost predicate CornerTurn(E: Embedding, fi: nat, i: nat, j: nat)
    requires Subdividable(E, fi) && i < 3 && j < 3
  {
    var b := Boundary(E, fi);
    var s := E.vertices[Start(E, b[i])].edges;
    && Distinct<nat>(s) && (forall z :: z in s ==> z < |E.halfEdges|)
    && Twin(E, b[j]) in s && NextCyclic<nat>(s, Twin(E, b[j])) == b[i]
  }

  lemma TriangleCornerTurns(E: Embedding, fi: nat)
    requires Subdividable(E, fi) && Triangle(E, fi) && RotationsOk(E)
    ensures CornerTurn(E, fi, 0, 2) && CornerTurn(E, fi, 1, 0) && CornerTurn(E, fi, 2, 1)
  {
    var b := Boundary(E, fi);
    assert E.vertices[Start(E, b[0])].edges == Rotation(E, Start(E, b[0]));
    assert E.vertices[Start(E, b[1])].edges == Rotation(E, Start(E, b[1]));
    assert E.vertices[Start(E, b[2])].edges == Rotation(E, Start(E, b[2]));
  }

  /** x -> v0: the successor of v0 -> x at v0 is e0, as on face fi. */
  lemma SubdivideTurnH1(E: Embedding, fi: nat, h: nat) returns (t: nat, u: nat, f: nat)
    requires Subdividable(E, fi) && Corners(E, fi) && CornerTurn(E, fi, 0, 2)
    requires h == |E.halfEdges| + 1
    ensures TurnAgrees(E, fi, h, t, u, f)
  {
    var b := Boundary(E, fi);
    t := CornerInsert0(E, fi);
    u, f := Start(E, b[0]), fi;
    assert SubdividedFace(E, fi, fi).edges == [b[0], |E.halfEdges| + 2, |E.halfEdges| + 1];
    NextCyclicThree<nat>(b[0], |E.halfEdges| + 2, |E.halfEdges| + 1);
  }

  /** x -> v1: the successor of v1 -> x at v1 is e1, as on face F. */
  lemma SubdivideTurnH3(E: Embedding, fi: nat, h: nat) returns (t: nat, u: nat, f: nat)
    requires Subdividable(E, fi) && Corners(E, fi) && CornerTurn(E, fi, 1, 0)
    requires h == |E.halfEdges| + 3
    ensures TurnAgrees(E, fi, h, t, u, f)
  {
    var b := Boundary(E, fi);
    t := CornerInsert1(E, fi);
    u, f := Start(E, b[1]), |E.faces|;
    assert SubdividedFace(E, fi, |E.faces|).edges == [b[1], |E.halfEdges| + 4, |E.halfEdges| + 3];
    NextCyclicThree<nat>(b[1], |E.halfEdges| + 4, |E.halfEdges| + 3);
  }

  /** x -> v2: the successor of v2 -> x at v2 is e2, as on face F + 1. */
  lemma SubdivideTurnH5(E: Embedding, fi: nat, h: nat) returns (t: nat, u: nat, f: nat)
    requires Subdividable(E, fi) && Corners(E, fi) && CornerTurn(E, fi, 2, 1)
    requires h == |E.halfEdges| + 5
    ensures TurnAgrees(E, fi, h, t, u, f)
  {
    var b := Boundary(E, fi);
    t := CornerInsert2(E, fi);
    u, f := Start(E, b[2]), |E.faces| + 1;
    assert SubdividedFace(E, fi, |E.faces| + 1).edges == [b[2], |E.halfEdges|, |E.halfEdges| + 5];
    NextCyclicThree<nat>(b[2], |E.halfEdges|, |E.halfEdges| + 5);
  }

  /** e0: the successor of its partner at v1 is now v1 -> x, as on face fi. */
  lemma SubdivideTurnE0(E: Embedding, fi: nat)
    requires Subdividable(E, fi) && Corners(E, fi) && CornerTurn(E, fi, 1, 0)
    ensures var b := Boundary(E, fi);
      TurnAgrees(E, fi, b[0], Twin(E, b[0]), Start(E, b[1]), fi)
  {
    var b := Boundary(E, fi);
    var y := CornerInsert1(E, fi);
    assert SubdividedFace(E, fi, fi).edges == [b[0], |E.halfEdges| + 2, |E.halfEdges| + 1];
    NextCyclicThree<nat>(b[0], |E.halfEdges| + 2, |E.halfEdges| + 1);
    SubdividedOldHalfEdge(E, fi, Twin(E, b[0]));
  }

  /** e1: the successor of its partner at v2 is now v2 -> x, as on face F. */
  lemma SubdivideTurnE1(E: Embedding, fi: nat)
    requires Subdividable(E, fi) && Corners(E, fi) && CornerTurn(E, fi, 2, 1)
    ensures var b := Boundary(E, fi);
      TurnAgrees(E, fi, b[1], Twin(E, b[1]), Start(E, b[2]), |E.faces|)
  {
    var b := Boundary(E, fi);
    var y := CornerInsert2(E, fi);
    assert SubdividedFace(E, fi, |E.faces|).edges == [b[1], |E.halfEdges| + 4, |E.halfEdges| + 3];
    NextCyclicThree<nat>(b[1], |E.halfEdges| + 4, |E.halfEdges| + 3);
    SubdividedOldHalfEdge(E, fi, Twin(E, b[1]));
  }

  /** e2: the successor of its partner at v0 is now v0 -> x, as on face F + 1. */
  lemma SubdivideTurnE2(E: Embedding, fi: nat)
    requires Subdividable(E, fi) && Corners(E, fi) && CornerTurn(E, fi, 0, 2)
    ensures var b := Boundary(E, fi);
      TurnAgrees(E, fi, b[2], Twin(E, b[2]), Start(E, b[0]), |E.faces| + 1)
  {
    var b := Boundary(E, fi);
    var y := CornerInsert0(E, fi);
    assert SubdividedFace(E, fi, |E.faces| + 1).edges == [b[2], |E.halfEdges|, |E.halfEdges| + 5];
    NextCyclicThree<nat>(b[2], |E.halfEdges|, |E.halfEdges| + 5);
    SubdividedOldHalfEdge(E, fi, Twin(E, b[2]));
  }

  /** At each corner the new half-edge towards x is inserted right behind
      the partner of the boundary half-edge ending there, so it follows that
      partner and is followed by the boundary half-edge leaving the corner. */
  lemma CornerInsert0(E: Embedding, fi: nat) returns (y: nat)
    requires Subdividable(E, fi) && Corners(E, fi) && CornerTurn(E, fi, 0, 2)
    ensures y == |E.halfEdges|
    ensures var b := Boundary(E, fi); var r := SubdividedVertex(E, fi, Start(E, b[0])).edges;
      && y in r && Twin(E, b[2]) in r
      && NextCyclic<nat>(r, y) == b[0] && NextCyclic<nat>(r, Twin(E, b[2])) == y
  {
    var b := Boundary(E, fi);
    var v := Start(E, b[0]);
    var s := E.vertices[v].edges;
    var a: nat := Twin(E, b[2]);
    y := |E.halfEdges|;
    assert y !in s;
    assert SubdividedVertex(E, fi, v).edges == InsertAfter<nat>(s, y, a);
    InsertedTurn(s, y, a, b[0]);
  }

  lemma CornerInsert1(E: Embedding, fi: nat) returns (y: nat)
    requires Subdividable(E, fi) && Corners(E, fi) && CornerTurn(E, fi, 1, 0)
    ensures y == |E.halfEdges| + 2
    ensures var b := Boundary(E, fi); var r := SubdividedVertex(E, fi, Start(E, b[1])).edges;
      && y in r && Twin(E, b[0]) in r
      && NextCyclic<nat>(r, y) == b[1] && NextCyclic<nat>(r, Twin(E, b[0])) == y
  {
    var b := Boundary(E, fi);
    var v := Start(E, b[1]);
    var s := E.vertices[v].edges;
    var a: nat := Twin(E, b[0]);
    y := |E.halfEdges| + 2;
    assert y !in s;
    assert SubdividedVertex(E, fi, v).edges == InsertAfter<nat>(s, y, a);
    InsertedTurn(s, y, a, b[1]);
  }

  lemma CornerInsert2(E: Embedding, fi: nat) returns (y: nat)
    requires Subdividable(E, fi) && Corners(E, fi) && CornerTurn(E, fi, 2, 1)
    ensures y == |E.halfEdges| + 4
    ensures var b := Boundary(E, fi); var r := SubdividedVertex(E, fi, Start(E, b[2])).edges;
      && y in r && Twin(E, b[1]) in r
      && NextCyclic<nat>(r, y) == b[2] && NextCyclic<nat>(r, Twin(E, b[1])) == y
  {
    var b := Boundary(E, fi);
    var v := Start(E, b[2]);
    var s := E.vertices[v].edges;
    var a: nat := Twin(E, b[1]);
    y := |E.halfEdges| + 4;
    assert y !in s;
    assert SubdividedVertex(E, fi, v).edges == InsertAfter<nat>(s, y, a);
    InsertedTurn(s, y, a, b[2]);
  }

  /** At each corner, inserting the new half-edge towards x keeps the
      rotation successor of every old half-edge but the anchor. */
  lemma CornerKeeps0(E: Embedding, fi: nat, t: nat)
    requires Subdividable(E, fi) && Corners(E, fi) && CornerTurn(E, fi, 0, 2)
    requires var b := Boundary(E, fi);
      t in E.vertices[Start(E, b[0])].edges && t != Twin(E, b[2])
    ensures var b := Boundary(E, fi); var u := Start(E, b[0]);
      && t in SubdividedVertex(E, fi, u).edges
      && NextCyclic<nat>(SubdividedVertex(E, fi, u).edges, t) == NextCyclic<nat>(E.vertices[u].edges, t)
  {
    var b := Boundary(E, fi);
    var s := E.vertices[Start(E, b[0])].edges;
    var y: nat, a: nat := |E.halfEdges|, Twin(E, b[2]);
    assert y !in s;
    assert SubdividedVertex(E, fi, Start(E, b[0])).edges == InsertAfter<nat>(s, y, a);
    InsertAfterKeeps<nat>(s, y, a, t);
  }

  lemma CornerKeeps1(E: Embedding, fi: nat, t: nat)
    requires Subdividable(E, fi) && Corners(E, fi) && CornerTurn(E, fi, 1, 0)
    requires var b := Boundary(E, fi);
      t in E.vertices[Start(E, b[1])].edges && t != Twin(E, b[0])
    ensures var b := Boundary(E, fi); var u := Start(E, b[1]);
      && t in SubdividedVertex(E, fi, u).edges
      && NextCyclic<nat>(SubdividedVertex(E, fi, u).edges, t) == NextCyclic<nat>(E.vertices[u].edges, t)
  {
    var b := Boundary(E, fi);
    var s := E.vertices[Start(E, b[1])].edges;
    var y: nat, a: nat := |E.halfEdges| + 2, Twin(E, b[0]);
    assert y !in s;
    assert SubdividedVertex(E, fi, Start(E, b[1])).edges == InsertAfter<nat>(s, y, a);
    InsertAfterKeeps<nat>(s, y, a, t);
  }

  lemma CornerKeeps2(E: Embedding, fi: nat, t: nat)
    requires Subdividable(E, fi) && Corners(E, fi) && CornerTurn(E, fi, 2, 1)
    requires var b := Boundary(E, fi);
      t in E.vertices[Start(E, b[2])].edges && t != Twin(E, b[1])
    ensures var b := Boundary(E, fi); var u := Start(E, b[2]);
      && t in SubdividedVertex(E, fi, u).edges
      && NextCyclic<nat>(SubdividedVertex(E, fi, u).edges, t) == NextCyclic<nat>(E.vertices[u].edges, t)
  {
    var b := Boundary(E, fi);
    var s := E.vertices[Start(E, b[2])].edges;
    var y: nat, a: nat := |E.halfEdges| + 4, Twin(E, b[1]);
    assert y !in s;
    assert SubdividedVertex(E, fi, Start(E, b[2])).edges == InsertAfter<nat>(s, y, a);
    InsertAfterKeeps<nat>(s, y, a, t);
  }

  /** A rotation successor of an old half-edge other than the three
      anchors does not change. */
  lemma SubdividedRotationKeeps(E: Embedding, fi: nat, u: nat, t: nat)
    requires Subdividable(E, fi) && Corners(E, fi) && u < |E.vertices|
    requires CornerTurn(E, fi, 0, 2) && CornerTurn(E, fi, 1, 0) && CornerTurn(E, fi, 2, 1)
    requires t in E.vertices[u].edges
    requires var b := Boundary(E, fi);
      t != Twin(E, b[0]) && t != Twin(E, b[1]) && t != Twin(E, b[2])
    ensures t in SubdividedVertex(E, fi, u).edges
    ensures NextCyclic<nat>(SubdividedVertex(E, fi, u).edges, t) == NextCyclic<nat>(E.vertices[u].edges, t)
  {
    var b := Boundary(E, fi);
    if u == Start(E, b[0]) {
      CornerKeeps0(E, fi, t);
    } else if u == Start(E, b[1]) {
      CornerKeeps1(E, fi, t);
    } else if u == Start(E, b[2]) {
      CornerKeeps2(E, fi, t);
    } else {
      assert SubdividedVertex(E, fi, u) == E.vertices[u];
    }
  }

  /** An old half-edge off the subdivided face: its partner is none of
      the anchors the corners' new half-edges are inserted behind, so
      neither its rotation successor nor its face successor changes. */
  lemma SubdivideTurnOld(E: Embedding, fi: nat, h: nat)
    requires Subdividable(E, fi) && Corners(E, fi) && h < |E.halfEdges|
    requires CornerTurn(E, fi, 0, 2) && CornerTurn(E, fi, 1, 0) && CornerTurn(E, fi, 2, 1)
    requires var b := Boundary(E, fi);
      h != b[0] && h != b[1] && h != b[2]
    requires var t := Twin(E, h); var s := E.vertices[Start(E, t)].edges;
      && t in s && h in E.faces[LeftFace(E, h)].edges && LeftFace(E, h) != fi
      && NextCyclic<nat>(s, t) == NextCyclic<nat>(E.faces[LeftFace(E, h)].edges, h)
    ensures TurnAgrees(E, fi, h, Twin(E, h), Start(E, Twin(E, h)), LeftFace(E, h))
  {
    var b := Boundary(E, fi);
    var t := Twin(E, h);
    SubdividedOldHalfEdge(E, fi, h);
    SubdividedOldHalfEdge(E, fi, t);
    TwinTwin(E, h);
    TwinTwin(E, b[0]);
    TwinTwin(E, b[1]);
    TwinTwin(E, b[2]);
    SubdividedRotationKeeps(E, fi, Start(E, t), t);
  }

  /** The facts `SubdivideTurnOld` needs hold in a consistent map. */
  lemma OldTurnFacts(E: Embedding, fi: nat, h: nat)
    requires Subdividable(E, fi) && Corners(E, fi)
    requires RotationsOk(E) && BoundariesOk(E) && Consistent(E)
    requires h < |E.halfEdges| && h !in Boundary(E, fi)
    ensures var b := Boundary(E, fi);
      h != b[0] && h != b[1] && h != b[2]
    ensures var t := Twin(E, h); var s := E.vertices[Start(E, t)].edges;
      && t in s && h in E.faces[LeftFace(E, h)].edges && LeftFace(E, h) != fi
      && NextCyclic<nat>(s, t) == NextCyclic<nat>(E.faces[LeftFace(E, h)].edges, h)
  {
    var t := Twin(E, h);
    var b := Boundary(E, fi);
    assert b[0] in b && b[1] in b && b[2] in b;
    FaceSuccessorFacts(E, h);
    assert E.vertices[Start(E, t)].edges == Rotation(E, Start(E, t));
    assert E.faces[LeftFace(E, h)].edges == Boundary(E, LeftFace(E, h));
    assert h in Boundary(E, LeftFace(E, h));
  }

  /** `TurnAgrees` is the consistency condition of the subdivided map. */
  lemma AgreeGivesNextEdge(E: Embedding, fi: nat, h: nat, t: nat, u: nat, f: nat)
    requires Subdividable(E, fi) && TurnAgrees(E, fi, h, t, u, f)
    requires Wf(Subdivide(E, fi)) && BoundariesOk(Subdivide(E, fi))
    ensures NextEdge(Subdivide(E, fi), h) == Ok(FaceSuccessor(Subdivide(E, fi), h))
  {
    var E' := Subdivide(E, fi);
    assert E'.halfEdges[h] == SubdividedHalfEdge(E, fi, h);
    assert E'.halfEdges[t] == SubdividedHalfEdge(E, fi, t);
    assert Rotation(E', u) == SubdividedVertex(E, fi, u).edges;
    assert Boundary(E', f) == SubdividedFace(E, fi, f).edges;
    NextEdgeIs(E', h, FaceSuccessor(E', h));
  }

  /** The partner, its start and the new left face of a new half-edge into
      x, for which `TurnAgrees` holds. */
  lemma TurnOfIntoX(E: Embedding, fi: nat, h: nat) returns (t: nat, u: nat, f: nat)
    requires Subdividable(E, fi)
    requires h == |E.halfEdges| || h == |E.halfEdges| + 2 || h == |E.halfEdges| + 4
    ensures TurnAgrees(E, fi, h, t, u, f)
  {
    var H: nat, n: nat, F: nat := |E.halfEdges|, |E.vertices|, |E.faces|;
    if h == H {
      SubdivideTurnH0(E, fi);
      t, u, f := H + 1, n, F + 1;
    } else if h == H + 2 {
      SubdivideTurnH2(E, fi);
      t, u, f := H + 3, n, fi;
    } else {
      SubdivideTurnH4(E, fi);
      t, u, f := H + 5, n, F;
    }
  }

  /** The same for a new half-edge out of x. */
  lemma TurnOfOutOfX(E: Embedding, fi: nat, h: nat) returns (t: nat, u: nat, f: nat)
    requires Subdividable(E, fi) && Corners(E, fi)
    requires CornerTurn(E, fi, 0, 2) && CornerTurn(E, fi, 1, 0) && CornerTurn(E, fi, 2, 1)
    requires h == |E.halfEdges| + 1 || h == |E.halfEdges| + 3 || h == |E.halfEdges| + 5
    ensures TurnAgrees(E, fi, h, t, u, f)
  {
    var H: nat := |E.halfEdges|;
    if h == H + 1 {
      t, u, f := SubdivideTurnH1(E, fi, h);
    } else if h == H + 3 {
      t, u, f := SubdivideTurnH3(E, fi, h);
    } else {
      t, u, f := SubdivideTurnH5(E, fi, h);
    }
  }

  /** The same for the boundary half-edges of the subdivided face. */
  lemma TurnOfCorner(E: Embedding, fi: nat, i: nat) returns (t: nat, u: nat, f: nat)
    requires Subdividable(E, fi) && Corners(E, fi)
    requires CornerTurn(E, fi, 0, 2) && CornerTurn(E, fi, 1, 0) && CornerTurn(E, fi, 2, 1)
    requires i < 3
    ensures TurnAgrees(E, fi, Boundary(E, fi)[i], t, u, f)
  {
    var b := Boundary(E, fi);
    if i == 0 {
      SubdivideTurnE0(E, fi);
      t, u, f := Twin(E, b[0]), Start(E, b[1]), fi;
    } else if i == 1 {
      SubdivideTurnE1(E, fi);
      t, u, f := Twin(E, b[1]), Start(E, b[2]), |E.faces|;
    } else {
      SubdivideTurnE2(E, fi);
      t, u, f := Twin(E, b[2]), Start(E, b[0]), |E.faces| + 1;
    }
  }

  lemma SubdivideConsistent(E: Embedding, fi: nat)
    requires Subdividable(E, fi) && Triangle(E, fi)
    requires RotationsOk(E) && BoundariesOk(E) && Consistent(E)
    ensures Wf(Subdivide(E, fi)) && BoundariesOk(Subdivide(E, fi))
    ensures Consistent(Subdivide(E, fi))
  {
    SubdivideBoundariesOk(E, fi);
    var E' := Subdivide(E, fi);
    var b := Boundary(E, fi);
    TriangleCornerTurns(E, fi);
    forall h | 0 <= h < |E'.halfEdges| ensures NextEdge(E', h) == Ok(FaceSuccessor(E', h)) {
      var t: nat, u: nat, f: nat;
      var H: nat := |E.halfEdges|;
      if h == H || h == H + 2 || h == H + 4 {
        t, u, f := TurnOfIntoX(E, fi, h);
      } else if h >= H {
        t, u, f := TurnOfOutOfX(E, fi, h);
      } else if h in b {
        assert b == [b[0], b[1], b[2]];
        var i :| 0 <= i < 3 && b[i] == h;
        t, u, f := TurnOfCorner(E, fi, i);
      } else {
        OldTurnFacts(E, fi, h);
        SubdivideTurnOld(E, fi, h);
        t, u, f := Twin(E, h), Start(E, Twin(E, h)), LeftFace(E, h);
      }
      AgreeGivesNextEdge(E, fi, h, t, u, f);
    }
  }

  // ---------------------------------------------------------------------
  // Shape, simplicity, degrees and counts

  /** Every face stays a triangle. */
  lemma SubdivideTriangulated(E: Embedding, fi: nat)
    requires Subdividable(E, fi) && Triangulated(E)
    ensures Wf(Subdivide(E, fi)) && Triangulated(Subdivide(E, fi))
  {
    SubdivideWf(E, fi);
    var E' := Subdivide(E, fi);
    forall f | 0 <= f < |E'.faces| ensures |Boundary(E', f)| == 3 {
      assert E'.faces[f] == SubdividedFace(E, fi, f);
      if f < |E.faces| && f != fi {
        assert |Boundary(E, f)| == 3;
      }
    }
  }

  /** The start of boundary half-edge k of face `fi`: corner k. */
  ghost function Corner(E: Embedding, fi: nat, k: nat): (v: nat)
    requires Subdividable(E, fi) && k < 3
    ensures v < |E.vertices|
  {
    Start(E, Boundary(E, fi)[k])
  }

  /** The ends of each half-edge after the subdivision: old half-edges keep
      theirs; the new half-edge H + 2k runs from corner k to the new vertex
      n and H + 2k + 1 runs back. */
  lemma SubdividedEnds(E: Embedding, fi: nat, h: nat) returns (s: nat, t: nat)
    requires Subdividable(E, fi) && h < |E.halfEdges| + 6
    ensures Wf(Subdivide(E, fi))
    ensures s == Start(Subdivide(E, fi), h) && t == Target(Subdivide(E, fi), h)
    ensures h < |E.halfEdges| ==> s == Start(E, h) && t == Target(E, h)
    ensures h < |E.halfEdges| ==> s < |E.vertices| && t < |E.vertices|
    ensures h == |E.halfEdges| ==> s == Corner(E, fi, 0) && t == |E.vertices|
    ensures h == |E.halfEdges| + 1 ==> s == |E.vertices| && t == Corner(E, fi, 0)
    ensures h == |E.halfEdges| + 2 ==> s == Corner(E, fi, 1) && t == |E.vertices|
    ensures h == |E.halfEdges| + 3 ==> s == |E.vertices| && t == Corner(E, fi, 1)
    ensures h == |E.halfEdges| + 4 ==> s == Corner(E, fi, 2) && t == |E.vertices|
    ensures h == |E.halfEdges| + 5 ==> s == |E.vertices| && t == Corner(E, fi, 2)
  {
    SubdivideWf(E, fi);
    var E' := Subdivide(E, fi);
    assert E'.halfEdges[h] == SubdividedHalfEdge(E, fi, h);
    var p := Twin(E', h);
    assert E'.halfEdges[p] == SubdividedHalfEdge(E, fi, p);
    s, t := Start(E', h), Target(E', h);
  }

  /** No loops and no parallel half-edges appear: every new half-edge joins
      the new vertex to one of three distinct corners. */
  lemma SubdivideSimple(E: Embedding, fi: nat)
    requires Subdividable(E, fi) && Corners(E, fi) && Simple(E)
    ensures Wf(Subdivide(E, fi)) && Simple(Subdivide(E, fi))
  {
    SubdivideWf(E, fi);
    var E' := Subdivide(E, fi);
    forall h | 0 <= h < |E'.halfEdges| ensures Start(E', h) != Target(E', h) {
      var s, t := SubdividedEnds(E, fi, h);
    }
    forall h, g | 0 <= h < |E'.halfEdges| && 0 <= g < |E'.halfEdges| &&
        Start(E', h) == Start(E', g) && Target(E', h) == Target(E', g)
      ensures h == g
    {
      var s, t := SubdividedEnds(E, fi, h);
      var s', t' := SubdividedEnds(E, fi, g);
    }
  }

  /** Every vertex keeps degree at least 3 once the new vertex is there: the
      new vertex has three neighbours, each corner gains one, and with three
      vertices every vertex is a corner. */
  lemma SubdivideDegrees(E: Embedding, fi: nat)
    requires Subdividable(E, fi) && Corners(E, fi) && DegreesOk(E) && |E.vertices| >= 3
    ensures Wf(Subdivide(E, fi)) && DegreesOk(Subdivide(E, fi))
  {
    SubdivideWf(E, fi);
    var E' := Subdivide(E, fi);
    var b := Boundary(E, fi);
    forall v | 0 <= v < |E'.vertices| ensures |Rotation(E', v)| >= 3 {
      assert E'.vertices[v] == SubdividedVertex(E, fi, v);
      if v < |E.vertices| {
        assert |Rotation(E, v)| >= if |E.vertices| <= 3 then 2 else 3;
        assert Start(E, b[0]) < |E.vertices| && Start(E, b[1]) < |E.vertices|;
        assert Start(E, b[2]) < |E.vertices|;
      }
    }
  }

  /** One more vertex, three more edges and two more faces keep the counts
      3n - 6 and 2n - 4. */
  lemma SubdivideCounts(E: Embedding, fi: nat)
    requires Subdividable(E, fi) && Counts(E)
    ensures Counts(Subdivide(E, fi))
  {
  }

  /** Subdividing any face of a plane triangulation gives a plane
      triangulation with one more vertex. */
  lemma SubdividePreserves(E: Embedding, fi: nat)
    requires PlaneTriangulation(E) && fi < |E.faces|
    ensures Subdividable(E, fi)
    ensures PlaneTriangulation(Subdivide(E, fi))
    ensures |Subdivide(E, fi).vertices| == |E.vertices| + 1
  {
    TriangleFace(E, fi);
    SubdivideWf(E, fi);
    SubdivideLayout(E, fi);
    SubdivideRotationsOk(E, fi);
    SubdivideConsistent(E, fi);
    SubdivideTriangulated(E, fi);
    SubdivideSimple(E, fi);
    SubdivideDegrees(E, fi);
    SubdivideCounts(E, fi);
  }

  // ---------------------------------------------------------------------
  // The subdivided lists as updates of the old ones

  /** The six new half-edges H .. H + 5. */
  ghost function NewHalfEdges(E: Embedding, fi: nat): (s: seq<PlanarEdge>)
    requires Subdividable(E, fi)
    ensures |s| == 6
  {
    var b := Boundary(E, fi);
    var H, m, F, n := |E.halfEdges|, |E.edges|, |E.faces|, |E.vertices|;
    [PlanarEdge(Start(E, b[0]), F + 1, m, H + 1), PlanarEdge(n, fi, m, H),
     PlanarEdge(Start(E, b[1]), fi, m + 1, H + 3), PlanarEdge(n, F, m + 1, H + 2),
     PlanarEdge(Start(E, b[2]), F, m + 2, H + 5), PlanarEdge(n, F + 1, m + 2, H + 4)]
  }

  /** The half-edges after the subdivision: the new ones appended, then e1
      and e2 moved to the faces F and F + 1. */
  lemma SubdividedHalfEdgesForm(E: Embedding, fi: nat)
    requires Subdividable(E, fi) && Corners(E, fi)
    ensures var b := Boundary(E, fi);
      Subdivide(E, fi).halfEdges ==
        (E.halfEdges + NewHalfEdges(E, fi))
          [b[1] := E.halfEdges[b[1]].(leftFace := |E.faces|)]
          [b[2] := E.halfEdges[b[2]].(leftFace := |E.faces| + 1)]
  {
    var b := Boundary(E, fi);
    var s := (E.halfEdges + NewHalfEdges(E, fi))
          [b[1] := E.halfEdges[b[1]].(leftFace := |E.faces|)]
          [b[2] := E.halfEdges[b[2]].(leftFace := |E.faces| + 1)];
    forall h | 0 <= h < |s| ensures Subdivide(E, fi).halfEdges[h] == s[h] {
      if h >= |E.halfEdges| {
        assert s[h] == NewHalfEdges(E, fi)[h - |E.halfEdges|];
      }
    }
  }

  /** The rotations after the subdivision: x's rotation appended, then the
      corners' rotations each extended by one. */
  lemma SubdividedVerticesForm(E: Embedding, fi: nat)
    requires Subdividable(E, fi) && Corners(E, fi)
    ensures var b := Boundary(E, fi);
      var H: nat := |E.halfEdges|;
      var x := |E.vertices|;
      var c0, c1, c2 := Start(E, b[0]), Start(E, b[1]), Start(E, b[2]);
      Subdivide(E, fi).vertices ==
        (E.vertices + [PlanarVertex(x, [])])
          [c0 := PlanarVertex(E.vertices[c0].id, InsertAfter<nat>(E.vertices[c0].edges, H, Twin(E, b[2])))]
          [c1 := PlanarVertex(E.vertices[c1].id, InsertAfter<nat>(E.vertices[c1].edges, H + 2, Twin(E, b[0])))]
          [c2 := PlanarVertex(E.vertices[c2].id, InsertAfter<nat>(E.vertices[c2].edges, H + 4, Twin(E, b[1])))]
          [x := PlanarVertex(x, [H + 1, H + 5, H + 3])]
  {
    var b := Boundary(E, fi);
    var H: nat := |E.halfEdges|;
    var x := |E.vertices|;
    var c0, c1, c2 := Start(E, b[0]), Start(E, b[1]), Start(E, b[2]);
    var s := (E.vertices + [PlanarVertex(x, [])])
          [c0 := PlanarVertex(E.vertices[c0].id, InsertAfter<nat>(E.vertices[c0].edges, H, Twin(E, b[2])))]
          [c1 := PlanarVertex(E.vertices[c1].id, InsertAfter<nat>(E.vertices[c1].edges, H + 2, Twin(E, b[0])))]
          [c2 := PlanarVertex(E.vertices[c2].id, InsertAfter<nat>(E.vertices[c2].edges, H + 4, Twin(E, b[1])))]
          [x := PlanarVertex(x, [H + 1, H + 5, H + 3])];
    forall v | 0 <= v < |s| ensures Subdivide(E, fi).vertices[v] == s[v] {
    }
  }

  /** The boundaries after the subdivision: F and F + 1 appended, then fi
      replaced. */
  lemma SubdividedFacesForm(E: Embedding, fi: nat)
    requires Subdividable(E, fi)
    ensures var b := Boundary(E, fi);
      var H: nat, F: nat := |E.halfEdges|, |E.faces|;
      Subdivide(E, fi).faces ==
        (E.faces + [PlanarFace(F, []), PlanarFace(F + 1, [])])
          [fi := PlanarFace(E.faces[fi].index, [b[0], H + 2, H + 1])]
          [F := PlanarFace(F, [b[1], H + 4, H + 3])]
          [F + 1 := PlanarFace(F + 1, [b[2], H, H + 5])]
  {
    var b := Boundary(E, fi);
    var H: nat, F: nat := |E.halfEdges|, |E.faces|;
    var s := (E.faces + [PlanarFace(F, []), PlanarFace(F + 1, [])])
          [fi := PlanarFace(E.faces[fi].index, [b[0], H + 2, H + 1])]
          [F := PlanarFace(F, [b[1], H + 4, H + 3])]
          [F + 1 := PlanarFace(F + 1, [b[2], H, H + 5])];
    forall f | 0 <= f < |s| ensures Subdivide(E, fi).faces[f] == s[f] {
    }
  }
}
