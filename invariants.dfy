/** Structural invariants of the planar model and why they make the
    validity oracle answer `true`. */
module PlanarInvariants {
  import opened Exceptions
  import opened Lists
  import opened PlanarEmbedding

  /** The layout the generators produce: the i-th edge of the graph's edge
      list is half-edge 2i, its partner is 2i+1, and both carry index i. */
  ghost predicate Layout(E: Embedding)
  {
    && |E.halfEdges| == 2 * |E.edges|
    && (forall k :: 0 <= k < |E.edges| ==> E.edges[k] == 2 * k)
    && (forall h :: 0 <= h < |E.halfEdges| ==>
          E.halfEdges[h].index == h / 2 &&
          E.halfEdges[h].partner == if h % 2 == 0 then h + 1 else h - 1)
  }

  /** Vertex ids and face indices equal their positions in the lists. */
  ghost predicate IdsArePositions(E: Embedding)
  {
    && (forall v :: 0 <= v < |E.vertices| ==> E.vertices[v].id == v)
    && (forall f :: 0 <= f < |E.faces| ==> E.faces[f].index == f)
  }

  /** Every rotation lists, without repetition, exactly the half-edges
      that start at its vertex. */
  ghost predicate RotationsOk(E: Embedding)
    requires Wf(E)
  {
    && (forall v :: 0 <= v < |E.vertices| ==> Distinct<nat>(Rotation(E, v)) && RotationStartsHere(E, v))
    && (forall h :: 0 <= h < |E.halfEdges| ==> h in Rotation(E, Start(E, h)))
  }

  /** Every boundary lists, without repetition, exactly the half-edges
      that have its face on the left. */
  ghost predicate BoundariesOk(E: Embedding)
    requires Wf(E)
  {
    && (forall f :: 0 <= f < |E.faces| ==> Distinct<nat>(Boundary(E, f)) && BoundaryLeftHere(E, f))
    && (forall h :: 0 <= h < |E.halfEdges| ==> h in Boundary(E, LeftFace(E, h)))
  }

  /** The successor of `h` in the boundary list of its left face. */
  ghost function FaceSuccessor(E: Embedding, h: nat): (s: nat)
    requires Wf(E) && BoundariesOk(E) && h < |E.halfEdges|
    ensures s in Boundary(E, LeftFace(E, h)) && s < |E.halfEdges|
  {
    NextCyclic<nat>(Boundary(E, LeftFace(E, h)), h)
  }

  /** Rotations and boundaries describe the same faces: walking to the
      next half-edge through the rotation at the target (`getNextEdge`)
      gives the successor in the left face's boundary list. */
  ghost predicate Consistent(E: Embedding)
    requires Wf(E) && BoundariesOk(E)
  {
    forall h :: 0 <= h < |E.halfEdges| ==> NextEdge(E, h) == Ok(FaceSuccessor(E, h))
  }

  /** Every face has exactly three boundary half-edges. */
  ghost predicate Triangulated(E: Embedding)
    requires Wf(E)
  {
    forall f :: 0 <= f < |E.faces| ==> |Boundary(E, f)| == 3
  }

  /** No loops and no two half-edges with the same start and target. */
  ghost predicate Simple(E: Embedding)
    requires Wf(E)
  {
    && (forall h :: 0 <= h < |E.halfEdges| ==> Start(E, h) != Target(E, h))
    && (forall h, g | 0 <= h < |E.halfEdges| && 0 <= g < |E.halfEdges| &&
          Start(E, h) == Start(E, g) && Target(E, h) == Target(E, g) :: h == g)
  }

  /** Minimum degree: 2 on the base triangle, 3 once there are more vertices. */
  ghost predicate DegreesOk(E: Embedding)
    requires Wf(E)
  {
    forall v :: 0 <= v < |E.vertices| ==> |Rotation(E, v)| >= if |E.vertices| <= 3 then 2 else 3
  }

  /** The counts of a plane triangulation: 3n - 6 edges and 2n - 4 faces. */
  ghost predicate Counts(E: Embedding)
  {
    && |E.vertices| >= 3
    && |E.edges| == 3 * |E.vertices| - 6
    && |E.faces| == 2 * |E.vertices| - 4
  }

  /** A plane triangulation as built by the Apollonian generator and kept by
      edge flips. */
  ghost predicate PlaneTriangulation(E: Embedding)
  {
    && Wf(E) && Layout(E) && IdsArePositions(E)
    && RotationsOk(E) && BoundariesOk(E) && Consistent(E)
    && Triangulated(E) && Simple(E) && DegreesOk(E) && Counts(E)
  }

  // ---------------------------------------------------------------------
  // Consequences

  lemma TwinTwin(E: Embedding, h: nat)
    requires Wf(E) && h < |E.halfEdges|
    ensures Twin(E, Twin(E, h)) == h
  {
  }

  /** In consistent maps the previous edge of the next edge along a face
      is the half-edge itself, and the face successor is `getNextEdge`. */
  lemma PreviousOfNext(E: Embedding, h: nat)
    requires Wf(E) && RotationsOk(E) && BoundariesOk(E) && Consistent(E) && h < |E.halfEdges|
    ensures NextEdge(E, h).Ok?
    ensures PreviousEdge(E, NextEdge(E, h).value) == Ok(h)
  {
    var t := Twin(E, h);
    var rot := Rotation(E, Start(E, t));
    assert t in rot;
    var n := NextEdge(E, h).value;
    assert n == NextCyclic<nat>(rot, t);
    NextOfPrev(rot, t);
    assert Start(E, n) == Start(E, t);
    TwinTwin(E, h);
  }

  /** The next edge of the previous edge is the half-edge itself. */
  lemma NextOfPrevious(E: Embedding, h: nat)
    requires Wf(E) && RotationsOk(E) && BoundariesOk(E) && Consistent(E) && h < |E.halfEdges|
    ensures PreviousEdge(E, h).Ok?
    ensures NextEdge(E, PreviousEdge(E, h).value) == Ok(h)
    ensures LeftFace(E, PreviousEdge(E, h).value) == LeftFace(E, h)
  {
    var rot := Rotation(E, Start(E, h));
    assert h in rot;
    var p := PrevCyclic<nat>(rot, h);
    NextOfPrev(rot, h);
    assert Start(E, p) == Start(E, h);
    var q := Twin(E, p);
    TwinTwin(E, p);
    assert NextEdge(E, q) == Ok(h);
    assert FaceSuccessor(E, q) == h;
  }

  lemma EdgeValid(E: Embedding, h: nat)
    requires Wf(E) && RotationsOk(E) && BoundariesOk(E) && Consistent(E) && h < |E.halfEdges|
    ensures EdgeValidity(E, h) == Ok(true)
  {
    var n := NextEdge(E, h).value;
    assert n == FaceSuccessor(E, h);
    NextOfPrevious(E, h);
    var rot := Rotation(E, Start(E, h));
    assert h in rot;
    var s := NextCyclic<nat>(rot, h);
    NextOfPrev(rot, h);
    assert Start(E, s) == Start(E, h);
  }

  lemma VertexValid(E: Embedding, v: nat)
    requires Wf(E) && RotationsOk(E) && BoundariesOk(E) && Consistent(E)
    requires v < |E.vertices| && |Rotation(E, v)| > 0
    ensures VertexValidity(E, v) == Ok(true)
  {
    var rot := Rotation(E, v);
    forall k | 0 <= k < |rot|
      ensures RightFace(E, rot[PrevPos(k, |rot|)]) == LeftFace(E, rot[k])
    {
      var cur := rot[PrevPos(k, |rot|)];
      IndexOfDistinct(rot, PrevPos(k, |rot|));
      assert NextCyclic<nat>(rot, cur) == rot[k];
      var t := Twin(E, cur);
      TwinTwin(E, cur);
      assert NextEdge(E, t) == Ok(rot[k]);
      assert FaceSuccessor(E, t) == rot[k];
    }
  }

  lemma FaceChainValid(E: Embedding, f: nat, k: nat)
    requires Wf(E) && RotationsOk(E) && BoundariesOk(E) && Consistent(E)
    requires f < |E.faces| && k <= |Boundary(E, f)| && |Boundary(E, f)| > 0
    ensures var bnd := Boundary(E, f);
      FaceChainFrom(E, bnd, bnd[PrevPos(if k == |bnd| then 0 else k, |bnd|)], k) == Ok(true)
    decreases |Boundary(E, f)| - k
  {
    var bnd := Boundary(E, f);
    if k < |bnd| {
      var cur := bnd[PrevPos(k, |bnd|)];
      IndexOfDistinct(bnd, PrevPos(k, |bnd|));
      assert LeftFace(E, cur) == f;
      assert FaceSuccessor(E, cur) == bnd[k];
      PreviousOfNext(E, cur);
      FaceChainValid(E, f, k + 1);
      assert bnd[PrevPos(if k + 1 == |bnd| then 0 else k + 1, |bnd|)] == bnd[k];
    }
  }

  lemma FaceValid(E: Embedding, f: nat)
    requires Wf(E) && RotationsOk(E) && BoundariesOk(E) && Consistent(E)
    requires f < |E.faces| && |Boundary(E, f)| > 0
    ensures FaceValidity(E, f) == Ok(true)
  {
    FaceChainValid(E, f, 0);
  }

  /** `PlanarGraph.isValid` holds exactly when every vertex, every listed
      edge and every face passes its own check and n - m + f = 2. */
  lemma GraphValidityMeaning(E: Embedding)
    requires Wf(E)
    ensures GraphValidity(E) == Ok(true) <==>
      && (forall v :: 0 <= v < |E.vertices| ==> VertexValidity(E, v) == Ok(true))
      && (forall k :: 0 <= k < |E.edges| ==> EdgeValidity(E, E.edges[k]) == Ok(true))
      && (forall f :: 0 <= f < |E.faces| ==> FaceValidity(E, f) == Ok(true))
      && |E.vertices| - |E.edges| + |E.faces| == 2
  {
    var vs := AllVertexValidity(E);
    var es := AllEdgeValidity(E);
    var fs := AllFaceValidity(E);
    assert forall v :: 0 <= v < |E.vertices| ==> vs[v] == VertexValidity(E, v);
    assert forall k :: 0 <= k < |E.edges| ==> es[k] == EdgeValidity(E, E.edges[k]);
    assert forall f :: 0 <= f < |E.faces| ==> fs[f] == FaceValidity(E, f);
  }

  /** Consistent rotations and boundaries with no empty rotation and no
      empty face pass the whole oracle, so the answer is Euler's formula. */
  lemma ConsistentMapsAreValid(E: Embedding)
    requires Wf(E) && RotationsOk(E) && BoundariesOk(E) && Consistent(E)
    requires forall v :: 0 <= v < |E.vertices| ==> |Rotation(E, v)| > 0
    requires forall f :: 0 <= f < |E.faces| ==> |Boundary(E, f)| > 0
    ensures GraphValidity(E) == Ok(|E.vertices| - |E.edges| + |E.faces| == 2)
  {
    forall v | 0 <= v < |E.vertices| ensures VertexValidity(E, v) == Ok(true) {
      VertexValid(E, v);
    }
    forall k | 0 <= k < |E.edges| ensures EdgeValidity(E, E.edges[k]) == Ok(true) {
      EdgeValid(E, E.edges[k]);
    }
    forall f | 0 <= f < |E.faces| ensures FaceValidity(E, f) == Ok(true) {
      FaceValid(E, f);
    }
    assert FirstFailure(AllVertexValidity(E)) == Ok(true);
    assert FirstFailure(AllEdgeValidity(E)) == Ok(true);
    assert FirstFailure(AllFaceValidity(E)) == Ok(true);
  }

  /** Every plane triangulation passes `PlanarGraph.isValid`. */
  lemma PlaneTriangulationIsValid(E: Embedding)
    requires PlaneTriangulation(E)
    ensures GraphValidity(E) == Ok(true)
  {
    ConsistentMapsAreValid(E);
  }

  // ---------------------------------------------------------------------
  // Triangular faces

  /** Facts about the face successor in a consistent map: it leaves from
      the target, follows the partner in the target's rotation, and lies on
      the same face. */
  lemma FaceSuccessorFacts(E: Embedding, h: nat)
    requires Wf(E) && RotationsOk(E) && BoundariesOk(E) && Consistent(E) && h < |E.halfEdges|
    ensures var s := FaceSuccessor(E, h);
      && Twin(E, h) in Rotation(E, Target(E, h))
      && NextCyclic<nat>(Rotation(E, Target(E, h)), Twin(E, h)) == s
      && Start(E, s) == Target(E, h)
      && LeftFace(E, s) == LeftFace(E, h)
  {
    var s := FaceSuccessor(E, h);
    assert NextEdge(E, h) == Ok(s);
    assert Twin(E, h) in Rotation(E, Start(E, Twin(E, h)));
  }

  /** Face `fi` is a triangle b0 -> b1 -> b2 of three distinct half-edges
      between three distinct vertices. */
  ghost predicate Corners(E: Embedding, fi: nat)
    requires Wf(E) && fi < |E.faces|
  {
    var b := Boundary(E, fi);
    && |b| == 3 && b[0] != b[1] && b[1] != b[2] && b[0] != b[2]
    && LeftFace(E, b[0]) == fi && LeftFace(E, b[1]) == fi && LeftFace(E, b[2]) == fi
    && Target(E, b[0]) == Start(E, b[1]) && Target(E, b[1]) == Start(E, b[2])
    && Target(E, b[2]) == Start(E, b[0])
    && Start(E, b[0]) != Start(E, b[1]) && Start(E, b[1]) != Start(E, b[2])
    && Start(E, b[0]) != Start(E, b[2])
  }

  /** Such a triangle whose half-edges each follow the partner of the
      previous one in the rotation at their start. */
  ghost predicate Triangle(E: Embedding, fi: nat)
    requires Wf(E) && fi < |E.faces|
  {
    var b := Boundary(E, fi);
    && Corners(E, fi)
    && Twin(E, b[0]) in Rotation(E, Start(E, b[1]))
    && Twin(E, b[1]) in Rotation(E, Start(E, b[2]))
    && Twin(E, b[2]) in Rotation(E, Start(E, b[0]))
    && NextCyclic<nat>(Rotation(E, Start(E, b[1])), Twin(E, b[0])) == b[1]
    && NextCyclic<nat>(Rotation(E, Start(E, b[2])), Twin(E, b[1])) == b[2]
    && NextCyclic<nat>(Rotation(E, Start(E, b[0])), Twin(E, b[2])) == b[0]
  }

  /** Every face of a plane triangulation is such a triangle. */
  lemma TriangleFace(E: Embedding, fi: nat)
    requires PlaneTriangulation(E) && fi < |E.faces|
    ensures Triangle(E, fi)
  {
    var b := Boundary(E, fi);
    assert b[0] in b && b[1] in b && b[2] in b;
    assert b == [b[0], b[1], b[2]];
    NextCyclicThree<nat>(b[0], b[1], b[2]);
    FaceSuccessorFacts(E, b[0]);
    FaceSuccessorFacts(E, b[1]);
    FaceSuccessorFacts(E, b[2]);
  }

  /** `getNextEdge` read off the rotation at the target. */
  lemma NextEdgeIs(E: Embedding, h: nat, s: nat)
    requires Wf(E) && h < |E.halfEdges|
    requires Twin(E, h) in Rotation(E, Target(E, h))
    requires NextCyclic<nat>(Rotation(E, Target(E, h)), Twin(E, h)) == s
    ensures NextEdge(E, h) == Ok(s)
  {
  }
}
