/** An accepted edge flip keeps a plane triangulation a plane triangulation:
    rotations, boundaries and the faces they describe stay consistent, the
    graph stays simple, and no degree drops below three. */
module FlipTriangulation {
  import opened Exceptions
  import opened Lists
  import opened PlanarEmbedding
  import opened PlanarInvariants
  import opened EdgeFlips

  // ---------------------------------------------------------------------
  // The quadrilateral an accepted flip sees

  /** The corners and faces of the sides of the quadrilateral: the two
      triangles beside the diagonal are f1 = h, e2, e3 (v0 -> v2 -> v3 -> v0)
      and f2 = t, e0, e1 (v2 -> v0 -> v1 -> v2). */
  ghost predicate QuadSides(E: Embedding, q: Quad)
    requires QuadIn(E, q)
  {
    && FlipReady(E, q)
    && Start(E, q.e0) == q.v0 && Start(E, q.e1) == q.v1 && Start(E, q.e2) == q.v2 && Start(E, q.e3) == q.v3
    && Target(E, q.e1) == q.v2 && Target(E, q.e3) == q.v0
    && LeftFace(E, q.e0) == q.f2 && LeftFace(E, q.e1) == q.f2
    && LeftFace(E, q.e2) == q.f1 && LeftFace(E, q.e3) == q.f1
    && q.h != q.e2 && q.h != q.e3 && q.e2 != q.e3
    && q.t != q.e0 && q.t != q.e1 && q.e0 != q.e1
  }

  /** The two triangles as boundary lists. */
  ghost predicate QuadFaces(E: Embedding, q: Quad)
    requires QuadIn(E, q)
  {
    var b1, b2 := Boundary(E, q.f1), Boundary(E, q.f2);
    && q.h in b1 && q.t in b2
    && Distinct<nat>(b1) && (forall z :: z in b1 <==> z == q.h || z == q.e2 || z == q.e3)
    && NextCyclic<nat>(b1, q.h) == q.e2 && NextCyclic<nat>(b1, q.e2) == q.e3
    && NextCyclic<nat>(b1, q.e3) == q.h
    && Distinct<nat>(b2) && (forall z :: z in b2 <==> z == q.t || z == q.e0 || z == q.e1)
    && NextCyclic<nat>(b2, q.t) == q.e0 && NextCyclic<nat>(b2, q.e0) == q.e1
    && NextCyclic<nat>(b2, q.e1) == q.t
  }

  /** The rotations at the four corners, around the two triangles. */
  ghost predicate QuadTurns(E: Embedding, q: Quad)
    requires QuadIn(E, q)
  {
    var r0, r1, r2, r3 := Rotation(E, q.v0), Rotation(E, q.v1), Rotation(E, q.v2), Rotation(E, q.v3);
    && Distinct<nat>(r0) && |r0| >= 4 && q.h in r0 && Twin(E, q.e3) in r0
    && NextCyclic<nat>(r0, Twin(E, q.e3)) == q.h && NextCyclic<nat>(r0, q.h) == q.e0
    && Distinct<nat>(r2) && |r2| >= 4 && q.t in r2 && Twin(E, q.e1) in r2
    && NextCyclic<nat>(r2, Twin(E, q.e1)) == q.t && NextCyclic<nat>(r2, q.t) == q.e2
    && Distinct<nat>(r1) && Twin(E, q.e0) in r1 && NextCyclic<nat>(r1, Twin(E, q.e0)) == q.e1
    && Distinct<nat>(r3) && Twin(E, q.e2) in r3 && NextCyclic<nat>(r3, Twin(E, q.e2)) == q.e3
    && q.h !in r1 && q.t !in r3
    && !Adjacent(E, q.v1, q.v3)
  }

  /** Everything an accepted flip in a plane triangulation sees. */
  ghost predicate Around(E: Embedding, q: Quad)
    requires QuadIn(E, q)
  {
    QuadSides(E, q) && QuadFaces(E, q) && QuadTurns(E, q)
  }

  /** Two half-edges that follow each other clockwise at a vertex of a
      plane triangulation lead to neighbouring vertices: the third side of
      the triangle between them joins their targets. */
  lemma ConsecutiveTargetsAdjacent(E: Embedding, v: nat, x: nat)
    requires PlaneTriangulation(E) && v < |E.vertices| && x in Rotation(E, v)
    ensures var y := NextCyclic<nat>(Rotation(E, v), x);
      && y < |E.halfEdges| && Target(E, x) < |E.vertices| && Target(E, y) < |E.vertices|
      && Adjacent(E, Target(E, x), Target(E, y)) && Adjacent(E, Target(E, y), Target(E, x))
  {
    var rot := Rotation(E, v);
    var y := NextCyclic<nat>(rot, x);
    assert y in rot;
    var tx := Twin(E, x);
    TwinTwin(E, x);
    FaceSuccessorFacts(E, tx);
    assert FaceSuccessor(E, tx) == y;
    TriangleSuccessors(E, tx);
    var c := FaceSuccessor(E, y);
    FaceSuccessorFacts(E, y);
    FaceSuccessorFacts(E, c);
    assert Start(E, c) == Target(E, y) && Target(E, c) == Target(E, x);
    assert c in Rotation(E, Start(E, c));
    var tc := Twin(E, c);
    TwinTwin(E, c);
    assert tc in Rotation(E, Start(E, tc));
    assert Start(E, tc) == Target(E, x) && Target(E, tc) == Target(E, y);
  }

  /** The face-successor facts of an accepted flip, from `TryFlip`. */
  lemma SidesOfFlip(E: Embedding, h: nat, q: Quad)
    requires PlaneTriangulation(E) && |E.vertices| >= 4 && h < |E.halfEdges|
    requires TryFlip(E, h) == Ok(Flipped(q))
    ensures FlipReady(E, q)
    ensures q.e0 == NextCyclic<nat>(Rotation(E, q.v0), q.h)
    ensures FaceSuccessor(E, q.h) == q.e2 && FaceSuccessor(E, q.e2) == q.e3 && FaceSuccessor(E, q.e3) == q.h
    ensures FaceSuccessor(E, q.t) == q.e0 && FaceSuccessor(E, q.e0) == q.e1 && FaceSuccessor(E, q.e1) == q.t
    ensures q.h != q.e2 && q.h != q.e3 && q.e2 != q.e3
    ensures q.t != q.e0 && q.t != q.e1 && q.e0 != q.e1
    ensures LeftFace(E, q.e0) == q.f2 && LeftFace(E, q.e1) == q.f2
    ensures LeftFace(E, q.e2) == q.f1 && LeftFace(E, q.e3) == q.f1
  {
    FlipConditions(E, h, q);
    TryFlipInTriangulation(E, h);
    TwinTwin(E, q.h);
    FaceSuccessorFacts(E, q.t);
    assert FaceSuccessor(E, q.t) == q.e0;
    TriangleSuccessors(E, q.h);
    TriangleSuccessors(E, q.t);
  }

  /** The two triangles beside the diagonal as boundary lists. */
  lemma FacesOfFlip(E: Embedding, h: nat, q: Quad)
    requires PlaneTriangulation(E) && |E.vertices| >= 4 && h < |E.halfEdges|
    requires TryFlip(E, h) == Ok(Flipped(q))
    ensures QuadFaces(E, q)
  {
    SidesOfFlip(E, h, q);
    TwinTwin(E, q.h);
    var b1, b2 := Boundary(E, q.f1), Boundary(E, q.f2);
    assert Distinct<nat>(b1) && |b1| == 3 && q.h in b1;
    assert Distinct<nat>(b2) && |b2| == 3 && q.t in b2;
    TriangleList(b1, q.h, q.e2, q.e3);
    TriangleList(b2, q.t, q.e0, q.e1);
  }

  /** A three-entry list without repetitions, walked from one member. */
  lemma TriangleList(b: seq<nat>, x: nat, y: nat, z: nat)
    requires Distinct<nat>(b) && |b| == 3 && x in b
    requires NextCyclic<nat>(b, x) == y && NextCyclic<nat>(b, y) == z
    ensures NextCyclic<nat>(b, z) == x
    ensures forall w :: w in b <==> w == x || w == y || w == z
  {
    ThreeCycle<nat>(b, x, y, z);
    assert b == [b[0], b[1], b[2]];
    NextCyclicThree<nat>(b[0], b[1], b[2]);
  }

  /** The rotations around the quadrilateral. */
  lemma TurnsOfFlip(E: Embedding, h: nat, q: Quad)
    requires PlaneTriangulation(E) && |E.vertices| >= 4 && h < |E.halfEdges|
    requires TryFlip(E, h) == Ok(Flipped(q))
    ensures FlipReady(E, q)
    ensures Start(E, q.e0) == q.v0 && Start(E, q.e1) == q.v1 && Start(E, q.e2) == q.v2 && Start(E, q.e3) == q.v3
    ensures Target(E, q.e1) == q.v2 && Target(E, q.e3) == q.v0
    ensures var r0, r1, r2, r3 := Rotation(E, q.v0), Rotation(E, q.v1), Rotation(E, q.v2), Rotation(E, q.v3);
      && Distinct<nat>(r0) && Twin(E, q.e3) in r0
      && NextCyclic<nat>(r0, Twin(E, q.e3)) == q.h && NextCyclic<nat>(r0, q.h) == q.e0
      && Distinct<nat>(r2) && Twin(E, q.e1) in r2
      && NextCyclic<nat>(r2, Twin(E, q.e1)) == q.t && NextCyclic<nat>(r2, q.t) == q.e2
      && Distinct<nat>(r1) && Twin(E, q.e0) in r1 && NextCyclic<nat>(r1, Twin(E, q.e0)) == q.e1
      && Distinct<nat>(r3) && Twin(E, q.e2) in r3 && NextCyclic<nat>(r3, Twin(E, q.e2)) == q.e3
      && q.h !in r1 && q.t !in r3
  {
    SidesOfFlip(E, h, q);
    TwinTwin(E, q.h);
    FaceSuccessorFacts(E, q.h);
    FaceSuccessorFacts(E, q.e2);
    FaceSuccessorFacts(E, q.e3);
    FaceSuccessorFacts(E, q.t);
    FaceSuccessorFacts(E, q.e0);
    FaceSuccessorFacts(E, q.e1);
    assert q.h !in Rotation(E, q.v1) by {
      assert RotationStartsHere(E, q.v1);
    }
    assert q.t !in Rotation(E, q.v3) by {
      assert RotationStartsHere(E, q.v3);
    }
  }

  /** An accepted flip in a plane triangulation with four or more vertices
      sees the quadrilateral described by `Around`. */
  lemma AroundFlip(E: Embedding, h: nat, q: Quad)
    requires PlaneTriangulation(E) && |E.vertices| >= 4 && h < |E.halfEdges|
    requires TryFlip(E, h) == Ok(Flipped(q))
    ensures Around(E, q)
  {
    SidesOfFlip(E, h, q);
    FacesOfFlip(E, h, q);
    TurnsOfFlip(E, h, q);
    DegreesOfFlip(E, q);
  }

  /** The diagonal's ends keep at least three neighbours after the flip:
      with only three, the clockwise neighbours at v0 (or v2) would close a
      triangle v1 - v3, but v1 and v3 are not adjacent. */
  lemma DegreesOfFlip(E: Embedding, q: Quad)
    requires PlaneTriangulation(E) && |E.vertices| >= 4 && QuadIn(E, q) && FlipReady(E, q)
    requires !Adjacent(E, q.v1, q.v3)
    requires Start(E, q.e0) == q.v0 && Start(E, q.e2) == q.v2
    requires Start(E, q.e1) == q.v1 && Start(E, q.e3) == q.v3
    requires Target(E, q.e1) == q.v2 && Target(E, q.e3) == q.v0
    requires Twin(E, q.e3) in Rotation(E, q.v0) && Twin(E, q.e1) in Rotation(E, q.v2)
    requires NextCyclic<nat>(Rotation(E, q.v0), Twin(E, q.e3)) == q.h
    requires NextCyclic<nat>(Rotation(E, q.v0), q.h) == q.e0
    requires NextCyclic<nat>(Rotation(E, q.v2), Twin(E, q.e1)) == q.t
    requires NextCyclic<nat>(Rotation(E, q.v2), q.t) == q.e2
    ensures |Rotation(E, q.v0)| >= 4 && |Rotation(E, q.v2)| >= 4
  {
    var r0, r2 := Rotation(E, q.v0), Rotation(E, q.v2);
    assert |r0| >= 3 && |r2| >= 3;
    if |r0| == 3 {
      ThreeCycle<nat>(r0, Twin(E, q.e3), q.h, q.e0);
      ConsecutiveTargetsAdjacent(E, q.v0, q.e0);
      TwinTwin(E, q.e3);
      assert false;
    }
    if |r2| == 3 {
      ThreeCycle<nat>(r2, Twin(E, q.e1), q.t, q.e2);
      ConsecutiveTargetsAdjacent(E, q.v2, q.e2);
      TwinTwin(E, q.e1);
      assert false;
    }
  }

  // ---------------------------------------------------------------------
  // The flipped embedding, entry by entry

  /** After the flip `h` starts at v1 and its partner at v3, e2 lies on f2
      and e0 on f1; partners never change. */
  lemma FlippedAt(E: Embedding, q: Quad, g: nat)
    requires QuadIn(E, q) && g < |E.halfEdges|
    ensures var E' := Flip(E, q);
      && Wf(E') && |E'.halfEdges| == |E.halfEdges| && |E'.vertices| == |E.vertices|
      && |E'.faces| == |E.faces|
      && Twin(E', g) == Twin(E, g)
      && Start(E', g) == (if g == q.h then q.v1 else if g == q.t then q.v3 else Start(E, g))
      && Target(E', g) == (if g == q.t then q.v1 else if g == q.h then q.v3 else Target(E, g))
      && LeftFace(E', g) == (if g == q.e2 then q.f2 else if g == q.e0 then q.f1 else LeftFace(E, g))
  {
    FlipShape(E, q);
    var E' := Flip(E, q);
    var tg := Twin(E, g);
    FlippedRecord(E, q, g);
    FlippedRecord(E, q, tg);
    assert Twin(E', g) == tg;
    TwinTwin(E, g);
    TwinTwin(E, q.h);
    assert tg == q.h <==> g == q.t;
    assert tg == q.t <==> g == q.h;
  }

  lemma FlippedRecord(E: Embedding, q: Quad, g: nat)
    requires QuadIn(E, q) && g < |E.halfEdges|
    ensures var H := FlippedHalfEdges(E, q);
      && |H| == |E.halfEdges|
      && H[g].partner == E.halfEdges[g].partner
      && H[g].start == (if g == q.h then q.v1 else if g == q.t then q.v3 else E.halfEdges[g].start)
      && H[g].leftFace == (if g == q.e2 then q.f2 else if g == q.e0 then q.f1 else E.halfEdges[g].leftFace)
  {
  }

  /** The rotation of `v` after the flip of `q`: v0 drops `h`, v2 drops its
      partner, v1 gains `h` behind the partner of e0, v3 gains the partner
      of `h` behind the partner of e2; all other rotations are unchanged. */
  ghost function RotationAfter(E: Embedding, q: Quad, v: nat): seq<nat>
    requires QuadIn(E, q) && v < |E.vertices|
  {
    if v == q.v0 then RemoveFirst<nat>(Rotation(E, q.v0), q.h)
    else if v == q.v2 then RemoveFirst<nat>(Rotation(E, q.v2), q.t)
    else if v == q.v1 then InsertAfter<nat>(Rotation(E, q.v1), q.h, Twin(E, q.e0))
    else if v == q.v3 then InsertAfter<nat>(Rotation(E, q.v3), q.t, Twin(E, q.e2))
    else Rotation(E, v)
  }

  /** The boundary of `f` after the flip of `q`: f1 = h, e3, e0 and
      f2 = t, e1, e2; all other boundaries are unchanged. */
  ghost function BoundaryAfter(E: Embedding, q: Quad, f: nat): seq<nat>
    requires QuadIn(E, q) && f < |E.faces|
  {
    if f == q.f1 then InsertAfter<nat>(RemoveFirst<nat>(Boundary(E, q.f1), q.e2), q.e0, q.e3)
    else if f == q.f2 then InsertAfter<nat>(RemoveFirst<nat>(Boundary(E, q.f2), q.e0), q.e2, q.e1)
    else Boundary(E, f)
  }

  lemma FlippedRotation(E: Embedding, q: Quad, v: nat)
    requires QuadIn(E, q) && FlipReady(E, q) && v < |E.vertices|
    ensures Wf(Flip(E, q)) && |Flip(E, q).vertices| == |E.vertices|
    ensures Rotation(Flip(E, q), v) == RotationAfter(E, q, v)
  {
    FlippedRotationChain(E, q, v);
  }

  lemma FlippedRotationChain(E: Embedding, q: Quad, v: nat)
    requires QuadIn(E, q) && FlipReady(E, q) && v < |E.vertices|
    ensures Wf(Flip(E, q)) && |Flip(E, q).vertices| == |E.vertices|
    ensures Rotation(Flip(E, q), v) ==
      if v == q.v0 then RemoveFirst<nat>(Rotation(E, q.v0), q.h)
      else if v == q.v2 then RemoveFirst<nat>(Rotation(E, q.v2), q.t)
      else if v == q.v1 then InsertAfter<nat>(Rotation(E, q.v1), q.h, Twin(E, q.e0))
      else if v == q.v3 then InsertAfter<nat>(Rotation(E, q.v3), q.t, Twin(E, q.e2))
      else Rotation(E, v)
  {
    FlipShape(E, q);
    var V := E.vertices;
    var V1 := DropAt(V, q.v0, q.h);
    var V2 := DropAt(V1, q.v2, q.t);
    var V3 := PutAfter(V2, q.v1, q.h, Twin(E, q.e0));
    var V4 := PutAfter(V3, q.v3, q.t, Twin(E, q.e2));
    assert Flip(E, q).vertices == V4;
    assert V4[v].edges == Rotation(Flip(E, q), v);
  }

  lemma FlippedBoundary(E: Embedding, q: Quad, f: nat)
    requires QuadIn(E, q) && FlipReady(E, q) && f < |E.faces|
    ensures Wf(Flip(E, q)) && |Flip(E, q).faces| == |E.faces|
    ensures Boundary(Flip(E, q), f) == BoundaryAfter(E, q, f)
  {
    FlippedBoundaryChain(E, q, f);
  }

  lemma FlippedBoundaryChain(E: Embedding, q: Quad, f: nat)
    requires QuadIn(E, q) && FlipReady(E, q) && f < |E.faces|
    ensures Wf(Flip(E, q)) && |Flip(E, q).faces| == |E.faces|
    ensures Boundary(Flip(E, q), f) ==
      if f == q.f1 then InsertAfter<nat>(RemoveFirst<nat>(Boundary(E, q.f1), q.e2), q.e0, q.e3)
      else if f == q.f2 then InsertAfter<nat>(RemoveFirst<nat>(Boundary(E, q.f2), q.e0), q.e2, q.e1)
      else Boundary(E, f)
  {
    FlipShape(E, q);
    var F := E.faces;
    var F1 := DropOn(F, q.f1, q.e2);
    var F2 := PutOn(F1, q.f1, q.e0, q.e3);
    var F3 := DropOn(F2, q.f2, q.e0);
    var F4 := PutOn(F3, q.f2, q.e2, q.e1);
    assert Flip(E, q).faces == F4;
    assert F4[f].edges == Boundary(Flip(E, q), f);
  }

  /** The half-edge fields of an embedding E' that arose from E by the flip
      of `q`, stated without naming the flip. */
  ghost predicate Repointed(E: Embedding, q: Quad, E': Embedding)
    requires QuadIn(E, q)
  {
    && Wf(E') && |E'.halfEdges| == |E.halfEdges| && |E'.vertices| == |E.vertices|
    && |E'.faces| == |E.faces|
    && forall g :: 0 <= g < |E.halfEdges| ==>
         && Twin(E', g) == Twin(E, g)
         && Start(E', g) == (if g == q.h then q.v1 else if g == q.t then q.v3 else Start(E, g))
         && LeftFace(E', g) == (if g == q.e2 then q.f2 else if g == q.e0 then q.f1 else LeftFace(E, g))
  }

  /** Targets after the flip: the diagonal now ends at v3, its partner at v1. */
  lemma RepointedTarget(E: Embedding, q: Quad, E': Embedding, g: nat)
    requires QuadIn(E, q) && Repointed(E, q, E') && g < |E.halfEdges|
    ensures Target(E', g) == (if g == q.t then q.v1 else if g == q.h then q.v3 else Target(E, g))
  {
    var tg := Twin(E, g);
    assert Start(E', tg) == (if tg == q.h then q.v1 else if tg == q.t then q.v3 else Start(E, tg));
    TwinTwin(E, g);
    TwinTwin(E, q.h);
  }

  lemma FlipRepointed(E: Embedding, q: Quad)
    requires QuadIn(E, q)
    ensures Repointed(E, q, Flip(E, q))
  {
    FlipShape(E, q);
    forall g | 0 <= g < |E.halfEdges|
      ensures Twin(Flip(E, q), g) == Twin(E, g)
      ensures Start(Flip(E, q), g) == (if g == q.h then q.v1 else if g == q.t then q.v3 else Start(E, g))
      ensures LeftFace(Flip(E, q), g) == (if g == q.e2 then q.f2 else if g == q.e0 then q.f1 else LeftFace(E, g))
    {
      FlippedAt(E, q, g);
    }
  }

  /** E' arose from E by the flip of `q`: its half-edge fields, rotations
      and boundaries are the ones the flip produces. */
  ghost predicate Reshaped(E: Embedding, q: Quad, E': Embedding)
    requires QuadIn(E, q)
  {
    && Repointed(E, q, E')
    && (forall v :: 0 <= v < |E.vertices| ==> Rotation(E', v) == RotationAfter(E, q, v))
    && (forall f :: 0 <= f < |E.faces| ==> Boundary(E', f) == BoundaryAfter(E, q, f))
  }

  lemma FlipReshaped(E: Embedding, q: Quad)
    requires QuadIn(E, q) && FlipReady(E, q)
    ensures Reshaped(E, q, Flip(E, q))
  {
    FlipRepointed(E, q);
    forall v | 0 <= v < |E.vertices| ensures Rotation(Flip(E, q), v) == RotationAfter(E, q, v) {
      FlippedRotation(E, q, v);
    }
    forall f | 0 <= f < |E.faces| ensures Boundary(Flip(E, q), f) == BoundaryAfter(E, q, f) {
      FlippedBoundary(E, q, f);
    }
  }

  // ---------------------------------------------------------------------
  // Rotations and boundaries stay lists of the right half-edges

  /** The list side of a rotation after the flip: no repetitions, and
      only old entries other than the diagonal, or the diagonal at v1 and
      its partner at v3. */
  lemma RotationAfterList(E: Embedding, q: Quad, v: nat)
    requires QuadIn(E, q) && FlipReady(E, q) && v < |E.vertices|
    requires Distinct<nat>(Rotation(E, v)) && RotationStartsHere(E, v)
    requires |Rotation(E, q.v0)| >= 2 && |Rotation(E, q.v2)| >= 2
    requires q.h !in Rotation(E, q.v1) && q.t !in Rotation(E, q.v3)
    ensures var r, r' := Rotation(E, v), RotationAfter(E, q, v);
      && Distinct<nat>(r')
      && forall z :: z in r' ==>
           (z in r && z != q.h && z != q.t) || (z == q.h && v == q.v1) || (z == q.t && v == q.v3)
  {
    var r := Rotation(E, v);
    if v == q.v0 {
      RemoveFirstNext<nat>(r, q.h);
    } else if v == q.v2 {
      RemoveFirstNext<nat>(r, q.t);
    } else if v == q.v1 {
      InsertAfterMembers<nat>(r, q.h, Twin(E, q.e0));
      InsertAfterDistinct<nat>(r, q.h, Twin(E, q.e0));
    } else if v == q.v3 {
      InsertAfterMembers<nat>(r, q.t, Twin(E, q.e2));
      InsertAfterDistinct<nat>(r, q.t, Twin(E, q.e2));
    }
  }

  /** Each rotation after the flip is free of repetitions and lists only
      half-edges that now start at its vertex. */
  lemma FlipRotationAt(E: Embedding, q: Quad, E': Embedding, v: nat)
    requires QuadIn(E, q) && FlipReady(E, q) && Repointed(E, q, E') && v < |E.vertices|
    requires Distinct<nat>(Rotation(E, v)) && RotationStartsHere(E, v)
    requires |Rotation(E, q.v0)| >= 2 && |Rotation(E, q.v2)| >= 2
    requires q.h !in Rotation(E, q.v1) && q.t !in Rotation(E, q.v3)
    requires Rotation(E', v) == RotationAfter(E, q, v)
    ensures Distinct<nat>(Rotation(E', v)) && RotationStartsHere(E', v)
  {
    RotationAfterList(E, q, v);
  }

  /** Each half-edge is listed in the rotation of its (new) start. */
  lemma FlipListedAt(E: Embedding, q: Quad, E': Embedding, g: nat)
    requires QuadIn(E, q) && FlipReady(E, q) && Repointed(E, q, E') && g < |E.halfEdges|
    requires g in Rotation(E, Start(E, g)) && Distinct<nat>(Rotation(E, Start(E, g)))
    requires |Rotation(E, q.v0)| >= 2 && |Rotation(E, q.v2)| >= 2
    requires Rotation(E', Start(E', g)) == RotationAfter(E, q, Start(E', g))
    ensures g in Rotation(E', Start(E', g))
  {
    var s := Start(E', g);
    if g == q.h {
      InsertAfterMembers<nat>(Rotation(E, q.v1), q.h, Twin(E, q.e0));
    } else if g == q.t {
      InsertAfterMembers<nat>(Rotation(E, q.v3), q.t, Twin(E, q.e2));
    } else {
      var r := Rotation(E, s);
      if s == q.v0 {
        RemoveFirstNext<nat>(r, q.h);
      } else if s == q.v2 {
        RemoveFirstNext<nat>(r, q.t);
      } else if s == q.v1 {
        InsertAfterMembers<nat>(r, q.h, Twin(E, q.e0));
      } else if s == q.v3 {
        InsertAfterMembers<nat>(r, q.t, Twin(E, q.e2));
      }
    }
  }

  lemma FlipRotationsOk(E: Embedding, q: Quad, E': Embedding)
    requires QuadIn(E, q) && RotationsOk(E) && FlipReady(E, q) && QuadTurns(E, q) && Reshaped(E, q, E')
    ensures RotationsOk(E')
  {
    FlipRotationsListed(E, q, E');
    FlipRotationsStart(E, q, E');
  }

  lemma FlipRotationsStart(E: Embedding, q: Quad, E': Embedding)
    requires QuadIn(E, q) && RotationsOk(E) && FlipReady(E, q) && QuadTurns(E, q) && Reshaped(E, q, E')
    ensures forall v :: 0 <= v < |E'.vertices| ==> Distinct<nat>(Rotation(E', v)) && RotationStartsHere(E', v)
  {
    forall v | 0 <= v < |E'.vertices|
      ensures Distinct<nat>(Rotation(E', v)) && RotationStartsHere(E', v)
    {
      FlipRotationAt(E, q, E', v);
    }
  }

  lemma FlipRotationsListed(E: Embedding, q: Quad, E': Embedding)
    requires QuadIn(E, q) && RotationsOk(E) && FlipReady(E, q) && QuadTurns(E, q) && Reshaped(E, q, E')
    ensures forall g :: 0 <= g < |E'.halfEdges| ==> g in Rotation(E', Start(E', g))
  {
    forall g | 0 <= g < |E'.halfEdges| ensures g in Rotation(E', Start(E', g)) {
      var s := Start(E', g);
      assert Rotation(E', s) == RotationAfter(E, q, s);
      assert g in Rotation(E, Start(E, g));
      FlipListedAt(E, q, E', g);
    }
  }

  /** The list side of a boundary after the flip: no repetitions, and only
      old entries other than e0 and e2, or e0 on f1 and e2 on f2. */
  lemma BoundaryAfterList(E: Embedding, q: Quad, f: nat)
    requires QuadIn(E, q) && FlipReady(E, q) && f < |E.faces|
    requires Distinct<nat>(Boundary(E, f)) && BoundaryLeftHere(E, f)
    requires q.e3 in Boundary(E, q.f1) && q.e0 !in Boundary(E, q.f1) && |Boundary(E, q.f1)| >= 2
    requires q.e1 in Boundary(E, q.f2) && q.e2 !in Boundary(E, q.f2) && |Boundary(E, q.f2)| >= 2
    requires q.e2 != q.e3 && q.e0 != q.e1
    requires LeftFace(E, q.e0) == q.f2 && LeftFace(E, q.e2) == q.f1
    ensures var b, b' := Boundary(E, f), BoundaryAfter(E, q, f);
      && Distinct<nat>(b')
      && forall z :: z in b' ==>
           (z in b && z != q.e0 && z != q.e2) || (z == q.e0 && f == q.f1) || (z == q.e2 && f == q.f2)
  {
    var b := Boundary(E, f);
    if f == q.f1 {
      RemoveFirstNext<nat>(b, q.e2);
      var r := RemoveFirst<nat>(b, q.e2);
      InsertAfterMembers<nat>(r, q.e0, q.e3);
      InsertAfterDistinct<nat>(r, q.e0, q.e3);
    } else if f == q.f2 {
      RemoveFirstNext<nat>(b, q.e0);
      var r := RemoveFirst<nat>(b, q.e0);
      InsertAfterMembers<nat>(r, q.e2, q.e1);
      InsertAfterDistinct<nat>(r, q.e2, q.e1);
    }
  }

  /** Each boundary after the flip is free of repetitions and lists only
      half-edges that now have its face on the left. */
  lemma FlipBoundaryAt(E: Embedding, q: Quad, E': Embedding, f: nat)
    requires QuadIn(E, q) && FlipReady(E, q) && Repointed(E, q, E') && f < |E.faces|
    requires Distinct<nat>(Boundary(E, f)) && BoundaryLeftHere(E, f)
    requires q.e3 in Boundary(E, q.f1) && q.e0 !in Boundary(E, q.f1) && |Boundary(E, q.f1)| >= 2
    requires q.e1 in Boundary(E, q.f2) && q.e2 !in Boundary(E, q.f2) && |Boundary(E, q.f2)| >= 2
    requires q.e2 != q.e3 && q.e0 != q.e1
    requires LeftFace(E, q.e0) == q.f2 && LeftFace(E, q.e2) == q.f1
    requires Boundary(E', f) == BoundaryAfter(E, q, f)
    ensures Distinct<nat>(Boundary(E', f)) && BoundaryLeftHere(E', f)
  {
    BoundaryAfterList(E, q, f);
  }

  /** Each half-edge is listed in the boundary of its (new) left face. */
  lemma FlipBoundedAt(E: Embedding, q: Quad, E': Embedding, g: nat)
    requires QuadIn(E, q) && FlipReady(E, q) && Repointed(E, q, E') && g < |E.halfEdges|
    requires g in Boundary(E, LeftFace(E, g))
    requires Distinct<nat>(Boundary(E, q.f1)) && |Boundary(E, q.f1)| >= 2
    requires Distinct<nat>(Boundary(E, q.f2)) && |Boundary(E, q.f2)| >= 2
    requires Boundary(E', LeftFace(E', g)) == BoundaryAfter(E, q, LeftFace(E', g))
    ensures g in Boundary(E', LeftFace(E', g))
  {
    var f := LeftFace(E', g);
    var b1, b2 := Boundary(E, q.f1), Boundary(E, q.f2);
    if f == q.f1 {
      RemoveFirstNext<nat>(b1, q.e2);
      InsertAfterMembers<nat>(RemoveFirst<nat>(b1, q.e2), q.e0, q.e3);
    } else if f == q.f2 {
      RemoveFirstNext<nat>(b2, q.e0);
      InsertAfterMembers<nat>(RemoveFirst<nat>(b2, q.e0), q.e2, q.e1);
    }
  }

  lemma FlipBoundariesOk(E: Embedding, q: Quad, E': Embedding)
    requires QuadIn(E, q) && BoundariesOk(E) && QuadSides(E, q) && QuadFaces(E, q) && Reshaped(E, q, E')
    ensures BoundariesOk(E')
  {
    FlipBoundariesLeft(E, q, E');
    FlipBoundariesListed(E, q, E');
  }

  lemma FlipBoundariesLeft(E: Embedding, q: Quad, E': Embedding)
    requires QuadIn(E, q) && BoundariesOk(E) && QuadSides(E, q) && QuadFaces(E, q) && Reshaped(E, q, E')
    ensures forall f :: 0 <= f < |E'.faces| ==> Distinct<nat>(Boundary(E', f)) && BoundaryLeftHere(E', f)
  {
    assert q.e3 in Boundary(E, q.f1) && q.e0 !in Boundary(E, q.f1) && |Boundary(E, q.f1)| >= 2;
    assert q.e1 in Boundary(E, q.f2) && q.e2 !in Boundary(E, q.f2) && |Boundary(E, q.f2)| >= 2;
    forall f | 0 <= f < |E'.faces|
      ensures Distinct<nat>(Boundary(E', f)) && BoundaryLeftHere(E', f)
    {
      FlipBoundaryAt(E, q, E', f);
    }
  }

  lemma FlipBoundariesListed(E: Embedding, q: Quad, E': Embedding)
    requires QuadIn(E, q) && BoundariesOk(E) && QuadSides(E, q) && QuadFaces(E, q) && Reshaped(E, q, E')
    ensures forall g :: 0 <= g < |E'.halfEdges| ==> g in Boundary(E', LeftFace(E', g))
  {
    assert |Boundary(E, q.f1)| >= 2 && |Boundary(E, q.f2)| >= 2;
    forall g | 0 <= g < |E'.halfEdges| ensures g in Boundary(E', LeftFace(E', g)) {
      var f := LeftFace(E', g);
      assert Boundary(E', f) == BoundaryAfter(E, q, f);
      assert g in Boundary(E, LeftFace(E, g));
      FlipBoundedAt(E, q, E', g);
    }
  }

  // ---------------------------------------------------------------------
  // Rotations and boundaries keep describing the same faces

  /** A triangle x -> y -> z with y taken out and w put after z becomes the
      triangle x -> z -> w. */
  lemma Relinked(b: seq<nat>, x: nat, y: nat, z: nat, w: nat)
    requires Distinct<nat>(b) && x in b && (forall k :: k in b <==> k == x || k == y || k == z)
    requires NextCyclic<nat>(b, x) == y && NextCyclic<nat>(b, y) == z && NextCyclic<nat>(b, z) == x
    requires x != y && y != z && x != z && w !in b
    ensures var c := InsertAfter<nat>(RemoveFirst<nat>(b, y), w, z);
      && |c| > 0 && x in c
      && NextCyclic<nat>(c, x) == z && NextCyclic<nat>(c, z) == w && NextCyclic<nat>(c, w) == x
  {
    var r := RemoveFirst<nat>(b, y);
    RemoveFirstNext<nat>(b, y);
    assert z in r && x in r;
    InsertAfterNext<nat>(r, w, z);
  }

  /** The new triangles as boundary lists: f1 = h -> e3 -> e0 and
      f2 = t -> e1 -> e2. */
  lemma NewTriangles(E: Embedding, q: Quad)
    requires QuadIn(E, q) && QuadSides(E, q) && QuadFaces(E, q)
    ensures var b1, b2 := BoundaryAfter(E, q, q.f1), BoundaryAfter(E, q, q.f2);
      && |b1| > 0 && |b2| > 0
      && NextCyclic<nat>(b1, q.h) == q.e3 && NextCyclic<nat>(b1, q.e3) == q.e0
      && NextCyclic<nat>(b1, q.e0) == q.h
      && NextCyclic<nat>(b2, q.t) == q.e1 && NextCyclic<nat>(b2, q.e1) == q.e2
      && NextCyclic<nat>(b2, q.e2) == q.t
  {
    var b1, b2 := Boundary(E, q.f1), Boundary(E, q.f2);
    assert q.e0 !in b1 && q.e2 !in b2;
    Relinked(b1, q.h, q.e2, q.e3, q.e0);
    Relinked(b2, q.t, q.e0, q.e1, q.e2);
  }

  /** The new turns at the corners: at v0 the partner of e3 now turns to
      e0, at v2 the partner of e1 to e2; at v1 the partner of e0 turns to
      `h` and `h` to e1; at v3 the partner of e2 turns to `t` and `t` to e3. */
  lemma NewTurns(E: Embedding, q: Quad)
    requires QuadIn(E, q) && FlipReady(E, q) && QuadTurns(E, q)
    ensures var r0, r1 := RotationAfter(E, q, q.v0), RotationAfter(E, q, q.v1);
      var r2, r3 := RotationAfter(E, q, q.v2), RotationAfter(E, q, q.v3);
      && Twin(E, q.e3) in r0 && NextCyclic<nat>(r0, Twin(E, q.e3)) == q.e0
      && Twin(E, q.e1) in r2 && NextCyclic<nat>(r2, Twin(E, q.e1)) == q.e2
      && Twin(E, q.e0) in r1 && NextCyclic<nat>(r1, Twin(E, q.e0)) == q.h
      && q.h in r1 && NextCyclic<nat>(r1, q.h) == q.e1
      && Twin(E, q.e2) in r3 && NextCyclic<nat>(r3, Twin(E, q.e2)) == q.t
      && q.t in r3 && NextCyclic<nat>(r3, q.t) == q.e3
  {
    var r0, r1, r2, r3 := Rotation(E, q.v0), Rotation(E, q.v1), Rotation(E, q.v2), Rotation(E, q.v3);
    NextCyclicMoves<nat>(r0, Twin(E, q.e3));
    RemoveFirstNext<nat>(r0, q.h);
    NextCyclicMoves<nat>(r2, Twin(E, q.e1));
    RemoveFirstNext<nat>(r2, q.t);
    InsertAfterNext<nat>(r1, q.h, Twin(E, q.e0));
    InsertAfterNext<nat>(r3, q.t, Twin(E, q.e2));
  }

  /** `getNextEdge` agrees with the new face lists on the six sides of the
      quadrilateral. */
  lemma ConsistentOnQuad(E: Embedding, q: Quad, E': Embedding, g: nat)
    requires QuadIn(E, q) && QuadSides(E, q) && QuadFaces(E, q) && QuadTurns(E, q) && Reshaped(E, q, E')
    requires BoundariesOk(E')
    requires g == q.h || g == q.e3 || g == q.e0 || g == q.t || g == q.e1 || g == q.e2
    ensures NextEdge(E', g) == Ok(FaceSuccessor(E', g))
  {
    NewTriangles(E, q);
    NewTurns(E, q);
    RepointedTarget(E, q, E', g);
    var w := Target(E', g);
    var f := LeftFace(E', g);
    assert Rotation(E', w) == RotationAfter(E, q, w);
    assert Boundary(E', f) == BoundaryAfter(E, q, f);
    TwinTwin(E, q.h);
    NextEdgeIs(E', g, FaceSuccessor(E', g));
  }

  /** Away from the six sides a half-edge keeps its face, and the face
      keeps its boundary list. */
  lemma OffQuadFace(E: Embedding, q: Quad, E': Embedding, g: nat)
    requires QuadIn(E, q) && BoundariesOk(E) && QuadFaces(E, q) && Reshaped(E, q, E')
    requires g < |E.halfEdges| && g != q.h && g != q.e3 && g != q.e0 && g != q.t && g != q.e1 && g != q.e2
    ensures LeftFace(E', g) == LeftFace(E, g) != q.f1 && LeftFace(E, g) != q.f2
    ensures Boundary(E', LeftFace(E', g)) == Boundary(E, LeftFace(E, g))
  {
    var f := LeftFace(E, g);
    assert g in Boundary(E, f);
    assert Boundary(E', f) == BoundaryAfter(E, q, f);
  }

  /** At a corner, the clockwise successor of a half-edge that neither is
      nor precedes one of the moved half-edges is the old one. */
  lemma OffQuadTurn(E: Embedding, q: Quad, w: nat, x: nat)
    requires QuadIn(E, q) && FlipReady(E, q) && QuadTurns(E, q) && RotationsOk(E)
    requires w < |E.vertices| && x in Rotation(E, w)
    requires x != q.h && x != q.t && x != Twin(E, q.e0) && x != Twin(E, q.e2)
    requires NextCyclic<nat>(Rotation(E, w), x) != q.h && NextCyclic<nat>(Rotation(E, w), x) != q.t
    ensures x in RotationAfter(E, q, w)
    ensures NextCyclic<nat>(RotationAfter(E, q, w), x) == NextCyclic<nat>(Rotation(E, w), x)
  {
    var r := Rotation(E, w);
    if w == q.v0 {
      RemoveFirstNext<nat>(r, q.h);
    } else if w == q.v2 {
      RemoveFirstNext<nat>(r, q.t);
    } else if w == q.v1 {
      InsertAfterNext<nat>(r, q.h, Twin(E, q.e0));
    } else if w == q.v3 {
      InsertAfterNext<nat>(r, q.t, Twin(E, q.e2));
    }
  }

  /** Away from the six sides, successors along faces and around vertices
      are the old ones. */
  lemma ConsistentOffQuad(E: Embedding, q: Quad, E': Embedding, g: nat)
    requires PlaneTriangulation(E) && QuadIn(E, q) && QuadSides(E, q) && QuadFaces(E, q) && QuadTurns(E, q)
    requires Reshaped(E, q, E') && BoundariesOk(E') && g < |E.halfEdges|
    requires g != q.h && g != q.e3 && g != q.e0 && g != q.t && g != q.e1 && g != q.e2
    ensures NextEdge(E', g) == Ok(FaceSuccessor(E', g))
  {
    FaceSuccessorFacts(E, g);
    RepointedTarget(E, q, E', g);
    OffQuadFace(E, q, E', g);
    var tg := Twin(E, g);
    var w := Target(E, g);
    var s := FaceSuccessor(E, g);
    TwinTwin(E, g);
    TwinTwin(E, q.h);
    TwinTwin(E, q.e0);
    TwinTwin(E, q.e2);
    assert LeftFace(E, s) == LeftFace(E, g);
    OffQuadTurn(E, q, w, tg);
    assert Rotation(E', w) == RotationAfter(E, q, w);
    NextEdgeIs(E', g, s);
  }

  /** After the flip every half-edge is followed, around its target, by its
      successor along its face. */
  lemma FlipConsistent(E: Embedding, q: Quad, E': Embedding)
    requires PlaneTriangulation(E) && QuadIn(E, q) && Around(E, q)
    requires Reshaped(E, q, E') && BoundariesOk(E')
    ensures Consistent(E')
  {
    forall g | 0 <= g < |E'.halfEdges| ensures NextEdge(E', g) == Ok(FaceSuccessor(E', g)) {
      if g == q.h || g == q.e3 || g == q.e0 || g == q.t || g == q.e1 || g == q.e2 {
        ConsistentOnQuad(E, q, E', g);
      } else {
        ConsistentOffQuad(E, q, E', g);
      }
    }
  }

  /** No old half-edge joins v1 and v3, in either direction. */
  lemma NotJoined(E: Embedding, q: Quad, o: nat)
    requires PlaneTriangulation(E) && QuadIn(E, q) && !Adjacent(E, q.v1, q.v3) && o < |E.halfEdges|
    ensures !(Start(E, o) == q.v1 && Target(E, o) == q.v3)
    ensures !(Start(E, o) == q.v3 && Target(E, o) == q.v1)
  {
    TwinTwin(E, o);
    assert o in Rotation(E, Start(E, o));
    assert Twin(E, o) in Rotation(E, Start(E, Twin(E, o)));
  }

  /** Two half-edges of the flipped embedding with the same ends are one:
      the new diagonal v1 - v3 was not an edge before. */
  lemma FlipSimplePair(E: Embedding, q: Quad, E': Embedding, g1: nat, g2: nat)
    requires PlaneTriangulation(E) && QuadIn(E, q) && FlipReady(E, q) && !Adjacent(E, q.v1, q.v3)
    requires Repointed(E, q, E') && g1 < |E.halfEdges| && g2 < |E.halfEdges|
    requires Start(E', g1) == Start(E', g2) && Target(E', g1) == Target(E', g2)
    ensures g1 == g2
  {
    RepointedTarget(E, q, E', g1);
    RepointedTarget(E, q, E', g2);
    NotJoined(E, q, g1);
    NotJoined(E, q, g2);
    TwinTwin(E, q.h);
  }

  /** The flipped embedding has no loops and no parallel edges. */
  lemma FlipSimple(E: Embedding, q: Quad, E': Embedding)
    requires PlaneTriangulation(E) && QuadIn(E, q) && FlipReady(E, q) && !Adjacent(E, q.v1, q.v3)
    requires Repointed(E, q, E')
    ensures Simple(E')
  {
    forall g | 0 <= g < |E'.halfEdges| ensures Start(E', g) != Target(E', g) {
      RepointedTarget(E, q, E', g);
    }
    forall g1, g2 | 0 <= g1 < |E'.halfEdges| && 0 <= g2 < |E'.halfEdges| &&
        Start(E', g1) == Start(E', g2) && Target(E', g1) == Target(E', g2)
      ensures g1 == g2
    {
      FlipSimplePair(E, q, E', g1, g2);
    }
  }

  /** Every vertex keeps degree at least three: v0 and v2 lose one from at
      least four, v1 and v3 gain one. */
  lemma FlipDegreesOk(E: Embedding, q: Quad, E': Embedding)
    requires QuadIn(E, q) && FlipReady(E, q) && QuadTurns(E, q) && Reshaped(E, q, E')
    requires DegreesOk(E) && |E.vertices| >= 4
    ensures DegreesOk(E')
  {
    forall v | 0 <= v < |E'.vertices| ensures |Rotation(E', v)| >= 3 {
      FlipDegreeAt(E, q, E', v);
    }
  }

  lemma FlipDegreeAt(E: Embedding, q: Quad, E': Embedding, v: nat)
    requires QuadIn(E, q) && FlipReady(E, q) && QuadTurns(E, q) && Reshaped(E, q, E')
    requires DegreesOk(E) && |E.vertices| >= 4 && v < |E'.vertices|
    ensures |Rotation(E', v)| >= 3
  {
    assert Rotation(E', v) == RotationAfter(E, q, v);
    assert |Rotation(E, v)| >= 3;
    if v == q.v0 {
      RemoveFirstSpec<nat>(Rotation(E, q.v0), q.h);
    } else if v == q.v2 {
      RemoveFirstSpec<nat>(Rotation(E, q.v2), q.t);
    } else if v == q.v1 {
      InsertAfterPlacement<nat>(Rotation(E, q.v1), q.h, Twin(E, q.e0));
    } else if v == q.v3 {
      InsertAfterPlacement<nat>(Rotation(E, q.v3), q.t, Twin(E, q.e2));
    }
  }

  /** An accepted flip of a plane triangulation with four or more vertices
      yields a plane triangulation: rotations, face lists, their agreement,
      triangular faces, simplicity, minimum degree three and the counts
      3n - 6 and 2n - 4 all hold again. The diagonal now joins v1 and v3,
      and one unit of degree moves from each of v0, v2 to each of v1, v3. */
  lemma FlipOfTriangulation(E: Embedding, h: nat, q: Quad)
    requires PlaneTriangulation(E) && |E.vertices| >= 4 && h < |E.halfEdges|
    requires TryFlip(E, h) == Ok(Flipped(q))
    ensures var E' := Flip(E, q);
      && PlaneTriangulation(E')
      && Start(E', h) == q.v1 && Target(E', h) == q.v3
      && |Rotation(E', q.v0)| == |Rotation(E, q.v0)| - 1 && |Rotation(E', q.v2)| == |Rotation(E, q.v2)| - 1
      && |Rotation(E', q.v1)| == |Rotation(E, q.v1)| + 1 && |Rotation(E', q.v3)| == |Rotation(E, q.v3)| + 1
  {
    AroundFlip(E, h, q);
    var E' := Flip(E, q);
    FlipReshaped(E, q);
    FlipRotationsOk(E, q, E');
    FlipBoundariesOk(E, q, E');
    FlipConsistent(E, q, E');
    FlipSimple(E, q, E');
    FlipDegreesOk(E, q, E');
    FlipKeepsLayout(E, q);
    FlipKeepsTriangles(E, q);
    FlipRepoints(E, q);
    FlipCornerDegrees(E, q);
  }
}
