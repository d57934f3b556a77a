/** The base triangle an Apollonian network starts from, as a value, and
    the proof that it is a plane triangulation. */
module Apollonian {
  import opened Exceptions
  import opened Lists
  import opened PlanarEmbedding
  import opened PlanarInvariants

  /** The base triangle v0 -> v1 -> v2 -> v0 with inner face 1 on the left
      of the three edges and outer face 0 on the right.  Half-edges 2i and
      2i+1 are the two halves of edge i. */
  function BaseTriangle(): Embedding
  {
    Embedding(
      [PlanarVertex(0, [5, 0]), PlanarVertex(1, [1, 2]), PlanarVertex(2, [3, 4])],
      [PlanarEdge(0, 1, 0, 1), PlanarEdge(1, 0, 0, 0),
       PlanarEdge(1, 1, 1, 3), PlanarEdge(2, 0, 1, 2),
       PlanarEdge(2, 1, 2, 5), PlanarEdge(0, 0, 2, 4)],
      [0, 2, 4],
      [PlanarFace(0, [1, 5, 3]), PlanarFace(1, [0, 2, 4])])
  }

  lemma BaseTriangleWf()
    ensures Wf(BaseTriangle())
  {
    var E := BaseTriangle();
    forall h | 0 <= h < 6 ensures HalfEdgeWf(E, h) {
    }
  }

  lemma BaseTriangleLayout()
    ensures Wf(BaseTriangle()) && Layout(BaseTriangle()) && IdsArePositions(BaseTriangle())
  {
    var E := BaseTriangle();
    BaseTriangleWf();
    forall h | 0 <= h < 6
      ensures E.halfEdges[h].index == h / 2
      ensures E.halfEdges[h].partner == if h % 2 == 0 then h + 1 else h - 1
    {
    }
  }

  lemma BaseTriangleRotationAt(v: nat)
    requires v < 3
    ensures Wf(BaseTriangle()) && Distinct<nat>(Rotation(BaseTriangle(), v))
    ensures RotationStartsHere(BaseTriangle(), v)
  {
    var E := BaseTriangle();
    BaseTriangleWf();
    if v == 0 {
      assert Rotation(E, v) == [5, 0];
    } else if v == 1 {
      assert Rotation(E, v) == [1, 2];
    } else {
      assert Rotation(E, v) == [3, 4];
    }
  }

  lemma BaseTriangleRotationsOk()
    ensures Wf(BaseTriangle()) && RotationsOk(BaseTriangle())
  {
    var E := BaseTriangle();
    BaseTriangleWf();
    forall v | 0 <= v < 3 ensures Distinct<nat>(Rotation(E, v)) && RotationStartsHere(E, v) {
      BaseTriangleRotationAt(v);
    }
    forall h | 0 <= h < 6 ensures h in Rotation(E, Start(E, h)) {
    }
  }

  lemma BaseTriangleBoundariesOk()
    ensures Wf(BaseTriangle()) && BoundariesOk(BaseTriangle())
  {
    var E := BaseTriangle();
    BaseTriangleWf();
    forall f | 0 <= f < 2 ensures Distinct<nat>(Boundary(E, f)) && BoundaryLeftHere(E, f) {
      if f == 0 {
        assert Boundary(E, f) == [1, 5, 3];
      } else {
        assert Boundary(E, f) == [0, 2, 4];
      }
    }
    forall h | 0 <= h < 6 ensures h in Boundary(E, LeftFace(E, h)) {
    }
  }

  lemma BaseTriangleRotations()
    ensures Wf(BaseTriangle()) && RotationsOk(BaseTriangle()) && BoundariesOk(BaseTriangle())
  {
    BaseTriangleRotationsOk();
    BaseTriangleBoundariesOk();
  }

  /** Walking on through the rotation at vertex 0, the target of the
      half-edges 1 and 4. */
  lemma BaseTriangleTurnsAt0()
    ensures Wf(BaseTriangle())
    ensures NextEdge(BaseTriangle(), 1) == Ok(5) && NextEdge(BaseTriangle(), 4) == Ok(0)
  {
    BaseTriangleWf();
    NextCyclicTwo<nat>(5, 0);
  }

  /** The same at vertex 1, the target of the half-edges 0 and 3. */
  lemma BaseTriangleTurnsAt1()
    ensures Wf(BaseTriangle())
    ensures NextEdge(BaseTriangle(), 0) == Ok(2) && NextEdge(BaseTriangle(), 3) == Ok(1)
  {
    BaseTriangleWf();
    NextCyclicTwo<nat>(1, 2);
  }

  /** The same at vertex 2, the target of the half-edges 2 and 5. */
  lemma BaseTriangleTurnsAt2()
    ensures Wf(BaseTriangle())
    ensures NextEdge(BaseTriangle(), 2) == Ok(4) && NextEdge(BaseTriangle(), 5) == Ok(3)
  {
    BaseTriangleWf();
    NextCyclicTwo<nat>(3, 4);
  }

  /** Successors along the boundary of the outer face 0. */
  lemma BaseTriangleOuterSuccessors()
    ensures Wf(BaseTriangle()) && BoundariesOk(BaseTriangle())
    ensures FaceSuccessor(BaseTriangle(), 1) == 5 && FaceSuccessor(BaseTriangle(), 5) == 3
    ensures FaceSuccessor(BaseTriangle(), 3) == 1
  {
    BaseTriangleBoundariesOk();
    NextCyclicThree<nat>(1, 5, 3);
  }

  /** Successors along the boundary of the inner face 1. */
  lemma BaseTriangleInnerSuccessors()
    ensures Wf(BaseTriangle()) && BoundariesOk(BaseTriangle())
    ensures FaceSuccessor(BaseTriangle(), 0) == 2 && FaceSuccessor(BaseTriangle(), 2) == 4
    ensures FaceSuccessor(BaseTriangle(), 4) == 0
  {
    BaseTriangleBoundariesOk();
    NextCyclicThree<nat>(0, 2, 4);
  }

  /** The half-edges below n are consistent. */
  ghost predicate ConsistentBelow(E: Embedding, n: nat)
    requires Wf(E) && BoundariesOk(E) && n <= |E.halfEdges|
  {
    forall h :: 0 <= h < n ==> NextEdge(E, h) == Ok(FaceSuccessor(E, h))
  }

  lemma ConsistentBelowStep(E: Embedding, n: nat)
    requires Wf(E) && BoundariesOk(E) && n < |E.halfEdges|
    requires ConsistentBelow(E, n)
    requires NextEdge(E, n) == Ok(FaceSuccessor(E, n))
    ensures ConsistentBelow(E, n + 1)
  {
    forall h | 0 <= h < n + 1 ensures NextEdge(E, h) == Ok(FaceSuccessor(E, h)) {
      if h < n {
      }
    }
  }

  lemma BaseTriangleConsistentBelow3()
    ensures Wf(BaseTriangle()) && BoundariesOk(BaseTriangle())
    ensures ConsistentBelow(BaseTriangle(), 3)
  {
    var E := BaseTriangle();
    BaseTriangleTurnsAt0();
    BaseTriangleTurnsAt1();
    BaseTriangleTurnsAt2();
    BaseTriangleOuterSuccessors();
    BaseTriangleInnerSuccessors();
    ConsistentBelowStep(E, 0);
    ConsistentBelowStep(E, 1);
    ConsistentBelowStep(E, 2);
  }

  lemma BaseTriangleConsistent()
    ensures Wf(BaseTriangle()) && BoundariesOk(BaseTriangle())
    ensures Consistent(BaseTriangle())
  {
    var E := BaseTriangle();
    BaseTriangleConsistentBelow3();
    BaseTriangleTurnsAt0();
    BaseTriangleTurnsAt1();
    BaseTriangleTurnsAt2();
    BaseTriangleOuterSuccessors();
    BaseTriangleInnerSuccessors();
    ConsistentBelowStep(E, 3);
    ConsistentBelowStep(E, 4);
    ConsistentBelowStep(E, 5);
  }

  lemma BaseTriangleSimple()
    ensures Wf(BaseTriangle()) && Simple(BaseTriangle())
  {
    var E := BaseTriangle();
    BaseTriangleWf();
    forall h | 0 <= h < 6 ensures Start(E, h) != Target(E, h) {
    }
    forall h, g | 0 <= h < 6 && 0 <= g < 6 && Start(E, h) == Start(E, g) && Target(E, h) == Target(E, g)
      ensures h == g
    {
    }
  }

  lemma BaseTriangleShape()
    ensures Wf(BaseTriangle()) && Triangulated(BaseTriangle()) && DegreesOk(BaseTriangle())
    ensures Counts(BaseTriangle())
  {
    BaseTriangleWf();
  }

  /** The base triangle is a plane triangulation with 3 vertices, 3 edges
      and 2 faces. */
  lemma BaseTriangleIsPlaneTriangulation()
    ensures PlaneTriangulation(BaseTriangle())
    ensures |BaseTriangle().vertices| == 3 && |BaseTriangle().edges| == 3 && |BaseTriangle().faces| == 2
  {
    var E := BaseTriangle();
    BaseTriangleLayout();
    BaseTriangleRotations();
    BaseTriangleConsistent();
    BaseTriangleSimple();
    BaseTriangleShape();
  }
}
