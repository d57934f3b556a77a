/** The geometry behind `create1PlanarGraph`: the half-edges of the input
    graph kept apart from the crossing edges added later, and the two
    vertices facing an edge of a plane triangulation across its two
    triangles. */
module Crossings {
  import opened Lists
  import opened PlanarEmbedding
  import opened PlanarInvariants

  // ---------------------------------------------------------------------
  // Original half-edges in a grown rotation

  /** The entries of `s` below `bound`, in their order: the original
      half-edges of a rotation that crossing edges were inserted into. */
  function Originals(s: seq<nat>, bound: nat): (r: seq<nat>)
    ensures |r| <= |s|
    ensures forall z :: z in r <==> z in s && z < bound
  {
    if s == [] then []
    else (if s[0] < bound then [s[0]] else []) + Originals(s[1..], bound)
  }

  lemma {:induction false} OriginalsAppend(s: seq<nat>, t: seq<nat>, bound: nat)
    ensures Originals(s + t, bound) == Originals(s, bound) + Originals(t, bound)
    decreases |s|
  {
    if s == [] {
      assert s + t == t;
    } else {
      assert (s + t)[1..] == s[1..] + t;
      OriginalsAppend(s[1..], t, bound);
    }
  }

  /** A list of original half-edges is its own list of originals. */
  lemma {:induction false} OriginalsAll(s: seq<nat>, bound: nat)
    requires forall z :: z in s ==> z < bound
    ensures Originals(s, bound) == s
    decreases |s|
  {
    if s != [] {
      assert s[0] in s;
      assert forall z :: z in s[1..] ==> z in s;
      OriginalsAll(s[1..], bound);
    }
  }

  /** Inserting a new half-edge leaves the originals as they were. */
  lemma OriginalsInsert(s: seq<nat>, i: int, z: nat, bound: nat)
    requires 0 <= i <= |s| && z >= bound
    ensures Originals(InsertAt(s, i, z), bound) == Originals(s, bound)
  {
    assert s == s[..i] + s[i..];
    OriginalsAppend(s[..i], s[i..], bound);
    OriginalsAppend(s[..i] + [z], s[i..], bound);
    OriginalsAppend(s[..i], [z], bound);
    assert Originals([z], bound) == [];
  }

  lemma {:induction false} OriginalsDistinct(s: seq<nat>, bound: nat)
    requires Distinct<nat>(s)
    ensures Distinct<nat>(Originals(s, bound))
    decreases |s|
  {
    if s != [] {
      assert Distinct<nat>(s[1..]);
      OriginalsDistinct(s[1..], bound);
      assert s[0] !in s[1..];
    }
  }

  /** A new entry keeps a list without repetitions so. */
  lemma InsertAtDistinct(s: seq<nat>, i: int, z: nat)
    requires Distinct<nat>(s) && 0 <= i <= |s| && z !in s
    ensures Distinct<nat>(InsertAt(s, i, z))
    ensures forall w :: w in InsertAt(s, i, z) <==> w in s || w == z
  {
    var r := InsertAt(s, i, z);
    assert s == s[..i] + s[i..];
    forall a, b | 0 <= a < b < |r| ensures r[a] != r[b] {
      if a < i && b > i {
        assert r[a] == s[a] && r[b] == s[b - 1];
      } else if a > i {
        assert r[a] == s[a - 1] && r[b] == s[b - 1];
      } else if a < i && b < i {
        assert r[a] == s[a] && r[b] == s[b];
      } else if a == i {
        assert r[b] == s[b - 1];
      } else {
        assert r[a] == s[a];
      }
    }
  }

  /** Two original half-edges that follow each other in the grown rotation
      already followed each other in the original one. */
  lemma OriginalsNext(s: seq<nat>, a: nat, bound: nat)
    requires Distinct<nat>(s) && a in s && a < bound && NextCyclic<nat>(s, a) < bound
    ensures |Originals(s, bound)| > 0 && a in Originals(s, bound)
    ensures NextCyclic<nat>(Originals(s, bound), a) == NextCyclic<nat>(s, a)
  {
    var i := IndexOf<nat>(s, a);
    OriginalsDistinct(s, bound);
    if i < |s| - 1 {
      OriginalsNextInside(s, i, bound);
    } else if |s| == 1 {
      OriginalsAll(s, bound);
    } else {
      OriginalsNextAround(s, bound);
    }
  }

  /** The pair at positions i and i + 1. */
  lemma OriginalsNextInside(s: seq<nat>, i: nat, bound: nat)
    requires Distinct<nat>(Originals(s, bound)) && i + 1 < |s| && s[i] < bound && s[i + 1] < bound
    ensures s[i] in Originals(s, bound) && NextCyclic<nat>(Originals(s, bound), s[i]) == s[i + 1]
  {
    var a, b := s[i], s[i + 1];
    var r := Originals(s, bound);
    assert s == s[..i] + [a, b] + s[i + 2..];
    OriginalsAppend(s[..i], [a, b], bound);
    OriginalsAppend(s[..i] + [a, b], s[i + 2..], bound);
    OriginalsAll([a, b], bound);
    var p := |Originals(s[..i], bound)|;
    assert r == Originals(s[..i], bound) + [a, b] + Originals(s[i + 2..], bound);
    assert r[p] == a && r[p + 1] == b;
    IndexOfDistinct<nat>(r, p);
  }

  /** The pair of the last and the first position. */
  lemma OriginalsNextAround(s: seq<nat>, bound: nat)
    requires Distinct<nat>(Originals(s, bound)) && |s| >= 2 && s[|s| - 1] < bound && s[0] < bound
    ensures s[|s| - 1] in Originals(s, bound)
    ensures NextCyclic<nat>(Originals(s, bound), s[|s| - 1]) == s[0]
  {
    var a, b := s[|s| - 1], s[0];
    var r := Originals(s, bound);
    assert s == [b] + s[1..|s| - 1] + [a];
    OriginalsAppend([b], s[1..|s| - 1], bound);
    OriginalsAppend([b] + s[1..|s| - 1], [a], bound);
    OriginalsAll([b], bound);
    OriginalsAll([a], bound);
    assert r == [b] + Originals(s[1..|s| - 1], bound) + [a];
    IndexOfDistinct<nat>(r, |r| - 1);
  }

  // ---------------------------------------------------------------------
  // The two triangles at an edge of a plane triangulation

  /** The vertex opposite the half-edge `h` in the triangle on its left:
      the target of its successor along that face. */
  ghost function Apex(E: Embedding, h: nat): nat
    requires Wf(E) && BoundariesOk(E) && h < |E.halfEdges|
  {
    Target(E, FaceSuccessor(E, h))
  }

  /** Three steps along a face of a plane triangulation lead back to the
      start; the second step ends where the first half-edge started. */
  lemma TriangleSteps(E: Embedding, h: nat)
    requires PlaneTriangulation(E) && h < |E.halfEdges|
    ensures var s1 := FaceSuccessor(E, h); var s2 := FaceSuccessor(E, s1);
      && Start(E, s1) == Target(E, h) && Start(E, s2) == Target(E, s1)
      && Target(E, s2) == Start(E, h) && FaceSuccessor(E, s2) == h
  {
    var f := LeftFace(E, h);
    var b := Boundary(E, f);
    var s1 := FaceSuccessor(E, h);
    FaceSuccessorFacts(E, h);
    FaceSuccessorFacts(E, s1);
    var s2 := FaceSuccessor(E, s1);
    FaceSuccessorFacts(E, s2);
    assert h in b && Distinct<nat>(b) && |b| == 3;
    ThreeCycle<nat>(b, h, s1, s2);
  }

  /** Across an edge u -> v of a plane triangulation, the apex x of the
      triangle on the right and the apex y of the triangle on the left
      close the quadrilateral x - u - y - v: the sides v -> y and y -> u
      follow u -> v along its face, u -> x and x -> v follow v -> u along
      its face. */
  lemma CrossedQuadrilateral(E: Embedding, h: nat)
    requires PlaneTriangulation(E) && h < |E.halfEdges|
    ensures var t := Twin(E, h);
      var a1 := FaceSuccessor(E, h); var a2 := FaceSuccessor(E, a1);
      var b1 := FaceSuccessor(E, t); var b2 := FaceSuccessor(E, b1);
      var u, v, x, y := Start(E, h), Target(E, h), Apex(E, t), Apex(E, h);
      && Start(E, a1) == v && Target(E, a1) == y
      && Start(E, a2) == y && Target(E, a2) == u
      && Start(E, b1) == u && Target(E, b1) == x
      && Start(E, b2) == x && Target(E, b2) == v
  {
    TwinTwin(E, h);
    TriangleSteps(E, h);
    TriangleSteps(E, Twin(E, h));
  }

  /** With four or more vertices the two apexes differ, so the crossing
      edge x - y is no loop: were they one vertex, u's rotation would be
      the two half-edges u -> v and u -> x only, below degree three. */
  lemma ApexesDiffer(E: Embedding, h: nat)
    requires PlaneTriangulation(E) && |E.vertices| >= 4 && h < |E.halfEdges|
    ensures Apex(E, Twin(E, h)) != Apex(E, h)
  {
    var t := Twin(E, h);
    var u := Start(E, h);
    var a1 := FaceSuccessor(E, h);
    var a2 := FaceSuccessor(E, a1);
    var b1 := FaceSuccessor(E, t);
    CrossedQuadrilateral(E, h);
    TriangleSteps(E, h);
    TwinTwin(E, h);
    if Apex(E, t) == Apex(E, h) {
      TwinTwin(E, a2);
      assert Start(E, Twin(E, a2)) == u && Target(E, Twin(E, a2)) == Target(E, b1);
      assert Twin(E, a2) == b1;
      FaceSuccessorFacts(E, a2);
      FaceSuccessorFacts(E, t);
      var r := Rotation(E, u);
      assert NextCyclic<nat>(r, b1) == h && NextCyclic<nat>(r, h) == b1;
      NextCyclicTwoSteps<nat>(r, b1);
      assert false;
    }
  }

  /** The half-edges of the triangle left of `h` are `h` and its two
      successors along the face. */
  lemma TriangleMembers(E: Embedding, h: nat, g: nat)
    requires PlaneTriangulation(E) && h < |E.halfEdges| && g < |E.halfEdges|
    requires LeftFace(E, g) == LeftFace(E, h)
    ensures g == h || g == FaceSuccessor(E, h) || g == FaceSuccessor(E, FaceSuccessor(E, h))
  {
    var b := Boundary(E, LeftFace(E, h));
    var s1 := FaceSuccessor(E, h);
    var s2 := FaceSuccessor(E, s1);
    FaceSuccessorFacts(E, h);
    assert h in b && g in b && |b| == 3;
    NextCyclicMoves<nat>(b, h);
    NextCyclicMoves<nat>(b, s1);
    if s2 == h {
      NextCyclicTwoSteps<nat>(b, h);
      assert false;
    }
    ThreeMembers<nat>(b, h, s1, s2);
  }

  /** Two half-edges with the same successor along their faces are one. */
  lemma FaceSuccessorInjective(E: Embedding, g1: nat, g2: nat)
    requires PlaneTriangulation(E) && g1 < |E.halfEdges| && g2 < |E.halfEdges|
    requires FaceSuccessor(E, g1) == FaceSuccessor(E, g2)
    ensures g1 == g2
  {
    FaceSuccessorFacts(E, g1);
    FaceSuccessorFacts(E, g2);
    NextCyclicInjective<nat>(Boundary(E, LeftFace(E, g1)), g1, g2);
  }
}
