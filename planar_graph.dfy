/** `PlanarGraph` with its `PlanarVertex`, `PlanarEdge` and `PlanarFace`
    objects.  The objects are records in arenas held by the graph and
    addressed by handle; an operation of one of them becomes a method of the
    graph that rewrites that record in place.  The vertex and face arenas
    are the graph's vertex and face lists (every builder adds each new
    vertex and face to its list when it creates it); the half-edge arena
    holds both halves of every edge, and `edges` is the graph's edge list. */
module PlanarGraphs {
  import opened Exceptions
  import opened Lists
  import opened PlanarEmbedding

  class PlanarGraph {
    var vertices: seq<PlanarVertex>
    var halfEdges: seq<PlanarEdge>
    var edges: seq<nat>
    var faces: seq<PlanarFace>

    /** The current state as a value. */
    function Model(): Embedding
      reads this
    {
      Embedding(vertices, halfEdges, edges, faces)
    }

    /** `new PlanarGraph(vertices, edges, faces, name)`: the given lists
        are stored as they are.  The half-edge arena is passed alongside,
        since it holds the edge objects the lists refer to. */
    constructor(vs: seq<PlanarVertex>, hs: seq<PlanarEdge>, es: seq<nat>, fs: seq<PlanarFace>)
      ensures Model() == Embedding(vs, hs, es, fs)
    {
      vertices, halfEdges, edges, faces := vs, hs, es, fs;
    }

    // -------------------------------------------------------------------
    // PlanarGraph getters and addEdge

    /** `getN`. */
    function GetN(): (n: nat)
      reads this
      ensures n == |Model().vertices|
    {
      |vertices|
    }

    /** `getM`. */
    function GetM(): (m: nat)
      reads this
      ensures m == |Model().edges|
    {
      |edges|
    }

    /** `getF`. */
    function GetF(): (f: nat)
      reads this
      ensures f == |Model().faces|
    {
      |faces|
    }

    /** `addEdge`: appends to the edge list only. */
    method AddEdge(h: nat)
      modifies this
      ensures edges == old(edges) + [h]
      ensures vertices == old(vertices) && halfEdges == old(halfEdges) && faces == old(faces)
      ensures GetM() == old(GetM()) + 1 && GetN() == old(GetN()) && GetF() == old(GetF())
    {
      edges := edges + [h];
    }

    /** `new PlanarVertex(id)` added to the vertex list. */
    method NewVertex(id: int) returns (v: nat)
      modifies this
      ensures v == old(|vertices|)
      ensures vertices == old(vertices) + [PlanarVertex(id, [])]
      ensures halfEdges == old(halfEdges) && edges == old(edges) && faces == old(faces)
    {
      v := |vertices|;
      vertices := vertices + [PlanarVertex(id, [])];
    }

    /** `new PlanarFace(index)` added to the face list. */
    method NewFace(index: int) returns (f: nat)
      modifies this
      ensures f == old(|faces|)
      ensures faces == old(faces) + [PlanarFace(index, [])]
      ensures vertices == old(vertices) && halfEdges == old(halfEdges) && edges == old(edges)
    {
      f := |faces|;
      faces := faces + [PlanarFace(index, [])];
    }

    // -------------------------------------------------------------------
    // PlanarVertex: the rotation list

    /** `PlanarVertex.addEdgeAfter`: insert behind the first occurrence of
        `after` (at the front if `after` is not listed). */
    method VertexAddEdgeAfter(v: nat, toAdd: nat, after: nat)
      requires v < |vertices|
      modifies this
      ensures vertices == old(vertices)[v := PlanarVertex(old(vertices[v].id),
                InsertAfter(old(vertices[v].edges), toAdd, after))]
      ensures halfEdges == old(halfEdges) && edges == old(edges) && faces == old(faces)
      ensures |vertices[v].edges| == old(|vertices[v].edges|) + 1
    {
      InsertAfterPlacement(vertices[v].edges, toAdd, after);
      vertices := vertices[v := PlanarVertex(vertices[v].id,
                    InsertAfter(vertices[v].edges, toAdd, after))];
    }

    /** `PlanarVertex.addEdgeAtEnd`. */
    method VertexAddEdgeAtEnd(v: nat, toAdd: nat)
      requires v < |vertices|
      modifies this
      ensures vertices == old(vertices)[v := PlanarVertex(old(vertices[v].id),
                old(vertices[v].edges) + [toAdd])]
      ensures halfEdges == old(halfEdges) && edges == old(edges) && faces == old(faces)
    {
      vertices := vertices[v := PlanarVertex(vertices[v].id, vertices[v].edges + [toAdd])];
    }

    /** `Collections.reverse(vertex.getEdges())`. */
    method VertexReverseEdges(v: nat)
      requires v < |vertices|
      modifies this
      ensures vertices == old(vertices)[v := PlanarVertex(old(vertices[v].id), Reverse(old(vertices[v].edges)))]
      ensures halfEdges == old(halfEdges) && edges == old(edges) && faces == old(faces)
    {
      vertices := vertices[v := PlanarVertex(vertices[v].id, Reverse(vertices[v].edges))];
    }

    /** `PlanarVertex.removeEdge`: drops the first occurrence only. */
    method VertexRemoveEdge(v: nat, e: nat)
      requires v < |vertices|
      modifies this
      ensures vertices == old(vertices)[v := PlanarVertex(old(vertices[v].id),
                RemoveFirst(old(vertices[v].edges), e))]
      ensures halfEdges == old(halfEdges) && edges == old(edges) && faces == old(faces)
      ensures |vertices[v].edges| == old(|vertices[v].edges|) - if e in old(vertices[v].edges) then 1 else 0
    {
      RemoveFirstSpec(vertices[v].edges, e);
      vertices := vertices[v := PlanarVertex(vertices[v].id, RemoveFirst(vertices[v].edges, e))];
    }

    /** `PlanarVertex.getNeighborsCW`: the targets of the rotation, in order. */
    method NeighborsCW(v: nat) returns (ns: seq<nat>)
      requires Wf(Model()) && v < |vertices|
      ensures |ns| == |Rotation(Model(), v)|
      ensures forall i :: 0 <= i < |ns| ==> ns[i] == Target(Model(), Rotation(Model(), v)[i])
    {
      var rot := Rotation(Model(), v);
      ns := [];
      var i := 0;
      while i < |rot|
        invariant 0 <= i <= |rot| && |ns| == i
        invariant forall j :: 0 <= j < i ==> ns[j] == Target(Model(), rot[j])
      {
        ns := ns + [Target(Model(), rot[i])];
        i := i + 1;
      }
    }

    /** `PlanarVertex.getNeighborsCCW`: the clockwise neighbours read
        backwards. */
    method NeighborsCCW(v: nat) returns (ns: seq<nat>)
      requires Wf(Model()) && v < |vertices|
      ensures |ns| == |Rotation(Model(), v)|
      ensures forall i :: 0 <= i < |ns| ==>
        ns[i] == Target(Model(), Rotation(Model(), v)[|ns| - 1 - i])
    {
      var cw := NeighborsCW(v);
      ns := [];
      var i := |cw| - 1;
      while i >= 0
        invariant -1 <= i < |cw| && |ns| == |cw| - 1 - i
        invariant forall j :: 0 <= j < |ns| ==> ns[j] == cw[|cw| - 1 - j]
      {
        ns := ns + [cw[i]];
        i := i - 1;
      }
      assert ns == Reverse(cw);
    }

    /** `PlanarVertex.hasNeighbor`: some listed half-edge ends at `w`. */
    method HasNeighbor(v: nat, w: nat) returns (b: bool)
      requires Wf(Model()) && v < |vertices|
      ensures b <==> exists e :: e in Rotation(Model(), v) && Target(Model(), e) == w
    {
      var rot := Rotation(Model(), v);
      var i := 0;
      while i < |rot|
        invariant 0 <= i <= |rot|
        invariant forall j :: 0 <= j < i ==> Target(Model(), rot[j]) != w
      {
        if Target(Model(), rot[i]) == w {
          return true;
        }
        i := i + 1;
      }
      return false;
    }

    /** `PlanarVertex.getEdgeTo`: the first listed half-edge ending at `w`,
        or -1 (Java `null`). */
    method GetEdgeTo(v: nat, w: nat) returns (e: int)
      requires Wf(Model()) && v < |vertices|
      ensures e == -1 <==> !exists h :: h in Rotation(Model(), v) && Target(Model(), h) == w
      ensures e != -1 ==>
        exists i :: 0 <= i < |Rotation(Model(), v)| && Rotation(Model(), v)[i] == e &&
          Target(Model(), e) == w &&
          (forall j :: 0 <= j < i ==> Target(Model(), Rotation(Model(), v)[j]) != w)
    {
      var rot := Rotation(Model(), v);
      var i := 0;
      while i < |rot|
        invariant 0 <= i <= |rot|
        invariant forall j :: 0 <= j < i ==> Target(Model(), rot[j]) != w
      {
        if Target(Model(), rot[i]) == w {
          return rot[i];
        }
        i := i + 1;
      }
      return -1;
    }

    /** `PlanarVertex.isValid`. */
    method VertexIsValid(v: nat) returns (r: Result<bool>)
      requires Wf(Model()) && v < |vertices|
      ensures r == VertexValidity(Model(), v)
    {
      var rot := Rotation(Model(), v);
      var i := 0;
      while i < |rot|
        invariant 0 <= i <= |rot|
        invariant forall j :: 0 <= j < i ==> Start(Model(), rot[j]) == v
      {
        if Start(Model(), rot[i]) != v {
          assert !RotationStartsHere(Model(), v) by { assert rot[i] in rot; }
          return Ok(false);
        }
        i := i + 1;
      }
      assert RotationStartsHere(Model(), v) by {
        forall h | h in rot ensures Start(Model(), h) == v {
          var j :| 0 <= j < |rot| && rot[j] == h;
        }
      }
      if |rot| == 0 {
        return Throw(IndexOutOfBounds);
      }
      var current := rot[|rot| - 1];
      var k := 0;
      while k < |rot|
        invariant 0 <= k <= |rot|
        invariant current == rot[if k == 0 then |rot| - 1 else k - 1]
        invariant forall j :: 0 <= j < k ==>
          RightFace(Model(), rot[PrevPos(j, |rot|)]) == LeftFace(Model(), rot[j])
      {
        var next := rot[k];
        if RightFace(Model(), current) != LeftFace(Model(), next) {
          return Ok(false);
        }
        current := next;
        k := k + 1;
      }
      return Ok(true);
    }

    // -------------------------------------------------------------------
    // PlanarEdge

    /** `PlanarEdge.setReversedEdge`: allowed once; a second call throws
        IllegalStateException and changes nothing. */
    method SetReversedEdge(h: nat, partner: nat) returns (o: Outcome)
      requires h < |halfEdges|
      modifies this
      ensures old(halfEdges[h].partner) != NoPartner ==>
        o == Raise(IllegalState) && halfEdges == old(halfEdges)
      ensures old(halfEdges[h].partner) == NoPartner ==>
        o == Done && halfEdges == old(halfEdges)[h := old(halfEdges[h]).(partner := partner)]
      ensures vertices == old(vertices) && edges == old(edges) && faces == old(faces)
    {
      if halfEdges[h].partner != NoPartner {
        return Raise(IllegalState);
      }
      halfEdges := halfEdges[h := halfEdges[h].(partner := partner)];
      return Done;
    }

    /** `PlanarEdge.edgeFactory`: two fresh halves linked to each other,
        the returned one from `s` to `t` with `leftFace` on its left, the
        other from `t` to `s` with `rightFace` on its left, both with the
        same index.  Neither is added to any vertex, face or edge list. */
    method EdgeFactory(s: nat, t: nat, leftFace: nat, rightFace: nat, index: int) returns (h: nat)
      modifies this
      ensures h == old(|halfEdges|)
      ensures halfEdges == old(halfEdges) +
        [PlanarEdge(s, leftFace, index, h + 1), PlanarEdge(t, rightFace, index, h)]
      ensures vertices == old(vertices) && edges == old(edges) && faces == old(faces)
    {
      h := |halfEdges|;
      halfEdges := halfEdges + [PlanarEdge(s, leftFace, index, NoPartner),
                                PlanarEdge(t, rightFace, index, NoPartner)];
      var o1 := SetReversedEdge(h, h + 1);
      var o2 := SetReversedEdge(h + 1, h);
      assert o1 == Done && o2 == Done;
    }

    /** `PlanarEdge.setStart`: only this half's start changes. */
    method SetStart(h: nat, v: nat)
      requires h < |halfEdges|
      modifies this
      ensures halfEdges == old(halfEdges)[h := old(halfEdges[h]).(start := v)]
      ensures vertices == old(vertices) && edges == old(edges) && faces == old(faces)
    {
      halfEdges := halfEdges[h := halfEdges[h].(start := v)];
    }

    /** `PlanarEdge.setTarget`: only the partner's start changes. */
    method SetTarget(h: nat, v: nat)
      requires h < |halfEdges| && 0 <= halfEdges[h].partner < |halfEdges|
      modifies this
      ensures var p := old(halfEdges[h].partner);
        halfEdges == old(halfEdges)[p := old(halfEdges[p]).(start := v)]
      ensures vertices == old(vertices) && edges == old(edges) && faces == old(faces)
    {
      SetStart(halfEdges[h].partner, v);
    }

    /** `PlanarEdge.setLeftFace`. */
    method SetLeftFace(h: nat, f: nat)
      requires h < |halfEdges|
      modifies this
      ensures halfEdges == old(halfEdges)[h := old(halfEdges[h]).(leftFace := f)]
      ensures vertices == old(vertices) && edges == old(edges) && faces == old(faces)
    {
      halfEdges := halfEdges[h := halfEdges[h].(leftFace := f)];
    }

    // -------------------------------------------------------------------
    // PlanarFace: the boundary list

    /** `PlanarFace.addEdgeAtEnd`: appends and reports success. */
    method FaceAddEdgeAtEnd(f: nat, e: nat) returns (added: bool)
      requires f < |faces|
      modifies this
      ensures added
      ensures faces == old(faces)[f := PlanarFace(old(faces[f].index), old(faces[f].edges) + [e])]
      ensures vertices == old(vertices) && halfEdges == old(halfEdges) && edges == old(edges)
    {
      faces := faces[f := PlanarFace(faces[f].index, faces[f].edges + [e])];
      return true;
    }

    /** `PlanarFace.addEdgeAfter`. */
    method FaceAddEdgeAfter(f: nat, toAdd: nat, after: nat)
      requires f < |faces|
      modifies this
      ensures faces == old(faces)[f := PlanarFace(old(faces[f].index),
                InsertAfter(old(faces[f].edges), toAdd, after))]
      ensures vertices == old(vertices) && halfEdges == old(halfEdges) && edges == old(edges)
      ensures |faces[f].edges| == old(|faces[f].edges|) + 1
    {
      InsertAfterPlacement(faces[f].edges, toAdd, after);
      faces := faces[f := PlanarFace(faces[f].index, InsertAfter(faces[f].edges, toAdd, after))];
    }

    /** `Collections.reverse(face.getEdges())`. */
    method FaceReverseEdges(f: nat)
      requires f < |faces|
      modifies this
      ensures faces == old(faces)[f := PlanarFace(old(faces[f].index), Reverse(old(faces[f].edges)))]
      ensures vertices == old(vertices) && halfEdges == old(halfEdges) && edges == old(edges)
    {
      faces := faces[f := PlanarFace(faces[f].index, Reverse(faces[f].edges))];
    }

    /** `PlanarFace.removeEdge`: drops the first occurrence and reports
        whether there was one. */
    method FaceRemoveEdge(f: nat, e: nat) returns (removed: bool)
      requires f < |faces|
      modifies this
      ensures removed == (e in old(faces[f].edges))
      ensures faces == old(faces)[f := PlanarFace(old(faces[f].index), RemoveFirst(old(faces[f].edges), e))]
      ensures vertices == old(vertices) && halfEdges == old(halfEdges) && edges == old(edges)
      ensures |faces[f].edges| == old(|faces[f].edges|) - if removed then 1 else 0
    {
      RemoveFirstSpec(faces[f].edges, e);
      removed := e in faces[f].edges;
      faces := faces[f := PlanarFace(faces[f].index, RemoveFirst(faces[f].edges, e))];
    }

    /** `PlanarFace.getVertices`: the start of every boundary half-edge. */
    method FaceVertices(f: nat) returns (vs: seq<nat>)
      requires Wf(Model()) && f < |faces|
      ensures |vs| == |Boundary(Model(), f)|
      ensures forall i :: 0 <= i < |vs| ==> vs[i] == Start(Model(), Boundary(Model(), f)[i])
    {
      var bnd := Boundary(Model(), f);
      vs := [];
      var i := 0;
      while i < |bnd|
        invariant 0 <= i <= |bnd| && |vs| == i
        invariant forall j :: 0 <= j < i ==> vs[j] == Start(Model(), bnd[j])
      {
        vs := vs + [Start(Model(), bnd[i])];
        i := i + 1;
      }
    }

    /** `PlanarFace.isValid`. */
    method FaceIsValid(f: nat) returns (r: Result<bool>)
      requires Wf(Model()) && f < |faces|
      ensures r == FaceValidity(Model(), f)
    {
      var bnd := Boundary(Model(), f);
      var i := 0;
      while i < |bnd|
        invariant 0 <= i <= |bnd|
        invariant forall j :: 0 <= j < i ==> LeftFace(Model(), bnd[j]) == f
      {
        if LeftFace(Model(), bnd[i]) != f {
          assert !BoundaryLeftHere(Model(), f) by { assert bnd[i] in bnd; }
          return Ok(false);
        }
        i := i + 1;
      }
      assert BoundaryLeftHere(Model(), f) by {
        forall h | h in bnd ensures LeftFace(Model(), h) == f {
          var j :| 0 <= j < |bnd| && bnd[j] == h;
        }
      }
      if |bnd| == 0 {
        return Throw(IndexOutOfBounds);
      }
      var current: nat := bnd[|bnd| - 1];
      var k := 0;
      while k < |bnd|
        invariant 0 <= k <= |bnd| && current < |halfEdges|
        invariant FaceChainFrom(Model(), bnd, current, k) == FaceValidity(Model(), f)
        decreases |bnd| - k
      {
        var next := bnd[k];
        var prev := PreviousEdge(Model(), next);
        if prev.Throw? {
          return Throw(prev.exception);
        }
        if current != prev.value {
          return Ok(false);
        }
        var succ := NextEdge(Model(), current);
        if succ.Throw? {
          return Throw(succ.exception);
        }
        if succ.value != next {
          return Ok(false);
        }
        current := next;
        k := k + 1;
      }
      return Ok(true);
    }

    // -------------------------------------------------------------------
    // PlanarGraph checks

    /** `isTriangulated`. */
    method IsTriangulated() returns (b: bool)
      requires Wf(Model())
      ensures b <==> forall f :: 0 <= f < |faces| ==> |Boundary(Model(), f)| == 3
    {
      var i := 0;
      while i < |faces|
        invariant 0 <= i <= |faces|
        invariant forall f :: 0 <= f < i ==> |Boundary(Model(), f)| == 3
      {
        if |faces[i].edges| != 3 {
          assert |Boundary(Model(), i)| != 3;
          return false;
        }
        i := i + 1;
      }
      return true;
    }

    /** `isThreeRegular`. */
    method IsThreeRegular() returns (b: bool)
      requires Wf(Model())
      ensures b <==> forall v :: 0 <= v < |vertices| ==> |Rotation(Model(), v)| == 3
    {
      var i := 0;
      while i < |vertices|
        invariant 0 <= i <= |vertices|
        invariant forall v :: 0 <= v < i ==> |Rotation(Model(), v)| == 3
      {
        if |vertices[i].edges| != 3 {
          assert |Rotation(Model(), i)| != 3;
          return false;
        }
        i := i + 1;
      }
      return true;
    }

    /** `isValid`: vertices, then listed edges, then faces, then Euler. */
    method IsValid() returns (r: Result<bool>)
      requires Wf(Model())
      ensures r == GraphValidity(Model())
    {
      ghost var E := Model();
      var i := 0;
      while i < |vertices|
        invariant 0 <= i <= |vertices|
        invariant forall j :: 0 <= j < i ==> AllVertexValidity(E)[j] == Ok(true)
      {
        var ri := VertexIsValid(i);
        if ri != Ok(true) {
          FirstFailureAt(AllVertexValidity(E), i);
          return ri;
        }
        i := i + 1;
      }
      i := 0;
      while i < |edges|
        invariant 0 <= i <= |edges|
        invariant forall j :: 0 <= j < i ==> AllEdgeValidity(E)[j] == Ok(true)
      {
        var ri := EdgeValidity(Model(), edges[i]);
        if ri != Ok(true) {
          FirstFailureAt(AllEdgeValidity(E), i);
          return ri;
        }
        i := i + 1;
      }
      i := 0;
      while i < |faces|
        invariant 0 <= i <= |faces|
        invariant forall j :: 0 <= j < i ==> AllFaceValidity(E)[j] == Ok(true)
      {
        var ri := FaceIsValid(i);
        if ri != Ok(true) {
          FirstFailureAt(AllFaceValidity(E), i);
          return ri;
        }
        i := i + 1;
      }
      return Ok(|vertices| - |edges| + |faces| == 2);
    }
  }
}
