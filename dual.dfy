/** `createDualPlanarGraph`: the dual of a triangulated planar graph.  Every
    primal face becomes a dual vertex whose id is the face's index, every
    primal vertex a dual face whose index is the vertex's id, and primal
    edge k becomes dual edge k: it leads from the dual vertex of the face on
    the primal edge's left to that of the face on its right, and has the
    dual face of the primal target on its left.  Dual rotations are then
    read off the primal face boundaries and dual boundaries off the primal
    rotations, each reversed because the two run in opposite senses. */
module PlanarDual {
  import opened Exceptions
  import opened Lists
  import opened PlanarEmbedding
  import opened PlanarInvariants
  import opened PlanarGraphs

  // ---------------------------------------------------------------------
  // The dual as a function of the primal

  /** The four list lookups made for primal edge k (dual vertices by the
      indices of its two faces, dual faces by the ids of its two ends) stay
      inside the lists. */
  ghost predicate PairFits(E: Embedding, k: nat)
    requires Wf(E) && k < |E.edges|
  {
    var h := E.edges[k];
    && 0 <= E.faces[LeftFace(E, h)].index < |E.faces|
    && 0 <= E.faces[RightFace(E, h)].index < |E.faces|
    && 0 <= E.vertices[Target(E, h)].id < |E.vertices|
    && 0 <= E.vertices[Start(E, h)].id < |E.vertices|
  }

  ghost predicate PairsFit(E: Embedding)
    requires Wf(E)
  {
    forall k :: 0 <= k < |E.edges| ==> PairFits(E, k)
  }

  /** The dual half-edge made for primal edge k: its representative, or
      with `reversed` its partner, as `edgeFactory` creates them at
      positions 2k and 2k + 1. */
  ghost function DualHalf(E: Embedding, k: nat, reversed: bool): PlanarEdge
    requires Wf(E) && k < |E.edges| && PairFits(E, k)
  {
    var h := E.edges[k];
    if !reversed then
      PlanarEdge(E.faces[LeftFace(E, h)].index as nat, E.vertices[Target(E, h)].id as nat, Index(E, h), 2 * k + 1)
    else
      PlanarEdge(E.faces[RightFace(E, h)].index as nat, E.vertices[Start(E, h)].id as nat, Index(E, h), 2 * k)
  }

  /** The dual half-edges made for primal edges 0 .. n - 1. */
  ghost function DualPairs(E: Embedding, n: nat): (H: seq<PlanarEdge>)
    requires Wf(E) && n <= |E.edges| && forall k :: 0 <= k < n ==> PairFits(E, k)
    ensures |H| == 2 * n
    ensures forall k :: 0 <= k < n ==> H[2 * k] == DualHalf(E, k, false) && H[2 * k + 1] == DualHalf(E, k, true)
  {
    if n == 0 then []
    else DualPairs(E, n - 1) + [DualHalf(E, n - 1, false), DualHalf(E, n - 1, true)]
  }

  ghost function DualHalfEdges(E: Embedding): seq<PlanarEdge>
    requires Wf(E) && PairsFit(E)
  {
    DualPairs(E, |E.edges|)
  }

  /** The dual edge list: the representatives 0, 2, 4, ... */
  ghost function Evens(m: nat): (L: seq<nat>)
    ensures |L| == m && forall k :: 0 <= k < m ==> L[k] == 2 * k
  {
    seq(m, k requires 0 <= k < m => (2 * k) as nat)
  }

  /** The dual vertices and faces before any edge is attached. */
  ghost function DualVertices(E: Embedding): seq<PlanarVertex>
  {
    seq(|E.faces|, f requires 0 <= f < |E.faces| => PlanarVertex(E.faces[f].index, []))
  }

  ghost function DualFaces(E: Embedding): seq<PlanarFace>
  {
    seq(|E.vertices|, v requires 0 <= v < |E.vertices| => PlanarFace(E.vertices[v].id, []))
  }

  /** The indices of a list of primal half-edges. */
  ghost function Indices(E: Embedding, hs: seq<nat>): (ks: seq<int>)
    requires forall j :: 0 <= j < |hs| ==> hs[j] < |E.halfEdges|
    ensures |ks| == |hs| && forall j :: 0 <= j < |hs| ==> ks[j] == Index(E, hs[j])
  {
    seq(|hs|, j requires 0 <= j < |hs| => Index(E, hs[j]))
  }

  /** Which end of a dual half-edge is matched: its start while rotations
      are filled, its left face while boundaries are filled. */
  datatype Side = AtStart | OnLeft

  function End(e: PlanarEdge, side: Side): nat
  {
    if side == AtStart then e.start else e.leftFace
  }

  /** The dual edge list and every partner point into the half-edges. */
  ghost predicate Linked(H: seq<PlanarEdge>, L: seq<nat>)
  {
    && (forall k :: 0 <= k < |L| ==> L[k] < |H|)
    && (forall h :: 0 <= h < |H| ==> 0 <= H[h].partner < |H|)
  }

  /** `dualEdges.get(k)`, replaced by its reversed edge when it does not
      have `x` at the matched end.  A position outside the list throws
      IndexOutOfBoundsException, and neither half matching throws
      IllegalStateException. */
  ghost function Choice(H: seq<PlanarEdge>, L: seq<nat>, side: Side, x: nat, k: int): (r: Result<nat>)
    requires Linked(H, L)
    ensures r.Ok? <==> 0 <= k < |L| && (End(H[L[k]], side) == x || End(H[H[L[k]].partner], side) == x)
    ensures r.Ok? ==> r.value < |H| && End(H[r.value], side) == x && (r.value == L[k] || r.value == H[L[k]].partner)
    ensures r.Throw? ==> r.exception == (if 0 <= k < |L| then IllegalState else IndexOutOfBounds)
  {
    if k < 0 || k >= |L| then Throw(IndexOutOfBounds)
    else
      var e := L[k];
      if End(H[e], side) == x then Ok(e)
      else
        var p := H[e].partner as nat;
        if End(H[p], side) == x then Ok(p) else Throw(IllegalState)
  }

  /** The inner loop: the choices for the positions `ks`, in order, or the
      first failure. */
  ghost function Collect(H: seq<PlanarEdge>, L: seq<nat>, side: Side, x: nat, ks: seq<int>): Result<seq<nat>>
    requires Linked(H, L)
    decreases |ks|
  {
    if ks == [] then Ok([])
    else
      var front := ks[..|ks| - 1];
      match Collect(H, L, side, x, front)
      case Throw(e) => Throw(e)
      case Ok(l) =>
        match Choice(H, L, side, x, ks[|ks| - 1])
        case Throw(e) => Throw(e)
        case Ok(d) => Ok(l + [d])
  }

  /** The loop over the primal faces 0 .. i - 1: each one's boundary,
      translated to dual half-edges starting at the face's dual vertex, is
      appended to that vertex's rotation, which is then reversed. */
  ghost function RotationPhase(E: Embedding, H: seq<PlanarEdge>, L: seq<nat>, V0: seq<PlanarVertex>, i: nat)
    : Result<seq<PlanarVertex>>
    requires Wf(E) && Linked(H, L) && i <= |E.faces|
  {
    if i == 0 then Ok(V0)
    else
      match RotationPhase(E, H, L, V0, i - 1)
      case Throw(e) => Throw(e)
      case Ok(V) =>
        var dv := E.faces[i - 1].index;
        if dv < 0 || dv >= |V| then Throw(IndexOutOfBounds)
        else
          match Collect(H, L, AtStart, dv as nat, Indices(E, Boundary(E, i - 1)))
          case Throw(e) => Throw(e)
          case Ok(l) => Ok(V[dv := PlanarVertex(V[dv].id, Reverse(V[dv].edges + l))])
  }

  /** The loop over the primal vertices 0 .. i - 1: each one's rotation,
      translated to dual half-edges with the vertex's dual face on their
      left, is appended to that face's boundary, which is then reversed. */
  ghost function BoundaryPhase(E: Embedding, H: seq<PlanarEdge>, L: seq<nat>, F0: seq<PlanarFace>, i: nat)
    : Result<seq<PlanarFace>>
    requires Wf(E) && Linked(H, L) && i <= |E.vertices|
  {
    if i == 0 then Ok(F0)
    else
      match BoundaryPhase(E, H, L, F0, i - 1)
      case Throw(e) => Throw(e)
      case Ok(F) =>
        var df := E.vertices[i - 1].id;
        if df < 0 || df >= |F| then Throw(IndexOutOfBounds)
        else
          match Collect(H, L, OnLeft, df as nat, Indices(E, Rotation(E, i - 1)))
          case Throw(e) => Throw(e)
          case Ok(l) => Ok(F[df := PlanarFace(F[df].index, Reverse(F[df].edges + l))])
  }

  /** Dual half-edge i is one of the two made for primal edge i / 2. */
  lemma DualHalfAt(E: Embedding, i: nat) returns (k: nat)
    requires Wf(E) && PairsFit(E) && i < 2 * |E.edges|
    ensures k < |E.edges| && k == i / 2
    ensures i % 2 == 0 ==> i == 2 * k && DualHalfEdges(E)[i] == DualHalf(E, k, false)
    ensures i % 2 == 1 ==> i == 2 * k + 1 && DualHalfEdges(E)[i] == DualHalf(E, k, true)
  {
    k := i / 2;
  }

  /** The dual half-edges and edge list are linked. */
  lemma DualLinked(E: Embedding)
    requires Wf(E) && PairsFit(E)
    ensures Linked(DualHalfEdges(E), Evens(|E.edges|))
  {
    var H := DualHalfEdges(E);
    forall h | 0 <= h < |H| ensures 0 <= H[h].partner < |H| {
      var k := DualHalfAt(E, h);
    }
  }

  /** What `createDualPlanarGraph` returns or throws for a primal graph:
      IllegalArgumentException unless every face is a triangle, then
      IndexOutOfBoundsException if an edge's face index or vertex id is not
      a position of the dual lists, then whatever the rotation and boundary
      loops throw. */
  ghost function DualOf(E: Embedding): Result<Embedding>
    requires Wf(E)
  {
    if !Triangulated(E) then Throw(IllegalArgument)
    else if !PairsFit(E) then Throw(IndexOutOfBounds)
    else
      var H := DualHalfEdges(E);
      var L := Evens(|E.edges|);
      DualLinked(E);
      match RotationPhase(E, H, L, DualVertices(E), |E.faces|)
      case Throw(e) => Throw(e)
      case Ok(V) =>
        match BoundaryPhase(E, H, L, DualFaces(E), |E.vertices|)
        case Throw(e) => Throw(e)
        case Ok(F) => Ok(Embedding(V, H, L, F))
  }

  // ---------------------------------------------------------------------
  // The construction

  /** `createDualPlanarGraph(primal)`. */
  method CreateDualPlanarGraph(primal: PlanarGraph) returns (r: Result<PlanarGraph>)
    requires Wf(primal.Model())
    ensures r.Throw? ==> DualOf(primal.Model()) == Throw(r.exception)
    ensures r.Ok? ==> fresh(r.value) && DualOf(primal.Model()) == Ok(r.value.Model())
  {
    var triangulated := primal.IsTriangulated();
    if !triangulated {
      return Throw(IllegalArgument);
    }
    var dual := new PlanarGraph([], [], [], []);
    AddDualVerticesAndFaces(primal, dual);
    var fits := AddDualEdges(primal, dual);
    if !fits {
      return Throw(IndexOutOfBounds);
    }
    ghost var E := primal.Model();
    DualLinked(E);
    var o := AddDualRotations(primal, dual);
    if o.Raise? {
      return Throw(o.exception);
    }
    o := AddDualBoundaries(primal, dual);
    if o.Raise? {
      return Throw(o.exception);
    }
    return Ok(dual);
  }

  /** One dual vertex per primal face and one dual face per primal vertex. */
  method AddDualVerticesAndFaces(primal: PlanarGraph, dual: PlanarGraph)
    requires primal != dual && dual.Model() == Embedding([], [], [], [])
    modifies dual
    ensures dual.Model() == Embedding(DualVertices(primal.Model()), [], [], DualFaces(primal.Model()))
  {
    var i := 0;
    while i < |primal.faces|
      invariant 0 <= i <= |primal.faces|
      invariant dual.Model() == Embedding(DualVertices(primal.Model())[..i], [], [], [])
    {
      var _ := dual.NewVertex(primal.faces[i].index);
      i := i + 1;
    }
    i := 0;
    while i < |primal.vertices|
      invariant 0 <= i <= |primal.vertices|
      invariant dual.Model() == Embedding(DualVertices(primal.Model()), [], [], DualFaces(primal.Model())[..i])
    {
      var _ := dual.NewFace(primal.vertices[i].id);
      i := i + 1;
    }
  }

  /** One dual edge per primal edge, in the same order and with the same
      index; false when a lookup falls outside the dual lists. */
  method AddDualEdges(primal: PlanarGraph, dual: PlanarGraph) returns (fits: bool)
    requires primal != dual && Wf(primal.Model())
    requires dual.Model() == Embedding(DualVertices(primal.Model()), [], [], DualFaces(primal.Model()))
    modifies dual
    ensures fits <==> PairsFit(primal.Model())
    ensures fits ==> dual.Model() == Embedding(DualVertices(primal.Model()), DualHalfEdges(primal.Model()),
                                              Evens(|primal.edges|), DualFaces(primal.Model()))
  {
    var P := primal.Model();
    var k := 0;
    while k < |P.edges|
      invariant 0 <= k <= |P.edges|
      invariant forall j :: 0 <= j < k ==> PairFits(P, j)
      invariant dual.vertices == DualVertices(P) && dual.faces == DualFaces(P)
      invariant dual.halfEdges == DualPairs(P, k)
      invariant dual.edges == Evens(k)
    {
      var ok := AddDualEdge(P, dual, k);
      if !ok {
        return false;
      }
      k := k + 1;
    }
    return true;
  }

  /** Dual edge k, for primal edge k; false when one of its four lookups
      falls outside the dual lists. */
  method AddDualEdge(P: Embedding, dual: PlanarGraph, k: nat) returns (ok: bool)
    requires Wf(P) && k < |P.edges| && forall j :: 0 <= j < k ==> PairFits(P, j)
    requires dual.vertices == DualVertices(P) && dual.faces == DualFaces(P)
    requires dual.halfEdges == DualPairs(P, k) && dual.edges == Evens(k)
    modifies dual
    ensures ok <==> PairFits(P, k)
    ensures dual.vertices == DualVertices(P) && dual.faces == DualFaces(P)
    ensures ok ==> dual.halfEdges == DualPairs(P, k + 1) && dual.edges == Evens(k + 1)
  {
    var h := P.edges[k];
    var start := P.faces[LeftFace(P, h)].index;
    var target := P.faces[RightFace(P, h)].index;
    var leftFace := P.vertices[Target(P, h)].id;
    var rightFace := P.vertices[Start(P, h)].id;
    if !(0 <= start < |dual.vertices| && 0 <= target < |dual.vertices| &&
         0 <= leftFace < |dual.faces| && 0 <= rightFace < |dual.faces|) {
      return false;
    }
    var e := dual.EdgeFactory(start, target, leftFace, rightFace, Index(P, h));
    dual.AddEdge(e);
    assert Evens(k) + [2 * k] == Evens(k + 1);
    return true;
  }

  /** The loop over the primal faces, filling the dual rotations. */
  method AddDualRotations(primal: PlanarGraph, dual: PlanarGraph) returns (o: Outcome)
    requires primal != dual && Wf(primal.Model())
    requires Linked(dual.halfEdges, dual.edges)
    requires dual.vertices == DualVertices(primal.Model())
    modifies dual
    ensures dual.halfEdges == old(dual.halfEdges) && dual.edges == old(dual.edges) && dual.faces == old(dual.faces)
    ensures var R := RotationPhase(primal.Model(), dual.halfEdges, dual.edges, DualVertices(primal.Model()), |primal.faces|);
      && (o.Raise? <==> R.Throw?)
      && (o.Raise? ==> o.exception == R.exception)
      && (R.Ok? ==> dual.vertices == R.value)
  {
    var P := primal.Model();
    ghost var V0 := dual.vertices;
    var i := 0;
    while i < |P.faces|
      invariant 0 <= i <= |P.faces|
      invariant dual.halfEdges == old(dual.halfEdges) && dual.edges == old(dual.edges) && dual.faces == old(dual.faces)
      invariant RotationPhase(P, dual.halfEdges, dual.edges, V0, i) == Ok(dual.vertices)
    {
      o := AddDualRotation(P, dual, i, V0);
      if o.Raise? {
        RotationPhaseStops(P, dual.halfEdges, dual.edges, V0, i + 1);
        return;
      }
      i := i + 1;
    }
    return Done;
  }

  /** One pass of the face loop: primal face i fills the rotation of its
      dual vertex, which is then reversed. */
  method AddDualRotation(P: Embedding, dual: PlanarGraph, i: nat, ghost V0: seq<PlanarVertex>) returns (o: Outcome)
    requires Wf(P) && i < |P.faces| && Linked(dual.halfEdges, dual.edges)
    requires RotationPhase(P, dual.halfEdges, dual.edges, V0, i) == Ok(dual.vertices)
    modifies dual
    ensures dual.halfEdges == old(dual.halfEdges) && dual.edges == old(dual.edges) && dual.faces == old(dual.faces)
    ensures var R := RotationPhase(P, dual.halfEdges, dual.edges, V0, i + 1);
      && (o.Raise? <==> R.Throw?)
      && (o.Raise? ==> o.exception == R.exception)
      && (R.Ok? ==> dual.vertices == R.value)
  {
    var dv := P.faces[i].index;
    RotationNext(P, dual.halfEdges, dual.edges, V0, i);
    if dv < 0 || dv >= |dual.vertices| {
      return Raise(IndexOutOfBounds);
    }
    ghost var V := dual.vertices;
    ghost var C := Collect(dual.halfEdges, dual.edges, AtStart, dv, Indices(P, Boundary(P, i)));
    o := FillRotation(P, dual, i, dv);
    if o.Raise? {
      return;
    }
    assert dual.vertices == V[dv := PlanarVertex(V[dv].id, V[dv].edges + C.value)];
    dual.VertexReverseEdges(dv);
    assert dual.vertices == V[dv := PlanarVertex(V[dv].id, Reverse(V[dv].edges + C.value))];
  }

  /** The inner loop for primal face f: its boundary's dual half-edges that
      start at dual vertex dv are appended to dv's rotation. */
  method FillRotation(P: Embedding, dual: PlanarGraph, f: nat, dv: nat) returns (o: Outcome)
    requires Wf(P) && f < |P.faces| && dv < |dual.vertices|
    requires Linked(dual.halfEdges, dual.edges)
    modifies dual
    ensures dual.halfEdges == old(dual.halfEdges) && dual.edges == old(dual.edges) && dual.faces == old(dual.faces)
    ensures var C := Collect(dual.halfEdges, dual.edges, AtStart, dv, Indices(P, Boundary(P, f)));
      && (o.Raise? <==> C.Throw?)
      && (o.Raise? ==> o.exception == C.exception)
      && (C.Ok? ==> dual.vertices == old(dual.vertices)[dv := PlanarVertex(old(dual.vertices[dv].id),
                                                         old(dual.vertices[dv].edges) + C.value)])
  {
    var bnd := Boundary(P, f);
    ghost var ks := Indices(P, bnd);
    ghost var l: seq<nat> := [];
    assert old(dual.vertices[dv].edges) + l == old(dual.vertices[dv].edges);
    var j := 0;
    while j < |bnd|
      invariant 0 <= j <= |bnd|
      invariant dual.halfEdges == old(dual.halfEdges) && dual.edges == old(dual.edges) && dual.faces == old(dual.faces)
      invariant Collect(dual.halfEdges, dual.edges, AtStart, dv, ks[..j]) == Ok(l)
      invariant dual.vertices == old(dual.vertices)[dv := PlanarVertex(old(dual.vertices[dv].id),
                                                         old(dual.vertices[dv].edges) + l)]
    {
      var k := Index(P, bnd[j]);
      CollectNext(dual.halfEdges, dual.edges, AtStart, dv, ks, j);
      if k < 0 || k >= |dual.edges| {
        CollectStops(dual.halfEdges, dual.edges, AtStart, dv, ks, j + 1);
        return Raise(IndexOutOfBounds);
      }
      var de := dual.edges[k];
      if dual.halfEdges[de].start != dv {
        de := dual.halfEdges[de].partner as nat;
      }
      if dual.halfEdges[de].start != dv {
        CollectStops(dual.halfEdges, dual.edges, AtStart, dv, ks, j + 1);
        return Raise(IllegalState);
      }
      assert ks[j] == k && Choice(dual.halfEdges, dual.edges, AtStart, dv, k) == Ok(de);
      assert old(dual.vertices[dv].edges) + l + [de] == old(dual.vertices[dv].edges) + (l + [de]);
      dual.VertexAddEdgeAtEnd(dv, de);
      l := l + [de];
      j := j + 1;
    }
    assert ks[..|bnd|] == ks;
    return Done;
  }

  /** The loop over the primal vertices, filling the dual boundaries. */
  method AddDualBoundaries(primal: PlanarGraph, dual: PlanarGraph) returns (o: Outcome)
    requires primal != dual && Wf(primal.Model())
    requires Linked(dual.halfEdges, dual.edges)
    requires dual.faces == DualFaces(primal.Model())
    modifies dual
    ensures dual.halfEdges == old(dual.halfEdges) && dual.edges == old(dual.edges) && dual.vertices == old(dual.vertices)
    ensures var R := BoundaryPhase(primal.Model(), dual.halfEdges, dual.edges, DualFaces(primal.Model()), |primal.vertices|);
      && (o.Raise? <==> R.Throw?)
      && (o.Raise? ==> o.exception == R.exception)
      && (R.Ok? ==> dual.faces == R.value)
  {
    var P := primal.Model();
    ghost var F0 := dual.faces;
    var i := 0;
    while i < |P.vertices|
      invariant 0 <= i <= |P.vertices|
      invariant dual.halfEdges == old(dual.halfEdges) && dual.edges == old(dual.edges) && dual.vertices == old(dual.vertices)
      invariant BoundaryPhase(P, dual.halfEdges, dual.edges, F0, i) == Ok(dual.faces)
    {
      o := AddDualBoundary(P, dual, i, F0);
      if o.Raise? {
        BoundaryPhaseStops(P, dual.halfEdges, dual.edges, F0, i + 1);
        return;
      }
      i := i + 1;
    }
    return Done;
  }

  /** One pass of the vertex loop: primal vertex i fills the boundary of
      its dual face, which is then reversed. */
  method AddDualBoundary(P: Embedding, dual: PlanarGraph, i: nat, ghost F0: seq<PlanarFace>) returns (o: Outcome)
    requires Wf(P) && i < |P.vertices| && Linked(dual.halfEdges, dual.edges)
    requires BoundaryPhase(P, dual.halfEdges, dual.edges, F0, i) == Ok(dual.faces)
    modifies dual
    ensures dual.halfEdges == old(dual.halfEdges) && dual.edges == old(dual.edges) && dual.vertices == old(dual.vertices)
    ensures var R := BoundaryPhase(P, dual.halfEdges, dual.edges, F0, i + 1);
      && (o.Raise? <==> R.Throw?)
      && (o.Raise? ==> o.exception == R.exception)
      && (R.Ok? ==> dual.faces == R.value)
  {
    var df := P.vertices[i].id;
    BoundaryNext(P, dual.halfEdges, dual.edges, F0, i);
    if df < 0 || df >= |dual.faces| {
      return Raise(IndexOutOfBounds);
    }
    ghost var F := dual.faces;
    ghost var C := Collect(dual.halfEdges, dual.edges, OnLeft, df, Indices(P, Rotation(P, i)));
    o := FillBoundary(P, dual, i, df);
    if o.Raise? {
      return;
    }
    assert dual.faces == F[df := PlanarFace(F[df].index, F[df].edges + C.value)];
    dual.FaceReverseEdges(df);
    assert dual.faces == F[df := PlanarFace(F[df].index, Reverse(F[df].edges + C.value))];
  }

  /** The inner loop for primal vertex v: its rotation's dual half-edges
      that have dual face df on their left are appended to df's boundary. */
  method FillBoundary(P: Embedding, dual: PlanarGraph, v: nat, df: nat) returns (o: Outcome)
    requires Wf(P) && v < |P.vertices| && df < |dual.faces|
    requires Linked(dual.halfEdges, dual.edges)
    modifies dual
    ensures dual.halfEdges == old(dual.halfEdges) && dual.edges == old(dual.edges) && dual.vertices == old(dual.vertices)
    ensures var C := Collect(dual.halfEdges, dual.edges, OnLeft, df, Indices(P, Rotation(P, v)));
      && (o.Raise? <==> C.Throw?)
      && (o.Raise? ==> o.exception == C.exception)
      && (C.Ok? ==> dual.faces == old(dual.faces)[df := PlanarFace(old(dual.faces[df].index),
                                                      old(dual.faces[df].edges) + C.value)])
  {
    var rot := Rotation(P, v);
    ghost var ks := Indices(P, rot);
    ghost var l: seq<nat> := [];
    assert old(dual.faces[df].edges) + l == old(dual.faces[df].edges);
    var j := 0;
    while j < |rot|
      invariant 0 <= j <= |rot|
      invariant dual.halfEdges == old(dual.halfEdges) && dual.edges == old(dual.edges) && dual.vertices == old(dual.vertices)
      invariant Collect(dual.halfEdges, dual.edges, OnLeft, df, ks[..j]) == Ok(l)
      invariant dual.faces == old(dual.faces)[df := PlanarFace(old(dual.faces[df].index),
                                                      old(dual.faces[df].edges) + l)]
    {
      var k := Index(P, rot[j]);
      CollectNext(dual.halfEdges, dual.edges, OnLeft, df, ks, j);
      if k < 0 || k >= |dual.edges| {
        CollectStops(dual.halfEdges, dual.edges, OnLeft, df, ks, j + 1);
        return Raise(IndexOutOfBounds);
      }
      var de := dual.edges[k];
      if dual.halfEdges[de].leftFace != df {
        de := dual.halfEdges[de].partner as nat;
      }
      if dual.halfEdges[de].leftFace != df {
        CollectStops(dual.halfEdges, dual.edges, OnLeft, df, ks, j + 1);
        return Raise(IllegalState);
      }
      assert ks[j] == k && Choice(dual.halfEdges, dual.edges, OnLeft, df, k) == Ok(de);
      assert old(dual.faces[df].edges) + l + [de] == old(dual.faces[df].edges) + (l + [de]);
      var _ := dual.FaceAddEdgeAtEnd(df, de);
      l := l + [de];
      j := j + 1;
    }
    assert ks[..|rot|] == ks;
    return Done;
  }

  // ---------------------------------------------------------------------
  // Failures propagate

  /** Once a prefix of the positions fails, the whole list fails with the
      same exception. */
  lemma {:induction false} CollectStops(H: seq<PlanarEdge>, L: seq<nat>, side: Side, x: nat, ks: seq<int>, n: nat)
    requires Linked(H, L) && n <= |ks|
    requires Collect(H, L, side, x, ks[..n]).Throw?
    ensures Collect(H, L, side, x, ks) == Collect(H, L, side, x, ks[..n])
    decreases |ks| - n
  {
    if n < |ks| {
      assert ks[..n + 1][..n] == ks[..n];
      CollectStops(H, L, side, x, ks, n + 1);
    } else {
      assert ks[..n] == ks;
    }
  }

  /** A failure in the face loop ends the rotation phase with it. */
  lemma {:induction false} RotationPhaseStops(E: Embedding, H: seq<PlanarEdge>, L: seq<nat>, V0: seq<PlanarVertex>, n: nat)
    requires Wf(E) && Linked(H, L) && n <= |E.faces|
    requires RotationPhase(E, H, L, V0, n).Throw?
    ensures RotationPhase(E, H, L, V0, |E.faces|) == RotationPhase(E, H, L, V0, n)
    decreases |E.faces| - n
  {
    if n < |E.faces| {
      RotationPhaseStops(E, H, L, V0, n + 1);
    }
  }

  /** A failure in the vertex loop ends the boundary phase with it. */
  lemma {:induction false} BoundaryPhaseStops(E: Embedding, H: seq<PlanarEdge>, L: seq<nat>, F0: seq<PlanarFace>, n: nat)
    requires Wf(E) && Linked(H, L) && n <= |E.vertices|
    requires BoundaryPhase(E, H, L, F0, n).Throw?
    ensures BoundaryPhase(E, H, L, F0, |E.vertices|) == BoundaryPhase(E, H, L, F0, n)
    decreases |E.vertices| - n
  {
    if n < |E.vertices| {
      BoundaryPhaseStops(E, H, L, F0, n + 1);
    }
  }

  /** One more position of the inner loop. */
  lemma CollectNext(H: seq<PlanarEdge>, L: seq<nat>, side: Side, x: nat, ks: seq<int>, j: nat)
    requires Linked(H, L) && j < |ks| && Collect(H, L, side, x, ks[..j]).Ok?
    ensures var c := Choice(H, L, side, x, ks[j]);
      Collect(H, L, side, x, ks[..j + 1])
        == if c.Ok? then Ok(Collect(H, L, side, x, ks[..j]).value + [c.value]) else Throw(c.exception)
  {
    assert ks[..j + 1][..j] == ks[..j];
  }

  /** One more primal face of the rotation phase. */
  lemma RotationNext(E: Embedding, H: seq<PlanarEdge>, L: seq<nat>, V0: seq<PlanarVertex>, i: nat)
    requires Wf(E) && Linked(H, L) && i < |E.faces| && RotationPhase(E, H, L, V0, i).Ok?
    ensures var V := RotationPhase(E, H, L, V0, i).value;
      var dv := E.faces[i].index;
      RotationPhase(E, H, L, V0, i + 1)
        == if dv < 0 || dv >= |V| then Throw(IndexOutOfBounds)
           else
             var C := Collect(H, L, AtStart, dv as nat, Indices(E, Boundary(E, i)));
             if C.Throw? then Throw(C.exception) else Ok(V[dv := PlanarVertex(V[dv].id, Reverse(V[dv].edges + C.value))])
  {
  }

  /** One more primal vertex of the boundary phase. */
  lemma BoundaryNext(E: Embedding, H: seq<PlanarEdge>, L: seq<nat>, F0: seq<PlanarFace>, i: nat)
    requires Wf(E) && Linked(H, L) && i < |E.vertices| && BoundaryPhase(E, H, L, F0, i).Ok?
    ensures var F := BoundaryPhase(E, H, L, F0, i).value;
      var df := E.vertices[i].id;
      BoundaryPhase(E, H, L, F0, i + 1)
        == if df < 0 || df >= |F| then Throw(IndexOutOfBounds)
           else
             var C := Collect(H, L, OnLeft, df as nat, Indices(E, Rotation(E, i)));
             if C.Throw? then Throw(C.exception) else Ok(F[df := PlanarFace(F[df].index, Reverse(F[df].edges + C.value))])
  {
  }

  // ---------------------------------------------------------------------
  // What the inner loop and the phases compute

  /** The inner loop succeeds exactly when every position has a matching
      half, and then lists those halves in order; a failure is the failure
      of some position. */
  lemma {:induction false} CollectMeaning(H: seq<PlanarEdge>, L: seq<nat>, side: Side, x: nat, ks: seq<int>)
    requires Linked(H, L)
    ensures Collect(H, L, side, x, ks).Ok? <==> forall j :: 0 <= j < |ks| ==> Choice(H, L, side, x, ks[j]).Ok?
    ensures Collect(H, L, side, x, ks).Ok? ==>
              var l := Collect(H, L, side, x, ks).value;
              |l| == |ks| && forall j :: 0 <= j < |ks| ==> Choice(H, L, side, x, ks[j]) == Ok(l[j])
    ensures Collect(H, L, side, x, ks).Throw? ==>
              exists j :: 0 <= j < |ks| && Choice(H, L, side, x, ks[j]) == Throw(Collect(H, L, side, x, ks).exception)
    decreases |ks|
  {
    if ks != [] {
      var front := ks[..|ks| - 1];
      CollectMeaning(H, L, side, x, front);
      assert forall j :: 0 <= j < |front| ==> front[j] == ks[j];
      match Collect(H, L, side, x, front)
      case Throw(e) =>
        var j :| 0 <= j < |front| && Choice(H, L, side, x, front[j]) == Throw(e);
        assert Choice(H, L, side, x, ks[j]) == Throw(e);
      case Ok(l) =>
    }
  }

  /** Every entry V lists for dual vertex f was already listed in V0 or
      is a half-edge starting at f. */
  ghost predicate RotationsGrown(H: seq<PlanarEdge>, V0: seq<PlanarVertex>, V: seq<PlanarVertex>)
  {
    forall f :: 0 <= f < |V| && f < |V0| ==>
      forall h :: h in V[f].edges ==> h in V0[f].edges || (h < |H| && H[h].start == f)
  }

  /** Every entry F lists for dual face v was already listed in F0 or is a
      half-edge with v on its left. */
  ghost predicate BoundariesGrown(H: seq<PlanarEdge>, F0: seq<PlanarFace>, F: seq<PlanarFace>)
  {
    forall v :: 0 <= v < |F| && v < |F0| ==>
      forall h :: h in F[v].edges ==> h in F0[v].edges || (h < |H| && H[h].leftFace == v)
  }

  /** The rotation phase keeps the vertex count and ids, adds only dual
      half-edges that start at the vertex they are listed at, and throws
      only IndexOutOfBounds or IllegalState. */
  lemma {:induction false} RotationPhaseShape(E: Embedding, H: seq<PlanarEdge>, L: seq<nat>, V0: seq<PlanarVertex>, i: nat)
    requires Wf(E) && Linked(H, L) && i <= |E.faces|
    ensures var r := RotationPhase(E, H, L, V0, i);
      r.Ok? ==> |r.value| == |V0| && forall f :: 0 <= f < |V0| ==> r.value[f].id == V0[f].id
    ensures var r := RotationPhase(E, H, L, V0, i);
      r.Ok? ==> RotationsGrown(H, V0, r.value)
    ensures var r := RotationPhase(E, H, L, V0, i);
      r.Throw? ==> r.exception == IndexOutOfBounds || r.exception == IllegalState
  {
    if i > 0 {
      RotationPhaseShape(E, H, L, V0, i - 1);
      match RotationPhase(E, H, L, V0, i - 1)
      case Throw(e) =>
      case Ok(V) =>
        var dv := E.faces[i - 1].index;
        if 0 <= dv < |V| {
          var ks := Indices(E, Boundary(E, i - 1));
          CollectMeaning(H, L, AtStart, dv as nat, ks);
          match Collect(H, L, AtStart, dv as nat, ks)
          case Throw(e) =>
            var j :| 0 <= j < |ks| && Choice(H, L, AtStart, dv as nat, ks[j]) == Throw(e);
          case Ok(l) =>
            var W := V[dv := PlanarVertex(V[dv].id, Reverse(V[dv].edges + l))];
            ReverseMembers(V[dv].edges + l);
            forall f, h | 0 <= f < |V0| && h in W[f].edges
              ensures h in V0[f].edges || (h < |H| && H[h].start == f)
            {
              if f == dv && h !in V[dv].edges {
                var j :| 0 <= j < |l| && l[j] == h;
                assert Choice(H, L, AtStart, dv as nat, ks[j]) == Ok(h);
              }
            }
        }
    }
  }

  /** The boundary phase keeps the face count and indices, adds only dual
      half-edges that have the listing face on their left, and throws only
      IndexOutOfBounds or IllegalState. */
  lemma {:induction false} BoundaryPhaseShape(E: Embedding, H: seq<PlanarEdge>, L: seq<nat>, F0: seq<PlanarFace>, i: nat)
    requires Wf(E) && Linked(H, L) && i <= |E.vertices|
    ensures var r := BoundaryPhase(E, H, L, F0, i);
      r.Ok? ==> |r.value| == |F0| && forall v :: 0 <= v < |F0| ==> r.value[v].index == F0[v].index
    ensures var r := BoundaryPhase(E, H, L, F0, i);
      r.Ok? ==> BoundariesGrown(H, F0, r.value)
    ensures var r := BoundaryPhase(E, H, L, F0, i);
      r.Throw? ==> r.exception == IndexOutOfBounds || r.exception == IllegalState
  {
    if i > 0 {
      BoundaryPhaseShape(E, H, L, F0, i - 1);
      match BoundaryPhase(E, H, L, F0, i - 1)
      case Throw(e) =>
      case Ok(F) =>
        var df := E.vertices[i - 1].id;
        if 0 <= df < |F| {
          var ks := Indices(E, Rotation(E, i - 1));
          CollectMeaning(H, L, OnLeft, df as nat, ks);
          match Collect(H, L, OnLeft, df as nat, ks)
          case Throw(e) =>
            var j :| 0 <= j < |ks| && Choice(H, L, OnLeft, df as nat, ks[j]) == Throw(e);
          case Ok(l) =>
            var W := F[df := PlanarFace(F[df].index, Reverse(F[df].edges + l))];
            ReverseMembers(F[df].edges + l);
            forall v, h | 0 <= v < |F0| && h in W[v].edges
              ensures h in F0[v].edges || (h < |H| && H[h].leftFace == v)
            {
              if v == df && h !in F[df].edges {
                var j :| 0 <= j < |l| && l[j] == h;
                assert Choice(H, L, OnLeft, df as nat, ks[j]) == Ok(h);
              }
            }
        }
    }
  }

  /** After the faces 0 .. i - 1: dual vertex f < i lists the reversed
      choices for face f, and the others are still empty. */
  ghost predicate RotationsFilled(E: Embedding, H: seq<PlanarEdge>, L: seq<nat>, V: seq<PlanarVertex>, i: nat)
    requires Wf(E) && Linked(H, L) && i <= |E.faces|
  {
    && |V| == |E.faces|
    && (forall f: nat :: f < i ==>
          var C := Collect(H, L, AtStart, f, Indices(E, Boundary(E, f)));
          C.Ok? && V[f] == PlanarVertex(f, Reverse(C.value)))
    && (forall f :: i <= f < |V| ==> V[f] == PlanarVertex(f, []))
  }

  /** Every face among 0 .. i - 1 has a matching half for each boundary entry. */
  ghost predicate FacesCollect(E: Embedding, H: seq<PlanarEdge>, L: seq<nat>, i: nat)
    requires Wf(E) && Linked(H, L) && i <= |E.faces|
  {
    forall f: nat :: f < i ==> Collect(H, L, AtStart, f, Indices(E, Boundary(E, f))).Ok?
  }

  /** Filling dual vertex i with the reversed choices for face i. */
  lemma RotationsFilledNext(E: Embedding, H: seq<PlanarEdge>, L: seq<nat>, V: seq<PlanarVertex>, i: nat)
    requires Wf(E) && Linked(H, L) && i < |E.faces| && RotationsFilled(E, H, L, V, i)
    requires Collect(H, L, AtStart, i, Indices(E, Boundary(E, i))).Ok?
    ensures RotationsFilled(E, H, L, V[i := PlanarVertex(i, Reverse(Collect(H, L, AtStart, i, Indices(E, Boundary(E, i))).value))], i + 1)
  {
    var W := V[i := PlanarVertex(i, Reverse(Collect(H, L, AtStart, i, Indices(E, Boundary(E, i))).value))];
    forall f: nat | f < i
      ensures var C := Collect(H, L, AtStart, f, Indices(E, Boundary(E, f)));
        C.Ok? && W[f] == PlanarVertex(f, Reverse(C.value))
    {
      assert W[f] == V[f];
    }
  }

  /** With face indices equal to positions, face f writes dual vertex f
      only: the rotation phase over faces 0 .. i - 1 succeeds exactly when
      each of their inner loops does, and then fills the dual vertices. */
  lemma {:induction false} RotationPhaseForm(E: Embedding, H: seq<PlanarEdge>, L: seq<nat>, i: nat)
    requires Wf(E) && Linked(H, L) && IdsArePositions(E) && i <= |E.faces|
    ensures RotationPhase(E, H, L, DualVertices(E), i).Ok? <==> FacesCollect(E, H, L, i)
    ensures RotationPhase(E, H, L, DualVertices(E), i).Ok? ==>
              RotationsFilled(E, H, L, RotationPhase(E, H, L, DualVertices(E), i).value, i)
  {
    if i == 0 {
      var V := DualVertices(E);
      forall f | 0 <= f < |V| ensures V[f] == PlanarVertex(f, []) {
        assert E.faces[f].index == f;
      }
    } else {
      RotationPhaseForm(E, H, L, i - 1);
      var f := i - 1;
      if RotationPhase(E, H, L, DualVertices(E), f).Ok? {
        var V := RotationPhase(E, H, L, DualVertices(E), f).value;
        RotationNext(E, H, L, DualVertices(E), f);
        assert E.faces[f].index == f && V[f] == PlanarVertex(f, []);
        var C := Collect(H, L, AtStart, f, Indices(E, Boundary(E, f)));
        if C.Ok? {
          assert V[f].edges + C.value == C.value;
          RotationsFilledNext(E, H, L, V, f);
        }
      }
    }
  }

  /** After the vertices 0 .. i - 1: dual face v < i lists the reversed
      choices for vertex v, and the others are still empty. */
  ghost predicate BoundariesFilled(E: Embedding, H: seq<PlanarEdge>, L: seq<nat>, F: seq<PlanarFace>, i: nat)
    requires Wf(E) && Linked(H, L) && i <= |E.vertices|
  {
    && |F| == |E.vertices|
    && (forall v: nat :: v < i ==>
          var C := Collect(H, L, OnLeft, v, Indices(E, Rotation(E, v)));
          C.Ok? && F[v] == PlanarFace(v, Reverse(C.value)))
    && (forall v :: i <= v < |F| ==> F[v] == PlanarFace(v, []))
  }

  /** Every vertex among 0 .. i - 1 has a matching half for each rotation entry. */
  ghost predicate VerticesCollect(E: Embedding, H: seq<PlanarEdge>, L: seq<nat>, i: nat)
    requires Wf(E) && Linked(H, L) && i <= |E.vertices|
  {
    forall v: nat :: v < i ==> Collect(H, L, OnLeft, v, Indices(E, Rotation(E, v))).Ok?
  }

  /** Filling dual face i with the reversed choices for vertex i. */
  lemma BoundariesFilledNext(E: Embedding, H: seq<PlanarEdge>, L: seq<nat>, F: seq<PlanarFace>, i: nat)
    requires Wf(E) && Linked(H, L) && i < |E.vertices| && BoundariesFilled(E, H, L, F, i)
    requires Collect(H, L, OnLeft, i, Indices(E, Rotation(E, i))).Ok?
    ensures BoundariesFilled(E, H, L, F[i := PlanarFace(i, Reverse(Collect(H, L, OnLeft, i, Indices(E, Rotation(E, i))).value))], i + 1)
  {
    var W := F[i := PlanarFace(i, Reverse(Collect(H, L, OnLeft, i, Indices(E, Rotation(E, i))).value))];
    forall v: nat | v < i
      ensures var C := Collect(H, L, OnLeft, v, Indices(E, Rotation(E, v)));
        C.Ok? && W[v] == PlanarFace(v, Reverse(C.value))
    {
      assert W[v] == F[v];
    }
  }

  /** The boundary phase, likewise, with vertex ids equal to positions. */
  lemma {:induction false} BoundaryPhaseForm(E: Embedding, H: seq<PlanarEdge>, L: seq<nat>, i: nat)
    requires Wf(E) && Linked(H, L) && IdsArePositions(E) && i <= |E.vertices|
    ensures BoundaryPhase(E, H, L, DualFaces(E), i).Ok? <==> VerticesCollect(E, H, L, i)
    ensures BoundaryPhase(E, H, L, DualFaces(E), i).Ok? ==>
              BoundariesFilled(E, H, L, BoundaryPhase(E, H, L, DualFaces(E), i).value, i)
  {
    if i == 0 {
      var F := DualFaces(E);
      forall v | 0 <= v < |F| ensures F[v] == PlanarFace(v, []) {
        assert E.vertices[v].id == v;
      }
    } else {
      BoundaryPhaseForm(E, H, L, i - 1);
      var v := i - 1;
      if BoundaryPhase(E, H, L, DualFaces(E), v).Ok? {
        var F := BoundaryPhase(E, H, L, DualFaces(E), v).value;
        BoundaryNext(E, H, L, DualFaces(E), v);
        assert E.vertices[v].id == v && F[v] == PlanarFace(v, []);
        var C := Collect(H, L, OnLeft, v, Indices(E, Rotation(E, v)));
        if C.Ok? {
          assert F[v].edges + C.value == C.value;
          BoundariesFilledNext(E, H, L, F, v);
        }
      }
    }
  }

  // ---------------------------------------------------------------------
  // Properties of the dual

  /** What a successful `DualOf` consists of. */
  lemma DualOfParts(E: Embedding)
    requires Wf(E) && DualOf(E).Ok?
    ensures Triangulated(E) && PairsFit(E) && Linked(DualHalfEdges(E), Evens(|E.edges|))
    ensures RotationPhase(E, DualHalfEdges(E), Evens(|E.edges|), DualVertices(E), |E.faces|).Ok?
    ensures BoundaryPhase(E, DualHalfEdges(E), Evens(|E.edges|), DualFaces(E), |E.vertices|).Ok?
    ensures DualOf(E).value == Embedding(
              RotationPhase(E, DualHalfEdges(E), Evens(|E.edges|), DualVertices(E), |E.faces|).value,
              DualHalfEdges(E), Evens(|E.edges|),
              BoundaryPhase(E, DualHalfEdges(E), Evens(|E.edges|), DualFaces(E), |E.vertices|).value)
  {
    DualLinked(E);
  }

  /** When face indices and vertex ids are positions, every lookup fits. */
  lemma IdsFit(E: Embedding)
    requires Wf(E) && IdsArePositions(E)
    ensures PairsFit(E)
  {
    forall k | 0 <= k < |E.edges| ensures PairFits(E, k) {
      var h := E.edges[k];
      assert E.faces[LeftFace(E, h)].index == LeftFace(E, h);
      assert E.faces[RightFace(E, h)].index == RightFace(E, h);
      assert E.vertices[Target(E, h)].id == Target(E, h);
      assert E.vertices[Start(E, h)].id == Start(E, h);
    }
  }

  /** The half chosen for primal edge k carries index k. */
  lemma ChosenIndex(E: Embedding, side: Side, x: nat, k: int, c: nat)
    requires Wf(E) && Layout(E) && PairsFit(E) && Linked(DualHalfEdges(E), Evens(|E.edges|))
    requires Choice(DualHalfEdges(E), Evens(|E.edges|), side, x, k) == Ok(c)
    ensures DualHalfEdges(E)[c].index == k
  {
    assert 0 <= k < |E.edges| && E.edges[k] == 2 * k;
    assert c == 2 * k || c == 2 * k + 1;
    assert Index(E, 2 * k) == k;
  }

  /** A successful inner loop over the indices of hs lists, position by
      position, dual halves carrying those indices. */
  lemma ChosenIndices(E: Embedding, side: Side, x: nat, hs: seq<nat>)
    requires Wf(E) && Layout(E) && PairsFit(E) && Linked(DualHalfEdges(E), Evens(|E.edges|))
    requires forall j :: 0 <= j < |hs| ==> hs[j] < |E.halfEdges|
    requires Collect(DualHalfEdges(E), Evens(|E.edges|), side, x, Indices(E, hs)).Ok?
    ensures var H := DualHalfEdges(E); var C := Collect(H, Evens(|E.edges|), side, x, Indices(E, hs)).value;
      && |C| == |hs|
      && forall j :: 0 <= j < |hs| ==> C[j] < |H| && H[C[j]].index == Index(E, hs[j])
  {
    var H := DualHalfEdges(E);
    var L := Evens(|E.edges|);
    var ks := Indices(E, hs);
    CollectMeaning(H, L, side, x, ks);
    var C := Collect(H, L, side, x, ks).value;
    forall j | 0 <= j < |hs| ensures C[j] < |H| && H[C[j]].index == Index(E, hs[j]) {
      assert Choice(H, L, side, x, ks[j]) == Ok(C[j]);
      ChosenIndex(E, side, x, ks[j], C[j]);
    }
  }

  /** Reversing a list of halves that carry the indices of src lists
      halves carrying those indices in reverse order. */
  lemma ReversedIndices(E: Embedding, D: Embedding, src: seq<nat>, C: seq<nat>)
    requires forall j :: 0 <= j < |src| ==> src[j] < |E.halfEdges|
    requires |C| == |src|
    requires forall j :: 0 <= j < |src| ==> C[j] < |D.halfEdges| && D.halfEdges[C[j]].index == Index(E, src[j])
    ensures var R := Reverse(C);
      && |R| == |src|
      && forall j :: 0 <= j < |src| ==> R[j] < |D.halfEdges| && Index(D, R[j]) == Index(E, src[|src| - 1 - j])
  {
  }

  /** A boundary entry of primal face f finds a dual half starting at f. */
  lemma ChoiceAtFace(E: Embedding, f: nat, e: nat)
    requires Wf(E) && Layout(E) && IdsArePositions(E) && BoundariesOk(E) && PairsFit(E)
    requires f < |E.faces| && e in Boundary(E, f)
    requires Linked(DualHalfEdges(E), Evens(|E.edges|))
    ensures Choice(DualHalfEdges(E), Evens(|E.edges|), AtStart, f, Index(E, e)).Ok?
  {
    var H := DualHalfEdges(E);
    var k := e / 2;
    assert Index(E, e) == k && E.edges[k] == 2 * k;
    assert BoundaryLeftHere(E, f);
    assert LeftFace(E, e) == f;
    if e % 2 == 0 {
      assert H[2 * k].start == LeftFace(E, 2 * k);
    } else {
      assert H[2 * k].partner == 2 * k + 1;
      assert Twin(E, 2 * k) == e;
      assert H[2 * k + 1].start == RightFace(E, 2 * k);
    }
  }

  /** A rotation entry of primal vertex v finds a dual half with v on its left. */
  lemma ChoiceAtVertex(E: Embedding, v: nat, e: nat)
    requires Wf(E) && Layout(E) && IdsArePositions(E) && RotationsOk(E) && PairsFit(E)
    requires v < |E.vertices| && e in Rotation(E, v)
    requires Linked(DualHalfEdges(E), Evens(|E.edges|))
    ensures Choice(DualHalfEdges(E), Evens(|E.edges|), OnLeft, v, Index(E, e)).Ok?
  {
    var H := DualHalfEdges(E);
    var k := e / 2;
    assert Index(E, e) == k && E.edges[k] == 2 * k;
    assert RotationStartsHere(E, v);
    assert Start(E, e) == v;
    if e % 2 == 1 {
      assert Twin(E, 2 * k) == e;
      assert H[2 * k].leftFace == Target(E, 2 * k);
    } else {
      assert H[2 * k].partner == 2 * k + 1;
      assert H[2 * k + 1].leftFace == Start(E, 2 * k);
    }
  }

  /** The counts swap: dual vertices are primal faces, dual faces are
      primal vertices, and there is one dual edge per primal edge. */
  lemma DualOfCounts(E: Embedding)
    requires Wf(E) && DualOf(E).Ok?
    ensures var D := DualOf(E).value;
      && |D.vertices| == |E.faces| && |D.faces| == |E.vertices|
      && |D.edges| == |E.edges| && |D.halfEdges| == 2 * |E.edges|
  {
    DualOfParts(E);
    RotationPhaseShape(E, DualHalfEdges(E), Evens(|E.edges|), DualVertices(E), |E.faces|);
    BoundaryPhaseShape(E, DualHalfEdges(E), Evens(|E.edges|), DualFaces(E), |E.vertices|);
  }

  /** Dual vertex f has the index of primal face f as id, and dual face v
      the id of primal vertex v as index. */
  lemma DualOfIds(E: Embedding)
    requires Wf(E) && DualOf(E).Ok?
    ensures var D := DualOf(E).value;
      && |D.vertices| == |E.faces| && |D.faces| == |E.vertices|
      && (forall f :: 0 <= f < |E.faces| ==> D.vertices[f].id == E.faces[f].index)
      && (forall v :: 0 <= v < |E.vertices| ==> D.faces[v].index == E.vertices[v].id)
  {
    DualOfParts(E);
    RotationPhaseShape(E, DualHalfEdges(E), Evens(|E.edges|), DualVertices(E), |E.faces|);
    BoundaryPhaseShape(E, DualHalfEdges(E), Evens(|E.edges|), DualFaces(E), |E.vertices|);
  }

  /** Dual edge k crosses primal edge k: it is listed at position k, carries
      the same index, leads from the dual vertex of the primal left face to
      that of the primal right face, and has the dual face of the primal
      target on its left. */
  lemma DualOfCrossing(E: Embedding, k: nat)
    requires Wf(E) && DualOf(E).Ok? && k < |E.edges|
    ensures var D := DualOf(E).value; var h := E.edges[k];
      && |D.edges| == |E.edges| && |D.halfEdges| == 2 * |E.edges|
      && D.edges[k] == 2 * k
      && D.halfEdges[2 * k].index == D.halfEdges[2 * k + 1].index == Index(E, h)
      && D.halfEdges[2 * k].partner == 2 * k + 1 && D.halfEdges[2 * k + 1].partner == 2 * k
      && D.halfEdges[2 * k].start == E.faces[LeftFace(E, h)].index
      && D.halfEdges[2 * k + 1].start == E.faces[RightFace(E, h)].index
      && D.halfEdges[2 * k].leftFace == E.vertices[Target(E, h)].id
      && D.halfEdges[2 * k + 1].leftFace == E.vertices[Start(E, h)].id
  {
    DualOfParts(E);
    var H := DualHalfEdges(E);
    assert H[2 * k] == DualHalf(E, k, false) && H[2 * k + 1] == DualHalf(E, k, true);
  }

  /** Each dual half-edge starts at a dual vertex and has a dual face on
      its left, and its partner is another half-edge that points back. */
  lemma DualHalvesFit(E: Embedding)
    requires Wf(E) && PairsFit(E)
    ensures var H := DualHalfEdges(E);
      forall i :: 0 <= i < |H| ==>
        && H[i].start < |E.faces| && H[i].leftFace < |E.vertices|
        && 0 <= H[i].partner < |H| && H[i].partner != i && H[H[i].partner].partner == i
  {
    var H := DualHalfEdges(E);
    forall i | 0 <= i < |H|
      ensures H[i].start < |E.faces| && H[i].leftFace < |E.vertices|
      ensures 0 <= H[i].partner < |H| && H[i].partner != i && H[H[i].partner].partner == i
    {
      var k := DualHalfAt(E, i);
      assert PairFits(E, k);
      assert H[2 * k].partner == 2 * k + 1 && H[2 * k + 1].partner == 2 * k;
    }
  }

  /** Every entry listed for dual vertex f is a half-edge starting at f. */
  ghost predicate StartsAt(H: seq<PlanarEdge>, V: seq<PlanarVertex>)
  {
    forall f :: 0 <= f < |V| ==> forall h :: h in V[f].edges ==> h < |H| && H[h].start == f
  }

  /** Every entry listed for dual face v is a half-edge with v on its left. */
  ghost predicate LeftAt(H: seq<PlanarEdge>, F: seq<PlanarFace>)
  {
    forall v :: 0 <= v < |F| ==> forall h :: h in F[v].edges ==> h < |H| && H[h].leftFace == v
  }

  /** Starting from empty rotations, the rotation phase lists at each dual
      vertex only half-edges starting there. */
  lemma RotationPhaseEntries(E: Embedding, H: seq<PlanarEdge>, L: seq<nat>, V0: seq<PlanarVertex>, i: nat)
    requires Wf(E) && Linked(H, L) && i <= |E.faces|
    requires forall f :: 0 <= f < |V0| ==> V0[f].edges == []
    ensures RotationPhase(E, H, L, V0, i).Ok? ==> StartsAt(H, RotationPhase(E, H, L, V0, i).value)
  {
    RotationPhaseShape(E, H, L, V0, i);
  }

  /** Starting from empty boundaries, the boundary phase lists at each dual
      face only half-edges having it on their left. */
  lemma BoundaryPhaseEntries(E: Embedding, H: seq<PlanarEdge>, L: seq<nat>, F0: seq<PlanarFace>, i: nat)
    requires Wf(E) && Linked(H, L) && i <= |E.vertices|
    requires forall v :: 0 <= v < |F0| ==> F0[v].edges == []
    ensures BoundaryPhase(E, H, L, F0, i).Ok? ==> LeftAt(H, BoundaryPhase(E, H, L, F0, i).value)
  {
    BoundaryPhaseShape(E, H, L, F0, i);
  }

  /** Every entry of a dual rotation starts at its dual vertex, and every
      entry of a dual boundary has its dual face on the left. */
  lemma DualOfEntries(E: Embedding)
    requires Wf(E) && DualOf(E).Ok?
    ensures var D := DualOf(E).value;
      && D.halfEdges == DualHalfEdges(E) && StartsAt(D.halfEdges, D.vertices) && LeftAt(D.halfEdges, D.faces)
  {
    DualOfParts(E);
    var H := DualHalfEdges(E);
    var L := Evens(|E.edges|);
    RotationPhaseEntries(E, H, L, DualVertices(E), |E.faces|);
    BoundaryPhaseEntries(E, H, L, DualFaces(E), |E.vertices|);
  }

  /** A dual that is built is well formed. */
  lemma DualOfWf(E: Embedding)
    requires Wf(E) && DualOf(E).Ok?
    ensures Wf(DualOf(E).value)
  {
    DualOfParts(E);
    DualOfCounts(E);
    DualOfEntries(E);
    DualHalvesFit(E);
    var D := DualOf(E).value;
    var H := DualHalfEdges(E);
    forall f, h | 0 <= f < |D.vertices| && h in D.vertices[f].edges ensures h < |D.halfEdges| {
      assert StartsAt(H, D.vertices);
    }
    forall v, h | 0 <= v < |D.faces| && h in D.faces[v].edges ensures h < |D.halfEdges| {
      assert LeftAt(H, D.faces);
    }
    assert forall k :: 0 <= k < |D.edges| ==> D.edges[k] == 2 * k;
    assert forall i :: 0 <= i < |D.halfEdges| ==> HalfEdgeWf(D, i);
  }

  /** Every dual rotation lists only half-edges starting at its dual
      vertex, and every dual boundary only half-edges with its dual face on
      the left. */
  lemma DualOfEndsHere(E: Embedding)
    requires Wf(E) && DualOf(E).Ok?
    ensures Wf(DualOf(E).value)
    ensures var D := DualOf(E).value;
      && (forall f :: 0 <= f < |D.vertices| ==> RotationStartsHere(D, f))
      && (forall v :: 0 <= v < |D.faces| ==> BoundaryLeftHere(D, v))
  {
    DualOfWf(E);
    DualOfEntries(E);
    var D := DualOf(E).value;
    forall f | 0 <= f < |D.vertices| ensures RotationStartsHere(D, f) {
      forall h | h in Rotation(D, f) ensures Start(D, h) == f {
        assert h in D.vertices[f].edges;
      }
    }
    forall v | 0 <= v < |D.faces| ensures BoundaryLeftHere(D, v) {
      forall h | h in Boundary(D, v) ensures LeftFace(D, h) == v {
        assert h in D.faces[v].edges;
      }
    }
  }

  /** The dual of a graph in the generators' layout is in that layout. */
  lemma DualOfLayout(E: Embedding)
    requires Wf(E) && Layout(E) && DualOf(E).Ok?
    ensures Layout(DualOf(E).value)
  {
    var D := DualOf(E).value;
    DualOfParts(E);
    forall h | 0 <= h < |D.halfEdges|
      ensures D.halfEdges[h].index == h / 2
      ensures D.halfEdges[h].partner == if h % 2 == 0 then h + 1 else h - 1
    {
      var k := DualHalfAt(E, h);
      assert E.edges[k] == 2 * k && Index(E, 2 * k) == k;
    }
  }

  /** IllegalArgumentException means exactly that some face is not a
      triangle; the other failures are IndexOutOfBounds and IllegalState. */
  lemma DualOfErrors(E: Embedding)
    requires Wf(E)
    ensures DualOf(E) == Throw(IllegalArgument) <==> !Triangulated(E)
    ensures DualOf(E).Throw? ==> DualOf(E).exception in {IllegalArgument, IndexOutOfBounds, IllegalState}
  {
    if Triangulated(E) && PairsFit(E) {
      var H := DualHalfEdges(E);
      var L := Evens(|E.edges|);
      DualLinked(E);
      RotationPhaseShape(E, H, L, DualVertices(E), |E.faces|);
      BoundaryPhaseShape(E, H, L, DualFaces(E), |E.vertices|);
    }
  }

  /** A triangulated graph whose ids are positions, in the generators'
      layout and with correct rotation and boundary lists, has a dual. */
  lemma DualOfSucceeds(E: Embedding)
    requires Wf(E) && Layout(E) && IdsArePositions(E) && RotationsOk(E) && BoundariesOk(E) && Triangulated(E)
    ensures DualOf(E).Ok?
  {
    IdsFit(E);
    var H := DualHalfEdges(E);
    var L := Evens(|E.edges|);
    DualLinked(E);
    forall f: nat | f < |E.faces| ensures Collect(H, L, AtStart, f, Indices(E, Boundary(E, f))).Ok? {
      var bnd := Boundary(E, f);
      var ks := Indices(E, bnd);
      CollectMeaning(H, L, AtStart, f, ks);
      forall j | 0 <= j < |ks| ensures Choice(H, L, AtStart, f, ks[j]).Ok? {
        ChoiceAtFace(E, f, bnd[j]);
      }
    }
    forall v: nat | v < |E.vertices| ensures Collect(H, L, OnLeft, v, Indices(E, Rotation(E, v))).Ok? {
      var rot := Rotation(E, v);
      var ks := Indices(E, rot);
      CollectMeaning(H, L, OnLeft, v, ks);
      forall j | 0 <= j < |ks| ensures Choice(H, L, OnLeft, v, ks[j]).Ok? {
        ChoiceAtVertex(E, v, rot[j]);
      }
    }
    RotationPhaseForm(E, H, L, |E.faces|);
    BoundaryPhaseForm(E, H, L, |E.vertices|);
  }

  /** Dual vertex f lists, reversed, the halves chosen for the boundary
      entries of primal face f. */
  lemma DualRotationList(E: Embedding, f: nat)
    requires Wf(E) && IdsArePositions(E) && DualOf(E).Ok? && f < |E.faces|
    ensures PairsFit(E) && Linked(DualHalfEdges(E), Evens(|E.edges|))
    ensures var C := Collect(DualHalfEdges(E), Evens(|E.edges|), AtStart, f, Indices(E, Boundary(E, f)));
      && C.Ok? && f < |DualOf(E).value.vertices| && DualOf(E).value.vertices[f].edges == Reverse(C.value)
      && DualOf(E).value.halfEdges == DualHalfEdges(E)
  {
    DualOfParts(E);
    RotationPhaseForm(E, DualHalfEdges(E), Evens(|E.edges|), |E.faces|);
  }

  /** Dual face v lists, reversed, the halves chosen for the rotation
      entries of primal vertex v. */
  lemma DualBoundaryList(E: Embedding, v: nat)
    requires Wf(E) && IdsArePositions(E) && DualOf(E).Ok? && v < |E.vertices|
    ensures PairsFit(E) && Linked(DualHalfEdges(E), Evens(|E.edges|))
    ensures var C := Collect(DualHalfEdges(E), Evens(|E.edges|), OnLeft, v, Indices(E, Rotation(E, v)));
      && C.Ok? && v < |DualOf(E).value.faces| && DualOf(E).value.faces[v].edges == Reverse(C.value)
      && DualOf(E).value.halfEdges == DualHalfEdges(E)
  {
    DualOfParts(E);
    BoundaryPhaseForm(E, DualHalfEdges(E), Evens(|E.edges|), |E.vertices|);
  }

  /** Around dual vertex f the dual edges cross the boundary edges of
      primal face f in reverse order (boundaries run counter-clockwise,
      rotations clockwise), one dual edge per boundary entry. */
  lemma DualRotationOrder(E: Embedding, f: nat)
    requires Wf(E) && Layout(E) && IdsArePositions(E) && DualOf(E).Ok? && f < |E.faces|
    ensures Wf(DualOf(E).value) && f < |DualOf(E).value.vertices|
    ensures var D := DualOf(E).value; var bnd := Boundary(E, f);
      && |Rotation(D, f)| == |bnd|
      && forall j :: 0 <= j < |bnd| ==> Index(D, Rotation(D, f)[j]) == Index(E, bnd[|bnd| - 1 - j])
  {
    DualOfWf(E);
    DualRotationList(E, f);
    var D := DualOf(E).value;
    var bnd := Boundary(E, f);
    ChosenIndices(E, AtStart, f, bnd);
    ReversedIndices(E, D, bnd, Collect(DualHalfEdges(E), Evens(|E.edges|), AtStart, f, Indices(E, bnd)).value);
  }

  /** Around dual face v the dual edges cross the rotation of primal
      vertex v in reverse order, one dual edge per rotation entry. */
  lemma DualBoundaryOrder(E: Embedding, v: nat)
    requires Wf(E) && Layout(E) && IdsArePositions(E) && DualOf(E).Ok? && v < |E.vertices|
    ensures Wf(DualOf(E).value) && v < |DualOf(E).value.faces|
    ensures var D := DualOf(E).value; var rot := Rotation(E, v);
      && |Boundary(D, v)| == |rot|
      && forall j :: 0 <= j < |rot| ==> Index(D, Boundary(D, v)[j]) == Index(E, rot[|rot| - 1 - j])
  {
    DualOfWf(E);
    DualBoundaryList(E, v);
    var D := DualOf(E).value;
    var rot := Rotation(E, v);
    ChosenIndices(E, OnLeft, v, rot);
    ReversedIndices(E, D, rot, Collect(DualHalfEdges(E), Evens(|E.edges|), OnLeft, v, Indices(E, rot)).value);
  }

  /** The dual of a plane triangulation with n vertices exists and is a
      three-regular graph in the same layout, with 2n - 4 vertices, 3n - 6
      edges and n faces; dual face v has as many sides as primal vertex v
      has neighbours. */
  lemma DualOfTriangulation(E: Embedding)
    requires PlaneTriangulation(E)
    ensures DualOf(E).Ok?
    ensures var D := DualOf(E).value;
      && Wf(D) && Layout(D) && IdsArePositions(D)
      && |D.vertices| == 2 * |E.vertices| - 4
      && |D.edges| == 3 * |E.vertices| - 6
      && |D.faces| == |E.vertices|
    ensures var D := DualOf(E).value;
      && (forall f :: 0 <= f < |D.vertices| ==> |Rotation(D, f)| == 3)
      && (forall v :: 0 <= v < |D.faces| ==> |Boundary(D, v)| == |Rotation(E, v)|)
  {
    DualOfSucceeds(E);
    DualOfCounts(E);
    DualOfIds(E);
    DualOfLayout(E);
    DualOfWf(E);
    var D := DualOf(E).value;
    forall f | 0 <= f < |D.vertices| ensures |Rotation(D, f)| == 3 {
      DualRotationOrder(E, f);
    }
    forall v | 0 <= v < |D.faces| ensures |Boundary(D, v)| == |Rotation(E, v)| {
      DualBoundaryOrder(E, v);
    }
  }
}
