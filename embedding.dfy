/** The half-edge (DCEL-style) planar model, as plain values.

    Vertices, half-edges and faces live in three arenas and refer to each
    other by position ("handle").  A vertex keeps its outgoing half-edges in
    clockwise rotation order, a face keeps its boundary half-edges
    counter-clockwise, and every half-edge knows its start vertex, its left
    face, its index and its reversed partner.  The graph's own edge list
    holds one representative half-edge per edge. */
module PlanarEmbedding {
  import opened Exceptions
  import opened Lists

  /** `PlanarVertex`: id and outgoing half-edges in clockwise order. */
  datatype PlanarVertex = PlanarVertex(id: int, edges: seq<nat>)

  /** `PlanarEdge`: one direction of an edge.  `partner` is the reversed
      half-edge, or `NoPartner` while it has not been set (Java `null`). */
  datatype PlanarEdge = PlanarEdge(start: nat, leftFace: nat, index: int, partner: int)

  /** `PlanarFace`: index and boundary half-edges in counter-clockwise order. */
  datatype PlanarFace = PlanarFace(index: int, edges: seq<nat>)

  const NoPartner: int := -1

  /** A snapshot of a planar graph: the vertex list, every half-edge object
      reachable from it (both halves of each edge), the graph's edge list of
      representative half-edges, and the face list. */
  datatype Embedding = Embedding(
    vertices: seq<PlanarVertex>,
    halfEdges: seq<PlanarEdge>,
    edges: seq<nat>,
    faces: seq<PlanarFace>)

  /** Every reference points into its arena and every half-edge has a
      partner that points back (what non-null references and the factory
      guarantee in the source). */
  ghost predicate Wf(E: Embedding)
  {
    && (forall v, h :: 0 <= v < |E.vertices| && h in E.vertices[v].edges ==> h < |E.halfEdges|)
    && (forall f, h :: 0 <= f < |E.faces| && h in E.faces[f].edges ==> h < |E.halfEdges|)
    && (forall k :: 0 <= k < |E.edges| ==> E.edges[k] < |E.halfEdges|)
    && (forall h :: 0 <= h < |E.halfEdges| ==> HalfEdgeWf(E, h))
  }

  ghost predicate HalfEdgeWf(E: Embedding, h: nat)
    requires h < |E.halfEdges|
  {
    var r := E.halfEdges[h];
    && r.start < |E.vertices|
    && r.leftFace < |E.faces|
    && 0 <= r.partner < |E.halfEdges|
    && r.partner != h
    && E.halfEdges[r.partner].partner == h
  }

  // ---------------------------------------------------------------------
  // Navigation (PlanarEdge getters and PlanarVertex.getNext/PreviousEdge)

  /** `getReversedEdge`. */
  function Twin(E: Embedding, h: nat): (t: nat)
    requires Wf(E) && h < |E.halfEdges|
    ensures t < |E.halfEdges| && t != h && E.halfEdges[t].partner == h
  {
    assert HalfEdgeWf(E, h);
    E.halfEdges[h].partner
  }

  /** `getStart`. */
  function Start(E: Embedding, h: nat): (v: nat)
    requires Wf(E) && h < |E.halfEdges|
    ensures v < |E.vertices|
  {
    assert HalfEdgeWf(E, h);
    E.halfEdges[h].start
  }

  /** `getTarget`: the start of the partner. */
  function Target(E: Embedding, h: nat): (v: nat)
    requires Wf(E) && h < |E.halfEdges|
    ensures v < |E.vertices| && v == Start(E, Twin(E, h))
  {
    Start(E, Twin(E, h))
  }

  /** `getLeftFace`. */
  function LeftFace(E: Embedding, h: nat): (f: nat)
    requires Wf(E) && h < |E.halfEdges|
    ensures f < |E.faces|
  {
    assert HalfEdgeWf(E, h);
    E.halfEdges[h].leftFace
  }

  /** `getRightFace`: the left face of the partner. */
  function RightFace(E: Embedding, h: nat): (f: nat)
    requires Wf(E) && h < |E.halfEdges|
    ensures f < |E.faces| && f == LeftFace(E, Twin(E, h))
  {
    LeftFace(E, Twin(E, h))
  }

  /** `getIndex`. */
  function Index(E: Embedding, h: nat): int
    requires h < |E.halfEdges|
  {
    E.halfEdges[h].index
  }

  /** The clockwise rotation list of vertex `v`. */
  function Rotation(E: Embedding, v: nat): (rot: seq<nat>)
    requires Wf(E) && v < |E.vertices|
    ensures forall h :: h in rot ==> h < |E.halfEdges|
    ensures forall i :: 0 <= i < |rot| ==> rot[i] < |E.halfEdges|
  {
    var rot := E.vertices[v].edges;
    assert forall i :: 0 <= i < |rot| ==> rot[i] in rot;
    rot
  }

  /** The counter-clockwise boundary list of face `f`. */
  function Boundary(E: Embedding, f: nat): (bnd: seq<nat>)
    requires Wf(E) && f < |E.faces|
    ensures forall h :: h in bnd ==> h < |E.halfEdges|
    ensures forall i :: 0 <= i < |bnd| ==> bnd[i] < |E.halfEdges|
  {
    var bnd := E.faces[f].edges;
    assert forall i :: 0 <= i < |bnd| ==> bnd[i] in bnd;
    bnd
  }

  /** `getNextEdgeAtStart`: the clockwise successor in the start vertex's
      rotation; an empty rotation makes `get(0)` throw. */
  function NextEdgeAtStart(E: Embedding, h: nat): (r: Result<nat>)
    requires Wf(E) && h < |E.halfEdges|
    ensures r.Ok? <==> |Rotation(E, Start(E, h))| > 0
    ensures r.Ok? ==> r.value in Rotation(E, Start(E, h))
  {
    var rot := Rotation(E, Start(E, h));
    if |rot| == 0 then Throw(IndexOutOfBounds) else Ok(NextCyclic(rot, h))
  }

  /** `getPreviousEdgeAtStart`: the clockwise predecessor in the start
      vertex's rotation; a half-edge missing from that rotation makes the
      lookup index -2 and throw. */
  function PreviousEdgeAtStart(E: Embedding, h: nat): (r: Result<nat>)
    requires Wf(E) && h < |E.halfEdges|
    ensures r.Ok? <==> h in Rotation(E, Start(E, h))
    ensures r.Ok? ==> r.value in Rotation(E, Start(E, h))
  {
    var rot := Rotation(E, Start(E, h));
    if h in rot then Ok(PrevCyclic(rot, h)) else Throw(IndexOutOfBounds)
  }

  /** `getNextEdge`: the next half-edge counter-clockwise along the left
      face, read off the rotation at the target. */
  function NextEdge(E: Embedding, h: nat): (r: Result<nat>)
    requires Wf(E) && h < |E.halfEdges|
    ensures r.Ok? <==> |Rotation(E, Target(E, h))| > 0
    ensures r.Ok? ==> r.value in Rotation(E, Target(E, h))
  {
    NextEdgeAtStart(E, Twin(E, h))
  }

  /** `getPreviousEdge`: the partner of the clockwise predecessor at the
      start. */
  function PreviousEdge(E: Embedding, h: nat): (r: Result<nat>)
    requires Wf(E) && h < |E.halfEdges|
    ensures r.Ok? <==> h in Rotation(E, Start(E, h))
    ensures r.Ok? ==> r.value < |E.halfEdges| && Twin(E, r.value) in Rotation(E, Start(E, h))
  {
    match PreviousEdgeAtStart(E, h)
    case Ok(p) => Ok(Twin(E, p))
    case Throw(x) => Throw(x)
  }

  // ---------------------------------------------------------------------
  // The validity oracle

  /** `PlanarEdge.isValid`, with the exceptions its lookups can raise:
      left face of next and of previous edge agree with the own left face,
      and the partner is the previous edge of the next edge at the start. */
  function EdgeValidity(E: Embedding, h: nat): (r: Result<bool>)
    requires Wf(E) && h < |E.halfEdges|
    ensures r == Ok(true) ==>
      && NextEdge(E, h).Ok? && LeftFace(E, NextEdge(E, h).value) == LeftFace(E, h)
      && PreviousEdge(E, h).Ok? && LeftFace(E, PreviousEdge(E, h).value) == LeftFace(E, h)
      && NextEdgeAtStart(E, h).Ok?
      && PreviousEdge(E, NextEdgeAtStart(E, h).value) == Ok(Twin(E, h))
  {
    match NextEdge(E, h)
    case Throw(x) => Throw(x)
    case Ok(next) =>
      if LeftFace(E, h) != LeftFace(E, next) then Ok(false)
      else match PreviousEdge(E, h)
      case Throw(x) => Throw(x)
      case Ok(prev) =>
        if LeftFace(E, h) != LeftFace(E, prev) then Ok(false)
        else match NextEdgeAtStart(E, h)
        case Throw(x) => Throw(x)
        case Ok(s) =>
          match PreviousEdge(E, s)
          case Throw(x) => Throw(x)
          case Ok(q) => Ok(Twin(E, h) == q)
  }

  /** Position of the cyclic predecessor of position `k` in a list of
      length `n`. */
  function PrevPos(k: nat, n: nat): nat
    requires k < n
  {
    if k == 0 then n - 1 else k - 1
  }

  /** Every half-edge in the rotation starts at `v`. */
  ghost predicate RotationStartsHere(E: Embedding, v: nat)
    requires Wf(E) && v < |E.vertices|
  {
    forall h :: h in Rotation(E, v) ==> Start(E, h) == v
  }

  /** Every pair of rotation-consecutive half-edges (cur, next) has
      `cur.rightFace == next.leftFace`. */
  ghost predicate RotationFacesFit(E: Embedding, v: nat)
    requires Wf(E) && v < |E.vertices|
  {
    var rot := Rotation(E, v);
    forall k :: 0 <= k < |rot| ==> RightFace(E, rot[PrevPos(k, |rot|)]) == LeftFace(E, rot[k])
  }

  /** `PlanarVertex.isValid`: false if some listed half-edge starts
      elsewhere; an empty list then throws at `get(degree - 1)`; otherwise
      whether all consecutive pairs fit. */
  ghost function VertexValidity(E: Embedding, v: nat): Result<bool>
    requires Wf(E) && v < |E.vertices|
  {
    if !RotationStartsHere(E, v) then Ok(false)
    else if |Rotation(E, v)| == 0 then Throw(IndexOutOfBounds)
    else Ok(RotationFacesFit(E, v))
  }

  /** Every boundary half-edge has `f` as its left face. */
  ghost predicate BoundaryLeftHere(E: Embedding, f: nat)
    requires Wf(E) && f < |E.faces|
  {
    forall h :: h in Boundary(E, f) ==> LeftFace(E, h) == f
  }

  /** The second loop of `PlanarFace.isValid` from position `k` on, with
      `current` the boundary entry before position `k`: each `next` must
      have `current` as previous edge, and `current` must have `next` as
      next edge; the lookups may throw. */
  ghost function FaceChainFrom(E: Embedding, bnd: seq<nat>, current: nat, k: nat): Result<bool>
    requires Wf(E) && current < |E.halfEdges| && k <= |bnd|
    requires forall i :: 0 <= i < |bnd| ==> bnd[i] < |E.halfEdges|
    decreases |bnd| - k
  {
    if k == |bnd| then Ok(true)
    else
      var next := bnd[k];
      match PreviousEdge(E, next)
      case Throw(x) => Throw(x)
      case Ok(p) =>
        if current != p then Ok(false)
        else match NextEdge(E, current)
        case Throw(x) => Throw(x)
        case Ok(n) =>
          if n != next then Ok(false)
          else FaceChainFrom(E, bnd, next, k + 1)
  }

  /** `PlanarFace.isValid`. */
  ghost function FaceValidity(E: Embedding, f: nat): Result<bool>
    requires Wf(E) && f < |E.faces|
  {
    var bnd := Boundary(E, f);
    if !BoundaryLeftHere(E, f) then Ok(false)
    else if |bnd| == 0 then Throw(IndexOutOfBounds)
    else FaceChainFrom(E, bnd, bnd[|bnd| - 1], 0)
  }

  /** The first entry that is not `Ok(true)`, or `Ok(true)`: a loop that
      returns at the first failing check or exception. */
  function FirstFailure(rs: seq<Result<bool>>): (r: Result<bool>)
    ensures r == Ok(true) <==> forall i :: 0 <= i < |rs| ==> rs[i] == Ok(true)
    ensures r != Ok(true) ==> r in rs
  {
    if |rs| == 0 then Ok(true)
    else if rs[0] != Ok(true) then rs[0]
    else
      assert forall i :: 1 <= i < |rs| ==> rs[i] == rs[1..][i - 1];
      FirstFailure(rs[1..])
  }

  /** The loop that stops at position `i` returns what FirstFailure gives. */
  lemma {:induction false} FirstFailureAt(rs: seq<Result<bool>>, i: nat)
    requires i < |rs| && rs[i] != Ok(true)
    requires forall j :: 0 <= j < i ==> rs[j] == Ok(true)
    ensures FirstFailure(rs) == rs[i]
  {
    if i > 0 {
      FirstFailureAt(rs[1..], i - 1);
    }
  }

  ghost function AllVertexValidity(E: Embedding): seq<Result<bool>>
    requires Wf(E)
  {
    seq(|E.vertices|, v requires 0 <= v < |E.vertices| => VertexValidity(E, v))
  }

  ghost function AllEdgeValidity(E: Embedding): seq<Result<bool>>
    requires Wf(E)
  {
    seq(|E.edges|, k requires 0 <= k < |E.edges| => EdgeValidity(E, E.edges[k]))
  }

  ghost function AllFaceValidity(E: Embedding): seq<Result<bool>>
    requires Wf(E)
  {
    seq(|E.faces|, f requires 0 <= f < |E.faces| => FaceValidity(E, f))
  }

  /** `PlanarGraph.isValid`: vertices, then the graph's edges, then faces,
      stopping at the first failure, then Euler's formula n - m + f = 2. */
  ghost function GraphValidity(E: Embedding): Result<bool>
    requires Wf(E)
  {
    var vs := FirstFailure(AllVertexValidity(E));
    var es := FirstFailure(AllEdgeValidity(E));
    var fs := FirstFailure(AllFaceValidity(E));
    if vs != Ok(true) then vs
    else if es != Ok(true) then es
    else if fs != Ok(true) then fs
    else Ok(|E.vertices| - |E.edges| + |E.faces| == 2)
  }
}
