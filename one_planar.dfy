/** `create1PlanarGraph`: a planar graph is augmented with edges x - y
    that each cross one original edge u - v, where x - u - y - v - x is the
    quadrilateral around u - v.  Only original edges (index below the
    original edge count m) may take part, and an edge is added only when x
    and y are not yet neighbours.  Faces are left as they are. */
module OnePlanar {
  import opened Exceptions
  import opened Lists
  import opened PlanarEmbedding
  import opened EdgeFlips
  import opened PlanarGraphs
  import opened JavaRandom
  import opened RandomUtil
  import opened PlanarInvariants
  import opened PlanarGeneration
  import opened Crossings

  /** What one iteration of the inner loop decides: move on by one or two
      positions of x's rotation, or propose the crossing edge x - y built
      from the listed half-edges. */
  datatype Step =
    | Skip(advance: nat)
    | Propose(xu: nat, xv: nat, uv: nat, uy: nat, vu: nat, vy: nat, y: nat)

  /** The quadrilateral a proposal describes: xu and xv are cyclically
      consecutive at x, uv is listed at u and ends at v, vu is its partner,
      uy and vy are listed at u and v and both end at y, and all six are
      original edges. */
  ghost predicate CrossingQuad(E: Embedding, m: int, x: nat, i: nat, p: Step)
    requires Wf(E) && x < |E.vertices| && i < |Rotation(E, x)| && p.Propose?
  {
    var rot := Rotation(E, x);
    && p.xu == rot[if i == 0 then |rot| - 1 else i - 1] && p.xv == rot[i]
    && p.uv < |E.halfEdges| && p.uy < |E.halfEdges| && p.vu < |E.halfEdges| && p.vy < |E.halfEdges|
    && Index(E, p.xu) < m && Index(E, p.xv) < m && Index(E, p.uv) < m
    && Index(E, p.uy) < m && Index(E, p.vu) < m && Index(E, p.vy) < m
    && p.uv in Rotation(E, Target(E, p.xu)) && Target(E, p.uv) == Target(E, p.xv)
    && p.uy in Rotation(E, Start(E, p.uv)) && Target(E, p.uy) == p.y
    && Twin(E, p.xu) in Rotation(E, Target(E, p.xu))
    && p.uv == PrevCyclic<nat>(Rotation(E, Target(E, p.xu)), Twin(E, p.xu))
    && p.uv in Rotation(E, Start(E, p.uv)) && p.uy == PrevCyclic<nat>(Rotation(E, Start(E, p.uv)), p.uv)
    && p.vu == Twin(E, p.uv)
    && p.vy in Rotation(E, Start(E, p.vu)) && Target(E, p.vy) == p.y
    && |Rotation(E, Target(E, p.xv))| > 0
    && p.vu == NextCyclic<nat>(Rotation(E, Target(E, p.xv)), Twin(E, p.xv))
    && |Rotation(E, Start(E, p.vu))| > 0
    && p.vy == NextCyclic<nat>(Rotation(E, Start(E, p.vu)), p.vu)
  }

  /** Steps 1 to 3 of the inner loop for position `i` of x's rotation, in
      source order: a non-original xu skips one position, a non-original xv
      or uv two (v cannot serve as u either), a non-original uy, vu or vy
      one; a quadrilateral that does not close throws
      IllegalStateException, and a lookup in a rotation that lacks the
      half-edge throws IndexOutOfBoundsException. */
  function Crossing(E: Embedding, m: int, x: nat, i: nat): (r: Result<Step>)
    requires Wf(E) && x < |E.vertices| && i < |Rotation(E, x)|
    ensures r.Ok? && r.value.Skip? ==> r.value.advance == 1 || r.value.advance == 2
    ensures r.Ok? && r.value.Propose? ==> CrossingQuad(E, m, x, i, r.value)
    ensures r.Throw? ==> r.exception == IllegalState || r.exception == IndexOutOfBounds
  {
    var rot := Rotation(E, x);
    var xu := rot[if i == 0 then |rot| - 1 else i - 1];
    if Index(E, xu) >= m then Ok(Skip(1))
    else
      var xv := rot[i];
      if Index(E, xv) >= m then Ok(Skip(2))
      else
        CrossingAtU(E, m, xu, xv)
  }

  /** Steps 2 and 3.1 of the inner loop: from u, the edge before the
      partner of xu must end at v, and the edge before that one leads to
      y.  A non-original uv skips two positions, a non-original uy one. */
  function CrossingAtU(E: Embedding, m: int, xu: nat, xv: nat): (r: Result<Step>)
    requires Wf(E) && xu < |E.halfEdges| && xv < |E.halfEdges|
    ensures r.Ok? && r.value.Skip? ==> r.value.advance == 1 || r.value.advance == 2
    ensures r.Ok? && r.value.Propose? ==>
      && r.value.xu == xu && r.value.xv == xv
      && r.value.uv < |E.halfEdges| && r.value.uy < |E.halfEdges|
      && r.value.vu < |E.halfEdges| && r.value.vy < |E.halfEdges|
      && Index(E, r.value.uv) < m && Index(E, r.value.uy) < m
      && Index(E, r.value.vu) < m && Index(E, r.value.vy) < m
      && r.value.uv in Rotation(E, Target(E, xu)) && Target(E, r.value.uv) == Target(E, xv)
      && r.value.uy in Rotation(E, Start(E, r.value.uv)) && Target(E, r.value.uy) == r.value.y
      && Twin(E, xu) in Rotation(E, Target(E, xu))
      && r.value.uv == PrevCyclic<nat>(Rotation(E, Target(E, xu)), Twin(E, xu))
      && r.value.uv in Rotation(E, Start(E, r.value.uv))
      && r.value.uy == PrevCyclic<nat>(Rotation(E, Start(E, r.value.uv)), r.value.uv)
      && r.value.vu == Twin(E, r.value.uv)
      && r.value.vy in Rotation(E, Start(E, r.value.vu)) && Target(E, r.value.vy) == r.value.y
      && |Rotation(E, Target(E, xv))| > 0
      && r.value.vu == NextCyclic<nat>(Rotation(E, Target(E, xv)), Twin(E, xv))
      && |Rotation(E, Start(E, r.value.vu))| > 0
      && r.value.vy == NextCyclic<nat>(Rotation(E, Start(E, r.value.vu)), r.value.vu)
    ensures r.Throw? ==> r.exception == IllegalState || r.exception == IndexOutOfBounds
  {
    var u, v := Target(E, xu), Target(E, xv);
    match PreviousEdgeAtStart(E, Twin(E, xu))
    case Throw(e) => Throw(e)
    case Ok(uv) =>
      if Index(E, uv) >= m then Ok(Skip(2))
      else if Target(E, uv) != v then Throw(IllegalState)
      else
        match PreviousEdgeAtStart(E, uv)
        case Throw(e) => Throw(e)
        case Ok(uy) =>
          if Index(E, uy) >= m then Ok(Skip(1))
          else CrossingAtV(E, m, u, xu, xv, uv, uy)
  }

  /** Step 3.2 of the inner loop: from v, the next edge after the partner
      of xv must lead back to u and be the partner of uv, and the edge after it must end at y, the target
      of uy.  A non-original edge on the way skips one position. */
  function CrossingAtV(E: Embedding, m: int, u: nat, xu: nat, xv: nat, uv: nat, uy: nat): (r: Result<Step>)
    requires Wf(E) && xv < |E.halfEdges| && uv < |E.halfEdges| && uy < |E.halfEdges|
    ensures r.Ok? && r.value.Skip? ==> r.value.advance == 1
    ensures r.Ok? && r.value.Propose? ==>
      && r.value.xu == xu && r.value.xv == xv && r.value.uv == uv && r.value.uy == uy
      && r.value.y == Target(E, uy)
      && r.value.vu < |E.halfEdges| && r.value.vy < |E.halfEdges|
      && Index(E, r.value.vu) < m && Index(E, r.value.vy) < m
      && r.value.vu == Twin(E, uv)
      && r.value.vy in Rotation(E, Start(E, r.value.vu)) && Target(E, r.value.vy) == Target(E, uy)
      && |Rotation(E, Target(E, xv))| > 0
      && r.value.vu == NextCyclic<nat>(Rotation(E, Target(E, xv)), Twin(E, xv))
      && |Rotation(E, Start(E, r.value.vu))| > 0
      && r.value.vy == NextCyclic<nat>(Rotation(E, Start(E, r.value.vu)), r.value.vu)
    ensures r.Throw? ==> r.exception == IllegalState || r.exception == IndexOutOfBounds
  {
    var y := Target(E, uy);
    match NextEdgeAtStart(E, Twin(E, xv))
    case Throw(e) => Throw(e)
    case Ok(vu) =>
      if Index(E, vu) >= m then Ok(Skip(1))
      else if Target(E, vu) != u || Twin(E, vu) != uv then Throw(IllegalState)
      else
        match NextEdgeAtStart(E, vu)
        case Throw(e) => Throw(e)
        case Ok(vy) =>
          if Index(E, vy) >= m then Ok(Skip(1))
          else if Target(E, vy) != y then Throw(IllegalState)
          else Ok(Propose(xu, xv, uv, uy, vu, vy, y))
  }

  /** The vertices a vertex's rotation leads to. */
  ghost function NeighborSet(E: Embedding, v: nat): set<nat>
    requires Wf(E) && v < |E.vertices|
  {
    set e | e in Rotation(E, v) :: Target(E, e)
  }

  ghost function Below(n: nat): (s: set<nat>)
    ensures |s| == n && forall w: nat :: w in s <==> w < n
  {
    if n == 0 then {} else
      var s := Below(n - 1);
      assert n - 1 !in s;
      s + {n - 1}
  }

  /** A vertex has at most n distinct neighbours. */
  lemma NeighborSetBound(E: Embedding, v: nat)
    requires Wf(E) && v < |E.vertices|
    ensures |NeighborSet(E, v)| <= |E.vertices|
  {
    var all := Below(|E.vertices|);
    assert NeighborSet(E, v) <= all;
    SubsetCard(NeighborSet(E, v), all);
  }

  lemma SubsetCard(a: set<nat>, b: set<nat>)
    requires a <= b
    ensures |a| <= |b|
  {
    assert b == a + (b - a);
  }

  // ---------------------------------------------------------------------
  // One added edge

  /** One insertion: the rotation of x gains `a`; nothing else changes in
      membership or ids. */
  lemma PutAfterMembers(V: seq<PlanarVertex>, x: nat, a: nat, ax: nat)
    requires x < |V|
    ensures var W := PutAfter(V, x, a, ax);
      && |W| == |V|
      && (forall v :: 0 <= v < |V| ==> W[v].id == V[v].id)
      && (forall v, z :: 0 <= v < |V| && v != x ==> (z in W[v].edges <==> z in V[v].edges))
      && (forall z :: z in W[x].edges <==> z in V[x].edges || z == a)
  {
    var W := PutAfter(V, x, a, ax);
    var s := InsertAfter<nat>(V[x].edges, a, ax);
    InsertAfterMembers<nat>(V[x].edges, a, ax);
    assert W[x].edges == s;
    forall v, z | 0 <= v < |V| && v != x ensures z in W[v].edges <==> z in V[v].edges {
      assert W[v] == V[v];
    }
    forall v | 0 <= v < |V| ensures W[v].id == V[v].id {
      if v == x {
        assert W[v].id == V[x].id;
      }
    }
  }

  /** Two insertions: the rotation of x gains `a`, that of y gains `b`,
      and nothing else changes in membership or ids. */
  lemma PutTwiceMembers(V: seq<PlanarVertex>, x: nat, y: nat, a: nat, b: nat, ax: nat, bx: nat)
    requires x < |V| && y < |V|
    ensures var W := PutAfter(PutAfter(V, x, a, ax), y, b, bx);
      && |W| == |V|
      && (forall v :: 0 <= v < |V| ==> W[v].id == V[v].id)
      && (forall v, z :: 0 <= v < |V| ==>
            (z in W[v].edges <==> z in V[v].edges || (v == x && z == a) || (v == y && z == b)))
  {
    var V1 := PutAfter(V, x, a, ax);
    PutAfterMembers(V, x, a, ax);
    PutAfterMembers(V1, y, b, bx);
  }

  /** Step 5 as a relation between arenas: `E'` is `E` with the edge
      x -> y appended (half-edges H and H + 1, left faces `lf` and `rf`,
      index `index`), the half-edge H listed at x and H + 1 at y, and every
      rotation otherwise keeping its members. */
  ghost predicate AddsEdge(E: Embedding, E': Embedding, x: nat, y: nat, lf: nat, rf: nat, index: int)
  {
    var H := |E.halfEdges|;
    && |E'.vertices| == |E.vertices|
    && (forall v :: 0 <= v < |E.vertices| ==> E'.vertices[v].id == E.vertices[v].id)
    && (forall v, z :: 0 <= v < |E.vertices| ==>
          (z in E'.vertices[v].edges <==> z in E.vertices[v].edges || (v == x && z == H) || (v == y && z == H + 1)))
    && E'.halfEdges == E.halfEdges + [PlanarEdge(x, lf, index, H + 1), PlanarEdge(y, rf, index, H)]
    && E'.edges == E.edges + [H] && E'.faces == E.faces
  }

  /** Adding a crossing edge keeps the embedding well formed. */
  lemma AddsEdgeWf(E: Embedding, E': Embedding, x: nat, y: nat, lf: nat, rf: nat, index: int)
    requires Wf(E) && x < |E.vertices| && y < |E.vertices| && lf < |E.faces| && rf < |E.faces|
    requires AddsEdge(E, E', x, y, lf, rf, index)
    ensures Wf(E')
  {
    var H := |E.halfEdges|;
    forall v, z | 0 <= v < |E'.vertices| && z in E'.vertices[v].edges ensures z < H + 2 {
      if z in E.vertices[v].edges {
        assert z in Rotation(E, v);
      }
    }
    AppendPairWf(E, E', x, y, lf, rf, index);
  }

  /** Appending a linked pair of half-edges between existing vertices and
      faces keeps the embedding well formed. */
  lemma AppendPairWf(E: Embedding, E': Embedding, x: nat, y: nat, lf: nat, rf: nat, index: int)
    requires Wf(E) && x < |E.vertices| && y < |E.vertices| && lf < |E.faces| && rf < |E.faces|
    requires var H := |E.halfEdges|;
      E'.halfEdges == E.halfEdges + [PlanarEdge(x, lf, index, H + 1), PlanarEdge(y, rf, index, H)]
    requires E'.edges == E.edges + [|E.halfEdges|] && E'.faces == E.faces
    requires |E'.vertices| == |E.vertices| && RotationsBelow(E'.vertices, |E.halfEdges| + 2)
    ensures Wf(E')
  {
    var H := |E.halfEdges|;
    forall k | 0 <= k < |E'.edges| ensures E'.edges[k] < H + 2 {
      if k < |E.edges| {
        assert E'.edges[k] == E.edges[k];
      }
    }
    forall h | 0 <= h < |E'.halfEdges| ensures HalfEdgeWf(E', h) {
      if h < H {
        assert HalfEdgeWf(E, h);
        assert E'.halfEdges[h] == E.halfEdges[h];
        assert E'.halfEdges[E.halfEdges[h].partner] == E.halfEdges[E.halfEdges[h].partner];
      }
    }
    assert BoundariesBelow(E.faces, H + 2);
  }

  /** The old half-edges keep their start and partner, the new halves run
      x -> y and y -> x, and each is listed at its start. */
  lemma AddsEdgeFacts(E: Embedding, E': Embedding, x: nat, y: nat, lf: nat, rf: nat, index: int)
    requires Wf(E) && x < |E.vertices| && y < |E.vertices| && lf < |E.faces| && rf < |E.faces|
    requires AddsEdge(E, E', x, y, lf, rf, index)
    ensures var H := |E.halfEdges|;
      && Wf(E') && |E'.halfEdges| == H + 2 && E'.halfEdges[..H] == E.halfEdges
      && (forall e :: 0 <= e < H ==> Start(E', e) == Start(E, e) && Target(E', e) == Target(E, e))
      && H in Rotation(E', x) && H + 1 in Rotation(E', y)
      && Start(E', H) == x && Start(E', H + 1) == y && Twin(E', H) == H + 1 && Twin(E', H + 1) == H
      && Target(E', H) == y && Target(E', H + 1) == x
  {
    var H := |E.halfEdges|;
    AddsEdgeWf(E, E', x, y, lf, rf, index);
    assert E'.halfEdges[..H] == E.halfEdges;
    forall e | 0 <= e < H ensures Start(E', e) == Start(E, e) && Target(E', e) == Target(E, e) {
      assert E'.halfEdges[e] == E.halfEdges[e];
      assert HalfEdgeWf(E, e);
      assert E'.halfEdges[Twin(E, e)] == E.halfEdges[Twin(E, e)];
    }
  }

  /** A new edge x -> y between non-neighbours takes y into x's
      neighbours, so x's neighbour set strictly grows. */
  lemma AddsEdgeNeighbors(E: Embedding, E': Embedding, x: nat, y: nat, lf: nat, rf: nat, index: int)
    requires Wf(E) && x < |E.vertices| && y < |E.vertices| && lf < |E.faces| && rf < |E.faces|
    requires AddsEdge(E, E', x, y, lf, rf, index)
    requires !Adjacent(E, x, y)
    ensures Wf(E') && |NeighborSet(E', x)| > |NeighborSet(E, x)|
  {
    var H := |E.halfEdges|;
    AddsEdgeFacts(E, E', x, y, lf, rf, index);
    forall w | w in NeighborSet(E, x) ensures w in NeighborSet(E', x) {
      var e :| e in Rotation(E, x) && Target(E, e) == w;
      assert e in Rotation(E', x);
    }
    assert y in NeighborSet(E', x);
    assert y !in NeighborSet(E, x);
    SubsetCard(NeighborSet(E, x) + {y}, NeighborSet(E', x));
  }

  // ---------------------------------------------------------------------
  // The loop invariant

  /** The ends (start, target) of the `j`-th added edge. */
  ghost function Ends(E0: Embedding, E: Embedding, j: nat): (nat, nat)
    requires Wf(E) && |E0.halfEdges| + 2 * j + 2 <= |E.halfEdges|
  {
    var a := |E0.halfEdges| + 2 * j;
    (Start(E, a), Start(E, a + 1))
  }

  /** The `j`-th added edge: half-edges `H0 + 2j` and `H0 + 2j + 1`,
      partners of each other, with index `m + j`, each listed at its
      start, joining two vertices that were not neighbours in `E0`. */
  ghost predicate NewEdge(E0: Embedding, E: Embedding, j: nat)
    requires Wf(E0) && Wf(E) && |E.vertices| == |E0.vertices|
    requires |E0.halfEdges| + 2 * j + 2 <= |E.halfEdges| && |E0.edges| + j < |E.edges|
  {
    var a := |E0.halfEdges| + 2 * j;
    && E.edges[|E0.edges| + j] == a
    && E.halfEdges[a].index == |E0.edges| + j && E.halfEdges[a + 1].index == |E0.edges| + j
    && E.halfEdges[a].partner == a + 1 && E.halfEdges[a + 1].partner == a
    && a in Rotation(E, Start(E, a)) && a + 1 in Rotation(E, Start(E, a + 1))
    && !Adjacent(E0, Start(E, a), Start(E, a + 1))
  }

  /** `E` is `E0` with `k` crossing edges added: nothing removed or
      rewritten, vertices and faces untouched, rotations only grown, the
      new edges numbered on from the old ones, each between vertices that
      were not neighbours, and no two of them between the same pair. */
  ghost predicate Augments(E0: Embedding, E: Embedding, k: nat)
  {
    Extends(E0, E, k) && AddedEdges(E0, E, k) && DistinctEnds(E0, E, k)
  }

  /** Nothing of `E0` removed or rewritten. */
  ghost predicate Extends(E0: Embedding, E: Embedding, k: nat)
  {
    && Wf(E0) && Wf(E)
    && |E.vertices| == |E0.vertices| && E.faces == E0.faces
    && |E.halfEdges| == |E0.halfEdges| + 2 * k && E.halfEdges[..|E0.halfEdges|] == E0.halfEdges
    && |E.edges| == |E0.edges| + k && E.edges[..|E0.edges|] == E0.edges
    && (forall v :: 0 <= v < |E0.vertices| ==> E.vertices[v].id == E0.vertices[v].id)
    && (forall v, e :: 0 <= v < |E0.vertices| && e in Rotation(E0, v) ==> e in Rotation(E, v))
  }

  /** The `k` appended edges are crossing edges. */
  ghost predicate AddedEdges(E0: Embedding, E: Embedding, k: nat)
    requires Extends(E0, E, k)
  {
    forall j :: 0 <= j < k ==> NewEdge(E0, E, j)
  }

  /** No two appended edges join the same pair of vertices. */
  ghost predicate DistinctEnds(E0: Embedding, E: Embedding, k: nat)
    requires Extends(E0, E, k)
  {
    forall j1, j2 :: 0 <= j1 < j2 < k ==>
      Ends(E0, E, j1) != Ends(E0, E, j2) &&
      Ends(E0, E, j1) != (Ends(E0, E, j2).1, Ends(E0, E, j2).0)
  }

  /** Nothing added yet. */
  lemma AugmentsNothing(E: Embedding)
    requires Wf(E)
    ensures Augments(E, E, 0)
  {
    assert E.halfEdges[..|E.halfEdges|] == E.halfEdges;
    assert E.edges[..|E.edges|] == E.edges;
  }

  /** Half-edges of `E0` keep their start and partner, hence their target. */
  lemma AugmentsTargets(E0: Embedding, E: Embedding, k: nat, e: nat)
    requires Augments(E0, E, k) && e < |E0.halfEdges|
    ensures Start(E, e) == Start(E0, e) && Twin(E, e) == Twin(E0, e) && Target(E, e) == Target(E0, e)
  {
    assert E.halfEdges[e] == E.halfEdges[..|E0.halfEdges|][e];
    var t := Twin(E0, e);
    assert E.halfEdges[t] == E.halfEdges[..|E0.halfEdges|][t];
  }

  /** Adjacency only grows. */
  lemma AugmentsAdjacent(E0: Embedding, E: Embedding, k: nat, x: nat, y: nat)
    requires Augments(E0, E, k) && x < |E0.vertices|
    requires !Adjacent(E, x, y)
    ensures !Adjacent(E0, x, y)
  {
    forall e | e in Rotation(E0, x) ensures Target(E0, e) != y {
      AugmentsTargets(E0, E, k, e);
      assert e in Rotation(E, x);
    }
  }

  /** An earlier added edge never joins x and y when x and y are not
      neighbours. */
  lemma EarlierEdgeElsewhere(E0: Embedding, E: Embedding, k: nat, j: nat, x: nat, y: nat)
    requires Augments(E0, E, k) && j < k && x < |E.vertices|
    requires !Adjacent(E, x, y)
    ensures Ends(E0, E, j) != (x, y) && Ends(E0, E, j) != (y, x)
  {
    assert NewEdge(E0, E, j);
    var a := |E0.halfEdges| + 2 * j;
    assert Twin(E, a) == a + 1 && Twin(E, a + 1) == a;
    if Ends(E0, E, j) == (x, y) {
      assert false;
    }
    if Ends(E0, E, j) == (y, x) {
      assert false;
    }
  }

  /** Adding one crossing edge between non-neighbours x and y, numbered
      m + k, extends the invariant to k + 1 edges. */
  lemma AugmentsStep(E0: Embedding, E: Embedding, E': Embedding, k: nat, x: nat, y: nat, lf: nat, rf: nat)
    requires Augments(E0, E, k)
    requires x < |E.vertices| && y < |E.vertices| && lf < |E.faces| && rf < |E.faces|
    requires AddsEdge(E, E', x, y, lf, rf, |E0.edges| + k)
    requires !Adjacent(E, x, y)
    ensures Augments(E0, E', k + 1)
  {
    StepKeepsOld(E0, E, E', k, x, y, lf, rf);
    StepAdded(E0, E, E', k, x, y, lf, rf);
    StepDistinct(E0, E, E', k, x, y, lf, rf);
  }

  /** The new edge is a crossing edge, and so are the earlier ones. */
  lemma StepAdded(E0: Embedding, E: Embedding, E': Embedding, k: nat, x: nat, y: nat, lf: nat, rf: nat)
    requires Augments(E0, E, k)
    requires x < |E.vertices| && y < |E.vertices| && lf < |E.faces| && rf < |E.faces|
    requires AddsEdge(E, E', x, y, lf, rf, |E0.edges| + k)
    requires !Adjacent(E, x, y)
    ensures Extends(E0, E', k + 1) && AddedEdges(E0, E', k + 1)
  {
    AddsEdgeFacts(E, E', x, y, lf, rf, |E0.edges| + k);
    StepKeepsEarlier(E0, E, E', k, x, y, lf, rf);
    AugmentsAdjacent(E0, E, k, x, y);
    assert NewEdge(E0, E', k);
  }

  /** The new edge joins a pair that no earlier edge joins. */
  lemma StepDistinct(E0: Embedding, E: Embedding, E': Embedding, k: nat, x: nat, y: nat, lf: nat, rf: nat)
    requires Augments(E0, E, k)
    requires x < |E.vertices| && y < |E.vertices| && lf < |E.faces| && rf < |E.faces|
    requires AddsEdge(E, E', x, y, lf, rf, |E0.edges| + k)
    requires !Adjacent(E, x, y)
    ensures Extends(E0, E', k + 1) && DistinctEnds(E0, E', k + 1)
  {
    AddsEdgeFacts(E, E', x, y, lf, rf, |E0.edges| + k);
    StepKeepsEarlier(E0, E, E', k, x, y, lf, rf);
    assert Ends(E0, E', k) == (x, y);
    forall j | 0 <= j < k ensures Ends(E0, E', j) != (x, y) && Ends(E0, E', j) != (y, x) {
      EarlierEdgeElsewhere(E0, E, k, j, x, y);
    }
    assert DistinctEnds(E0, E, k);
  }

  /** The part of `E0` that the step leaves in place. */
  lemma StepKeepsOld(E0: Embedding, E: Embedding, E': Embedding, k: nat, x: nat, y: nat, lf: nat, rf: nat)
    requires Augments(E0, E, k)
    requires x < |E.vertices| && y < |E.vertices| && lf < |E.faces| && rf < |E.faces|
    requires AddsEdge(E, E', x, y, lf, rf, |E0.edges| + k)
    ensures Extends(E0, E', k + 1)
  {
    var H0, m, H := |E0.halfEdges|, |E0.edges|, |E.halfEdges|;
    AddsEdgeWf(E, E', x, y, lf, rf, m + k);
    assert E'.halfEdges[..H0] == E.halfEdges[..H0];
    assert E'.edges[..m] == E.edges[..m];
    forall v, e | 0 <= v < |E0.vertices| && e in Rotation(E0, v) ensures e in Rotation(E', v) {
      assert e in Rotation(E, v);
    }
  }

  /** The edges added before the step stay as they were. */
  lemma StepKeepsEarlier(E0: Embedding, E: Embedding, E': Embedding, k: nat, x: nat, y: nat, lf: nat, rf: nat)
    requires Augments(E0, E, k)
    requires x < |E.vertices| && y < |E.vertices| && lf < |E.faces| && rf < |E.faces|
    requires AddsEdge(E, E', x, y, lf, rf, |E0.edges| + k)
    ensures Extends(E0, E', k + 1)
    ensures forall j :: 0 <= j < k ==> NewEdge(E0, E', j) && Ends(E0, E', j) == Ends(E0, E, j)
  {
    var H0, m, H := |E0.halfEdges|, |E0.edges|, |E.halfEdges|;
    AddsEdgeFacts(E, E', x, y, lf, rf, m + k);
    assert E'.edges[..|E.edges|] == E.edges;
    forall v, e | 0 <= v < |E.vertices| && e in Rotation(E, v) ensures e in Rotation(E', v) {
    }
    StepKeepsOld(E0, E, E', k, x, y, lf, rf);
    forall j | 0 <= j < k ensures NewEdge(E0, E', j) && Ends(E0, E', j) == Ends(E0, E, j) {
      EdgeKept(E0, E, E', j);
    }
  }

  /** One earlier edge survives a step that only appends and grows
      rotations. */
  lemma EdgeKept(E0: Embedding, E: Embedding, E': Embedding, j: nat)
    requires Wf(E0) && Wf(E) && Wf(E') && |E.vertices| == |E0.vertices| && |E'.vertices| == |E.vertices|
    requires |E0.halfEdges| + 2 * j + 2 <= |E.halfEdges| <= |E'.halfEdges|
    requires |E0.edges| + j < |E.edges| <= |E'.edges|
    requires E'.halfEdges[..|E.halfEdges|] == E.halfEdges && E'.edges[..|E.edges|] == E.edges
    requires forall v, e :: 0 <= v < |E.vertices| && e in Rotation(E, v) ==> e in Rotation(E', v)
    requires NewEdge(E0, E, j)
    ensures NewEdge(E0, E', j) && Ends(E0, E', j) == Ends(E0, E, j)
  {
    var a := |E0.halfEdges| + 2 * j;
    assert E'.halfEdges[a] == E.halfEdges[a] && E'.halfEdges[a + 1] == E.halfEdges[a + 1];
    assert E'.edges[|E0.edges| + j] == E.edges[|E0.edges| + j];
    assert a in Rotation(E, Start(E, a)) && a + 1 in Rotation(E, Start(E, a + 1));
  }

  // ---------------------------------------------------------------------
  // Which original edge each crossing edge crosses

  /** Every rotation is still free of repetitions and, read without the
      added half-edges, is the rotation of `E0`. */
  ghost predicate Ordered(E0: Embedding, E: Embedding)
    requires Wf(E0) && Wf(E) && |E.vertices| == |E0.vertices|
  {
    forall v :: 0 <= v < |E0.vertices| ==>
      Distinct<nat>(Rotation(E, v)) && Originals(Rotation(E, v), |E0.halfEdges|) == Rotation(E0, v)
  }

  lemma OrderedStart(E: Embedding)
    requires Wf(E) && RotationsOk(E)
    ensures Ordered(E, E)
  {
    forall v | 0 <= v < |E.vertices|
      ensures Originals(Rotation(E, v), |E.halfEdges|) == Rotation(E, v)
    {
      OriginalsAll(Rotation(E, v), |E.halfEdges|);
    }
  }

  /** One rotation after step 5: at most two new half-edges, H and H + 1,
      inserted. */
  lemma OrderedStepAt(r0: seq<nat>, r: seq<nat>, r': seq<nat>, H0: nat, H: nat, v: nat, x: nat, y: nat, i1: int, i2: int)
    requires Distinct<nat>(r) && Originals(r, H0) == r0 && H0 <= H && forall z :: z in r ==> z < H
    requires v == x ==> 0 <= i1 <= |r|
    requires var r1 := if v == x then InsertAt(r, i1, H) else r;
      && (v == y ==> 0 <= i2 <= |r1| && r' == InsertAt(r1, i2, H + 1))
      && (v != y ==> r' == r1)
    ensures Distinct<nat>(r') && Originals(r', H0) == r0
  {
    var r1 := if v == x then InsertAt(r, i1, H) else r;
    if v == x {
      InsertAtDistinct(r, i1, H);
      OriginalsInsert(r, i1, H, H0);
    }
    assert Distinct<nat>(r1) && Originals(r1, H0) == r0 && forall z :: z in r1 ==> z <= H;
    if v == y {
      InsertAtDistinct(r1, i2, H + 1);
      OriginalsInsert(r1, i2, H + 1, H0);
    }
  }

  /** Step 5 keeps the rotations ordered. */
  lemma OrderedStep(E0: Embedding, E: Embedding, E': Embedding, x: nat, y: nat, V1: seq<PlanarVertex>, i1: int, i2: int)
    requires Wf(E0) && Wf(E) && Wf(E') && |E.vertices| == |E0.vertices| == |E'.vertices|
    requires Ordered(E0, E) && |E0.halfEdges| <= |E.halfEdges| && x < |E.vertices| && y < |E.vertices|
    requires var V, H := E.vertices, |E.halfEdges|;
      && 0 <= i1 <= |V[x].edges| && V1 == V[x := PlanarVertex(V[x].id, InsertAt(V[x].edges, i1, H))]
      && 0 <= i2 <= |V1[y].edges| && E'.vertices == V1[y := PlanarVertex(V1[y].id, InsertAt(V1[y].edges, i2, H + 1))]
    ensures Ordered(E0, E')
  {
    var H0, H := |E0.halfEdges|, |E.halfEdges|;
    forall v | 0 <= v < |E0.vertices|
      ensures Distinct<nat>(Rotation(E', v)) && Originals(Rotation(E', v), H0) == Rotation(E0, v)
    {
      OrderedStepAt(Rotation(E0, v), Rotation(E, v), Rotation(E', v), H0, H, v, x, y, i1, i2);
    }
  }

  /** A half-edge with an index below m is one of `E0`. */
  lemma OriginalByIndex(E0: Embedding, E: Embedding, k: nat, e: nat)
    requires Augments(E0, E, k) && e < |E.halfEdges| && Index(E, e) < |E0.edges|
    ensures e < |E0.halfEdges|
  {
    if e >= |E0.halfEdges| {
      NewIndex(E0, E, k, e);
    }
  }

  /** An added half-edge carries an index of m or more. */
  lemma NewIndex(E0: Embedding, E: Embedding, k: nat, e: nat)
    requires Augments(E0, E, k) && |E0.halfEdges| <= e < |E.halfEdges|
    ensures Index(E, e) >= |E0.edges|
  {
    var j := (e - |E0.halfEdges|) / 2;
    assert NewEdge(E0, E, j);
  }

  /** `cs[j]` is the original half-edge u -> v that the `j`-th added edge
      crosses: that edge runs from the apex x of the triangle right of
      u -> v to the apex y of the triangle left of it. */
  ghost predicate CrossesAt(E0: Embedding, E: Embedding, k: nat, cs: seq<nat>)
    requires Extends(E0, E, k) && BoundariesOk(E0)
  {
    && |cs| == k
    && forall j :: 0 <= j < k ==>
         cs[j] < |E0.halfEdges| && Ends(E0, E, j) == (Apex(E0, Twin(E0, cs[j])), Apex(E0, cs[j]))
  }

  /** A proposal of the scan over a plane triangulation describes the two
      triangles at an original edge u -> v: x is the apex right of it and
      y the apex left of it.  The checked half-edges are original ones, and
      original half-edges that follow each other in the grown rotations
      followed each other before. */
  lemma ProposalCrosses(E0: Embedding, E: Embedding, k: nat, m: int, x: nat, i: nat, p: Step)
    requires Augments(E0, E, k) && PlaneTriangulation(E0) && Ordered(E0, E) && m == |E0.edges|
    requires x < |E.vertices| && i < |Rotation(E, x)| && p.Propose? && CrossingQuad(E, m, x, i, p)
    ensures p.uv < |E0.halfEdges|
    ensures x == Apex(E0, Twin(E0, p.uv)) && p.y == Apex(E0, p.uv)
    ensures p.xu < |E0.halfEdges| && p.xv < |E0.halfEdges| && p.uy < |E0.halfEdges| && p.vy < |E0.halfEdges|
    ensures p.vu == Twin(E0, p.uv) && p.vu == FaceSuccessor(E0, p.xv) && p.vy == FaceSuccessor(E0, p.uv)
  {
    ProposalOriginals(E0, E, k, m, x, i, p);
    var w := Target(E0, p.xv);
    GrownNext(E0, E, k, w, Twin(E0, p.xv), p.vu);
    TwinTwin(E0, p.xv);
    GrownNext(E0, E, k, Start(E0, p.vu), p.vu, p.vy);
    TwinTwin(E0, p.uv);
    OriginalListedAt(E0, E, x, p.xv);
    TriangleSteps(E0, p.xv);
  }

  /** The half-edges of a proposal are original ones, and they are joined
      in `E0` as they are in `E`. */
  lemma ProposalOriginals(E0: Embedding, E: Embedding, k: nat, m: int, x: nat, i: nat, p: Step)
    requires Augments(E0, E, k) && RotationsOk(E0) && m == |E0.edges|
    requires x < |E.vertices| && i < |Rotation(E, x)| && p.Propose? && CrossingQuad(E, m, x, i, p)
    ensures p.xu < |E0.halfEdges| && p.xv < |E0.halfEdges| && p.uv < |E0.halfEdges|
    ensures p.uy < |E0.halfEdges| && p.vu < |E0.halfEdges| && p.vy < |E0.halfEdges|
    ensures p.xu in Rotation(E, x) && p.xv in Rotation(E, x)
    ensures Twin(E0, p.xu) in Rotation(E, Target(E0, p.xu))
    ensures p.uv == PrevCyclic<nat>(Rotation(E, Target(E0, p.xu)), Twin(E0, p.xu))
    ensures p.uv in Rotation(E, Start(E0, p.uv)) && p.uy == PrevCyclic<nat>(Rotation(E, Start(E0, p.uv)), p.uv)
    ensures p.vu == Twin(E0, p.uv) && Target(E0, p.uy) == p.y && Target(E0, p.vy) == p.y
    ensures Target(E0, p.uv) == Target(E0, p.xv) && p.uv in Rotation(E, Target(E0, p.xu))
    ensures Twin(E0, p.xv) in Rotation(E, Target(E0, p.xv)) && |Rotation(E, Target(E0, p.xv))| > 0
    ensures p.vu == NextCyclic<nat>(Rotation(E, Target(E0, p.xv)), Twin(E0, p.xv))
    ensures p.vu in Rotation(E, Start(E0, p.vu)) && |Rotation(E, Start(E0, p.vu))| > 0
    ensures p.vy == NextCyclic<nat>(Rotation(E, Start(E0, p.vu)), p.vu)
  {
    var rot := Rotation(E, x);
    assert p.xu in rot && p.xv in rot;
    OriginalByIndex(E0, E, k, p.xu);
    OriginalByIndex(E0, E, k, p.xv);
    OriginalByIndex(E0, E, k, p.uv);
    OriginalByIndex(E0, E, k, p.uy);
    OriginalByIndex(E0, E, k, p.vu);
    OriginalByIndex(E0, E, k, p.vy);
    AugmentsTargets(E0, E, k, p.xu);
    AugmentsTargets(E0, E, k, p.xv);
    AugmentsTargets(E0, E, k, p.uv);
    AugmentsTargets(E0, E, k, p.uy);
    AugmentsTargets(E0, E, k, p.vu);
    AugmentsTargets(E0, E, k, p.vy);
    assert Twin(E0, p.xv) in Rotation(E0, Start(E0, Twin(E0, p.xv)));
  }

  /** Two original half-edges that follow each other in a grown rotation
      followed each other before, so the second follows the partner of the
      first along its face. */
  lemma GrownNext(E0: Embedding, E: Embedding, k: nat, w: nat, a: nat, b: nat)
    requires Extends(E0, E, k) && RotationsOk(E0) && BoundariesOk(E0) && Consistent(E0) && Ordered(E0, E)
    requires w < |E.vertices| && a < |E0.halfEdges| && b < |E0.halfEdges| && a in Rotation(E, w)
    requires |Rotation(E, w)| > 0 && NextCyclic<nat>(Rotation(E, w), a) == b
    ensures Start(E0, a) == w && FaceSuccessor(E0, Twin(E0, a)) == b
  {
    OriginalsNext(Rotation(E, w), a, |E0.halfEdges|);
    OriginalListedAt(E0, E, w, a);
    TwinTwin(E0, a);
    FaceSuccessorFacts(E0, Twin(E0, a));
  }

  /** Step 5 records the crossed edge of the new crossing edge. */
  lemma CrossesStep(E0: Embedding, E: Embedding, E': Embedding, k: nat, cs: seq<nat>, c: nat,
                    x: nat, y: nat, lf: nat, rf: nat)
    requires Augments(E0, E, k) && BoundariesOk(E0) && CrossesAt(E0, E, k, cs)
    requires x < |E.vertices| && y < |E.vertices| && lf < |E.faces| && rf < |E.faces|
    requires AddsEdge(E, E', x, y, lf, rf, |E0.edges| + k)
    requires c < |E0.halfEdges| && x == Apex(E0, Twin(E0, c)) && y == Apex(E0, c)
    ensures Extends(E0, E', k + 1) && CrossesAt(E0, E', k + 1, cs + [c])
  {
    AddsEdgeFacts(E, E', x, y, lf, rf, |E0.edges| + k);
    StepKeepsEarlier(E0, E, E', k, x, y, lf, rf);
    assert Ends(E0, E', k) == (x, y);
    CrossesExtend(E0, E, E', k, cs, c);
  }

  /** The record of crossed edges grows with the added edges. */
  lemma CrossesExtend(E0: Embedding, E: Embedding, E': Embedding, k: nat, cs: seq<nat>, c: nat)
    requires Extends(E0, E, k) && Extends(E0, E', k + 1) && BoundariesOk(E0) && CrossesAt(E0, E, k, cs)
    requires forall j :: 0 <= j < k ==> Ends(E0, E', j) == Ends(E0, E, j)
    requires c < |E0.halfEdges| && Ends(E0, E', k) == (Apex(E0, Twin(E0, c)), Apex(E0, c))
    ensures CrossesAt(E0, E', k + 1, cs + [c])
  {
    var cs' := cs + [c];
    forall j | 0 <= j < k + 1
      ensures cs'[j] < |E0.halfEdges| && Ends(E0, E', j) == (Apex(E0, Twin(E0, cs'[j])), Apex(E0, cs'[j]))
    {
      if j < k {
        assert cs'[j] == cs[j] && Ends(E0, E', j) == Ends(E0, E, j);
      } else {
        assert cs'[j] == c;
      }
    }
  }

  /** No original edge is crossed twice: the crossed half-edges of two
      added edges are neither equal nor partners, since the two edges
      would then join the same two apexes. */
  lemma CrossedOnce(E0: Embedding, E: Embedding, k: nat, cs: seq<nat>)
    requires Augments(E0, E, k) && BoundariesOk(E0) && CrossesAt(E0, E, k, cs)
    ensures forall j1, j2 :: 0 <= j1 < j2 < k ==> cs[j1] != cs[j2] && cs[j1] != Twin(E0, cs[j2])
  {
    forall j1, j2 | 0 <= j1 < j2 < k ensures cs[j1] != cs[j2] && cs[j1] != Twin(E0, cs[j2]) {
      TwinTwin(E0, cs[j2]);
      assert Ends(E0, E, j1) != Ends(E0, E, j2);
      assert Ends(E0, E, j1) != (Ends(E0, E, j2).1, Ends(E0, E, j2).0);
    }
  }

  /** With four or more vertices no added edge is a loop. */
  lemma CrossingsNoLoops(E0: Embedding, E: Embedding, k: nat, cs: seq<nat>)
    requires Augments(E0, E, k) && PlaneTriangulation(E0) && |E0.vertices| >= 4 && CrossesAt(E0, E, k, cs)
    ensures forall j :: 0 <= j < k ==> Ends(E0, E, j).0 != Ends(E0, E, j).1
  {
    forall j | 0 <= j < k ensures Ends(E0, E, j).0 != Ends(E0, E, j).1 {
      ApexesDiffer(E0, cs[j]);
    }
  }

  // ---------------------------------------------------------------------
  // No triangle under two crossing edges

  /** The corner at the target w of the original half-edge `h`, inside the
      triangle left of `h`, holds no added half-edge: in the grown rotation
      of w the partner of `h` is still followed by the successor of `h`
      along that triangle. */
  ghost predicate CornerClosed(E0: Embedding, E: Embedding, h: nat)
    requires Wf(E0) && BoundariesOk(E0) && Wf(E) && |E.vertices| == |E0.vertices| && h < |E0.halfEdges|
  {
    var w := Target(E0, h);
    |Rotation(E, w)| > 0 && NextCyclic<nat>(Rotation(E, w), Twin(E0, h)) == FaceSuccessor(E0, h)
  }

  /** What steps 1 to 3 check before x - y is added across `c`: the three
      corners of the triangle right of `c`, and the corners at u and v of
      the triangle left of it, hold no added half-edge. */
  ghost predicate QuadrilateralClosed(E0: Embedding, E: Embedding, c: nat)
    requires Wf(E0) && BoundariesOk(E0) && Wf(E) && |E.vertices| == |E0.vertices| && c < |E0.halfEdges|
  {
    var t := Twin(E0, c);
    var b1 := FaceSuccessor(E0, t);
    && CornerClosed(E0, E, t) && CornerClosed(E0, E, b1) && CornerClosed(E0, E, FaceSuccessor(E0, b1))
    && CornerClosed(E0, E, c) && CornerClosed(E0, E, FaceSuccessor(E0, FaceSuccessor(E0, c)))
  }

  /** Each added edge x - y lies in the corner at x of the triangle right
      of its crossed half-edge and in the corner at y of the triangle left
      of it. */
  ghost predicate Occupies(E0: Embedding, E: Embedding, cs: seq<nat>)
    requires Wf(E0) && BoundariesOk(E0) && Wf(E) && |E.vertices| == |E0.vertices|
  {
    forall j :: 0 <= j < |cs| ==>
      && cs[j] < |E0.halfEdges|
      && !CornerClosed(E0, E, FaceSuccessor(E0, Twin(E0, cs[j])))
      && !CornerClosed(E0, E, FaceSuccessor(E0, cs[j]))
  }

  /** No triangle at `a` is a triangle at `b`. */
  ghost predicate DisjointTriangles(E0: Embedding, a: nat, b: nat)
    requires Wf(E0) && a < |E0.halfEdges| && b < |E0.halfEdges|
  {
    && LeftFace(E0, a) != LeftFace(E0, b) && LeftFace(E0, a) != RightFace(E0, b)
    && RightFace(E0, a) != LeftFace(E0, b) && RightFace(E0, a) != RightFace(E0, b)
  }

  /** The two triangles at each crossed half-edge differ, and no triangle
      lies at the crossed half-edges of two added edges. */
  ghost predicate FacesApart(E0: Embedding, cs: seq<nat>)
    requires Wf(E0)
  {
    && (forall j :: 0 <= j < |cs| ==> cs[j] < |E0.halfEdges| && LeftFace(E0, cs[j]) != RightFace(E0, cs[j]))
    && (forall j1, j2 :: 0 <= j1 < j2 < |cs| && cs[j1] < |E0.halfEdges| && cs[j2] < |E0.halfEdges| ==>
          DisjointTriangles(E0, cs[j1], cs[j2]))
  }

  /** An original half-edge listed in a grown rotation starts at its vertex. */
  lemma OriginalListedAt(E0: Embedding, E: Embedding, v: nat, e: nat)
    requires Wf(E0) && RotationsOk(E0) && Wf(E) && |E.vertices| == |E0.vertices| && Ordered(E0, E)
    requires v < |E.vertices| && e < |E0.halfEdges| && e in Rotation(E, v)
    ensures Start(E0, e) == v
  {
    assert e in Originals(Rotation(E, v), |E0.halfEdges|);
  }

  /** The entry at position `i` follows the entry before it, cyclically. */
  lemma NextAtPosition(s: seq<nat>, i: nat)
    requires Distinct<nat>(s) && i < |s|
    ensures NextCyclic<nat>(s, s[if i == 0 then |s| - 1 else i - 1]) == s[i]
  {
    IndexOfDistinct<nat>(s, if i == 0 then |s| - 1 else i - 1);
  }

  /** A quadrilateral the scan accepts over a plane triangulation has all
      the corners it checks free of added half-edges. */
  lemma ProposalCorners(E0: Embedding, E: Embedding, k: nat, m: int, x: nat, i: nat, p: Step)
    requires Augments(E0, E, k) && PlaneTriangulation(E0) && Ordered(E0, E) && m == |E0.edges|
    requires x < |E.vertices| && i < |Rotation(E, x)| && p.Propose? && CrossingQuad(E, m, x, i, p)
    ensures p.uv < |E0.halfEdges| && QuadrilateralClosed(E0, E, p.uv)
    ensures p.xu == Twin(E0, FaceSuccessor(E0, Twin(E0, p.uv))) && p.vy == FaceSuccessor(E0, p.uv)
    ensures x == Apex(E0, Twin(E0, p.uv)) && p.y == Apex(E0, p.uv)
  {
    ProposalCrosses(E0, E, k, m, x, i, p);
    ProposalRightClosed(E0, E, k, m, x, i, p);
    ProposalLeftClosed(E0, E, k, m, x, i, p);
  }

  /** The same, stated for step 5 whatever the input. */
  lemma ProposalChecked(E0: Embedding, E: Embedding, k: nat, m: int, x: nat, i: nat, p: Step)
    requires Augments(E0, E, k) && (PlaneTriangulation(E0) ==> Ordered(E0, E)) && m == |E0.edges|
    requires x < |E.vertices| && i < |Rotation(E, x)| && p.Propose? && CrossingQuad(E, m, x, i, p)
    ensures p.xv < |E.halfEdges| && p.vy < |E.halfEdges| && p.y == Target(E, p.vy) && p.xu in Rotation(E, x)
    ensures Checked(E0, E, p.uv, x, p.y, p.xu, p.vy)
  {
    var rot := Rotation(E, x);
    assert p.xu == rot[if i == 0 then |rot| - 1 else i - 1];
    if PlaneTriangulation(E0) {
      ProposalCorners(E0, E, k, m, x, i, p);
    }
  }


  /** Over a plane triangulation steps 1 to 3 never throw, whatever the
      scan has added before: the rotations read without added half-edges
      are the original ones, so the lookups find their half-edges and the
      quadrilateral around every original edge closes. */
  lemma CrossingChecks(E0: Embedding, E: Embedding, k: nat, m: int, x: nat, i: nat)
    requires Augments(E0, E, k) && (PlaneTriangulation(E0) ==> Ordered(E0, E)) && m == |E0.edges|
    requires x < |E.vertices| && i < |Rotation(E, x)|
    ensures PlaneTriangulation(E0) ==> Crossing(E, m, x, i).Ok?
  {
    if PlaneTriangulation(E0) {
      CrossingTotal(E0, E, k, m, x, i);
    }
  }

  /** Step 1: two original half-edges xu, xv that follow each other at x
      bound the triangle x -> v -> u. */
  lemma CrossingTotal(E0: Embedding, E: Embedding, k: nat, m: int, x: nat, i: nat)
    requires Augments(E0, E, k) && PlaneTriangulation(E0) && Ordered(E0, E) && m == |E0.edges|
    requires x < |E.vertices| && i < |Rotation(E, x)|
    ensures Crossing(E, m, x, i).Ok?
  {
    var rot := Rotation(E, x);
    var xu, xv := rot[if i == 0 then |rot| - 1 else i - 1], rot[i];
    CrossingCases(E, m, x, i);
    if Index(E, xu) < m && Index(E, xv) < m {
      OriginalByIndex(E0, E, k, xu);
      OriginalByIndex(E0, E, k, xv);
      assert Distinct<nat>(rot);
      TurnAtX(E0, E, k, x, i, xu, xv);
      AtUTotal(E0, E, k, m, xu, xv);
    }
  }

  /** Step 1 decides alone unless both xu and xv are original. */
  lemma CrossingCases(E: Embedding, m: int, x: nat, i: nat)
    requires Wf(E) && x < |E.vertices| && i < |Rotation(E, x)|
    ensures var rot := Rotation(E, x); var xu, xv := rot[if i == 0 then |rot| - 1 else i - 1], rot[i];
      (Index(E, xu) >= m || Index(E, xv) >= m || CrossingAtU(E, m, xu, xv).Ok?) ==> Crossing(E, m, x, i).Ok?
  {
  }

  /** Two original half-edges that follow each other at x: the second
      follows the partner of the first along its face. */
  lemma TurnAtX(E0: Embedding, E: Embedding, k: nat, x: nat, i: nat, xu: nat, xv: nat)
    requires Extends(E0, E, k) && RotationsOk(E0) && BoundariesOk(E0) && Consistent(E0) && Ordered(E0, E)
    requires x < |E.vertices| && i < |Rotation(E, x)| && Distinct<nat>(Rotation(E, x))
    requires xu == Rotation(E, x)[if i == 0 then |Rotation(E, x)| - 1 else i - 1] && xv == Rotation(E, x)[i]
    requires xu < |E0.halfEdges| && xv < |E0.halfEdges|
    ensures FaceSuccessor(E0, Twin(E0, xu)) == xv
  {
    NextAtPosition(Rotation(E, x), i);
    GrownNext(E0, E, k, x, xu, xv);
  }

  /** Steps 2 and 3.1: at u the original edge before u -> x is u -> v, the
      third side of that triangle. */
  lemma AtUTotal(E0: Embedding, E: Embedding, k: nat, m: int, xu: nat, xv: nat)
    requires Augments(E0, E, k) && PlaneTriangulation(E0) && Ordered(E0, E) && m == |E0.edges|
    requires xu < |E0.halfEdges| && xv < |E0.halfEdges| && FaceSuccessor(E0, Twin(E0, xu)) == xv
    ensures CrossingAtU(E, m, xu, xv).Ok?
  {
    var u, t := Target(E0, xu), Twin(E0, xu);
    AugmentsTargets(E0, E, k, xu);
    AugmentsTargets(E0, E, k, xv);
    AugmentsTargets(E0, E, k, t);
    assert t in Rotation(E0, Start(E0, t));
    var rot := Rotation(E, u);
    assert PreviousEdgeAtStart(E, t) == Ok(PrevCyclic<nat>(rot, t));
    var uv := PrevCyclic<nat>(rot, t);
    NextOfPrev<nat>(rot, t);
    if Index(E, uv) < m {
      OriginalByIndex(E0, E, k, uv);
      GrownNext(E0, E, k, u, uv, t);
      AugmentsTargets(E0, E, k, uv);
      var s2 := FaceSuccessor(E0, xv);
      TriangleSteps(E0, t);
      FaceSuccessorInjective(E0, Twin(E0, uv), s2);
      assert Target(E, uv) == Target(E, xv);
      NextOfPrev<nat>(rot, uv);
      var uy := PrevCyclic<nat>(rot, uv);
      assert PreviousEdgeAtStart(E, uv) == Ok(uy);
      if Index(E, uy) < m {
        OriginalByIndex(E0, E, k, uy);
        AtVTotal(E0, E, k, m, u, xu, xv, uv, uy);
      }
    }
  }

  /** Step 3.2: at v the original edges after v -> x are v -> u and then
      v -> y, where u -> y is the original edge before u -> v at u. */
  lemma AtVTotal(E0: Embedding, E: Embedding, k: nat, m: int, u: nat, xu: nat, xv: nat, uv: nat, uy: nat)
    requires Augments(E0, E, k) && PlaneTriangulation(E0) && Ordered(E0, E) && m == |E0.edges|
    requires xv < |E0.halfEdges| && uv < |E0.halfEdges| && uy < |E0.halfEdges| && u < |E.vertices|
    requires Twin(E0, uv) == FaceSuccessor(E0, xv) && Start(E0, uv) == u
    requires uy in Rotation(E, u) && NextCyclic<nat>(Rotation(E, u), uy) == uv
    ensures CrossingAtV(E, m, u, xu, xv, uv, uy).Ok?
  {
    var v, tv := Target(E0, xv), Twin(E0, xv);
    AugmentsTargets(E0, E, k, xv);
    AugmentsTargets(E0, E, k, tv);
    assert tv in Rotation(E0, Start(E0, tv));
    var rot := Rotation(E, v);
    var vu := NextCyclic<nat>(rot, tv);
    assert NextEdgeAtStart(E, tv) == Ok(vu);
    if Index(E, vu) < m {
      OriginalByIndex(E0, E, k, vu);
      GrownNext(E0, E, k, v, tv, vu);
      TwinTwin(E0, xv);
      TwinTwin(E0, uv);
      AugmentsTargets(E0, E, k, vu);
      assert Target(E, vu) == u && Twin(E, vu) == uv;
      NextOfPrev<nat>(rot, tv);
      var vy := NextCyclic<nat>(rot, vu);
      assert NextEdgeAtStart(E, vu) == Ok(vy);
      if Index(E, vy) < m {
        OriginalByIndex(E0, E, k, vy);
        GrownNext(E0, E, k, v, vu, vy);
        GrownNext(E0, E, k, u, uy, uv);
        AugmentsTargets(E0, E, k, uy);
        AugmentsTargets(E0, E, k, vy);
        TriangleSteps(E0, uv);
        FaceSuccessorInjective(E0, Twin(E0, uy), FaceSuccessor(E0, FaceSuccessor(E0, uv)));
        assert Target(E, vy) == Target(E, uy);
      }
    }
  }
  /** The three corners of the triangle right of u -> v are closed; xu is
      the partner of the side u -> x. */
  lemma ProposalRightClosed(E0: Embedding, E: Embedding, k: nat, m: int, x: nat, i: nat, p: Step)
    requires Augments(E0, E, k) && PlaneTriangulation(E0) && Ordered(E0, E) && m == |E0.edges|
    requires x < |E.vertices| && i < |Rotation(E, x)| && p.Propose? && CrossingQuad(E, m, x, i, p)
    ensures p.uv < |E0.halfEdges|
    ensures var b1 := FaceSuccessor(E0, Twin(E0, p.uv));
      && p.xu == Twin(E0, b1) && Target(E0, b1) == x
      && CornerClosed(E0, E, Twin(E0, p.uv)) && CornerClosed(E0, E, b1) && CornerClosed(E0, E, FaceSuccessor(E0, b1))
  {
    ProposalRightSides(E0, E, k, m, x, i, p);
    assert Distinct<nat>(Rotation(E, x));
    ProposalTurn(E, m, x, i, p);
    RightCorners(E0, E, k, x, p.uv, p.xu, p.xv);
  }

  /** xu and xv follow each other in the rotation of x. */
  lemma ProposalTurn(E: Embedding, m: int, x: nat, i: nat, p: Step)
    requires Wf(E) && x < |E.vertices| && i < |Rotation(E, x)| && p.Propose? && CrossingQuad(E, m, x, i, p)
    requires Distinct<nat>(Rotation(E, x))
    ensures p.xu in Rotation(E, x) && p.xv in Rotation(E, x) && NextCyclic<nat>(Rotation(E, x), p.xu) == p.xv
  {
    NextAtPosition(Rotation(E, x), i);
  }

  /** The facts about the triangle right of u -> v that a proposal gives. */
  lemma ProposalRightSides(E0: Embedding, E: Embedding, k: nat, m: int, x: nat, i: nat, p: Step)
    requires Augments(E0, E, k) && PlaneTriangulation(E0) && Ordered(E0, E) && m == |E0.edges|
    requires x < |E.vertices| && i < |Rotation(E, x)| && p.Propose? && CrossingQuad(E, m, x, i, p)
    ensures p.uv < |E0.halfEdges| && p.xu < |E0.halfEdges| && p.xv < |E0.halfEdges|
    ensures Twin(E0, p.uv) == FaceSuccessor(E0, p.xv)
    ensures Twin(E0, p.xu) in Rotation(E, Target(E0, p.xu)) && p.uv in Rotation(E, Target(E0, p.xu))
    ensures p.uv == PrevCyclic<nat>(Rotation(E, Target(E0, p.xu)), Twin(E0, p.xu))
    ensures Twin(E0, p.xv) in Rotation(E, Target(E0, p.xv))
    ensures Twin(E0, p.uv) == NextCyclic<nat>(Rotation(E, Target(E0, p.xv)), Twin(E0, p.xv))
  {
    ProposalCrosses(E0, E, k, m, x, i, p);
    ProposalOriginals(E0, E, k, m, x, i, p);
  }

  /** The corners at u and v of the triangle left of u -> v are closed; the
      side after u -> v is vy. */
  lemma ProposalLeftClosed(E0: Embedding, E: Embedding, k: nat, m: int, x: nat, i: nat, p: Step)
    requires Augments(E0, E, k) && PlaneTriangulation(E0) && Ordered(E0, E) && m == |E0.edges|
    requires x < |E.vertices| && i < |Rotation(E, x)| && p.Propose? && CrossingQuad(E, m, x, i, p)
    ensures p.uv < |E0.halfEdges| && p.vy == FaceSuccessor(E0, p.uv)
    ensures CornerClosed(E0, E, p.uv) && CornerClosed(E0, E, FaceSuccessor(E0, FaceSuccessor(E0, p.uv)))
  {
    ProposalCrosses(E0, E, k, m, x, i, p);
    ProposalOriginals(E0, E, k, m, x, i, p);
    TwinTwin(E0, p.uv);
    LeftCorners(E0, E, k, p.uv, p.uy);
  }

  /** The three corners of the triangle x -> v -> u right of u -> v, as the
      scan sees them: xu then xv at x, u -> v just before u -> x at u, and
      v -> u just after v -> x at v. */
  lemma RightCorners(E0: Embedding, E: Embedding, k: nat, x: nat, c: nat, xu: nat, xv: nat)
    requires Extends(E0, E, k) && PlaneTriangulation(E0) && Ordered(E0, E)
    requires x < |E.vertices| && c < |E0.halfEdges| && xu < |E0.halfEdges| && xv < |E0.halfEdges|
    requires Twin(E0, c) == FaceSuccessor(E0, xv)
    requires xu in Rotation(E, x) && xv in Rotation(E, x) && NextCyclic<nat>(Rotation(E, x), xu) == xv
    requires Twin(E0, xu) in Rotation(E, Target(E0, xu)) && c in Rotation(E, Target(E0, xu))
    requires c == PrevCyclic<nat>(Rotation(E, Target(E0, xu)), Twin(E0, xu))
    requires Twin(E0, xv) in Rotation(E, Target(E0, xv))
    requires Twin(E0, c) == NextCyclic<nat>(Rotation(E, Target(E0, xv)), Twin(E0, xv))
    ensures var b1 := FaceSuccessor(E0, Twin(E0, c));
      && xu == Twin(E0, b1) && Target(E0, b1) == x
      && CornerClosed(E0, E, Twin(E0, c)) && CornerClosed(E0, E, b1) && CornerClosed(E0, E, FaceSuccessor(E0, b1))
  {
    var t := Twin(E0, c);
    var b1 := FaceSuccessor(E0, t);
    OriginalListedAt(E0, E, x, xu);
    OriginalListedAt(E0, E, x, xv);
    OriginalListedAt(E0, E, Target(E0, xu), c);
    TriangleSteps(E0, xv);
    TwinTwin(E0, c);
    TwinTwin(E0, xu);
    SameEnds(E0, xu, Twin(E0, b1));
    NextOfPrev<nat>(Rotation(E, Target(E0, xu)), Twin(E0, xu));
  }

  /** The corners at u and v of the triangle u -> v -> y left of u -> v:
      u -> y just before u -> v at u, and v -> y just after v -> u at v. */
  lemma LeftCorners(E0: Embedding, E: Embedding, k: nat, c: nat, uy: nat)
    requires Extends(E0, E, k) && PlaneTriangulation(E0) && Ordered(E0, E)
    requires c < |E0.halfEdges| && uy < |E0.halfEdges|
    requires c in Rotation(E, Start(E0, c)) && uy == PrevCyclic<nat>(Rotation(E, Start(E0, c)), c)
    requires Target(E0, uy) == Target(E0, FaceSuccessor(E0, c))
    requires Twin(E0, c) in Rotation(E, Target(E0, c))
    requires FaceSuccessor(E0, c) == NextCyclic<nat>(Rotation(E, Target(E0, c)), Twin(E0, c))
    ensures var a2 := FaceSuccessor(E0, FaceSuccessor(E0, c));
      uy == Twin(E0, a2) && CornerClosed(E0, E, c) && CornerClosed(E0, E, a2)
  {
    var a2 := FaceSuccessor(E0, FaceSuccessor(E0, c));
    var u := Start(E0, c);
    NextOfPrev<nat>(Rotation(E, u), c);
    OriginalListedAt(E0, E, u, uy);
    TriangleSteps(E0, c);
    TwinTwin(E0, a2);
    SameEnds(E0, uy, Twin(E0, a2));
  }

  /** In a simple embedding a half-edge is fixed by its two ends. */
  lemma SameEnds(E: Embedding, h: nat, g: nat)
    requires Wf(E) && Simple(E) && h < |E.halfEdges| && g < |E.halfEdges|
    requires Start(E, h) == Start(E, g) && Target(E, h) == Target(E, g)
    ensures h == g
  {
  }

  /** One insertion of step 5 in one rotation, if it happens there: the
      entry after `p` can only change to the new half-edge `z`, and only
      when `p` is the anchor. */
  lemma InsertionApart(r: seq<nat>, r1: seq<nat>, z: nat, at: bool, a: nat, p: nat, q: nat)
    requires Distinct<nat>(r) && z !in r && p in r && q != z
    requires at ==> a in r
    requires r1 == if at then InsertAfter(r, z, a) else r
    requires (at && p == a) || NextCyclic<nat>(r, p) != q
    ensures Distinct<nat>(r1) && |r1| > 0 && p in r1 && NextCyclic<nat>(r1, p) != q
    ensures forall e :: e in r1 <==> e in r || (at && e == z)
  {
    if at {
      InsertAfterNext<nat>(r, z, a);
      InsertAfterApart<nat>(r, z, a, p, q);
    }
  }

  /** The two insertions of step 5 in one rotation: a corner that held an
      added half-edge still does, and so does the corner behind each
      anchor. */
  lemma InsertionsApart(r: seq<nat>, r1: seq<nat>, r': seq<nat>, H: nat, atX: bool, atY: bool,
                        xu: nat, t: nat, p: nat, q: nat)
    requires Distinct<nat>(r) && (forall z :: z in r ==> z < H) && p in r && q < H
    requires atX ==> xu in r
    requires atY ==> t in r
    requires r1 == if atX then InsertAfter(r, H, xu) else r
    requires r' == if atY then InsertAfter(r1, H + 1, t) else r1
    requires (atX && p == xu) || (atY && p == t) || NextCyclic<nat>(r, p) != q
    ensures |r'| > 0 && NextCyclic<nat>(r', p) != q
  {
    if atX {
      InsertAfterNext<nat>(r, H, xu);
    }
    assert Distinct<nat>(r1) && p in r1 && H + 1 !in r1;
    if (atX && p == xu) || NextCyclic<nat>(r, p) != q {
      InsertionApart(r, r1, H, atX, xu, p, q);
    }
    InsertionApart(r1, r', H + 1, atY, t, p, q);
  }

  /** Step 5 keeps every occupied corner occupied and occupies the corner
      behind each of its two anchors. */
  lemma CornerStep(E0: Embedding, E: Embedding, E': Embedding, x: nat, y: nat, xu: nat, t: nat,
                   V1: seq<PlanarVertex>, h: nat)
    requires Wf(E0) && RotationsOk(E0) && BoundariesOk(E0) && Wf(E) && Wf(E')
    requires |E.vertices| == |E0.vertices| == |E'.vertices| && Ordered(E0, E) && |E0.halfEdges| <= |E.halfEdges|
    requires x < |E.vertices| && y < |E.vertices| && xu in Rotation(E, x) && t in Rotation(E, y)
    requires var V, H := E.vertices, |E.halfEdges|;
      && V1 == V[x := PlanarVertex(V[x].id, InsertAfter(V[x].edges, H, xu))]
      && E'.vertices == V1[y := PlanarVertex(V1[y].id, InsertAfter(V1[y].edges, H + 1, t))]
    requires h < |E0.halfEdges|
    requires (Target(E0, h) == x && Twin(E0, h) == xu) || (Target(E0, h) == y && Twin(E0, h) == t)
             || !CornerClosed(E0, E, h)
    ensures !CornerClosed(E0, E', h)
  {
    var w := Target(E0, h);
    var p := Twin(E0, h);
    assert p in Rotation(E0, Start(E0, p));
    assert p in Originals(Rotation(E, w), |E0.halfEdges|);
    var r := Rotation(E, w);
    var r1 := V1[w].edges;
    InsertionsApart(r, r1, Rotation(E', w), |E.halfEdges|, w == x, w == y, xu, t, p, FaceSuccessor(E0, h));
  }

  /** Step 5 with anchors xu at x and `t` at y, as far as corners go:
      every occupied corner stays occupied, and the corner behind each
      anchor becomes occupied. */
  ghost predicate CornersKept(E0: Embedding, E: Embedding, E': Embedding, x: nat, y: nat, xu: nat, t: nat)
    requires Wf(E0) && BoundariesOk(E0) && Wf(E) && Wf(E')
    requires |E.vertices| == |E0.vertices| == |E'.vertices|
  {
    forall h :: 0 <= h < |E0.halfEdges| &&
      ((Target(E0, h) == x && Twin(E0, h) == xu) || (Target(E0, h) == y && Twin(E0, h) == t) || !CornerClosed(E0, E, h))
      ==> !CornerClosed(E0, E', h)
  }

  /** The two insertions of step 5 keep the corners as `CornersKept` says. */
  lemma CornerSteps(E0: Embedding, E: Embedding, E': Embedding, x: nat, y: nat, xu: nat, t: nat,
                    V1: seq<PlanarVertex>)
    requires Wf(E0) && RotationsOk(E0) && BoundariesOk(E0) && Wf(E) && Wf(E')
    requires |E.vertices| == |E0.vertices| == |E'.vertices| && Ordered(E0, E) && |E0.halfEdges| <= |E.halfEdges|
    requires x < |E.vertices| && y < |E.vertices| && xu in Rotation(E, x) && t in Rotation(E, y)
    requires var V, H := E.vertices, |E.halfEdges|;
      && V1 == V[x := PlanarVertex(V[x].id, InsertAfter(V[x].edges, H, xu))]
      && E'.vertices == V1[y := PlanarVertex(V1[y].id, InsertAfter(V1[y].edges, H + 1, t))]
    ensures CornersKept(E0, E, E', x, y, xu, t)
  {
    forall h | 0 <= h < |E0.halfEdges| &&
      ((Target(E0, h) == x && Twin(E0, h) == xu) || (Target(E0, h) == y && Twin(E0, h) == t) || !CornerClosed(E0, E, h))
      ensures !CornerClosed(E0, E', h)
    {
      CornerStep(E0, E, E', x, y, xu, t, V1, h);
    }
  }

  /** Step 5 across `c` keeps the corners of the earlier crossing edges
      occupied and occupies the corner at x right of `c` and the corner at
      y left of it. */
  lemma OccupiesStep(E0: Embedding, E: Embedding, E': Embedding, cs: seq<nat>, c: nat, x: nat, y: nat, xu: nat, t: nat)
    requires Wf(E0) && BoundariesOk(E0) && Wf(E) && Wf(E') && |E.vertices| == |E0.vertices| == |E'.vertices|
    requires (forall j :: 0 <= j < |cs| ==> cs[j] < |E0.halfEdges|) && c < |E0.halfEdges|
    requires Occupies(E0, E, cs) && CornersKept(E0, E, E', x, y, xu, t)
    requires Target(E0, FaceSuccessor(E0, Twin(E0, c))) == x && Twin(E0, FaceSuccessor(E0, Twin(E0, c))) == xu
    requires Target(E0, FaceSuccessor(E0, c)) == y && Twin(E0, FaceSuccessor(E0, c)) == t
    ensures Occupies(E0, E', cs + [c])
  {
    var cs' := cs + [c];
    forall j | 0 <= j < |cs'|
      ensures !CornerClosed(E0, E', FaceSuccessor(E0, Twin(E0, cs'[j])))
      ensures !CornerClosed(E0, E', FaceSuccessor(E0, cs'[j]))
    {
      if j < |cs| {
        assert cs'[j] == cs[j];
      }
    }
  }

  /** The two triangles at an edge of a plane triangulation differ: were
      they one, the partner of `h` would be one of the two sides after `h`,
      and the third side would be a loop. */
  lemma SidesDiffer(E: Embedding, h: nat)
    requires PlaneTriangulation(E) && h < |E.halfEdges|
    ensures LeftFace(E, h) != RightFace(E, h)
  {
    var t := Twin(E, h);
    TwinTwin(E, h);
    TriangleSteps(E, h);
    FaceSuccessorFacts(E, h);
    if LeftFace(E, t) == LeftFace(E, h) {
      TriangleMembers(E, h, t);
    }
  }

  /** A corner inside the triangle right of a checked half-edge `c`, or
      inside the triangle left of it but off its apex, is closed. */
  lemma ClosedCorner(E0: Embedding, E: Embedding, c: nat, g: nat)
    requires PlaneTriangulation(E0) && Wf(E) && |E.vertices| == |E0.vertices|
    requires c < |E0.halfEdges| && g < |E0.halfEdges| && QuadrilateralClosed(E0, E, c)
    requires LeftFace(E0, g) == RightFace(E0, c) || (LeftFace(E0, g) == LeftFace(E0, c) && g != FaceSuccessor(E0, c))
    ensures CornerClosed(E0, E, g)
  {
    if LeftFace(E0, g) == RightFace(E0, c) {
      TriangleMembers(E0, Twin(E0, c), g);
    } else {
      TriangleMembers(E0, c, g);
    }
  }

  /** The triangle left of `e`, whose corner after `e` is occupied, is
      neither triangle at a checked half-edge `c` other than `e`. */
  lemma OpenCornerApart(E0: Embedding, E: Embedding, c: nat, e: nat)
    requires PlaneTriangulation(E0) && Wf(E) && |E.vertices| == |E0.vertices|
    requires c < |E0.halfEdges| && e < |E0.halfEdges| && e != c && QuadrilateralClosed(E0, E, c)
    requires !CornerClosed(E0, E, FaceSuccessor(E0, e))
    ensures LeftFace(E0, e) != LeftFace(E0, c) && LeftFace(E0, e) != RightFace(E0, c)
  {
    var g := FaceSuccessor(E0, e);
    FaceSuccessorFacts(E0, e);
    if g == FaceSuccessor(E0, c) {
      FaceSuccessorInjective(E0, e, c);
    } else if LeftFace(E0, g) == RightFace(E0, c) || LeftFace(E0, g) == LeftFace(E0, c) {
      ClosedCorner(E0, E, c, g);
    }
  }

  /** No triangle at a checked half-edge `c` is a triangle at the crossed
      half-edge `d` of an earlier crossing edge: `d`'s occupied corners
      would sit among `c`'s closed ones, unless `d` were `c` or its
      partner. */
  lemma TrianglesApart(E0: Embedding, E: Embedding, d: nat, c: nat)
    requires PlaneTriangulation(E0) && Wf(E) && |E.vertices| == |E0.vertices|
    requires c < |E0.halfEdges| && d < |E0.halfEdges| && d != c && d != Twin(E0, c)
    requires QuadrilateralClosed(E0, E, c)
    requires !CornerClosed(E0, E, FaceSuccessor(E0, Twin(E0, d))) && !CornerClosed(E0, E, FaceSuccessor(E0, d))
    ensures DisjointTriangles(E0, d, c)
  {
    TwinTwin(E0, c);
    OpenCornerApart(E0, E, c, d);
    OpenCornerApart(E0, E, c, Twin(E0, d));
  }

  /** Every earlier crossed half-edge is apart from a checked `c`. */
  lemma ApartFromEarlier(E0: Embedding, E: Embedding, cs: seq<nat>, c: nat)
    requires PlaneTriangulation(E0) && Wf(E) && |E.vertices| == |E0.vertices|
    requires (forall j :: 0 <= j < |cs| ==> cs[j] < |E0.halfEdges|) && c < |E0.halfEdges|
    requires Occupies(E0, E, cs) && QuadrilateralClosed(E0, E, c)
    requires forall j :: 0 <= j < |cs| ==> cs[j] != c && cs[j] != Twin(E0, c)
    ensures forall j :: 0 <= j < |cs| ==> DisjointTriangles(E0, cs[j], c)
  {
    forall j | 0 <= j < |cs| ensures DisjointTriangles(E0, cs[j], c) {
      TrianglesApart(E0, E, cs[j], c);
    }
  }

  /** Appending a crossed half-edge whose triangles differ and are apart
      from all earlier ones keeps the triangles apart. */
  lemma ApartStep(E0: Embedding, cs: seq<nat>, c: nat)
    requires Wf(E0) && (forall j :: 0 <= j < |cs| ==> cs[j] < |E0.halfEdges|) && c < |E0.halfEdges|
    requires FacesApart(E0, cs) && LeftFace(E0, c) != RightFace(E0, c)
    requires forall j :: 0 <= j < |cs| ==> DisjointTriangles(E0, cs[j], c)
    ensures FacesApart(E0, cs + [c])
  {
    var cs' := cs + [c];
    forall j | 0 <= j < |cs'| ensures LeftFace(E0, cs'[j]) != RightFace(E0, cs'[j]) {
      if j < |cs| {
        assert cs'[j] == cs[j];
      }
    }
    forall j1, j2 | 0 <= j1 < j2 < |cs'| ensures DisjointTriangles(E0, cs'[j1], cs'[j2]) {
      assert cs'[j1] == cs[j1];
      if j2 < |cs| {
        assert cs'[j2] == cs[j2];
      }
    }
  }

  /** The triangles at the crossed half-edges. */
  ghost function CrossedFaces(E0: Embedding, cs: seq<nat>): set<nat>
    requires Wf(E0) && forall j :: 0 <= j < |cs| ==> cs[j] < |E0.halfEdges|
  {
    if cs == [] then {}
    else
      var c := cs[|cs| - 1];
      CrossedFaces(E0, cs[..|cs| - 1]) + {LeftFace(E0, c), RightFace(E0, c)}
  }

  /** The triangles at a half-edge apart from all crossed ones are none of
      the crossed triangles. */
  lemma {:induction false} CrossedFacesAvoid(E0: Embedding, cs: seq<nat>, b: nat)
    requires Wf(E0) && forall j :: 0 <= j < |cs| ==> cs[j] < |E0.halfEdges|
    requires b < |E0.halfEdges| && forall j :: 0 <= j < |cs| ==> DisjointTriangles(E0, cs[j], b)
    ensures LeftFace(E0, b) !in CrossedFaces(E0, cs) && RightFace(E0, b) !in CrossedFaces(E0, cs)
    decreases |cs|
  {
    if cs != [] {
      var p := cs[..|cs| - 1];
      assert forall j :: 0 <= j < |p| ==> p[j] == cs[j];
      CrossedFacesAvoid(E0, p, b);
      assert DisjointTriangles(E0, cs[|cs| - 1], b);
    }
  }

  /** Triangles kept apart number two per crossed half-edge, all of them
      faces of the graph: twice the number of crossing edges is at most
      the number of faces. */
  lemma {:induction false} CrossedFacesCount(E0: Embedding, cs: seq<nat>)
    requires Wf(E0) && (forall j :: 0 <= j < |cs| ==> cs[j] < |E0.halfEdges|) && FacesApart(E0, cs)
    ensures |CrossedFaces(E0, cs)| == 2 * |cs|
    ensures forall f :: f in CrossedFaces(E0, cs) ==> f < |E0.faces|
    decreases |cs|
  {
    if cs != [] {
      var p := cs[..|cs| - 1];
      var c := cs[|cs| - 1];
      assert forall j :: 0 <= j < |p| ==> p[j] == cs[j];
      assert FacesApart(E0, p);
      CrossedFacesCount(E0, p);
      forall j | 0 <= j < |p| ensures DisjointTriangles(E0, p[j], c) {
        assert p[j] == cs[j];
      }
      CrossedFacesAvoid(E0, p, c);
      assert LeftFace(E0, c) != RightFace(E0, c);
    }
  }

  /** So at most half as many crossing edges as faces. */
  lemma CrossingsBound(E0: Embedding, cs: seq<nat>)
    requires Wf(E0) && (forall j :: 0 <= j < |cs| ==> cs[j] < |E0.halfEdges|) && FacesApart(E0, cs)
    ensures 2 * |cs| <= |E0.faces|
  {
    CrossedFacesCount(E0, cs);
    SubsetCard(CrossedFaces(E0, cs), Below(|E0.faces|));
  }

  // ---------------------------------------------------------------------
  // The generator

  /** The two insertions of step 5 spelled out by position: the first
      half-edge goes right behind the first occurrence of xu at x, the
      second right behind the first occurrence of `t` at y. */
  lemma PutAfterPositions(V: seq<PlanarVertex>, V1: seq<PlanarVertex>, x: nat, y: nat, H: nat, xu: nat, t: nat)
    returns (i1: int, i2: int)
    requires x < |V| && y < |V| && V1 == PutAfter(V, x, H, xu)
    ensures && i1 == IndexOf(V[x].edges, xu) + 1 && 0 <= i1 <= |V[x].edges|
            && V1 == V[x := PlanarVertex(V[x].id, InsertAt(V[x].edges, i1, H))]
            && i2 == IndexOf(V1[y].edges, t) + 1 && 0 <= i2 <= |V1[y].edges|
            && PutAfter(V1, y, H + 1, t) == V1[y := PlanarVertex(V1[y].id, InsertAt(V1[y].edges, i2, H + 1))]
  {
    i1 := IndexOf(V[x].edges, xu) + 1;
    i2 := IndexOf(V1[y].edges, t) + 1;
  }

  /** The two insertions of step 5, with the appended pair of
      half-edges, are an `AddsEdge` step. */
  lemma CrossingAddsEdge(E: Embedding, E': Embedding, x: nat, y: nat, xu: nat, t: nat, lf: nat, rf: nat, index: int)
    requires x < |E.vertices| && y < |E.vertices|
    requires E'.vertices == PutAfter(PutAfter(E.vertices, x, |E.halfEdges|, xu), y, |E.halfEdges| + 1, t)
    requires var H := |E.halfEdges|;
      E'.halfEdges == E.halfEdges + [PlanarEdge(x, lf, index, H + 1), PlanarEdge(y, rf, index, H)]
    requires E'.edges == E.edges + [|E.halfEdges|] && E'.faces == E.faces
    ensures AddsEdge(E, E', x, y, lf, rf, index)
  {
    PutTwiceMembers(E.vertices, x, y, |E.halfEdges|, |E.halfEdges| + 1, xu, t);
  }

  /** Step 5 on the graph: `edgeFactory(x, y, lf, rf, index)`, the new
      half-edge H inserted at x right behind xu (at position `i1`), its
      partner inserted at y right behind `t` (at position `i2`, in the
      rotations `V1` left by the first insertion), and `addEdge`. */
  method AddCrossingEdge(g: PlanarGraph, x: nat, y: nat, xu: nat, t: nat, lf: nat, rf: nat, index: int)
    returns (ghost V1: seq<PlanarVertex>, ghost i1: int, ghost i2: int)
    requires x < |g.vertices| && y < |g.vertices|
    modifies g
    ensures var V, H := old(g.vertices), old(|g.halfEdges|);
      && i1 == IndexOf(V[x].edges, xu) + 1 && 0 <= i1 <= |V[x].edges|
      && V1 == V[x := PlanarVertex(V[x].id, InsertAt(V[x].edges, i1, H))]
      && i2 == IndexOf(V1[y].edges, t) + 1 && 0 <= i2 <= |V1[y].edges|
      && g.vertices == V1[y := PlanarVertex(V1[y].id, InsertAt(V1[y].edges, i2, H + 1))]
    ensures V1 == PutAfter(old(g.vertices), x, old(|g.halfEdges|), xu) && g.vertices == PutAfter(V1, y, old(|g.halfEdges|) + 1, t)
    ensures g.halfEdges == old(g.halfEdges) + [PlanarEdge(x, lf, index, old(|g.halfEdges|) + 1),
                                               PlanarEdge(y, rf, index, old(|g.halfEdges|))]
    ensures g.edges == old(g.edges) + [old(|g.halfEdges|)] && g.faces == old(g.faces)
    ensures AddsEdge(old(g.Model()), g.Model(), x, y, lf, rf, index)
  {
    ghost var V := g.vertices;
    var h := g.EdgeFactory(x, y, lf, rf, index);
    g.VertexAddEdgeAfter(x, h, xu);
    V1 := g.vertices;
    assert V1 == PutAfter(V, x, h, xu);
    g.VertexAddEdgeAfter(y, h + 1, t);
    assert g.vertices == PutAfter(V1, y, h + 1, t);
    g.AddEdge(h);
    i1, i2 := PutAfterPositions(V, V1, x, y, h, xu, t);
    CrossingAddsEdge(old(g.Model()), g.Model(), x, y, xu, t, lf, rf, index);
  }

  /** `create1PlanarGraph(planarGraph, seed)`: every vertex but two of a
      shuffled vertex list, taken from the back, has its rotation scanned;
      each quadrilateral x - u - y - v of original edges around an original
      edge u - v, with x and y not yet neighbours, receives the crossing
      edge x - y, numbered on from m.  The graph only gains edges: the
      result extends the input by as many crossing edges as were added,
      each between two vertices that were not neighbours before, no two
      between the same pair; vertices and faces stay as they were.  On a
      plane triangulation the `j`-th crossing edge crosses the original
      half-edge `crossed[j]`, and the two triangles at the crossed edges
      are all distinct, so at most half as many edges are added as there
      are faces, and nothing is thrown.  On another embedding a
      quadrilateral that does not close throws. */
  method Create1PlanarGraph(g: PlanarGraph, random: Random) returns (o: Outcome, ghost crossed: seq<nat>)
    requires Wf(g.Model())
    modifies g, random
    ensures o.Raise? ==> o.exception == IllegalState || o.exception == IndexOutOfBounds
    ensures g.GetM() >= old(g.GetM())
    ensures Augments(old(g.Model()), g.Model(), g.GetM() - old(g.GetM()))
    ensures g.GetN() == old(g.GetN()) && g.GetF() == old(g.GetF())
    ensures PlaneTriangulation(old(g.Model())) ==>
      CrossesAt(old(g.Model()), g.Model(), g.GetM() - old(g.GetM()), crossed)
    ensures PlaneTriangulation(old(g.Model())) ==> FacesApart(old(g.Model()), crossed)
    ensures PlaneTriangulation(old(g.Model())) ==> 2 * (g.GetM() - old(g.GetM())) <= g.GetF()
    ensures PlaneTriangulation(old(g.Model())) ==> o.Done?
  {
    var m := |g.edges|;
    ghost var E0 := g.Model();
    var newEdges: nat := 0;
    crossed := [];
    AugmentsNothing(E0);
    TrackedStart(E0);
    var work := ShuffleList(Iota(|g.vertices|), random);
    PermutationOfIota(work, |g.vertices|);
    while |work| > 2
      invariant Augments(E0, g.Model(), newEdges) && Tracked(E0, g.Model(), newEdges, crossed)
      invariant forall z :: z in work ==> 0 <= z < |E0.vertices|
      invariant m == |E0.edges|
      decreases |work|
    {
      var x := work[|work| - 1];
      assert x in work;
      ghost var all := work;
      work := work[..|work| - 1];
      assert forall z :: z in work ==> z in all;
      o, newEdges, crossed := ScanRotation(g, x, m, E0, newEdges, crossed);
      if o.Raise? {
        CrossingsAtMostHalf(E0, g.Model(), newEdges, crossed);
        return;
      }
    }
    CrossingsAtMostHalf(E0, g.Model(), newEdges, crossed);
    return Done, crossed;
  }

  /** What the scan keeps about a plane triangulation `E0` after `k`
      crossing edges: the grown rotations read without the new half-edges
      are the old ones, `cs` records the crossed half-edges, their corners
      are occupied and their triangles are apart. */
  ghost predicate Tracked(E0: Embedding, E: Embedding, k: nat, cs: seq<nat>)
    requires Extends(E0, E, k)
  {
    PlaneTriangulation(E0) ==>
      Ordered(E0, E) && CrossesAt(E0, E, k, cs) && Occupies(E0, E, cs) && FacesApart(E0, cs)
  }

  lemma TrackedStart(E0: Embedding)
    requires Wf(E0) && Extends(E0, E0, 0)
    ensures Tracked(E0, E0, 0, [])
  {
    if PlaneTriangulation(E0) {
      OrderedStart(E0);
    }
  }

  /** The bound behind the generator's `4n - 8`: over a plane
      triangulation the crossing edges number at most half the faces. */
  lemma CrossingsAtMostHalf(E0: Embedding, E: Embedding, k: nat, cs: seq<nat>)
    requires Augments(E0, E, k) && Tracked(E0, E, k, cs)
    ensures PlaneTriangulation(E0) ==> CrossesAt(E0, E, k, cs) && FacesApart(E0, cs)
    ensures PlaneTriangulation(E0) ==> 2 * k <= |E.faces|
  {
    if PlaneTriangulation(E0) {
      CrossingsBound(E0, cs);
    }
  }

  /** The inner loop for vertex x: each position i of x's live rotation
      is examined (steps 1 to 4), a crossing edge is added where step 5
      applies, and the scan moves on by one position after an addition, by
      one or two after a skip.  The added edges keep the invariant; a
      quadrilateral that does not close ends the scan with its exception.
      The scan ends: every addition gives x a new neighbour, and x has at
      most n of them. */
  method ScanRotation(g: PlanarGraph, x: nat, m: int, ghost E0: Embedding, k: nat, ghost cs: seq<nat>)
    returns (o: Outcome, k': nat, ghost cs': seq<nat>)
    requires Augments(E0, g.Model(), k) && m == |E0.edges| && x < |E0.vertices|
    requires Tracked(E0, g.Model(), k, cs)
    modifies g
    ensures o.Raise? ==> o.exception == IllegalState || o.exception == IndexOutOfBounds
    ensures k' >= k && Augments(E0, g.Model(), k') && Tracked(E0, g.Model(), k', cs')
    ensures PlaneTriangulation(E0) ==> o.Done?
  {
    k', cs' := k, cs;
    var i := 0;
    assert |g.vertices| == |E0.vertices|;
    while i < |g.vertices[x].edges|
      invariant Augments(E0, g.Model(), k') && k' >= k && x < |g.vertices|
      invariant Tracked(E0, g.Model(), k', cs')
      decreases |g.vertices| - |NeighborSet(g.Model(), x)|, |g.vertices[x].edges| - i
    {
      var step := Crossing(g.Model(), m, x, i);
      match step {
        case Throw(e) =>
          CrossingChecks(E0, g.Model(), k', m, x, i);
          return Raise(e), k', cs';
        case Ok(Skip(advance)) =>
          i := i + advance;
        case Ok(Propose(xu, xv, uv, uy, vu, vy, y)) =>
          var b := g.HasNeighbor(x, y);
          if b {
            i := i + 2;
          } else {
            ProposalChecked(E0, g.Model(), k', m, x, i, step.value);
            AddCrossingStep(g, x, y, xu, xv, vy, m, E0, k', cs', uv);
            k', cs' := k' + 1, cs' + [uv];
            i := i + 1;
          }
      }
    }
    o := Done;
  }

  /** What a proposal over a plane triangulation gives step 5: the crossed
      half-edge `c`, its two apexes x and y, its closed corners and the
      anchors of the two insertions. */
  ghost predicate Checked(E0: Embedding, E: Embedding, c: nat, x: nat, y: nat, xu: nat, vy: nat)
    requires Wf(E) && |E.vertices| == |E0.vertices|
  {
    PlaneTriangulation(E0) ==>
      && c < |E0.halfEdges| && x == Apex(E0, Twin(E0, c)) && y == Apex(E0, c)
      && QuadrilateralClosed(E0, E, c)
      && xu == Twin(E0, FaceSuccessor(E0, Twin(E0, c))) && vy == FaceSuccessor(E0, c)
  }

  /** Step 5 inside the scan: the crossing edge x - y, numbered m + k,
      extends the invariant and gives x one more neighbour. */
  method AddCrossingStep(g: PlanarGraph, x: nat, y: nat, xu: nat, xv: nat, vy: nat, m: int, ghost E0: Embedding, k: nat,
                         ghost cs: seq<nat>, ghost c: nat)
    requires Augments(E0, g.Model(), k) && m == |E0.edges| && Tracked(E0, g.Model(), k, cs)
    requires x < |g.vertices| && xv < |g.halfEdges| && vy < |g.halfEdges| && y == Target(g.Model(), vy)
    requires !Adjacent(g.Model(), x, y) && xu in Rotation(g.Model(), x)
    requires Checked(E0, g.Model(), c, x, y, xu, vy)
    modifies g
    ensures Augments(E0, g.Model(), k + 1) && x < |g.vertices| && Tracked(E0, g.Model(), k + 1, cs + [c])
    ensures old(|NeighborSet(g.Model(), x)|) < |NeighborSet(g.Model(), x)| <= |g.vertices|
  {
    ghost var E := g.Model();
    var lf, rf, t := LeftFace(g.Model(), xv), LeftFace(g.Model(), vy), Twin(g.Model(), vy);
    ghost var V1, i1, i2 := AddCrossingEdge(g, x, y, xu, t, lf, rf, m + k);
    CrossingStepFacts(E0, E, g.Model(), k, cs, c, x, y, xu, vy, lf, rf, V1, i1, i2);
  }

  /** What step 5 establishes, gathered: the invariant for one more edge
      and one more neighbour of x. */
  lemma CrossingStepFacts(E0: Embedding, E: Embedding, E': Embedding, k: nat, cs: seq<nat>, c: nat,
                          x: nat, y: nat, xu: nat, vy: nat, lf: nat, rf: nat, V1: seq<PlanarVertex>, i1: int, i2: int)
    requires Augments(E0, E, k) && Tracked(E0, E, k, cs)
    requires x < |E.vertices| && y < |E.vertices| && lf < |E.faces| && rf < |E.faces| && vy < |E.halfEdges|
    requires AddsEdge(E, E', x, y, lf, rf, |E0.edges| + k) && !Adjacent(E, x, y) && xu in Rotation(E, x)
    requires var V, H, t := E.vertices, |E.halfEdges|, Twin(E, vy);
      && i1 == IndexOf(V[x].edges, xu) + 1 && 0 <= i1 <= |V[x].edges|
      && V1 == V[x := PlanarVertex(V[x].id, InsertAt(V[x].edges, i1, H))]
      && i2 == IndexOf(V1[y].edges, t) + 1 && 0 <= i2 <= |V1[y].edges|
      && E'.vertices == V1[y := PlanarVertex(V1[y].id, InsertAt(V1[y].edges, i2, H + 1))]
      && V1 == PutAfter(V, x, H, xu) && E'.vertices == PutAfter(V1, y, H + 1, t)
    requires Checked(E0, E, c, x, y, xu, vy)
    ensures Augments(E0, E', k + 1) && Tracked(E0, E', k + 1, cs + [c])
    ensures |NeighborSet(E, x)| < |NeighborSet(E', x)| <= |E'.vertices|
  {
    AugmentsStep(E0, E, E', k, x, y, lf, rf);
    AddsEdgeNeighbors(E, E', x, y, lf, rf, |E0.edges| + k);
    NeighborSetBound(E', x);
    if PlaneTriangulation(E0) {
      RecordStep(E0, E, E', k, cs, c, x, y, lf, rf, V1, i1, i2);
      PlaneStep(E0, E, E', k, cs, c, x, y, xu, vy, V1);
    }
  }

  /** Step 5 over a plane triangulation: the corners stay occupied and the
      triangles stay apart with the new crossing edge. */
  lemma PlaneStep(E0: Embedding, E: Embedding, E': Embedding, k: nat, cs: seq<nat>, c: nat,
                  x: nat, y: nat, xu: nat, vy: nat, V1: seq<PlanarVertex>)
    requires Augments(E0, E, k) && Augments(E0, E', k + 1) && PlaneTriangulation(E0)
    requires Ordered(E0, E) && Occupies(E0, E, cs) && FacesApart(E0, cs) && CrossesAt(E0, E', k + 1, cs + [c]) && |cs| == k
    requires x < |E.vertices| && y < |E.vertices| && vy < |E.halfEdges| && xu in Rotation(E, x)
    requires V1 == PutAfter(E.vertices, x, |E.halfEdges|, xu) && E'.vertices == PutAfter(V1, y, |E.halfEdges| + 1, Twin(E, vy))
    requires Checked(E0, E, c, x, y, xu, vy)
    ensures Occupies(E0, E', cs + [c]) && FacesApart(E0, cs + [c])
  {
    ApartPlane(E0, E, E', k, cs, c);
    AnchorAtY(E0, E, k, c, vy);
    OccupiesPlane(E0, E, E', cs, c, x, y, xu, Twin(E, vy), V1);
  }

  lemma ApartPlane(E0: Embedding, E: Embedding, E': Embedding, k: nat, cs: seq<nat>, c: nat)
    requires Augments(E0, E, k) && Augments(E0, E', k + 1) && PlaneTriangulation(E0)
    requires Occupies(E0, E, cs) && FacesApart(E0, cs) && CrossesAt(E0, E', k + 1, cs + [c]) && |cs| == k
    requires c < |E0.halfEdges| && QuadrilateralClosed(E0, E, c)
    ensures FacesApart(E0, cs + [c])
  {
    CrossedNew(E0, E', k, cs, c);
    ApartRecord(E0, E, cs, c);
  }

  lemma OccupiesPlane(E0: Embedding, E: Embedding, E': Embedding, cs: seq<nat>, c: nat,
                      x: nat, y: nat, xu: nat, t: nat, V1: seq<PlanarVertex>)
    requires Wf(E0) && RotationsOk(E0) && BoundariesOk(E0) && Wf(E) && Wf(E')
    requires |E.vertices| == |E0.vertices| == |E'.vertices| && Ordered(E0, E) && |E0.halfEdges| <= |E.halfEdges|
    requires Occupies(E0, E, cs)
    requires x < |E.vertices| && y < |E.vertices| && xu in Rotation(E, x) && t in Rotation(E, y)
    requires V1 == PutAfter(E.vertices, x, |E.halfEdges|, xu) && E'.vertices == PutAfter(V1, y, |E.halfEdges| + 1, t)
    requires c < |E0.halfEdges| && x == Apex(E0, Twin(E0, c)) && y == Apex(E0, c)
    requires xu == Twin(E0, FaceSuccessor(E0, Twin(E0, c))) && t == Twin(E0, FaceSuccessor(E0, c))
    ensures Occupies(E0, E', cs + [c])
  {
    CornerSteps(E0, E, E', x, y, xu, t, V1);
    OccupiesStep(E0, E, E', cs, c, x, y, xu, t);
  }

  /** The anchor of step 5 at y is the partner of the side after the
      crossed half-edge, listed at y. */
  lemma AnchorAtY(E0: Embedding, E: Embedding, k: nat, c: nat, vy: nat)
    requires Augments(E0, E, k) && PlaneTriangulation(E0) && c < |E0.halfEdges| && vy == FaceSuccessor(E0, c)
    ensures Twin(E, vy) == Twin(E0, FaceSuccessor(E0, c))
    ensures Twin(E, vy) in Rotation(E, Apex(E0, c)) && Target(E0, FaceSuccessor(E0, c)) == Apex(E0, c)
  {
    AugmentsTargets(E0, E, k, vy);
    var t := Twin(E0, vy);
    assert t in Rotation(E0, Start(E0, t));
  }

  /** The half-edge crossed by the newest crossing edge is neither an
      earlier crossed half-edge nor the partner of one. */
  lemma CrossedNew(E0: Embedding, E: Embedding, k: nat, cs: seq<nat>, c: nat)
    requires Augments(E0, E, k + 1) && BoundariesOk(E0) && CrossesAt(E0, E, k + 1, cs + [c]) && |cs| == k
    ensures c < |E0.halfEdges|
    ensures forall j :: 0 <= j < |cs| ==> cs[j] < |E0.halfEdges| && cs[j] != c && cs[j] != Twin(E0, c)
  {
    var cs' := cs + [c];
    CrossedOnce(E0, E, k + 1, cs');
    assert cs'[k] == c;
    forall j | 0 <= j < |cs| ensures cs[j] < |E0.halfEdges| && cs[j] != c && cs[j] != Twin(E0, c) {
      assert cs'[j] == cs[j];
      TwinTwin(E0, c);
    }
  }

  /** Step 5 across a checked `c` keeps the triangles of all crossed edges
      apart. */
  lemma ApartRecord(E0: Embedding, E: Embedding, cs: seq<nat>, c: nat)
    requires PlaneTriangulation(E0) && Wf(E) && |E.vertices| == |E0.vertices|
    requires c < |E0.halfEdges| && forall j :: 0 <= j < |cs| ==> cs[j] < |E0.halfEdges| && cs[j] != c && cs[j] != Twin(E0, c)
    requires Occupies(E0, E, cs) && FacesApart(E0, cs) && QuadrilateralClosed(E0, E, c)
    ensures FacesApart(E0, cs + [c])
  {
    ApartFromEarlier(E0, E, cs, c);
    SidesDiffer(E0, c);
    ApartStep(E0, cs, c);
  }

  /** The order of the rotations and the record of crossed edges after
      step 5. */
  lemma RecordStep(E0: Embedding, E: Embedding, E': Embedding, k: nat, cs: seq<nat>, c: nat,
                   x: nat, y: nat, lf: nat, rf: nat, V1: seq<PlanarVertex>, i1: int, i2: int)
    requires Augments(E0, E, k) && BoundariesOk(E0) && Ordered(E0, E) && CrossesAt(E0, E, k, cs)
    requires x < |E.vertices| && y < |E.vertices| && lf < |E.faces| && rf < |E.faces|
    requires AddsEdge(E, E', x, y, lf, rf, |E0.edges| + k)
    requires c < |E0.halfEdges| && x == Apex(E0, Twin(E0, c)) && y == Apex(E0, c)
    requires var V, H := E.vertices, |E.halfEdges|;
      && 0 <= i1 <= |V[x].edges| && V1 == V[x := PlanarVertex(V[x].id, InsertAt(V[x].edges, i1, H))]
      && 0 <= i2 <= |V1[y].edges| && E'.vertices == V1[y := PlanarVertex(V1[y].id, InsertAt(V1[y].edges, i2, H + 1))]
    ensures Extends(E0, E', k + 1) && Ordered(E0, E') && CrossesAt(E0, E', k + 1, cs + [c])
  {
    AddsEdgeWf(E, E', x, y, lf, rf, |E0.edges| + k);
    OrderedStep(E0, E, E', x, y, V1, i1, i2);
    CrossesStep(E0, E, E', k, cs, c, x, y, lf, rf);
  }

  /** `create1PlanarGraph(numVertices, numFlips, seed)`: a maximal planar
      graph from `createMaxPlanarGraph`, then augmented.  Below five
      vertices the underlying generator refuses; otherwise the result is
      the plane triangulation `base` on n vertices with its 3n - 6 edges
      first, followed by the crossing edges, the `j`-th of which crosses
      the edge `crossed[j]` of `base`; the 2n - 4 faces stay.  From five
      vertices on a graph is always returned. */
  method Create1PlanarGraphOfSize(numVertices: int, numFlips: int, random: Random, flipRandom: Random,
                                  oneRandom: Random, attempts: nat)
    returns (r: Result<PlanarGraph>, ghost base: Embedding, ghost crossed: seq<nat>)
    modifies random, flipRandom, oneRandom
    ensures numVertices < 5 ==> r == Throw(IllegalArgument)
    ensures numVertices >= 5 ==> r.Ok?
    ensures r.Ok? ==> fresh(r.value) && Wf(r.value.Model())
    ensures r.Ok? ==> r.value.GetN() == numVertices && r.value.GetF() == 2 * numVertices - 4
                      && r.value.GetM() == 3 * numVertices - 6 + |crossed|
    ensures r.Ok? ==> PlaneTriangulation(base) && |base.vertices| == numVertices
                      && Augments(base, r.value.Model(), |crossed|)
                      && CrossesAt(base, r.value.Model(), |crossed|, crossed) && FacesApart(base, crossed)
    ensures r.Ok? ==> |crossed| <= numVertices - 2 && r.value.GetM() <= 4 * numVertices - 8
  {
    base, crossed := Embedding([], [], [], []), [];
    var a := CreateMaxPlanarGraph(numVertices, numFlips, random, flipRandom, attempts);
    if a.Throw? {
      return Throw(a.exception), base, crossed;
    }
    var g := a.value;
    base := g.Model();
    var o;
    o, crossed := Create1PlanarGraph(g, oneRandom);
    assert o.Done?;
    return Ok(g), base, crossed;
  }
}
