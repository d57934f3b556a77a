/** `PlanarGraphGeneration.convertPlanarGraphToGraph`: the flat graph of a
    planar graph, one `addEdge` per edge of the planar edge list between
    the ids of its start and target. */
module PlanarConversion {
  import opened Exceptions
  import opened FlatGraphs
  import opened GraphGeneration
  import opened PlanarEmbedding
  import opened PlanarInvariants
  import PlanarGraphs

  /** The ids of the ends of half-edge `h`. */
  function EndIds(E: Embedding, h: nat): (int, int)
    requires Wf(E) && h < |E.halfEdges|
  {
    (E.vertices[Start(E, h)].id, E.vertices[Target(E, h)].id)
  }

  /** The id pairs the conversion passes to `addEdge`, in edge-list order. */
  function ConvertedIds(E: Embedding): (ids: seq<(int, int)>)
    requires Wf(E)
    ensures |ids| == |E.edges|
  {
    seq(|E.edges|, k requires 0 <= k < |E.edges| => EndIds(E, E.edges[k]))
  }

  /** Every id is the position of a vertex of an `n`-vertex graph. */
  predicate InRange(ids: seq<(int, int)>, n: nat)
  {
    forall k :: 0 <= k < |ids| ==> 0 <= ids[k].0 < n && 0 <= ids[k].1 < n
  }

  function AsPairs(ids: seq<(int, int)>, n: nat): (ps: seq<(nat, nat)>)
    requires InRange(ids, n)
    ensures |ps| == |ids| && forall k :: 0 <= k < |ids| ==> ps[k].0 == ids[k].0 && ps[k].1 == ids[k].1
  {
    seq(|ids|, k requires 0 <= k < |ids| => (ids[k].0 as nat, ids[k].1 as nat))
  }

  /** The loop over the planar edge list: `addEdge(startId, targetId)`; an
      id outside the flat graph throws ArrayIndexOutOfBoundsException. */
  method AddConverted(g: Graph, ids: seq<(int, int)>) returns (o: Outcome)
    requires Holds(g, [])
    modifies g
    ensures o.Done? <==> InRange(ids, g.n)
    ensures o.Raise? ==> o.exception == IndexOutOfBounds
    ensures o.Done? ==> Holds(g, AsPairs(ids, g.n))
  {
    var k := 0;
    while k < |ids|
      invariant 0 <= k <= |ids| && InRange(ids[..k], g.n)
      invariant Holds(g, AsPairs(ids[..k], g.n))
    {
      var added := g.AddEdgeById(ids[k].0, ids[k].1);
      if added.Raise? {
        return added;
      }
      assert ids[..k + 1] == ids[..k] + [ids[k]];
      assert AsPairs(ids[..k + 1], g.n) == AsPairs(ids[..k], g.n) + [(ids[k].0 as nat, ids[k].1 as nat)];
      NumberedAppend(AsPairs(ids[..k], g.n), (ids[k].0 as nat, ids[k].1 as nat), g.isDirected);
      k := k + 1;
    }
    assert ids[..k] == ids;
    return Done;
  }

  /** `convertPlanarGraphToGraph(planarGraph)`: a missing graph throws
      IllegalArgumentException; otherwise a new undirected graph on
      `getN()` vertices receives one edge per planar edge between the ids
      of its ends (ArrayIndexOutOfBoundsException if an id is not below
      `getN()`). */
  method ConvertPlanarGraphToGraph(planar: PlanarGraphs.PlanarGraph?) returns (r: Result<Graph>)
    requires planar != null ==> Wf(planar.Model())
    ensures planar == null ==> r == Throw(IllegalArgument)
    ensures planar != null ==> (r.Ok? <==> InRange(ConvertedIds(planar.Model()), planar.GetN()))
    ensures planar != null && !r.Ok? ==> r.exception == IndexOutOfBounds
    ensures r.Ok? ==> fresh(r.value) && r.value.n == planar.GetN() && !r.value.isDirected
    ensures r.Ok? ==> Holds(r.value, AsPairs(ConvertedIds(planar.Model()), planar.GetN()))
  {
    if planar == null {
      return Throw(IllegalArgument);
    }
    var g := Fresh(planar.GetN(), false);
    var ids := ConvertedIds(planar.Model());
    var o := AddConverted(g, ids);
    if o.Raise? {
      return Throw(o.exception);
    }
    return Ok(g);
  }

  /** On a plane triangulation (what the Apollonian generator and edge flips
      produce) the conversion succeeds: edge `k` joins the start and the
      target of planar edge `k`, there are `3n - 6` edges, and no edge is
      repeated or a loop. */
  lemma ConvertedTriangulation(E: Embedding)
    requires PlaneTriangulation(E)
    ensures InRange(ConvertedIds(E), |E.vertices|)
    ensures forall k :: 0 <= k < |E.edges| ==>
      AsPairs(ConvertedIds(E), |E.vertices|)[k] == (Start(E, E.edges[k]), Target(E, E.edges[k]))
    ensures |AsPairs(ConvertedIds(E), |E.vertices|)| == 3 * |E.vertices| - 6
    ensures SimplePairs(AsPairs(ConvertedIds(E), |E.vertices|))
  {
    var ps := AsPairs(ConvertedIds(E), |E.vertices|);
    forall k, l | 0 <= k < l < |ps|
      ensures !SameEdge(ps[k], ps[l])
    {
      var h, g := E.edges[k], E.edges[l];
      assert h == 2 * k && g == 2 * l;
    }
  }
}
