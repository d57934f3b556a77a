/** The generators of `GraphGeneration` that build a planar graph with
    `PlanarGraphGeneration` and hand back its flat conversion. */
module PlanarWrappers {
  import opened Exceptions
  import opened FlatGraphs
  import opened GraphGeneration
  import opened PlanarEmbedding
  import opened PlanarInvariants
  import opened PlanarGraphs
  import opened JavaRandom
  import opened PlanarGeneration
  import opened OnePlanar
  import opened PlanarConversion
  import opened EdgeFlips
  import opened Crossings

  /** With ids equal to positions, the conversion of a well-formed graph
      passes only ids of its vertices, and edge `k` becomes the pair of the
      start and the target of planar edge `k`. */
  lemma ConvertedIdsInRange(E: Embedding)
    requires Wf(E) && IdsArePositions(E)
    ensures InRange(ConvertedIds(E), |E.vertices|)
    ensures forall k :: 0 <= k < |E.edges| ==>
      AsPairs(ConvertedIds(E), |E.vertices|)[k] == (Start(E, E.edges[k]), Target(E, E.edges[k]))
  {
    forall k | 0 <= k < |E.edges|
      ensures 0 <= ConvertedIds(E)[k].0 < |E.vertices| && 0 <= ConvertedIds(E)[k].1 < |E.vertices|
    {
      var h := E.edges[k];
      assert ConvertedIds(E)[k] == EndIds(E, h);
    }
  }

  /** `createApollonianNetwork(numVertices, seed)` of `GraphGeneration`:
      fewer than three vertices throw IllegalArgumentException; otherwise
      the Apollonian network, converted, has `numVertices` vertices and
      `3n - 6` edges, none repeated and none a loop. */
  method CreateApollonianGraph(numVertices: int, random: Random) returns (r: Result<Graph>, ghost ps: seq<(nat, nat)>)
    modifies random
    ensures r.Throw? <==> numVertices < 3
    ensures r.Throw? ==> r.exception == IllegalArgument
    ensures r.Ok? ==> fresh(r.value) && r.value.n == numVertices && !r.value.isDirected
    ensures r.Ok? ==> Holds(r.value, ps) && |ps| == 3 * numVertices - 6 && SimplePairs(ps)
  {
    ps := [];
    if numVertices < 3 {
      return Throw(IllegalArgument), ps;
    }
    var a := CreateApollonianNetwork(numVertices, random);
    var planar := a.value;
    ConvertedTriangulation(planar.Model());
    r := ConvertPlanarGraphToGraph(planar);
    ps := AsPairs(ConvertedIds(planar.Model()), planar.GetN());
  }

  /** `createMaxPlanarGraph(numVertices, numFlips, seed)` of
      `GraphGeneration`: fewer than three vertices throw
      IllegalArgumentException here, three or four in `flipEdges`;
      otherwise the converted graph has `numVertices` vertices and `3n - 6`
      edges, edge `k` joining the ends of planar edge `k`, none repeated
      and none a loop. */
  method CreateMaxPlanarGraphFlat(numVertices: int, numFlips: int, random: Random, flipRandom: Random, attempts: nat)
    returns (r: Result<Graph>, ghost ps: seq<(nat, nat)>)
    modifies random, flipRandom
    ensures r.Throw? <==> numVertices < 5
    ensures r.Throw? ==> r.exception == IllegalArgument
    ensures r.Ok? ==> fresh(r.value) && r.value.n == numVertices && !r.value.isDirected
    ensures r.Ok? ==> Holds(r.value, ps) && |ps| == 3 * numVertices - 6 && SimplePairs(ps)
  {
    ps := [];
    if numVertices < 3 {
      return Throw(IllegalArgument), ps;
    }
    var a := PlanarGeneration.CreateMaxPlanarGraph(numVertices, numFlips, random, flipRandom, attempts);
    if a.Throw? {
      return Throw(a.exception), ps;
    }
    var planar := a.value;
    ConvertedTriangulation(planar.Model());
    r := ConvertPlanarGraphToGraph(planar);
    ps := AsPairs(ConvertedIds(planar.Model()), planar.GetN());
  }

  /** The conversion of a triangulation grown by crossing edges: the first
      pairs are the converted triangulation, pair `m + j` joins the two
      apexes across the crossed half-edge `cs[j]`. */
  lemma AugmentedPairs(E0: Embedding, E: Embedding, k: nat, cs: seq<nat>)
    requires Augments(E0, E, k) && PlaneTriangulation(E0) && IdsArePositions(E) && CrossesAt(E0, E, k, cs)
    ensures InRange(ConvertedIds(E), |E.vertices|)
    ensures var ps := AsPairs(ConvertedIds(E), |E.vertices|);
      && |ps| == |E0.edges| + k
      && ps[..|E0.edges|] == AsPairs(ConvertedIds(E0), |E0.vertices|)
      && forall j :: 0 <= j < k ==> ps[|E0.edges| + j] == (Apex(E0, Twin(E0, cs[j])), Apex(E0, cs[j]))
  {
    ConvertedIdsInRange(E);
    ConvertedTriangulation(E0);
    PlanarPrefix(E0, E, k);
    CrossingSuffix(E0, E, k, cs);
  }

  /** The first pairs of the grown graph are those of the triangulation. */
  lemma PlanarPrefix(E0: Embedding, E: Embedding, k: nat)
    requires Augments(E0, E, k) && PlaneTriangulation(E0) && IdsArePositions(E)
    requires InRange(ConvertedIds(E), |E.vertices|) && InRange(ConvertedIds(E0), |E0.vertices|)
    ensures AsPairs(ConvertedIds(E), |E.vertices|)[..|E0.edges|] == AsPairs(ConvertedIds(E0), |E0.vertices|)
  {
    ConvertedTriangulation(E0);
    var ps := AsPairs(ConvertedIds(E), |E.vertices|);
    var ps0 := AsPairs(ConvertedIds(E0), |E0.vertices|);
    var m := |E0.edges|;
    forall l | 0 <= l < m ensures ps[l] == ps0[l] {
      assert E.edges[l] == E.edges[..m][l];
      AugmentsTargets(E0, E, k, E0.edges[l]);
    }
  }

  /** Pair `m + j` of the grown graph joins the apexes across `cs[j]`. */
  lemma CrossingSuffix(E0: Embedding, E: Embedding, k: nat, cs: seq<nat>)
    requires Augments(E0, E, k) && BoundariesOk(E0) && IdsArePositions(E) && CrossesAt(E0, E, k, cs)
    requires InRange(ConvertedIds(E), |E.vertices|)
    ensures var ps := AsPairs(ConvertedIds(E), |E.vertices|);
      forall j :: 0 <= j < k ==> ps[|E0.edges| + j] == (Apex(E0, Twin(E0, cs[j])), Apex(E0, cs[j]))
  {
    forall j | 0 <= j < k ensures AsPairs(ConvertedIds(E), |E.vertices|)[|E0.edges| + j] == Ends(E0, E, j) {
      ConvertedNewEdge(E0, E, k, j);
    }
  }

  /** The converted pair of an added edge is its pair of ends. */
  lemma ConvertedNewEdge(E0: Embedding, E: Embedding, k: nat, j: nat)
    requires Extends(E0, E, k) && IdsArePositions(E) && InRange(ConvertedIds(E), |E.vertices|)
    requires j < k && NewEdge(E0, E, j)
    ensures AsPairs(ConvertedIds(E), |E.vertices|)[|E0.edges| + j] == Ends(E0, E, j)
  {
  }

  /** The crossing edges keep the converted graph simple: a crossing edge
      joins two vertices that were not neighbours in the triangulation,
      no two crossing edges join the same two vertices, and the two
      apexes across an edge differ. */
  lemma AugmentedPairsSimple(E0: Embedding, E: Embedding, k: nat, cs: seq<nat>)
    requires Augments(E0, E, k) && PlaneTriangulation(E0) && |E0.vertices| >= 4
    requires IdsArePositions(E) && CrossesAt(E0, E, k, cs)
    ensures InRange(ConvertedIds(E), |E.vertices|) && SimplePairs(AsPairs(ConvertedIds(E), |E.vertices|))
  {
    AugmentedPairs(E0, E, k, cs);
    ConvertedTriangulation(E0);
    CrossingsNoLoops(E0, E, k, cs);
    CrossingPairsSimple(E0, E, k);
    PlanarApartFromCrossing(E0, E, k);
    JoinSimplePairs(AsPairs(ConvertedIds(E), |E.vertices|), |E0.edges|);
  }

  /** No pair of the triangulation is the pair of a crossing edge. */
  lemma PlanarApartFromCrossing(E0: Embedding, E: Embedding, k: nat)
    requires Augments(E0, E, k) && PlaneTriangulation(E0) && IdsArePositions(E)
    ensures InRange(ConvertedIds(E), |E.vertices|)
    ensures var ps := AsPairs(ConvertedIds(E), |E.vertices|);
      forall a, b :: 0 <= a < |E0.edges| <= b < |ps| ==> !SameEdge(ps[a], ps[b])
  {
    ConvertedIdsInRange(E);
    var ps := AsPairs(ConvertedIds(E), |E.vertices|);
    var m := |E0.edges|;
    forall a, b | 0 <= a < m <= b < |ps| ensures !SameEdge(ps[a], ps[b]) {
      PlanarAndCrossingPair(E0, E, k, a, b);
    }
  }

  lemma PlanarAndCrossingPair(E0: Embedding, E: Embedding, k: nat, a: nat, b: nat)
    requires Augments(E0, E, k) && PlaneTriangulation(E0) && IdsArePositions(E)
    requires InRange(ConvertedIds(E), |E.vertices|)
    requires a < |E0.edges| <= b < |E.edges|
    ensures !SameEdge(AsPairs(ConvertedIds(E), |E.vertices|)[a], AsPairs(ConvertedIds(E), |E.vertices|)[b])
  {
    PlanarAndCrossing(E0, E, k, a, b - |E0.edges|);
    ConvertedNewEdge(E0, E, k, b - |E0.edges|);
  }

  /** Two simple runs of pairs, none of the first the same edge as one of
      the second, make a simple run. */
  lemma JoinSimplePairs(ps: seq<(nat, nat)>, m: nat)
    requires m <= |ps| && SimplePairs(ps[..m]) && SimplePairs(ps[m..])
    requires forall a, b :: 0 <= a < m <= b < |ps| ==> !SameEdge(ps[a], ps[b])
    ensures SimplePairs(ps)
  {
    forall a | 0 <= a < |ps| ensures ps[a].0 != ps[a].1 {
      if a < m {
        assert ps[a] == ps[..m][a];
      } else {
        assert ps[a] == ps[m..][a - m];
      }
    }
    forall a, b | 0 <= a < b < |ps| ensures !SameEdge(ps[a], ps[b]) {
      if b < m {
        assert ps[a] == ps[..m][a] && ps[b] == ps[..m][b];
      } else if m <= a {
        assert ps[a] == ps[m..][a - m] && ps[b] == ps[m..][b - m];
      }
    }
  }

  /** The pairs of the crossing edges are simple when none of them is a
      loop: no two crossing edges join the same two vertices. */
  lemma CrossingPairsSimple(E0: Embedding, E: Embedding, k: nat)
    requires Augments(E0, E, k) && IdsArePositions(E)
    requires forall j :: 0 <= j < k ==> Ends(E0, E, j).0 != Ends(E0, E, j).1
    ensures InRange(ConvertedIds(E), |E.vertices|)
    ensures SimplePairs(AsPairs(ConvertedIds(E), |E.vertices|)[|E0.edges|..])
  {
    ConvertedIdsInRange(E);
    var qs := AsPairs(ConvertedIds(E), |E.vertices|)[|E0.edges|..];
    assert |qs| == k;
    forall j | 0 <= j < k ensures qs[j] == Ends(E0, E, j) {
      assert NewEdge(E0, E, j);
    }
  }

  /** The pairs of a 1-planar augmentation of the triangulation `E0`: the
      ends of the edges of `E0` first, then for each crossed half-edge
      `cs[j]` the pair of the two apexes across it; no edge of `E0` is
      crossed twice. */
  ghost predicate CrossingPairs(E0: Embedding, cs: seq<nat>, ps: seq<(nat, nat)>)
    requires Wf(E0) && BoundariesOk(E0)
  {
    && |ps| == |E0.edges| + |cs|
    && (forall l :: 0 <= l < |E0.edges| ==> ps[l] == (Start(E0, E0.edges[l]), Target(E0, E0.edges[l])))
    && (forall j :: 0 <= j < |cs| ==>
          cs[j] < |E0.halfEdges| &&
          ps[|E0.edges| + j] == (Apex(E0, Twin(E0, cs[j])), Apex(E0, cs[j])))
    && (forall j1, j2 :: 0 <= j1 < j2 < |cs| ==>
          cs[j1] != cs[j2] && cs[j1] != Twin(E0, cs[j2]))
  }

  /** The converted augmentation of a triangulation on four or more
      vertices records its crossings and is simple. */
  lemma AugmentedCrossingPairs(E0: Embedding, E: Embedding, k: nat, cs: seq<nat>)
    requires Augments(E0, E, k) && PlaneTriangulation(E0) && |E0.vertices| >= 4
    requires IdsArePositions(E) && CrossesAt(E0, E, k, cs)
    ensures InRange(ConvertedIds(E), |E.vertices|)
    ensures CrossingPairs(E0, cs, AsPairs(ConvertedIds(E), |E.vertices|))
    ensures SimplePairs(AsPairs(ConvertedIds(E), |E.vertices|))
  {
    AugmentedPairs(E0, E, k, cs);
    AugmentedPairsSimple(E0, E, k, cs);
    CrossedOnce(E0, E, k, cs);
    ConvertedTriangulation(E0);
    var ps := AsPairs(ConvertedIds(E), |E.vertices|);
    assert forall l :: 0 <= l < |E0.edges| ==> ps[l] == ps[..|E0.edges|][l];
  }

  /** A crossing edge never joins the ends of a planar edge. */
  lemma PlanarAndCrossing(E0: Embedding, E: Embedding, k: nat, l: nat, j: nat)
    requires Augments(E0, E, k) && PlaneTriangulation(E0) && IdsArePositions(E)
    requires l < |E0.edges| && j < k
    ensures InRange(ConvertedIds(E), |E.vertices|)
    ensures !SameEdge(AsPairs(ConvertedIds(E), |E.vertices|)[l], Ends(E0, E, j))
  {
    ConvertedIdsInRange(E);
    assert NewEdge(E0, E, j);
    var e := E0.edges[l];
    assert E.edges[l] == E.edges[..|E0.edges|][l];
    AugmentsTargets(E0, E, k, e);
    var t := Twin(E0, e);
    TwinTwin(E0, e);
    AugmentsTargets(E0, E, k, t);
    assert e in Rotation(E0, Start(E0, e)) && t in Rotation(E0, Start(E0, t));
  }

  /** `createMaxOnePlanarGraph(numVertices, numFlips, seed)`: a maximal
      planar graph, augmented by `create1PlanarGraph` and converted.  The
      two seeds the source draws from its own generator are the generators
      `flipRandom` and `oneRandom`.  Below five vertices the underlying
      generators refuse; otherwise a graph is always returned: the
      converted graph has `numVertices`
      vertices, its first `3n - 6` edges join the ends of the edges of the
      plane triangulation `base`, and edge `3n - 6 + j` joins the two apexes
      across the half-edge `crossed[j]` of `base`, no edge of `base` being
      crossed twice; no edge is repeated or a loop. */
  method CreateMaxOnePlanarGraph(numVertices: int, numFlips: int, random: Random, flipRandom: Random,
                                 oneRandom: Random, attempts: nat)
    returns (r: Result<Graph>, ghost ps: seq<(nat, nat)>, ghost base: Embedding, ghost crossed: seq<nat>)
    modifies random, flipRandom, oneRandom
    ensures numVertices < 5 ==> r == Throw(IllegalArgument)
    ensures numVertices >= 5 ==> r.Ok?
    ensures r.Ok? ==> fresh(r.value) && r.value.n == numVertices && !r.value.isDirected
    ensures r.Ok? ==> Holds(r.value, ps) && |ps| == 3 * numVertices - 6 + |crossed| && SimplePairs(ps)
    ensures r.Ok? ==> |crossed| <= numVertices - 2 && |ps| <= 4 * numVertices - 8
    ensures r.Ok? ==>
      && PlaneTriangulation(base) && |base.vertices| == numVertices && |base.edges| == 3 * numVertices - 6
      && CrossingPairs(base, crossed, ps)
  {
    ps, base, crossed := [], Embedding([], [], [], []), [];
    if numVertices < 3 {
      return Throw(IllegalArgument), ps, base, crossed;
    }
    var a := PlanarGeneration.CreateMaxPlanarGraph(numVertices, numFlips, random, flipRandom, attempts);
    if a.Throw? {
      return Throw(a.exception), ps, base, crossed;
    }
    var planar := a.value;
    base := planar.Model();
    var o;
    o, crossed := Create1PlanarGraph(planar, oneRandom);
    assert o.Done?;
    ghost var E := planar.Model();
    assert IdsArePositions(E) by {
      assert forall v :: 0 <= v < |base.vertices| ==> E.vertices[v].id == base.vertices[v].id;
    }
    AugmentedCrossingPairs(base, E, |crossed|, crossed);
    r := ConvertPlanarGraphToGraph(planar);
    ps := AsPairs(ConvertedIds(E), planar.GetN());
  }
}
