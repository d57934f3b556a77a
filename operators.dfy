/** `GraphOperators.createGraphProduct`: the Cartesian product of two flat
    graphs.  The first graph is copied once per vertex of the second
    (copy `i` shifted by `i * n1`), and every edge of the second graph
    joins the same vertex of two copies. */
module GraphOperators {
  import opened Exceptions
  import opened FlatModel
  import opened FlatGraphs
  import opened GraphGeneration

  /** Edge `e` of the first graph in copy `i`. */
  function Shifted(e: Edge, i: nat, n1: nat): (nat, nat)
  {
    (e.start + i * n1, e.target + i * n1)
  }

  /** Edge `e` of the second graph between the copies of vertex `i`. */
  function Lifted(e: Edge, i: nat, n1: nat): (nat, nat)
  {
    (e.start * n1 + i, e.target * n1 + i)
  }

  /** The inner loop over the copies for one edge of the first graph. */
  function ShiftedRow(e: Edge, n1: nat, n2: nat): seq<(nat, nat)>
  {
    seq(n2, i requires 0 <= i => Shifted(e, i, n1))
  }

  /** The inner loop over the vertices of a copy for one edge of the
      second graph. */
  function LiftedRow(e: Edge, n1: nat): seq<(nat, nat)>
  {
    seq(n1, i requires 0 <= i => Lifted(e, i, n1))
  }

  /** The pairs of the first loop: the edges in order, each in every copy. */
  function Copies(es: seq<Edge>, n1: nat, n2: nat): seq<(nat, nat)>
  {
    if |es| == 0 then [] else Copies(es[..|es| - 1], n1, n2) + ShiftedRow(es[|es| - 1], n1, n2)
  }

  /** The pairs of the second loop. */
  function Links(es: seq<Edge>, n1: nat): seq<(nat, nat)>
  {
    if |es| == 0 then [] else Links(es[..|es| - 1], n1) + LiftedRow(es[|es| - 1], n1)
  }

  /** All pairs the product receives, in order. */
  function ProductPairs(first: seq<Edge>, second: seq<Edge>, n1: nat, n2: nat): seq<(nat, nat)>
  {
    Copies(first, n1, n2) + Links(second, n1)
  }

  lemma {:induction false} CopiesLength(es: seq<Edge>, n1: nat, n2: nat)
    ensures |Copies(es, n1, n2)| == |es| * n2
  {
    if |es| > 0 {
      CopiesLength(es[..|es| - 1], n1, n2);
      assert |es| * n2 == (|es| - 1) * n2 + n2;
    }
  }

  lemma {:induction false} LinksLength(es: seq<Edge>, n1: nat)
    ensures |Links(es, n1)| == |es| * n1
  {
    if |es| > 0 {
      LinksLength(es[..|es| - 1], n1);
      assert |es| * n1 == (|es| - 1) * n1 + n1;
    }
  }

  /** Pair `k * n2 + i` of the first loop is edge `k` in copy `i`. */
  lemma {:induction false} CopiesAt(es: seq<Edge>, n1: nat, n2: nat, k: nat, i: nat)
    requires k < |es| && i < n2
    ensures k * n2 + i < |Copies(es, n1, n2)| && Copies(es, n1, n2)[k * n2 + i] == Shifted(es[k], i, n1)
  {
    var init := es[..|es| - 1];
    CopiesLength(es, n1, n2);
    CopiesLength(init, n1, n2);
    PlaceBelow(k, i, |es|, n2);
    if k < |init| {
      CopiesAt(init, n1, n2, k, i);
      PlaceBelow(k, i, |init|, n2);
      assert init[k] == es[k];
    } else {
      assert k * n2 + i == |Copies(init, n1, n2)| + i;
    }
  }

  /** Pair `k * n1 + i` of the second loop joins vertex `i` of the copies
      of the ends of edge `k`. */
  lemma {:induction false} LinksAt(es: seq<Edge>, n1: nat, k: nat, i: nat)
    requires k < |es| && i < n1
    ensures k * n1 + i < |Links(es, n1)| && Links(es, n1)[k * n1 + i] == Lifted(es[k], i, n1)
  {
    var init := es[..|es| - 1];
    LinksLength(es, n1);
    LinksLength(init, n1);
    PlaceBelow(k, i, |es|, n1);
    if k < |init| {
      LinksAt(init, n1, k, i);
      PlaceBelow(k, i, |init|, n1);
      assert init[k] == es[k];
    } else {
      assert k * n1 + i == |Links(init, n1)| + i;
    }
  }

  /** The product receives `m1 * n2 + m2 * n1` pairs. */
  lemma ProductCount(first: seq<Edge>, second: seq<Edge>, n1: nat, n2: nat)
    ensures |ProductPairs(first, second, n1, n2)| == |first| * n2 + |second| * n1
  {
    CopiesLength(first, n1, n2);
    LinksLength(second, n1);
  }

  /** First come the copies: pair `k * n2 + i` is edge `k` of the first
      graph shifted into copy `i`. */
  lemma ProductCopyAt(first: seq<Edge>, second: seq<Edge>, n1: nat, n2: nat, k: nat, i: nat)
    requires k < |first| && i < n2
    ensures k * n2 + i < |ProductPairs(first, second, n1, n2)|
    ensures ProductPairs(first, second, n1, n2)[k * n2 + i] == Shifted(first[k], i, n1)
  {
    CopiesAt(first, n1, n2, k, i);
  }

  /** Then the links: pair `m1 * n2 + k * n1 + i` joins vertex `i` of the
      copies of the ends of edge `k` of the second graph. */
  lemma ProductLinkAt(first: seq<Edge>, second: seq<Edge>, n1: nat, n2: nat, k: nat, i: nat)
    requires k < |second| && i < n1
    ensures |first| * n2 + k * n1 + i < |ProductPairs(first, second, n1, n2)|
    ensures ProductPairs(first, second, n1, n2)[|first| * n2 + k * n1 + i] == Lifted(second[k], i, n1)
  {
    CopiesLength(first, n1, n2);
    LinksAt(second, n1, k, i);
    var cs, ls := Copies(first, n1, n2), Links(second, n1);
    var j := k * n1 + i;
    assert (cs + ls)[|cs| + j] == ls[j];
  }

  /** Every pair of the product joins two of its `n1 * n2` vertices. */
  lemma ProductBelow(first: seq<Edge>, second: seq<Edge>, n1: nat, n2: nat, q: nat)
    requires EndsBelow(first, n1) && EndsBelow(second, n2)
    requires q < |ProductPairs(first, second, n1, n2)|
    ensures ProductPairs(first, second, n1, n2)[q].0 < n1 * n2
    ensures ProductPairs(first, second, n1, n2)[q].1 < n1 * n2
  {
    CopiesLength(first, n1, n2);
    LinksLength(second, n1);
    var cs, ls := Copies(first, n1, n2), Links(second, n1);
    if q < |cs| {
      var k, i := CopyIndex(q, |first|, n2);
      CopiesAt(first, n1, n2, k, i);
      ShiftedBelow(first[k], i, n1, n2);
    } else {
      var k, i := CopyIndex(q - |cs|, |second|, n1);
      LinksAt(second, n1, k, i);
      LiftedBelow(second[k], i, n1, n2);
      assert (cs + ls)[q] == ls[q - |cs|];
    }
  }

  /** Every index below `count * width` is `k * width + i` for some
      `k < count` and `i < width`. */
  lemma {:induction false} CopyIndex(q: nat, count: nat, width: nat) returns (k: nat, i: nat)
    requires q < count * width
    ensures k < count && i < width && q == k * width + i
  {
    if q < width {
      k, i := 0, q;
    } else {
      assert count > 0;
      assert q - width < (count - 1) * width;
      var k', i' := CopyIndex(q - width, count - 1, width);
      k, i := k' + 1, i';
    }
  }

  lemma ShiftedBelow(e: Edge, i: nat, n1: nat, n2: nat)
    requires e.start < n1 && e.target < n1 && i < n2
    ensures Shifted(e, i, n1).0 < n1 * n2 && Shifted(e, i, n1).1 < n1 * n2
  {
    PlaceBelow(i, e.start, n2, n1);
    PlaceBelow(i, e.target, n2, n1);
  }

  lemma LiftedBelow(e: Edge, i: nat, n1: nat, n2: nat)
    requires e.start < n2 && e.target < n2 && i < n1
    ensures Lifted(e, i, n1).0 < n1 * n2 && Lifted(e, i, n1).1 < n1 * n2
  {
    PlaceBelow(e.start, i, n2, n1);
    PlaceBelow(e.target, i, n2, n1);
  }

  /** The inner loop `for i < n2: addEdge(start + i * n1, target + i * n1)`. */
  method AddShifted(g: Graph, ghost ps: seq<(nat, nat)>, e: Edge, n1: nat, n2: nat)
    requires Holds(g, ps) && g.n == n1 * n2 && e.start < n1 && e.target < n1
    modifies g
    ensures Holds(g, ps + ShiftedRow(e, n1, n2))
  {
    var i := 0;
    while i < n2
      invariant 0 <= i <= n2
      invariant Holds(g, ps + ShiftedRow(e, n1, n2)[..i])
    {
      ShiftedBelow(e, i, n1, n2);
      var idAdditive := i * n1;
      Push(g, ps + ShiftedRow(e, n1, n2)[..i], e.start + idAdditive, e.target + idAdditive);
      assert ShiftedRow(e, n1, n2)[..i + 1] == ShiftedRow(e, n1, n2)[..i] + [Shifted(e, i, n1)];
      Associative(ps, ShiftedRow(e, n1, n2)[..i], [Shifted(e, i, n1)]);
      i := i + 1;
    }
    assert ShiftedRow(e, n1, n2)[..i] == ShiftedRow(e, n1, n2);
  }

  /** The inner loop `for i < n1: addEdge(start * n1 + i, target * n1 + i)`. */
  method AddLifted(g: Graph, ghost ps: seq<(nat, nat)>, e: Edge, n1: nat, n2: nat)
    requires Holds(g, ps) && g.n == n1 * n2 && e.start < n2 && e.target < n2
    modifies g
    ensures Holds(g, ps + LiftedRow(e, n1))
  {
    var i := 0;
    while i < n1
      invariant 0 <= i <= n1
      invariant Holds(g, ps + LiftedRow(e, n1)[..i])
    {
      LiftedBelow(e, i, n1, n2);
      Push(g, ps + LiftedRow(e, n1)[..i], e.start * n1 + i, e.target * n1 + i);
      assert LiftedRow(e, n1)[..i + 1] == LiftedRow(e, n1)[..i] + [Lifted(e, i, n1)];
      Associative(ps, LiftedRow(e, n1)[..i], [Lifted(e, i, n1)]);
      i := i + 1;
    }
    assert LiftedRow(e, n1)[..i] == LiftedRow(e, n1);
  }

  /** The loop "make n2 copies of first graph". */
  method AddCopies(g: Graph, es: seq<Edge>, n1: nat, n2: nat)
    requires Holds(g, []) && g.n == n1 * n2 && EndsBelow(es, n1)
    modifies g
    ensures Holds(g, Copies(es, n1, n2))
  {
    var k := 0;
    while k < |es|
      invariant 0 <= k <= |es|
      invariant Holds(g, Copies(es[..k], n1, n2))
    {
      assert es[..k + 1][..k] == es[..k];
      AddShifted(g, Copies(es[..k], n1, n2), es[k], n1, n2);
      k := k + 1;
    }
    assert es[..k] == es;
  }

  /** The loop "add connections between first graph copies". */
  method AddLinks(g: Graph, ghost ps: seq<(nat, nat)>, es: seq<Edge>, n1: nat, n2: nat)
    requires Holds(g, ps) && g.n == n1 * n2 && EndsBelow(es, n2)
    modifies g
    ensures Holds(g, ps + Links(es, n1))
  {
    var k := 0;
    assert Links(es[..0], n1) == [];
    while k < |es|
      invariant 0 <= k <= |es|
      invariant Holds(g, ps + Links(es[..k], n1))
    {
      assert es[..k + 1][..k] == es[..k];
      AddLifted(g, ps + Links(es[..k], n1), es[k], n1, n2);
      Associative(ps, Links(es[..k], n1), LiftedRow(es[k], n1));
      k := k + 1;
    }
    assert es[..k] == es;
  }

  /** `createGraphProduct(firstGraph, secondGraph)`: a missing graph throws
      IllegalArgumentException; otherwise a new graph on `n1 * n2`
      vertices, directed only when both are, holding the pairs of
      `ProductPairs` in order. */
  method CreateGraphProduct(first: Graph?, second: Graph?) returns (r: Result<Graph>)
    requires first != null ==> first.Valid()
    requires second != null ==> second.Valid()
    ensures r.Ok? <==> first != null && second != null
    ensures !r.Ok? ==> r.exception == IllegalArgument
    ensures r.Ok? ==> fresh(r.value) && r.value.n == first.n * second.n
    ensures r.Ok? ==> r.value.isDirected == (first.isDirected && second.isDirected)
    ensures r.Ok? ==> Holds(r.value, ProductPairs(first.edges, second.edges, first.n, second.n))
  {
    if first == null || second == null {
      return Throw(IllegalArgument);
    }
    var n1, n2 := first.n, second.n;
    var g := Fresh(n1 * n2, first.isDirected && second.isDirected);
    AddCopies(g, first.edges, n1, n2);
    AddLinks(g, Copies(first.edges, n1, n2), second.edges, n1, n2);
    return Ok(g);
  }
}
