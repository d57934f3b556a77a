/** `GraphGeneration`: generators that build a new flat `Graph` by calling
    `addEdge` in loops.  Each generator is proved to add exactly the pairs
    of a specification function, in order; lemmas about those functions
    state the edge counts and which pairs are edges. */
module GraphGeneration {
  import opened Exceptions
  import opened FlatModel
  import opened FlatGraphs
  import opened JavaRandom
  import opened RandomUtil

  // ---------------------------------------------------------------------
  // Graphs built by a sequence of addEdge calls

  /** The edge `addEdge(a, b)` appends as the `k`-th edge of a graph that
      has only gained edges: an undirected graph starts it at the lower
      end, and its id is the number of edges added before. */
  function Stored(p: (nat, nat), k: nat, directed: bool): Edge
  {
    if !directed && p.0 > p.1 then Edge(p.1, p.0, k) else Edge(p.0, p.1, k)
  }

  /** The edge list after adding the pairs `ps` in order to a new graph. */
  function Numbered(ps: seq<(nat, nat)>, directed: bool): (es: seq<Edge>)
    ensures |es| == |ps|
    ensures forall k :: 0 <= k < |ps| ==> es[k] == Stored(ps[k], k, directed)
  {
    seq(|ps|, k requires 0 <= k < |ps| => Stored(ps[k], k, directed))
  }

  lemma NumberedAppend(ps: seq<(nat, nat)>, p: (nat, nat), directed: bool)
    ensures Numbered(ps + [p], directed) == Numbered(ps, directed) + [Stored(p, |ps|, directed)]
  {
  }

  /** `g` is a graph that received exactly the pairs `ps` by `addEdge`,
      in order, since it was created. */
  ghost predicate Holds(g: Graph, ps: seq<(nat, nat)>)
    reads g
  {
    g.Valid() && g.edges == Numbered(ps, g.isDirected) && g.edgeIdCounter == |ps| && g.m == |ps|
  }

  /** A new graph without edges holds no pairs. */
  method Fresh(n: nat, directed: bool) returns (g: Graph)
    ensures fresh(g) && Holds(g, []) && g.n == n && g.isDirected == directed
  {
    g := new Graph(n, directed);
  }

  /** `addEdge(a, b)` on such a graph. */
  method Push(g: Graph, ghost ps: seq<(nat, nat)>, a: nat, b: nat)
    requires Holds(g, ps) && a < g.n && b < g.n
    modifies g
    ensures Holds(g, ps + [(a, b)])
  {
    g.AddEdge(a, b);
    NumberedAppend(ps, (a, b), g.isDirected);
  }

  /** Two pairs name the same undirected edge. */
  predicate SameEdge(p: (nat, nat), q: (nat, nat))
  {
    (p.0 == q.0 && p.1 == q.1) || (p.0 == q.1 && p.1 == q.0)
  }

  /** `u` and `v` are joined by one of the pairs. */
  ghost predicate Joined(ps: seq<(nat, nat)>, u: nat, v: nat)
  {
    exists k :: 0 <= k < |ps| && SameEdge(ps[k], (u, v))
  }

  /** No edge is added twice (in either direction) and none is a loop. */
  ghost predicate SimplePairs(ps: seq<(nat, nat)>)
  {
    (forall k :: 0 <= k < |ps| ==> ps[k].0 != ps[k].1) &&
    forall k, l :: 0 <= k < l < |ps| ==> !SameEdge(ps[k], ps[l])
  }

  // ---------------------------------------------------------------------
  // Edgeless graph, path, cycle, star

  /** `createEdgelessGraph(n)`: a negative size throws
      IllegalArgumentException; otherwise `n` vertices and no edges. */
  method CreateEdgelessGraph(n: int) returns (r: Result<Graph>)
    ensures r.Ok? <==> n >= 0
    ensures !r.Ok? ==> r.exception == IllegalArgument
    ensures r.Ok? ==> fresh(r.value) && Holds(r.value, []) && r.value.n == n && !r.value.isDirected
  {
    if n < 0 {
      return Throw(IllegalArgument);
    }
    var g := Fresh(n, false);
    return Ok(g);
  }

  /** The pairs of the path on `len` vertices: `(i, i + 1)` for each
      `i < len - 1`. */
  function PathPairs(len: nat): seq<(nat, nat)>
  {
    seq(if len > 1 then len - 1 else 0, i requires 0 <= i => (i, i + 1))
  }

  /** The path has `max(len - 1, 0)` edges, joins exactly the consecutive
      vertices and repeats no edge. */
  lemma PathShape(len: nat)
    ensures |PathPairs(len)| == if len > 1 then len - 1 else 0
    ensures forall u: nat, v: nat :: u < v ==> (Joined(PathPairs(len), u, v) <==> v == u + 1 && v < len)
    ensures SimplePairs(PathPairs(len))
  {
    var ps := PathPairs(len);
    forall u: nat, v: nat | u < v && v == u + 1 && v < len
      ensures Joined(ps, u, v)
    {
      assert SameEdge(ps[u], (u, v));
    }
  }

  /** `createPathGraph(len)`: a negative length throws
      IllegalArgumentException; otherwise edges `(i, i + 1)` in order. */
  method CreatePathGraph(len: int) returns (r: Result<Graph>)
    ensures r.Ok? <==> len >= 0
    ensures !r.Ok? ==> r.exception == IllegalArgument
    ensures r.Ok? ==> fresh(r.value) && r.value.n == len && !r.value.isDirected
    ensures r.Ok? ==> Holds(r.value, PathPairs(len))
  {
    if len < 0 {
      return Throw(IllegalArgument);
    }
    var g := Fresh(len, false);
    AddPath(g, len);
    return Ok(g);
  }

  /** The loop `for i in 0 .. len - 2: addEdge(i, i + 1)` on a new graph. */
  method AddPath(g: Graph, len: nat)
    requires Holds(g, []) && len <= g.n
    modifies g
    ensures Holds(g, PathPairs(len))
  {
    if len > 1 {
      var i := 0;
      while i < len - 1
        invariant 0 <= i <= len - 1
        invariant Holds(g, PathPairs(i + 1))
      {
        assert PathPairs(i + 1) + [(i, i + 1)] == PathPairs(i + 2);
        Push(g, PathPairs(i + 1), i, i + 1);
        i := i + 1;
      }
    } else {
      assert PathPairs(len) == [];
    }
  }

  /** The pairs of `createCycle(n)`: the path, closed by `(0, n - 1)` when
      `n > 2`. */
  function CyclePairs(n: nat): seq<(nat, nat)>
  {
    if n > 2 then PathPairs(n) + [(0, n - 1)] else PathPairs(n)
  }

  /** The cycle has `n` edges for `n >= 3`, one for `n = 2` and none
      below; it joins exactly the vertices that are consecutive modulo
      `n`, and repeats no edge. */
  lemma CycleShape(n: nat)
    ensures |CyclePairs(n)| == if n > 2 then n else if n == 2 then 1 else 0
    ensures forall u: nat, v: nat :: u < v ==>
      (Joined(CyclePairs(n), u, v) <==> v < n && (v == u + 1 || (u == 0 && v == n - 1 && n > 2)))
    ensures SimplePairs(CyclePairs(n))
  {
    PathShape(n);
    var ps := CyclePairs(n);
    forall u: nat, v: nat | u < v
      ensures Joined(ps, u, v) <==> v < n && (v == u + 1 || (u == 0 && v == n - 1 && n > 2))
    {
      if v < n && v == u + 1 {
        assert SameEdge(ps[u], (u, v));
      } else if u == 0 && v == n - 1 && n > 2 {
        assert SameEdge(ps[n - 1], (u, v));
      }
      if Joined(ps, u, v) && n > 2 {
        var k :| 0 <= k < |ps| && SameEdge(ps[k], (u, v));
        if k < n - 1 {
          assert SameEdge(PathPairs(n)[k], (u, v));
        }
      }
    }
  }

  /** `createCycle(n)`: a negative size throws IllegalArgumentException;
      otherwise the path on `n` vertices, then `(0, n - 1)` when `n > 2`. */
  method CreateCycle(n: int) returns (r: Result<Graph>)
    ensures r.Ok? <==> n >= 0
    ensures !r.Ok? ==> r.exception == IllegalArgument
    ensures r.Ok? ==> fresh(r.value) && r.value.n == n && !r.value.isDirected
    ensures r.Ok? ==> Holds(r.value, CyclePairs(n))
  {
    if n < 0 {
      return Throw(IllegalArgument);
    }
    var g := Fresh(n, false);
    AddPath(g, n);
    if n > 2 {
      Push(g, PathPairs(n), 0, n - 1);
    }
    return Ok(g);
  }

  /** The pairs of the star on `n` vertices: `(0, i)` for `0 < i < n`. */
  function StarPairs(n: nat): seq<(nat, nat)>
  {
    seq(if n > 1 then n - 1 else 0, i requires 0 <= i => (0, i + 1))
  }

  /** The star has `max(n - 1, 0)` edges, joins the centre `0` to every
      other vertex and no two other vertices, and repeats no edge. */
  lemma StarShape(n: nat)
    ensures |StarPairs(n)| == if n > 1 then n - 1 else 0
    ensures forall u: nat, v: nat :: u < v ==> (Joined(StarPairs(n), u, v) <==> u == 0 && v < n)
    ensures SimplePairs(StarPairs(n))
  {
    var ps := StarPairs(n);
    forall v: nat | 0 < v < n
      ensures Joined(ps, 0, v)
    {
      assert SameEdge(ps[v - 1], (0, v));
    }
  }

  /** `createStar(n)`: a negative size throws IllegalArgumentException;
      otherwise edges `(0, i)` for `i = 1 .. n - 1`. */
  method CreateStar(n: int) returns (r: Result<Graph>)
    ensures r.Ok? <==> n >= 0
    ensures !r.Ok? ==> r.exception == IllegalArgument
    ensures r.Ok? ==> fresh(r.value) && r.value.n == n && !r.value.isDirected
    ensures r.Ok? ==> Holds(r.value, StarPairs(n))
  {
    if n < 0 {
      return Throw(IllegalArgument);
    }
    var g := Fresh(n, false);
    var i := 1;
    while i < n
      invariant 1 <= i && (n > 0 ==> i <= n)
      invariant Holds(g, StarPairs(if n > 0 then i else 0))
    {
      assert StarPairs(i) + [(0, i)] == StarPairs(i + 1);
      Push(g, StarPairs(i), 0, i);
      i := i + 1;
    }
    return Ok(g);
  }

  // ---------------------------------------------------------------------
  // Complete graph

  /** The pairs `(u, v)` for `u < v < n`, row `u` by row, for the rows
      `u < rows`. */
  function CompleteRows(rows: nat, n: nat): seq<(nat, nat)>
  {
    if rows == 0 then [] else CompleteRows(rows - 1, n) + CompleteRow(rows - 1, n, n)
  }

  /** Row `u` up to (excluding) column `v`: `(u, u + 1), ..., (u, v - 1)`. */
  function CompleteRow(u: nat, v: nat, n: nat): seq<(nat, nat)>
  {
    seq(if v > u + 1 then v - u - 1 else 0, j requires 0 <= j => (u, u + 1 + j))
  }

  /** The pairs of `createCompleteGraph(n)`. */
  function CompletePairs(n: nat): seq<(nat, nat)>
  {
    CompleteRows(n, n)
  }

  lemma CompleteRowsShape(rows: nat, n: nat)
    requires rows <= n
    ensures 2 * |CompleteRows(rows, n)| == rows * (2 * n - rows - 1)
    ensures forall k :: 0 <= k < |CompleteRows(rows, n)| ==>
      CompleteRows(rows, n)[k].0 < rows && CompleteRows(rows, n)[k].0 < CompleteRows(rows, n)[k].1 < n
    ensures forall u: nat, v: nat :: u < rows && u < v < n ==> (u, v) in CompleteRows(rows, n)
    ensures forall k, l :: 0 <= k < l < |CompleteRows(rows, n)| ==> CompleteRows(rows, n)[k] != CompleteRows(rows, n)[l]
  {
    CompleteRowsLength(rows, n);
    CompleteRowsEnds(rows, n);
    CompleteRowsMembers(rows, n);
    CompleteRowsDistinct(rows, n);
  }

  lemma {:induction false} CompleteRowsLength(rows: nat, n: nat)
    requires rows <= n
    ensures 2 * |CompleteRows(rows, n)| == rows * (2 * n - rows - 1)
  {
    if rows > 0 {
      var r := rows - 1;
      CompleteRowsLength(r, n);
      var prev, row := CompleteRows(r, n), CompleteRow(r, n, n);
      assert CompleteRows(rows, n) == prev + row;
      assert |row| == n - r - 1;
      RowsArithmetic(r, n, |prev|);
    }
  }

  lemma RowsArithmetic(r: nat, n: nat, p: nat)
    requires r < n && 2 * p == r * (2 * n - r - 1)
    ensures 2 * (p + (n - r - 1)) == (r + 1) * (2 * n - (r + 1) - 1)
  {
  }

  lemma {:induction false} CompleteRowsEnds(rows: nat, n: nat)
    ensures forall k :: 0 <= k < |CompleteRows(rows, n)| ==>
      CompleteRows(rows, n)[k].0 < rows && CompleteRows(rows, n)[k].0 < CompleteRows(rows, n)[k].1 < n
  {
    if rows > 0 {
      var r := rows - 1;
      CompleteRowsEnds(r, n);
      var prev, row := CompleteRows(r, n), CompleteRow(r, n, n);
      assert CompleteRows(rows, n) == prev + row;
    }
  }

  lemma {:induction false} CompleteRowsMembers(rows: nat, n: nat)
    ensures forall u: nat, v: nat :: u < rows && u < v < n ==> (u, v) in CompleteRows(rows, n)
  {
    if rows > 0 {
      var r := rows - 1;
      CompleteRowsMembers(r, n);
      var prev, row := CompleteRows(r, n), CompleteRow(r, n, n);
      assert CompleteRows(rows, n) == prev + row;
      forall u: nat, v: nat | u < rows && u < v < n
        ensures (u, v) in prev + row
      {
        if u == r {
          assert row[v - u - 1] == (u, v);
        } else {
          assert (u, v) in prev;
        }
      }
    }
  }

  lemma {:induction false} CompleteRowsDistinct(rows: nat, n: nat)
    ensures forall k, l :: 0 <= k < l < |CompleteRows(rows, n)| ==> CompleteRows(rows, n)[k] != CompleteRows(rows, n)[l]
  {
    if rows > 0 {
      var r := rows - 1;
      CompleteRowsDistinct(r, n);
      CompleteRowsEnds(r, n);
      var prev: seq<(nat, nat)>, row: seq<(nat, nat)> := CompleteRows(r, n), CompleteRow(r, n, n);
      assert CompleteRows(rows, n) == prev + row;
      forall k, l | 0 <= k < l < |prev + row|
        ensures (prev + row)[k] != (prev + row)[l]
      {
        if k < |prev| && l >= |prev| {
          assert (prev + row)[k].0 < r;
        }
      }
    }
  }

  /** The complete graph has `n (n - 1) / 2` edges, joins every two
      distinct vertices, and repeats no edge. */
  lemma CompleteShape(n: nat)
    ensures 2 * |CompletePairs(n)| == n * (n - 1)
    ensures forall u: nat, v: nat :: u < v ==> (Joined(CompletePairs(n), u, v) <==> v < n)
    ensures SimplePairs(CompletePairs(n))
  {
    CompleteRowsShape(n, n);
    var ps := CompletePairs(n);
    forall u: nat, v: nat | u < v
      ensures Joined(ps, u, v) <==> v < n
    {
      if v < n {
        var k :| 0 <= k < |ps| && ps[k] == (u, v);
        assert SameEdge(ps[k], (u, v));
      }
    }
  }

  /** `createCompleteGraph(n)`: fewer than one vertex throws
      IllegalArgumentException; otherwise `(u, v)` for every `u < v < n`,
      row by row. */
  method CreateCompleteGraph(n: int) returns (r: Result<Graph>)
    ensures r.Ok? <==> n >= 1
    ensures !r.Ok? ==> r.exception == IllegalArgument
    ensures r.Ok? ==> fresh(r.value) && r.value.n == n && !r.value.isDirected
    ensures r.Ok? ==> Holds(r.value, CompletePairs(n))
  {
    if n < 1 {
      return Throw(IllegalArgument);
    }
    var g := Fresh(n, false);
    AddCompleteRows(g, n, n);
    return Ok(g);
  }

  /** The nested loops that join every `u < rows` to every `v` with
      `u < v < n`. */
  method AddCompleteRows(g: Graph, rows: nat, n: nat)
    requires Holds(g, []) && rows <= n <= g.n
    modifies g
    ensures Holds(g, CompleteRows(rows, n))
  {
    var u := 0;
    while u < rows
      invariant 0 <= u <= rows
      invariant Holds(g, CompleteRows(u, n))
    {
      var v := u + 1;
      while v < n
        invariant u + 1 <= v <= n
        invariant Holds(g, CompleteRows(u, n) + CompleteRow(u, v, n))
      {
        assert CompleteRow(u, v, n) + [(u, v)] == CompleteRow(u, v + 1, n);
        assert (CompleteRows(u, n) + CompleteRow(u, v, n)) + [(u, v)]
            == CompleteRows(u, n) + CompleteRow(u, v + 1, n);
        Push(g, CompleteRows(u, n) + CompleteRow(u, v, n), u, v);
        v := v + 1;
      }
      assert CompleteRows(u + 1, n) == CompleteRows(u, n) + CompleteRow(u, n, n);
      u := u + 1;
    }
  }

  // ---------------------------------------------------------------------
  // Bits: `Math.pow(2, i)` and `u ^ 2^i`

  /** `(int) Math.pow(2, i)`, as an unbounded integer. */
  function Pow2(i: nat): (p: nat)
    ensures p >= 1
  {
    if i == 0 then 1 else 2 * Pow2(i - 1)
  }

  /** Bit `i` of `u`. */
  function Bit(u: nat, i: nat): (b: nat)
    ensures b <= 1
  {
    if i == 0 then u % 2 else Bit(u / 2, i - 1)
  }

  /** `u ^ 2^i`: `u` with bit `i` flipped. */
  function FlipBit(u: nat, i: nat): nat
  {
    if i == 0 then (if u % 2 == 0 then u + 1 else u - 1) else 2 * FlipBit(u / 2, i - 1) + u % 2
  }

  /** Flipping bit `i` adds `2^i` when the bit is clear and subtracts it
      when it is set; flipping twice restores `u`; the bits other than `i`
      are kept. */
  lemma {:induction false} FlipBitFacts(u: nat, i: nat)
    ensures Bit(u, i) == 0 ==> FlipBit(u, i) == u + Pow2(i)
    ensures Bit(u, i) == 1 ==> FlipBit(u, i) + Pow2(i) == u
    ensures Bit(FlipBit(u, i), i) == 1 - Bit(u, i)
    ensures FlipBit(FlipBit(u, i), i) == u
  {
    if i > 0 {
      FlipBitFacts(u / 2, i - 1);
      var f := FlipBit(u / 2, i - 1);
      assert FlipBit(u, i) / 2 == f && FlipBit(u, i) % 2 == u % 2;
    }
  }

  /** Flipping one bit keeps `u` below `2^d` when the bit is below `d`. */
  lemma {:induction false} FlipBitBelow(u: nat, i: nat, d: nat)
    requires i < d && u < Pow2(d)
    ensures FlipBit(u, i) < Pow2(d)
  {
    var half := Pow2(d - 1);
    assert Pow2(d) == 2 * half;
    if i > 0 {
      assert u / 2 < half;
      FlipBitBelow(u / 2, i - 1, d - 1);
      assert FlipBit(u, i) == 2 * FlipBit(u / 2, i - 1) + u % 2;
    }
  }

  /** Flipping two different bits gives two different values. */
  lemma {:induction false} FlipBitsDiffer(u: nat, i: nat, j: nat)
    requires i != j
    ensures FlipBit(u, i) != FlipBit(u, j)
  {
    if i > 0 && j > 0 {
      FlipBitsDiffer(u / 2, i - 1, j - 1);
    } else if i == 0 {
      assert FlipBit(u, i) % 2 != u % 2;
    } else {
      assert FlipBit(u, j) % 2 != u % 2;
    }
  }

  // ---------------------------------------------------------------------
  // Hypercube

  /** Vertex `u`'s pairs for the bits below `i`: `(u, u ^ 2^b)` whenever
      that is larger than `u`. */
  function HyperRow(u: nat, i: nat): seq<(nat, nat)>
  {
    if i == 0 then []
    else HyperRow(u, i - 1) + (if u < FlipBit(u, i - 1) then [(u, FlipBit(u, i - 1))] else [])
  }

  /** The rows of the vertices below `k`. */
  function HyperRows(k: nat, d: nat): seq<(nat, nat)>
  {
    if k == 0 then [] else HyperRows(k - 1, d) + HyperRow(k - 1, d)
  }

  /** The pairs of `createHypercube(d)`. */
  function HypercubePairs(d: nat): seq<(nat, nat)>
  {
    HyperRows(Pow2(d), d)
  }

  /** `v` is `u` with one of the bits below `d` flipped. */
  ghost predicate OneFlip(u: nat, v: nat, d: nat)
  {
    exists b :: 0 <= b < d && v == FlipBit(u, b)
  }

  lemma {:induction false} HyperRowMembers(u: nat, i: nat)
    ensures forall k :: 0 <= k < |HyperRow(u, i)| ==>
      HyperRow(u, i)[k].0 == u && u < HyperRow(u, i)[k].1 && OneFlip(u, HyperRow(u, i)[k].1, i)
    ensures forall b :: 0 <= b < i && u < FlipBit(u, b) ==> (u, FlipBit(u, b)) in HyperRow(u, i)
    ensures forall k, l :: 0 <= k < l < |HyperRow(u, i)| ==> HyperRow(u, i)[k] != HyperRow(u, i)[l]
  {
    if i > 0 {
      HyperRowMembers(u, i - 1);
      var prev := HyperRow(u, i - 1);
      var ps := HyperRow(u, i);
      forall k | 0 <= k < |ps|
        ensures ps[k].0 == u && u < ps[k].1 && OneFlip(u, ps[k].1, i)
      {
        if k < |prev| {
          assert ps[k] == prev[k];
          var b :| 0 <= b < i - 1 && prev[k].1 == FlipBit(u, b);
        } else {
          assert ps[k].1 == FlipBit(u, i - 1);
        }
      }
      forall k, l | 0 <= k < l < |ps|
        ensures ps[k] != ps[l]
      {
        if l == |prev| {
          var b :| 0 <= b < i - 1 && ps[k].1 == FlipBit(u, b);
          FlipBitsDiffer(u, b, i - 1);
        }
      }
    }
  }

  lemma {:induction false} HyperRowsMembers(k: nat, d: nat)
    ensures forall j :: 0 <= j < |HyperRows(k, d)| ==>
      HyperRows(k, d)[j].0 < k && HyperRows(k, d)[j].0 < HyperRows(k, d)[j].1 &&
      OneFlip(HyperRows(k, d)[j].0, HyperRows(k, d)[j].1, d)
    ensures forall u, b :: 0 <= u < k && 0 <= b < d && u < FlipBit(u, b) ==> (u, FlipBit(u, b)) in HyperRows(k, d)
    ensures forall j, l :: 0 <= j < l < |HyperRows(k, d)| ==> HyperRows(k, d)[j] != HyperRows(k, d)[l]
  {
    if k > 0 {
      HyperRowsMembers(k - 1, d);
      HyperRowMembers(k - 1, d);
      var prev, row := HyperRows(k - 1, d), HyperRow(k - 1, d);
      var all := HyperRows(k, d);
      assert all == prev + row;
      forall j | 0 <= j < |all|
        ensures all[j].0 < k && all[j].0 < all[j].1 && OneFlip(all[j].0, all[j].1, d)
      {
        if j >= |prev| {
          assert all[j] == row[j - |prev|];
        } else {
          assert all[j] == prev[j];
        }
      }
      forall j, l | 0 <= j < l < |all|
        ensures all[j] != all[l]
      {
        if j < |prev| && l >= |prev| {
          assert all[j].0 < k - 1;
        }
      }
    }
  }

  /** The number of bits below `i` that are clear in `u`. */
  function ClearBits(u: nat, i: nat): nat
  {
    if i == 0 then 0 else ClearBits(u, i - 1) + (if Bit(u, i - 1) == 0 then 1 else 0)
  }

  lemma {:induction false} HyperRowLength(u: nat, i: nat)
    ensures |HyperRow(u, i)| == ClearBits(u, i)
  {
    if i > 0 {
      HyperRowLength(u, i - 1);
      FlipBitFacts(u, i - 1);
    }
  }

  /** The clear bits of `u` are its lowest bit's and those of `u / 2`. */
  lemma {:induction false} ClearBitsShift(u: nat, d: nat)
    ensures ClearBits(u, d + 1) == (if u % 2 == 0 then 1 else 0) + ClearBits(u / 2, d)
  {
    if d > 0 {
      ClearBitsShift(u, d - 1);
    }
  }

  /** The total number of clear bits below `d` over the vertices below `k`. */
  function ClearTotal(k: nat, d: nat): nat
  {
    if k == 0 then 0 else ClearTotal(k - 1, d) + ClearBits(k - 1, d)
  }

  lemma {:induction false} HyperRowsLength(k: nat, d: nat)
    ensures |HyperRows(k, d)| == ClearTotal(k, d)
  {
    if k > 0 {
      HyperRowsLength(k - 1, d);
      HyperRowLength(k - 1, d);
    }
  }

  /** Over `0 .. 2w - 1`, half the values have the lowest bit clear and the
      higher bits run twice over `0 .. w - 1`. */
  lemma {:induction false} ClearTotalDouble(w: nat, d: nat)
    ensures ClearTotal(2 * w, d + 1) == w + 2 * ClearTotal(w, d)
  {
    if w > 0 {
      ClearTotalDouble(w - 1, d);
      ClearBitsShift(2 * w - 2, d);
      ClearBitsShift(2 * w - 1, d);
      assert (2 * w - 2) / 2 == w - 1 && (2 * w - 1) / 2 == w - 1;
    }
  }

  /** Every bit position below `d` is clear in exactly half of the values
      below `2^d`. */
  lemma {:induction false} ClearTotalCube(d: nat)
    ensures 2 * ClearTotal(Pow2(d), d) == d * Pow2(d)
  {
    if d > 0 {
      ClearTotalCube(d - 1);
      ClearTotalDouble(Pow2(d - 1), d - 1);
      var p := Pow2(d - 1);
      var t := ClearTotal(p, d - 1);
      assert Pow2(d) == 2 * p;
      CubeArithmetic(d, p, t);
    }
  }

  lemma CubeArithmetic(d: nat, p: nat, t: nat)
    requires d >= 1 && 2 * t == (d - 1) * p
    ensures 2 * (p + 2 * t) == d * (2 * p)
  {
    assert (d - 1) * p + p == d * p;
  }

  /** The hypercube of dimension `d` has `d 2^(d-1)` edges. */
  lemma HypercubeCount(d: nat)
    ensures 2 * |HypercubePairs(d)| == d * Pow2(d)
  {
    HyperRowsLength(Pow2(d), d);
    ClearTotalCube(d);
  }

  /** Every vertex `u < 2^d` is joined to each `u ^ 2^i`, `i < d`; these
      `d` neighbours are pairwise different. */
  lemma HypercubeNeighbors(d: nat)
    ensures forall u: nat, i: nat :: u < Pow2(d) && i < d ==> Joined(HypercubePairs(d), u, FlipBit(u, i))
    ensures forall u: nat, i: nat, j: nat :: i != j ==> FlipBit(u, i) != FlipBit(u, j)
  {
    var ps := HypercubePairs(d);
    HyperRowsMembers(Pow2(d), d);
    forall u: nat, i: nat | u < Pow2(d) && i < d
      ensures Joined(ps, u, FlipBit(u, i))
    {
      FlipBitFacts(u, i);
      FlipBitBelow(u, i, d);
      var v := FlipBit(u, i);
      if u < v {
        var k :| 0 <= k < |ps| && ps[k] == (u, v);
        assert SameEdge(ps[k], (u, v));
      } else {
        FlipBitFacts(v, i);
        var k :| 0 <= k < |ps| && ps[k] == (v, u);
        assert SameEdge(ps[k], (u, v));
      }
    }
    forall u: nat, i: nat, j: nat | i != j
      ensures FlipBit(u, i) != FlipBit(u, j)
    {
      FlipBitsDiffer(u, i, j);
    }
  }

  /** Conversely, the hypercube joins only vertices below `2^d` that differ
      in exactly one bit below `d`, and it repeats no edge. */
  lemma HypercubeOnlyFlips(d: nat)
    ensures forall u: nat, v: nat :: Joined(HypercubePairs(d), u, v) ==>
      u < Pow2(d) && v < Pow2(d) && OneFlip(u, v, d)
    ensures SimplePairs(HypercubePairs(d))
  {
    var ps := HypercubePairs(d);
    HyperRowsMembers(Pow2(d), d);
    forall u: nat, v: nat | Joined(ps, u, v)
      ensures u < Pow2(d) && v < Pow2(d) && OneFlip(u, v, d)
    {
      var k :| 0 <= k < |ps| && SameEdge(ps[k], (u, v));
      var a, b := ps[k].0, ps[k].1;
      var i :| 0 <= i < d && b == FlipBit(a, i);
      FlipBitBelow(a, i, d);
      FlipBitFacts(a, i);
      assert u == a ==> v == FlipBit(u, i);
      assert u == b ==> v == FlipBit(u, i);
    }
    forall k, l | 0 <= k < l < |ps|
      ensures !SameEdge(ps[k], ps[l])
    {
      assert ps[k] != ps[l];
    }
  }

  /** `createHypercube(d)`: a negative dimension throws
      IllegalArgumentException; otherwise `2^d` vertices and, for each `u`
      and each bit `i < d`, the edge `(u, u ^ 2^i)` when `u` is the smaller
      end. */
  method CreateHypercube(d: int) returns (r: Result<Graph>)
    ensures r.Ok? <==> d >= 0
    ensures !r.Ok? ==> r.exception == IllegalArgument
    ensures r.Ok? ==> fresh(r.value) && r.value.n == Pow2(d) && !r.value.isDirected
    ensures r.Ok? ==> Holds(r.value, HypercubePairs(d))
  {
    if d < 0 {
      return Throw(IllegalArgument);
    }
    var size := Pow2(d);
    var g := Fresh(size, false);
    var u := 0;
    while u < size
      invariant 0 <= u <= size
      invariant Holds(g, HyperRows(u, d))
    {
      var i := 0;
      while i < d
        invariant 0 <= i <= d
        invariant Holds(g, HyperRows(u, d) + HyperRow(u, i))
      {
        var v := FlipBit(u, i);
        if u < v {
          FlipBitBelow(u, i, d);
          assert (HyperRows(u, d) + HyperRow(u, i)) + [(u, v)] == HyperRows(u, d) + HyperRow(u, i + 1);
          Push(g, HyperRows(u, d) + HyperRow(u, i), u, v);
        }
        i := i + 1;
      }
      u := u + 1;
    }
    return Ok(g);
  }

  // ---------------------------------------------------------------------
  // Cube-connected cycles

  /** `a Q + b` lies below `P Q` when `a < P` and `b < Q`. */
  lemma PlaceBelow(a: nat, b: nat, P: nat, Q: nat)
    requires a < P && b < Q
    ensures a * Q + b < P * Q
  {
    assert (a + 1) * Q <= P * Q;
  }

  /** `a Q + b` determines `a` and `b` when `b < Q`. */
  lemma PlaceUnique(a: nat, b: nat, a': nat, b': nat, Q: nat)
    requires b < Q && b' < Q && a * Q + b == a' * Q + b'
    ensures a == a' && b == b'
  {
    if a < a' {
      MulMonotone(a + 1, a', Q);
    } else if a' < a {
      MulMonotone(a' + 1, a, Q);
    }
  }

  lemma Associative<T>(a: seq<T>, b: seq<T>, c: seq<T>)
    ensures (a + b) + c == a + (b + c)
  {
  }

  lemma MulMonotone(x: nat, y: nat, Q: nat)
    requires x <= y
    ensures x * Q <= y * Q
  {
  }

  /** Vertex `j` of cycle `i`. */
  function CccVertex(i: nat, j: nat, d: nat): nat
  {
    i * d + j
  }

  /** The cycle vertices are distinct vertices of the graph. */
  lemma CccVertexPlace(d: nat)
    ensures forall i: nat, j: nat :: i < Pow2(d) && j < d ==> CccVertex(i, j, d) < d * Pow2(d)
    ensures forall i: nat, j: nat, i': nat, j': nat :: j < d && j' < d && CccVertex(i, j, d) == CccVertex(i', j', d) ==> i == i' && j == j'
  {
    forall i: nat, j: nat | i < Pow2(d) && j < d
      ensures CccVertex(i, j, d) < d * Pow2(d)
    {
      PlaceBelow(i, j, Pow2(d), d);
    }
    forall i: nat, j: nat, i': nat, j': nat | j < d && j' < d && CccVertex(i, j, d) == CccVertex(i', j', d)
      ensures i == i' && j == j'
    {
      PlaceUnique(i, j, i', j', d);
    }
  }

  /** The edge from vertex `j` of cycle `i` to the next vertex of the cycle. */
  function CycleEdge(i: nat, j: nat, d: nat): (nat, nat)
    requires d > 0
  {
    (CccVertex(i, j, d), CccVertex(i, (j + 1) % d, d))
  }

  /** The edge from vertex `j` of cycle `i` to vertex `j` of cycle `i ^ 2^j`. */
  function LinkEdge(i: nat, j: nat, d: nat): (nat, nat)
  {
    (CccVertex(i, j, d), CccVertex(FlipBit(i, j), j, d))
  }

  /** Cycle `i`'s edges for the positions below `j`. */
  function CycleRow(i: nat, j: nat, d: nat): seq<(nat, nat)>
    requires d > 0
  {
    seq(j, t requires 0 <= t => CycleEdge(i, t, d))
  }

  function CycleRows(k: nat, d: nat): seq<(nat, nat)>
    requires d > 0
  {
    if k == 0 then [] else CycleRows(k - 1, d) + CycleRow(k - 1, d, d)
  }

  /** Cycle `i`'s links for the positions below `j`, each added from the
      smaller of the two cycles it joins. */
  function LinkRow(i: nat, j: nat, d: nat): seq<(nat, nat)>
  {
    if j == 0 then []
    else LinkRow(i, j - 1, d) + (if FlipBit(i, j - 1) < i then [] else [LinkEdge(i, j - 1, d)])
  }

  function LinkRows(k: nat, d: nat): seq<(nat, nat)>
  {
    if k == 0 then [] else LinkRows(k - 1, d) + LinkRow(k - 1, d, d)
  }

  /** The pairs of `createCubeConnectedCycles(d)` for `d > 2`. */
  function CubeConnectedPairs(d: nat): seq<(nat, nat)>
    requires d > 0
  {
    CycleRows(Pow2(d), d) + LinkRows(Pow2(d), d)
  }

  ghost predicate CycleEdgeBelow(p: (nat, nat), k: nat, d: nat)
    requires d > 0
  {
    exists i, j :: 0 <= i < k && 0 <= j < d && p == CycleEdge(i, j, d)
  }

  ghost predicate LinkEdgeBelow(p: (nat, nat), k: nat, d: nat)
  {
    exists i, j :: 0 <= i < k && 0 <= j < d && p == LinkEdge(i, j, d)
  }

  lemma {:induction false} CycleRowsLength(k: nat, d: nat)
    requires d > 0
    ensures |CycleRows(k, d)| == k * d
  {
    if k > 0 {
      CycleRowsLength(k - 1, d);
      assert (k - 1) * d + d == k * d;
    }
  }

  lemma {:induction false} CycleRowsMembers(k: nat, d: nat)
    requires d > 0
    ensures forall i, j :: 0 <= i < k && 0 <= j < d ==> CycleEdge(i, j, d) in CycleRows(k, d)
  {
    if k > 0 {
      CycleRowsMembers(k - 1, d);
      var prev, row, all := CycleRows(k - 1, d), CycleRow(k - 1, d, d), CycleRows(k, d);
      assert all == prev + row;
      forall i, j | 0 <= i < k && 0 <= j < d
        ensures CycleEdge(i, j, d) in all
      {
        if i == k - 1 {
          assert row[j] == CycleEdge(i, j, d);
        } else {
          assert CycleEdge(i, j, d) in prev;
        }
      }
    }
  }

  lemma {:induction false} CycleRowsForm(k: nat, d: nat)
    requires d > 0
    ensures forall q :: 0 <= q < |CycleRows(k, d)| ==> CycleEdgeBelow(CycleRows(k, d)[q], k, d)
  {
    if k > 0 {
      CycleRowsForm(k - 1, d);
      var prev, row, all := CycleRows(k - 1, d), CycleRow(k - 1, d, d), CycleRows(k, d);
      assert all == prev + row;
      forall q | 0 <= q < |all|
        ensures CycleEdgeBelow(all[q], k, d)
      {
        if q < |prev| {
          assert all[q] == prev[q];
          var i, j :| 0 <= i < k - 1 && 0 <= j < d && prev[q] == CycleEdge(i, j, d);
        } else {
          assert all[q] == row[q - |prev|] == CycleEdge(k - 1, q - |prev|, d);
        }
      }
    }
  }

  lemma {:induction false} LinkRowLength(i: nat, j: nat, d: nat)
    ensures |LinkRow(i, j, d)| == ClearBits(i, j)
  {
    if j > 0 {
      LinkRowLength(i, j - 1, d);
      FlipBitFacts(i, j - 1);
    }
  }

  lemma {:induction false} LinkRowMembers(i: nat, j: nat, d: nat)
    ensures forall b :: 0 <= b < j && i < FlipBit(i, b) ==> LinkEdge(i, b, d) in LinkRow(i, j, d)
  {
    if j > 0 {
      LinkRowMembers(i, j - 1, d);
      assert LinkRow(i, j, d) == LinkRow(i, j - 1, d) + (if FlipBit(i, j - 1) < i then [] else [LinkEdge(i, j - 1, d)]);
    }
  }

  /** `p` is one of cycle `i`'s links at a position below `j`. */
  ghost predicate LinkOf(p: (nat, nat), i: nat, j: nat, d: nat)
  {
    exists b :: 0 <= b < j && p == LinkEdge(i, b, d)
  }

  lemma {:induction false} LinkRowForm(i: nat, j: nat, d: nat)
    ensures forall q :: 0 <= q < |LinkRow(i, j, d)| ==> LinkOf(LinkRow(i, j, d)[q], i, j, d)
  {
    if j > 0 {
      LinkRowForm(i, j - 1, d);
      var prev, all := LinkRow(i, j - 1, d), LinkRow(i, j, d);
      forall q | 0 <= q < |all|
        ensures LinkOf(all[q], i, j, d)
      {
        if q < |prev| {
          assert all[q] == prev[q];
          var b :| 0 <= b < j - 1 && prev[q] == LinkEdge(i, b, d);
        } else {
          assert all[q] == LinkEdge(i, j - 1, d);
        }
      }
    }
  }

  lemma {:induction false} LinkRowsLength(k: nat, d: nat)
    ensures |LinkRows(k, d)| == ClearTotal(k, d)
  {
    if k > 0 {
      LinkRowsLength(k - 1, d);
      LinkRowLength(k - 1, d, d);
    }
  }

  lemma {:induction false} LinkRowsMembers(k: nat, d: nat)
    ensures forall i, b :: 0 <= i < k && 0 <= b < d && i < FlipBit(i, b) ==> LinkEdge(i, b, d) in LinkRows(k, d)
  {
    if k > 0 {
      LinkRowsMembers(k - 1, d);
      LinkRowMembers(k - 1, d, d);
      var prev, row, all := LinkRows(k - 1, d), LinkRow(k - 1, d, d), LinkRows(k, d);
      assert all == prev + row;
      forall i, b | 0 <= i < k && 0 <= b < d && i < FlipBit(i, b)
        ensures LinkEdge(i, b, d) in all
      {
        if i < k - 1 {
          assert LinkEdge(i, b, d) in prev;
        } else {
          assert LinkEdge(i, b, d) in row;
        }
      }
    }
  }

  lemma {:induction false} LinkRowsForm(k: nat, d: nat)
    ensures forall q :: 0 <= q < |LinkRows(k, d)| ==> LinkEdgeBelow(LinkRows(k, d)[q], k, d)
  {
    if k > 0 {
      LinkRowsForm(k - 1, d);
      LinkRowForm(k - 1, d, d);
      var prev, row, all := LinkRows(k - 1, d), LinkRow(k - 1, d, d), LinkRows(k, d);
      assert all == prev + row;
      forall q | 0 <= q < |all|
        ensures LinkEdgeBelow(all[q], k, d)
      {
        if q < |prev| {
          assert all[q] == prev[q];
          var i, b :| 0 <= i < k - 1 && 0 <= b < d && prev[q] == LinkEdge(i, b, d);
        } else {
          assert all[q] == row[q - |prev|];
          var b :| 0 <= b < d && row[q - |prev|] == LinkEdge(k - 1, b, d);
        }
      }
    }
  }

  /** The cube-connected cycles of dimension `d` have `d 2^d` vertices and
      one and a half times as many edges. */
  lemma CubeConnectedCount(d: nat)
    requires d > 0
    ensures 2 * |CubeConnectedPairs(d)| == 3 * (d * Pow2(d))
  {
    CycleRowsLength(Pow2(d), d);
    LinkRowsLength(Pow2(d), d);
    ClearTotalCube(d);
    assert Pow2(d) * d == d * Pow2(d);
  }

  /** Vertex `j` of cycle `i` is joined to the next vertex of its cycle and
      to vertex `j` of cycle `i ^ 2^j`. */
  lemma CubeConnectedNeighbors(d: nat)
    requires d > 0
    ensures forall i: nat, j: nat :: i < Pow2(d) && j < d ==>
      Joined(CubeConnectedPairs(d), CycleEdge(i, j, d).0, CycleEdge(i, j, d).1) &&
      Joined(CubeConnectedPairs(d), LinkEdge(i, j, d).0, LinkEdge(i, j, d).1)
  {
    var cyc, link := CycleRows(Pow2(d), d), LinkRows(Pow2(d), d);
    var ps := CubeConnectedPairs(d);
    CycleRowsMembers(Pow2(d), d);
    LinkRowsMembers(Pow2(d), d);
    forall i: nat, j: nat | i < Pow2(d) && j < d
      ensures Joined(ps, CycleEdge(i, j, d).0, CycleEdge(i, j, d).1)
      ensures Joined(ps, LinkEdge(i, j, d).0, LinkEdge(i, j, d).1)
    {
      var e := CycleEdge(i, j, d);
      var q :| 0 <= q < |cyc| && cyc[q] == e;
      assert ps[q] == e && SameEdge(ps[q], e);
      FlipBitFacts(i, j);
      FlipBitBelow(i, j, d);
      var o := FlipBit(i, j);
      var f := LinkEdge(i, j, d);
      if i < o {
        var l :| 0 <= l < |link| && link[l] == f;
        assert ps[|cyc| + l] == f && SameEdge(ps[|cyc| + l], f);
      } else {
        FlipBitFacts(o, j);
        var h := LinkEdge(o, j, d);
        assert h == (f.1, f.0);
        var l :| 0 <= l < |link| && link[l] == h;
        assert ps[|cyc| + l] == h && SameEdge(ps[|cyc| + l], f);
      }
    }
  }

  /** Every edge of the cube-connected cycles is a cycle edge or a link. */
  lemma CubeConnectedOnly(d: nat)
    requires d > 0
    ensures forall q :: 0 <= q < |CubeConnectedPairs(d)| ==>
      CycleEdgeBelow(CubeConnectedPairs(d)[q], Pow2(d), d) || LinkEdgeBelow(CubeConnectedPairs(d)[q], Pow2(d), d)
  {
    var cyc, link := CycleRows(Pow2(d), d), LinkRows(Pow2(d), d);
    var ps := CubeConnectedPairs(d);
    CycleRowsForm(Pow2(d), d);
    LinkRowsForm(Pow2(d), d);
    forall q | 0 <= q < |ps|
      ensures CycleEdgeBelow(ps[q], Pow2(d), d) || LinkEdgeBelow(ps[q], Pow2(d), d)
    {
      if q < |cyc| {
        assert ps[q] == cyc[q];
      } else {
        assert ps[q] == link[q - |cyc|];
      }
    }
  }

  /** Closes cycle `i` (the inner loop of the first pass). */
  method AddCycle(g: Graph, ghost ps: seq<(nat, nat)>, i: nat, d: nat)
    requires Holds(g, ps) && d > 0 && i < Pow2(d) && g.n == d * Pow2(d)
    modifies g
    ensures Holds(g, ps + CycleRow(i, d, d))
  {
    CccVertexPlace(d);
    var j := 0;
    while j < d
      invariant 0 <= j <= d
      invariant Holds(g, ps + CycleRow(i, j, d))
    {
      assert (ps + CycleRow(i, j, d)) + [CycleEdge(i, j, d)] == ps + CycleRow(i, j + 1, d);
      Push(g, ps + CycleRow(i, j, d), i * d + j, i * d + (j + 1) % d);
      j := j + 1;
    }
  }

  /** Links cycle `i` to the larger cycles it differs from in one bit (the
      inner loop of the second pass). */
  method AddLinks(g: Graph, ghost ps: seq<(nat, nat)>, i: nat, d: nat)
    requires Holds(g, ps) && i < Pow2(d) && g.n == d * Pow2(d)
    modifies g
    ensures Holds(g, ps + LinkRow(i, d, d))
  {
    CccVertexPlace(d);
    var j := 0;
    while j < d
      invariant 0 <= j <= d
      invariant Holds(g, ps + LinkRow(i, j, d))
    {
      var o := FlipBit(i, j);
      if !(o < i) {
        FlipBitBelow(i, j, d);
        assert (ps + LinkRow(i, j, d)) + [LinkEdge(i, j, d)] == ps + LinkRow(i, j + 1, d);
        Push(g, ps + LinkRow(i, j, d), i * d + j, o * d + j);
      }
      j := j + 1;
    }
  }

  /** `createCubeConnectedCycles(d)`: a dimension below 2 throws
      IllegalArgumentException; dimension 2 is the cycle on 8 vertices;
      otherwise vertex `j` of cycle `i` is vertex `i d + j`, the cycles are
      closed first, then linked across. */
  method CreateCubeConnectedCycles(d: int) returns (r: Result<Graph>)
    ensures r.Ok? <==> d >= 2
    ensures !r.Ok? ==> r.exception == IllegalArgument
    ensures r.Ok? ==> fresh(r.value) && !r.value.isDirected
    ensures d == 2 ==> r.Ok? && r.value.n == 8 && Holds(r.value, CyclePairs(8))
    ensures d > 2 ==> r.Ok? && r.value.n == d * Pow2(d) && Holds(r.value, CubeConnectedPairs(d))
  {
    if d < 2 {
      return Throw(IllegalArgument);
    }
    if d == 2 {
      r := CreateCycle(8);
      return;
    }
    var g := Fresh(d * Pow2(d), false);
    AddAllCycles(g, d);
    AddAllLinks(g, CycleRows(Pow2(d), d), d);
    return Ok(g);
  }

  /** The first pass: closes every cycle. */
  method AddAllCycles(g: Graph, d: nat)
    requires Holds(g, []) && d > 0 && g.n == d * Pow2(d)
    modifies g
    ensures Holds(g, CycleRows(Pow2(d), d))
  {
    var numCycles := Pow2(d);
    var i := 0;
    while i < numCycles
      invariant 0 <= i <= numCycles
      invariant Holds(g, CycleRows(i, d))
    {
      AddCycle(g, CycleRows(i, d), i, d);
      i := i + 1;
    }
  }

  /** The second pass: links the cycles along the hypercube's edges. */
  method AddAllLinks(g: Graph, ghost ps: seq<(nat, nat)>, d: nat)
    requires Holds(g, ps) && g.n == d * Pow2(d)
    modifies g
    ensures Holds(g, ps + LinkRows(Pow2(d), d))
  {
    var numCycles := Pow2(d);
    var i := 0;
    while i < numCycles
      invariant 0 <= i <= numCycles
      invariant Holds(g, ps + LinkRows(i, d))
    {
      AddLinks(g, ps + LinkRows(i, d), i, d);
      Associative(ps, LinkRows(i, d), LinkRow(i, d, d));
      i := i + 1;
    }
  }

  // ---------------------------------------------------------------------
  // Permutation graph

  /** Row `s` up to (excluding) column `t`: `(s, t')` for `s < t' < t`
      whenever `perm[t'] < perm[s]`. */
  function PermutationRow(perm: seq<int>, s: nat, t: nat): seq<(nat, nat)>
    requires s < |perm| && t <= |perm|
  {
    if t <= s + 1 then []
    else PermutationRow(perm, s, t - 1) + (if perm[t - 1] < perm[s] then [(s, t - 1)] else [])
  }

  function PermutationRows(perm: seq<int>, k: nat): seq<(nat, nat)>
    requires k <= |perm|
  {
    if k == 0 then [] else PermutationRows(perm, k - 1) + PermutationRow(perm, k - 1, |perm|)
  }

  /** The pairs of `createPermutationGraph` for the permutation `perm`:
      the rows of all positions but the last. */
  function PermutationPairs(perm: seq<int>): seq<(nat, nat)>
  {
    if |perm| == 0 then [] else PermutationRows(perm, |perm| - 1)
  }

  /** An inversion of `perm`: two positions in increasing order whose
      values are in decreasing order. */
  predicate Inversion(perm: seq<int>, p: (nat, nat))
  {
    p.0 < p.1 < |perm| && perm[p.1] < perm[p.0]
  }

  lemma {:induction false} PermutationRowForm(perm: seq<int>, s: nat, t: nat)
    requires s < |perm| && t <= |perm|
    ensures forall q :: 0 <= q < |PermutationRow(perm, s, t)| ==>
      PermutationRow(perm, s, t)[q].0 == s && PermutationRow(perm, s, t)[q].1 < t && Inversion(perm, PermutationRow(perm, s, t)[q])
  {
    if t > s + 1 {
      PermutationRowForm(perm, s, t - 1);
    }
  }

  lemma {:induction false} PermutationRowMembers(perm: seq<int>, s: nat, t: nat)
    requires s < |perm| && t <= |perm|
    ensures forall v: nat :: s < v < t && perm[v] < perm[s] ==> (s, v) in PermutationRow(perm, s, t)
  {
    if t > s + 1 {
      PermutationRowMembers(perm, s, t - 1);
    }
  }

  lemma {:induction false} PermutationRowIncreasing(perm: seq<int>, s: nat, t: nat)
    requires s < |perm| && t <= |perm|
    ensures forall q, l :: 0 <= q < l < |PermutationRow(perm, s, t)| ==> PermutationRow(perm, s, t)[q].1 < PermutationRow(perm, s, t)[l].1
  {
    if t > s + 1 {
      PermutationRowIncreasing(perm, s, t - 1);
      PermutationRowForm(perm, s, t - 1);
    }
  }

  lemma {:induction false} PermutationRowsForm(perm: seq<int>, k: nat)
    requires k <= |perm|
    ensures forall q :: 0 <= q < |PermutationRows(perm, k)| ==>
      PermutationRows(perm, k)[q].0 < k && Inversion(perm, PermutationRows(perm, k)[q])
  {
    if k > 0 {
      PermutationRowsForm(perm, k - 1);
      PermutationRowForm(perm, k - 1, |perm|);
      var prev, row, all := PermutationRows(perm, k - 1), PermutationRow(perm, k - 1, |perm|), PermutationRows(perm, k);
      assert all == prev + row;
      forall q | 0 <= q < |all|
        ensures all[q].0 < k && Inversion(perm, all[q])
      {
        if q < |prev| {
          assert all[q] == prev[q];
        } else {
          assert all[q] == row[q - |prev|];
        }
      }
    }
  }

  lemma {:induction false} PermutationRowsMembers(perm: seq<int>, k: nat)
    requires k <= |perm|
    ensures forall u: nat, v: nat :: u < k && u < v < |perm| && perm[v] < perm[u] ==> (u, v) in PermutationRows(perm, k)
  {
    if k > 0 {
      PermutationRowsMembers(perm, k - 1);
      PermutationRowMembers(perm, k - 1, |perm|);
      var prev, row, all := PermutationRows(perm, k - 1), PermutationRow(perm, k - 1, |perm|), PermutationRows(perm, k);
      assert all == prev + row;
      forall u: nat, v: nat | u < k && u < v < |perm| && perm[v] < perm[u]
        ensures (u, v) in all
      {
        if u < k - 1 {
          assert (u, v) in prev;
        } else {
          assert (u, v) in row;
        }
      }
    }
  }

  lemma {:induction false} PermutationRowsDistinct(perm: seq<int>, k: nat)
    requires k <= |perm|
    ensures forall q, l :: 0 <= q < l < |PermutationRows(perm, k)| ==> PermutationRows(perm, k)[q] != PermutationRows(perm, k)[l]
  {
    if k > 0 {
      PermutationRowsDistinct(perm, k - 1);
      PermutationRowsForm(perm, k - 1);
      PermutationRowForm(perm, k - 1, |perm|);
      PermutationRowIncreasing(perm, k - 1, |perm|);
      var prev, row, all := PermutationRows(perm, k - 1), PermutationRow(perm, k - 1, |perm|), PermutationRows(perm, k);
      assert all == prev + row;
      forall q, l | 0 <= q < l < |all|
        ensures all[q] != all[l]
      {
        if l < |prev| {
          assert all[q] == prev[q] && all[l] == prev[l];
        } else if q < |prev| {
          assert all[q] == prev[q] && all[l] == row[l - |prev|];
        } else {
          assert all[q] == row[q - |prev|] && all[l] == row[l - |prev|];
        }
      }
    }
  }

  /** The permutation graph joins positions `i < j` exactly when the
      permutation inverts them, and repeats no edge. */
  lemma PermutationShape(perm: seq<int>)
    ensures forall u: nat, v: nat :: u < v ==>
      (Joined(PermutationPairs(perm), u, v) <==> v < |perm| && perm[v] < perm[u])
    ensures SimplePairs(PermutationPairs(perm))
  {
    var ps := PermutationPairs(perm);
    if |perm| > 0 {
      PermutationRowsForm(perm, |perm| - 1);
      PermutationRowsMembers(perm, |perm| - 1);
      PermutationRowsDistinct(perm, |perm| - 1);
      forall u: nat, v: nat | u < v
        ensures Joined(ps, u, v) <==> v < |perm| && perm[v] < perm[u]
      {
        if v < |perm| && perm[v] < perm[u] {
          var q :| 0 <= q < |ps| && ps[q] == (u, v);
          assert SameEdge(ps[q], (u, v));
        }
      }
      forall q, l | 0 <= q < l < |ps|
        ensures !SameEdge(ps[q], ps[l])
      {
        assert ps[q] != ps[l];
      }
    }
  }

  /** Adds row `s` of the permutation graph (the inner loop). */
  method AddInversions(g: Graph, ghost ps: seq<(nat, nat)>, permutation: array<int>, s: nat)
    requires Holds(g, ps) && s < permutation.Length == g.n
    modifies g
    ensures Holds(g, ps + PermutationRow(permutation[..], s, permutation.Length))
  {
    ghost var perm := permutation[..];
    var t := s + 1;
    while t < permutation.Length
      invariant s + 1 <= t <= permutation.Length
      invariant Holds(g, ps + PermutationRow(perm, s, t))
    {
      if permutation[t] < permutation[s] {
        assert (ps + PermutationRow(perm, s, t)) + [(s, t)] == ps + PermutationRow(perm, s, t + 1);
        Push(g, ps + PermutationRow(perm, s, t), s, t);
      }
      t := t + 1;
    }
  }

  /** `createPermutationGraph(n, seed)`, the seed standing for the stream
      of draws of `new Random(seed)`: fewer than one vertex throws
      IllegalArgumentException; otherwise a Fisher-Yates permutation is
      drawn and positions `i < j` are joined when it inverts them. */
  method CreatePermutationGraph(n: int, draws: nat -> nat) returns (r: Result<Graph>, ghost perm: seq<int>)
    ensures r.Ok? <==> n >= 1
    ensures !r.Ok? ==> r.exception == IllegalArgument
    ensures r.Ok? ==> fresh(r.value) && r.value.n == n && !r.value.isDirected
    ensures r.Ok? ==> |perm| == n && multiset(perm) == multiset(Iota(n))
    ensures r.Ok? ==> Holds(r.value, PermutationPairs(perm))
  {
    if n < 1 {
      return Throw(IllegalArgument), [];
    }
    var g := Fresh(n, false);
    var random := new Random(draws);
    var permutation := RandomPermutation(n, random);
    perm := permutation[..];
    var s := 0;
    while s < n - 1
      invariant 0 <= s <= n - 1 && perm == permutation[..]
      invariant Holds(g, PermutationRows(perm, s))
    {
      AddInversions(g, PermutationRows(perm, s), permutation, s);
      s := s + 1;
    }
    return Ok(g), perm;
  }

  // ---------------------------------------------------------------------
  // Maximal outerplanar graphs

  /** A chord of the polygon on the vertices `begin..end` (in order around
      the outer cycle): two of its vertices that are not consecutive on
      its boundary, smaller end first. */
  predicate Chord(p: (nat, nat), begin: nat, end: nat)
  {
    begin <= p.0 && p.0 + 2 <= p.1 <= end && !(p.0 == begin && p.1 == end)
  }

  /** Two chords cross when their ends interleave around the polygon. */
  predicate Cross(p: (nat, nat), q: (nat, nat))
  {
    p.0 < q.0 < p.1 < q.1 || q.0 < p.0 < q.1 < p.1
  }

  /** Chords of the polygon `begin..end` that pairwise neither coincide nor
      cross, i.e. that can all be drawn inside it. */
  ghost predicate NonCrossing(cs: seq<(nat, nat)>, begin: nat, end: nat)
  {
    (forall p :: p in cs ==> Chord(p, begin, end)) &&
    forall k, l :: 0 <= k < l < |cs| ==> cs[k] != cs[l] && !Cross(cs[k], cs[l])
  }

  /** No chord of `xs` coincides with or crosses a chord of `ys`. */
  ghost predicate Separated(xs: seq<(nat, nat)>, ys: seq<(nat, nat)>)
  {
    forall p, q :: p in xs && q in ys ==> p != q && !Cross(p, q)
  }

  lemma NonCrossingAppend(xs: seq<(nat, nat)>, ys: seq<(nat, nat)>, begin: nat, end: nat)
    requires NonCrossing(xs, begin, end) && NonCrossing(ys, begin, end) && Separated(xs, ys)
    ensures NonCrossing(xs + ys, begin, end)
  {
    var all := xs + ys;
    forall k, l | 0 <= k < l < |all|
      ensures all[k] != all[l] && !Cross(all[k], all[l])
    {
      if l < |xs| {
        assert all[k] == xs[k] && all[l] == xs[l];
      } else if k >= |xs| {
        assert all[k] == ys[k - |xs|] && all[l] == ys[l - |xs|];
      } else {
        assert all[k] in xs && all[l] in ys;
      }
    }
  }

  /** The chords of a smaller polygon inside `begin..end` are chords of it. */
  lemma NonCrossingWiden(cs: seq<(nat, nat)>, b: nat, e: nat, begin: nat, end: nat)
    requires NonCrossing(cs, b, e) && begin <= b && e <= end && (b, e) != (begin, end)
    ensures NonCrossing(cs, begin, end)
  {
  }

  /** The chords `addEdgeToInnerFace` adds itself once it picked `pick`:
      those of the triangle `begin, pick, end` that are not boundary edges. */
  function Heads(begin: nat, pick: nat, end: nat): seq<(nat, nat)>
  {
    (if pick > begin + 1 then [(begin, pick)] else []) + (if pick + 1 < end then [(pick, end)] else [])
  }

  /** Cutting the polygon `begin..end` along the triangle `begin, pick, end`
      and triangulating both sides gives `end - begin - 2` chords of the
      whole polygon that can be drawn together. */
  lemma Triangulated(begin: nat, pick: nat, end: nat, left: seq<(nat, nat)>, right: seq<(nat, nat)>)
    requires begin < pick < end && end - begin >= 3
    requires pick - begin >= 2 ==> NonCrossing(left, begin, pick) && |left| == pick - begin - 2
    requires pick - begin < 2 ==> left == []
    requires end - pick >= 2 ==> NonCrossing(right, pick, end) && |right| == end - pick - 2
    requires end - pick < 2 ==> right == []
    ensures NonCrossing(Heads(begin, pick, end) + left + right, begin, end)
    ensures |Heads(begin, pick, end) + left + right| == end - begin - 2
  {
    var heads := Heads(begin, pick, end);
    assert NonCrossing(heads, begin, end);
    if pick - begin >= 2 {
      NonCrossingWiden(left, begin, pick, begin, end);
    }
    if end - pick >= 2 {
      NonCrossingWiden(right, pick, end, begin, end);
    }
    assert Separated(heads, left);
    NonCrossingAppend(heads, left, begin, end);
    assert Separated(heads + left, right) by {
      forall p, q | p in heads + left && q in right
        ensures p != q && !Cross(p, q)
      {
        assert p in heads || p in left;
      }
    }
    NonCrossingAppend(heads + left, right, begin, end);
  }

  /** `addEdgeToInnerFace(g, begin, end, random)`: the polygon `begin..end`
      whose boundary is already in `g` is triangulated by a random
      triangle `begin, pick, end` and recursion on both sides.  A polygon
      of fewer than three vertices throws IllegalStateException; a triangle
      adds nothing.  The recursive calls are always on polygons of at
      least three vertices, so they complete. */
  method AddEdgeToInnerFace(g: Graph, ghost ps: seq<(nat, nat)>, begin: nat, end: nat, random: Random)
    returns (o: Outcome, ghost cs: seq<(nat, nat)>)
    requires Holds(g, ps) && end < g.n
    modifies g, random
    decreases end - begin
    ensures end - begin + 1 < 3 ==> o == Raise(IllegalState) && cs == []
    ensures end - begin + 1 >= 3 ==> o == Done && |cs| == end - begin - 2 && NonCrossing(cs, begin, end)
    ensures Holds(g, ps + cs)
  {
    var length := end - begin + 1;
    if length < 3 {
      return Raise(IllegalState), [];
    } else if length == 3 {
      return Done, [];
    }
    var draw := random.NextInt(length - 2);
    var pick := begin + 1 + draw.value;
    // The three cases of the source differ only in which sides of the
    // triangle are new chords and which sides are recursed into.
    ghost var heads := Heads(begin, pick, end);
    if pick == begin + 1 {
      Push(g, ps, pick, end);
      assert heads == [(pick, end)];
    } else if pick == end - 1 {
      Push(g, ps, begin, pick);
      assert heads == [(begin, pick)];
    } else {
      Push(g, ps, begin, pick);
      Push(g, ps + [(begin, pick)], pick, end);
      assert heads == [(begin, pick)] + [(pick, end)];
      Associative(ps, [(begin, pick)], [(pick, end)]);
    }
    ghost var left: seq<(nat, nat)>, right: seq<(nat, nat)> := [], [];
    if pick != begin + 1 {
      o, left := AddEdgeToInnerFace(g, ps + heads, begin, pick, random);
    }
    if pick != end - 1 {
      o, right := AddEdgeToInnerFace(g, ps + heads + left, pick, end, random);
    }
    cs := heads + left + right;
    Associative(ps + heads, left, right);
    Associative(ps, heads, left + right);
    Associative(heads, left, right);
    Triangulated(begin, pick, end, left, right);
    o := Done;
  }

  /** `createMaxOuterplanarGraph(n, seed)`, the seed standing for the
      stream of draws of `new Random(seed)`: a negative number of vertices
      throws IllegalArgumentException; otherwise the vertices form a cycle
      in the order of their ids, and for more than three vertices the
      inner face is triangulated by chords that do not cross. */
  method CreateMaxOuterplanarGraph(n: int, draws: nat -> nat) returns (r: Result<Graph>, ghost chords: seq<(nat, nat)>)
    ensures r.Ok? <==> n >= 0
    ensures !r.Ok? ==> r.exception == IllegalArgument
    ensures r.Ok? ==> fresh(r.value) && r.value.n == n && !r.value.isDirected
    ensures r.Ok? ==> Holds(r.value, CyclePairs(n) + chords)
    ensures n > 3 ==> |chords| == n - 3 && NonCrossing(chords, 0, n - 1)
    ensures n <= 3 ==> chords == []
  {
    if n < 0 {
      return Throw(IllegalArgument), [];
    }
    var g := Fresh(n, false);
    AddPath(g, n);
    if n > 2 {
      Push(g, PathPairs(n), 0, n - 1);
    }
    chords := [];
    if n > 3 {
      var random := new Random(draws);
      var o;
      o, chords := AddEdgeToInnerFace(g, CyclePairs(n), 0, n - 1, random);
    }
    return Ok(g), chords;
  }

  /** A maximal outerplanar graph on `n` vertices has `max(0, 2n - 3)` edges,
      none repeated: the chords are neither boundary edges nor each other. */
  lemma MaxOuterplanarShape(n: nat, chords: seq<(nat, nat)>)
    requires n > 3 ==> |chords| == n - 3 && NonCrossing(chords, 0, n - 1)
    requires n <= 3 ==> chords == []
    ensures |CyclePairs(n) + chords| == if 2 * n >= 3 then 2 * n - 3 else 0
    ensures SimplePairs(CyclePairs(n) + chords)
  {
    CycleShape(n);
    var cyc, all := CyclePairs(n), CyclePairs(n) + chords;
    forall k | 0 <= k < |all|
      ensures all[k].0 != all[k].1
    {
      if k >= |cyc| {
        assert all[k] == chords[k - |cyc|] && all[k] in chords;
      }
    }
    forall k, l | 0 <= k < l < |all|
      ensures !SameEdge(all[k], all[l])
    {
      if l < |cyc| {
        assert all[k] == cyc[k] && all[l] == cyc[l];
      } else if k >= |cyc| {
        assert all[k] == chords[k - |cyc|] && all[l] == chords[l - |cyc|];
        assert all[k] in chords && all[l] in chords;
      } else {
        var p := all[l];
        assert p == chords[l - |cyc|] && p in chords;
        if SameEdge(all[k], p) {
          assert all[k] == cyc[k] && SameEdge(cyc[k], (p.0, p.1));
          assert Joined(cyc, p.0, p.1);
          assert false;
        }
      }
    }
  }

  // ---------------------------------------------------------------------
  // k-trees

  /** The edges that join vertex `v` to the vertices of `c`, in order. */
  function Attach(c: seq<nat>, v: nat): seq<(nat, nat)>
  {
    seq(|c|, i requires 0 <= i < |c| => (c[i], v))
  }

  /** The edges added for the vertices `base, base + 1, ...`, vertex
      `base + j` being attached to the clique `picks[j]`. */
  function Attachments(picks: seq<seq<nat>>, base: nat): seq<(nat, nat)>
  {
    if |picks| == 0 then [] else Attachments(picks[..|picks| - 1], base) + Attach(picks[|picks| - 1], base + |picks| - 1)
  }

  /** The pairs of `createKTree(n, k, seed)` when vertex `k + 1 + j` is
      attached to the clique `picks[j]`: first the complete graph on
      `0..k`, then the attachments. */
  function KTreePairs(k: nat, picks: seq<seq<nat>>): seq<(nat, nat)>
  {
    CompleteRows(k, k + 1) + Attachments(picks, k + 1)
  }

  /** `c` lists `k` distinct vertices below `v` that `ps` joins pairwise. */
  ghost predicate KClique(c: seq<nat>, k: nat, v: nat, ps: seq<(nat, nat)>)
  {
    |c| == k && (forall i :: 0 <= i < |c| ==> c[i] < v) &&
    forall i, j :: 0 <= i < j < |c| ==> c[i] != c[j] && Joined(ps, c[i], c[j])
  }

  /** Every vertex `k + 1 + j` was attached to a `k`-clique of the graph
      built before it. */
  ghost predicate Attachable(k: nat, picks: seq<seq<nat>>)
  {
    forall j :: 0 <= j < |picks| ==> KClique(picks[j], k, k + 1 + j, KTreePairs(k, picks[..j]))
  }

  /** The shape of the picks without the cliques' edges: each has `k`
      distinct vertices, all before the vertex attached to it. */
  ghost predicate Picked(k: nat, picks: seq<seq<nat>>)
  {
    forall j :: 0 <= j < |picks| ==>
      (|picks[j]| == k &&
       (forall i :: 0 <= i < |picks[j]| ==> picks[j][i] < k + 1 + j) &&
       (forall i, i' :: 0 <= i < i' < |picks[j]| ==> picks[j][i] != picks[j][i']))
  }

  lemma AttachablePicked(k: nat, picks: seq<seq<nat>>)
    requires Attachable(k, picks)
    ensures Picked(k, picks)
  {
  }

  lemma JoinedPrefix(ps: seq<(nat, nat)>, qs: seq<(nat, nat)>)
    requires ps <= qs
    ensures forall u, v :: Joined(ps, u, v) ==> Joined(qs, u, v)
  {
    forall u, v | Joined(ps, u, v)
      ensures Joined(qs, u, v)
    {
      var q :| 0 <= q < |ps| && SameEdge(ps[q], (u, v));
      assert qs[q] == ps[q];
    }
  }

  lemma KCliqueGrow(c: seq<nat>, k: nat, v: nat, w: nat, ps: seq<(nat, nat)>, qs: seq<(nat, nat)>)
    requires KClique(c, k, v, ps) && v <= w && ps <= qs
    ensures KClique(c, k, w, qs)
  {
    JoinedPrefix(ps, qs);
  }

  lemma {:induction false} AttachmentsPrefix(picks: seq<seq<nat>>, base: nat, j: nat)
    requires j <= |picks|
    ensures Attachments(picks[..j], base) <= Attachments(picks, base)
    decreases |picks|
  {
    if j < |picks| {
      var init := picks[..|picks| - 1];
      assert init[..j] == picks[..j];
      AttachmentsPrefix(init, base, j);
    } else {
      assert picks[..j] == picks;
    }
  }

  lemma KTreePrefix(k: nat, picks: seq<seq<nat>>, j: nat)
    requires j <= |picks|
    ensures KTreePairs(k, picks[..j]) <= KTreePairs(k, picks)
  {
    AttachmentsPrefix(picks, k + 1, j);
  }

  lemma KTreeAppend(k: nat, picks: seq<seq<nat>>, c: seq<nat>)
    ensures KTreePairs(k, picks + [c]) == KTreePairs(k, picks) + Attach(c, k + 1 + |picks|)
  {
    assert (picks + [c])[..|picks|] == picks;
    Associative(CompleteRows(k, k + 1), Attachments(picks, k + 1), Attach(c, k + 1 + |picks|));
  }

  lemma {:induction false} AttachmentsLength(picks: seq<seq<nat>>, base: nat, k: nat)
    requires forall j :: 0 <= j < |picks| ==> |picks[j]| == k
    ensures |Attachments(picks, base)| == k * |picks|
  {
    if |picks| > 0 {
      AttachmentsLength(picks[..|picks| - 1], base, k);
      assert k * (|picks| - 1) + k == k * |picks|;
    }
  }

  /** Each attachment edge runs from a vertex of the clique picked for its
      later end. */
  lemma {:induction false} AttachmentsForm(picks: seq<seq<nat>>, base: nat)
    ensures forall q :: 0 <= q < |Attachments(picks, base)| ==>
      base <= Attachments(picks, base)[q].1 < base + |picks| &&
      Attachments(picks, base)[q].0 in picks[Attachments(picks, base)[q].1 - base]
  {
    if |picks| > 0 {
      var init := picks[..|picks| - 1];
      AttachmentsForm(init, base);
      var prev, row, all := Attachments(init, base), Attach(picks[|picks| - 1], base + |picks| - 1), Attachments(picks, base);
      assert all == prev + row;
      forall q | 0 <= q < |all|
        ensures base <= all[q].1 < base + |picks| && all[q].0 in picks[all[q].1 - base]
      {
        if q < |prev| {
          assert all[q] == prev[q];
          assert init[prev[q].1 - base] == picks[prev[q].1 - base];
        } else {
          assert all[q] == row[q - |prev|];
        }
      }
    }
  }

  lemma {:induction false} AttachmentsMembers(picks: seq<seq<nat>>, base: nat)
    ensures forall j, i :: 0 <= j < |picks| && 0 <= i < |picks[j]| ==> (picks[j][i], base + j) in Attachments(picks, base)
  {
    if |picks| > 0 {
      var init := picks[..|picks| - 1];
      AttachmentsMembers(init, base);
      var prev, row, all := Attachments(init, base), Attach(picks[|picks| - 1], base + |picks| - 1), Attachments(picks, base);
      assert all == prev + row;
      forall j, i | 0 <= j < |picks| && 0 <= i < |picks[j]|
        ensures (picks[j][i], base + j) in all
      {
        if j < |picks| - 1 {
          assert init[j] == picks[j];
          assert (picks[j][i], base + j) in prev;
        } else {
          assert row[i] == (picks[j][i], base + j);
        }
      }
    }
  }

  /** No attachment edge is repeated when every picked clique has distinct
      vertices. */
  lemma {:induction false} AttachmentsDistinct(picks: seq<seq<nat>>, base: nat)
    requires forall j, i, i' :: 0 <= j < |picks| && 0 <= i < i' < |picks[j]| ==> picks[j][i] != picks[j][i']
    ensures forall q, l :: 0 <= q < l < |Attachments(picks, base)| ==> Attachments(picks, base)[q] != Attachments(picks, base)[l]
  {
    if |picks| > 0 {
      var init := picks[..|picks| - 1];
      assert forall j :: 0 <= j < |init| ==> init[j] == picks[j];
      AttachmentsDistinct(init, base);
      AttachmentsForm(init, base);
      var prev, row, all := Attachments(init, base), Attach(picks[|picks| - 1], base + |picks| - 1), Attachments(picks, base);
      assert all == prev + row;
      forall q, l | 0 <= q < l < |all|
        ensures all[q] != all[l]
      {
        if l < |prev| {
          assert all[q] == prev[q] && all[l] == prev[l];
        } else if q < |prev| {
          assert all[q] == prev[q] && all[l] == row[l - |prev|];
        } else {
          assert all[q] == row[q - |prev|] && all[l] == row[l - |prev|];
        }
      }
    }
  }

  /** A k-tree on `k + 1 + |picks|` vertices has `k (k + 1) / 2 + k |picks|`
      edges. */
  lemma KTreeCount(k: nat, picks: seq<seq<nat>>)
    requires Picked(k, picks)
    ensures 2 * |KTreePairs(k, picks)| == k * (k + 1) + 2 * k * |picks|
  {
    CompleteRowsShape(k, k + 1);
    AttachmentsLength(picks, k + 1, k);
    CliqueArithmetic(k, |CompleteRows(k, k + 1)|, |Attachments(picks, k + 1)|, |picks|);
  }

  lemma CliqueArithmetic(k: nat, c: nat, a: nat, p: nat)
    requires 2 * c == k * (2 * (k + 1) - k - 1) && a == k * p
    ensures 2 * (c + a) == k * (k + 1) + 2 * k * p
  {
  }

  /** A k-tree repeats no edge and has no loop. */
  lemma KTreeSimple(k: nat, picks: seq<seq<nat>>)
    requires Picked(k, picks)
    ensures SimplePairs(KTreePairs(k, picks))
  {
    var ps, clique, att := KTreePairs(k, picks), CompleteRows(k, k + 1), Attachments(picks, k + 1);
    CompleteRowsShape(k, k + 1);
    AttachmentEnds(k, picks, k + 1);
    AttachmentsDistinct(picks, k + 1);
    forall q, l | 0 <= q < l < |ps|
      ensures !SameEdge(ps[q], ps[l])
    {
      if l < |clique| {
        assert ps[q] == clique[q] && ps[l] == clique[l];
      } else if q >= |clique| {
        assert ps[q] == att[q - |clique|] && ps[l] == att[l - |clique|];
      } else {
        assert ps[q] == clique[q] && ps[l] == att[l - |clique|];
      }
    }
    forall q | 0 <= q < |ps|
      ensures ps[q].0 != ps[q].1
    {
      if q < |clique| {
        assert ps[q] == clique[q];
      } else {
        assert ps[q] == att[q - |clique|];
      }
    }
  }

  /** In a k-tree the first `k + 1` vertices form a clique. */
  lemma KTreeFirstClique(k: nat, picks: seq<seq<nat>>)
    ensures forall u: nat, v: nat :: u < v <= k ==> Joined(KTreePairs(k, picks), u, v)
  {
    var ps, clique := KTreePairs(k, picks), CompleteRows(k, k + 1);
    CompleteRowsShape(k, k + 1);
    forall u: nat, v: nat | u < v <= k
      ensures Joined(ps, u, v)
    {
      var q :| 0 <= q < |clique| && clique[q] == (u, v);
      assert ps[q] == (u, v) && SameEdge(ps[q], (u, v));
    }
  }

  /** An attachment edge runs from a vertex of the clique picked for its
      later end up to that end. */
  lemma AttachmentEnds(k: nat, picks: seq<seq<nat>>, base: nat)
    requires Picked(k, picks) && base == k + 1
    ensures forall q :: 0 <= q < |Attachments(picks, base)| ==>
      Attachments(picks, base)[q].0 < Attachments(picks, base)[q].1 &&
      base <= Attachments(picks, base)[q].1 < base + |picks| &&
      Attachments(picks, base)[q].0 in picks[Attachments(picks, base)[q].1 - base]
  {
    var att := Attachments(picks, base);
    AttachmentsForm(picks, base);
    forall q | 0 <= q < |att|
      ensures att[q].0 < att[q].1
    {
      var j := att[q].1 - base;
      var i :| 0 <= i < |picks[j]| && picks[j][i] == att[q].0;
    }
  }

  lemma AttachedOnly(k: nat, picks: seq<seq<nat>>, u: nat, v: nat)
    requires Picked(k, picks) && u < v && k < v && Joined(KTreePairs(k, picks), u, v)
    ensures v < k + 1 + |picks| && u in picks[v - k - 1]
  {
    var ps, clique, att := KTreePairs(k, picks), CompleteRows(k, k + 1), Attachments(picks, k + 1);
    CompleteRowsEnds(k, k + 1);
    AttachmentEnds(k, picks, k + 1);
    var q :| 0 <= q < |ps| && SameEdge(ps[q], (u, v));
    if q >= |clique| {
      assert ps[q] == att[q - |clique|];
    }
  }

  lemma AttachedAll(k: nat, picks: seq<seq<nat>>, u: nat, v: nat)
    requires k < v < k + 1 + |picks| && u in picks[v - k - 1]
    ensures Joined(KTreePairs(k, picks), u, v)
  {
    var ps, clique, att := KTreePairs(k, picks), CompleteRows(k, k + 1), Attachments(picks, k + 1);
    AttachmentsMembers(picks, k + 1);
    var i :| 0 <= i < |picks[v - k - 1]| && picks[v - k - 1][i] == u;
    assert (picks[v - k - 1][i], k + 1 + (v - k - 1)) in att;
    var q :| 0 <= q < |att| && att[q] == (u, v);
    assert ps[|clique| + q] == (u, v) && SameEdge(ps[|clique| + q], (u, v));
  }

  /** In a k-tree each later vertex is joined to exactly the vertices of
      the clique picked for it among the earlier ones. */
  lemma KTreeAttached(k: nat, picks: seq<seq<nat>>)
    requires Picked(k, picks)
    ensures forall u: nat, v: nat :: u < v && k < v ==>
      (Joined(KTreePairs(k, picks), u, v) <==> v < k + 1 + |picks| && u in picks[v - k - 1])
  {
    forall u: nat, v: nat | u < v && k < v
      ensures Joined(KTreePairs(k, picks), u, v) <==> v < k + 1 + |picks| && u in picks[v - k - 1]
    {
      if Joined(KTreePairs(k, picks), u, v) {
        AttachedOnly(k, picks, u, v);
      }
      if v < k + 1 + |picks| && u in picks[v - k - 1] {
        AttachedAll(k, picks, u, v);
      }
    }
  }

  /** Each clique picked during the construction is a `k`-clique of the
      finished k-tree, so the vertex attached to it closes a
      `(k + 1)`-clique. */
  lemma KTreeCliques(k: nat, picks: seq<seq<nat>>)
    requires Attachable(k, picks)
    ensures forall j :: 0 <= j < |picks| ==> KClique(picks[j], k, k + 1 + j, KTreePairs(k, picks))
  {
    forall j | 0 <= j < |picks|
      ensures KClique(picks[j], k, k + 1 + j, KTreePairs(k, picks))
    {
      KTreePrefix(k, picks, j);
      KCliqueGrow(picks[j], k, k + 1 + j, k + 1 + j, KTreePairs(k, picks[..j]), KTreePairs(k, picks));
    }
  }

  /** `ps` joins `u` and `v` exactly when it joins `v` and `u`. */
  lemma JoinedSymmetric(ps: seq<(nat, nat)>, u: nat, v: nat)
    requires Joined(ps, u, v)
    ensures Joined(ps, v, u)
  {
    var q :| 0 <= q < |ps| && SameEdge(ps[q], (u, v));
    assert SameEdge(ps[q], (v, u));
  }

  /** Every vertex of a k-tree has at least `k` neighbours: `ns` lists `k`
      distinct vertices, other than `v`, each joined to `v`. */
  lemma KTreeDegree(k: nat, picks: seq<seq<nat>>, v: nat) returns (ns: seq<nat>)
    requires Attachable(k, picks) && v < k + 1 + |picks|
    ensures |ns| == k && forall i :: 0 <= i < |ns| ==> ns[i] != v && Joined(KTreePairs(k, picks), ns[i], v)
    ensures forall i, j :: 0 <= i < j < |ns| ==> ns[i] != ns[j]
  {
    var ps := KTreePairs(k, picks);
    if v <= k {
      ns := seq(k, (i: nat) => if i < v then i else i + 1);
      KTreeFirstClique(k, picks);
      forall i | 0 <= i < |ns|
        ensures Joined(ps, ns[i], v)
      {
        if i >= v {
          JoinedSymmetric(ps, v, ns[i]);
        }
      }
    } else {
      AttachablePicked(k, picks);
      KTreeAttached(k, picks);
      ns := picks[v - k - 1];
      assert forall i :: 0 <= i < |ns| ==> ns[i] in picks[v - k - 1];
    }
  }

  /** The clique `0..k` without `i`, built as the source's loop fills its
      array of `k` entries. */
  method SkipOne(i: nat, k: nat) returns (clique: seq<nat>)
    requires i <= k
    ensures KClique(clique, k, k + 1, CompleteRows(k, k + 1))
    ensures forall a :: 0 <= a < |clique| ==> clique[a] != i
  {
    clique := [];
    var j := 0;
    while j < k + 1
      invariant 0 <= j <= k + 1
      invariant |clique| == if i < j then j - 1 else j
      invariant forall a :: 0 <= a < |clique| ==> clique[a] < j && clique[a] != i
      invariant forall a, b :: 0 <= a < b < |clique| ==> clique[a] < clique[b]
    {
      if j != i {
        clique := clique + [j];
      }
      j := j + 1;
    }
    CompleteRowsShape(k, k + 1);
    forall a, b | 0 <= a < b < |clique|
      ensures Joined(CompleteRows(k, k + 1), clique[a], clique[b])
    {
      var ps := CompleteRows(k, k + 1);
      var q :| 0 <= q < |ps| && ps[q] == (clique[a], clique[b]);
      assert SameEdge(ps[q], (clique[a], clique[b]));
    }
  }

  /** The inner loop joining the new vertex `v` to the picked clique. */
  method AddAttachment(g: Graph, ghost ps: seq<(nat, nat)>, clique: seq<nat>, v: nat)
    requires Holds(g, ps) && v < g.n && forall i :: 0 <= i < |clique| ==> clique[i] < v
    modifies g
    ensures Holds(g, ps + Attach(clique, v))
  {
    var i := 0;
    while i < |clique|
      invariant 0 <= i <= |clique|
      invariant Holds(g, ps + Attach(clique, v)[..i])
    {
      assert (ps + Attach(clique, v)[..i]) + [(clique[i], v)] == ps + Attach(clique, v)[..i + 1];
      Push(g, ps + Attach(clique, v)[..i], clique[i], v);
      i := i + 1;
    }
    assert Attach(clique, v)[..i] == Attach(clique, v);
  }

  /** Replacing one vertex of a `k`-clique of `ps` by the new vertex `v`
      attached to it gives a `k`-clique of the extended graph. */
  lemma SwapIn(clique: seq<nat>, i: nat, k: nat, v: nat, ps: seq<(nat, nat)>)
    requires KClique(clique, k, v, ps) && i < k
    ensures KClique(clique[i := v], k, v + 1, ps + Attach(clique, v))
  {
    var qs := ps + Attach(clique, v);
    JoinedPrefix(ps, qs);
    var c := clique[i := v];
    forall a, b | 0 <= a < b < |c|
      ensures c[a] != c[b] && Joined(qs, c[a], c[b])
    {
      if a == i {
        assert qs[|ps| + b] == (clique[b], v) && SameEdge(qs[|ps| + b], (c[a], c[b]));
      } else if b == i {
        assert qs[|ps| + a] == (clique[a], v) && SameEdge(qs[|ps| + a], (c[a], c[b]));
      }
    }
  }

  /** One round of the vertex loop: attach `v` to a random clique of the
      list and add the `k` cliques that swap one of its vertices for `v`. */
  method AddKTreeVertex(g: Graph, ghost picks: seq<seq<nat>>, cliques: seq<seq<nat>>, k: nat, v: nat, random: Random)
    returns (cliques': seq<seq<nat>>, clique: seq<nat>)
    requires v == k + 1 + |picks| && v < g.n
    requires Holds(g, KTreePairs(k, picks)) && Attachable(k, picks)
    requires |cliques| >= 1 && forall c :: c in cliques ==> KClique(c, k, v, KTreePairs(k, picks))
    modifies g, random
    ensures Holds(g, KTreePairs(k, picks + [clique])) && Attachable(k, picks + [clique])
    ensures |cliques'| >= 1 && forall c :: c in cliques' ==> KClique(c, k, v + 1, KTreePairs(k, picks + [clique]))
  {
    ghost var ps := KTreePairs(k, picks);
    var draw := random.NextInt(|cliques|);
    clique := cliques[draw.value];
    assert clique in cliques;
    AddAttachment(g, ps, clique, v);
    KTreeAppend(k, picks, clique);
    ghost var qs := ps + Attach(clique, v);
    forall c | c in cliques
      ensures KClique(c, k, v + 1, qs)
    {
      KCliqueGrow(c, k, v, v + 1, ps, qs);
    }
    cliques' := cliques;
    var i := 0;
    while i < k
      invariant 0 <= i <= k && |cliques'| >= 1 && Holds(g, qs)
      invariant forall c :: c in cliques' ==> KClique(c, k, v + 1, qs)
    {
      SwapIn(clique, i, k, v, ps);
      cliques' := cliques' + [clique[i := v]];
      i := i + 1;
    }
    ghost var picks' := picks + [clique];
    forall j | 0 <= j < |picks'|
      ensures KClique(picks'[j], k, k + 1 + j, KTreePairs(k, picks'[..j]))
    {
      if j < |picks| {
        assert picks'[..j] == picks[..j];
      } else {
        assert picks'[..j] == picks;
      }
    }
  }

  /** `createKTree(n, k, seed)`, the seed standing for the stream of draws
      of `new Random(seed)`: vertices `0..k` form a clique and every later
      vertex is joined to a random `k`-clique among the earlier ones.
      A negative `n`, or fewer than `k + 1` vertices, throws
      IllegalArgumentException; so does a negative `k` with vertices (the
      edge capacity `n k` is negative), and `n = 0` with `k < -1` (the
      vertex loop starts below 0 and draws from the empty clique list). */
  method CreateKTree(n: int, k: int, draws: nat -> nat) returns (r: Result<Graph>, ghost picks: seq<seq<nat>>)
    ensures r.Ok? <==> n >= 0 && k + 1 <= n && (k >= 0 || (n == 0 && k == -1))
    ensures !r.Ok? ==> r.exception == IllegalArgument
    ensures r.Ok? ==> fresh(r.value) && r.value.n == n && !r.value.isDirected
    ensures r.Ok? && k < 0 ==> Holds(r.value, [])
    ensures r.Ok? && k >= 0 ==> |picks| == n - k - 1 && Attachable(k, picks) && Holds(r.value, KTreePairs(k, picks))
  {
    picks := [];
    if n < 0 || k + 1 > n {
      return Throw(IllegalArgument), [];
    }
    var created := NewGraph(n, n * k, false);
    if created.Throw? {
      return created, [];
    }
    var g := created.value;
    var random := new Random(draws);
    if k < 0 {
      // Only `n = 0` gets here: the clique loops are empty, and the vertex
      // loop starts at `k + 1`.
      if k + 1 < n {
        var draw := random.NextInt(0);
        return Throw(draw.exception), [];
      }
      return Ok(g), [];
    }
    AddCompleteRows(g, k, k + 1);
    var cliques: seq<seq<nat>> := [];
    var i := 0;
    while i < k + 1
      invariant 0 <= i <= k + 1 && |cliques| == i && Holds(g, CompleteRows(k, k + 1))
      invariant forall c :: c in cliques ==> KClique(c, k, k + 1, CompleteRows(k, k + 1))
    {
      var clique := SkipOne(i, k);
      cliques := cliques + [clique];
      i := i + 1;
    }
    var v := k + 1;
    assert KTreePairs(k, []) == CompleteRows(k, k + 1);
    while v < n
      invariant k + 1 <= v <= n && v == k + 1 + |picks|
      invariant Holds(g, KTreePairs(k, picks)) && Attachable(k, picks)
      invariant |cliques| >= 1 && forall c :: c in cliques ==> KClique(c, k, v, KTreePairs(k, picks))
      decreases n - v
    {
      var clique;
      cliques, clique := AddKTreeVertex(g, picks, cliques, k, v, random);
      picks := picks + [clique];
      v := v + 1;
    }
    return Ok(g), picks;
  }
}
