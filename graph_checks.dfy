/** `GraphChecks` and the tests in `GraphUtils`: connectivity, the tree test
    and bipartiteness, each a depth-first search from vertex 0 over an
    explicit stack.  Neighbours are read off `getNeighbors`, and the search
    is specified by walks from vertex 0. */
module GraphChecks {
  import opened Exceptions
  import opened FlatModel
  import opened FlatGraphs

  // ---------------------------------------------------------------------
  // Walks and reachability

  /** `p` is a walk: every entry is a vertex and each entry lists the next
      one among its neighbours. */
  ghost predicate IsWalk(vs: seq<Vertex>, p: seq<nat>)
  {
    |p| >= 1 && (forall i :: 0 <= i < |p| ==> p[i] < |vs|) &&
    forall i :: 0 <= i < |p| - 1 ==> HasNeighbor(vs[p[i]], p[i + 1])
  }

  /** A walk from `s` to `t`. */
  ghost predicate WalkFrom(vs: seq<Vertex>, p: seq<nat>, s: nat, t: nat)
  {
    IsWalk(vs, p) && p[0] == s && p[|p| - 1] == t
  }

  /** A walk from vertex 0 to `t`. */
  ghost predicate WalkTo(vs: seq<Vertex>, p: seq<nat>, t: nat)
  {
    WalkFrom(vs, p, 0, t)
  }

  /** Vertex `t` can be reached from vertex 0. */
  ghost predicate Reachable(vs: seq<Vertex>, t: nat)
  {
    exists p :: WalkTo(vs, p, t)
  }

  /** Every vertex can be reached from vertex 0. */
  ghost predicate Connected(vs: seq<Vertex>)
  {
    forall t :: 0 <= t < |vs| ==> Reachable(vs, t)
  }

  /** All neighbours of the marked vertex `x` are marked. */
  ghost predicate Closed(vs: seq<Vertex>, mark: seq<bool>, x: nat)
    requires x < |vs| && |mark| == |vs|
  {
    forall k :: 0 <= k < |vs[x].edges| ==>
      Neighbor(vs[x], vs[x].edges[k]) < |mark| && mark[Neighbor(vs[x], vs[x].edges[k])]
  }

  /** Every marked vertex has a recorded walk from vertex 0. */
  ghost predicate Witnessed(vs: seq<Vertex>, mark: seq<bool>, walks: map<nat, seq<nat>>)
  {
    forall t :: 0 <= t < |mark| && mark[t] ==> t in walks && WalkTo(vs, walks[t], t)
  }

  /** The graph's vertex records, as its operations keep them, list
      only neighbours that are vertices of the graph. */
  ghost predicate NeighborsBelow(vs: seq<Vertex>)
  {
    forall x :: 0 <= x < |vs| ==>
      forall k :: 0 <= k < |vs[x].edges| ==> Neighbor(vs[x], vs[x].edges[k]) < |vs|
  }

  /** Neighbourship is symmetric in a graph kept by its operations. */
  ghost predicate Symmetric(vs: seq<Vertex>)
  {
    forall x :: 0 <= x < |vs| ==>
      forall y :: 0 <= y < |vs| && HasNeighbor(vs[x], y) ==> HasNeighbor(vs[y], x)
  }

  /** Each edge is registered at both of its ends, so the neighbour
      relation of a graph kept by its operations is symmetric. */
  lemma IncidencesSymmetric(n: nat, es: seq<Edge>)
    requires EndsBelow(es, n)
    ensures Symmetric(Incidences(n, es)) && NeighborsBelow(Incidences(n, es))
  {
    var vs := Incidences(n, es);
    forall x, k | 0 <= x < n && 0 <= k < |vs[x].edges|
      ensures Neighbor(vs[x], vs[x].edges[k]) < n
      ensures HasNeighbor(vs[Neighbor(vs[x], vs[x].edges[k])], x)
    {
      var e := vs[x].edges[k];
      IncidentMembers(es, x, e);
      var w := Neighbor(vs[x], e);
      IncidentMembers(es, w, e);
      var q :| 0 <= q < |vs[w].edges| && vs[w].edges[q] == e;
      assert Neighbor(vs[w], vs[w].edges[q]) == x;
    }
    forall x | 0 <= x < n
      ensures forall y :: 0 <= y < n && HasNeighbor(vs[x], y) ==> HasNeighbor(vs[y], x)
    {
      forall y | 0 <= y < n && HasNeighbor(vs[x], y)
        ensures HasNeighbor(vs[y], x)
      {
        var k :| 0 <= k < |vs[x].edges| && Neighbor(vs[x], vs[x].edges[k]) == y;
      }
    }
  }

  /** A walk extended by a neighbour of its last vertex. */
  lemma WalkExtend(vs: seq<Vertex>, p: seq<nat>, s: nat, t: nat, w: nat)
    requires WalkFrom(vs, p, s, t) && w < |vs| && HasNeighbor(vs[t], w)
    ensures WalkFrom(vs, p + [w], s, w)
  {
    var q := p + [w];
    forall i | 0 <= i < |q| - 1
      ensures HasNeighbor(vs[q[i]], q[i + 1])
    {
      if i < |p| - 1 {
        assert q[i] == p[i] && q[i + 1] == p[i + 1];
      }
    }
  }

  /** Marking a neighbour `v` of a marked vertex `u`, with the walk to
      `u` extended by `v`, keeps every marked vertex witnessed. */
  lemma WitnessedMark(vs: seq<Vertex>, mark: seq<bool>, walks: map<nat, seq<nat>>, u: nat, v: nat)
    requires Witnessed(vs, mark, walks) && u < |mark| && mark[u] && v < |mark| && v < |vs|
    requires HasNeighbor(vs[u], v)
    ensures Witnessed(vs, mark[v := true], walks[v := walks[u] + [v]])
  {
    WalkExtend(vs, walks[u], 0, u, v);
  }

  /** A walk starting at a marked vertex whose marked vertices are all
      closed ends at a marked vertex. */
  lemma {:induction false} ClosedReach(vs: seq<Vertex>, mark: seq<bool>, p: seq<nat>)
    requires |mark| == |vs| && IsWalk(vs, p) && mark[p[0]]
    requires forall x :: 0 <= x < |vs| && mark[x] ==> Closed(vs, mark, x)
    ensures mark[p[|p| - 1]]
  {
    if |p| > 1 {
      var front := p[..|p| - 1];
      assert IsWalk(vs, front) by {
        assert forall i :: 0 <= i < |front| ==> front[i] == p[i];
      }
      ClosedReach(vs, mark, front);
      var x := p[|p| - 2];
      assert HasNeighbor(vs[x], p[|p| - 1]);
      assert Closed(vs, mark, x);
    }
  }

  // ---------------------------------------------------------------------
  // Counting marks

  /** The number of `true` entries. */
  function CountTrue(s: seq<bool>): (c: nat)
    ensures c <= |s|
  {
    if s == [] then 0 else CountTrue(s[..|s| - 1]) + (if s[|s| - 1] then 1 else 0)
  }

  /** Marking an unmarked entry adds one to the count. */
  lemma {:induction false} CountTrueMark(s: seq<bool>, i: nat)
    requires i < |s| && !s[i]
    ensures CountTrue(s[i := true]) == CountTrue(s) + 1
  {
    var last := |s| - 1;
    if i == last {
      assert s[i := true][..last] == s[..last];
    } else {
      assert s[i := true][..last] == s[..last][i := true];
      CountTrueMark(s[..last], i);
    }
  }

  /** All entries are marked exactly when the count is the length. */
  lemma {:induction false} CountTrueFull(s: seq<bool>)
    ensures CountTrue(s) == |s| <==> forall i :: 0 <= i < |s| ==> s[i]
  {
    if s != [] {
      var last := |s| - 1;
      CountTrueFull(s[..last]);
      assert forall i :: 0 <= i < last ==> s[..last][i] == s[i];
    }
  }

  // ---------------------------------------------------------------------
  // The search of `isConnected` and `GraphUtils.isTree`

  /** The inner loop: every neighbour of `u` not yet visited is counted,
      marked and pushed; `added` lists the vertices it marks. */
  method VisitNeighbors(g: Graph, u: nat, visited: array<bool>, stack: seq<nat>, numVisited: nat,
                        ghost walks: map<nat, seq<nat>>)
    returns (stack': seq<nat>, numVisited': nat, ghost walks': map<nat, seq<nat>>, ghost added: seq<nat>)
    requires NeighborsBelow(g.vertices)
    requires u < |g.vertices| && visited.Length == |g.vertices| && visited[u]
    requires numVisited == CountTrue(visited[..]) && Witnessed(g.vertices, visited[..], walks)
    modifies visited
    ensures numVisited' == CountTrue(visited[..]) && Witnessed(g.vertices, visited[..], walks')
    ensures stack' == stack + added && numVisited' == numVisited + |added|
    ensures forall x :: x in added ==> x < visited.Length
    ensures forall t :: 0 <= t < visited.Length ==> (visited[t] <==> old(visited[t]) || t in added)
    ensures Closed(g.vertices, visited[..], u)
  {
    var vs := g.vertices;
    var neighbors := GetNeighbors(vs[u]);
    var ns := neighbors[..];
    assert |ns| == |vs[u].edges| && forall j :: 0 <= j < |ns| ==> ns[j] == Neighbor(vs[u], vs[u].edges[j]);
    stack', numVisited', walks', added := stack, numVisited, walks, [];
    var i := 0;
    while i < |ns|
      invariant 0 <= i <= |ns|
      invariant numVisited' == CountTrue(visited[..]) && Witnessed(vs, visited[..], walks')
      invariant stack' == stack + added && numVisited' == numVisited + |added|
      invariant forall x :: x in added ==> x < visited.Length
      invariant forall t :: 0 <= t < visited.Length ==> (visited[t] <==> old(visited[t]) || t in added)
      invariant forall j :: 0 <= j < i ==> visited[ns[j]]
    {
      var v := ns[i];
      if !visited[v] {
        CountTrueMark(visited[..], v);
        numVisited' := numVisited' + 1;
        assert HasNeighbor(vs[u], v);
        WitnessedMark(vs, visited[..], walks', u, v);
        walks' := walks'[v := walks'[u] + [v]];
        visited[v] := true;
        stack' := stack' + [v];
        added := added + [v];
      }
      i := i + 1;
    }
  }

  /** The search from vertex 0 shared by `isConnected` and
      `GraphUtils.isTree`: afterwards exactly the vertices reachable from
      vertex 0 are visited, and `numVisited` counts them. */
  method Search(g: Graph) returns (numVisited: nat, visited: array<bool>)
    requires NeighborsBelow(g.vertices) && |g.vertices| > 0
    ensures fresh(visited) && visited.Length == |g.vertices|
    ensures forall t :: 0 <= t < |g.vertices| ==> (visited[t] <==> Reachable(g.vertices, t))
    ensures numVisited == CountTrue(visited[..])
  {
    var vs := g.vertices;
    visited := new bool[|vs|](_ => false);
    var stack: seq<nat> := [0];
    visited[0] := true;
    assert visited[..] == seq(|vs|, _ => false)[0 := true];
    CountTrueMark(seq(|vs|, _ => false), 0);
    assert CountTrue(seq(|vs|, _ => false)) == 0 by {
      CountTrueFull(seq(|vs|, _ => false));
      NoneMarked(|vs|);
    }
    numVisited := 1;
    ghost var walks: map<nat, seq<nat>> := map[0 := [0]];
    while stack != []
      invariant visited.Length == |vs| && visited[0] && g.vertices == vs
      invariant numVisited == CountTrue(visited[..]) && Witnessed(vs, visited[..], walks)
      invariant forall x :: x in stack ==> x < |vs| && visited[x]
      invariant forall x :: 0 <= x < |vs| && visited[x] && x !in stack ==> Closed(vs, visited[..], x)
      decreases |vs| - numVisited, |stack|
    {
      var u := stack[|stack| - 1];
      assert u in stack;
      ghost var before := visited[..];
      ghost var full := stack;
      stack := stack[..|stack| - 1];
      assert full == stack + [u];
      ghost var popped := stack;
      ghost var added;
      stack, numVisited, walks, added := VisitNeighbors(g, u, visited, stack, numVisited, walks);
      ClosedAfterVisit(vs, before, visited[..], popped, added, u);
      assert forall x :: x in popped ==> x in full;
      assert forall x :: x in popped ==> x < |vs| && before[x];
    }
    SearchComplete(vs, visited[..], walks);
  }

  /** After the neighbours of `u` are visited, every marked vertex off the
      stack is closed. */
  lemma ClosedAfterVisit(vs: seq<Vertex>, before: seq<bool>, after: seq<bool>, popped: seq<nat>,
                          added: seq<nat>, u: nat)
    requires |before| == |vs| && |after| == |vs| && u < |vs|
    requires forall x :: 0 <= x < |vs| ==> (after[x] <==> before[x] || x in added)
    requires forall x :: 0 <= x < |vs| && before[x] && x !in popped + [u] ==> Closed(vs, before, x)
    requires Closed(vs, after, u)
    ensures forall x :: 0 <= x < |vs| && after[x] && x !in popped + added ==> Closed(vs, after, x)
  {
    forall x | 0 <= x < |vs| && after[x] && x !in popped + added
      ensures Closed(vs, after, x)
    {
      if x != u {
        assert before[x] && x !in popped + [u];
        ClosedGrows(vs, before, after, x);
      }
    }
  }

  /** When no marked vertex has an unmarked neighbour and every marked
      vertex has a walk, the marks are exactly the reachable vertices. */
  lemma SearchComplete(vs: seq<Vertex>, mark: seq<bool>, walks: map<nat, seq<nat>>)
    requires |mark| == |vs| && |vs| > 0 && mark[0] && Witnessed(vs, mark, walks)
    requires forall x :: 0 <= x < |vs| && mark[x] ==> Closed(vs, mark, x)
    ensures forall t :: 0 <= t < |vs| ==> (mark[t] <==> Reachable(vs, t))
  {
    forall t | 0 <= t < |vs|
      ensures mark[t] <==> Reachable(vs, t)
    {
      if mark[t] {
        assert WalkTo(vs, walks[t], t);
      }
      if Reachable(vs, t) {
        var p :| WalkTo(vs, p, t);
        ClosedReach(vs, mark, p);
      }
    }
  }

  /** A fresh visited array has no marks. */
  lemma {:induction false} NoneMarked(n: nat)
    ensures CountTrue(seq(n, _ => false)) == 0
  {
    if n > 0 {
      assert seq(n, _ => false)[..n - 1] == seq(n - 1, _ => false);
      NoneMarked(n - 1);
    }
  }

  /** A closed vertex stays closed when more vertices are marked. */
  lemma ClosedGrows(vs: seq<Vertex>, before: seq<bool>, after: seq<bool>, x: nat)
    requires x < |vs| && |before| == |vs| && |after| == |vs|
    requires forall t :: 0 <= t < |vs| && before[t] ==> after[t]
    requires Closed(vs, before, x)
    ensures Closed(vs, after, x)
  {
  }

  // ---------------------------------------------------------------------
  // isConnected, isTree

  /** `GraphChecks.isConnected`: a null graph throws
      IllegalArgumentException, an empty one fails on `getVertexById(0)`;
      otherwise the result says whether every vertex is reachable from
      vertex 0. */
  method IsConnected(g: Graph?) returns (r: Result<bool>)
    requires g != null ==> g.Valid()
    ensures g == null ==> r == Throw(IllegalArgument)
    ensures g != null && g.n == 0 ==> r == Throw(IndexOutOfBounds)
    ensures g != null && g.n > 0 ==> r.Ok? && (r.value <==> Connected(g.vertices))
  {
    if g == null {
      return Throw(IllegalArgument);
    }
    if g.n == 0 {
      return Throw(IndexOutOfBounds);
    }
    IncidencesSymmetric(g.n, g.edges);
    var numVisited, visited := Search(g);
    CountTrueFull(visited[..]);
    return Ok(numVisited == g.n);
  }

  /** `GraphChecks.isTree`: false unless there are `n - 1` edges, and then
      `isConnected`; a null graph fails on `getM`. */
  method IsTree(g: Graph?) returns (r: Result<bool>)
    requires g != null ==> g.Valid()
    ensures g == null ==> r == Throw(NullPointer)
    ensures g != null ==> r == Ok(g.GetM() == g.n - 1 && Connected(g.vertices))
  {
    if g == null {
      return Throw(NullPointer);
    }
    if g.GetM() != g.n - 1 {
      return Ok(false);
    }
    r := IsConnected(g);
  }

  /** `GraphUtils.isTree`: the same search written out inline; it agrees
      with `GraphChecks.isTree` on every graph. */
  method UtilsIsTree(g: Graph?) returns (r: Result<bool>)
    requires g != null ==> g.Valid()
    ensures g == null ==> r == Throw(NullPointer)
    ensures g != null ==> r == Ok(g.GetM() == g.n - 1 && Connected(g.vertices))
  {
    if g == null {
      return Throw(NullPointer);
    }
    if g.GetM() == g.n - 1 {
      IncidencesSymmetric(g.n, g.edges);
      var numVisited, visited := Search(g);
      CountTrueFull(visited[..]);
      return Ok(numVisited == g.n);
    }
    return Ok(false);
  }
}
