/** The bipartiteness test of `GraphChecks` and `GraphUtils` (the two
    copies are the same code): a depth-first search from vertex 0 that
    gives every vertex it meets the colour opposite to the vertex it came
    from, and answers false as soon as an edge joins two vertices of the
    same colour. */
module Bipartiteness {
  import opened Exceptions
  import opened FlatModel
  import opened FlatGraphs
  import opened GraphChecks

  // ---------------------------------------------------------------------
  // Colourings

  /** Vertex `x` has colour 0 or 1 and all its neighbours have a
      different colour. */
  ghost predicate ProperAt(vs: seq<Vertex>, c: seq<int>, x: nat)
    requires x < |vs| && |c| == |vs|
  {
    (c[x] == 0 || c[x] == 1) &&
    forall k :: 0 <= k < |vs[x].edges| ==>
      Neighbor(vs[x], vs[x].edges[k]) < |c| && c[Neighbor(vs[x], vs[x].edges[k])] != c[x]
  }

  /** `c` properly 2-colours the vertices reachable from vertex 0. */
  ghost predicate ProperOnComponent(vs: seq<Vertex>, c: seq<int>)
  {
    |c| == |vs| && forall x :: 0 <= x < |vs| && Reachable(vs, x) ==> ProperAt(vs, c, x)
  }

  /** `c` properly 2-colours every vertex. */
  ghost predicate ProperColouring(vs: seq<Vertex>, c: seq<int>)
  {
    |c| == |vs| && forall x :: 0 <= x < |vs| ==> ProperAt(vs, c, x)
  }

  /** The component of vertex 0 is bipartite. */
  ghost predicate ComponentBipartite(vs: seq<Vertex>)
  {
    exists c :: ProperOnComponent(vs, c)
  }

  /** The whole graph is bipartite. */
  ghost predicate Bipartite(vs: seq<Vertex>)
  {
    exists c :: ProperColouring(vs, c)
  }

  // ---------------------------------------------------------------------
  // Odd closed walks refute 2-colourings

  /** Along a walk through properly coloured vertices the colours
      alternate. */
  lemma {:induction false} ColoursAlternate(vs: seq<Vertex>, c: seq<int>, p: seq<nat>, i: nat)
    requires |c| == |vs| && IsWalk(vs, p) && i < |p|
    requires forall j :: 0 <= j < |p| ==> ProperAt(vs, c, p[j])
    ensures c[p[i]] == (c[p[0]] + i) % 2
  {
    if i > 0 {
      ColoursAlternate(vs, c, p, i - 1);
      var x := p[i - 1];
      assert HasNeighbor(vs[x], p[i]);
      var k :| 0 <= k < |vs[x].edges| && Neighbor(vs[x], vs[x].edges[k]) == p[i];
      assert ProperAt(vs, c, x) && ProperAt(vs, c, p[i]);
      assert c[p[i]] != c[x];
    }
  }

  /** Every vertex on a walk from vertex 0 is reachable. */
  lemma WalkReaches(vs: seq<Vertex>, p: seq<nat>)
    requires IsWalk(vs, p) && p[0] == 0
    ensures forall j :: 0 <= j < |p| ==> Reachable(vs, p[j])
  {
    forall j | 0 <= j < |p|
      ensures Reachable(vs, p[j])
    {
      var q := p[..j + 1];
      assert forall i :: 0 <= i < |q| ==> q[i] == p[i];
      assert WalkTo(vs, q, p[j]);
    }
  }

  /** Under a proper colouring of all vertices every closed walk has an
      even number of steps. */
  lemma ClosedWalksEven(vs: seq<Vertex>, c: seq<int>, p: seq<nat>)
    requires ProperColouring(vs, c) && IsWalk(vs, p) && p[0] == p[|p| - 1]
    ensures (|p| - 1) % 2 == 0
  {
    ColoursAlternate(vs, c, p, |p| - 1);
    assert ProperAt(vs, c, p[0]);
  }

  /** Under a proper colouring of the component of vertex 0 every closed
      walk from vertex 0 has an even number of steps. */
  lemma ComponentClosedWalksEven(vs: seq<Vertex>, c: seq<int>, p: seq<nat>)
    requires ProperOnComponent(vs, c) && IsWalk(vs, p) && p[0] == 0 && p[|p| - 1] == 0
    ensures (|p| - 1) % 2 == 0
  {
    WalkReaches(vs, p);
    ColoursAlternate(vs, c, p, |p| - 1);
    assert ProperAt(vs, c, p[0]);
  }

  /** A closed walk with an odd number of steps rules out every proper
      2-colouring. */
  lemma OddWalkNotBipartite(vs: seq<Vertex>, p: seq<nat>)
    requires IsWalk(vs, p) && p[0] == p[|p| - 1]
    requires (|p| - 1) % 2 == 1
    ensures !Bipartite(vs)
  {
    forall c | ProperColouring(vs, c)
      ensures (|p| - 1) % 2 == 0
    {
      ClosedWalksEven(vs, c, p);
    }
  }

  /** An odd closed walk through vertex 0 rules out every proper
      2-colouring of its component. */
  lemma OddWalkNotComponentBipartite(vs: seq<Vertex>, p: seq<nat>)
    requires IsWalk(vs, p) && p[0] == 0 && p[|p| - 1] == 0
    requires (|p| - 1) % 2 == 1
    ensures !ComponentBipartite(vs)
  {
    forall c | ProperOnComponent(vs, c)
      ensures (|p| - 1) % 2 == 0
    {
      ComponentClosedWalksEven(vs, c, p);
    }
  }

  // ---------------------------------------------------------------------
  // Walks backwards

  /** The entries of `p` in reverse order. */
  function Reverse(p: seq<nat>): (r: seq<nat>)
    ensures |r| == |p| && forall i :: 0 <= i < |p| ==> r[i] == p[|p| - 1 - i]
  {
    if p == [] then [] else Reverse(p[1..]) + [p[0]]
  }

  /** In a graph whose neighbour relation is symmetric, a walk read
      backwards is a walk. */
  lemma ReverseWalk(vs: seq<Vertex>, p: seq<nat>)
    requires Symmetric(vs) && IsWalk(vs, p)
    ensures IsWalk(vs, Reverse(p))
  {
    var r := Reverse(p);
    forall i | 0 <= i < |r| - 1
      ensures HasNeighbor(vs[r[i]], r[i + 1])
    {
      var j := |p| - 2 - i;
      assert r[i] == p[j + 1] && r[i + 1] == p[j];
      assert HasNeighbor(vs[p[j]], p[j + 1]);
      var k :| 0 <= k < |vs[p[j]].edges| && Neighbor(vs[p[j]], vs[p[j]].edges[k]) == p[j + 1];
    }
  }

  /** Two walks joined by a step from the end of the first to the start
      of the second form a walk. */
  lemma JoinWalks(vs: seq<Vertex>, p: seq<nat>, q: seq<nat>)
    requires IsWalk(vs, p) && IsWalk(vs, q) && HasNeighbor(vs[p[|p| - 1]], q[0])
    ensures IsWalk(vs, p + q)
  {
    var r := p + q;
    forall i | 0 <= i < |r| - 1
      ensures HasNeighbor(vs[r[i]], r[i + 1])
    {
      if i < |p| - 1 {
        assert r[i] == p[i] && r[i + 1] == p[i + 1];
      } else if i == |p| - 1 {
        assert r[i] == p[|p| - 1] && r[i + 1] == q[0];
      } else {
        assert r[i] == q[i - |p|] && r[i + 1] == q[i - |p| + 1];
      }
    }
  }

  /** Two walks from `s` of the same parity whose ends are neighbours
      close up into an odd closed walk. */
  lemma OddWalkOfConflict(vs: seq<Vertex>, pu: seq<nat>, pw: seq<nat>, s: nat, u: nat, w: nat)
    requires Symmetric(vs)
    requires WalkFrom(vs, pu, s, u) && WalkFrom(vs, pw, s, w) && HasNeighbor(vs[u], w)
    requires (|pu| - 1) % 2 == (|pw| - 1) % 2
    ensures IsWalk(vs, pu + Reverse(pw))
    ensures (pu + Reverse(pw))[0] == s == (pu + Reverse(pw))[|pu + Reverse(pw)| - 1]
    ensures (|pu + Reverse(pw)| - 1) % 2 == 1
  {
    var q := pu + Reverse(pw);
    assert IsWalk(vs, q) by {
      ReverseWalk(vs, pw);
      JoinWalks(vs, pu, Reverse(pw));
    }
    assert q[0] == s && q[|q| - 1] == s;
    assert (|q| - 1) % 2 == 1 by {
      SameParityOddSum(|pu| - 1, |pw| - 1);
      assert |q| - 1 == (|pu| - 1) + (|pw| - 1) + 1;
    }
  }

  /** Two numbers of the same parity and one more make an odd number. */
  lemma SameParityOddSum(a: nat, b: nat)
    requires a % 2 == b % 2
    ensures (a + b + 1) % 2 == 1
  {
    var x, y := a / 2, b / 2;
    assert a == 2 * x + a % 2 && b == 2 * y + b % 2;
    assert a + b + 1 == 2 * (x + y + a % 2) + 1;
  }

  // ---------------------------------------------------------------------
  // The colouring search

  /** Colours are -1 (not yet coloured), 0 or 1. */
  ghost predicate ColourRange(c: seq<int>)
  {
    forall x :: 0 <= x < |c| ==> -1 <= c[x] <= 1
  }

  /** Every neighbour of `x` has the colour opposite to that of `x`. */
  ghost predicate Opposed(vs: seq<Vertex>, c: seq<int>, x: nat)
    requires x < |vs| && |c| == |vs|
  {
    forall k :: 0 <= k < |vs[x].edges| ==>
      Neighbor(vs[x], vs[x].edges[k]) < |c| && c[Neighbor(vs[x], vs[x].edges[k])] == 1 - c[x]
  }

  /** Every vertex coloured by the current search (uncoloured in `start`)
      has a recorded walk from the search's root `s` whose number of steps
      has the parity of its colour. */
  ghost predicate ColourWitnessed(vs: seq<Vertex>, start: seq<int>, c: seq<int>, s: nat,
                                  walks: map<nat, seq<nat>>)
    requires |start| == |c|
  {
    forall t :: 0 <= t < |c| && c[t] != -1 && start[t] == -1 ==>
      t in walks && WalkFrom(vs, walks[t], s, t) && c[t] == (|walks[t]| - 1) % 2
  }

  /** `c` is `c0` with exactly the vertices of `added`, uncoloured in
      `c0` and in `start`, given colours. */
  ghost predicate Extends(c0: seq<int>, c: seq<int>, start: seq<int>, added: seq<nat>)
  {
    |c| == |c0| == |start| &&
    (forall x :: x in added ==> x < |c| && c0[x] == -1 && start[x] == -1 && c[x] != -1) &&
    (forall t :: 0 <= t < |c| && t !in added ==> c[t] == c0[t]) &&
    CountTrue(Coloured(c)) == CountTrue(Coloured(c0)) + |added|
  }

  /** Nothing added: the colouring is unchanged. */
  lemma ExtendsNothing(c0: seq<int>, start: seq<int>)
    requires |c0| == |start|
    ensures Extends(c0, c0, start, [])
  {
  }

  /** Colouring one more vertex, uncoloured so far, extends the
      colouring by it. */
  lemma ExtendsStep(c0: seq<int>, c: seq<int>, start: seq<int>, added: seq<nat>, v: nat, colour: int)
    requires Extends(c0, c, start, added) && v < |c| && c[v] == -1 && start[v] == -1 && colour != -1
    ensures Extends(c0, c[v := colour], start, added + [v])
  {
    assert Coloured(c[v := colour]) == Coloured(c)[v := true];
    CountTrueMark(Coloured(c), v);
    assert v !in added;
  }

  /** An extension keeps every colour already given. */
  lemma ExtendsKeeps(c0: seq<int>, c: seq<int>, start: seq<int>, added: seq<nat>)
    requires Extends(c0, c, start, added)
    ensures forall t :: 0 <= t < |c| && c0[t] != -1 ==> c[t] == c0[t]
    ensures forall t :: 0 <= t < |c| && c[t] != -1 && c0[t] == -1 ==> t in added && start[t] == -1
  {
  }

  /** A vertex all of whose neighbours have the opposite colour keeps that
      property when more vertices get colours. */
  lemma OpposedGrows(vs: seq<Vertex>, before: seq<int>, after: seq<int>, x: nat)
    requires x < |vs| && |before| == |vs| && |after| == |vs| && ColourRange(before)
    requires forall t :: 0 <= t < |vs| && before[t] != -1 ==> after[t] == before[t]
    requires before[x] != -1 && Opposed(vs, before, x)
    ensures Opposed(vs, after, x)
  {
    forall k | 0 <= k < |vs[x].edges|
      ensures after[Neighbor(vs[x], vs[x].edges[k])] == 1 - after[x]
    {
      var w := Neighbor(vs[x], vs[x].edges[k]);
      assert before[w] == 1 - before[x] && before[w] != -1;
    }
  }

  /** The inner loop: each neighbour of `u` with the colour of `u` is a
      conflict; each uncoloured one gets the other colour and is pushed.
      `added` lists the vertices it colours. */
  method ColourNeighbors(vs: seq<Vertex>, u: nat, part: array<int>, stack: seq<nat>,
                         ghost start: seq<int>, ghost s: nat, ghost walks: map<nat, seq<nat>>)
    returns (conflict: bool, stack': seq<nat>, ghost walks': map<nat, seq<nat>>, ghost w: nat,
             added: seq<nat>)
    requires NeighborsBelow(vs)
    requires u < |vs| && part.Length == |vs| && |start| == |vs|
    requires part[u] != -1 && start[u] == -1
    requires ColourRange(part[..]) && ColourWitnessed(vs, start, part[..], s, walks)
    requires forall t :: 0 <= t < |start| && start[t] != -1 ==> part[t] != -1
    modifies part
    ensures ColourRange(part[..]) && ColourWitnessed(vs, start, part[..], s, walks')
    ensures stack' == stack + added && Extends(old(part[..]), part[..], start, added)
    ensures conflict ==> w < |vs| && HasNeighbor(vs[u], w) && part[w] == part[u]
    ensures !conflict ==> Opposed(vs, part[..], u)
  {
    ghost var c0 := part[..];
    var neighbors := GetNeighbors(vs[u]);
    var ns := neighbors[..];
    assert |ns| == |vs[u].edges| && forall j :: 0 <= j < |ns| ==> ns[j] == Neighbor(vs[u], vs[u].edges[j]);
    walks', w, added := walks, 0, [];
    ExtendsNothing(c0, start);
    var i := 0;
    while i < |ns|
      invariant part.Length == |vs|
      invariant ColouredUpTo(vs, c0, part[..], start, s, walks', added, u, ns, i)
    {
      assert ns[i] < |vs| && HasNeighbor(vs[u], ns[i]);
      conflict, walks', added := ColourNeighbor(vs, u, ns, i, part, c0, start, s, walks', added);
      if conflict {
        w, stack' := ns[i], stack + added;
        return;
      }
      i := i + 1;
    }
    conflict, stack' := false, stack + added;
  }

  /** One step of the inner loop, on the neighbour `ns[i]` of `u`: a
      conflict if it has the colour of `u`, otherwise it ends up with the
      other colour, given to it now (and recorded in `added`) when it had
      none. */
  method ColourNeighbor(vs: seq<Vertex>, u: nat, ns: seq<nat>, i: nat, part: array<int>,
                        ghost c0: seq<int>, ghost start: seq<int>, ghost s: nat,
                        ghost walks: map<nat, seq<nat>>, added: seq<nat>)
    returns (conflict: bool, ghost walks': map<nat, seq<nat>>, added': seq<nat>)
    requires part.Length == |vs| && ColouredUpTo(vs, c0, part[..], start, s, walks, added, u, ns, i)
    requires i < |ns| && ns[i] < |vs| && HasNeighbor(vs[u], ns[i])
    modifies part
    ensures conflict ==> part[ns[i]] == part[u]
    ensures ColouredUpTo(vs, c0, part[..], start, s, walks', added', u, ns, if conflict then i else i + 1)
  {
    var v := ns[i];
    walks', added' := walks, added;
    if part[v] == part[u] {
      return true, walks', added';
    }
    if part[v] == -1 {
      ColourStep(vs, c0, part[..], start, s, walks, added, u, ns, i);
      var single: seq<nat> := [v];
      walks' := walks[v := walks[u] + single];
      part[v] := 1 - part[u];
      added' := added + single;
    } else {
      SkipStep(vs, c0, part[..], start, s, walks, added, u, ns, i);
    }
    conflict := false;
  }

  /** The state of the inner loop after the first `i` neighbours `ns` of
      `u`: `cur` extends the colouring `c0` by `added`, every coloured
      vertex of the search is witnessed, and the first `i` neighbours have
      the colour opposite to that of `u`. */
  ghost predicate ColouredUpTo(vs: seq<Vertex>, c0: seq<int>, cur: seq<int>, start: seq<int>, s: nat,
                               walks: map<nat, seq<nat>>, added: seq<nat>, u: nat, ns: seq<nat>, i: nat)
  {
    |cur| == |vs| && |c0| == |vs| && |start| == |vs| && u < |vs| && i <= |ns| && cur[u] == c0[u] && cur[u] != -1 && start[u] == -1 &&
    (forall t :: 0 <= t < |start| && start[t] != -1 ==> c0[t] != -1) &&
    ColourRange(cur) && Extends(c0, cur, start, added) && ColourWitnessed(vs, start, cur, s, walks) &&
    forall j :: 0 <= j < i ==> ns[j] < |cur| && cur[ns[j]] == 1 - cur[u]
  }

  /** Colouring the uncoloured neighbour `ns[i]` keeps the loop state. */
  lemma ColourStep(vs: seq<Vertex>, c0: seq<int>, cur: seq<int>, start: seq<int>, s: nat,
                   walks: map<nat, seq<nat>>, added: seq<nat>, u: nat, ns: seq<nat>, i: nat)
    requires ColouredUpTo(vs, c0, cur, start, s, walks, added, u, ns, i) && i < |ns|
    requires ns[i] < |vs| && HasNeighbor(vs[u], ns[i]) && cur[ns[i]] == -1
    ensures ColouredUpTo(vs, c0, cur[ns[i] := 1 - cur[u]], start, s, walks[ns[i] := walks[u] + [ns[i]]],
                         added + [ns[i]], u, ns, i + 1)
  {
    var v := ns[i];
    assert start[v] == -1 by {
      assert v !in added;
    }
    ColourWitnessedMark(vs, start, cur, s, walks, u, v);
    ExtendsStep(c0, cur, start, added, v, 1 - cur[u]);
    var next := cur[v := 1 - cur[u]];
    forall j | 0 <= j < i + 1
      ensures ns[j] < |next| && next[ns[j]] == 1 - next[u]
    {
      if j < i {
        assert cur[ns[j]] != -1;
      }
    }
  }

  /** A neighbour `ns[i]` that already has the other colour keeps the loop
      state. */
  lemma SkipStep(vs: seq<Vertex>, c0: seq<int>, cur: seq<int>, start: seq<int>, s: nat,
                 walks: map<nat, seq<nat>>, added: seq<nat>, u: nat, ns: seq<nat>, i: nat)
    requires ColouredUpTo(vs, c0, cur, start, s, walks, added, u, ns, i) && i < |ns|
    requires ns[i] < |vs| && cur[ns[i]] != -1 && cur[ns[i]] != cur[u]
    ensures ColouredUpTo(vs, c0, cur, start, s, walks, added, u, ns, i + 1)
  {
  }

  /** Colouring an uncoloured neighbour `v` of `u` with the colour
      opposite to that of `u`, with the walk to `u` extended by `v`, keeps
      every vertex of the search witnessed. */
  lemma ColourWitnessedMark(vs: seq<Vertex>, start: seq<int>, c: seq<int>, s: nat,
                            walks: map<nat, seq<nat>>, u: nat, v: nat)
    requires |start| == |c| && ColourWitnessed(vs, start, c, s, walks)
    requires u < |c| && c[u] != -1 && start[u] == -1 && (c[u] == 0 || c[u] == 1)
    requires v < |c| && v < |vs| && HasNeighbor(vs[u], v) && start[v] == -1
    ensures ColourWitnessed(vs, start, c[v := 1 - c[u]], s, walks[v := walks[u] + [v]])
  {
    WalkExtend(vs, walks[u], s, u, v);
  }

  /** After the neighbours of `u` are coloured without conflict, every
      vertex coloured by this search and off the stack is opposed to all
      its neighbours. */
  lemma OpposedAfterVisit(vs: seq<Vertex>, start: seq<int>, before: seq<int>, after: seq<int>,
                          popped: seq<nat>, added: seq<nat>, u: nat)
    requires |start| == |vs| && |before| == |vs| && |after| == |vs| && u < |vs|
    requires ColourRange(before) && Extends(before, after, start, added)
    requires forall x :: 0 <= x < |vs| && before[x] != -1 && start[x] == -1 && x !in popped + [u] ==>
      Opposed(vs, before, x)
    requires Opposed(vs, after, u)
    ensures forall x :: 0 <= x < |vs| && after[x] != -1 && start[x] == -1 && x !in popped + added ==>
      Opposed(vs, after, x)
  {
    ExtendsKeeps(before, after, start, added);
    forall x | 0 <= x < |vs| && after[x] != -1 && start[x] == -1 && x !in popped + added
      ensures Opposed(vs, after, x)
    {
      if x != u {
        assert before[x] != -1 && x !in popped + [u];
        OpposedGrows(vs, before, after, x);
      }
    }
  }

  /** The search from the root `s`, which has just been given colour 0 in
      `part` (the colouring `start`, in which `s` was uncoloured and every
      coloured vertex was opposed to its neighbours).  Either it finds an
      odd closed walk through `s`, or afterwards every coloured vertex is
      opposed to its neighbours, the old colours are kept and every newly
      coloured vertex is reachable from `s`. */
  method ColourFrom(g: Graph, part: array<int>, s: nat, ghost start: seq<int>)
    returns (conflict: bool, ghost oddWalk: seq<nat>)
    requires Symmetric(g.vertices) && NeighborsBelow(g.vertices)
    requires s < |g.vertices| && part.Length == |g.vertices| && |start| == |g.vertices|
    requires ColourRange(start) && start[s] == -1 && part[..] == start[s := 0]
    requires forall t :: 0 <= t < |start| && start[t] != -1 ==> Opposed(g.vertices, start, t)
    modifies part
    ensures ColourRange(part[..]) && part[s] == 0
    ensures forall t :: 0 <= t < |start| && start[t] != -1 ==> part[t] == start[t]
    ensures conflict ==> IsWalk(g.vertices, oddWalk)
    ensures conflict ==> oddWalk[0] == s == oddWalk[|oddWalk| - 1]
    ensures conflict ==> (|oddWalk| - 1) % 2 == 1
    ensures !conflict ==> forall t :: 0 <= t < part.Length && part[t] != -1 ==> Opposed(g.vertices, part[..], t)
    ensures !conflict ==> forall t :: 0 <= t < part.Length && part[t] != -1 && start[t] == -1 ==>
      exists p :: WalkFrom(g.vertices, p, s, t)
  {
    var vs := g.vertices;
    var stack: seq<nat> := [s];
    ghost var walks: map<nat, seq<nat>> := map[s := [s]];
    oddWalk := [s];
    forall t | 0 <= t < |start| && start[t] != -1
      ensures Opposed(vs, part[..], t)
    {
      OpposedGrows(vs, start, part[..], t);
    }
    assert SearchState(vs, start, part[..], s, walks, stack);
    conflict := false;
    while stack != []
      invariant part.Length == |vs| && g.vertices == vs
      invariant SearchState(vs, start, part[..], s, walks, stack)
      decreases |vs| - CountTrue(Coloured(part[..])), |stack|
    {
      ghost var count := CountTrue(Coloured(part[..]));
      conflict, stack, walks, oddWalk := ColourNext(vs, part, stack, start, s, walks);
      if conflict {
        return;
      }
    }
    SearchDone(vs, start, part[..], s, walks);
  }

  /** When the stack is empty, every coloured vertex is opposed to all its
      neighbours and every newly coloured one is reachable from `s`. */
  lemma SearchDone(vs: seq<Vertex>, start: seq<int>, c: seq<int>, s: nat, walks: map<nat, seq<nat>>)
    requires SearchState(vs, start, c, s, walks, [])
    ensures forall t :: 0 <= t < |c| && c[t] != -1 ==> Opposed(vs, c, t)
    ensures forall t :: 0 <= t < |c| && c[t] != -1 && start[t] == -1 ==> exists p :: WalkFrom(vs, p, s, t)
  {
    forall t | 0 <= t < |c| && c[t] != -1 && start[t] == -1
      ensures exists p :: WalkFrom(vs, p, s, t)
    {
      assert WalkFrom(vs, walks[t], s, t);
    }
  }

  /** The loop state of the search from `s`: the colouring `c` keeps the
      colours of `start`, every newly coloured vertex is witnessed by a walk
      from `s`, the stack holds newly coloured vertices, and every coloured
      vertex off the stack is opposed to all its neighbours. */
  ghost predicate SearchState(vs: seq<Vertex>, start: seq<int>, c: seq<int>, s: nat,
                              walks: map<nat, seq<nat>>, stack: seq<nat>)
  {
    |c| == |vs| && |start| == |vs| && s < |vs| && c[s] == 0 &&
    ColourRange(c) && ColourWitnessed(vs, start, c, s, walks) &&
    (forall t :: 0 <= t < |start| && start[t] != -1 ==> c[t] == start[t]) &&
    (forall t :: 0 <= t < |start| && start[t] != -1 ==> Opposed(vs, c, t)) &&
    (forall x :: x in stack ==> x < |vs| && c[x] != -1 && start[x] == -1) &&
    (forall x :: 0 <= x < |vs| && c[x] != -1 && start[x] == -1 && x !in stack ==> Opposed(vs, c, x))
  }

  /** One round of the search: pop a vertex and colour its neighbours.
      Either an odd closed walk through `s` is found, or the loop state is
      kept with one vertex popped and the newly coloured ones pushed. */
  method ColourNext(vs: seq<Vertex>, part: array<int>, stack: seq<nat>, ghost start: seq<int>,
                    ghost s: nat, ghost walks: map<nat, seq<nat>>)
    returns (conflict: bool, stack': seq<nat>, ghost walks': map<nat, seq<nat>>, ghost oddWalk: seq<nat>)
    requires Symmetric(vs) && NeighborsBelow(vs) && part.Length == |vs|
    requires SearchState(vs, start, part[..], s, walks, stack) && stack != []
    modifies part
    ensures ColourRange(part[..]) && part[s] == 0
    ensures forall t :: 0 <= t < |start| && start[t] != -1 ==> part[t] == start[t]
    ensures conflict ==> IsWalk(vs, oddWalk)
    ensures conflict ==> oddWalk[0] == s == oddWalk[|oddWalk| - 1]
    ensures conflict ==> (|oddWalk| - 1) % 2 == 1
    ensures !conflict ==> SearchState(vs, start, part[..], s, walks', stack')
    ensures CountTrue(Coloured(old(part[..]))) <= CountTrue(Coloured(part[..])) <= |vs|
    ensures !conflict ==> |stack'| + 1 == |stack| + CountTrue(Coloured(part[..])) - CountTrue(Coloured(old(part[..])))
  {
    var u := stack[|stack| - 1];
    assert u in stack;
    ghost var before := part[..];
    var popped := stack[..|stack| - 1];
    assert stack == popped + [u];
    var added;
    ghost var w;
    conflict, stack', walks', w, added := ColourNeighbors(vs, u, part, popped, start, s, walks);
    ExtendsKeeps(before, part[..], start, added);
    forall t | 0 <= t < |start| && start[t] != -1
      ensures Opposed(vs, part[..], t)
    {
      OpposedGrows(vs, before, part[..], t);
    }
    if conflict {
      oddWalk := ConflictWalk(vs, start, part[..], s, walks', u, w);
      return;
    }
    oddWalk := [];
    OpposedAfterVisit(vs, start, before, part[..], popped, added, u);
    assert forall x :: x in popped ==> x in stack;
  }

  /** Two equally coloured neighbours `u` and `w` of the current search
      close an odd walk through its root `s`. */
  lemma ConflictWalk(vs: seq<Vertex>, start: seq<int>, c: seq<int>, s: nat,
                     walks: map<nat, seq<nat>>, u: nat, w: nat) returns (p: seq<nat>)
    requires Symmetric(vs) && |start| == |vs| && |c| == |vs| && ColourRange(c)
    requires ColourWitnessed(vs, start, c, s, walks)
    requires forall t :: 0 <= t < |start| && start[t] != -1 ==> Opposed(vs, c, t)
    requires u < |vs| && c[u] != -1 && start[u] == -1
    requires w < |vs| && HasNeighbor(vs[u], w) && c[w] == c[u]
    ensures IsWalk(vs, p) && p[0] == s == p[|p| - 1] && (|p| - 1) % 2 == 1
  {
    ConflictIsNew(vs, start, c, u, w);
    OddWalkOfConflict(vs, walks[u], walks[w], s, u, w);
    p := walks[u] + Reverse(walks[w]);
  }

  /** A conflicting neighbour was coloured by the current search: a vertex
      coloured before it is opposed to all its neighbours, so it cannot
      share a colour with one of them. */
  lemma ConflictIsNew(vs: seq<Vertex>, start: seq<int>, c: seq<int>, u: nat, w: nat)
    requires Symmetric(vs) && |start| == |vs| && |c| == |vs| && ColourRange(c)
    requires u < |vs| && w < |vs| && HasNeighbor(vs[u], w) && c[w] == c[u] && c[u] != -1
    requires forall t :: 0 <= t < |start| && start[t] != -1 ==> Opposed(vs, c, t)
    ensures start[w] == -1
  {
    var k :| 0 <= k < |vs[u].edges| && Neighbor(vs[u], vs[u].edges[k]) == w;
    assert HasNeighbor(vs[w], u);
    var j :| 0 <= j < |vs[w].edges| && Neighbor(vs[w], vs[w].edges[j]) == u;
    assert c[u] != 1 - c[w];
  }

  /** When every coloured vertex is opposed to its neighbours, the
      coloured vertices are closed under the neighbour relation and each
      of them is properly coloured. */
  lemma OpposedProper(vs: seq<Vertex>, c: seq<int>)
    requires |c| == |vs| && ColourRange(c)
    requires forall t :: 0 <= t < |vs| && c[t] != -1 ==> Opposed(vs, c, t)
    ensures forall t :: 0 <= t < |vs| && c[t] != -1 ==> ProperAt(vs, c, t)
    ensures forall t :: 0 <= t < |vs| && c[t] != -1 ==> Closed(vs, Coloured(c), t)
  {
    forall t | 0 <= t < |vs| && c[t] != -1
      ensures Closed(vs, Coloured(c), t)
    {
      assert Opposed(vs, c, t);
    }
  }

  /** Which vertices have a colour. */
  ghost function Coloured(c: seq<int>): (m: seq<bool>)
    ensures |m| == |c| && forall i :: 0 <= i < |c| ==> (m[i] <==> c[i] != -1)
  {
    seq(|c|, i requires 0 <= i < |c| => c[i] != -1)
  }

  // ---------------------------------------------------------------------
  // isBipartite as written, and the test over all components

  /** `GraphChecks.isBipartite` and `GraphUtils.isBipartite`: the empty
      graph is bipartite; otherwise the colouring search runs from vertex 0
      only, so the answer is whether the component of vertex 0 is
      bipartite.  A null graph fails on `getN`. */
  method IsBipartite(g: Graph?) returns (r: Result<bool>)
    requires g != null ==> g.Valid()
    ensures g == null ==> r == Throw(NullPointer)
    ensures g != null ==> r.Ok? && (r.value <==> ComponentBipartite(g.vertices))
  {
    if g == null {
      return Throw(NullPointer);
    }
    if g.n == 0 {
      assert ProperOnComponent(g.vertices, []);
      return Ok(true);
    }
    var vs := g.vertices;
    IncidencesSymmetric(g.n, g.edges);
    var part := new int[g.n](_ => -1);
    ghost var start := part[..];
    part[0] := 0;
    var conflict, oddWalk := ColourFrom(g, part, 0, start);
    if conflict {
      OddWalkNotComponentBipartite(vs, oddWalk);
      return Ok(false);
    }
    ComponentColoured(vs, part[..]);
    return Ok(true);
  }

  /** After a search from vertex 0 without conflict on an uncoloured
      graph, the colours properly colour the component of vertex 0. */
  lemma ComponentColoured(vs: seq<Vertex>, c: seq<int>)
    requires |c| == |vs| && |vs| > 0 && c[0] == 0 && ColourRange(c)
    requires forall t :: 0 <= t < |vs| && c[t] != -1 ==> Opposed(vs, c, t)
    ensures ProperOnComponent(vs, c)
  {
    OpposedProper(vs, c);
    forall x | 0 <= x < |vs| && Reachable(vs, x)
      ensures ProperAt(vs, c, x)
    {
      var p :| WalkTo(vs, p, x);
      ClosedReach(vs, Coloured(c), p);
    }
  }

  /** The test the documentation of `isBipartite` describes: the colouring
      search is restarted from every vertex still uncoloured, so every
      component is checked. */
  method IsBipartiteAll(g: Graph?) returns (r: Result<bool>)
    requires g != null ==> g.Valid()
    ensures g == null ==> r == Throw(NullPointer)
    ensures g != null ==> r.Ok? && (r.value <==> Bipartite(g.vertices))
  {
    if g == null {
      return Throw(NullPointer);
    }
    var vs := g.vertices;
    IncidencesSymmetric(g.n, g.edges);
    var part := new int[g.n](_ => -1);
    var s := 0;
    while s < g.n
      invariant s <= g.n && part.Length == |vs| && g.vertices == vs
      invariant ColourRange(part[..])
      invariant forall t :: 0 <= t < s ==> part[t] != -1
      invariant forall t :: 0 <= t < |vs| && part[t] != -1 ==> Opposed(vs, part[..], t)
    {
      if part[s] == -1 {
        ghost var start := part[..];
        part[s] := 0;
        var conflict, oddWalk := ColourFrom(g, part, s, start);
        if conflict {
          OddWalkNotBipartite(vs, oddWalk);
          return Ok(false);
        }
      }
      s := s + 1;
    }
    OpposedProper(vs, part[..]);
    assert ProperColouring(vs, part[..]);
    return Ok(true);
  }

  // ---------------------------------------------------------------------
  // A graph on which the two differ

  /** A triangle on vertices 1, 2 and 3 beside the isolated vertex 0. */
  function TriangleEdges(): (es: seq<Edge>)
    ensures EndsBelow(es, 4) && IdsBelow(es, 3) && Ordered(es)
  {
    [Edge(1, 2, 0), Edge(2, 3, 1), Edge(1, 3, 2)]
  }

  /** The search from vertex 0 sees only the isolated vertex and answers
      true, although the triangle makes the graph not bipartite. */
  lemma TriangleBesideIsolatedVertex()
    ensures ComponentBipartite(Incidences(4, TriangleEdges()))
    ensures !Bipartite(Incidences(4, TriangleEdges()))
  {
    var es := TriangleEdges();
    var vs := Incidences(4, es);
    IsolatedIncident(es);
    assert vs[0].edges == [];
    IsolatedComponentBipartite(vs);
    TriangleNeighbors(es, vs);
    TriangleNotBipartite(vs);
  }

  /** When vertex 0 has no edges, its component is bipartite. */
  lemma IsolatedComponentBipartite(vs: seq<Vertex>)
    requires |vs| > 0 && vs[0].edges == []
    ensures ComponentBipartite(vs)
  {
    var c := seq(|vs|, i => if i == 0 then 0 else -1);
    var mark := seq(|vs|, i => i == 0);
    assert Closed(vs, mark, 0);
    forall x | 0 <= x < |vs| && Reachable(vs, x)
      ensures ProperAt(vs, c, x)
    {
      var p :| WalkTo(vs, p, x);
      ClosedReach(vs, mark, p);
    }
    assert ProperOnComponent(vs, c);
  }

  /** Three vertices each listing the next as a neighbour close an odd
      walk, so the graph is not bipartite. */
  lemma TriangleNotBipartite(vs: seq<Vertex>)
    requires |vs| == 4 && HasNeighbor(vs[1], 2) && HasNeighbor(vs[2], 3) && HasNeighbor(vs[3], 1)
    ensures !Bipartite(vs)
  {
    var tri := [1, 2, 3, 1];
    assert IsWalk(vs, tri);
    OddWalkNotBipartite(vs, tri);
  }

  /** No edge of the triangle touches vertex 0. */
  lemma IsolatedIncident(es: seq<Edge>)
    requires es == TriangleEdges()
    ensures Incident(es, 0) == []
  {
    assert Incident(es[2..], 0) == [] by {
      assert Incident(es[3..], 0) == [];
    }
    assert Incident(es[1..], 0) == [];
  }

  /** Each triangle vertex lists the next one as a neighbour. */
  lemma TriangleNeighbors(es: seq<Edge>, vs: seq<Vertex>)
    requires es == TriangleEdges() && vs == Incidences(4, es)
    ensures HasNeighbor(vs[1], 2) && HasNeighbor(vs[2], 3) && HasNeighbor(vs[3], 1)
  {
    IncidentMembers(es, 1, es[0]);
    IncidentMembers(es, 2, es[1]);
    IncidentMembers(es, 3, es[2]);
    var i :| 0 <= i < |vs[1].edges| && vs[1].edges[i] == es[0];
    assert Neighbor(vs[1], vs[1].edges[i]) == 2;
    var j :| 0 <= j < |vs[2].edges| && vs[2].edges[j] == es[1];
    assert Neighbor(vs[2], vs[2].edges[j]) == 3;
    var k :| 0 <= k < |vs[3].edges| && vs[3].edges[k] == es[2];
    assert Neighbor(vs[3], vs[3].edges[k]) == 1;
  }
}
