/** `GraphGeneration.createCirculantGraph`: vertex `u` of `0..n-1` is
    joined to `u + s` (mod `n`) for every step `s`.  The steps are first
    folded onto the shorter way round the circle, sorted and made
    distinct; a step of exactly half the circle adds each of its `n / 2`
    edges once. */
module CirculantGraphs {
  import opened Exceptions
  import opened FlatGraphs
  import opened GraphGeneration

  // ---------------------------------------------------------------------
  // Steps

  /** A step longer than half the circle, `x > n / 2.0`, goes the other
      way round: `n - x`.  The comparison with the halved double is exact
      on integers, as `2 x > n`. */
  function Fold(x: int, n: int): (f: int)
    ensures 1 <= x <= n - 1 ==> 1 <= f && 2 * f <= n
  {
    if 2 * x > n then n - x else x
  }

  /** Some given step folds to `s`. */
  predicate Used(steps: seq<int>, n: int, s: int)
  {
    exists i | 0 <= i < |steps| :: Fold(steps[i], n) == s
  }

  /** The folded steps in `1..s`, ascending and each once. */
  function FoldedUpTo(steps: seq<int>, n: int, s: nat): (ss: seq<nat>)
    ensures forall i :: 0 <= i < |ss| ==> 1 <= ss[i] <= s
    ensures forall i, j :: 0 <= i < j < |ss| ==> ss[i] < ss[j]
    ensures forall x :: x in ss <==> 1 <= x <= s && Used(steps, n, x)
    ensures |steps| == 0 ==> ss == []
  {
    if s == 0 then [] else FoldedUpTo(steps, n, s - 1) + (if Used(steps, n, s) then [s] else [])
  }

  /** The steps after `map(fold).sorted().distinct()`: every folded step is
      at most `n / 2`, so listing the used values of `1..n/2` in order
      gives the same array. */
  function Folded(steps: seq<int>, n: nat): (ss: seq<nat>)
    ensures forall i :: 0 <= i < |ss| ==> 1 <= ss[i] && 2 * ss[i] <= n
  {
    assert 2 * (n / 2) <= n;
    FoldedUpTo(steps, n, n / 2)
  }

  /** Strictly ascending steps, none longer than half the circle. */
  predicate StepSet(n: nat, ss: seq<nat>)
  {
    (forall i :: 0 <= i < |ss| ==> 1 <= ss[i] && 2 * ss[i] <= n) &&
    forall i, j :: 0 <= i < j < |ss| ==> ss[i] < ss[j]
  }

  /** Folding valid steps gives a step set holding exactly the folds of
      the given steps. */
  lemma FoldedShape(steps: seq<int>, n: nat)
    requires forall i :: 0 <= i < |steps| ==> 1 <= steps[i] <= n - 1
    ensures StepSet(n, Folded(steps, n))
    ensures forall x :: x in Folded(steps, n) <==> Used(steps, n, x)
  {
    forall x | Used(steps, n, x)
      ensures 1 <= x <= n / 2
    {
      var i :| 0 <= i < |steps| && Fold(steps[i], n) == x;
    }
  }

  // ---------------------------------------------------------------------
  // Edges

  /** The distance from `a` to `b` the shorter way round a circle of `n`. */
  function Gap(a: nat, b: nat, n: nat): (d: nat)
    requires a < n && b < n
    ensures 2 * d <= n
    ensures d == 0 <==> a == b
  {
    var diff := if a <= b then b - a else a - b;
    if 2 * diff <= n then diff else n - diff
  }

  /** `(i + s) % n` for a vertex `i` and a step shorter than the circle:
      one turn is taken off at most once. */
  function Shift(i: nat, s: nat, n: nat): (v: nat)
    requires i < n && s < n
    ensures v == if i + s < n then i + s else i + s - n
  {
    (i + s) % n
  }

  /** The edges the inner loop adds for step `s` and vertices `0..u-1`:
      `(u, (u + s) % n)`, or, for a step of exactly half the circle,
      `(u, u + s)` for the vertices of the first half only. */
  function Row(n: nat, s: nat, u: nat): seq<(nat, nat)>
    requires s < n && u <= n
  {
    if u == 0 then []
    else Row(n, s, u - 1) + (if 2 * s != n then [(u - 1, Shift(u - 1, s, n))] else if 2 * (u - 1) < n then [(u - 1, u - 1 + s)] else [])
  }

  /** The pairs of the circulant graph on `n` vertices with the step set
      `ss`, one row per step in order. */
  function CirculantPairs(n: nat, ss: seq<nat>): seq<(nat, nat)>
    requires forall i :: 0 <= i < |ss| ==> ss[i] < n
  {
    if |ss| == 0 then [] else CirculantPairs(n, ss[..|ss| - 1]) + Row(n, ss[|ss| - 1], n)
  }

  /** A row has `n` edges `(i, (i + s) % n)`, or, for a half step, `s`
      edges `(i, i + s)`. */
  lemma {:induction false} RowForm(n: nat, s: nat, u: nat)
    requires n > 0 && 1 <= s && 2 * s <= n && u <= n
    ensures 2 * s != n ==> |Row(n, s, u)| == u && forall i :: 0 <= i < u ==> Row(n, s, u)[i] == (i, Shift(i, s, n))
    ensures 2 * s == n ==> |Row(n, s, u)| == (if u < s then u else s) && forall i :: 0 <= i < |Row(n, s, u)| ==> Row(n, s, u)[i] == (i, i + s)
  {
    if u > 0 {
      RowForm(n, s, u - 1);
    }
  }

  /** Every edge of a row joins two distinct vertices at distance `s`. */
  lemma RowGaps(n: nat, s: nat)
    requires n > 0 && 1 <= s && 2 * s <= n
    ensures forall q :: 0 <= q < |Row(n, s, n)| ==>
      Row(n, s, n)[q].0 < n && Row(n, s, n)[q].1 < n && Row(n, s, n)[q].0 != Row(n, s, n)[q].1 &&
      Gap(Row(n, s, n)[q].0, Row(n, s, n)[q].1, n) == s
  {
    RowForm(n, s, n);
    var row := Row(n, s, n);
    forall q | 0 <= q < |row|
      ensures row[q].0 < n && row[q].1 < n && row[q].0 != row[q].1 && Gap(row[q].0, row[q].1, n) == s
    {
      if 2 * s != n {
        assert row[q] == (q, Shift(q, s, n));
      } else {
        assert row[q] == (q, q + s);
      }
    }
  }

  /** A row joins `u < v` exactly when their distance is `s`. */
  lemma RowJoined(n: nat, s: nat, u: nat, v: nat)
    requires n > 0 && 1 <= s && 2 * s <= n && u < v < n
    ensures Joined(Row(n, s, n), u, v) <==> Gap(u, v, n) == s
  {
    var row := Row(n, s, n);
    RowForm(n, s, n);
    RowGaps(n, s);
    if Gap(u, v, n) == s {
      if v - u == s {
        assert SameEdge(row[u], (u, v));
      } else {
        assert row[v] == (v, u) && SameEdge(row[v], (u, v));
      }
    }
  }

  /** A row repeats no edge. */
  lemma RowSimple(n: nat, s: nat)
    requires n > 0 && 1 <= s && 2 * s <= n
    ensures SimplePairs(Row(n, s, n))
  {
    var row := Row(n, s, n);
    RowForm(n, s, n);
    RowGaps(n, s);
    forall q, l | 0 <= q < l < |row|
      ensures !SameEdge(row[q], row[l])
    {
      if 2 * s != n {
        assert row[q] == (q, Shift(q, s, n)) && row[l] == (l, Shift(l, s, n));
      } else {
        assert row[q] == (q, q + s) && row[l] == (l, l + s);
      }
    }
  }

  lemma JoinedConcat(ps: seq<(nat, nat)>, qs: seq<(nat, nat)>, u: nat, v: nat)
    ensures Joined(ps + qs, u, v) <==> Joined(ps, u, v) || Joined(qs, u, v)
  {
    var all := ps + qs;
    if Joined(all, u, v) {
      var q :| 0 <= q < |all| && SameEdge(all[q], (u, v));
      if q < |ps| {
        assert all[q] == ps[q];
      } else {
        assert all[q] == qs[q - |ps|];
      }
    }
    if Joined(ps, u, v) {
      var q :| 0 <= q < |ps| && SameEdge(ps[q], (u, v));
      assert all[q] == ps[q];
    }
    if Joined(qs, u, v) {
      var q :| 0 <= q < |qs| && SameEdge(qs[q], (u, v));
      assert all[|ps| + q] == qs[q];
    }
  }

  /** Every edge joins two distinct vertices whose distance is a step. */
  lemma {:induction false} CirculantGaps(n: nat, ss: seq<nat>)
    requires n > 0 && StepSet(n, ss)
    ensures forall q :: 0 <= q < |CirculantPairs(n, ss)| ==>
      CirculantPairs(n, ss)[q].0 < n && CirculantPairs(n, ss)[q].1 < n &&
      CirculantPairs(n, ss)[q].0 != CirculantPairs(n, ss)[q].1 &&
      Gap(CirculantPairs(n, ss)[q].0, CirculantPairs(n, ss)[q].1, n) in ss
  {
    if |ss| > 0 {
      var init, s := ss[..|ss| - 1], ss[|ss| - 1];
      CirculantGaps(n, init);
      RowGaps(n, s);
      var prev, row, all := CirculantPairs(n, init), Row(n, s, n), CirculantPairs(n, ss);
      forall q | 0 <= q < |all|
        ensures all[q].0 < n && all[q].1 < n && all[q].0 != all[q].1 && Gap(all[q].0, all[q].1, n) in ss
      {
        if q < |prev| {
          assert all[q] == prev[q];
        } else {
          assert all[q] == row[q - |prev|];
        }
      }
    }
  }

  /** Two vertices `u < v` are joined exactly when their distance round the
      circle is one of the steps. */
  lemma {:induction false} CirculantJoined(n: nat, ss: seq<nat>, u: nat, v: nat)
    requires n > 0 && StepSet(n, ss) && u < v < n
    ensures Joined(CirculantPairs(n, ss), u, v) <==> Gap(u, v, n) in ss
  {
    if |ss| > 0 {
      var init, s := ss[..|ss| - 1], ss[|ss| - 1];
      CirculantJoined(n, init, u, v);
      RowJoined(n, s, u, v);
      JoinedConcat(CirculantPairs(n, init), Row(n, s, n), u, v);
      assert ss == init + [s];
    }
  }

  /** The circulant graph repeats no edge and has no loop. */
  lemma {:induction false} CirculantSimple(n: nat, ss: seq<nat>)
    requires n > 0 && StepSet(n, ss)
    ensures SimplePairs(CirculantPairs(n, ss))
  {
    CirculantGaps(n, ss);
    if |ss| > 0 {
      var init, s := ss[..|ss| - 1], ss[|ss| - 1];
      CirculantSimple(n, init);
      CirculantGaps(n, init);
      RowGaps(n, s);
      RowSimple(n, s);
      var prev, row, all := CirculantPairs(n, init), Row(n, s, n), CirculantPairs(n, ss);
      assert all == prev + row;
      forall q, l | 0 <= q < l < |all|
        ensures !SameEdge(all[q], all[l])
      {
        if l < |prev| {
          assert all[q] == prev[q] && all[l] == prev[l];
        } else if q < |prev| {
          assert all[q] == prev[q] && all[l] == row[l - |prev|];
          OtherGap(n, init, s, prev[q], row[l - |prev|]);
        } else {
          assert all[q] == row[q - |prev|] && all[l] == row[l - |prev|];
        }
      }
    }
  }

  /** Two pairs at different distances name different edges. */
  lemma OtherGap(n: nat, init: seq<nat>, s: nat, p: (nat, nat), r: (nat, nat))
    requires p.0 < n && p.1 < n && r.0 < n && r.1 < n
    requires Gap(p.0, p.1, n) in init && Gap(r.0, r.1, n) == s && s !in init
    ensures !SameEdge(p, r)
  {
  }

  /** The number of edges is the capacity the source computes: `n` per
      step, less `n / 2` when the largest step is half the circle. */
  lemma {:induction false} CirculantCount(n: nat, ss: seq<nat>)
    requires n > 0 && StepSet(n, ss)
    ensures |CirculantPairs(n, ss)| == n * |ss| - (if |ss| > 0 && 2 * ss[|ss| - 1] == n then n / 2 else 0)
  {
    if |ss| > 0 {
      var init, s := ss[..|ss| - 1], ss[|ss| - 1];
      CirculantCount(n, init);
      RowForm(n, s, n);
      assert |init| > 0 ==> init[|init| - 1] < s;
      MulSucc(n, |init|);
    }
  }

  lemma MulSucc(n: nat, k: nat)
    ensures n * (k + 1) == n * k + n
  {
  }

  // ---------------------------------------------------------------------
  // Construction

  /** The inner loop for step `s`: vertex `u` gets `(u, (u + s) % n)`,
      except that a half step skips the second half of the vertices. */
  method AddRow(g: Graph, ghost ps: seq<(nat, nat)>, s: nat)
    requires Holds(g, ps) && g.n > 0 && 1 <= s && 2 * s <= g.n
    modifies g
    ensures Holds(g, ps + Row(g.n, s, g.n))
  {
    var n := g.n;
    var u := 0;
    ghost var done := [];
    while u < n
      invariant 0 <= u <= n && done == Row(n, s, u)
      invariant Holds(g, ps + done)
    {
      if 2 * s != n {
        var v := (u + s) % n;
        assert v == Shift(u, s, n);
        assert Row(n, s, u + 1) == done + [(u, v)];
        Push(g, ps + done, u, v);
        Associative(ps, done, [(u, v)]);
        done := done + [(u, v)];
      } else if 2 * u >= n {
        assert Row(n, s, u + 1) == done;
      } else {
        var v := (u + s) % n;
        assert v == Shift(u, s, n);
        assert Row(n, s, u + 1) == done + [(u, v)];
        if v > u {
          Push(g, ps + done, u, v);
          Associative(ps, done, [(u, v)]);
          done := done + [(u, v)];
        }
      }
      u := u + 1;
    }
  }

  /** `createCirculantGraph(n, steps...)`: fewer than one vertex, or a step
      outside `1..n-1`, throws IllegalArgumentException; no steps gives the
      edgeless graph; otherwise one row of edges per folded step. */
  method CreateCirculantGraph(n: int, steps: seq<int>) returns (r: Result<Graph>)
    ensures r.Ok? <==> n >= 1 && forall i :: 0 <= i < |steps| ==> 1 <= steps[i] <= n - 1
    ensures !r.Ok? ==> r.exception == IllegalArgument
    ensures r.Ok? ==> fresh(r.value) && r.value.n == n && !r.value.isDirected
    ensures r.Ok? ==> Holds(r.value, CirculantPairs(n, Folded(steps, n)))
  {
    if n < 1 {
      return Throw(IllegalArgument);
    }
    if |steps| == 0 {
      r := CreateEdgelessGraph(n);
      return;
    }
    var i := 0;
    while i < |steps|
      invariant 0 <= i <= |steps| && forall j :: 0 <= j < i ==> 1 <= steps[j] <= n - 1
    {
      if steps[i] < 1 || steps[i] > n - 1 {
        return Throw(IllegalArgument);
      }
      i := i + 1;
    }
    var folded := Folded(steps, n);
    FoldedShape(steps, n);
    var g := Fresh(n, false);
    var k := 0;
    while k < |folded|
      invariant 0 <= k <= |folded| && g.n == n && !g.isDirected
      invariant Holds(g, CirculantPairs(n, folded[..k]))
    {
      assert folded[..k + 1][..k] == folded[..k];
      AddRow(g, CirculantPairs(n, folded[..k]), folded[k]);
      k := k + 1;
    }
    assert folded[..k] == folded;
    return Ok(g);
  }
}
