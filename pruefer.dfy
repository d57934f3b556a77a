/** `createPrueferTree`: a random tree from a Prüfer code.  The decoding is
    given as functions (`Decode`, `LastEdge`, `PrueferPairs`) about which
    the tree properties are proved; the imperative decoder over the
    `degrees` array is proved to add exactly those pairs. */
module PrueferTrees {
  import opened Exceptions
  import opened FlatGraphs
  import opened JavaRandom
  import opened RandomUtil
  import opened GraphGeneration

  // ---------------------------------------------------------------------
  // Decoding, as functions

  /** The degrees before decoding: one plus the number of occurrences in
      the code. */
  function Initial(n: nat, code: seq<int>): (deg: seq<int>)
    ensures |deg| == n
  {
    seq(n, x requires 0 <= x < n => 1 + multiset(code)[x])
  }

  /** The first vertex from `j` on whose remaining degree is 1, or `|deg|`
      when there is none. */
  function LeafFrom(deg: seq<int>, j: nat): (r: nat)
    requires j <= |deg|
    ensures j <= r <= |deg| && (r < |deg| ==> deg[r] == 1)
    ensures forall i :: j <= i < r ==> deg[i] != 1
    decreases |deg| - j
  {
    if j == |deg| then j else if deg[j] == 1 then j else LeafFrom(deg, j + 1)
  }

  /** One round of the decoding: the first leaf is joined to `x` and both
      lose one degree; without a leaf nothing happens. */
  function Prune(deg: seq<int>, x: int): (seq<int>, seq<(nat, nat)>)
    requires 0 <= x < |deg|
  {
    var j := LeafFrom(deg, 0);
    if j == |deg| then (deg, [])
    else
      var lowered := deg[j := deg[j] - 1];
      (lowered[x := lowered[x] - 1], [(j, x)])
  }

  /** The degrees and the pairs after the rounds for `code`, in order. */
  function Decode(deg: seq<int>, code: seq<int>): (r: (seq<int>, seq<(nat, nat)>))
    requires forall i :: 0 <= i < |code| ==> 0 <= code[i] < |deg|
    ensures |r.0| == |deg|
  {
    if |code| == 0 then (deg, [])
    else
      var before := Decode(deg, code[..|code| - 1]);
      var round := Prune(before.0, code[|code| - 1]);
      (round.0, before.1 + round.1)
  }

  /** The last edge: between the first two vertices whose degree is 1. */
  function LastEdge(deg: seq<int>): Option<(nat, nat)>
  {
    var u := LeafFrom(deg, 0);
    if u == |deg| then None
    else
      var v := LeafFrom(deg, u + 1);
      if v == |deg| then None else Some((u, v))
  }

  /** A Prüfer code for a tree on `n >= 2` vertices: `n - 2` vertices. */
  predicate Code(n: nat, code: seq<int>)
  {
    n >= 2 && |code| == n - 2 && forall i :: 0 <= i < |code| ==> 0 <= code[i] < n
  }

  /** The decoding after `i` rounds. */
  function Stage(n: nat, code: seq<int>, i: nat): (seq<int>, seq<(nat, nat)>)
    requires Code(n, code) && i <= |code|
  {
    Decode(Initial(n, code), code[..i])
  }

  /** The pairs `createPrueferTree` adds for `code`. */
  function PrueferPairs(n: nat, code: seq<int>): seq<(nat, nat)>
    requires Code(n, code)
  {
    var last := Stage(n, code, |code|);
    match LastEdge(last.0)
    case Some(p) => last.1 + [p]
    case None => last.1
  }

  // ---------------------------------------------------------------------
  // Degrees and walks of a pair list

  /** The number of pairs `x` belongs to. */
  function Degree(ps: seq<(nat, nat)>, x: int): nat
  {
    if |ps| == 0 then 0
    else Degree(ps[..|ps| - 1], x) + (if ps[|ps| - 1].0 == x then 1 else 0) + (if ps[|ps| - 1].1 == x then 1 else 0)
  }

  lemma DegreeAppend(ps: seq<(nat, nat)>, p: (nat, nat), x: int)
    ensures Degree(ps + [p], x) == Degree(ps, x) + (if p.0 == x then 1 else 0) + (if p.1 == x then 1 else 0)
  {
    assert (ps + [p])[..|ps|] == ps;
  }

  /** `w` is a walk along the pairs. */
  ghost predicate Walk(ps: seq<(nat, nat)>, w: seq<nat>)
  {
    |w| >= 1 && forall k :: 0 <= k < |w| - 1 ==> Joined(ps, w[k], w[k + 1])
  }

  /** Some walk along the pairs leads from `x` to `y`. */
  ghost predicate Connects(ps: seq<(nat, nat)>, x: nat, y: nat)
  {
    exists w :: Walk(ps, w) && w[0] == x && w[|w| - 1] == y
  }

  /** Every two of the vertices `0..n-1` are connected. */
  ghost predicate Connected(ps: seq<(nat, nat)>, n: nat)
  {
    forall x: nat, y: nat :: x < n && y < n ==> Connects(ps, x, y)
  }

  lemma ConnectsGrow(ps: seq<(nat, nat)>, qs: seq<(nat, nat)>, x: nat, y: nat)
    requires ps <= qs && Connects(ps, x, y)
    ensures Connects(qs, x, y)
  {
    var w :| Walk(ps, w) && w[0] == x && w[|w| - 1] == y;
    JoinedPrefix(ps, qs);
    assert Walk(qs, w);
  }

  lemma ConnectsExtend(ps: seq<(nat, nat)>, x: nat, y: nat, z: nat)
    requires Connects(ps, x, y) && Joined(ps, y, z)
    ensures Connects(ps, x, z)
  {
    var w :| Walk(ps, w) && w[0] == x && w[|w| - 1] == y;
    var w' := w + [z];
    assert Walk(ps, w');
  }

  lemma ConnectsEdge(ps: seq<(nat, nat)>, x: nat, y: nat)
    requires Joined(ps, x, y)
    ensures Connects(ps, x, y)
  {
    assert Walk(ps, [x, y]);
  }

  lemma ConnectsSelf(ps: seq<(nat, nat)>, x: nat)
    ensures Connects(ps, x, x)
  {
    assert Walk(ps, [x]);
  }

  lemma {:induction false} ConnectsBack(ps: seq<(nat, nat)>, x: nat, y: nat)
    requires Connects(ps, x, y)
    ensures Connects(ps, y, x)
  {
    var w :| Walk(ps, w) && w[0] == x && w[|w| - 1] == y;
    var back := seq(|w|, k requires 0 <= k < |w| => w[|w| - 1 - k]);
    forall k | 0 <= k < |back| - 1
      ensures Joined(ps, back[k], back[k + 1])
    {
      var i := |w| - 2 - k;
      assert Joined(ps, w[i], w[i + 1]);
      var q :| 0 <= q < |ps| && SameEdge(ps[q], (w[i], w[i + 1]));
      assert SameEdge(ps[q], (back[k], back[k + 1]));
    }
    assert Walk(ps, back);
  }

  lemma ConnectsJoin(ps: seq<(nat, nat)>, x: nat, y: nat, z: nat)
    requires Connects(ps, x, y) && Connects(ps, y, z)
    ensures Connects(ps, x, z)
  {
    var w :| Walk(ps, w) && w[0] == x && w[|w| - 1] == y;
    var w' :| Walk(ps, w') && w'[0] == y && w'[|w'| - 1] == z;
    var joined := w + w'[1..];
    forall k | 0 <= k < |joined| - 1
      ensures Joined(ps, joined[k], joined[k + 1])
    {
      if k < |w| - 1 {
        assert joined[k] == w[k] && joined[k + 1] == w[k + 1];
      } else {
        assert joined[k] == w'[k - |w| + 1] && joined[k + 1] == w'[k - |w| + 2];
      }
    }
    assert Walk(ps, joined);
  }

  // ---------------------------------------------------------------------
  // The decoding invariant

  /** The vertices the rounds so far removed as leaves. */
  ghost function Removed(es: seq<(nat, nat)>): set<int>
  {
    set k | 0 <= k < |es| :: es[k].0 as int
  }

  lemma RemovedAppend(es: seq<(nat, nat)>, p: (nat, nat))
    ensures Removed(es + [p]) == Removed(es) + {p.0 as int}
  {
    var es' := es + [p];
    forall y | y in Removed(es')
      ensures y in Removed(es) + {p.0 as int}
    {
      var k :| 0 <= k < |es'| && es'[k].0 == y;
      if k < |es| {
        assert es[k] == es'[k];
      }
    }
    forall y | y in Removed(es)
      ensures y in Removed(es')
    {
      var k :| 0 <= k < |es| && es[k].0 == y;
      assert es'[k] == es[k];
    }
    assert es'[|es|] == p;
  }

  /** The state between rounds: a removed vertex has degree 0; any other
      vertex has degree one more than its remaining occurrences; the
      removed vertices and the rest of the code together number `n - 2`. */
  ghost predicate Balanced(n: nat, deg: seq<int>, rest: seq<int>, removed: set<int>)
  {
    |deg| == n && |removed| + |rest| + 2 == n &&
    (forall x :: x in removed ==> 0 <= x < n) &&
    (forall i :: 0 <= i < |rest| ==> 0 <= rest[i] < n && rest[i] !in removed) &&
    forall x :: 0 <= x < n ==> deg[x] == if x in removed then 0 else 1 + multiset(rest)[x]
  }

  /** The vertices `0..n-1`. */
  function Below(n: nat): (b: set<int>)
    ensures forall x :: x in b <==> 0 <= x < n
  {
    if n == 0 then {} else Below(n - 1) + {n - 1}
  }

  lemma {:induction false} BelowSize(n: nat)
    ensures |Below(n)| == n
  {
    if n > 0 {
      BelowSize(n - 1);
    }
  }

  lemma {:induction false} ValuesSize(rest: seq<int>)
    ensures |set i | 0 <= i < |rest| :: rest[i]| <= |rest|
  {
    if |rest| > 0 {
      var init := rest[..|rest| - 1];
      ValuesSize(init);
      var vals, vals' := set i | 0 <= i < |rest| :: rest[i], set i | 0 <= i < |init| :: init[i];
      assert vals <= vals' + {rest[|rest| - 1]} by {
        forall y | y in vals
          ensures y in vals' + {rest[|rest| - 1]}
        {
          var i :| 0 <= i < |rest| && rest[i] == y;
          if i < |init| {
            assert init[i] == y;
          }
        }
      }
      SubsetSize(vals, vals' + {rest[|rest| - 1]});
    }
  }

  lemma SubsetSize(a: set<int>, b: set<int>)
    requires a <= b
    ensures |a| <= |b|
  {
    assert b == a + (b - a);
  }

  /** Fewer than `k` excluded values leave one of `0..k-1` free. */
  lemma {:induction false} Free(k: nat, c: set<int>) returns (x: int)
    requires |c| < k
    ensures 0 <= x < k && x !in c
  {
    if k - 1 !in c {
      x := k - 1;
    } else {
      x := Free(k - 1, c - {k - 1});
    }
  }

  /** Between rounds some vertex is a leaf: the `|rest| + 2` vertices not
      yet removed cannot all occur among the `|rest|` remaining entries. */
  lemma SomeLeaf(n: nat, deg: seq<int>, rest: seq<int>, removed: set<int>) returns (x: int)
    requires Balanced(n, deg, rest, removed)
    ensures 0 <= x < n && deg[x] == 1
  {
    var vals := set i | 0 <= i < |rest| :: rest[i];
    ValuesSize(rest);
    x := Free(n, removed + vals);
    assert x !in vals;
  }

  /** A round keeps the state balanced: it removes the first leaf `j`,
      which does not occur in the rest of the code, and joins it to the
      next entry `x`, which stays. */
  lemma PruneStep(n: nat, deg: seq<int>, rest: seq<int>, removed: set<int>) returns (j: nat)
    requires Balanced(n, deg, rest, removed) && |rest| > 0
    ensures j == LeafFrom(deg, 0) && j < n && j !in removed && j != rest[0]
    ensures rest[0] !in removed
    ensures Prune(deg, rest[0]).1 == [(j, rest[0] as nat)]
    ensures Balanced(n, Prune(deg, rest[0]).0, rest[1..], removed + {j as int})
  {
    var leaf := SomeLeaf(n, deg, rest, removed);
    j := LeafFrom(deg, 0);
    var x := rest[0];
    assert rest == [x] + rest[1..];
    assert multiset(rest) == multiset{x} + multiset(rest[1..]);
    assert deg[j] == 1 && j !in removed && multiset(rest)[j] == 0;
    assert multiset(rest)[x] >= 1;
    assert j != x;
    var deg' := Prune(deg, x).0;
    assert deg' == deg[j := 0][x := deg[x] - 1];
    var removed' := removed + {j as int};
    forall y | 0 <= y < n
      ensures deg'[y] == if y in removed' then 0 else 1 + multiset(rest[1..])[y]
    {
      if y == x {
        assert multiset(rest)[x] == 1 + multiset(rest[1..])[x];
      } else if y != j {
        assert multiset(rest)[y] == multiset(rest[1..])[y];
      }
    }
  }

  /** After `i` rounds there are `i` pairs and the state is balanced. */
  lemma {:induction false} StageBalanced(n: nat, code: seq<int>, i: nat)
    requires Code(n, code) && i <= |code|
    ensures |Stage(n, code, i).1| == i
    ensures Balanced(n, Stage(n, code, i).0, code[i..], Removed(Stage(n, code, i).1))
    decreases i, 1
  {
    if i == 0 {
      assert code[..0] == [];
      assert Removed([]) == {};
      assert code[0..] == code;
    } else {
      var j := StageStep(n, code, i);
    }
  }

  /** Round `i` joins a leaf `j`, never removed before, to the entry
      `code[i - 1]`, which stays. */
  lemma StageStep(n: nat, code: seq<int>, i: nat) returns (j: nat)
    requires Code(n, code) && 0 < i <= |code|
    ensures j < n && j != code[i - 1] && j !in Removed(Stage(n, code, i - 1).1)
    ensures code[i - 1] !in Removed(Stage(n, code, i - 1).1)
    ensures Stage(n, code, i).1 == Stage(n, code, i - 1).1 + [(j, code[i - 1] as nat)]
    ensures Removed(Stage(n, code, i).1) == Removed(Stage(n, code, i - 1).1) + {j as int}
    ensures |Stage(n, code, i).1| == i
    ensures Balanced(n, Stage(n, code, i).0, code[i..], Removed(Stage(n, code, i).1))
    decreases i, 0
  {
    StageBalanced(n, code, i - 1);
    var before := Stage(n, code, i - 1);
    var rest := code[i - 1..];
    assert code[..i][..i - 1] == code[..i - 1];
    assert rest[0] == code[i - 1] && rest[1..] == code[i..];
    j := PruneStep(n, before.0, rest, Removed(before.1));
    RemovedAppend(before.1, (j, code[i - 1] as nat));
  }

  /** After `i` rounds a vertex has degree one if it was removed, plus its
      occurrences so far. */
  lemma {:induction false} StageDegree(n: nat, code: seq<int>, i: nat)
    requires Code(n, code) && i <= |code|
    ensures forall x :: 0 <= x < n ==>
      Degree(Stage(n, code, i).1, x) == (if x in Removed(Stage(n, code, i).1) then 1 else 0) + multiset(code[..i])[x]
  {
    if i == 0 {
      assert code[..0] == [];
      assert Removed([]) == {};
    } else {
      StageDegree(n, code, i - 1);
      var j := StageStep(n, code, i);
      var es := Stage(n, code, i - 1).1;
      var x: nat := code[i - 1];
      PrefixSnoc(code, i);
      DegreeStep(n, es, j, x, Removed(es), code[..i - 1]);
    }
  }

  lemma PrefixSnoc(code: seq<int>, i: nat)
    requires 0 < i <= |code|
    ensures code[..i] == code[..i - 1] + [code[i - 1]]
  {
  }

  lemma DegreeStep(n: nat, es: seq<(nat, nat)>, j: nat, x: nat, removed: set<int>, before: seq<int>)
    requires forall y :: 0 <= y < n ==> Degree(es, y) == (if y in removed then 1 else 0) + multiset(before)[y]
    requires j !in removed && j != x
    ensures forall y :: 0 <= y < n ==>
      Degree(es + [(j, x)], y) == (if y in removed + {j as int} then 1 else 0) + multiset(before + [x])[y]
  {
    forall y | 0 <= y < n
      ensures Degree(es + [(j, x)], y) == (if y in removed + {j as int} then 1 else 0) + multiset(before + [x])[y]
    {
      DegreeAppend(es, (j, x), y);
    }
  }

  /** After `i` rounds every removed vertex has a walk to one still
      present. */
  lemma {:induction false} StageReach(n: nat, code: seq<int>, i: nat)
    requires Code(n, code) && i <= |code|
    ensures forall y :: y in Removed(Stage(n, code, i).1) ==> ReachesPresent(Stage(n, code, i).1, n, y)
  {
    if i == 0 {
      assert code[..0] == [];
      assert Removed([]) == {};
    } else {
      StageReach(n, code, i - 1);
      var j := StageStep(n, code, i);
      ReachStep(n, Stage(n, code, i - 1).1, j, code[i - 1]);
    }
  }

  /** `y` has a walk to a vertex below `n` that was not removed. */
  ghost predicate ReachesPresent(es: seq<(nat, nat)>, n: nat, y: int)
  {
    exists z: nat :: z < n && z !in Removed(es) && y >= 0 && Connects(es, y, z)
  }

  lemma ReachStep(n: nat, es: seq<(nat, nat)>, j: nat, x: nat)
    requires forall y :: y in Removed(es) ==> ReachesPresent(es, n, y)
    requires j < n && x < n && j != x && x !in Removed(es) && j !in Removed(es)
    requires Removed(es + [(j, x)]) == Removed(es) + {j as int}
    ensures forall y :: y in Removed(es + [(j, x)]) ==> ReachesPresent(es + [(j, x)], n, y)
  {
    var es' := es + [(j, x)];
    assert SameEdge(es'[|es|], (j, x));
    assert Joined(es', j, x);
    forall y | y in Removed(es')
      ensures ReachesPresent(es', n, y)
    {
      if y == j {
        ConnectsEdge(es', j, x);
      } else {
        var z: nat :| z < n && z !in Removed(es) && y >= 0 && Connects(es, y, z);
        ConnectsGrow(es, es', y, z);
        if z == j {
          ConnectsExtend(es', y, j, x);
        }
      }
    }
  }

  // ---------------------------------------------------------------------
  // What the decoding yields

  /** With `n - 2` of the vertices `0..n-1` removed, two distinct ones
      that are not removed are all the others. */
  lemma OnlyTwo(n: nat, removed: set<int>, a: int, b: int)
    requires |removed| + 2 == n && forall x :: x in removed ==> 0 <= x < n
    requires 0 <= a < n && 0 <= b < n && a != b && a !in removed && b !in removed
    ensures forall x :: 0 <= x < n && x !in removed ==> x == a || x == b
  {
    forall x | 0 <= x < n && x !in removed
      ensures x == a || x == b
    {
      if x != a && x != b {
        var t := removed + {a, b, x};
        assert t <= Below(n);
        SubsetSize(t, Below(n));
        BelowSize(n);
      }
    }
  }

  /** A balanced state with nothing left of the code has exactly two
      vertices of degree 1, and the last edge joins them. */
  lemma FinalLeaves(n: nat, deg: seq<int>, removed: set<int>) returns (u: nat, v: nat)
    requires Balanced(n, deg, [], removed)
    ensures LastEdge(deg) == Some((u, v))
    ensures u < v < n && u !in removed && v !in removed
    ensures forall x :: 0 <= x < n ==> x in removed || x == u || x == v
  {
    var a := Free(n, removed);
    var b := Free(n, removed + {a});
    OnlyTwo(n, removed, a, b);
    assert deg[a] == 1 && deg[b] == 1;
    u := LeafFrom(deg, 0);
    assert u <= a && u <= b;
    assert u !in removed;
    var w := if u == a then b else a;
    assert u < w;
    v := LeafFrom(deg, u + 1);
    assert v <= w;
    assert v !in removed;
  }

  /** After the last round exactly two vertices remain and the last edge
      joins them. */
  lemma LastEdgeFound(n: nat, code: seq<int>) returns (u: nat, v: nat)
    requires Code(n, code)
    ensures LastEdge(Stage(n, code, |code|).0) == Some((u, v))
    ensures u < v < n && u !in Removed(Stage(n, code, |code|).1) && v !in Removed(Stage(n, code, |code|).1)
    ensures forall x :: 0 <= x < n ==> x in Removed(Stage(n, code, |code|).1) || x == u || x == v
  {
    StageBalanced(n, code, |code|);
    assert code[|code|..] == [];
    var last := Stage(n, code, |code|);
    u, v := FinalLeaves(n, last.0, Removed(last.1));
  }

  /** The pairs number `n - 1`. */
  lemma PrueferCount(n: nat, code: seq<int>)
    requires Code(n, code)
    ensures |PrueferPairs(n, code)| == n - 1
  {
    StageBalanced(n, code, |code|);
    var u, v := LastEdgeFound(n, code);
  }

  /** Vertex `x` has degree one more than its occurrences in the code. */
  lemma PrueferDegrees(n: nat, code: seq<int>)
    requires Code(n, code)
    ensures forall x :: 0 <= x < n ==> Degree(PrueferPairs(n, code), x) == 1 + multiset(code)[x]
  {
    StageDegree(n, code, |code|);
    var u, v := LastEdgeFound(n, code);
    var es := Stage(n, code, |code|).1;
    assert PrueferPairs(n, code) == es + [(u, v)];
    assert code[..|code|] == code;
    forall x | 0 <= x < n
      ensures Degree(es + [(u, v)], x) == 1 + multiset(code)[x]
    {
      DegreeAppend(es, (u, v), x);
    }
  }

  /** Every two vertices are connected. */
  lemma PrueferConnected(n: nat, code: seq<int>)
    requires Code(n, code)
    ensures Connected(PrueferPairs(n, code), n)
  {
    StageReach(n, code, |code|);
    var u, v := LastEdgeFound(n, code);
    var es := Stage(n, code, |code|).1;
    var ps := es + [(u, v)];
    assert PrueferPairs(n, code) == ps;
    assert SameEdge(ps[|es|], (u, v));
    assert Joined(ps, u, v);
    forall x: nat | x < n
      ensures Connects(ps, x, v)
    {
      if x == v {
        ConnectsSelf(ps, v);
      } else if x == u {
        ConnectsEdge(ps, u, v);
      } else {
        assert x in Removed(es);
        assert ReachesPresent(es, n, x);
        var z: nat :| z < n && z !in Removed(es) && Connects(es, x, z);
        ConnectsGrow(es, ps, x, z);
        if z == u {
          ConnectsExtend(ps, x, u, v);
        }
      }
    }
    forall x: nat, y: nat | x < n && y < n
      ensures Connects(ps, x, y)
    {
      ConnectsBack(ps, y, v);
      ConnectsJoin(ps, x, v, y);
    }
  }

  /** For every code the pairs form a tree on `n` vertices: `n - 1` of them
      connecting every two vertices, with degrees given by the code. */
  lemma PrueferTree(n: nat, code: seq<int>)
    requires Code(n, code)
    ensures |PrueferPairs(n, code)| == n - 1
    ensures forall x :: 0 <= x < n ==> Degree(PrueferPairs(n, code), x) == 1 + multiset(code)[x]
    ensures Connected(PrueferPairs(n, code), n)
  {
    PrueferCount(n, code);
    PrueferDegrees(n, code);
    PrueferConnected(n, code);
  }

  lemma IotaCount(k: nat, x: int)
    ensures multiset(Iota(k))[x] == if 0 <= x < k then 1 else 0
  {
    IotaOnce(k, x);
    if 0 <= x < k {
      assert Iota(k)[x] == x;
    }
  }

  /** As the source draws it, the code is a permutation of `0..n-3`: every
      vertex below `n - 2` gets degree 2 and the last two degree 1, so the
      tree is always a path. */
  lemma PermutationCodeGivesPath(n: nat, code: seq<int>)
    requires Code(n, code) && multiset(code) == multiset(Iota(n - 2))
    ensures forall x :: 0 <= x < n ==> Degree(PrueferPairs(n, code), x) == if x < n - 2 then 2 else 1
  {
    PrueferTree(n, code);
    forall x | 0 <= x < n
      ensures Degree(PrueferPairs(n, code), x) == if x < n - 2 then 2 else 1
    {
      IotaCount(n - 2, x);
    }
  }

  /** With independent draws every code occurs: the stream that yields
      `code` entry by entry produces it. */
  lemma EveryCodeDrawn(n: nat, code: seq<int>) returns (draws: nat -> nat)
    requires Code(n, code)
    ensures DrawnCode(n, draws) == code
  {
    draws := (i: nat) => if i < |code| && code[i] >= 0 then code[i] as nat else 0;
    forall i | 0 <= i < |code|
      ensures DrawnCode(n, draws)[i] == code[i]
    {
      SmallMod(code[i], n);
    }
  }

  /** With independent draws a vertex of degree `n - 1` (a star) occurs for
      every `n >= 3`, which the permutation code never gives for `n >= 4`. */
  lemma DrawnCodeGivesStar(n: nat)
    requires n >= 3
    ensures Code(n, DrawnCode(n, i => 0))
    ensures Degree(PrueferPairs(n, DrawnCode(n, i => 0)), 0) == n - 1
  {
    var code := DrawnCode(n, i => 0);
    assert forall i :: 0 <= i < |code| ==> code[i] == 0;
    PrueferTree(n, code);
    assert multiset(code)[0] == n - 2 by {
      assert code == seq(n - 2, i => 0);
      ZerosCount(n - 2);
    }
  }

  lemma {:induction false} ZerosCount(k: nat)
    ensures multiset(seq(k, i => 0))[0] == k
  {
    if k > 0 {
      ZerosCount(k - 1);
      assert seq(k, i => 0) == seq(k - 1, i => 0) + [0];
    }
  }

  /** The code `n - 2` independent `nextInt(n)` calls draw from a new
      generator. */
  function DrawnCode(n: nat, draws: nat -> nat): (code: seq<int>)
    requires n >= 2
    ensures Code(n, code)
  {
    seq(n - 2, i requires 0 <= i => draws(i) % n)
  }

  // ---------------------------------------------------------------------
  // The imperative decoder

  /** One round of the decoding loop: scan for the first vertex of degree
      1, join it to `x` and lower both degrees. */
  method PruneRound(g: Graph, degrees: array<int>, ghost es: seq<(nat, nat)>, x: int) returns (ghost es': seq<(nat, nat)>)
    requires Holds(g, es) && degrees.Length == g.n && 0 <= x < degrees.Length
    modifies g, degrees
    ensures degrees[..] == Prune(old(degrees[..]), x).0 && es' == es + Prune(old(degrees[..]), x).1
    ensures Holds(g, es')
  {
    ghost var deg := degrees[..];
    var j := 0;
    while j < degrees.Length
      invariant 0 <= j <= degrees.Length && degrees[..] == deg && Holds(g, es)
      invariant forall i :: 0 <= i < j ==> deg[i] != 1
    {
      if degrees[j] == 1 {
        Push(g, es, j, x);
        degrees[j] := degrees[j] - 1;
        degrees[x] := degrees[x] - 1;
        return es + [(j, x)];
      }
      j := j + 1;
    }
    return es;
  }

  /** The degree array of a code: every vertex starts at 1 and gains one
      per occurrence. */
  method InitialDegrees(code: array<int>, n: nat) returns (degrees: array<int>)
    requires Code(n, code[..])
    ensures fresh(degrees) && degrees[..] == Initial(n, code[..])
  {
    degrees := new int[n];
    var i := 0;
    while i < n
      invariant 0 <= i <= n
      invariant forall x :: 0 <= x < i ==> degrees[x] == 1
    {
      degrees[i] := 1;
      i := i + 1;
    }
    i := 0;
    while i < code.Length
      invariant 0 <= i <= code.Length
      invariant degrees[..] == Initial(n, code[..i])
    {
      assert code[..i + 1] == code[..i] + [code[i]];
      degrees[code[i]] := degrees[code[i]] + 1;
      i := i + 1;
    }
    assert code[..i] == code[..];
  }

  /** The decoding part of `createPrueferTree`: the rounds, then the edge
      between the first two vertices left with degree 1. */
  method DecodeInto(g: Graph, code: array<int>, n: nat)
    requires Holds(g, []) && g.n == n && Code(n, code[..])
    modifies g
    ensures Holds(g, PrueferPairs(n, code[..]))
  {
    ghost var s := code[..];
    var degrees := InitialDegrees(code, n);
    ghost var es: seq<(nat, nat)> := [];
    assert s[..0] == [];
    var i := 0;
    while i < code.Length
      invariant 0 <= i <= code.Length && code[..] == s
      invariant degrees[..] == Stage(n, s, i).0 && es == Stage(n, s, i).1
      invariant Holds(g, es)
    {
      assert s[..i + 1][..i] == s[..i];
      es := PruneRound(g, degrees, es, code[i]);
      i := i + 1;
    }
    var a, b := LastEdgeFound(n, s);
    var u, v := FindLastEdge(degrees);
    Push(g, es, u as nat, v as nat);
  }

  /** The scan for the last edge: the first two vertices of degree 1, or -1
      for each one not found. */
  method FindLastEdge(degrees: array<int>) returns (u: int, v: int)
    ensures LastEdge(degrees[..]) == if u >= 0 && v >= 0 then Some((u as nat, v as nat)) else None
    ensures u < degrees.Length && v < degrees.Length
  {
    ghost var deg := degrees[..];
    u, v := -1, -1;
    var i := 0;
    while i < degrees.Length
      invariant 0 <= i <= degrees.Length
      invariant u < 0 ==> u == -1 && forall x :: 0 <= x < i ==> deg[x] != 1
      invariant u >= 0 ==> u == LeafFrom(deg, 0) < i && forall x :: u < x < i ==> deg[x] != 1
      invariant v == -1
    {
      if degrees[i] == 1 {
        if u < 0 {
          u := i;
        } else {
          v := i;
          break;
        }
      }
      i := i + 1;
    }
  }

  /** `createPrueferTree(n, seed)`, the seed standing for the stream of
      draws of `new Random(seed)`: a negative `n` throws
      IllegalArgumentException; for `n < 2` the code of length `n - 2`
      cannot be allocated (NegativeArraySizeException).  The code is a
      random permutation of `0..n-3`. */
  method CreatePrueferTree(n: int, draws: nat -> nat) returns (r: Result<Graph>, ghost code: seq<int>)
    ensures r.Ok? <==> n >= 2
    ensures n < 0 ==> r == Throw(IllegalArgument)
    ensures 0 <= n < 2 ==> r == Throw(NegativeArraySize)
    ensures r.Ok? ==> fresh(r.value) && r.value.n == n && !r.value.isDirected
    ensures r.Ok? ==> Code(n, code) && multiset(code) == multiset(Iota(n - 2))
    ensures r.Ok? ==> Holds(r.value, PrueferPairs(n, code))
  {
    if n < 0 {
      return Throw(IllegalArgument), [];
    }
    var g := Fresh(n, false);
    var random := new Random(draws);
    if n - 2 < 0 {
      return Throw(NegativeArraySize), [];
    }
    var permutation := RandomPermutation(n - 2, random);
    code := permutation[..];
    assert forall i :: 0 <= i < |code| ==> code[i] in permutation[..];
    DecodeInto(g, permutation, n);
    return Ok(g), code;
  }

  /** `createPrueferTree` with the code drawn as a Prüfer code is: `n - 2`
      independent `nextInt(n)` draws. */
  method CreatePrueferTreeDrawn(n: int, draws: nat -> nat) returns (r: Result<Graph>, ghost code: seq<int>)
    ensures r.Ok? <==> n >= 2
    ensures n < 0 ==> r == Throw(IllegalArgument)
    ensures 0 <= n < 2 ==> r == Throw(NegativeArraySize)
    ensures r.Ok? ==> fresh(r.value) && r.value.n == n && !r.value.isDirected
    ensures r.Ok? ==> code == DrawnCode(n, draws) && Holds(r.value, PrueferPairs(n, code))
  {
    if n < 0 {
      return Throw(IllegalArgument), [];
    }
    var g := Fresh(n, false);
    var random := new Random(draws);
    if n - 2 < 0 {
      return Throw(NegativeArraySize), [];
    }
    var sequence := new int[n - 2];
    var i := 0;
    while i < n - 2
      invariant 0 <= i <= n - 2 && random.draws == draws && random.position == i
      invariant sequence[..i] == DrawnCode(n, draws)[..i]
      invariant Holds(g, [])
    {
      var draw := random.NextInt(n);
      sequence[i] := draw.value;
      i := i + 1;
    }
    code := sequence[..];
    assert code == sequence[..i];
    DecodeInto(g, sequence, n);
    return Ok(g), code;
  }
}
