/** Sequences as the `java.util.ArrayList`s of the modelled code.  The code
    looks elements up by identity (`indexOf`, `remove(Object)`), so every
    lookup here finds the FIRST occurrence of an element. */
module Lists {

  /** No element occurs twice. */
  ghost predicate Distinct<T>(s: seq<T>)
  {
    forall i, j :: 0 <= i < j < |s| ==> s[i] != s[j]
  }

  /** `ArrayList.indexOf`: the first position of `x` in `s`, or -1. */
  function IndexOf<T(==)>(s: seq<T>, x: T): (i: int)
    ensures -1 <= i < |s|
    ensures i == -1 <==> x !in s
    ensures 0 <= i ==> s[i] == x && forall k :: 0 <= k < i ==> s[k] != x
  {
    IndexFrom(s, x, 0)
  }

  /** The scan behind `IndexOf`, from position `j` on. */
  function IndexFrom<T(==)>(s: seq<T>, x: T, j: nat): (i: int)
    requires j <= |s|
    ensures -1 <= i < |s|
    ensures i == -1 <==> forall k :: j <= k < |s| ==> s[k] != x
    ensures 0 <= i ==> j <= i && s[i] == x && forall k :: j <= k < i ==> s[k] != x
    decreases |s| - j
  {
    if j == |s| then -1
    else if s[j] == x then j
    else IndexFrom(s, x, j + 1)
  }

  /** `ArrayList.add(i, x)`: `x` lands at position `i`, later entries shift. */
  function InsertAt<T>(s: seq<T>, i: int, x: T): seq<T>
    requires 0 <= i <= |s|
  {
    s[..i] + [x] + s[i..]
  }

  /** `add(indexOf(after) + 1, x)`: insert `x` right behind the first
      occurrence of `after`; at the front when `after` is absent. */
  function InsertAfter<T(==)>(s: seq<T>, x: T, after: T): seq<T>
  {
    InsertAt(s, IndexOf(s, after) + 1, x)
  }

  /** `ArrayList.remove(Object)`: drop the first occurrence of `x`, if any. */
  function RemoveFirst<T(==)>(s: seq<T>, x: T): seq<T>
  {
    var i := IndexOf(s, x);
    if i == -1 then s else s[..i] + s[i + 1..]
  }

  /** The entry after the first occurrence of `x`, wrapping from the last
      entry to the first; `s[0]` when `x` is absent (indexOf gives -1). */
  function NextCyclic<T(==)>(s: seq<T>, x: T): T
    requires |s| > 0
  {
    var i := IndexOf(s, x);
    s[if i == |s| - 1 then 0 else i + 1]
  }

  /** The entry before the first occurrence of `x`, wrapping from the first
      entry to the last.  An absent `x` would index -2 and throw, hence the
      requires clause; callers that can meet an absent `x` check first. */
  function PrevCyclic<T(==)>(s: seq<T>, x: T): T
    requires x in s
  {
    var i := IndexOf(s, x);
    s[if i == 0 then |s| - 1 else i - 1]
  }

  /** The entries in the opposite order (`Collections.reverse`). */
  function Reverse<T>(s: seq<T>): (r: seq<T>)
    ensures |r| == |s|
    ensures forall k :: 0 <= k < |s| ==> r[k] == s[|s| - 1 - k]
  {
    seq(|s|, k requires 0 <= k < |s| => s[|s| - 1 - k])
  }

  // ---------------------------------------------------------------------
  // Lemmas

  lemma IndexOfDistinct<T>(s: seq<T>, j: int)
    requires Distinct(s) && 0 <= j < |s|
    ensures IndexOf(s, s[j]) == j
  {
  }

  /** InsertAfter puts the new entry immediately behind `after` and keeps
      the other entries in their order; an absent anchor means position 0. */
  lemma InsertAfterPlacement<T>(s: seq<T>, x: T, after: T)
    ensures |InsertAfter(s, x, after)| == |s| + 1
    ensures after !in s ==> InsertAfter(s, x, after) == [x] + s
    ensures after in s ==>
      var k := IndexOf(s, after);
      var r := InsertAfter(s, x, after);
      r[k] == after && r[k + 1] == x && r[..k + 1] == s[..k + 1] && r[k + 2..] == s[k + 1..]
  {
    var k := IndexOf(s, after);
    var r := InsertAfter(s, x, after);
    if after !in s {
      assert r == [] + [x] + s;
    } else {
      assert r == s[..k + 1] + [x] + s[k + 1..];
      assert r[..k + 1] == s[..k + 1];
      assert r[k + 2..] == s[k + 1..];
    }
  }

  /** RemoveFirst removes exactly one occurrence -- the first -- when the
      element is present, keeps the order of the rest, and is the identity
      otherwise. */
  lemma RemoveFirstSpec<T>(s: seq<T>, x: T)
    ensures x !in s ==> RemoveFirst(s, x) == s
    ensures x in s ==>
      var k := IndexOf(s, x);
      RemoveFirst(s, x) == s[..k] + s[k + 1..] && x !in s[..k]
    ensures |RemoveFirst(s, x)| == if x in s then |s| - 1 else |s|
    ensures multiset(RemoveFirst(s, x)) == multiset(s) - multiset{x}
  {
    if x in s {
      var k := IndexOf(s, x);
      assert s == s[..k] + [x] + s[k + 1..];
      assert multiset(s) == multiset(s[..k]) + multiset{x} + multiset(s[k + 1..]);
    } else {
      assert multiset(s)[x] == 0;
    }
  }

  /** Stepping back and then forward again returns to the start in a list
      without repetitions (the rotation lists of the planar model). */
  lemma NextOfPrev<T>(s: seq<T>, x: T)
    requires Distinct(s) && x in s
    ensures PrevCyclic(s, x) in s && NextCyclic(s, PrevCyclic(s, x)) == x
    ensures NextCyclic(s, x) in s && PrevCyclic(s, NextCyclic(s, x)) == x
  {
    var i := IndexOf(s, x);
    var p := if i == 0 then |s| - 1 else i - 1;
    var q := if i == |s| - 1 then 0 else i + 1;
    IndexOfDistinct(s, p);
    IndexOfDistinct(s, q);
  }

  /** Reversing twice gives back the original list. */
  lemma ReverseReverse<T>(s: seq<T>)
    ensures Reverse(Reverse(s)) == s
  {
  }

  /** Reversing keeps the members. */
  lemma ReverseMembers<T>(s: seq<T>)
    ensures forall z :: z in Reverse(s) <==> z in s
  {
    forall z ensures z in Reverse(s) <==> z in s {
      if z in s {
        var k :| 0 <= k < |s| && s[k] == z;
        assert Reverse(s)[|s| - 1 - k] == z;
      }
    }
  }

  /** Positions of InsertAfter's result in terms of the original list. */
  lemma InsertAfterAt<T>(s: seq<T>, y: T, a: T)
    requires a in s
    ensures var k := IndexOf(s, a); var r := InsertAfter(s, y, a);
      |r| == |s| + 1 &&
      forall i :: 0 <= i < |r| ==>
        r[i] == if i <= k then s[i] else if i == k + 1 then y else s[i - 1]
  {
    var k := IndexOf(s, a);
    assert InsertAfter(s, y, a) == s[..k + 1] + [y] + s[k + 1..];
  }

  /** Positions of RemoveFirst's result in terms of the original list. */
  lemma RemoveFirstAt<T>(s: seq<T>, y: T)
    requires y in s
    ensures var k := IndexOf(s, y); var r := RemoveFirst(s, y);
      |r| == |s| - 1 &&
      forall i :: 0 <= i < |r| ==> r[i] == if i < k then s[i] else s[i + 1]
  {
  }

  /** Inserting a fresh element behind a present anchor in a list without
      repetitions: the successor of the anchor becomes the new element, the
      new element inherits the anchor's old successor, every other successor
      is unchanged. */
  lemma InsertAfterNext<T>(s: seq<T>, y: T, a: T)
    requires Distinct(s) && a in s && y !in s
    ensures var r := InsertAfter(s, y, a);
      && Distinct(r)
      && (forall z :: z in r <==> z in s || z == y)
      && NextCyclic(r, a) == y
      && NextCyclic(r, y) == NextCyclic(s, a)
      && (forall z :: z in s && z != a ==> NextCyclic(r, z) == NextCyclic(s, z))
  {
    var k := IndexOf(s, a);
    var r := InsertAfter(s, y, a);
    InsertAfterAt(s, y, a);
    forall i, j | 0 <= i < j < |r| ensures r[i] != r[j] {
    }
    assert Distinct(r);
    forall z ensures z in r <==> z in s || z == y {
      if z in s {
        var j := IndexOf(s, z);
        assert r[if j <= k then j else j + 1] == z;
      }
    }
    IndexOfDistinct(r, k);
    IndexOfDistinct(r, k + 1);
    forall z | z in s && z != a ensures NextCyclic(r, z) == NextCyclic(s, z) {
      InsertAfterNextOther(s, y, a, IndexOf(s, z));
    }
  }

  /** Inserting behind one element leaves the successor of any other
      element unchanged. */
  lemma InsertAfterKeeps<T>(s: seq<T>, y: T, a: T, t: T)
    requires Distinct(s) && a in s && y !in s && t in s && t != a
    ensures t in InsertAfter(s, y, a)
    ensures NextCyclic(InsertAfter(s, y, a), t) == NextCyclic(s, t)
  {
    InsertAfterNext(s, y, a);
  }

  lemma InsertAfterNextOther<T>(s: seq<T>, y: T, a: T, j: int)
    requires Distinct(s) && a in s && y !in s && Distinct(InsertAfter(s, y, a))
    requires 0 <= j < |s| && s[j] != a
    ensures NextCyclic(InsertAfter(s, y, a), s[j]) == NextCyclic(s, s[j])
  {
    var k := IndexOf(s, a);
    var r := InsertAfter(s, y, a);
    InsertAfterAt(s, y, a);
    IndexOfDistinct(s, j);
    var j' := if j <= k then j else j + 1;
    assert r[j'] == s[j];
    IndexOfDistinct(r, j');
  }

  /** Removing a present element from a list without repetitions (of length
      at least two): its predecessor now leads to its old successor, every
      other successor is unchanged. */
  lemma RemoveFirstNext<T>(s: seq<T>, y: T)
    requires Distinct(s) && y in s && |s| >= 2
    ensures var r := RemoveFirst(s, y);
      && Distinct(r) && |r| == |s| - 1
      && (forall z :: z in r <==> z in s && z != y)
      && (forall z :: z in r ==>
            NextCyclic(r, z) == if NextCyclic(s, z) == y then NextCyclic(s, y) else NextCyclic(s, z))
  {
    var k := IndexOf(s, y);
    var r := RemoveFirst(s, y);
    RemoveFirstAt(s, y);
    forall i, j | 0 <= i < j < |r| ensures r[i] != r[j] {
    }
    assert Distinct(r);
    forall z ensures z in r <==> z in s && z != y {
      if z in s && z != y {
        var j := IndexOf(s, z);
        assert r[if j < k then j else j - 1] == z;
      }
    }
    forall z | z in r
      ensures NextCyclic(r, z) == if NextCyclic(s, z) == y then NextCyclic(s, y) else NextCyclic(s, z)
    {
      RemoveFirstNextAt(s, y, IndexOf(s, z));
    }
  }

  lemma RemoveFirstNextAt<T>(s: seq<T>, y: T, j: int)
    requires Distinct(s) && y in s && |s| >= 2 && Distinct(RemoveFirst(s, y))
    requires 0 <= j < |s| && s[j] != y
    ensures var r := RemoveFirst(s, y); var z := s[j];
      NextCyclic(r, z) == if NextCyclic(s, z) == y then NextCyclic(s, y) else NextCyclic(s, z)
  {
    var k := IndexOf(s, y);
    var r := RemoveFirst(s, y);
    RemoveFirstAt(s, y);
    IndexOfDistinct(s, j);
    IndexOfDistinct(s, k);
    var j' := if j < k then j else j - 1;
    assert r[j'] == s[j];
    IndexOfDistinct(r, j');
  }

  /** In a list without repetitions and with two or more entries, no
      entry is its own successor. */
  lemma NextCyclicMoves<T>(s: seq<T>, a: T)
    requires Distinct(s) && a in s && |s| >= 2
    ensures NextCyclic(s, a) != a
  {
    var i := IndexOf(s, a);
    var j := if i == |s| - 1 then 0 else i + 1;
    assert j != i;
  }

  /** In a list without repetitions and with three or more entries, no two
      entries are each other's successors. */
  lemma NextCyclicNoSwap<T>(s: seq<T>, a: T, b: T)
    requires Distinct(s) && a in s && b in s && |s| >= 3
    requires NextCyclic(s, a) == b
    ensures NextCyclic(s, b) != a
  {
    var i, j := IndexOf(s, a), IndexOf(s, b);
    var i' := if i == |s| - 1 then 0 else i + 1;
    var j' := if j == |s| - 1 then 0 else j + 1;
    assert s[i'] == s[j];
    assert i' == j;
    assert j' != i;
  }

  lemma NextCyclicTwo<T>(a: T, b: T)
    requires a != b
    ensures Distinct([a, b])
    ensures NextCyclic([a, b], a) == b
    ensures NextCyclic([a, b], b) == a
  {
    var s := [a, b];
    IndexOfDistinct(s, 0);
    IndexOfDistinct(s, 1);
  }

  /** Successors in a three-element list without repetitions. */
  lemma NextCyclicThree<T>(a: T, b: T, c: T)
    requires a != b && b != c && a != c
    ensures Distinct([a, b, c])
    ensures NextCyclic([a, b, c], a) == b
    ensures NextCyclic([a, b, c], b) == c
    ensures NextCyclic([a, b, c], c) == a
  {
    var s := [a, b, c];
    IndexOfDistinct(s, 0);
    IndexOfDistinct(s, 1);
    IndexOfDistinct(s, 2);
  }

  /** The members of InsertAfter's result: the old ones and the new one. */
  lemma InsertAfterMembers<T>(s: seq<T>, x: T, after: T)
    ensures forall z :: z in InsertAfter(s, x, after) <==> z in s || z == x
  {
    var i := IndexOf(s, after) + 1;
    assert InsertAfter(s, x, after) == s[..i] + [x] + s[i..];
    assert s == s[..i] + s[i..];
  }

  /** Removing never introduces an entry. */
  lemma RemoveFirstMembers<T>(s: seq<T>, x: T)
    ensures forall z :: z in RemoveFirst(s, x) ==> z in s
  {
    var i := IndexOf(s, x);
    if i != -1 {
      assert s == s[..i] + [s[i]] + s[i + 1..];
    }
  }

  /** Inserting a fresh element keeps a list free of repetitions. */
  lemma InsertAfterDistinct<T>(s: seq<T>, x: T, after: T)
    requires Distinct(s) && x !in s
    ensures Distinct(InsertAfter(s, x, after))
  {
    var i := IndexOf(s, after) + 1;
    var r := InsertAfter(s, x, after);
    assert r == s[..i] + [x] + s[i..];
    forall p, q | 0 <= p < q < |r| ensures r[p] != r[q] {
      if p < i && q == i {
        assert r[p] == s[p];
      } else if p == i {
        assert r[q] == s[q - 1];
      } else if q < i {
        assert r[p] == s[p] && r[q] == s[q];
      } else if p < i {
        assert r[p] == s[p] && r[q] == s[q - 1];
      } else {
        assert r[p] == s[p - 1] && r[q] == s[q - 1];
      }
    }
  }
  /** In a list without repetitions two entries with the same successor
      are the same entry. */
  lemma NextCyclicInjective<T>(s: seq<T>, a: T, b: T)
    requires Distinct(s) && a in s && b in s && NextCyclic(s, a) == NextCyclic(s, b)
    ensures a == b
  {
    NextOfPrev(s, a);
    NextOfPrev(s, b);
  }

  /** A list of three entries without repetitions is a 3-cycle: two steps
      from `x` lead to `z`, and the third back to `x`. */
  lemma ThreeCycle<T>(s: seq<T>, x: T, y: T, z: T)
    requires Distinct(s) && |s| == 3 && x in s
    requires NextCyclic(s, x) == y && NextCyclic(s, y) == z
    ensures NextCyclic(s, z) == x
  {
    assert s == [s[0], s[1], s[2]];
    NextCyclicThree(s[0], s[1], s[2]);
  }

  /** Three distinct members of a three-entry list are all its members. */
  lemma ThreeMembers<T>(s: seq<T>, a: T, b: T, c: T)
    requires |s| == 3 && a in s && b in s && c in s && a != b && b != c && a != c
    ensures forall z :: z in s <==> z == a || z == b || z == c
  {
    assert s == [s[0], s[1], s[2]];
  }

  /** Two steps that lead back to the start close a cycle of length at
      most two. */
  lemma NextCyclicTwoSteps<T>(s: seq<T>, a: T)
    requires Distinct(s) && a in s && NextCyclic(s, NextCyclic(s, a)) == a
    ensures |s| <= 2
  {
    var i := IndexOf(s, a);
    var j := if i == |s| - 1 then 0 else i + 1;
    IndexOfDistinct(s, j);
    var k := if j == |s| - 1 then 0 else j + 1;
    assert s[k] == a;
  }

  /** Inserting a fresh entry behind `a` never makes `q` the successor of
      `p` when it was not, and it separates `a` from its old successor. */
  lemma InsertAfterApart<T>(s: seq<T>, z: T, a: T, p: T, q: T)
    requires Distinct(s) && a in s && z !in s && p in s && q != z
    requires p == a || NextCyclic(s, p) != q
    ensures p in InsertAfter(s, z, a) && NextCyclic(InsertAfter(s, z, a), p) != q
  {
    InsertAfterNext(s, z, a);
  }
}
