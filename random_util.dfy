/** `java.util.Random` as the generators use it.  The generator's internal
    arithmetic is not modelled: a `Random` hands out the entries of an
    arbitrary stream of draws, one per call, and `nextInt(bound)` reduces
    the current entry into `[0, bound)`.  Every property proved about a
    caller therefore holds for every seed. */
module JavaRandom {
  import opened Exceptions

  class Random {
    /** The raw values the generator yields, in order. */
    const draws: nat -> nat
    /** How many values have been drawn so far. */
    var position: nat

    /** `new Random(seed)`: the seed is represented by the stream it
        determines. */
    constructor(draws: nat -> nat)
      ensures this.draws == draws && position == 0
    {
      this.draws := draws;
      position := 0;
    }

    /** `nextInt(bound)`: a value in `[0, bound)`; a bound that is not
        positive throws IllegalArgumentException without drawing. */
    method NextInt(bound: int) returns (r: Result<nat>)
      modifies this
      ensures bound <= 0 ==> r == Throw(IllegalArgument) && position == old(position)
      ensures bound > 0 ==> r == Ok(draws(old(position)) % bound) && position == old(position) + 1
      ensures r.Ok? ==> r.value < bound
    {
      if bound <= 0 {
        return Throw(IllegalArgument);
      }
      r := Ok(draws(position) % bound);
      position := position + 1;
    }
  }
}

/** `RandomUtil`: an integer from a range that avoids one value, and a
    Fisher-Yates permutation. */
module RandomUtil {
  import opened Exceptions
  import opened JavaRandom

  /** What `randomIntUnequalTo(least, bound, not, random)` returns when the
      generator's next raw draw is `d`.  When `not` lies outside
      `[least, bound)` the draw ranges over the whole interval; otherwise
      over one value fewer, and results from `not` on move up by one.  An
      empty range to draw from throws IllegalArgumentException. */
  function UnequalTo(least: int, bound: int, not: int, d: nat): (r: Result<int>)
    ensures r.Ok? <==> bound > least && (least <= not < bound ==> bound - least >= 2)
    ensures r.Ok? ==> least <= r.value < bound && r.value != not
    ensures !r.Ok? ==> r == Throw(IllegalArgument)
  {
    if least > not || bound <= not then
      if bound - least <= 0 then Throw(IllegalArgument)
      else Ok(least + d % (bound - least))
    else
      if bound - least - 1 <= 0 then Throw(IllegalArgument)
      else
        var value := least + d % (bound - least - 1);
        Ok(if value >= not then value + 1 else value)
  }

  /** Every admissible value is reachable: each `w` in `[least, bound)`
      other than `not` is the result of some draw below the range size. */
  lemma UnequalToCovers(least: int, bound: int, not: int, w: int) returns (d: nat)
    requires bound > least && (least <= not < bound ==> bound - least >= 2)
    requires least <= w < bound && w != not
    ensures d < bound - least
    ensures UnequalTo(least, bound, not, d) == Ok(w)
  {
    if least > not || bound <= not {
      d := w - least;
      SmallMod(d, bound - least);
    } else {
      d := if w < not then w - least else w - least - 1;
      SmallMod(d, bound - least - 1);
    }
  }

  lemma SmallMod(d: nat, n: int)
    requires d < n
    ensures d % n == d
  {
  }

  /** `randomIntUnequalTo(least, bound, not, random)`: one call of
      `nextInt`, on the interval size, or one less when `not` is inside. */
  method RandomIntUnequalTo(least: int, bound: int, not: int, random: Random) returns (r: Result<int>)
    modifies random
    ensures r == UnequalTo(least, bound, not, random.draws(old(random.position)))
    ensures r.Ok? ==> least <= r.value < bound && r.value != not
  {
    if least > not || bound <= not {
      var d := random.NextInt(bound - least);
      if d.Throw? {
        return Throw(d.exception);
      }
      return Ok(least + d.value);
    } else {
      var d := random.NextInt(bound - least - 1);
      if d.Throw? {
        return Throw(d.exception);
      }
      var value := least + d.value;
      return Ok(if value >= not then value + 1 else value);
    }
  }

  /** `0, 1, ..., k - 1`. */
  function Iota(k: nat): (s: seq<int>)
    ensures |s| == k && forall i :: 0 <= i < k ==> s[i] == i
  {
    if k == 0 then [] else Iota(k - 1) + [k - 1]
  }

  /** A sequence with the multiset of `Iota(k)` lists each of `0 .. k - 1`
      exactly once. */
  lemma PermutationOfIota(s: seq<int>, k: nat)
    requires multiset(s) == multiset(Iota(k))
    ensures |s| == k
    ensures forall v :: 0 <= v < k <==> v in s
    ensures forall i, j :: 0 <= i < j < |s| ==> s[i] != s[j]
  {
    assert |s| == |multiset(s)| == |multiset(Iota(k))| == k;
    forall v ensures 0 <= v < k <==> v in s {
      assert v in s <==> v in multiset(s);
      assert 0 <= v < k ==> Iota(k)[v] == v;
      assert v in Iota(k) ==> 0 <= v < k;
    }
    forall i, j | 0 <= i < j < |s| ensures s[i] != s[j] {
      RepeatCounts(s, i, j);
      IotaOnce(k, s[i]);
    }
  }

  /** An entry listed at two positions occurs at least twice. */
  lemma RepeatCounts(s: seq<int>, i: nat, j: nat)
    requires i < j < |s|
    ensures s[i] == s[j] ==> multiset(s)[s[i]] >= 2
  {
    assert s == s[..i] + [s[i]] + s[i + 1..j] + [s[j]] + s[j + 1..];
  }

  /** Every value occurs at most once in `Iota(k)`. */
  lemma {:induction false} IotaOnce(k: nat, v: int)
    ensures multiset(Iota(k))[v] <= 1
  {
    if k > 0 {
      IotaOnce(k - 1, v);
      var s := Iota(k - 1);
      assert Iota(k) == s + [k - 1];
      assert multiset(Iota(k)) == multiset(s) + multiset{k - 1};
      assert k - 1 !in s;
    }
  }

  /** `new int[k]` filled with `0 .. k - 1`. */
  method Identity(k: nat) returns (a: array<int>)
    ensures fresh(a) && a[..] == Iota(k)
  {
    a := new int[k];
    var j := 0;
    while j < a.Length
      invariant 0 <= j <= k
      invariant forall i :: 0 <= i < j ==> a[i] == i
    {
      a[j] := j;
      j := j + 1;
    }
  }

  /** Exchanges two entries, keeping the multiset of entries. */
  method Swap(a: array<int>, i: nat, j: nat)
    requires i < a.Length && j < a.Length
    modifies a
    ensures a[..] == old(a[..])[i := old(a[j])][j := old(a[i])]
    ensures multiset(a[..]) == multiset(old(a[..]))
  {
    var tmp := a[i];
    a[i] := a[j];
    a[j] := tmp;
  }

  /** The Fisher-Yates loop of `randomPermutation`: each position `j`,
      from the last down, is swapped with a drawn position at or below it;
      the entries only change places. */
  method Shuffle(a: array<int>, random: Random)
    modifies a, random
    ensures multiset(a[..]) == multiset(old(a[..]))
  {
    var j := a.Length - 1;
    while j >= 0
      invariant -1 <= j < a.Length
      invariant multiset(a[..]) == multiset(old(a[..]))
    {
      var target := random.NextInt(j + 1);
      Swap(a, j, target.value);
      j := j - 1;
    }
  }

  /** `randomPermutation(k, random)`: `0 .. k - 1`, shuffled.  The result
      lists each of `0 .. k - 1` exactly once. */
  method RandomPermutation(k: nat, random: Random) returns (permutation: array<int>)
    modifies random
    ensures fresh(permutation) && permutation.Length == k
    ensures multiset(permutation[..]) == multiset(Iota(k))
    ensures forall v :: 0 <= v < k <==> v in permutation[..]
    ensures forall i, j :: 0 <= i < j < k ==> permutation[i] != permutation[j]
  {
    permutation := Identity(k);
    Shuffle(permutation, random);
    PermutationOfIota(permutation[..], k);
  }

  /** `Collections.shuffle(list, random)` on a random-access list: each
      position `i - 1`, from the last down to position 1, is swapped with a
      drawn position below `i`.  The result is a rearrangement of the list. */
  method ShuffleList(s: seq<int>, random: Random) returns (r: seq<int>)
    modifies random
    ensures |r| == |s| && multiset(r) == multiset(s)
  {
    r := s;
    var i := |r|;
    while i > 1
      invariant 0 <= i <= |r| && |r| == |s|
      invariant multiset(r) == multiset(s)
    {
      var target := random.NextInt(i);
      SwapKeeps(r, i - 1, target.value);
      r := r[i - 1 := r[target.value]][target.value := r[i - 1]];
      i := i - 1;
    }
  }

  /** Exchanging two entries of a sequence keeps its multiset. */
  lemma SwapKeeps(s: seq<int>, i: nat, j: nat)
    requires i < |s| && j < |s|
    ensures multiset(s[i := s[j]][j := s[i]]) == multiset(s)
  {
    if i != j {
      var t := s[i := s[j]];
      assert multiset(t) == multiset(s) - multiset{s[i]} + multiset{s[j]};
    }
  }
}
