/**
 The in-place Fisher-Yates shuffle the uploader applies to the directory
 listing before filtering it.

 `Math.random()` is modelled as a stream of draws: the k-th call returns
 `draws(k)`, a real number in [0, 1). Nothing is claimed about how the draws
 are distributed. The shuffle itself is stated over an index source
 `index(k, bound)`, the cell the k-th draw selects among `bound` cells, so
 that its proofs do not involve real arithmetic.
 */
module Shuffle {

  /** A value `Math.random()` may return. */
  type Draw = r: real | 0.0 <= r < 1.0

  /** `Math.floor(r * bound)`: the index a draw selects among `bound` cells. */
  function RandomIndex(r: Draw, bound: nat): (j: nat)
    requires bound > 0
    ensures j < bound
  {
    assert r * bound as real < bound as real;
    (r * bound as real).Floor
  }

  /** Every index the source selects lies among the cells it selects from. */
  ghost predicate Bounded(index: (nat, nat) -> nat) {
    forall k, bound :: 0 < bound ==> index(k, bound) < bound
  }

  /** The index source of a stream of `Math.random()` results. */
  function FromDraws(draws: nat -> Draw): (index: (nat, nat) -> nat)
  {
    (k: nat, bound: nat) => if bound == 0 then 0 else RandomIndex(draws(k), bound)
  }

  lemma FromDrawsBounded(draws: nat -> Draw)
    ensures Bounded(FromDraws(draws))
  {
    var index := FromDraws(draws);
    forall k: nat, bound: nat | 0 < bound ensures index(k, bound) < bound {
      var j := RandomIndex(draws(k), bound);
      assert index(k, bound) == j;
    }
  }

  /** Exchanges cells `i` and `j`. */
  function Swap<T>(s: seq<T>, i: nat, j: nat): (t: seq<T>)
    requires i < |s| && j < |s|
    ensures |t| == |s| && t[i] == s[j] && t[j] == s[i]
    ensures forall k :: 0 <= k < |s| && k != i && k != j ==> t[k] == s[k]
  {
    s[i := s[j]][j := s[i]]
  }

  /**
   The shuffle from position `i` down: swap cell `i` with the cell that draw
   number `|s| - 1 - i` selects among cells 0..i, then go on with `i - 1`,
   until `i` reaches 0. The cells above `i` are already in their final place.
   */
  function ShuffleDown<T>(s: seq<T>, i: int, index: (nat, nat) -> nat): (t: seq<T>)
    requires Bounded(index) && -1 <= i < |s|
    ensures |t| == |s|
    decreases i
  {
    if i <= 0 then s
    else ShuffleDown(Swap(s, i, index(|s| - 1 - i, i + 1)), i - 1, index)
  }

  /** What `_shuffleArray` makes of `s` with the given draws. */
  function Shuffled<T>(s: seq<T>, index: (nat, nat) -> nat): (t: seq<T>)
    requires Bounded(index)
    ensures |t| == |s|
    ensures |s| <= 1 ==> t == s
  {
    ShuffleDown(s, |s| - 1, index)
  }

  /** A swap only moves elements around. */
  lemma SwapPermutes<T>(s: seq<T>, i: nat, j: nat)
    requires i < |s| && j < |s|
    ensures multiset(Swap(s, i, j)) == multiset(s)
  {
  }

  /**
   Every step of the shuffle is a permutation that leaves the cells above
   `i` untouched; with nothing left to swap, the sequence stays as it is.
   */
  lemma {:induction false} ShuffleDownPermutes<T>(s: seq<T>, i: int, index: (nat, nat) -> nat)
    requires Bounded(index) && -1 <= i < |s|
    ensures multiset(ShuffleDown(s, i, index)) == multiset(s)
    ensures ShuffleDown(s, i, index)[i + 1..] == s[i + 1..]
    ensures i <= 0 ==> ShuffleDown(s, i, index) == s
    decreases i
  {
    if i > 0 {
      var swapped := Swap(s, i, index(|s| - 1 - i, i + 1));
      SwapPermutes(s, i, index(|s| - 1 - i, i + 1));
      ShuffleDownPermutes(swapped, i - 1, index);
      assert swapped[i + 1..] == s[i + 1..];
    }
  }

  /**
   The shuffle is a permutation of the listing, whatever the draws, and a
   listing of zero or one path is left as it is.
   */
  lemma ShuffledPermutes<T>(s: seq<T>, index: (nat, nat) -> nat)
    requires Bounded(index)
    ensures multiset(Shuffled(s, index)) == multiset(s)
    ensures |s| <= 1 ==> Shuffled(s, index) == s
  {
    ShuffleDownPermutes(s, |s| - 1, index);
  }

  /** `[ array[i], array[j] ] = [ array[j], array[i] ]` */
  method SwapCells<T>(a: array<T>, i: nat, j: nat)
    requires i < a.Length && j < a.Length
    modifies a
    ensures a[..] == Swap(old(a[..]), i, j)
  {
    a[i], a[j] := a[j], a[i];
  }

  /**
   `_shuffleArray`: for i from the last index down to 1, swap cell i with
   the cell the next draw selects among cells 0..i.
   */
  method ShuffleArray<T>(a: array<T>, index: (nat, nat) -> nat)
    requires Bounded(index)
    modifies a
    ensures a[..] == Shuffled(old(a[..]), index)
    ensures multiset(a[..]) == multiset(old(a[..]))
    ensures a.Length <= 1 ==> a[..] == old(a[..])
  {
    var i := a.Length - 1;
    while i > 0
      invariant -1 <= i < a.Length
      invariant ShuffleDown(a[..], i, index) == Shuffled(old(a[..]), index)
    {
      var j := index(a.Length - 1 - i, i + 1);
      SwapCells(a, i, j);
      i := i - 1;
    }
    ShuffledPermutes(old(a[..]), index);
  }
}
