/** The in-place Fisher-Yates shuffle of `shuffleArray`. The random source is
    replaced by `picks`: `picks[k]` is the index drawn at step `k`, below the number
    of still unshuffled cells at that step. */
module Shuffle {

  /** The draws a run on `n` cells makes: one per cell, each below the size of the
      unshuffled prefix it is drawn from. */
  predicate ValidPicks(n: nat, picks: seq<nat>) {
    |picks| == n && forall k :: 0 <= k < n ==> picks[k] < n - k
  }

  /** Exchanges the elements at `i` and `j`. */
  function Swap<T>(s: seq<T>, i: nat, j: nat): (r: seq<T>)
    requires i < |s| && j < |s|
    ensures |r| == |s|
  {
    seq(|s|, k requires 0 <= k < |s| => if k == j then s[i] else if k == i then s[j] else s[k])
  }

  /** The exchanged cells trade places and every other cell keeps its element. */
  lemma SwapSpec<T>(s: seq<T>, i: nat, j: nat)
    requires i < |s| && j < |s|
    ensures Swap(s, i, j)[i] == s[j] && Swap(s, i, j)[j] == s[i]
    ensures forall k :: 0 <= k < |s| && k != i && k != j ==> Swap(s, i, j)[k] == s[k]
  {
  }

  /** An exchange keeps the multiset of elements. */
  lemma SwapPermutes<T>(s: seq<T>, i: nat, j: nat)
    requires i < |s| && j < |s|
    ensures multiset(Swap(s, i, j)) == multiset(s)
  {
    assert Swap(s, i, j) == s[i := s[j]][j := s[i]];
  }

  /** The array after `k` turns of the loop: at turn `k` (from 1) the cell
      `|s| - k` is exchanged with the cell drawn by `picks[k - 1]`. */
  function ShuffleSteps<T>(s: seq<T>, picks: seq<nat>, k: nat): (r: seq<T>)
    requires ValidPicks(|s|, picks) && k <= |s|
    ensures |r| == |s|
  {
    if k == 0 then s else Swap(ShuffleSteps(s, picks, k - 1), |s| - k, picks[k - 1])
  }

  /** Every turn only exchanges two cells, so the loop never loses or duplicates an
      element. */
  lemma {:induction false} ShuffleStepsPermutes<T>(s: seq<T>, picks: seq<nat>, k: nat)
    requires ValidPicks(|s|, picks) && k <= |s|
    ensures multiset(ShuffleSteps(s, picks, k)) == multiset(s)
  {
    if k > 0 {
      var prev := ShuffleSteps(s, picks, k - 1);
      ShuffleStepsPermutes(s, picks, k - 1);
      SwapPermutes(prev, |s| - k, picks[k - 1]);
      assert ShuffleSteps(s, picks, k) == Swap(prev, |s| - k, picks[k - 1]);
    }
  }

  /** The array when the loop ends. */
  function Shuffled<T>(s: seq<T>, picks: seq<nat>): seq<T>
    requires ValidPicks(|s|, picks)
  {
    ShuffleSteps(s, picks, |s|)
  }

  /** The shuffled list is a permutation of the input: same length, same elements
      with the same multiplicities. */
  lemma ShuffledIsPermutation<T>(s: seq<T>, picks: seq<nat>)
    requires ValidPicks(|s|, picks)
    ensures |Shuffled(s, picks)| == |s|
    ensures multiset(Shuffled(s, picks)) == multiset(s)
  {
    ShuffleStepsPermutes(s, picks, |s|);
  }

  /** `shuffleArray`: shuffles `a` in place and returns the same array. */
  method ShuffleArray<T>(a: array<T>, picks: seq<nat>) returns (r: array<T>)
    requires ValidPicks(a.Length, picks)
    modifies a
    ensures r == a
    ensures a[..] == Shuffled(old(a[..]), picks)
    ensures multiset(a[..]) == multiset(old(a[..]))
  {
    ghost var original := a[..];
    var currentIndex := a.Length;
    var step := 0;
    while currentIndex != 0
      invariant 0 <= currentIndex <= a.Length && step == a.Length - currentIndex
      invariant a[..] == ShuffleSteps(original, picks, step)
    {
      var randomIndex := picks[step];
      currentIndex := currentIndex - 1;
      SwapCells(a, currentIndex, randomIndex);
      step := step + 1;
    }
    ShuffledIsPermutation(original, picks);
    r := a;
  }

  /** `[array[i], array[j]] = [array[j], array[i]]`. */
  method SwapCells<T>(a: array<T>, i: nat, j: nat)
    requires i < a.Length && j < a.Length
    modifies a
    ensures a[..] == Swap(old(a[..]), i, j)
  {
    var tmp := a[i];
    a[i] := a[j];
    a[j] := tmp;
  }

  /** A reference definition that reads the same algorithm recursively: the first
      turn fixes the last cell for good, and the rest shuffles the prefix. */
  function FisherYates<T>(s: seq<T>, picks: seq<nat>): (r: seq<T>)
    requires ValidPicks(|s|, picks)
    ensures |r| == |s|
    decreases |s|
  {
    if |s| == 0 then []
    else
      var t := Swap(s, |s| - 1, picks[0]);
      FisherYates(t[..|s| - 1], picks[1..]) + [t[|s| - 1]]
  }

  /** Exchanging two cells of a prefix commutes with appending. */
  lemma SwapAppend<T>(s: seq<T>, e: T, i: nat, j: nat)
    requires i < |s| && j < |s|
    ensures Swap(s + [e], i, j) == Swap(s, i, j) + [e]
  {
  }

  /** After `k >= 1` turns the last cell holds what the first turn put there, and the
      prefix is what `k - 1` turns do to the prefix left by the first turn. */
  lemma {:induction false} ShuffleStepsSplit<T>(s: seq<T>, picks: seq<nat>, k: nat)
    requires ValidPicks(|s|, picks) && 1 <= k <= |s|
    ensures var t := Swap(s, |s| - 1, picks[0]);
      ShuffleSteps(s, picks, k) == ShuffleSteps(t[..|s| - 1], picks[1..], k - 1) + [t[|s| - 1]]
  {
    var n := |s|;
    var t := Swap(s, n - 1, picks[0]);
    if k == 1 {
      assert t[..n - 1] + [t[n - 1]] == t;
    } else {
      ShuffleStepsSplit(s, picks, k - 1);
      var x := ShuffleSteps(t[..n - 1], picks[1..], k - 2);
      SwapAppend(x, t[n - 1], n - k, picks[k - 1]);
    }
  }

  /** The loop computes the reference definition. */
  lemma {:induction false} ShuffledIsFisherYates<T>(s: seq<T>, picks: seq<nat>)
    requires ValidPicks(|s|, picks)
    ensures Shuffled(s, picks) == FisherYates(s, picks)
    decreases |s|
  {
    if |s| > 0 {
      var t := Swap(s, |s| - 1, picks[0]);
      ShuffleStepsSplit(s, picks, |s|);
      ShuffledIsFisherYates(t[..|s| - 1], picks[1..]);
    }
  }

  /** No element occurs twice. */
  ghost predicate Distinct<T>(s: seq<T>) {
    forall i, j :: 0 <= i < j < |s| ==> s[i] != s[j]
  }

  /** On a list of distinct elements different draws give different orders: each
      order comes from exactly one sequence of draws, which is why uniform draws give
      a uniform shuffle. */
  lemma {:induction false} FisherYatesInjective<T>(s: seq<T>, p1: seq<nat>, p2: seq<nat>)
    requires Distinct(s) && ValidPicks(|s|, p1) && ValidPicks(|s|, p2)
    requires FisherYates(s, p1) == FisherYates(s, p2)
    ensures p1 == p2
    decreases |s|
  {
    var n := |s|;
    if n > 0 {
      var t1 := Swap(s, n - 1, p1[0]);
      var t2 := Swap(s, n - 1, p2[0]);
      assert FisherYates(s, p1)[n - 1] == s[p1[0]];
      assert FisherYates(s, p2)[n - 1] == s[p2[0]];
      assert p1[0] == p2[0];
      assert t1 == t2;
      assert FisherYates(t1[..n - 1], p1[1..]) == FisherYates(s, p1)[..n - 1];
      assert FisherYates(t1[..n - 1], p2[1..]) == FisherYates(s, p2)[..n - 1];
      assert Distinct(t1[..n - 1]) by {
        forall i, j | 0 <= i < j < n - 1 ensures t1[i] != t1[j] {
          var a := if i == p1[0] then n - 1 else i;
          var b := if j == p1[0] then n - 1 else j;
          assert t1[i] == s[a] && t1[j] == s[b] && a != b;
        }
      }
      FisherYatesInjective(t1[..n - 1], p1[1..], p2[1..]);
      assert p1 == [p1[0]] + p1[1..] && p2 == [p2[0]] + p2[1..];
    }
  }

  /** The same statement for the loop `shuffleArray` runs. */
  lemma ShuffledInjective<T>(s: seq<T>, p1: seq<nat>, p2: seq<nat>)
    requires Distinct(s) && ValidPicks(|s|, p1) && ValidPicks(|s|, p2)
    requires Shuffled(s, p1) == Shuffled(s, p2)
    ensures p1 == p2
  {
    ShuffledIsFisherYates(s, p1);
    ShuffledIsFisherYates(s, p2);
    FisherYatesInjective(s, p1, p2);
  }
}
