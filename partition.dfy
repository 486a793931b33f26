/**
 * `partition_in_place`: a two-pointer loop that swaps the elements
 * satisfying a predicate to the front of a slice and returns the index of
 * the first element that does not satisfy it.
 */
module Partitions {

  /**
   * The loop from the state `(s, lo, hi)` to its end, and the index returned
   * after it. Both pointers stay inside the list; `lo` may pass `hi` by one
   * after a swap of neighbours.
   */
  function Scan<T>(s: seq<T>, lo: nat, hi: nat, p: T -> bool): (r: (seq<T>, nat))
    requires lo <= hi + 1 && hi < |s| && lo < |s|
    ensures |r.0| == |s|
    decreases hi + 1 - lo
  {
    if lo < hi then
      if p(s[lo]) then Scan(s, lo + 1, hi, p)
      else if !p(s[hi]) then Scan(s, lo, hi - 1, p)
      else Scan(s[lo := s[hi]][hi := s[lo]], lo + 1, hi - 1, p)
    else
      (s, if p(s[lo]) then lo + 1 else lo)
  }

  /** The list after `partition_in_place(list, p)` and the index it returns. */
  function Partition<T>(s: seq<T>, p: T -> bool): (r: (seq<T>, nat))
    ensures |r.0| == |s|
  {
    if |s| == 0 then (s, 0) else Scan(s, 0, |s| - 1, p)
  }

  /** `i` splits `t`: every element before it satisfies `p`, none at or after it does. */
  predicate SplitAt<T>(t: seq<T>, i: nat, p: T -> bool)
  {
    i <= |t| && (forall k :: 0 <= k < i ==> p(t[k])) && (forall k :: i <= k < |t| ==> !p(t[k]))
  }

  /** The loop only swaps, so the list stays a permutation of its input. */
  lemma {:induction false} ScanPermutes<T>(s: seq<T>, lo: nat, hi: nat, p: T -> bool)
    requires lo <= hi + 1 && hi < |s| && lo < |s|
    ensures multiset(Scan(s, lo, hi, p).0) == multiset(s)
    decreases hi + 1 - lo
  {
    if lo < hi {
      if p(s[lo]) {
        ScanPermutes(s, lo + 1, hi, p);
      } else if !p(s[hi]) {
        ScanPermutes(s, lo, hi - 1, p);
      } else {
        var s' := s[lo := s[hi]][hi := s[lo]];
        ScanPermutes(s', lo + 1, hi - 1, p);
        assert multiset(s[lo := s[hi]]) == multiset(s) - multiset{s[lo]} + multiset{s[hi]};
      }
    }
  }

  /**
   * Everything left of `lo` satisfies `p` and everything right of `hi` does
   * not; the loop keeps that, so the index it returns splits the list.
   */
  lemma {:induction false} ScanSplits<T>(s: seq<T>, lo: nat, hi: nat, p: T -> bool)
    requires lo <= hi + 1 && hi < |s| && lo < |s|
    requires forall k :: 0 <= k < lo ==> p(s[k])
    requires forall k :: hi < k < |s| ==> !p(s[k])
    ensures SplitAt(Scan(s, lo, hi, p).0, Scan(s, lo, hi, p).1, p)
    decreases hi + 1 - lo
  {
    if lo < hi {
      if p(s[lo]) {
        ScanSplits(s, lo + 1, hi, p);
      } else if !p(s[hi]) {
        ScanSplits(s, lo, hi - 1, p);
      } else {
        var s' := s[lo := s[hi]][hi := s[lo]];
        ScanSplits(s', lo + 1, hi - 1, p);
      }
    }
  }

  /** A partitioned list is a permutation of the input, split by the returned index. */
  lemma PartitionCorrect<T>(s: seq<T>, p: T -> bool)
    ensures multiset(Partition(s, p).0) == multiset(s)
    ensures SplitAt(Partition(s, p).0, Partition(s, p).1, p)
    ensures |s| == 0 ==> Partition(s, p) == (s, 0)
  {
    if |s| > 0 {
      ScanPermutes(s, 0, |s| - 1, p);
      ScanSplits(s, 0, |s| - 1, p);
    }
  }

  /** Over a list already split at `j`, the loop never swaps and stops at `j`. */
  lemma {:induction false} ScanKeepsSplit<T>(s: seq<T>, lo: nat, hi: nat, j: nat, p: T -> bool)
    requires lo <= hi + 1 && hi < |s| && lo < |s|
    requires SplitAt(s, j, p) && lo <= j <= hi + 1
    ensures Scan(s, lo, hi, p) == (s, j)
    decreases hi + 1 - lo
  {
    if lo < hi {
      if p(s[lo]) {
        ScanKeepsSplit(s, lo + 1, hi, j, p);
      } else {
        ScanKeepsSplit(s, lo, hi - 1, j, p);
      }
    }
  }

  /**
   * A list whose `p`-elements already come first is left unchanged, and the
   * index is where they end; in particular, if `p` holds everywhere the
   * index is the length.
   */
  lemma PartitionKeepsSplit<T>(s: seq<T>, j: nat, p: T -> bool)
    requires SplitAt(s, j, p)
    ensures Partition(s, p) == (s, j)
  {
    if |s| > 0 {
      ScanKeepsSplit(s, 0, |s| - 1, j, p);
    }
  }

  lemma PartitionAll<T>(s: seq<T>, p: T -> bool)
    requires forall k :: 0 <= k < |s| ==> p(s[k])
    ensures Partition(s, p) == (s, |s|)
  {
    PartitionKeepsSplit(s, |s|, p);
  }

  /** `partition_in_place`: the loop over the slice, swapping in place. */
  method PartitionInPlace<T>(list: array<T>, p: T -> bool) returns (i: nat)
    modifies list
    ensures (list[..], i) == Partition(old(list[..]), p)
  {
    if list.Length == 0 {
      return 0;
    }
    var lo: nat, hi: nat := 0, list.Length - 1;
    while lo < hi
      invariant lo <= hi + 1 && hi < list.Length && lo < list.Length
      invariant Scan(list[..], lo, hi, p) == Partition(old(list[..]), p)
      decreases hi + 1 - lo
    {
      if p(list[lo]) {
        lo := lo + 1;
        continue;
      }
      if !p(list[hi]) {
        hi := hi - 1;
        continue;
      }
      list[lo], list[hi] := list[hi], list[lo];
      lo := lo + 1;
      hi := hi - 1;
    }
    if p(list[lo]) {
      i := lo + 1;
    } else {
      i := lo;
    }
  }

  // ---------------------------------------------------------------------
  // The unit tests of src/quadtree/util.rs, as lemmas
  // ---------------------------------------------------------------------

  predicate Below5(x: int)
  {
    x < 5
  }

  predicate IsOne(x: int)
  {
    x == 1
  }

  /** One swap of the loop, with the swapped list given. */
  lemma SwapStep<T>(s: seq<T>, lo: nat, hi: nat, p: T -> bool, t: seq<T>)
    requires lo < hi < |s| && !p(s[lo]) && p(s[hi])
    requires t == s[lo := s[hi]][hi := s[lo]]
    ensures Scan(s, lo, hi, p) == Scan(t, lo + 1, hi - 1, p)
  {
  }

  lemma PartitionSimple(s: seq<int>)
    requires s == [3, 6, 7, 8, 5, 2, 9, 4, 1, 10]
    ensures Partition(s, Below5) == ([3, 1, 4, 2, 5, 8, 9, 7, 6, 10], 4)
  {
    var t1 := [3, 1, 7, 8, 5, 2, 9, 4, 6, 10];
    var t2 := [3, 1, 4, 8, 5, 2, 9, 7, 6, 10];
    var t3 := [3, 1, 4, 2, 5, 8, 9, 7, 6, 10];
    assert Scan(s, 0, 9, Below5) == Scan(s, 1, 8, Below5);
    SwapStep(s, 1, 8, Below5, t1);
    SwapStep(t1, 2, 7, Below5, t2);
    assert Scan(t2, 3, 6, Below5) == Scan(t2, 3, 5, Below5);
    SwapStep(t2, 3, 5, Below5, t3);
  }

  lemma PartitionSorted(s: seq<int>)
    requires s == [1, 2, 3, 4, 5, 6, 7, 8, 9, 10]
    ensures Partition(s, Below5) == (s, 4)
  {
    PartitionKeepsSplit(s, 4, Below5);
  }

  lemma PartitionTrivialPredicate(s: seq<int>)
    requires s == [3, 6, 7, 8, 5, 2, 9, 4, 1, 10]
    ensures Partition(s, x => x < 11) == (s, 10)
  {
    PartitionAll(s, x => x < 11);
  }

  /** The rows of the `partition_bools` table that need no swap. */
  lemma PartitionBoolsKept()
    ensures Partition([], IsOne) == ([], 0)
    ensures Partition([0], IsOne) == ([0], 0)
    ensures Partition([1], IsOne) == ([1], 1)
    ensures Partition([0, 0], IsOne) == ([0, 0], 0)
    ensures Partition([1, 0], IsOne) == ([1, 0], 1)
    ensures Partition([1, 1], IsOne) == ([1, 1], 2)
  {
  }

  /** The rows of the `partition_bools` table where the loop swaps once. */
  lemma PartitionBoolsSwapped(s1: seq<int>, s2: seq<int>, s3: seq<int>, s4: seq<int>, s5: seq<int>)
    requires s1 == [0, 1] && s2 == [0, 1, 1] && s3 == [0, 1, 1, 1]
    requires s4 == [0, 1, 1, 1, 1, 1] && s5 == [0, 1, 0, 0, 0, 1]
    ensures Partition(s1, IsOne) == ([1, 0], 1)
    ensures Partition(s2, IsOne) == ([1, 1, 0], 2)
    ensures Partition(s3, IsOne) == ([1, 1, 1, 0], 3)
    ensures Partition(s4, IsOne) == ([1, 1, 1, 1, 1, 0], 5)
    ensures Partition(s5, IsOne) == ([1, 1, 0, 0, 0, 0], 2)
  {
    SwapStep(s1, 0, 1, IsOne, [1, 0]);
    SwapStep(s2, 0, 2, IsOne, [1, 1, 0]);
    SwapStep(s3, 0, 3, IsOne, [1, 1, 1, 0]);
    SwapStep(s4, 0, 5, IsOne, [1, 1, 1, 1, 1, 0]);
    SwapStep(s5, 0, 5, IsOne, [1, 1, 0, 0, 0, 0]);
  }
}
