/**
 * Three-way quicksort with the middle element as pivot (`quick_sort` in
 * algorithms.py), as a pure function on sequences.
 */
module Sorting {
  import opened Ordering

  /** `[x for x in s if x < pivot]` */
  function Less(s: seq<int>, pivot: int): (r: seq<int>)
    ensures forall x {:trigger x in r} :: x in r <==> x in s && x < pivot
  {
    if |s| == 0 then []
    else (if s[0] < pivot then [s[0]] else []) + Less(s[1..], pivot)
  }

  /** `[x for x in s if x == pivot]` */
  function Same(s: seq<int>, pivot: int): (r: seq<int>)
    ensures forall x {:trigger x in r} :: x in r <==> x in s && x == pivot
  {
    if |s| == 0 then []
    else (if s[0] == pivot then [s[0]] else []) + Same(s[1..], pivot)
  }

  /** `[x for x in s if x > pivot]` */
  function Greater(s: seq<int>, pivot: int): (r: seq<int>)
    ensures forall x {:trigger x in r} :: x in r <==> x in s && x > pivot
  {
    if |s| == 0 then []
    else (if s[0] > pivot then [s[0]] else []) + Greater(s[1..], pivot)
  }

  /** One step of the comprehensions: the head of `s` goes to exactly one of the three parts. */
  lemma PartitionHead(s: seq<int>, pivot: int)
    requires |s| > 0
    ensures multiset(Less(s, pivot)) == multiset(Less(s[1..], pivot)) + (if s[0] < pivot then multiset{s[0]} else multiset{})
    ensures multiset(Same(s, pivot)) == multiset(Same(s[1..], pivot)) + (if s[0] == pivot then multiset{s[0]} else multiset{})
    ensures multiset(Greater(s, pivot)) == multiset(Greater(s[1..], pivot)) + (if s[0] > pivot then multiset{s[0]} else multiset{})
  {
  }

  /** The three comprehensions split `s` exactly: no element lost or repeated. */
  lemma {:induction false} PartitionIsSplit(s: seq<int>, pivot: int)
    ensures multiset(Less(s, pivot)) + multiset(Same(s, pivot)) + multiset(Greater(s, pivot))
         == multiset(s)
  {
    if |s| > 0 {
      var t := s[1..];
      TailMultiset(s);
      PartitionIsSplit(t, pivot);
      PartitionHead(s, pivot);
    }
  }

  /**
   * Neither outer part holds the pivot, so when the pivot is taken from `s`
   * both recursive calls receive strictly shorter sequences.
   */
  lemma PartitionShrinks(s: seq<int>, pivot: int)
    requires pivot in s
    ensures |Less(s, pivot)| < |s| && |Greater(s, pivot)| < |s|
  {
    PartitionIsSplit(s, pivot);
    assert |multiset(Less(s, pivot))| + |multiset(Same(s, pivot))| + |multiset(Greater(s, pivot))|
        == |multiset(s)|;
    assert pivot in Same(s, pivot);
  }

  /** Sorted blocks separated by a pivot value concatenate to a sorted sequence. */
  lemma JoinSorted(lo: seq<int>, mid: seq<int>, hi: seq<int>, pivot: int)
    requires Sorted(lo) && Sorted(hi)
    requires forall x :: x in lo ==> x < pivot
    requires forall x :: x in mid ==> x == pivot
    requires forall x :: x in hi ==> x > pivot
    ensures Sorted(lo + mid + hi)
  {
    var r := lo + mid + hi;
    forall i, j | 0 <= i < j < |r|
      ensures r[i] <= r[j]
    {
      if j < |lo| {
      } else if i < |lo| {
        assert r[i] in lo;
        assert r[j] in mid || r[j] in hi;
      } else if j < |lo| + |mid| {
        assert r[i] in mid && r[j] in mid;
      } else if i < |lo| + |mid| {
        assert r[i] in mid && r[j] in hi;
      } else {
        assert r[i] == hi[i - |lo| - |mid|] && r[j] == hi[j - |lo| - |mid|];
      }
    }
  }

  /**
   * Sorted permutations of the outer parts, concatenated around the pivot
   * block, are in order.
   */
  lemma SortedParts(s: seq<int>, pivot: int, lo: seq<int>, hi: seq<int>)
    requires IsSortedPermutation(lo, Less(s, pivot))
    requires IsSortedPermutation(hi, Greater(s, pivot))
    ensures Sorted(lo + Same(s, pivot) + hi)
  {
    forall x | x in lo ensures x < pivot {
      assert x in multiset(lo);
      assert x in multiset(Less(s, pivot));
      assert x in Less(s, pivot);
    }
    forall x | x in hi ensures x > pivot {
      assert x in multiset(hi);
      assert x in multiset(Greater(s, pivot));
      assert x in Greater(s, pivot);
    }
    JoinSorted(lo, Same(s, pivot), hi, pivot);
  }

  /**
   * `quick_sort`: sequences of length at most one come back unchanged;
   * otherwise the elements below, equal to and above the middle element are
   * gathered, the outer two sorted recursively, and the three concatenated.
   * The result is the input's sorted permutation, duplicates included.
   */
  function QuickSort(s: seq<int>): (r: seq<int>)
    ensures IsSortedPermutation(r, s)
    decreases |s|
  {
    if |s| <= 1 then s
    else
      var pivot := s[|s| / 2];
      PartitionShrinks(s, pivot);
      var lo := QuickSort(Less(s, pivot));
      var hi := QuickSort(Greater(s, pivot));
      SortedParts(s, pivot, lo, hi);
      PartitionIsSplit(s, pivot);
      lo + Same(s, pivot) + hi
  }

  /** Any sorted permutation of `s` is what `QuickSort` returns. */
  lemma QuickSortIsTheSortedPermutation(s: seq<int>, r: seq<int>)
    requires IsSortedPermutation(r, s)
    ensures QuickSort(s) == r
  {
    SortedPermutationUnique(QuickSort(s), r);
  }

  /**
   * A sorted sequence (its own sorted permutation), in particular one of
   * length at most one, comes back from `QuickSort` unchanged.
   */
  lemma QuickSortKeepsSorted(s: seq<int>)
    requires IsSortedPermutation(s, s)
    ensures QuickSort(s) == s
  {
    QuickSortIsTheSortedPermutation(s, s);
  }

  /** Sorting twice is sorting once. */
  lemma QuickSortIdempotent(s: seq<int>)
    ensures QuickSort(QuickSort(s)) == QuickSort(s)
  {
    QuickSortKeepsSorted(QuickSort(s));
  }
}
