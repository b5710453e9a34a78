/**
 * Non-decreasing order on integer sequences, and the fact that a sequence
 * has exactly one sorted permutation. The latter lets the model treat every
 * correct sort (Python's built-in `sorted`, `quick_sort`) as the same function.
 */
module Ordering {

  /** Every element is at most every later element. */
  predicate Sorted(s: seq<int>) {
    forall i, j :: 0 <= i < j < |s| ==> s[i] <= s[j]
  }

  /** `r` holds the elements of `s`, with their counts, in non-decreasing order. */
  predicate IsSortedPermutation(r: seq<int>, s: seq<int>) {
    Sorted(r) && multiset(r) == multiset(s)
  }

  /** A non-empty sequence holds its head once more than its tail does. */
  lemma TailMultiset(a: seq<int>)
    requires |a| > 0
    ensures multiset(a) == multiset{a[0]} + multiset(a[1..])
    ensures multiset(a[1..]) == multiset(a) - multiset{a[0]}
  {
    assert a == [a[0]] + a[1..];
  }

  /** Sequences with equal heads and equal tails are equal. */
  lemma ConsEqual(a: seq<int>, b: seq<int>)
    requires |a| > 0 && |b| > 0 && a[0] == b[0] && a[1..] == b[1..]
    ensures a == b
  {
    assert a == [a[0]] + a[1..];
    assert b == [b[0]] + b[1..];
  }

  /** Sorted sequences with the same non-empty multiset start with its minimum, hence alike. */
  lemma SameHead(a: seq<int>, b: seq<int>)
    requires Sorted(a) && Sorted(b)
    requires multiset(a) == multiset(b) && |a| > 0
    ensures |b| > 0 && a[0] == b[0]
  {
    assert a[0] in multiset(b);
    var k :| 0 <= k < |b| && b[k] == a[0];
    assert b[0] in multiset(a);
    var m :| 0 <= m < |a| && a[m] == b[0];
    assert a[0] <= a[m] && b[0] <= b[k];
  }

  /** Two sorted sequences with the same elements (counted) are equal. */
  lemma {:induction false} SortedPermutationUnique(a: seq<int>, b: seq<int>)
    requires Sorted(a) && Sorted(b)
    requires multiset(a) == multiset(b)
    ensures a == b
    decreases |a|
  {
    assert |a| == |multiset(a)| == |multiset(b)| == |b|;
    if |a| > 0 {
      SameHead(a, b);
      TailMultiset(a);
      TailMultiset(b);
      SortedPermutationUnique(a[1..], b[1..]);
      ConsEqual(a, b);
    }
  }
}
