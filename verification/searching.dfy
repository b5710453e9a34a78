/** Iterative binary search over a sequence (`binary_search` in algorithms.py). */
module Searching {
  import opened Ordering

  /** The result meaning "target is not present". */
  const NotFound := -1

  /**
   * Narrows the closed window [left, right] around the midpoint until the
   * midpoint holds `target` or the window is empty. Python's `//` floors;
   * `left + right` is never negative here, so Dafny's `/` agrees with it.
   * Any returned index holds `target`, whether or not `arr` is sorted; on a
   * sorted `arr` the search misses only when `target` is absent.
   */
  method BinarySearch(arr: seq<int>, target: int) returns (r: int)
    ensures r == NotFound || (0 <= r < |arr| && arr[r] == target)
    ensures Sorted(arr) ==> (r == NotFound <==> target !in arr)
  {
    var left, right := 0, |arr| - 1;
    while left <= right
      invariant 0 <= left <= right + 1 <= |arr|
      invariant Sorted(arr) ==> forall i :: 0 <= i < left ==> arr[i] < target
      invariant Sorted(arr) ==> forall i :: right < i < |arr| ==> target < arr[i]
      decreases right - left
    {
      var mid := (left + right) / 2;
      assert left <= mid <= right;
      if arr[mid] == target {
        return mid;
      } else if arr[mid] < target {
        left := mid + 1;
      } else {
        right := mid - 1;
      }
    }
    return NotFound;
  }
}
