/**
 * Binary search of DSA.py over a list of integers: the interval
 * `[low, high]` is halved around `mid = (low + high) // 2` until `x` is
 * found at `mid` or the interval is empty.
 */
module Searching {
  import opened Ordering

  /**
   * Returns an index holding `x`, or -1. On a sorted input -1 means that
   * `x` does not occur at all; on an unsorted one it promises nothing.
   */
  method BinarySearch(a: seq<int>, x: int) returns (r: int)
    ensures r == -1 || (0 <= r < |a| && a[r] == x)
    ensures SortedBy(Id, a) && x in a ==> r != -1
  {
    var low, high := 0, |a| - 1;
    while low <= high
      invariant 0 <= low <= |a| && -1 <= high < |a|
      invariant SortedBy(Id, a) ==> forall p :: 0 <= p < |a| && a[p] == x ==> low <= p <= high
      decreases high - low
    {
      // low + high is not negative here, so `/` agrees with Python's `//`
      var mid := (low + high) / 2;
      if a[mid] == x {
        return mid;
      } else if a[mid] < x {
        low := mid + 1;
      } else {
        high := mid - 1;
      }
    }
    return -1;
  }

  /** The search of DSA.py's example: 10 is found at index 3 of [2, 3, 4, 10, 40]. */
  method SearchExample() returns (r: int)
    ensures r == 3
  {
    var a := [2, 3, 4, 10, 40];
    assert a[3] == 10;
    r := BinarySearch(a, 10);
  }

  /** A value missing from the list is reported as -1. */
  method SearchMissing() returns (r: int)
    ensures r == -1
  {
    r := BinarySearch([2, 3, 4, 10, 40], 99);
  }
}
