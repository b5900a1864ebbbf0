/**
 * The two sorts of DSA.py side by side: on a list of integers, where
 * equal keys are equal elements, bubble sort and merge sort produce the
 * same list, the one sorted arrangement of the input; and the two
 * demonstration lists of DSA.py come out as that arrangement.
 */
module Sorts {
  import opened Ordering
  import opened BubbleSorting
  import opened MergeSorting

  lemma SortsAgreeOnIntegers(s: seq<int>)
    ensures BubbleSorted(Id, s) == MergeSorted(Id, s)
  {
    BubbleSortedCorrect(Id, s);
    MergeSortedCorrect(Id, s);
    SortedPermutationUnique(BubbleSorted(Id, s), MergeSorted(Id, s));
  }

  /** Bubble sort of integers returns the one sorted arrangement of its input. */
  lemma BubbleSortedIs(s: seq<int>, t: seq<int>)
    requires SortedBy(Id, t) && multiset(s) == multiset(t)
    ensures BubbleSorted(Id, s) == t
  {
    BubbleSortedCorrect(Id, s);
    SortedPermutationUnique(BubbleSorted(Id, s), t);
  }

  /** Merge sort of integers returns the one sorted arrangement of its input. */
  lemma MergeSortedIs(s: seq<int>, t: seq<int>)
    requires SortedBy(Id, t) && multiset(s) == multiset(t)
    ensures MergeSorted(Id, s) == t
  {
    MergeSortedCorrect(Id, s);
    SortedPermutationUnique(MergeSorted(Id, s), t);
  }

  /** A sequence whose neighbours are in order is sorted. */
  lemma {:induction false} AdjacentSorted(t: seq<int>)
    requires forall i :: 0 <= i < |t| - 1 ==> t[i] <= t[i + 1]
    ensures SortedBy(Id, t)
    decreases |t|
  {
    if |t| > 1 {
      AdjacentSorted(t[1..]);
      forall i, j | 0 <= i < j < |t| ensures t[i] <= t[j] {
        if i == 0 && j > 1 {
          assert t[1..][0] <= t[1..][j - 1];
        } else if i > 0 {
          assert t[1..][i - 1] <= t[1..][j - 1];
        }
      }
    }
  }

  /** The bubble sort list of DSA.py holds the same numbers as its sorted arrangement. */
  lemma BubbleExampleSame(s: seq<int>, t: seq<int>)
    requires s == [64, 34, 25, 12, 22, 11, 90] && t == [11, 12, 22, 25, 34, 64, 90]
    ensures multiset(s) == multiset(t)
  {
    BagOfSeven(s);
    BagOfSeven(t);
    BubbleExampleBags();
  }

  /** The numbers of the bubble sort list, in input and in sorted order. */
  lemma BubbleExampleBags()
    ensures multiset{64, 34, 25, 12, 22, 11, 90} == multiset{11, 12, 22, 25, 34, 64, 90}
  {
  }

  /** The merge sort list of DSA.py holds the same numbers as its sorted arrangement. */
  lemma MergeExampleSame(s: seq<int>, t: seq<int>)
    requires s == [38, 27, 43, 3, 9, 82, 10] && t == [3, 9, 10, 27, 38, 43, 82]
    ensures multiset(s) == multiset(t)
  {
    BagOfSeven(s);
    BagOfSeven(t);
    MergeExampleBags();
  }

  /** The numbers of the merge sort list, in input and in sorted order. */
  lemma MergeExampleBags()
    ensures multiset{38, 27, 43, 3, 9, 82, 10} == multiset{3, 9, 10, 27, 38, 43, 82}
  {
  }

  /** The multiset of a seven-element sequence, element by element. */
  lemma BagOfSeven(s: seq<int>)
    requires |s| == 7
    ensures multiset(s) == multiset{s[0], s[1], s[2], s[3], s[4], s[5], s[6]}
  {
    assert s == [s[0], s[1], s[2], s[3], s[4], s[5], s[6]];
  }

  /** The bubble sort demonstration of DSA.py. */
  method BubbleSortExample() returns (r: seq<int>)
    ensures r == [11, 12, 22, 25, 34, 64, 90]
  {
    var a := new int[] [64, 34, 25, 12, 22, 11, 90];
    ghost var s := a[..];
    BubbleSort(a, Id);
    AdjacentSorted([11, 12, 22, 25, 34, 64, 90]);
    BubbleExampleSame(s, [11, 12, 22, 25, 34, 64, 90]);
    BubbleSortedIs(s, [11, 12, 22, 25, 34, 64, 90]);
    r := a[..];
  }

  /** The merge sort demonstration of DSA.py. */
  method MergeSortExample() returns (r: seq<int>)
    ensures r == [3, 9, 10, 27, 38, 43, 82]
  {
    var a := new int[] [38, 27, 43, 3, 9, 82, 10];
    ghost var s := a[..];
    MergeSort(a, Id);
    AdjacentSorted([3, 9, 10, 27, 38, 43, 82]);
    MergeExampleSame(s, [3, 9, 10, 27, 38, 43, 82]);
    MergeSortedIs(s, [3, 9, 10, 27, 38, 43, 82]);
    r := a[..];
  }
}
