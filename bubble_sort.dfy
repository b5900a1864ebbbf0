/**
 * Bubble sort of DSA.py, in place on an array: `n` passes over the
 * array, pass `i` comparing the neighbours at `j` and `j + 1` for every
 * `j < n - i - 1` and exchanging them when the first is strictly greater.
 *
 * `Step`, `Pass` and `Passes` describe the same computation on sequences;
 * the method is proved to follow them, and the lemmas prove what the
 * passes achieve.
 */
module BubbleSorting {
  import opened Ordering

  /** One comparison: exchange positions `j` and `j + 1` when strictly out of order. */
  function Step<T>(key: T -> int, s: seq<T>, j: nat): (r: seq<T>)
    requires j + 1 < |s|
    ensures |r| == |s|
  {
    if key(s[j]) > key(s[j + 1]) then SwapNext(s, j) else s
  }

  /** The first `j` comparisons of a pass, for positions 0 up to `j - 1`. */
  function Pass<T>(key: T -> int, s: seq<T>, j: nat): (r: seq<T>)
    requires j < |s|
    ensures |r| == |s|
  {
    if j == 0 then s else Step(key, Pass(key, s, j - 1), j - 1)
  }

  /** The first `i` passes; pass number `i - 1` stops before position `|s| - i`. */
  function Passes<T>(key: T -> int, s: seq<T>, i: nat): (r: seq<T>)
    requires i <= |s|
    ensures |r| == |s|
  {
    if i == 0 then s else Pass(key, Passes(key, s, i - 1), |s| - i)
  }

  /** The outcome of bubble sort: all `|s|` passes, the last of which is empty. */
  function BubbleSorted<T>(key: T -> int, s: seq<T>): (r: seq<T>)
    ensures |r| == |s|
  {
    Passes(key, s, |s|)
  }

  /** Every element before position `m` has a key at most that of every element from `m` on. */
  ghost predicate Split<T>(key: T -> int, s: seq<T>, m: int) {
    forall p, q :: 0 <= p < m <= q < |s| ==> key(s[p]) <= key(s[q])
  }

  /** The elements from position `m` on are in order. */
  ghost predicate SortedFrom<T>(key: T -> int, s: seq<T>, m: nat) {
    forall p, q :: m <= p < q < |s| ==> key(s[p]) <= key(s[q])
  }

  /**
   * The comparisons of a pass only exchange neighbours with different
   * keys at positions up to `j`: they keep the elements, the order of
   * equal keys, everything after `j`, and any split after `j`.
   */
  lemma {:induction false} PassPermutes<T>(key: T -> int, s: seq<T>, j: nat, m: int)
    requires j < |s| && j < m
    ensures multiset(Pass(key, s, j)) == multiset(s)
    ensures SameKeyOrder(key, Pass(key, s, j), s)
    ensures forall p :: j < p < |s| ==> Pass(key, s, j)[p] == s[p]
    ensures Split(key, s, m) ==> Split(key, Pass(key, s, j), m)
  {
    if j > 0 {
      var t := Pass(key, s, j - 1);
      PassPermutes(key, s, j - 1, m);
      if key(t[j - 1]) > key(t[j]) {
        SwapNextKeepsKeyOrder(key, t, j - 1);
      }
    }
  }

  /** After the first `j` comparisons of a pass, position `j` holds a largest key of `s[..j + 1]`. */
  lemma {:induction false} PassBubblesMax<T>(key: T -> int, s: seq<T>, j: nat)
    requires j < |s|
    ensures forall p :: 0 <= p <= j ==> key(Pass(key, s, j)[p]) <= key(Pass(key, s, j)[j])
  {
    if j > 0 {
      PassBubblesMax(key, s, j - 1);
    }
  }

  /**
   * After `i` passes the last `i` positions hold the largest elements in
   * order, and the sequence is a stable rearrangement of the input.
   */
  lemma {:induction false} PassesInvariant<T>(key: T -> int, s: seq<T>, i: nat)
    requires i <= |s|
    ensures multiset(Passes(key, s, i)) == multiset(s)
    ensures SameKeyOrder(key, Passes(key, s, i), s)
    ensures SortedFrom(key, Passes(key, s, i), |s| - i)
    ensures Split(key, Passes(key, s, i), |s| - i)
  {
    if i > 0 {
      var t := Passes(key, s, i - 1);
      var b := |s| - i;
      var r := Pass(key, t, b);
      PassesInvariant(key, s, i - 1);
      PassPermutes(key, t, b, b + 1);
      PassGrowsSorted(key, t, b);
      assert r == Passes(key, s, i);
    }
  }

  /**
   * A pass up to position `b` over a sequence whose part after `b` is in
   * order and holds its largest elements extends both facts to `b`.
   */
  lemma PassGrowsSorted<T>(key: T -> int, t: seq<T>, b: nat)
    requires b < |t| && SortedFrom(key, t, b + 1) && Split(key, t, b + 1)
    ensures SortedFrom(key, Pass(key, t, b), b) && Split(key, Pass(key, t, b), b)
  {
    var r := Pass(key, t, b);
    PassPermutes(key, t, b, b + 1);
    PassBubblesMax(key, t, b);
    forall p, q | b <= p < q < |r| ensures key(r[p]) <= key(r[q]) {
      if p > b {
        assert r[p] == t[p] && r[q] == t[q];
      }
    }
  }

  /** Bubble sort yields a sorted, stable rearrangement of its input. */
  lemma BubbleSortedCorrect<T>(key: T -> int, s: seq<T>)
    ensures SortedBy(key, BubbleSorted(key, s))
    ensures multiset(BubbleSorted(key, s)) == multiset(s)
    ensures SameKeyOrder(key, BubbleSorted(key, s), s)
  {
    PassesInvariant(key, s, |s|);
  }

  method BubbleSort<T>(a: array<T>, key: T -> int)
    modifies a
    ensures a[..] == BubbleSorted(key, old(a[..]))
    ensures SortedBy(key, a[..])
    ensures multiset(a[..]) == multiset(old(a[..]))
    ensures SameKeyOrder(key, a[..], old(a[..]))
  {
    var n := a.Length;
    var i := 0;
    while i < n
      invariant 0 <= i <= n
      invariant a[..] == Passes(key, old(a[..]), i)
    {
      var j := 0;
      while j < n - i - 1
        invariant 0 <= j <= n - i - 1
        invariant a[..] == Pass(key, Passes(key, old(a[..]), i), j)
      {
        if key(a[j]) > key(a[j + 1]) {
          a[j], a[j + 1] := a[j + 1], a[j];
        }
        j := j + 1;
      }
      i := i + 1;
    }
    BubbleSortedCorrect(key, old(a[..]));
  }
}
