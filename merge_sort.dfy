/**
 * Merge sort of DSA.py: an array longer than one element is split at
 * `len / 2` into two copied halves, each half is sorted recursively, and
 * the halves are merged back into the array with the cursors `i`, `j`
 * and `k`. The merge takes the left element only when it is strictly
 * smaller, so of two equal keys the one from the right half goes first.
 */
module MergeSorting {
  import opened Ordering

  /** The merge loop of DSA.py on two sequences, taking from the right on ties. */
  function Merge<T>(key: T -> int, l: seq<T>, r: seq<T>): (m: seq<T>)
    ensures |m| == |l| + |r|
    decreases |l| + |r|
  {
    if l == [] then r
    else if r == [] then l
    else if key(l[0]) < key(r[0]) then [l[0]] + Merge(key, l[1..], r)
    else [r[0]] + Merge(key, l, r[1..])
  }

  /**
   * The merge holds exactly the elements of both halves, and starts with
   * the head of one of them.
   */
  lemma {:induction false} MergePermutes<T>(key: T -> int, l: seq<T>, r: seq<T>)
    ensures |Merge(key, l, r)| == |l| + |r|
    ensures multiset(Merge(key, l, r)) == multiset(l) + multiset(r)
    ensures Merge(key, l, r) != [] ==>
      (l != [] && Merge(key, l, r)[0] == l[0]) || (r != [] && Merge(key, l, r)[0] == r[0])
    decreases |l| + |r|
  {
    if l != [] && r != [] {
      if key(l[0]) < key(r[0]) {
        MergePermutes(key, l[1..], r);
        assert l == [l[0]] + l[1..];
      } else {
        MergePermutes(key, l, r[1..]);
        assert r == [r[0]] + r[1..];
      }
    }
  }

  /** The result of merge sort on `s`. */
  function MergeSorted<T>(key: T -> int, s: seq<T>): (t: seq<T>)
    ensures |t| == |s|
    decreases |s|
  {
    if |s| <= 1 then s
    else
      var mid := |s| / 2;
      Merge(key, MergeSorted(key, s[..mid]), MergeSorted(key, s[mid..]))
  }

  /** Merging two sorted sequences gives a sorted sequence. */
  lemma {:induction false} MergeSortedBy<T>(key: T -> int, l: seq<T>, r: seq<T>)
    requires SortedBy(key, l) && SortedBy(key, r)
    ensures SortedBy(key, Merge(key, l, r))
    decreases |l| + |r|
  {
    if l != [] && r != [] {
      var m := Merge(key, l, r);
      var h, rest := m[0], m[1..];
      if key(l[0]) < key(r[0]) {
        SortedTail(key, l);
        MergeSortedBy(key, l[1..], r);
        MergePermutes(key, l[1..], r);
        assert rest == Merge(key, l[1..], r);
        assert rest != [] ==> key(h) <= key(rest[0]) by {
          if rest != [] && l[1..] != [] && rest[0] == l[1..][0] {
            assert l[1..][0] == l[1];
          }
        }
      } else {
        SortedTail(key, r);
        MergeSortedBy(key, l, r[1..]);
        MergePermutes(key, l, r[1..]);
        assert rest == Merge(key, l, r[1..]);
        assert rest != [] ==> key(h) <= key(rest[0]) by {
          if rest != [] && r[1..] != [] && rest[0] == r[1..][0] {
            assert r[1..][0] == r[1];
          }
        }
      }
      SortedCons(key, h, rest);
      assert m == [h] + rest;
    }
  }

  /**
   * Merge sort yields a sorted rearrangement of its input; an input of
   * at most one element is returned unchanged.
   */
  lemma {:induction false} MergeSortedCorrect<T>(key: T -> int, s: seq<T>)
    ensures SortedBy(key, MergeSorted(key, s))
    ensures multiset(MergeSorted(key, s)) == multiset(s)
    ensures |s| <= 1 ==> MergeSorted(key, s) == s
    decreases |s|
  {
    if |s| > 1 {
      var mid := |s| / 2;
      var l, r := MergeSorted(key, s[..mid]), MergeSorted(key, s[mid..]);
      MergeSortedCorrect(key, s[..mid]);
      MergeSortedCorrect(key, s[mid..]);
      MergeSortedBy(key, l, r);
      MergePermutes(key, l, r);
      assert MergeSorted(key, s) == Merge(key, l, r);
      assert s == s[..mid] + s[mid..];
    }
  }

  /**
   * Merge sort is not stable: of the two elements with key 1, the second
   * ends up first, because the merge takes from the right half on a tie.
   */
  lemma MergeSortedNotStable()
    ensures MergeSorted(FirstOf, [(1, 0), (1, 1)]) == [(1, 1), (1, 0)]
    ensures !SameKeyOrder(FirstOf, MergeSorted(FirstOf, [(1, 0), (1, 1)]), [(1, 0), (1, 1)])
  {
    var s := [(1, 0), (1, 1)];
    assert s[..1] == [(1, 0)] && s[1..] == [(1, 1)];
    assert Merge(FirstOf, [(1, 0)], [(1, 1)]) == [(1, 1)] + Merge(FirstOf, [(1, 0)], []);
    assert KeyFilter(FirstOf, 1, [(1, 1), (1, 0)]) == [(1, 1), (1, 0)];
    assert KeyFilter(FirstOf, 1, s) == [(1, 0), (1, 1)];
  }

  /** The key of a pair is its first component. */
  function FirstOf(p: (int, int)): int { p.0 }

  /** Prepending an element no greater than the head keeps a sequence sorted. */
  lemma SortedCons<T>(key: T -> int, h: T, s: seq<T>)
    requires SortedBy(key, s)
    requires s != [] ==> key(h) <= key(s[0])
    ensures SortedBy(key, [h] + s)
  {
    var t := [h] + s;
    forall i, j | 0 <= i < j < |t| ensures key(t[i]) <= key(t[j]) {
      if i == 0 && j > 1 {
        assert t[j] == s[j - 1];
        assert key(s[0]) <= key(s[j - 1]);
      }
    }
  }

  /**
   * One step of the first merge loop: when the rest of `m` from `k` is the
   * merge of two non-empty suffixes, a strictly smaller left head comes
   * next, and otherwise the right head.
   */
  lemma MergeStep<T>(key: T -> int, l: seq<T>, r: seq<T>, i: nat, j: nat, m: seq<T>, k: nat)
    requires i < |l| && j < |r| && k <= |m| && m[k..] == Merge(key, l[i..], r[j..])
    ensures k < |m|
    ensures key(l[i]) < key(r[j]) ==> m[k] == l[i] && m[k + 1..] == Merge(key, l[i + 1..], r[j..])
    ensures key(l[i]) >= key(r[j]) ==> m[k] == r[j] && m[k + 1..] == Merge(key, l[i..], r[j + 1..])
  {
    assert l[i..][1..] == l[i + 1..];
    assert r[j..][1..] == r[j + 1..];
    if key(l[i]) < key(r[j]) {
      SuffixCons(m, k, l[i], Merge(key, l[i + 1..], r[j..]));
    } else {
      SuffixCons(m, k, r[j], Merge(key, l[i..], r[j + 1..]));
    }
  }

  /** Once one of the halves is used up, the merge is the rest of the other. */
  lemma MergeExhausted<T>(key: T -> int, l: seq<T>, r: seq<T>)
    requires l == [] || r == []
    ensures Merge(key, l, r) == l + r
  {
  }

  /** If the suffix of `m` from `k` is `x` followed by `rest`, then `m[k]` is `x` and `rest` follows it. */
  lemma SuffixCons<T>(m: seq<T>, k: nat, x: T, rest: seq<T>)
    requires k <= |m| && m[k..] == [x] + rest
    ensures k < |m| && m[k] == x && m[k + 1..] == rest
  {
    assert m[k..][0] == m[k];
    assert m[k..][1..] == m[k + 1..];
  }

  /** A fresh array holding the elements of `s`. */
  method ArrayOf<T>(s: seq<T>) returns (b: array<T>)
    ensures fresh(b) && b[..] == s
  {
    b := new T[|s|](i requires 0 <= i < |s| => s[i]);
  }

  method MergeSort<T>(a: array<T>, key: T -> int)
    modifies a
    ensures a[..] == MergeSorted(key, old(a[..]))
    ensures SortedBy(key, a[..]) && multiset(a[..]) == multiset(old(a[..]))
    decreases a.Length
  {
    ghost var s := a[..];
    if a.Length > 1 {
      var mid := a.Length / 2;
      var leftHalf := ArrayOf(a[..mid]);
      var rightHalf := ArrayOf(a[mid..]);
      MergeSort(leftHalf, key);
      MergeSort(rightHalf, key);
      MergeInto(a, leftHalf, rightHalf, key);
    }
    MergeSortedCorrect(key, s);
  }

  /**
   * The merge loops of DSA.py: writes the merge of the two sorted halves
   * into `a`, exactly `|left| + |right|` elements.
   */
  method MergeInto<T>(a: array<T>, leftHalf: array<T>, rightHalf: array<T>, key: T -> int)
    requires a != leftHalf && a != rightHalf
    requires a.Length == leftHalf.Length + rightHalf.Length
    modifies a
    ensures a[..] == Merge(key, leftHalf[..], rightHalf[..])
  {
    ghost var l, r := leftHalf[..], rightHalf[..];
    ghost var m := Merge(key, l, r);
    var i, j := MergeHeads(a, leftHalf, rightHalf, key, m);
    MergeExhausted(key, l[i..], r[j..]);
    CopyRests(a, leftHalf, i, rightHalf, j, m);
  }

  /**
   * The two remaining-elements loops of DSA.py, one after the other: what
   * is left of the left half, then what is left of the right half (one of
   * the two is empty), completing `a` to `m`.
   */
  method CopyRests<T>(a: array<T>, leftHalf: array<T>, i: nat, rightHalf: array<T>, j: nat, ghost m: seq<T>)
    requires a != leftHalf && a != rightHalf
    requires i <= leftHalf.Length && j <= rightHalf.Length && |m| == a.Length && i + j <= |m|
    requires forall t :: 0 <= t < i + j ==> a[t] == m[t]
    requires m[i + j..] == leftHalf[i..] + rightHalf[j..]
    modifies a
    ensures a[..] == m
  {
    ghost var y := rightHalf[j..];
    SuffixSplit(m, i + j, leftHalf[i..], y);
    var k := CopyRest(a, i + j, leftHalf, i, m);
    assert rightHalf[j..] == y;
    k := CopyRest(a, k, rightHalf, j, m);
    assert a[..] == m;
  }

  /** If the suffix of `m` from `k` is `x + y`, it holds `x` and then `y`. */
  lemma SuffixSplit<T>(m: seq<T>, k: nat, x: seq<T>, y: seq<T>)
    requires k <= |m| && m[k..] == x + y
    ensures k + |x| + |y| == |m|
    ensures m[k..k + |x|] == x
    ensures m[k + |x|..k + |x| + |y|] == y
  {
    assert m[k..k + |x|] == m[k..][..|x|];
    assert m[k + |x|..k + |x| + |y|] == m[k..][|x|..];
  }

  /**
   * The first merge loop of DSA.py: while both halves have elements left,
   * writes the smaller head (the right one on a tie) at `k == i + j`.
   * Stops with one half used up, the rest of the merge being the merge of
   * what is left.
   */
  method MergeHeads<T>(a: array<T>, leftHalf: array<T>, rightHalf: array<T>, key: T -> int, ghost m: seq<T>)
    returns (i: nat, j: nat)
    requires a != leftHalf && a != rightHalf
    requires a.Length == leftHalf.Length + rightHalf.Length
    requires |m| == a.Length && m == Merge(key, leftHalf[..], rightHalf[..])
    modifies a
    ensures i <= leftHalf.Length && j <= rightHalf.Length
    ensures i == leftHalf.Length || j == rightHalf.Length
    ensures forall t :: 0 <= t < i + j ==> a[t] == m[t]
    ensures m[i + j..] == Merge(key, leftHalf[i..], rightHalf[j..])
  {
    ghost var l, r := leftHalf[..], rightHalf[..];
    i, j := 0, 0;
    var k := 0;
    while i < leftHalf.Length && j < rightHalf.Length
      invariant i <= |l| && j <= |r| && k == i + j
      invariant forall t :: 0 <= t < k ==> a[t] == m[t]
      invariant leftHalf[..] == l && rightHalf[..] == r
      invariant m[k..] == Merge(key, l[i..], r[j..])
    {
      MergeStep(key, l, r, i, j, m, k);
      if key(leftHalf[i]) < key(rightHalf[j]) {
        a[k] := leftHalf[i];
        i := i + 1;
      } else {
        a[k] := rightHalf[j];
        j := j + 1;
      }
      k := k + 1;
    }
  }

  /**
   * One of the remaining-elements loops of DSA.py: copies `src[from..]`
   * into `a` from position `k` on, where `m` holds it, and returns the
   * position after the last element copied.
   */
  method CopyRest<T>(a: array<T>, k: nat, src: array<T>, from: nat, ghost m: seq<T>) returns (k': nat)
    requires a != src && |m| == a.Length && from <= src.Length && k + (src.Length - from) <= a.Length
    requires forall t :: 0 <= t < k ==> a[t] == m[t]
    requires m[k..k + (src.Length - from)] == src[from..]
    modifies a
    ensures k' == k + (src.Length - from)
    ensures forall t :: 0 <= t < k' ==> a[t] == m[t]
  {
    var i := from;
    k' := k;
    while i < src.Length
      invariant from <= i <= src.Length && k' - k == i - from
      invariant m[k..k + (src.Length - from)] == src[from..]
      invariant forall t :: 0 <= t < k' ==> a[t] == m[t]
    {
      assert m[k..k + (src.Length - from)][i - from] == src[from..][i - from];
      a[k'] := src[i];
      i := i + 1;
      k' := k' + 1;
    }
  }
}
