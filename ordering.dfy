/**
 * Orderings shared by the sorting and searching algorithms.
 *
 * Elements are compared through an integer key, so that a sort can be
 * asked to keep equal-keyed elements in their input order (stability);
 * a plain integer array is sorted with the key `Id`.
 */
module Ordering {

  /** The key of an integer is the integer itself. */
  function Id(x: int): int { x }

  /** `s` is non-decreasing in its keys. */
  ghost predicate SortedBy<T>(key: T -> int, s: seq<T>) {
    forall i, j :: 0 <= i < j < |s| ==> key(s[i]) <= key(s[j])
  }

  /** The elements of `s` whose key is `k`, in the order they appear in `s`. */
  function KeyFilter<T>(key: T -> int, k: int, s: seq<T>): (r: seq<T>)
  {
    if s == [] then []
    else (if key(s[0]) == k then [s[0]] else []) + KeyFilter(key, k, s[1..])
  }

  /**
   * `t` keeps every class of equal-keyed elements of `s` in the same
   * relative order: a sort whose output satisfies this is stable.
   */
  ghost predicate SameKeyOrder<T>(key: T -> int, s: seq<T>, t: seq<T>) {
    forall k :: KeyFilter(key, k, s) == KeyFilter(key, k, t)
  }

  lemma {:induction false} KeyFilterAppend<T>(key: T -> int, k: int, s: seq<T>, t: seq<T>)
    ensures KeyFilter(key, k, s + t) == KeyFilter(key, k, s) + KeyFilter(key, k, t)
  {
    if s != [] {
      assert (s + t)[0] == s[0];
      assert (s + t)[1..] == s[1..] + t;
      KeyFilterAppend(key, k, s[1..], t);
    } else {
      assert s + t == t;
    }
  }

  /** The sequence `s` with positions `j` and `j + 1` exchanged. */
  function SwapNext<T>(s: seq<T>, j: nat): (r: seq<T>)
    requires j + 1 < |s|
    ensures |r| == |s| && r[j] == s[j + 1] && r[j + 1] == s[j]
    ensures forall m :: 0 <= m < |s| && m != j && m != j + 1 ==> r[m] == s[m]
  {
    s[j := s[j + 1]][j + 1 := s[j]]
  }

  /**
   * Exchanging two neighbours with different keys keeps every class of
   * equal keys in order, and the same elements.
   */
  lemma SwapNextKeepsKeyOrder<T>(key: T -> int, s: seq<T>, j: nat)
    requires j + 1 < |s| && key(s[j]) != key(s[j + 1])
    ensures SameKeyOrder(key, SwapNext(s, j), s)
    ensures multiset(SwapNext(s, j)) == multiset(s)
  {
    var r := SwapNext(s, j);
    var pre, post := s[..j], s[j + 2..];
    assert s == pre + [s[j], s[j + 1]] + post;
    assert r == pre + [s[j + 1], s[j]] + post;
    forall k ensures KeyFilter(key, k, r) == KeyFilter(key, k, s) {
      KeyFilterAppend(key, k, pre + [s[j], s[j + 1]], post);
      KeyFilterAppend(key, k, pre, [s[j], s[j + 1]]);
      KeyFilterAppend(key, k, pre + [s[j + 1], s[j]], post);
      KeyFilterAppend(key, k, pre, [s[j + 1], s[j]]);
      assert KeyFilter(key, k, [s[j], s[j + 1]]) == KeyFilter(key, k, [s[j + 1], s[j]]) by {
        assert [s[j], s[j + 1]][1..] == [s[j + 1]];
        assert [s[j + 1], s[j]][1..] == [s[j]];
      }
    }
  }

  lemma SortedTail<T>(key: T -> int, s: seq<T>)
    requires s != [] && SortedBy(key, s)
    ensures SortedBy(key, s[1..])
  {
    forall i, j | 0 <= i < j < |s| - 1 ensures key(s[1..][i]) <= key(s[1..][j]) {
      assert s[1..][i] == s[i + 1] && s[1..][j] == s[j + 1];
    }
  }

  /**
   * A sorted arrangement of integers is unique: two sorted sequences with
   * the same elements are equal.
   */
  lemma {:induction false} SortedPermutationUnique(s: seq<int>, t: seq<int>)
    requires SortedBy(Id, s) && SortedBy(Id, t)
    requires multiset(s) == multiset(t)
    ensures s == t
  {
    if s != [] {
      assert |t| == |s| by { assert |multiset(t)| == |multiset(s)|; }
      assert s[0] in multiset(t);
      assert t[0] in multiset(s);
      assert s[0] == t[0];
      assert s == [s[0]] + s[1..];
      assert t == [t[0]] + t[1..];
      assert multiset(s) == multiset{s[0]} + multiset(s[1..]);
      assert multiset(t) == multiset{t[0]} + multiset(t[1..]);
      assert multiset(s[1..]) == multiset(s) - multiset{s[0]};
      assert multiset(t[1..]) == multiset(t) - multiset{t[0]};
      SortedTail(Id, s);
      SortedTail(Id, t);
      SortedPermutationUnique(s[1..], t[1..]);
    }
  }
}
