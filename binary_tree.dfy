/**
 * The binary tree of DSA.py and its in-order traversal.
 *
 * A tree node owns its two subtrees outright, so a tree is a value: `Leaf`
 * stands for the absent child (`None`), `Node` for a tree node.
 */
module BinaryTrees {
  import opened Ordering

  datatype Tree<T> = Leaf | Node(left: Tree<T>, data: T, right: Tree<T>)

  /** The number of nodes of `t`. */
  function Size<T>(t: Tree<T>): nat {
    match t
    case Leaf => 0
    case Node(l, _, r) => Size(l) + 1 + Size(r)
  }

  /** The values held by the nodes of `t`, with their multiplicities. */
  function Elements<T>(t: Tree<T>): multiset<T> {
    match t
    case Leaf => multiset{}
    case Node(l, x, r) => Elements(l) + multiset{x} + Elements(r)
  }

  /**
   * A tree whose only node is the root `root`, as a new binary tree
   * starts out.
   */
  function NewTree<T>(root: T): (t: Tree<T>)
    ensures Size(t) == 1 && Elements(t) == multiset{root}
  {
    Node(Leaf, root, Leaf)
  }

  /**
   * The values of `t` in in-order: the left subtree, then the node, then
   * the right subtree; an absent child contributes nothing. Every node is
   * visited exactly once.
   */
  function InOrder<T>(t: Tree<T>): (s: seq<T>)
    ensures |s| == Size(t)
    ensures multiset(s) == Elements(t)
  {
    match t
    case Leaf => []
    case Node(l, x, r) => InOrder(l) + [x] + InOrder(r)
  }

  /**
   * Binary-search-tree order: every value in a left subtree is at most
   * its node's value, every value in a right subtree at least.
   */
  ghost predicate IsSearchTree(t: Tree<int>) {
    match t
    case Leaf => true
    case Node(l, x, r) =>
      IsSearchTree(l) && IsSearchTree(r)
      && (forall y :: y in Elements(l) ==> y <= x)
      && (forall y :: y in Elements(r) ==> x <= y)
  }

  /** In-order traversal of a search tree lists its values in ascending order. */
  lemma {:induction false} SearchTreeInOrderSorted(t: Tree<int>)
    requires IsSearchTree(t)
    ensures SortedBy(Id, InOrder(t))
  {
    match t
    case Leaf =>
    case Node(l, x, r) =>
      SearchTreeInOrderSorted(l);
      SearchTreeInOrderSorted(r);
      SortedAround(InOrder(l), x, InOrder(r));
  }

  /** A sorted sequence of values at most `x`, then `x`, then a sorted sequence of values at least `x`, is sorted. */
  lemma SortedAround(sl: seq<int>, x: int, sr: seq<int>)
    requires SortedBy(Id, sl) && SortedBy(Id, sr)
    requires forall y :: y in multiset(sl) ==> y <= x
    requires forall y :: y in multiset(sr) ==> x <= y
    ensures SortedBy(Id, sl + [x] + sr)
  {
    var s := sl + [x] + sr;
    forall i, j | 0 <= i < j < |s| ensures Id(s[i]) <= Id(s[j]) {
      if j < |sl| {
        assert s[i] == sl[i] && s[j] == sl[j];
      } else if i > |sl| {
        assert s[i] == sr[i - |sl| - 1] && s[j] == sr[j - |sl| - 1];
      } else {
        if i < |sl| {
          assert s[i] == sl[i] && sl[i] in multiset(sl);
        }
        if j > |sl| {
          assert s[j] == sr[j - |sl| - 1] && sr[j - |sl| - 1] in multiset(sr);
        }
      }
    }
  }

  /** The tree of DSA.py's example: root 1 with children 2 and 3. */
  lemma ExampleTraversal()
    ensures InOrder(Node(NewTree(2), 1, NewTree(3))) == [2, 1, 3]
  {
  }
}
