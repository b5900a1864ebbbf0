/**
 * The singly linked list of DSA.py: nodes holding a value and a link to
 * the next node, and a list object that owns the chain through its head.
 *
 * The ghost sequence `nodes` is the chain in order; `Valid()` says that
 * following `next` from `head` walks exactly `nodes`, visiting each node
 * once and ending in `null` (the chain is acyclic).
 */
module LinkedLists {

  class Node<T> {
    var data: T
    var next: Node?<T>

    /** A fresh node holding `data`, not yet linked to anything. */
    constructor (data: T)
      ensures this.data == data && next == null
    {
      this.data := data;
      next := null;
    }
  }

  class LinkedList<T> {
    var head: Node?<T>

    /** The values held by the list, head first. */
    ghost var contents: seq<T>
    /** The nodes of the chain, head first. */
    ghost var nodes: seq<Node<T>>
    /** The nodes owned by the list. */
    ghost var Repr: set<Node<T>>

    ghost predicate Valid()
      reads this, Repr
    {
      |nodes| == |contents|
      && Repr == (set i | 0 <= i < |nodes| :: nodes[i])
      && head == (if nodes == [] then null else nodes[0])
      && (forall i :: 0 <= i < |nodes| ==> nodes[i].data == contents[i])
      && (forall i :: 0 <= i < |nodes| - 1 ==> nodes[i].next == nodes[i + 1])
      && (nodes != [] ==> nodes[|nodes| - 1].next == null)
      && (forall i, j :: 0 <= i < j < |nodes| ==> nodes[i] != nodes[j])
    }

    /** A new list is empty: its head is `null`. */
    constructor ()
      ensures Valid() && contents == [] && Repr == {}
    {
      head := null;
      contents, nodes, Repr := [], [], {};
    }

    /**
     * Links a new node holding `x` after the last node (or makes it the
     * head of an empty list). No existing node changes except the old
     * tail, whose `next` now points at the new node.
     */
    method Append(x: T)
      requires Valid()
      modifies this, Repr
      ensures Valid()
      ensures contents == old(contents) + [x]
      ensures old(head) != null ==> head == old(head)
      ensures |nodes| == |old(nodes)| + 1 && nodes[..|old(nodes)|] == old(nodes)
      ensures fresh(nodes[|nodes| - 1]) && Repr == old(Repr) + {nodes[|nodes| - 1]}
      ensures forall n :: n in old(Repr) ==> n.data == old(n.data)
      ensures forall n :: n in old(Repr) && old(n.next) != null ==> n.next == old(n.next)
    {
      var newNode := new Node(x);
      if head == null {
        head := newNode;
        contents, nodes, Repr := [x], [newNode], {newNode};
        assert Repr == (set i | 0 <= i < |nodes| :: nodes[i]) by {
          assert nodes[0] == newNode;
        }
        return;
      }
      var last := head;
      ghost var k := 0;
      while last.next != null
        invariant Valid()
        invariant 0 <= k < |nodes| && last == nodes[k]
        invariant last.next == (if k < |nodes| - 1 then nodes[k + 1] else null)
        decreases |nodes| - k
      {
        last := last.next;
        k := k + 1;
      }
      assert k == |nodes| - 1;
      last.next := newNode;
      contents, nodes, Repr := contents + [x], nodes + [newNode], Repr + {newNode};
      assert forall i :: 0 <= i < |nodes| - 2 ==> nodes[i] != last;
      assert Repr == (set i | 0 <= i < |nodes| :: nodes[i]) by {
        forall n | n in Repr ensures exists i :: 0 <= i < |nodes| && nodes[i] == n {
          if n == newNode {
            assert nodes[|nodes| - 1] == n;
          } else {
            var i :| 0 <= i < |old(nodes)| && old(nodes)[i] == n;
            assert nodes[i] == n;
          }
        }
      }
    }

    /**
     * Walks from `head` to `null` and produces the value of every node
     * it passes, in order: exactly the list's contents.
     */
    method Display() returns (values: seq<T>)
      requires Valid()
      ensures values == contents
    {
      values := [];
      var current := head;
      ghost var k := 0;
      while current != null
        invariant 0 <= k <= |nodes|
        invariant current == (if k < |nodes| then nodes[k] else null)
        invariant values == contents[..k]
        decreases |nodes| - k
      {
        values := values + [current.data];
        current := current.next;
        k := k + 1;
      }
    }
  }

  /** Appending 10, 20 and 30 to a new list and displaying it yields 10, 20, 30. */
  method AppendThreeAndDisplay() returns (values: seq<int>)
    ensures values == [10, 20, 30]
  {
    var list := new LinkedList<int>();
    list.Append(10);
    list.Append(20);
    list.Append(30);
    values := list.Display();
  }
}
