# DSA.py in Dafny

A verified model of the data structures and algorithms in `DSA.py`:

- a singly linked list with `append` and `display`;
- a binary tree with a recursive in-order traversal;
- bubble sort and merge sort, both in place on an array;
- binary search over a sorted list;
- depth-first search and breadth-first search over a graph given as
  adjacency lists.

Each piece follows the form of its Python code:

- The linked list is a pair of classes whose methods update heap nodes.
- The tree is a datatype, because a node owns its subtrees outright.
- The sorts are array methods proved against sequence functions:
  `BubbleSorted` and `MergeSorted`.
- The searches are methods with the same loops and recursion as the
  Python code.

The properties are proved about those functions and about the methods'
final states:

- **Sorts:** the result is sorted and a permutation of the input. Bubble
  sort is also stable, while merge sort is shown not to be.
- **Binary search:** it finds an element whenever one is present.
- **DFS:** it marks exactly the vertices reachable from the start.
- **BFS:** it prints each reachable vertex once, the start first, in
  non-decreasing distance from the start.

Modules:

| module | file | models |
|---|---|---|
| `Ordering` | `ordering.dfy` | sortedness by an integer key, stability, the neighbour swap |
| `LinkedLists` | `linked_list.dfy` | `Node`, `LinkedList` |
| `BinaryTrees` | `binary_tree.dfy` | `TreeNode`, `BinaryTree.inorder_traversal` |
| `BubbleSorting` | `bubble_sort.dfy` | `bubble_sort` |
| `MergeSorting` | `merge_sort.dfy` | `merge_sort` |
| `Sorts` | `sorts.dfy` | what the two sorts have in common, and their example lists |
| `Searching` | `binary_search.dfy` | `binary_search` |
| `Graphs` | `graphs.dfy` | adjacency maps, paths, reachability, distance |
| `DepthFirst` | `dfs.dfy` | `dfs` |
| `BreadthFirst` | `bfs.dfy` | `bfs` |

**Comparing elements.** The sorts compare elements through an integer
key `key: T -> int`. This is what lets stability be stated: equal keys
with different elements. For lists of integers, which is how `DSA.py`
uses them, the key is `Id`.

**Graphs.** A graph is `map<V, seq<V>>`. Each traversal requires the
graph to be *closed*: every listed neighbour must itself be a key. The
Python code looks up `graph[...]` only for the vertices it reaches
(`DSA.py:197` and `223`). So a missing key raises `KeyError` only when it
is listed under a vertex the search reaches, and `Closed` asks more than
the code needs (see "Left out").

**What the code does where a reader might expect otherwise:**

- `merge_sort` compares with `<` (`DSA.py:143`), so on a tie it takes
  from the right half. It is therefore not stable, as
  `MergeSortedNotStable` shows with two equal keys whose order is
  reversed.
- `bubble_sort` runs `for i in range(n)` (`DSA.py:118`): `n` passes, the
  last one empty. `Passes` and `BubbleSort` make the same `n` passes.
- `dfs` returns the visited *set* (`DSA.py:200`), not a visiting order,
  and so does `Dfs`.

## Model

| member | source | states |
|---|---|---|
| LinkedLists.Node.constructor | DSA.py:15-18 | a new node holds the given data and links to nothing |
| LinkedLists.LinkedList.constructor | DSA.py:20-22 | a new list is valid and empty (head is null) |
| LinkedLists.LinkedList.Append | DSA.py:24-32 | keeps the chain acyclic and owned; contents become old contents plus the new value; a non-empty list keeps its head; old nodes keep their data and links, and only the old tail is relinked, to the fresh node |
| LinkedLists.LinkedList.Display | DSA.py:34-39 | walking from the head to null yields exactly the list's contents, in order |
| LinkedLists.AppendThreeAndDisplay | DSA.py:41-45 | appending 10, 20, 30 to a new list and displaying it yields [10, 20, 30] |
| BinaryTrees.NewTree | DSA.py:83-85 | a new tree has one node, holding the root value |
| BinaryTrees.InOrder | DSA.py:87-91 | the traversal visits every node exactly once: as many values as nodes, and the same values with multiplicity |
| BinaryTrees.SearchTreeInOrderSorted | DSA.py:87-91 | on a binary search tree, the in-order traversal is sorted ascending |
| BinaryTrees.SortedAround | DSA.py:89-91 | left values, then the node, then right values, with left at most and right at least the node, is sorted |
| BinaryTrees.ExampleTraversal | DSA.py:93-96 | the example tree (root 1, children 2 and 3) traverses as [2, 1, 3] |
| Ordering.SwapNext | DSA.py:121 | exchanges positions j and j+1 and leaves every other position unchanged |
| Ordering.SwapNextKeepsKeyOrder | DSA.py:120-121 | a swap of two neighbours with different keys keeps the elements and the relative order of every class of equal keys |
| Ordering.KeyFilterAppend | DSA.py:120-121 | the equal-key subsequence of a concatenation is the concatenation of the equal-key subsequences |
| Ordering.SortedPermutationUnique | DSA.py:116-160 | two sorted integer lists with the same elements are equal |
| BubbleSorting.BubbleSorted | DSA.py:116-121 | the outcome of bubble sort on a sequence, as long as its input (that it is sorted, a permutation and stable is BubbleSortedCorrect) |
| BubbleSorting.Step | DSA.py:120-121 | one comparison keeps the length (its effect is stated by PassPermutes and PassBubblesMax) |
| BubbleSorting.Pass | DSA.py:119-121 | one inner loop keeps the length (its effect is stated by PassPermutes and PassBubblesMax) |
| BubbleSorting.Passes | DSA.py:118-121 | the outer loop keeps the length (its effect is stated by PassesInvariant) |
| BubbleSorting.PassPermutes | DSA.py:119-121 | an inner loop keeps the elements and the order of equal keys, leaves positions after j alone, and preserves a split after j |
| BubbleSorting.PassBubblesMax | DSA.py:119-121 | after comparisons up to j, position j holds a largest key of the first j+1 |
| BubbleSorting.PassGrowsSorted | DSA.py:118-121 | a pass up to b over a sequence whose tail after b is sorted and largest makes the tail from b sorted and largest |
| BubbleSorting.PassesInvariant | DSA.py:118-121 | after i passes, the last i positions hold the largest elements in order, and the sequence is a stable permutation of the input |
| BubbleSorting.BubbleSortedCorrect | DSA.py:116-121 | bubble sort's result is sorted, a permutation of the input, and stable |
| BubbleSorting.BubbleSort | DSA.py:116-121 | the array ends as BubbleSorted of its old contents: sorted, a permutation, and stable |
| MergeSorting.Merge | DSA.py:142-160 | the merge loops on two sequences, taking from the right on ties; as long as both halves together (its contents are MergePermutes and MergeSortedBy) |
| MergeSorting.MergeSorted | DSA.py:130-160 | the outcome of merge sort on a sequence, as long as its input (that it is sorted and a permutation is MergeSortedCorrect) |
| MergeSorting.MergePermutes | DSA.py:142-160 | the merge holds exactly the elements of both halves, and starts with the head of one of them |
| MergeSorting.MergeSortedBy | DSA.py:142-160 | merging two sorted halves gives a sorted sequence |
| MergeSorting.MergeSortedCorrect | DSA.py:130-160 | merge sort's result is sorted and a permutation of the input; an input of at most one element comes back unchanged |
| MergeSorting.MergeSortedNotStable | DSA.py:143-148 | on a tie the right element is taken first: sorting [(1,0), (1,1)] by the first component gives [(1,1), (1,0)], not stable |
| MergeSorting.SortedCons | DSA.py:142-149 | proof helper: putting an element no greater than the head in front keeps a sequence sorted |
| MergeSorting.MergeStep | DSA.py:143-149 | with both halves non-empty, a strictly smaller left head is written next, otherwise the right head, and the rest is the merge of what remains |
| MergeSorting.MergeExhausted | DSA.py:151-160 | once one half is used up, the rest of the merge is the remainder of the other |
| MergeSorting.SuffixCons | DSA.py:142-149 | proof helper: a suffix that is x followed by rest has x at its first position and rest after it |
| MergeSorting.SuffixSplit | DSA.py:151-160 | proof helper: a suffix that is x + y has x at its start and y right after |
| MergeSorting.ArrayOf | DSA.py:133-134 | the copied half is a fresh array holding exactly the slice |
| MergeSorting.MergeSort | DSA.py:130-160 | the array ends as MergeSorted of its old contents: sorted and a permutation |
| MergeSorting.MergeInto | DSA.py:139-160 | the three merge loops write exactly the merge of the two halves into the array |
| MergeSorting.MergeHeads | DSA.py:139-149 | the first loop stops with one half exhausted, having written the first i+j elements of the merge, the rest being the merge of what is left |
| MergeSorting.CopyRests | DSA.py:151-160 | the two remaining-element loops, in sequence, complete the array to the merge |
| MergeSorting.CopyRest | DSA.py:152-160 | one remaining-element loop copies the rest of a half into place and returns the next write position |
| Sorts.SortsAgreeOnIntegers | DSA.py:116-160 | on integers, bubble sort and merge sort produce the same list |
| Sorts.BubbleSortedIs | DSA.py:116-121 | on integers, bubble sort returns any sorted list with the input's elements |
| Sorts.MergeSortedIs | DSA.py:130-160 | on integers, merge sort returns any sorted list with the input's elements |
| Sorts.AdjacentSorted | DSA.py:116-160 | proof helper: a list whose neighbours are in order is sorted |
| Sorts.BagOfSeven | DSA.py:123 | proof helper: the multiset of a seven-element list is that of its seven elements |
| Sorts.BubbleExampleBags | DSA.py:123 | the bubble sort list and [11, 12, 22, 25, 34, 64, 90] hold the same numbers |
| Sorts.BubbleExampleSame | DSA.py:123 | the bubble sort list is a permutation of [11, 12, 22, 25, 34, 64, 90] |
| Sorts.BubbleSortExample | DSA.py:123-125 | bubble sort of [64, 34, 25, 12, 22, 11, 90] leaves [11, 12, 22, 25, 34, 64, 90] |
| Sorts.MergeExampleBags | DSA.py:162 | the merge sort list and [3, 9, 10, 27, 38, 43, 82] hold the same numbers |
| Sorts.MergeExampleSame | DSA.py:162 | the merge sort list is a permutation of [3, 9, 10, 27, 38, 43, 82] |
| Sorts.MergeSortExample | DSA.py:162-164 | merge sort of [38, 27, 43, 3, 9, 82, 10] leaves [3, 9, 10, 27, 38, 43, 82] |
| Searching.BinarySearch | DSA.py:171-182 | the result is -1 or an index holding x; on a sorted list containing x it is never -1 |
| Searching.SearchExample | DSA.py:184-185 | searching [2, 3, 4, 10, 40] for 10 gives 3 |
| Searching.SearchMissing | DSA.py:171-182 | searching [2, 3, 4, 10, 40] for 99 gives -1 |
| Graphs.ReachSelf | DSA.py:196 | a vertex reaches itself along zero edges |
| Graphs.ReachStep | DSA.py:197-199 | a vertex reaches whatever each of its neighbours reaches |
| Graphs.ReachExtend | DSA.py:223-226 | a path of n edges followed by one edge is a path of n+1 edges |
| Graphs.ClosedSetContainsPath | DSA.py:197-199 | a set closed under edges that holds the first vertex of a path holds its last |
| Graphs.ClosedSetContainsReachable | DSA.py:197-199 | a set closed under edges that holds a vertex holds everything that vertex reaches |
| Graphs.LabelBoundsPath | DSA.py:223-226 | a labelling that is 0 at the start and grows by at most 1 per edge is at most the number of edges of any path from the start |
| Graphs.LabelIsDistance | DSA.py:223-226 | such a labelling, with every label a path length, gives the distance |
| Graphs.SubsetSize | DSA.py:197-199 | proof helper: a subset is no larger, and a proper subset is smaller (the measure of the search's termination) |
| Graphs.DemoGraph | DSA.py:202-207 | the example graph has the vertices A, B, C and D |
| Graphs.DemoConnected | DSA.py:202-207 | every neighbour in the example graph is a vertex, and A reaches exactly A, B, C and D |
| DepthFirst.DfsVisit | DSA.py:193-200 | the result holds the old visited set and the node, lies within the graph, adds only vertices reachable from the node, and holds every neighbour of the node and of every newly marked vertex |
| DepthFirst.Dfs | DSA.py:193-200 | the returned set is exactly the set of vertices reachable from the start |
| DepthFirst.DfsExample | DSA.py:202-208 | the search of the example graph from A marks A, B, C and D |
| BreadthFirst.ElemsMembership | DSA.py:216-226 | proof helper: the set of a sequence's elements has exactly its members |
| BreadthFirst.ElemsAppend | DSA.py:225-226 | proof helper: appending one vertex adds it to the set of elements |
| BreadthFirst.DistinctAppend | DSA.py:224-226 | proof helper: appending a vertex not yet present keeps the sequence free of duplicates |
| BreadthFirst.LayeredAppend | DSA.py:224-226 | proof helper: appending a vertex labelled at least every present label keeps labels non-decreasing |
| BreadthFirst.LabelledExtend | DSA.py:223-226 | labelling a neighbour one more than its discoverer keeps every label a path length |
| BreadthFirst.Discover | DSA.py:224-226 | marking and enqueueing a new neighbour one level down keeps the discovered sequence duplicate-free, equal to the visited set, and layered |
| BreadthFirst.DiscoverLast | DSA.py:224-226 | that step for the discovered sequence as a whole |
| BreadthFirst.WithinOne | DSA.py:221-226 | while a vertex is being explored, no discovered vertex is more than one level below it |
| BreadthFirst.ExploredGrow | DSA.py:223-226 | once all neighbours of the dequeued vertex are labelled within one of it, it joins the explored vertices |
| BreadthFirst.StepKeepsOrder | DSA.py:224-226 | one enqueue in the neighbour loop keeps the discovered order, the labels and the bound on queued labels |
| BreadthFirst.BoundAppend | DSA.py:226 | proof helper: the enqueued vertex keeps every queued label within the bound |
| BreadthFirst.Enqueued | DSA.py:223-226 | the neighbour loop as a fold: the visited set and the queue only grow, and each vertex it appends to the queue was newly marked visited |
| BreadthFirst.EnqueuedKeepsOrder | DSA.py:223-226 | the whole neighbour loop keeps the discovered order and labels, and leaves every neighbour visited |
| BreadthFirst.VisitNeighbours | DSA.py:223-226 | the loop over neighbours marks, labels and enqueues the unvisited ones in list order, exactly as the fold Enqueued describes |
| BreadthFirst.Initial | DSA.py:216-218 | the initial state, with only the start visited and queued, satisfies the loop invariant |
| BreadthFirst.InitialDiscovered | DSA.py:216-218 | the initial state is discovered: start first, labelled 0 |
| BreadthFirst.Dequeue | DSA.py:221-222 | proof helper: printing the front and dequeuing it leaves printed-plus-queued unchanged |
| BreadthFirst.VisitNext | DSA.py:220-226 | one round appends the front of the queue to the printed order and keeps the invariant; the visited set grows or the queue shrinks |
| BreadthFirst.FrontWithinOne | DSA.py:221-226 | every queued label is within one of the front's |
| BreadthFirst.Progress | DSA.py:220-226 | a round either shrinks the unvisited part of the graph or the queue |
| BreadthFirst.Finished | DSA.py:220 | when the queue is empty, the printed order is what Bfs promises |
| BreadthFirst.Bfs | DSA.py:215-226 | the start is printed first; no vertex twice; exactly the reachable vertices; each with its distance from the start; in non-decreasing distance |
| BreadthFirst.DistinctCount | DSA.py:224-226 | proof helper: a duplicate-free sequence has as many elements as distinct vertices |
| BreadthFirst.DemoDistances | DSA.py:228-233 | in the example graph the distance from A is 1 to B and to C, and 2 to D |
| BreadthFirst.DemoCount | DSA.py:228-235 | an order that holds each example vertex exactly once has four elements |
| BreadthFirst.DemoOrder | DSA.py:228-235 | such an order with A first and non-decreasing labels ends in D, with B and C in between |
| BreadthFirst.BfsExample | DSA.py:228-235 | the search of the example graph from A prints four vertices: A first, D last, and B and C in between |

## Left out

- Everything outside the linked list, the tree, the two sorts, binary search and the two graph traversals. That covers the Python list, stack, queue and dictionary demos at `DSA.py:1-10`, `47-72` and `98-107`. It also covers the `print` calls and the driver code.
- Printing. `LinkedList.Display` returns the values it would print; the `" -> "` separators and the final `None` are a matter of formatting. `Bfs` returns the printed vertices as `order`. `InOrder` returns the visited values.
- BinaryTrees: the mutable `TreeNode` objects are modelled as an immutable datatype. The example builds its tree by assigning `bt.root.left` and `bt.root.right`, and `ExampleTraversal` builds the same tree as a value. No aliasing between tree nodes is modelled.
- Bfs: does not fix the order among vertices at the same distance. The code prints them in the order their discoverers were dequeued and then by adjacency order. The contract proves the distance order, and `BfsExample` therefore leaves B and C unordered.
- Dfs: the visited set that `dfs` shares by reference among its recursive calls is modelled as a value. Each call receives the set and returns it enlarged. The set is the same at every point, but mutation through the reference is not modelled.
- `deque` and Python `set` are modelled as sequences and sets. Their internal implementation is not modelled.
- Dfs, Bfs: require `Closed(graph)`, which is stronger than the code needs. The code raises `KeyError` only when a vertex the search reaches lists a neighbour that is not a key. On a graph where only an unreached vertex lists a missing key, such as `{'A': ['B'], 'B': [], 'C': ['Z']}` from `'A'`, the code returns normally, but the model does not cover that call. The start must also be a key, as the code's first lookup of `graph[start]` demands.
- BinarySearch: on an unsorted list it promises only that a returned index holds `x`. The code gives no more either; it may then miss `x`.
- Graph symmetry (each edge listed at both ends) is neither required nor used. The traversals work on directed adjacency lists.
- Elements compare through an integer `key`. Python compares any mutually comparable values; arbitrary Python orderings are not modelled, and neither is the `TypeError` raised when two elements cannot be compared.
