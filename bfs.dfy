/**
 * Breadth-first search of DSA.py: a FIFO queue seeded with the start
 * vertex and a visited set; each dequeued vertex is visited (printed) and
 * its unvisited neighbours are marked and enqueued. The printed vertices
 * are collected, in order, in the sequence `order`.
 *
 * The ghost map `dist` records, for each marked vertex, one more than the
 * label of the vertex that discovered it; the proof shows that this is
 * its distance from the start.
 */
module BreadthFirst {
  import opened Graphs

  ghost predicate Distinct<V>(s: seq<V>) {
    forall i, j :: 0 <= i < j < |s| ==> s[i] != s[j]
  }

  /** The set of the elements of `s`. */
  ghost function Elems<V>(s: seq<V>): set<V>
    decreases |s|
  {
    if s == [] then {} else Elems(s[..|s| - 1]) + {s[|s| - 1]}
  }

  lemma {:induction false} ElemsMembership<V>(s: seq<V>)
    ensures forall u :: u in Elems(s) <==> u in s
    decreases |s|
  {
    if s != [] {
      ElemsMembership(s[..|s| - 1]);
      assert s == s[..|s| - 1] + [s[|s| - 1]];
    }
  }

  lemma ElemsAppend<V>(s: seq<V>, v: V)
    ensures Elems(s + [v]) == Elems(s) + {v}
  {
    assert (s + [v])[..|s|] == s;
  }

  /** Along `s` the labels never decrease. */
  ghost predicate Layered<V>(s: seq<V>, dist: map<V, nat>) {
    (forall i :: 0 <= i < |s| ==> s[i] in dist)
    && forall i, j :: 0 <= i < j < |s| ==> dist[s[i]] <= dist[s[j]]
  }

  /** The start is labelled 0 and every label is the length of some path from it. */
  ghost predicate Labelled<V(!new)>(graph: Graph<V>, start: V, dist: map<V, nat>) {
    start in dist && dist[start] == 0
    && forall u :: u in dist ==> ReachableIn(graph, start, u, dist[u])
  }

  /** Every neighbour of a vertex of `xs` is labelled, at most one more than that vertex. */
  ghost predicate Explored<V(!new)>(graph: Graph<V>, xs: seq<V>, dist: map<V, nat>) {
    forall x :: x in xs ==>
      x in dist && x in graph && forall v :: v in graph[x] ==> v in dist && dist[v] <= dist[x] + 1
  }

  /**
   * What the search has discovered so far, `disc` (the vertices printed,
   * then the queue): it starts at `start`, holds no vertex twice, is
   * exactly the visited set, and is labelled in non-decreasing order with
   * lengths of paths from the start.
   */
  ghost predicate Discovered<V(!new)>(graph: Graph<V>, start: V, disc: seq<V>, visited: set<V>, dist: map<V, nat>) {
    visited <= graph.Keys && dist.Keys == visited
    && visited == Elems(disc)
    && disc != [] && disc[0] == start
    && Distinct(disc)
    && Labelled(graph, start, dist)
    && Layered(disc, dist)
  }

  /** `d2` keeps every label of `d1`. */
  ghost predicate Extends<V>(d1: map<V, nat>, d2: map<V, nat>) {
    forall u :: u in d1 ==> u in d2 && d2[u] == d1[u]
  }

  lemma DistinctAppend<V>(s: seq<V>, v: V)
    requires Distinct(s) && v !in s
    ensures Distinct(s + [v])
  {
    assert forall i :: 0 <= i < |s| ==> (s + [v])[i] == s[i];
  }

  /** Appending a vertex with a label no discovered label exceeds keeps the labels in order. */
  lemma LayeredAppend<V>(s: seq<V>, dist: map<V, nat>, v: V, k: nat)
    requires Layered(s, dist) && v !in s
    requires forall u :: u in s ==> u in dist && dist[u] <= k
    ensures Layered(s + [v], dist[v := k])
  {
    var s', dist' := s + [v], dist[v := k];
    assert forall i :: 0 <= i < |s| ==> s'[i] == s[i] && s[i] != v;
  }

  /** Labelling a neighbour `v` of `x` one more than `x` keeps every label a path length. */
  lemma LabelledExtend<V(!new)>(graph: Graph<V>, start: V, dist: map<V, nat>, x: V, v: V)
    requires Closed(graph) && Labelled(graph, start, dist)
    requires x in dist && x in graph && v in graph[x] && v !in dist
    ensures Labelled(graph, start, dist[v := dist[x] + 1])
  {
    ReachExtend(graph, start, x, v, dist[x]);
  }

  /**
   * Marking and enqueueing an unvisited neighbour `v` of a labelled vertex
   * `x`, labelled one more than `x`, keeps what was discovered in order,
   * provided no discovered label exceeds the new one.
   */
  lemma Discover<V(!new)>(graph: Graph<V>, start: V, order: seq<V>, queue: seq<V>, visited: set<V>, dist: map<V, nat>, x: V, v: V)
    requires Closed(graph) && Discovered(graph, start, order + queue, visited, dist)
    requires x in dist && x in graph && v in graph[x] && v !in visited
    requires forall u :: u in order + queue ==> dist[u] <= dist[x] + 1
    ensures Discovered(graph, start, order + (queue + [v]), visited + {v}, dist[v := dist[x] + 1])
  {
    AppendAssoc(order, queue, v);
    DiscoverLast(graph, start, order + queue, visited, dist, x, v);
  }

  /** `Discover` for the discovered sequence taken as a whole. */
  lemma DiscoverLast<V(!new)>(graph: Graph<V>, start: V, disc: seq<V>, visited: set<V>, dist: map<V, nat>, x: V, v: V)
    requires Closed(graph) && Discovered(graph, start, disc, visited, dist)
    requires x in dist && x in graph && v in graph[x] && v !in visited
    requires forall u :: u in disc ==> dist[u] <= dist[x] + 1
    ensures Discovered(graph, start, disc + [v], visited + {v}, dist[v := dist[x] + 1])
  {
    ElemsMembership(disc);
    ElemsAppend(disc, v);
    assert v !in disc;
    DistinctAppend(disc, v);
    LayeredAppend(disc, dist, v, dist[x] + 1);
    LabelledExtend(graph, start, dist, x, v);
    assert (disc + [v])[0] == start;
  }

  lemma AppendAssoc<V>(a: seq<V>, b: seq<V>, x: V)
    ensures (a + b) + [x] == a + (b + [x])
  {
  }

  /**
   * While the last printed vertex `vertex` is explored, no discovered
   * vertex is labelled more than one above it.
   */
  lemma WithinOne<V>(order: seq<V>, queue: seq<V>, dist: map<V, nat>, vertex: V, b: nat)
    requires Layered(order + queue, dist) && order != [] && vertex == order[|order| - 1]
    requires vertex in dist && dist[vertex] == b
    requires forall q :: q in queue ==> q in dist && dist[q] <= b + 1
    ensures forall u :: u in order + queue ==> u in dist && dist[u] <= b + 1
  {
    var disc := order + queue;
    forall i | 0 <= i < |disc| ensures dist[disc[i]] <= b + 1 {
      if i < |order| {
        assert disc[|order| - 1] == vertex;
      } else {
        assert disc[i] == queue[i - |order|];
      }
    }
  }

  /** Once all neighbours of `x` are labelled within one of it, `x` joins the explored vertices. */
  lemma ExploredGrow<V(!new)>(graph: Graph<V>, xs: seq<V>, x: V, d1: map<V, nat>, d2: map<V, nat>)
    requires Explored(graph, xs, d1) && Extends(d1, d2) && x in d2 && x in graph
    requires forall v :: v in graph[x] ==> v in d2 && d2[v] <= d2[x] + 1
    ensures Explored(graph, xs + [x], d2)
  {
  }

  /** The visited set, the queue and the labels, as the loop over neighbours updates them. */
  datatype Marks<V> = Marks(visited: set<V>, queue: seq<V>, dist: map<V, nat>)

  /**
   * The loop over neighbours as a function: each of `ns` in turn that is
   * not yet visited is marked, enqueued and labelled `b + 1`.
   */
  ghost function Enqueued<V>(m: Marks<V>, b: nat, ns: seq<V>): (r: Marks<V>)
    ensures m.visited <= r.visited && m.queue <= r.queue
    ensures forall i :: |m.queue| <= i < |r.queue| ==> r.queue[i] in r.visited - m.visited
    decreases |ns|
  {
    if ns == [] then m
    else
      var m' := Enqueued(m, b, ns[..|ns| - 1]);
      var x := ns[|ns| - 1];
      if x in m'.visited then m' else Marks(m'.visited + {x}, m'.queue + [x], m'.dist[x := b + 1])
  }

  /**
   * `r` is what visiting neighbours of the vertex just printed, labelled
   * `b`, may make of `m`: what was discovered stays in order, the queue
   * only grows at its back with labels up to `b + 1`, and labels are kept.
   */
  ghost predicate KeepsOrder<V(!new)>(graph: Graph<V>, start: V, order: seq<V>, m: Marks<V>, b: nat, r: Marks<V>) {
    Discovered(graph, start, order + r.queue, r.visited, r.dist)
    && m.visited <= r.visited
    && (r.visited == m.visited ==> |r.queue| == |m.queue|)
    && Extends(m.dist, r.dist)
    && forall q :: q in r.queue ==> q in r.dist && r.dist[q] <= b + 1
  }

  /** Marking, enqueueing and labelling one more unvisited neighbour `x` of the vertex just printed keeps order. */
  lemma StepKeepsOrder<V(!new)>(graph: Graph<V>, start: V, order: seq<V>, vertex: V, m: Marks<V>, b: nat, m': Marks<V>, x: V)
    requires Closed(graph) && KeepsOrder(graph, start, order, m, b, m')
    requires order != [] && vertex == order[|order| - 1] && vertex in graph && x in graph[vertex]
    requires vertex in m.dist && m.dist[vertex] == b && x !in m'.visited
    ensures KeepsOrder(graph, start, order, m, b, Marks(m'.visited + {x}, m'.queue + [x], m'.dist[x := b + 1]))
  {
    WithinOne(order, m'.queue, m'.dist, vertex, b);
    Discover(graph, start, order, m'.queue, m'.visited, m'.dist, vertex, x);
    assert x !in m.visited;
    assert Extends(m.dist, m'.dist[x := b + 1]) by {
      forall u | u in m.dist ensures u in m'.dist && u != x {
      }
    }
    BoundAppend(m'.queue, m'.dist, x, b + 1);
  }

  /** Appending `x` labelled `k` to a queue labelled at most `k` keeps it labelled at most `k`. */
  lemma BoundAppend<V>(queue: seq<V>, dist: map<V, nat>, x: V, k: nat)
    requires forall q :: q in queue ==> q in dist && dist[q] <= k
    ensures forall q :: q in queue + [x] ==> q in dist[x := k] && dist[x := k][q] <= k
  {
  }

  /** Visiting the neighbours `ns` of the vertex just printed keeps order and leaves them all visited. */
  lemma {:induction false} EnqueuedKeepsOrder<V(!new)>(graph: Graph<V>, start: V, order: seq<V>, vertex: V, m: Marks<V>, b: nat, ns: seq<V>, r: Marks<V>)
    requires Closed(graph) && Discovered(graph, start, order + m.queue, m.visited, m.dist)
    requires order != [] && vertex == order[|order| - 1] && vertex in graph
    requires vertex in m.dist && m.dist[vertex] == b
    requires forall q :: q in m.queue ==> q in m.dist && m.dist[q] <= b + 1
    requires forall x :: x in ns ==> x in graph[vertex]
    requires r == Enqueued(m, b, ns)
    ensures KeepsOrder(graph, start, order, m, b, r)
    ensures forall x :: x in ns ==> x in r.visited
    decreases |ns|
  {
    if ns != [] {
      var p, x := ns[..|ns| - 1], ns[|ns| - 1];
      assert ns == p + [x];
      var m' := Enqueued(m, b, p);
      EnqueuedKeepsOrder(graph, start, order, vertex, m, b, p, m');
      if x !in m'.visited {
        StepKeepsOrder(graph, start, order, vertex, m, b, m', x);
      }
    }
  }

  /**
   * The loop over the neighbours of `vertex`, the vertex just printed:
   * every neighbour not yet visited is marked, labelled one above
   * `vertex` and enqueued, in the order `graph[vertex]` lists them.
   */
  method VisitNeighbours<V(!new)>(graph: Graph<V>, vertex: V, visited: set<V>, queue: seq<V>, ghost dist: map<V, nat>)
    returns (visited': set<V>, queue': seq<V>, ghost dist': map<V, nat>)
    requires vertex in graph && vertex in dist
    ensures visited' == Enqueued(Marks(visited, queue, dist), dist[vertex], graph[vertex]).visited
    ensures queue' == Enqueued(Marks(visited, queue, dist), dist[vertex], graph[vertex]).queue
    ensures dist' == Enqueued(Marks(visited, queue, dist), dist[vertex], graph[vertex]).dist
  {
    ghost var b := dist[vertex];
    visited', queue', dist' := visited, queue, dist;
    var neighbours := graph[vertex];
    for n := 0 to |neighbours|
      invariant Marks(visited', queue', dist') == Enqueued(Marks(visited, queue, dist), b, neighbours[..n])
    {
      var neighbour := neighbours[n];
      assert neighbours[..n + 1][..n] == neighbours[..n];
      if neighbour !in visited' {
        visited' := visited' + {neighbour};
        queue' := queue' + [neighbour];
        dist' := dist'[neighbour := b + 1];
      }
    }
    assert neighbours[..|neighbours|] == neighbours;
  }

  /**
   * The state of the search at the head of its loop: `order` printed,
   * `queue` waiting, every label in the queue within one of the label of
   * its front, and every printed vertex explored.
   */
  ghost predicate Searching<V(!new)>(graph: Graph<V>, start: V, order: seq<V>, queue: seq<V>, visited: set<V>, dist: map<V, nat>) {
    Discovered(graph, start, order + queue, visited, dist)
    && (queue != [] ==> forall q :: q in queue ==> q in dist && queue[0] in dist && dist[q] <= dist[queue[0]] + 1)
    && Explored(graph, order, dist)
  }

  /** The search starts with only `start` visited, queued and labelled 0. */
  lemma Initial<V(!new)>(graph: Graph<V>, start: V)
    requires start in graph
    ensures Searching(graph, start, [], [start], {start}, map[start := 0])
  {
    InitialDiscovered(graph, start);
    assert [] + [start] == [start];
  }

  lemma InitialDiscovered<V(!new)>(graph: Graph<V>, start: V)
    requires start in graph
    ensures Discovered(graph, start, [start], {start}, map[start := 0])
  {
    ReachSelf(graph, start);
    assert Elems([start]) == Elems([]) + {start} by { assert [start][..0] == []; }
  }

  lemma Dequeue<V>(order: seq<V>, queue: seq<V>)
    requires queue != []
    ensures (order + [queue[0]]) + queue[1..] == order + queue
  {
  }

  /**
   * One round of the loop: the front of the queue is dequeued and printed,
   * then its neighbours are visited. Either the visited set grows or the
   * queue shrinks.
   */
  method VisitNext<V(!new)>(graph: Graph<V>, ghost start: V, order: seq<V>, queue: seq<V>, visited: set<V>, ghost dist: map<V, nat>)
    returns (order': seq<V>, queue': seq<V>, visited': set<V>, ghost dist': map<V, nat>)
    requires Closed(graph) && Searching(graph, start, order, queue, visited, dist) && queue != []
    ensures Searching(graph, start, order', queue', visited', dist')
    ensures order' == order + [queue[0]]
    ensures |graph.Keys - visited'| < |graph.Keys - visited| || (visited' == visited && |queue'| < |queue|)
  {
    var vertex := queue[0];
    Dequeue(order, queue);
    order' := order + [vertex];
    visited', queue', dist' := VisitNeighbours(graph, vertex, visited, queue[1..], dist);
    EnqueuedKeepsOrder(graph, start, order', vertex, Marks(visited, queue[1..], dist), dist[vertex], graph[vertex], Marks(visited', queue', dist'));
    WithinOne(order', queue', dist', vertex, dist[vertex]);
    ElemsMembership(order' + queue');
    ExploredGrow(graph, order, vertex, dist, dist');
    FrontWithinOne(order', queue', dist', dist[vertex]);
    Progress(graph.Keys, visited, visited', |queue|, |queue'|);
  }

  /**
   * If the last printed vertex has label `b` and no queued label exceeds
   * `b + 1`, every queued label is within one of the front's.
   */
  lemma FrontWithinOne<V>(order: seq<V>, queue: seq<V>, dist: map<V, nat>, b: nat)
    requires Layered(order + queue, dist) && order != []
    requires order[|order| - 1] in dist && dist[order[|order| - 1]] == b
    requires forall q :: q in queue ==> q in dist && dist[q] <= b + 1
    ensures queue != [] ==> forall q :: q in queue ==> q in dist && queue[0] in dist && dist[q] <= dist[queue[0]] + 1
  {
    if queue != [] {
      assert (order + queue)[|order| - 1] == order[|order| - 1] && (order + queue)[|order|] == queue[0];
    }
  }

  /** The visited set grows within `keys`, or else the queue shrinks. */
  lemma Progress<V>(keys: set<V>, visited: set<V>, visited': set<V>, n: nat, n': nat)
    requires visited <= visited' <= keys && (visited' == visited ==> n' < n)
    ensures |keys - visited'| < |keys - visited| || (visited' == visited && n' < n)
  {
    if visited' != visited {
      SubsetSize(keys - visited', keys - visited);
    }
  }

  /** When the queue is empty, the printed vertices and their labels are as `Bfs` promises. */
  lemma Finished<V(!new)>(graph: Graph<V>, start: V, order: seq<V>, visited: set<V>, dist: map<V, nat>)
    requires Closed(graph) && Searching(graph, start, order, [], visited, dist)
    ensures order != [] && order[0] == start
    ensures Distinct(order)
    ensures forall u :: u in order <==> Reachable(graph, start, u)
    ensures forall u :: u in dist <==> u in order
    ensures forall u :: u in dist ==> IsDistance(graph, start, u, dist[u])
    ensures forall i, j :: 0 <= i < j < |order| ==> dist[order[i]] <= dist[order[j]]
  {
    assert order + [] == order;
    ElemsMembership(order);
    ClosedSetContainsReachable(graph, visited, start);
    LabelIsDistance(graph, dist, start);
  }

  /**
   * `bfs(graph, start)`: the vertices printed, in order. The start comes
   * first, no vertex comes twice, exactly the vertices reachable from the
   * start come at all, and they come in order of their distance from the
   * start, which `dist` gives.
   */
  method Bfs<V(!new)>(graph: Graph<V>, start: V) returns (order: seq<V>, ghost dist: map<V, nat>)
    requires Closed(graph) && start in graph
    ensures order != [] && order[0] == start
    ensures Distinct(order)
    ensures forall u :: u in order <==> Reachable(graph, start, u)
    ensures forall u :: u in dist <==> u in order
    ensures forall u :: u in dist ==> IsDistance(graph, start, u, dist[u])
    ensures forall i, j :: 0 <= i < j < |order| ==> dist[order[i]] <= dist[order[j]]
  {
    var visited := {start};
    var queue := [start];
    order := [];
    dist := map[start := 0];
    Initial(graph, start);
    while queue != []
      invariant Searching(graph, start, order, queue, visited, dist)
      decreases |graph.Keys - visited|, |queue|
    {
      order, queue, visited, dist := VisitNext(graph, start, order, queue, visited, dist);
    }
    Finished(graph, start, order, visited, dist);
  }

  /** A sequence with no vertex twice has as many elements as vertices. */
  lemma {:induction false} DistinctCount<V>(s: seq<V>)
    requires Distinct(s)
    ensures |Elems(s)| == |s|
    decreases |s|
  {
    if s != [] {
      var p := s[..|s| - 1];
      assert Distinct(p);
      DistinctCount(p);
      ElemsMembership(p);
      assert s[|s| - 1] !in p;
    }
  }

  /** In the example graph D is two edges from A, and B and C are one. */
  lemma DemoDistances(dist: map<char, nat>)
    requires forall u :: u in dist ==> IsDistance(DemoGraph(), 'A', u, dist[u])
    requires 'B' in dist && 'C' in dist && 'D' in dist
    ensures dist['B'] == 1 && dist['C'] == 1 && dist['D'] == 2
  {
    var g := DemoGraph();
    assert PathFromTo(g, ['A', 'B'], 'A', 'B');
    assert PathFromTo(g, ['A', 'C'], 'A', 'C');
    assert PathFromTo(g, ['A', 'B', 'D'], 'A', 'D');
    var pb :| PathFromTo(g, pb, 'A', 'B') && |pb| == dist['B'] + 1;
    assert |pb| > 1 by {
      assert pb[|pb| - 1] == 'B' && pb[0] == 'A';
    }
    var pc :| PathFromTo(g, pc, 'A', 'C') && |pc| == dist['C'] + 1;
    assert |pc| > 1 by {
      assert pc[|pc| - 1] == 'C' && pc[0] == 'A';
    }
    var p :| PathFromTo(g, p, 'A', 'D') && |p| == dist['D'] + 1;
    assert |p| > 2 by {
      assert p[|p| - 1] == 'D' && p[0] == 'A';
    }
  }

  /** An order holding each of the four vertices of the example graph once has four elements. */
  lemma DemoCount(order: seq<char>)
    requires Distinct(order)
    requires forall u :: u in order <==> u in {'A', 'B', 'C', 'D'}
    ensures |order| == 4
  {
    DistinctCount(order);
    ElemsMembership(order);
    assert Elems(order) == {'A', 'B', 'C', 'D'};
  }

  /**
   * Four distinct vertices of the example graph, A first and labels
   * non-decreasing, where D is labelled above B and C: D comes last.
   */
  lemma DemoOrder(order: seq<char>, dist: map<char, nat>)
    requires |order| == 4 && order[0] == 'A' && Distinct(order)
    requires forall u :: u in order <==> u in {'A', 'B', 'C', 'D'}
    requires forall u :: u in order ==> u in dist
    requires forall i, j :: 0 <= i < j < |order| ==> dist[order[i]] <= dist[order[j]]
    requires dist['B'] <= 1 && dist['C'] <= 1 && dist['D'] >= 2
    ensures order[3] == 'D'
    ensures {order[1], order[2]} == {'B', 'C'}
  {
    assert 'D' in order;
    assert order[1] in order && order[2] in order && order[3] in order;
    var i :| 0 <= i < |order| && order[i] == 'D';
    assert i == 3;
  }

  /**
   * DSA.py's example: a search of the example graph from A prints A
   * first, then B and C (one edge away) in some order, then D (two edges
   * away).
   */
  method BfsExample() returns (order: seq<char>)
    ensures |order| == 4 && order[0] == 'A' && order[3] == 'D'
    ensures {order[1], order[2]} == {'B', 'C'}
  {
    ghost var dist;
    DemoConnected();
    order, dist := Bfs(DemoGraph(), 'A');
    DemoCount(order);
    DemoDistances(dist);
    DemoOrder(order, dist);
  }
}
