/**
 * Depth-first search of DSA.py. The source mutates one visited set shared
 * by all recursive calls; here the set is a value passed into each call
 * and handed back enlarged, which is the same set at every point of the
 * computation.
 */
module DepthFirst {
  import opened Graphs

  /**
   * `dfs(graph, node, visited)`: marks `node`, then visits every neighbour
   * not yet marked, in the order `graph[node]` lists them.
   *
   * The result holds everything marked before and `node`, and nothing
   * outside the graph; everything newly marked is reachable from `node`;
   * and the neighbours of `node` and of every newly marked vertex are
   * marked.
   */
  method DfsVisit<V(!new)>(graph: Graph<V>, node: V, visited: set<V>) returns (r: set<V>)
    requires Closed(graph) && node in graph && visited <= graph.Keys
    ensures visited + {node} <= r <= graph.Keys
    ensures forall u :: u in r && u !in visited ==> Reachable(graph, node, u)
    ensures forall v :: v in graph[node] ==> v in r
    ensures forall u, v :: u in r && u !in visited && v in graph[u] ==> v in r
    decreases |graph.Keys - visited|, if node in visited then 1 else 0
  {
    r := visited + {node};
    ReachSelf(graph, node);
    var neighbours := graph[node];
    for n := 0 to |neighbours|
      invariant visited + {node} <= r <= graph.Keys
      invariant forall u :: u in r && u !in visited ==> Reachable(graph, node, u)
      invariant forall m :: 0 <= m < n ==> neighbours[m] in r
      invariant forall u, v :: u in r && u !in visited && u != node && v in graph[u] ==> v in r
    {
      var neighbour := neighbours[n];
      if neighbour !in r {
        SubsetSize(graph.Keys - r, graph.Keys - visited);
        if node !in visited {
          assert node in graph.Keys - visited;
        }
        ghost var before := r;
        r := DfsVisit(graph, neighbour, r);
        forall u | u in r && u !in visited ensures Reachable(graph, node, u) {
          if u !in before {
            ReachStep(graph, node, neighbour, u);
          }
        }
      }
    }
  }

  /**
   * `dfs(graph, start)` with no visited set: the vertices it returns are
   * exactly those reachable from `start`.
   */
  method Dfs<V(!new)>(graph: Graph<V>, start: V) returns (r: set<V>)
    requires Closed(graph) && start in graph
    ensures forall u :: u in r <==> Reachable(graph, start, u)
  {
    r := DfsVisit(graph, start, {});
    ClosedSetContainsReachable(graph, r, start);
  }

  /** DSA.py's example: a search of the example graph from A marks all four vertices. */
  method DfsExample() returns (r: set<char>)
    ensures r == {'A', 'B', 'C', 'D'}
  {
    DemoConnected();
    r := Dfs(DemoGraph(), 'A');
  }
}
