/**
 * Graphs as DSA.py represents them: a dictionary from each vertex to the
 * list of its neighbours. Paths, reachability and path lengths here are
 * the reference against which the traversals are proved.
 */
module Graphs {

  type Graph<V> = map<V, seq<V>>

  /** Every neighbour listed in `g` is itself a vertex of `g`. */
  ghost predicate Closed<V(!new)>(g: Graph<V>) {
    forall u, v :: u in g && v in g[u] ==> v in g
  }

  /** Every neighbour of a vertex of `S` is in `S`. */
  ghost predicate ClosedUnder<V(!new)>(g: Graph<V>, S: set<V>) {
    forall u, v :: u in S && u in g && v in g[u] ==> v in S
  }

  /** `p` is a non-empty walk in `g`: each vertex is followed by one of its neighbours. */
  ghost predicate IsPath<V(!new)>(g: Graph<V>, p: seq<V>) {
    p != [] && p[|p| - 1] in g
    && forall i :: 0 <= i < |p| - 1 ==> p[i] in g && p[i + 1] in g[p[i]]
  }

  ghost predicate PathFromTo<V(!new)>(g: Graph<V>, p: seq<V>, a: V, b: V) {
    IsPath(g, p) && p[0] == a && p[|p| - 1] == b
  }

  /** `b` can be reached from `a` by following edges (`a` reaches itself). */
  ghost predicate Reachable<V(!new)>(g: Graph<V>, a: V, b: V) {
    exists p :: PathFromTo(g, p, a, b)
  }

  /** `b` can be reached from `a` along exactly `n` edges. */
  ghost predicate ReachableIn<V(!new)>(g: Graph<V>, a: V, b: V, n: nat) {
    exists p :: PathFromTo(g, p, a, b) && |p| == n + 1
  }

  /** `n` is the distance from `a` to `b`: the number of edges of a shortest path. */
  ghost predicate IsDistance<V(!new)>(g: Graph<V>, a: V, b: V, n: nat) {
    ReachableIn(g, a, b, n) && forall p :: PathFromTo(g, p, a, b) ==> n + 1 <= |p|
  }

  /** A vertex reaches itself along no edges. */
  lemma ReachSelf<V(!new)>(g: Graph<V>, a: V)
    requires a in g
    ensures Reachable(g, a, a) && ReachableIn(g, a, a, 0)
  {
    assert PathFromTo(g, [a], a, a);
  }

  /** A vertex reaches whatever its neighbour `b` reaches. */
  lemma ReachStep<V(!new)>(g: Graph<V>, a: V, b: V, c: V)
    requires a in g && b in g[a] && Reachable(g, b, c)
    ensures Reachable(g, a, c)
  {
    var p :| PathFromTo(g, p, b, c);
    var q := [a] + p;
    assert forall i :: 1 <= i < |q| ==> q[i] == p[i - 1];
    assert PathFromTo(g, q, a, c);
  }

  /** A path of `n` edges to `x` followed by an edge from `x` is a path of `n + 1` edges. */
  lemma ReachExtend<V(!new)>(g: Graph<V>, a: V, x: V, v: V, n: nat)
    requires ReachableIn(g, a, x, n) && Closed(g) && v in g[x]
    ensures ReachableIn(g, a, v, n + 1)
  {
    var p :| PathFromTo(g, p, a, x) && |p| == n + 1;
    var q := p + [v];
    assert forall i :: 0 <= i < |p| ==> q[i] == p[i];
    assert PathFromTo(g, q, a, v);
  }

  /** A set closed under edges that holds the first vertex of a path holds the whole path. */
  lemma {:induction false} ClosedSetContainsPath<V(!new)>(g: Graph<V>, S: set<V>, p: seq<V>)
    requires IsPath(g, p) && p[0] in S && ClosedUnder(g, S)
    ensures p[|p| - 1] in S
    decreases |p|
  {
    if |p| > 1 {
      var q := p[..|p| - 1];
      assert forall i :: 0 <= i < |q| ==> q[i] == p[i];
      assert IsPath(g, q);
      ClosedSetContainsPath(g, S, q);
      assert p[|p| - 1] in g[p[|p| - 2]];
    }
  }

  /** A set closed under edges that holds `a` holds every vertex `a` reaches. */
  lemma ClosedSetContainsReachable<V(!new)>(g: Graph<V>, S: set<V>, a: V)
    requires a in S && ClosedUnder(g, S)
    ensures forall b :: Reachable(g, a, b) ==> b in S
  {
    forall b | Reachable(g, a, b) ensures b in S {
      var p :| PathFromTo(g, p, a, b);
      ClosedSetContainsPath(g, S, p);
    }
  }

  /**
   * A labelling that is 0 at `a` and grows by at most one along every
   * edge bounds from below the number of edges of any path from `a`.
   */
  lemma {:induction false} LabelBoundsPath<V(!new)>(g: Graph<V>, d: map<V, nat>, a: V, p: seq<V>)
    requires IsPath(g, p) && p[0] == a && a in d && d[a] == 0
    requires forall u, v :: u in d && u in g && v in g[u] ==> v in d && d[v] <= d[u] + 1
    ensures p[|p| - 1] in d && d[p[|p| - 1]] <= |p| - 1
    decreases |p|
  {
    if |p| > 1 {
      var q := p[..|p| - 1];
      assert forall i :: 0 <= i < |q| ==> q[i] == p[i];
      assert IsPath(g, q);
      LabelBoundsPath(g, d, a, q);
      assert p[|p| - 1] in g[p[|p| - 2]];
    }
  }

  /** Such a labelling, where every label is the length of some path, is the distance. */
  lemma LabelIsDistance<V(!new)>(g: Graph<V>, d: map<V, nat>, a: V)
    requires a in d && d[a] == 0
    requires forall u, v :: u in d && u in g && v in g[u] ==> v in d && d[v] <= d[u] + 1
    requires forall u :: u in d ==> ReachableIn(g, a, u, d[u])
    ensures forall u :: u in d ==> IsDistance(g, a, u, d[u])
  {
    forall u, p | u in d && PathFromTo(g, p, a, u) ensures d[u] + 1 <= |p| {
      LabelBoundsPath(g, d, a, p);
    }
  }

  /** A subset is no larger, and a proper subset is smaller. */
  lemma SubsetSize<T>(A: set<T>, B: set<T>)
    requires A <= B
    ensures |A| <= |B| && (A < B ==> |A| < |B|)
  {
    assert B == A + (B - A) && A * (B - A) == {};
    if A < B {
      var x :| x in B && x !in A;
      assert x in B - A;
    }
  }

  /** The graph of DSA.py's examples: A-B, A-C and B-D, each edge listed both ways. */
  function DemoGraph(): (g: Graph<char>)
    ensures g.Keys == {'A', 'B', 'C', 'D'}
  {
    map['A' := ['B', 'C'], 'B' := ['A', 'D'], 'C' := ['A'], 'D' := ['B']]
  }

  /** Every neighbour in the example graph is a vertex, and A reaches every vertex. */
  lemma DemoConnected()
    ensures Closed(DemoGraph())
    ensures forall u :: Reachable(DemoGraph(), 'A', u) <==> u in {'A', 'B', 'C', 'D'}
  {
    var g := DemoGraph();
    assert PathFromTo(g, ['A'], 'A', 'A');
    assert PathFromTo(g, ['A', 'B'], 'A', 'B');
    assert PathFromTo(g, ['A', 'C'], 'A', 'C');
    assert PathFromTo(g, ['A', 'B', 'D'], 'A', 'D');
    forall u | Reachable(g, 'A', u) ensures u in g {
      var p :| PathFromTo(g, p, 'A', u);
    }
  }
}
