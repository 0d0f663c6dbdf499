/** The adjacency store's shape (`adjList`: node -> ordered list of outgoing
    edges), its invariants, and the graph-theoretic notions the algorithms'
    contracts are stated in. */
module Adjacency {
  import opened Edges

  /** `std::unordered_map<T, std::vector<Edge<T, W>>> adjList`. */
  type Adj = map<Node, seq<Edge>>

  /** The store's invariant, kept by `addEdge`: every edge is filed under its
      source, and its destination is a registered node. */
  ghost predicate WellFormed(adj: Adj) {
    forall u, k :: u in adj && 0 <= k < |adj[u]| ==>
      adj[u][k].source == u && adj[u][k].destination in adj
  }

  /** The mirror image of an edge, as an undirected `addEdge` files it. */
  function Reversed(e: Edge): (r: Edge)
    ensures r.source == e.destination && r.destination == e.source && r.weight == e.weight
  {
    Edge(e.destination, e.source, e.weight)
  }

  /** The extra invariant of an undirected graph: the mirror image of every
      stored edge is filed under the edge's destination. */
  ghost predicate Mirrored(adj: Adj) {
    forall u, k :: u in adj && 0 <= k < |adj[u]| ==>
      adj[u][k].destination in adj && Reversed(adj[u][k]) in adj[adj[u][k].destination]
  }

  /** `s` lists every element of `xs` exactly once: a fixed iteration order of
      a hash container whose keys are `xs`. */
  ghost predicate IsEnumeration<X>(s: seq<X>, xs: set<X>) {
    && (forall i, j :: 0 <= i < j < |s| ==> s[i] != s[j])
    && (set i | 0 <= i < |s| :: s[i]) == xs
  }

  /** An enumeration has one entry per element. */
  lemma {:induction false} EnumerationLength<X>(s: seq<X>, xs: set<X>)
    requires IsEnumeration(s, xs)
    ensures |s| == |xs|
  {
    if s != [] {
      var init, x := s[..|s| - 1], s[|s| - 1];
      var ys := set i | 0 <= i < |init| :: init[i];
      forall y | y in xs
        ensures y in ys + {x}
      {
        var i :| 0 <= i < |s| && s[i] == y;
        if i < |init| {
          assert init[i] == y;
        }
      }
      assert x !in ys;
      assert xs == ys + {x};
      EnumerationLength(init, ys);
    }
  }

  /** Reaching a new node shrinks the set of unreached ones. */
  lemma Shrinks(all: set<Node>, before: set<Node>, reached: set<Node>, x: Node)
    requires before <= reached && x in all && x !in reached
    ensures |all - (reached + {x})| < |all - before|
  {
    var small, big := all - (reached + {x}), all - before;
    assert big == small + (big - small) && small * (big - small) == {};
    assert x in big - small;
  }

  /** Reaching nodes never grows the set of unreached ones. */
  lemma NoMore(all: set<Node>, before: set<Node>, reached: set<Node>)
    requires before <= reached
    ensures |all - reached| <= |all - before|
  {
    var small, big := all - reached, all - before;
    assert big == small + (big - small) && small * (big - small) == {};
  }

  /** The edge lists of the nodes of `order`, concatenated in that order: the
      sequence a nested loop over `adjList` and each list visits. */
  function AllEdges(adj: Adj, order: seq<Node>): seq<Edge>
    requires forall u :: u in order ==> u in adj
  {
    if order == [] then [] else AllEdges(adj, order[..|order| - 1]) + adj[order[|order| - 1]]
  }

  /** An edge occurs in `AllEdges` exactly when it is stored under a node of
      `order`. */
  lemma {:induction false} InAllEdges(adj: Adj, order: seq<Node>, e: Edge)
    requires forall u :: u in order ==> u in adj
    ensures e in AllEdges(adj, order) <==> exists u :: u in order && e in adj[u]
  {
    if order != [] {
      var init := order[..|order| - 1];
      InAllEdges(adj, init, e);
      assert forall u :: u in order <==> u in init || u == order[|order| - 1];
    }
  }

  /** For a well-formed store enumerated by `order`, the stored edges are
      those filed under their own source. */
  lemma StoredEdge(adj: Adj, order: seq<Node>, e: Edge)
    requires WellFormed(adj) && IsEnumeration(order, adj.Keys)
    ensures e in AllEdges(adj, order) <==> e.source in adj && e in adj[e.source]
  {
    InAllEdges(adj, order, e);
    if e in AllEdges(adj, order) {
      var u :| u in order && e in adj[u];
      var k :| 0 <= k < |adj[u]| && adj[u][k] == e;
    }
  }

  /** `e` is filed under its source. */
  ghost predicate Stored(adj: Adj, e: Edge) {
    e.source in adj && e in adj[e.source]
  }

  /** Some edge of `u`'s list leads to `v`. */
  ghost predicate Adjacent(adj: Adj, u: Node, v: Node) {
    u in adj && exists k :: 0 <= k < |adj[u]| && adj[u][k].destination == v
  }

  /** `p` is a directed walk along stored edges. */
  ghost predicate IsPath(adj: Adj, p: seq<Node>) {
    |p| > 0 && forall i :: 0 <= i < |p| - 1 ==> Adjacent(adj, p[i], p[i + 1])
  }

  /** `b` can be reached from `a` by following stored edges. */
  ghost predicate Reachable(adj: Adj, a: Node, b: Node) {
    exists p :: IsPath(adj, p) && p[0] == a && p[|p| - 1] == b
  }

  lemma ReachableRefl(adj: Adj, a: Node)
    ensures Reachable(adj, a, a)
  {
    assert IsPath(adj, [a]);
  }

  /** Walking one edge and then a path is a path. */
  lemma {:induction false} ReachableStep(adj: Adj, a: Node, b: Node, c: Node)
    requires Adjacent(adj, a, b) && Reachable(adj, b, c)
    ensures Reachable(adj, a, c)
  {
    var p :| IsPath(adj, p) && p[0] == b && p[|p| - 1] == c;
    var q := [a] + p;
    assert forall i :: 1 <= i < |q| - 1 ==> q[i] == p[i - 1] && q[i + 1] == p[i];
    assert IsPath(adj, q);
  }

  /** A path followed by one more edge is a path. */
  lemma {:induction false} ReachableExtend(adj: Adj, a: Node, b: Node, c: Node)
    requires Reachable(adj, a, b) && Adjacent(adj, b, c)
    ensures Reachable(adj, a, c)
  {
    var p :| IsPath(adj, p) && p[0] == a && p[|p| - 1] == b;
    var q := p + [c];
    forall i | 0 <= i < |q| - 1
      ensures Adjacent(adj, q[i], q[i + 1])
    {
      if i < |p| - 1 {
        assert q[i] == p[i] && q[i + 1] == p[i + 1];
      } else {
        assert q[i] == b && q[i + 1] == c;
      }
    }
    assert IsPath(adj, q);
  }

  /** A set of nodes that contains `a` and that no stored edge leaves holds
      every node reachable from `a`. */
  lemma {:induction false} ClosedHoldsReachable(adj: Adj, s: set<Node>, a: Node, b: Node)
    requires a in s && Reachable(adj, a, b)
    requires forall u, k :: u in s && u in adj && 0 <= k < |adj[u]| ==> adj[u][k].destination in s
    ensures b in s
  {
    var p :| IsPath(adj, p) && p[0] == a && p[|p| - 1] == b;
    var i := 0;
    while i < |p| - 1
      invariant 0 <= i <= |p| - 1 && p[i] in s
    {
      assert Adjacent(adj, p[i], p[i + 1]);
      var k :| 0 <= k < |adj[p[i]]| && adj[p[i]][k].destination == p[i + 1];
      i := i + 1;
    }
  }

  // Undirected connectivity through a sequence of edges (Kruskal's forest).

  /** Some edge of `es` joins `a` and `b`, in either direction. */
  ghost predicate Linked(es: seq<Edge>, a: Node, b: Node) {
    exists k :: 0 <= k < |es| &&
      ((es[k].source == a && es[k].destination == b) || (es[k].source == b && es[k].destination == a))
  }

  /** `p` is an undirected walk along the edges of `es`. */
  ghost predicate IsWalk(es: seq<Edge>, p: seq<Node>) {
    |p| > 0 && forall i :: 0 <= i < |p| - 1 ==> Linked(es, p[i], p[i + 1])
  }

  /** `a` and `b` lie in the same tree of the forest `es`. */
  ghost predicate Connected(es: seq<Edge>, a: Node, b: Node) {
    exists p :: IsWalk(es, p) && p[0] == a && p[|p| - 1] == b
  }

  lemma ConnectedRefl(es: seq<Edge>, a: Node)
    ensures Connected(es, a, a)
  {
    assert IsWalk(es, [a]);
  }

  lemma ConnectedByEdge(es: seq<Edge>, k: nat)
    requires k < |es|
    ensures Connected(es, es[k].source, es[k].destination)
  {
    assert IsWalk(es, [es[k].source, es[k].destination]);
  }

  lemma {:induction false} ConnectedSym(es: seq<Edge>, a: Node, b: Node)
    requires Connected(es, a, b)
    ensures Connected(es, b, a)
  {
    var p :| IsWalk(es, p) && p[0] == a && p[|p| - 1] == b;
    var q := seq(|p|, i requires 0 <= i < |p| => p[|p| - 1 - i]);
    forall i | 0 <= i < |q| - 1
      ensures Linked(es, q[i], q[i + 1])
    {
      var j := |p| - 2 - i;
      assert q[i] == p[j + 1] && q[i + 1] == p[j];
      assert Linked(es, p[j], p[j + 1]);
    }
    assert IsWalk(es, q);
  }

  lemma {:induction false} ConnectedTrans(es: seq<Edge>, a: Node, b: Node, c: Node)
    requires Connected(es, a, b) && Connected(es, b, c)
    ensures Connected(es, a, c)
  {
    var p :| IsWalk(es, p) && p[0] == a && p[|p| - 1] == b;
    var q :| IsWalk(es, q) && q[0] == b && q[|q| - 1] == c;
    var r := p + q[1..];
    forall i | 0 <= i < |r| - 1
      ensures Linked(es, r[i], r[i + 1])
    {
      if i < |p| - 1 {
        assert r[i] == p[i] && r[i + 1] == p[i + 1];
      } else {
        var j := i - |p| + 1;
        assert r[i] == q[j] && r[i + 1] == q[j + 1];
      }
    }
    assert IsWalk(es, r);
  }

  /** Adding edges keeps every connection. */
  lemma {:induction false} ConnectedGrow(es: seq<Edge>, e: Edge, a: Node, b: Node)
    requires Connected(es, a, b)
    ensures Connected(es + [e], a, b)
  {
    var p :| IsWalk(es, p) && p[0] == a && p[|p| - 1] == b;
    forall i | 0 <= i < |p| - 1
      ensures Linked(es + [e], p[i], p[i + 1])
    {
      var k :| 0 <= k < |es| &&
        ((es[k].source == p[i] && es[k].destination == p[i + 1]) ||
         (es[k].source == p[i + 1] && es[k].destination == p[i]));
      assert (es + [e])[k] == es[k];
    }
    assert IsWalk(es + [e], p);
  }
}
