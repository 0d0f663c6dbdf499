/** `primMST`: Prim's algorithm, grown from the first node of the store's
    iteration order over a min-priority queue of edges keyed on weight. The
    queue is a multiset; `top` is some edge of least weight in it. */
module Prim {
  import opened Edges
  import opened Adjacency

  /** The nodes spanned by a tree grown from `start` along `mst`: the start
      node and the destination of every selected edge. */
  ghost function Tree(start: Node, mst: seq<Edge>): set<Node> {
    {start} + set k | 0 <= k < |mst| :: mst[k].destination
  }

  lemma TreeStep(start: Node, mst: seq<Edge>, e: Edge)
    ensures Tree(start, mst + [e]) == Tree(start, mst) + {e.destination}
  {
    var mst' := mst + [e];
    assert forall k :: 0 <= k < |mst| ==> mst'[k] == mst[k];
    assert mst'[|mst|] == e;
  }

  /** `e` is a stored edge leaving the node set `s`. */
  ghost predicate Crossing(adj: Adj, s: set<Node>, e: Edge) {
    Stored(adj, e) && e.source in s && e.destination !in s
  }

  /** `e` leaves `s`, and no stored edge leaving `s` is lighter. */
  ghost predicate LightestCrossing(adj: Adj, s: set<Node>, e: Edge) {
    Crossing(adj, s, e) && forall f :: Crossing(adj, s, f) ==> e.weight <= f.weight
  }

  /** Prim's selection rule: every selected edge is a lightest edge leaving
      the tree built before it. */
  ghost predicate IsPrimTree(adj: Adj, start: Node, mst: seq<Edge>) {
    forall k :: 0 <= k < |mst| ==> LightestCrossing(adj, Tree(start, mst[..k]), mst[k])
  }

  /** What the selection rule says about the edges one by one: each is a
      stored edge whose source the tree already spans when it is selected and
      whose destination it does not, so no destination is the start node and
      no two destinations coincide. */
  lemma PrimTreeEdges(adj: Adj, start: Node, mst: seq<Edge>)
    requires IsPrimTree(adj, start, mst)
    ensures forall k :: 0 <= k < |mst| ==> Stored(adj, mst[k]) && mst[k].destination != start
    ensures forall k :: 0 <= k < |mst| ==>
      mst[k].source == start || exists j :: 0 <= j < k && mst[j].destination == mst[k].source
    ensures forall j, k :: 0 <= j < k < |mst| ==> mst[j].destination != mst[k].destination
  {
    forall k | 0 <= k < |mst|
      ensures Stored(adj, mst[k]) && mst[k].destination != start
      ensures mst[k].source == start || exists j :: 0 <= j < k && mst[j].destination == mst[k].source
      ensures forall j :: 0 <= j < k ==> mst[j].destination != mst[k].destination
    {
      var t := Tree(start, mst[..k]);
      assert LightestCrossing(adj, t, mst[k]);
      forall j | 0 <= j < k
        ensures mst[j].destination != mst[k].destination
      {
        assert mst[..k][j] == mst[j];
        assert mst[j].destination in t;
      }
      if mst[k].source != start {
        var j :| 0 <= j < k && mst[..k][j].destination == mst[k].source;
        assert mst[..k][j] == mst[j];
      }
    }
  }

  /** A prefix of a tree grown by the selection rule was grown by it too. */
  lemma PrimTreePrefix(adj: Adj, start: Node, mst: seq<Edge>, n: nat)
    requires IsPrimTree(adj, start, mst) && n <= |mst|
    ensures IsPrimTree(adj, start, mst[..n])
  {
    var init := mst[..n];
    forall k | 0 <= k < |init|
      ensures LightestCrossing(adj, Tree(start, init[..k]), init[k])
    {
      assert init[..k] == mst[..k] && init[k] == mst[k];
    }
  }

  /** The tree spans one node more than it has edges. */
  lemma {:induction false} PrimTreeSize(adj: Adj, start: Node, mst: seq<Edge>)
    requires IsPrimTree(adj, start, mst)
    ensures |Tree(start, mst)| == |mst| + 1
  {
    if mst == [] {
      assert Tree(start, mst) == {start};
    } else {
      var n := |mst| - 1;
      var init, e := mst[..n], mst[n];
      PrimTreePrefix(adj, start, mst, n);
      PrimTreeSize(adj, start, init);
      assert mst == init + [e];
      TreeStep(start, init, e);
      assert Crossing(adj, Tree(start, init), e);
    }
  }

  /** The state of the main loop: `visited` is the tree spanned so far, whose
      nodes are all reachable from `start`; every queued edge leads out of a
      visited node, and every stored edge leaving the tree is queued. */
  ghost predicate Growing(adj: Adj, start: Node, visited: set<Node>, pq: multiset<Edge>, mst: seq<Edge>) {
    && start in adj
    && visited == Tree(start, mst) && visited <= adj.Keys && |visited| == |mst| + 1
    && IsPrimTree(adj, start, mst)
    && (forall e :: e in pq ==> Stored(adj, e) && e.source in visited)
    && (forall e :: Crossing(adj, visited, e) ==> e in pq)
    && (forall v :: v in visited ==> Reachable(adj, start, v))
  }

  /** The edges of `list` whose destination is not in `visited`, in order. */
  function Outward(list: seq<Edge>, visited: set<Node>): (r: seq<Edge>)
    ensures forall e :: e in r <==> e in list && e.destination !in visited
  {
    if list == [] then []
    else
      var init, e := list[..|list| - 1], list[|list| - 1];
      assert list == init + [e];
      Outward(init, visited) + if e.destination in visited then [] else [e]
  }

  /** The first loop of `primMST`: every edge of the start node is queued. */
  method PushAll(list: seq<Edge>, pq: multiset<Edge>) returns (pq': multiset<Edge>)
    ensures pq' == pq + multiset(list)
  {
    pq' := pq;
    for j := 0 to |list|
      invariant pq' == pq + multiset(list[..j])
    {
      assert list[..j + 1] == list[..j] + [list[j]];
      pq' := pq' + multiset{list[j]};
    }
    assert list[..|list|] == list;
  }

  /** The inner loop of `primMST`: the edges of the node just visited that
      lead to unvisited nodes are queued. */
  method PushOutward(list: seq<Edge>, visited: set<Node>, pq: multiset<Edge>) returns (pq': multiset<Edge>)
    ensures pq' == pq + multiset(Outward(list, visited))
  {
    pq' := pq;
    for j := 0 to |list|
      invariant pq' == pq + multiset(Outward(list[..j], visited))
    {
      assert list[..j + 1][..j] == list[..j];
      if list[j].destination !in visited {
        pq' := pq' + multiset{list[j]};
      }
    }
    assert list[..|list|] == list;
  }

  /** A nonempty queue has an edge of least weight. */
  lemma {:induction false} MinExists(pq: multiset<Edge>)
    requires pq != multiset{}
    ensures exists e :: e in pq && forall f :: f in pq ==> e.weight <= f.weight
  {
    var x :| x in pq;
    var rest := pq - multiset{x};
    assert forall f :: f in pq ==> f == x || f in rest;
    if rest != multiset{} {
      MinExists(rest);
      var m :| m in rest && forall f :: f in rest ==> m.weight <= f.weight;
      if m.weight < x.weight {
        assert m in pq;
      }
    }
  }

  lemma StartGrowing(adj: Adj, start: Node, pq: multiset<Edge>)
    requires WellFormed(adj) && start in adj && pq == multiset(adj[start])
    ensures Growing(adj, start, {start}, pq, [])
  {
    assert Tree(start, []) == {start};
    forall e | e in pq
      ensures Stored(adj, e) && e.source == start
    {
      var k :| 0 <= k < |adj[start]| && adj[start][k] == e;
    }
    ReachableRefl(adj, start);
  }

  /** Discarding a popped edge whose destination the tree already spans
      (the `continue` branch) keeps the loop's state. */
  lemma SkipEdge(adj: Adj, start: Node, visited: set<Node>, pq: multiset<Edge>, mst: seq<Edge>, e: Edge)
    requires Growing(adj, start, visited, pq, mst) && e in pq && e.destination in visited
    ensures Growing(adj, start, visited, pq - multiset{e}, mst)
  {
    forall f | Crossing(adj, visited, f)
      ensures f in pq - multiset{e}
    {
      assert f != e;
    }
  }

  /** Selecting a lightest queued edge that leaves the tree, visiting its
      destination and queueing that node's outward edges keeps the loop's
      state. */
  lemma VisitEdge(adj: Adj, start: Node, visited: set<Node>, pq: multiset<Edge>, mst: seq<Edge>, e: Edge, pq': multiset<Edge>)
    requires WellFormed(adj) && Growing(adj, start, visited, pq, mst)
    requires e in pq && (forall f :: f in pq ==> e.weight <= f.weight) && e.destination !in visited
    requires pq' == (pq - multiset{e}) + multiset(Outward(adj[e.destination], visited + {e.destination}))
    ensures Growing(adj, start, visited + {e.destination}, pq', mst + [e])
  {
    var d, visited', mst' := e.destination, visited + {e.destination}, mst + [e];
    assert Stored(adj, e) && e.source in visited;
    assert d in adj by {
      var k :| 0 <= k < |adj[e.source]| && adj[e.source][k] == e;
    }
    TreeStep(start, mst, e);
    // the selection rule for the new edge
    assert LightestCrossing(adj, visited, e) by {
      forall f | Crossing(adj, visited, f)
        ensures e.weight <= f.weight
      {
        assert f in pq;
      }
    }
    forall k | 0 <= k < |mst'|
      ensures LightestCrossing(adj, Tree(start, mst'[..k]), mst'[k])
    {
      if k < |mst| {
        assert mst'[..k] == mst[..k] && mst'[k] == mst[k];
      } else {
        assert mst'[..k] == mst;
      }
    }
    // the queue
    forall f | f in pq'
      ensures Stored(adj, f) && f.source in visited'
    {
      if f !in pq - multiset{e} {
        assert f in adj[d];
        var k :| 0 <= k < |adj[d]| && adj[d][k] == f;
      }
    }
    forall f | Crossing(adj, visited', f)
      ensures f in pq'
    {
      if f.source == d {
        assert f in Outward(adj[d], visited');
      } else {
        assert Crossing(adj, visited, f) && f != e;
      }
    }
    // reachability
    assert Adjacent(adj, e.source, d) by {
      var k :| 0 <= k < |adj[e.source]| && adj[e.source][k] == e;
    }
    ReachableExtend(adj, start, e.source, d);
  }

  /** Once the queue is empty no stored edge leaves the tree, so the tree
      spans exactly the nodes reachable from the start node. */
  lemma Exhausted(adj: Adj, start: Node, visited: set<Node>, mst: seq<Edge>)
    requires WellFormed(adj) && Growing(adj, start, visited, multiset{}, mst)
    ensures forall v :: v in visited <==> Reachable(adj, start, v)
  {
    forall u, k | u in visited && u in adj && 0 <= k < |adj[u]|
      ensures adj[u][k].destination in visited
    {
      var f := adj[u][k];
      assert Stored(adj, f);
      if f.destination !in visited {
        assert Crossing(adj, visited, f);
      }
    }
    forall v | Reachable(adj, start, v)
      ensures v in visited
    {
      ClosedHoldsReachable(adj, visited, start, v);
    }
  }

  lemma EnumerationNonEmpty<X>(s: seq<X>, xs: set<X>)
    requires IsEnumeration(s, xs) && xs != {}
    ensures |s| > 0
  {
  }

  /** `primMST`. On a store with no nodes it throws `invalid_argument`.
      Otherwise it grows a tree from the first node of the iteration order:
      each selected edge is a lightest stored edge leaving the tree built
      before it (`PrimTreeEdges` spells out what that implies), the result
      has fewer edges than the store has nodes, and the tree spans exactly
      the nodes reachable from the start node. */
  method PrimMST(adj: Adj, order: seq<Node>) returns (r: Result<seq<Edge>>)
    requires WellFormed(adj) && IsEnumeration(order, adj.Keys)
    ensures r.Err? <==> adj.Keys == {}
    ensures r.Err? ==> r.failure == GraphIsEmpty
    ensures r.Ok? ==> |order| > 0 && IsPrimTree(adj, order[0], r.value) && |r.value| < |adj.Keys|
    ensures r.Ok? ==> forall v :: v in Tree(order[0], r.value) <==> Reachable(adj, order[0], v)
  {
    if adj.Keys == {} {
      return Err(GraphIsEmpty);
    }
    EnumerationNonEmpty(order, adj.Keys);
    var start := order[0];
    assert start in adj by {
      assert start in set i | 0 <= i < |order| :: order[i];
    }
    var visited := {start};
    var mst := [];
    var pq := PushAll(adj[start], multiset{});
    StartGrowing(adj, start, pq);

    while pq != multiset{}
      invariant Growing(adj, start, visited, pq, mst)
      decreases |adj.Keys - visited|, |pq|
    {
      MinExists(pq);
      var e :| e in pq && forall f :: f in pq ==> e.weight <= f.weight;
      assert Stored(adj, e) && e.source in visited;
      if e.destination in visited {
        SkipEdge(adj, start, visited, pq, mst, e);
        pq := pq - multiset{e};
        continue;
      }
      var d := e.destination;
      assert d in adj by {
        var k :| 0 <= k < |adj[e.source]| && adj[e.source][k] == e;
      }
      var pq' := PushOutward(adj[d], visited + {d}, pq - multiset{e});
      VisitEdge(adj, start, visited, pq, mst, e, pq');
      assert adj.Keys - (visited + {d}) < adj.Keys - visited;
      visited, mst, pq := visited + {d}, mst + [e], pq';
    }
    Exhausted(adj, start, visited, mst);
    return Ok(mst);
  }
}
