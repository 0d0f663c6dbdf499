/** `kruskalMST`: collect the candidate edges, sort them by weight, and keep
    every edge whose endpoints the disjoint-set structure still has in two
    different sets. */
module Kruskal {
  import opened Edges
  import opened Adjacency
  import opened UnionFind

  // ---------------------------------------------------------------------
  // The candidate edges

  /** The filter of the collecting loop, kept literally: an undirected graph
      offers every stored edge (so both copies of each edge), a directed
      graph only those whose source is below their destination. */
  predicate Keep(directed: bool, e: Edge) {
    !directed || NodeLess(e.source, e.destination)
  }

  /** The kept edges of one edge list, in order. */
  function Filtered(directed: bool, es: seq<Edge>): (r: seq<Edge>)
    ensures forall e :: e in r <==> e in es && Keep(directed, e)
  {
    if es == [] then []
    else
      var init := Filtered(directed, es[..|es| - 1]);
      assert es == es[..|es| - 1] + [es[|es| - 1]];
      if Keep(directed, es[|es| - 1]) then init + [es[|es| - 1]] else init
  }

  /** The `edges` vector as the nested loop over `adjList` (in the order
      `order`) and each edge list builds it. */
  function Candidates(directed: bool, adj: Adj, order: seq<Node>): seq<Edge>
    requires forall u :: u in order ==> u in adj
  {
    if order == [] then []
    else Candidates(directed, adj, order[..|order| - 1]) + Filtered(directed, adj[order[|order| - 1]])
  }

  /** A stored edge that passes the filter. */
  ghost predicate Considered(directed: bool, adj: Adj, e: Edge) {
    e.source in adj && e in adj[e.source] && Keep(directed, e)
  }

  /** The candidates are exactly the stored edges that pass the filter: in a
      directed graph the edges going up in node order, in an undirected graph
      every stored edge. */
  lemma {:induction false} CandidatesAreConsidered(directed: bool, adj: Adj, order: seq<Node>, e: Edge)
    requires WellFormed(adj) && IsEnumeration(order, adj.Keys)
    ensures e in Candidates(directed, adj, order) <==> Considered(directed, adj, e)
    ensures !directed ==> (e in Candidates(directed, adj, order) <==> e in AllEdges(adj, order))
  {
    CandidatesOfPrefix(directed, adj, order, e);
    StoredEdge(adj, order, e);
    InAllEdges(adj, order, e);
    if e in Candidates(directed, adj, order) {
      var u :| u in order && e in adj[u];
      var k :| 0 <= k < |adj[u]| && adj[u][k] == e;
    }
  }

  lemma {:induction false} CandidatesOfPrefix(directed: bool, adj: Adj, order: seq<Node>, e: Edge)
    requires forall u :: u in order ==> u in adj
    ensures e in Candidates(directed, adj, order) <==> (exists u :: u in order && e in adj[u]) && Keep(directed, e)
  {
    if order != [] {
      var init := order[..|order| - 1];
      CandidatesOfPrefix(directed, adj, init, e);
      assert forall u :: u in order <==> u in init || u == order[|order| - 1];
    }
  }

  lemma FilteredStep(directed: bool, es: seq<Edge>, j: nat)
    requires j < |es|
    ensures Filtered(directed, es[..j + 1]) ==
      Filtered(directed, es[..j]) + if Keep(directed, es[j]) then [es[j]] else []
  {
    assert es[..j + 1][..j] == es[..j];
  }

  lemma CandidatesStep(directed: bool, adj: Adj, order: seq<Node>, i: nat)
    requires i < |order| && forall u :: u in order ==> u in adj
    ensures Candidates(directed, adj, order[..i + 1]) ==
      Candidates(directed, adj, order[..i]) + Filtered(directed, adj[order[i]])
  {
    assert order[..i + 1][..i] == order[..i];
  }

  /** The collecting loop of `kruskalMST`. */
  method CollectCandidates(directed: bool, adj: Adj, order: seq<Node>) returns (edges: seq<Edge>)
    requires forall u :: u in order ==> u in adj
    ensures edges == Candidates(directed, adj, order)
  {
    edges := [];
    for i := 0 to |order|
      invariant edges == Candidates(directed, adj, order[..i])
    {
      var list := adj[order[i]];
      ghost var before := edges;
      for j := 0 to |list|
        invariant edges == before + Filtered(directed, list[..j])
      {
        FilteredStep(directed, list, j);
        if !directed || NodeLess(list[j].source, list[j].destination) {
          edges := edges + [list[j]];
        }
      }
      assert list[..|list|] == list;
      CandidatesStep(directed, adj, order, i);
    }
    assert order[..|order|] == order;
  }

  // ---------------------------------------------------------------------
  // Sorting by weight

  /** Ordered by `Edge::operator<`, that is by weight, ties in any order. */
  predicate SortedByWeight(s: seq<Edge>) {
    forall i, j :: 0 <= i < j < |s| ==> s[i].weight <= s[j].weight
  }

  function InsertByWeight(e: Edge, s: seq<Edge>): (r: seq<Edge>)
    requires SortedByWeight(s)
    ensures SortedByWeight(r) && multiset(r) == multiset(s) + multiset{e}
  {
    if s == [] || e.weight <= s[0].weight then
      SortedCons(e, s);
      [e] + s
    else
      assert s == [s[0]] + s[1..];
      var rest := InsertByWeight(e, s[1..]);
      HeadIsLightest(s, e, rest);
      SortedCons(s[0], rest);
      [s[0]] + rest
  }

  lemma SortedCons(x: Edge, s: seq<Edge>)
    requires SortedByWeight(s) && forall y :: y in s ==> x.weight <= y.weight
    ensures SortedByWeight([x] + s)
  {
    assert forall j :: 0 <= j < |s| ==> s[j] in s;
  }

  lemma HeadIsLightest(s: seq<Edge>, e: Edge, rest: seq<Edge>)
    requires SortedByWeight(s) && |s| > 0 && s[0].weight < e.weight
    requires multiset(rest) == multiset(s[1..]) + multiset{e}
    ensures forall y :: y in rest ==> s[0].weight <= y.weight
  {
    forall y | y in rest
      ensures s[0].weight <= y.weight
    {
      assert y in multiset(rest);
      if y != e {
        assert y in multiset(s[1..]);
        var j :| 0 <= j < |s[1..]| && s[1..][j] == y;
        assert s[j + 1] == y;
      }
    }
  }

  /** `std::sort(edges.begin(), edges.end())`: a permutation of the edges in
      ascending weight. `std::sort` is not stable and leaves the order of
      equal weights unspecified (`WeightLessIsNotTotal`); this insertion sort
      fixes one such order, and `KruskalMST` promises its result only for
      some weight-sorted permutation, not for this one. */
  function SortByWeight(s: seq<Edge>): (r: seq<Edge>)
    ensures SortedByWeight(r) && multiset(r) == multiset(s)
  {
    if s == [] then []
    else
      assert s == [s[0]] + s[1..];
      InsertByWeight(s[0], SortByWeight(s[1..]))
  }

  // ---------------------------------------------------------------------
  // The forest and the disjoint sets

  /** Every edge of `es` joins two nodes of one set. */
  ghost predicate InsideSets(es: seq<Edge>, parent: Parents, rank: Ranks) {
    && Ranked(parent, rank)
    && forall k :: 0 <= k < |es| ==>
         es[k].source in parent && es[k].destination in parent &&
         Root(parent, rank, es[k].source) == Root(parent, rank, es[k].destination)
  }

  /** The forest `es` connects every node to its set's root. */
  ghost predicate Spans(es: seq<Edge>, parent: Parents, rank: Ranks) {
    && Ranked(parent, rank)
    && forall x {:trigger Root(parent, rank, x)} :: x in parent ==> Connected(es, x, Root(parent, rank, x))
  }

  /** Path compression keeps both properties, which only speak of roots. */
  lemma CompressedKeepsForest(es: seq<Edge>, p: Parents, q: Parents, r: Ranks)
    requires Ranked(p, r) && Compressed(p, q, r)
    ensures InsideSets(es, p, r) ==> InsideSets(es, q, r)
    ensures Spans(es, p, r) ==> Spans(es, q, r)
  {
    if InsideSets(es, p, r) {
      forall k | 0 <= k < |es|
        ensures Root(q, r, es[k].source) == Root(q, r, es[k].destination)
      {
        assert Root(q, r, es[k].source) == Root(p, r, es[k].source);
        assert Root(q, r, es[k].destination) == Root(p, r, es[k].destination);
      }
    }
    if Spans(es, p, r) {
      forall x {:trigger Root(q, r, x)} | x in q
        ensures Connected(es, x, Root(q, r, x))
      {
        assert Root(q, r, x) == Root(p, r, x);
      }
    }
  }

  /** Merging two sets keeps every edge inside one set. */
  lemma MergeKeepsInside(es: seq<Edge>, p: Parents, r: Ranks, p2: Parents, r2: Ranks, a: Node, b: Node)
    requires Ranked(p2, r2) && p2.Keys == p.Keys && a in p && b in p && InsideSets(es, p, r)
    requires Merged(p, r, p2, r2, a, b)
    ensures InsideSets(es, p2, r2)
  {
    forall k | 0 <= k < |es|
      ensures Root(p2, r2, es[k].source) == Root(p2, r2, es[k].destination)
    {
      assert Root(p, r, es[k].source) == Root(p, r, es[k].destination);
      assert Root(p2, r2, es[k].source) == if Root(p, r, es[k].source) == Root(p, r, a) || Root(p, r, es[k].source) == Root(p, r, b) then Root(p2, r2, a) else Root(p, r, es[k].source);
      assert Root(p2, r2, es[k].destination) == if Root(p, r, es[k].destination) == Root(p, r, a) || Root(p, r, es[k].destination) == Root(p, r, b) then Root(p2, r2, a) else Root(p, r, es[k].destination);
    }
  }

  /** An edge inside one set can be added to a sequence of such edges. */
  lemma AppendInside(es: seq<Edge>, e: Edge, p: Parents, r: Ranks)
    requires InsideSets(es, p, r) && e.source in p && e.destination in p
    requires Root(p, r, e.source) == Root(p, r, e.destination)
    ensures InsideSets(es + [e], p, r)
  {
    forall k | 0 <= k < |es| + 1
      ensures (es + [e])[k].source in p && (es + [e])[k].destination in p
      ensures Root(p, r, (es + [e])[k].source) == Root(p, r, (es + [e])[k].destination)
    {
      if k < |es| {
        assert (es + [e])[k] == es[k];
      }
    }
  }

  lemma {:induction false} WalkSameSet(es: seq<Edge>, parent: Parents, rank: Ranks, w: seq<Node>, n: nat)
    requires InsideSets(es, parent, rank) && IsWalk(es, w) && w[0] in parent && n < |w|
    ensures w[n] in parent && Root(parent, rank, w[n]) == Root(parent, rank, w[0])
  {
    if n > 0 {
      WalkSameSet(es, parent, rank, w, n - 1);
      assert Linked(es, w[n - 1], w[n]);
    }
  }

  /** A forest made of edges inside sets connects only nodes of one set. */
  lemma ConnectedSameSet(es: seq<Edge>, parent: Parents, rank: Ranks, a: Node, b: Node)
    requires InsideSets(es, parent, rank) && a in parent && Connected(es, a, b)
    ensures b in parent && Root(parent, rank, a) == Root(parent, rank, b)
  {
    var w :| IsWalk(es, w) && w[0] == a && w[|w| - 1] == b;
    WalkSameSet(es, parent, rank, w, |w| - 1);
  }

  /** Adding an edge between the sets of `a` and `b` while merging them keeps
      every node connected to its set's root. */
  lemma MergeSpans(es: seq<Edge>, e: Edge, p: Parents, r: Ranks, p2: Parents, r2: Ranks)
    requires Ranked(p2, r2) && p2.Keys == p.Keys && e.source in p && e.destination in p && Spans(es, p, r)
    requires Merged(p, r, p2, r2, e.source, e.destination)
    ensures Spans(es + [e], p2, r2)
  {
    var root := Root(p2, r2, e.source);
    var es' := es + [e];
    var s, d := e.source, e.destination;
    var rs, rd := Root(p, r, s), Root(p, r, d);
    assert es'[|es|] == e;
    ConnectedByEdge(es', |es|);
    ConnectedGrow(es, e, s, rs);
    ConnectedGrow(es, e, d, rd);
    ConnectedSym(es', s, rs);
    ConnectedSym(es', d, rd);
    // both old roots are connected to the new one
    ConnectedTrans(es', rs, s, d);
    ConnectedTrans(es', rs, d, rd);
    ConnectedSym(es', rs, rd);
    ConnectedRefl(es', root);
    assert Connected(es', rs, root) && Connected(es', rd, root);
    forall x {:trigger Root(p2, r2, x)} | x in p2
      ensures Connected(es', x, Root(p2, r2, x))
    {
      var rx := Root(p, r, x);
      ConnectedGrow(es, e, x, rx);
      if rx == rs {
        ConnectedTrans(es', x, rs, root);
      } else if rx == rd {
        ConnectedTrans(es', x, rd, root);
      }
    }
  }

  /** The loop's picture of the disjoint sets: the forest `mst` and the
      candidates `done` already looked at all lie inside sets, and the
      forest connects every node to its set's root. */
  ghost predicate Forest(mst: seq<Edge>, done: seq<Edge>, parent: Parents, rank: Ranks) {
    InsideSets(mst, parent, rank) && Spans(mst, parent, rank) && InsideSets(done, parent, rank)
  }

  lemma CompressedKeepsBoth(mst: seq<Edge>, done: seq<Edge>, p: Parents, q: Parents, r: Ranks)
    requires Ranked(p, r) && Compressed(p, q, r) && Forest(mst, done, p, r)
    ensures Forest(mst, done, q, r)
  {
    CompressedKeepsForest(mst, p, q, r);
    CompressedKeepsForest(done, p, q, r);
  }

  /** Accepting an edge between two sets while merging them. */
  lemma MergeStep(mst: seq<Edge>, done: seq<Edge>, e: Edge, p: Parents, r: Ranks, p2: Parents, r2: Ranks)
    requires Ranked(p2, r2) && p2.Keys == p.Keys && e.source in p && e.destination in p && Forest(mst, done, p, r)
    requires Merged(p, r, p2, r2, e.source, e.destination)
    ensures Forest(mst + [e], done + [e], p2, r2)
  {
    MergeSpans(mst, e, p, r, p2, r2);
    MergeKeepsInside(mst, p, r, p2, r2, e.source, e.destination);
    MergeKeepsInside(done, p, r, p2, r2, e.source, e.destination);
    AppendInside(mst, e, p2, r2);
    AppendInside(done, e, p2, r2);
  }

  /** Skipping an edge inside one set. */
  lemma SkipStep(mst: seq<Edge>, done: seq<Edge>, e: Edge, p: Parents, r: Ranks)
    requires Forest(mst, done, p, r) && e.source in p && e.destination in p
    requires Root(p, r, e.source) == Root(p, r, e.destination)
    ensures Forest(mst, done + [e], p, r)
  {
    AppendInside(done, e, p, r);
  }

  /** No edge of `es` closes a cycle with the edges before it. */
  ghost predicate Acyclic(es: seq<Edge>) {
    forall k :: 0 <= k < |es| ==> !Connected(es[..k], es[k].source, es[k].destination)
  }

  /** No edge of `es` is heavier than the edges `sorted[i..]` still to come. */
  predicate WeightsUpTo(es: seq<Edge>, sorted: seq<Edge>, i: nat) {
    forall k, j :: 0 <= k < |es| && i <= j < |sorted| ==> es[k].weight <= sorted[j].weight
  }

  ghost predicate AllConsidered(directed: bool, adj: Adj, es: seq<Edge>) {
    forall k :: 0 <= k < |es| ==> Considered(directed, adj, es[k])
  }

  /** Accepting `sorted[i]`, which does not join two connected nodes, keeps
      the result sorted, made of candidates and acyclic. */
  lemma AcceptEdge(directed: bool, adj: Adj, mst: seq<Edge>, sorted: seq<Edge>, i: nat)
    requires i < |sorted| && SortedByWeight(sorted) && Considered(directed, adj, sorted[i])
    requires SortedByWeight(mst) && WeightsUpTo(mst, sorted, i) && AllConsidered(directed, adj, mst) && Acyclic(mst)
    requires !Connected(mst, sorted[i].source, sorted[i].destination)
    ensures var mst' := mst + [sorted[i]];
      SortedByWeight(mst') && WeightsUpTo(mst', sorted, i + 1) &&
      AllConsidered(directed, adj, mst') && Acyclic(mst')
  {
    var e, mst' := sorted[i], mst + [sorted[i]];
    forall k | 0 <= k < |mst'|
      ensures !Connected(mst'[..k], mst'[k].source, mst'[k].destination)
    {
      if k < |mst| {
        assert mst'[k] == mst[k] && mst'[..k] == mst[..k];
      } else {
        assert mst'[..k] == mst;
      }
    }
    forall k | 0 <= k < |mst'|
      ensures Considered(directed, adj, mst'[k])
    {
      if k < |mst| {
        assert mst'[k] == mst[k];
      }
    }
    forall k, j | 0 <= k < |mst'| && i + 1 <= j < |sorted|
      ensures mst'[k].weight <= sorted[j].weight
    {
      if k < |mst| {
        assert mst'[k] == mst[k];
      }
    }
    forall k, j | 0 <= k < j < |mst'|
      ensures mst'[k].weight <= mst'[j].weight
    {
      if j < |mst| {
        assert mst'[k] == mst[k] && mst'[j] == mst[j];
      } else {
        assert mst'[k] == mst[k];
      }
    }
  }

  lemma PrefixStep(s: seq<Edge>, i: nat)
    requires i < |s|
    ensures s[..i + 1] == s[..i] + [s[i]]
  {
  }

  // ---------------------------------------------------------------------
  // The algorithm

  /** Kruskal's selection rule without the disjoint sets: go through the
      edges in order and keep each one whose endpoints the edges kept so far
      do not connect yet. */
  ghost function Greedy(s: seq<Edge>): seq<Edge> {
    if s == [] then []
    else
      var kept, e := Greedy(s[..|s| - 1]), s[|s| - 1];
      if Connected(kept, e.source, e.destination) then kept else kept + [e]
  }

  /** No edges connect no two different nodes. */
  lemma NothingConnects(a: Node, b: Node)
    requires a != b
    ensures !Connected([], a, b)
  {
    forall p | IsWalk([], p)
      ensures |p| == 1
    {
      assert |p| > 1 ==> Linked([], p[0], p[1]);
    }
  }

  /** Why `KruskalMST` is specified up to the order of equal weights: two
      weight-sorted orders of the same two edges let the greedy rule keep
      different edges. */
  lemma TieOrderMatters()
    ensures var e1, e2 := Edge("A", "B", 1), Edge("B", "A", 1);
      && SortedByWeight([e1, e2]) && SortedByWeight([e2, e1])
      && multiset([e1, e2]) == multiset([e2, e1])
      && Greedy([e1, e2]) == [e1] && Greedy([e2, e1]) == [e2]
  {
    var e1, e2 := Edge("A", "B", 1), Edge("B", "A", 1);
    NothingConnects("A", "B");
    NothingConnects("B", "A");
    assert [e1, e2][..1] == [e1] && [e2, e1][..1] == [e2];
    assert [e1][..0] == [] && [e2][..0] == [];
    assert Greedy([e1]) == [e1];
    assert Greedy([e2]) == [e2];
    ConnectedByEdge([e1], 0);
    ConnectedSym([e1], "A", "B");
    ConnectedByEdge([e2], 0);
    ConnectedSym([e2], "B", "A");
  }

  /** `kruskalMST`. The result is the greedy selection from the candidates
      in some ascending-weight order (which one among equal weights
      `std::sort` leaves open). It lists candidate edges in ascending weight;
      each one joins two trees of the forest built before it (so the result
      has no cycle and at most one edge fewer than there are nodes), and at
      the end the endpoints of every candidate edge are connected by the
      forest. */
  method KruskalMST(directed: bool, adj: Adj, order: seq<Node>) returns (mst: seq<Edge>)
    requires WellFormed(adj) && IsEnumeration(order, adj.Keys)
    ensures exists s :: SortedByWeight(s) && multiset(s) == multiset(Candidates(directed, adj, order)) && mst == Greedy(s)
    ensures SortedByWeight(mst)
    ensures forall k :: 0 <= k < |mst| ==> Considered(directed, adj, mst[k])
    ensures Acyclic(mst)
    ensures forall e :: Considered(directed, adj, e) ==> Connected(mst, e.source, e.destination)
    ensures |adj.Keys| == 0 ==> mst == []
    ensures |adj.Keys| > 0 ==> |mst| < |adj.Keys|
  {
    var edges := CollectCandidates(directed, adj, order);
    var sorted := SortByWeight(edges);
    SortedAreConsidered(directed, adj, order, sorted);
    var rank, parent := InitialSets(adj, order);
    mst, rank, parent := GrowForest(directed, adj, sorted, rank, parent);
    SpanningAtEnd(directed, adj, order, sorted, mst, parent, rank);
    assert SortedByWeight(sorted) && multiset(sorted) == multiset(Candidates(directed, adj, order)) && mst == Greedy(sorted);
  }

  /** What the main loop keeps after looking at `sorted[..i]`. */
  ghost predicate Progress(directed: bool, adj: Adj, sorted: seq<Edge>, i: nat, mst: seq<Edge>, parent: Parents, rank: Ranks) {
    && i <= |sorted|
    && Ranked(parent, rank) && parent.Keys == adj.Keys && rank.Keys == adj.Keys
    && mst == Greedy(sorted[..i])
    && SortedByWeight(mst) && WeightsUpTo(mst, sorted, i)
    && AllConsidered(directed, adj, mst) && Acyclic(mst)
    && Forest(mst, sorted[..i], parent, rank)
    && |mst| + |Roots(parent)| == |adj.Keys|
  }

  /** The main loop of `kruskalMST`. */
  method GrowForest(directed: bool, adj: Adj, sorted: seq<Edge>, rank0: Ranks, parent0: Parents)
      returns (mst: seq<Edge>, rank: Ranks, parent: Parents)
    requires WellFormed(adj) && SortedByWeight(sorted)
    requires forall k :: 0 <= k < |sorted| ==> Considered(directed, adj, sorted[k])
    requires Ranked(parent0, rank0) && parent0.Keys == adj.Keys && rank0.Keys == adj.Keys
    requires Forest([], [], parent0, rank0) && |Roots(parent0)| == |adj.Keys|
    ensures Ranked(parent, rank) && parent.Keys == adj.Keys
    ensures mst == Greedy(sorted)
    ensures SortedByWeight(mst) && AllConsidered(directed, adj, mst) && Acyclic(mst)
    ensures Forest(mst, sorted, parent, rank)
    ensures |mst| + |Roots(parent)| == |adj.Keys|
  {
    mst, rank, parent := [], rank0, parent0;
    assert sorted[..0] == [];
    for i := 0 to |sorted|
      invariant Progress(directed, adj, sorted, i, mst, parent, rank)
    {
      mst, rank, parent := ConsiderEdge(directed, adj, sorted, i, mst, rank, parent);
    }
    assert sorted[..|sorted|] == sorted;
  }

  /** One round of the main loop: find the roots of both endpoints of
      `sorted[i]` and, when they differ, keep the edge and unite the two
      sets. The edge is kept exactly when the forest does not connect its
      endpoints yet. */
  method ConsiderEdge(directed: bool, adj: Adj, sorted: seq<Edge>, i: nat, mst: seq<Edge>, rank: Ranks, parent: Parents)
      returns (mst': seq<Edge>, rank': Ranks, parent': Parents)
    requires WellFormed(adj) && SortedByWeight(sorted) && i < |sorted|
    requires forall k :: 0 <= k < |sorted| ==> Considered(directed, adj, sorted[k])
    requires Progress(directed, adj, sorted, i, mst, parent, rank)
    ensures mst' == if Connected(mst, sorted[i].source, sorted[i].destination) then mst else mst + [sorted[i]]
    ensures Progress(directed, adj, sorted, i + 1, mst', parent', rank')
  {
    var edge := sorted[i];
    assert Considered(directed, adj, edge);
    assert edge.source in adj && edge.destination in adj by {
      var k :| 0 <= k < |adj[edge.source]| && adj[edge.source][k] == edge;
    }
    var srcRoot, p1 := Find(edge.source, parent, rank);
    var destRoot, p2 := Find(edge.destination, p1, rank);
    assert destRoot == Root(parent, rank, edge.destination) by {
      assert Root(p1, rank, edge.destination) == Root(parent, rank, edge.destination);
    }
    CompressedTrans(parent, p1, p2, rank);
    CompressedProgress(directed, adj, sorted, i, mst, parent, p2, rank);
    assert Root(p2, rank, edge.source) == srcRoot && Root(p2, rank, edge.destination) == destRoot;

    if srcRoot != destRoot {
      mst' := mst + [edge];
      rank', parent' := UnionByRank(srcRoot, destRoot, rank, p2);
      AcceptProgress(directed, adj, sorted, i, mst, p2, rank, parent', rank');
    } else {
      SkipProgress(directed, adj, sorted, i, mst, p2, rank);
      mst', rank', parent' := mst, rank, p2;
    }
  }

  /** Greedy selection, one edge further. */
  lemma GreedyStep(s: seq<Edge>, i: nat)
    requires i < |s|
    ensures Greedy(s[..i + 1]) ==
      if Connected(Greedy(s[..i]), s[i].source, s[i].destination) then Greedy(s[..i]) else Greedy(s[..i]) + [s[i]]
  {
    assert s[..i + 1][..i] == s[..i];
  }

  /** Path compression keeps the loop's invariant. */
  lemma CompressedProgress(directed: bool, adj: Adj, sorted: seq<Edge>, i: nat, mst: seq<Edge>, parent: Parents, q: Parents, rank: Ranks)
    requires Progress(directed, adj, sorted, i, mst, parent, rank)
    requires Compressed(parent, q, rank) && Roots(q) == Roots(parent)
    ensures Progress(directed, adj, sorted, i, mst, q, rank)
  {
    CompressedKeepsBoth(mst, sorted[..i], parent, q, rank);
  }

  /** Keeping `sorted[i]`, whose endpoints have different roots, and merging
      their sets keeps the loop's invariant. */
  lemma AcceptProgress(directed: bool, adj: Adj, sorted: seq<Edge>, i: nat, mst: seq<Edge>,
                       p: Parents, r: Ranks, p2: Parents, r2: Ranks)
    requires WellFormed(adj) && SortedByWeight(sorted) && i < |sorted|
    requires Considered(directed, adj, sorted[i])
    requires Progress(directed, adj, sorted, i, mst, p, r)
    requires sorted[i].source in p && sorted[i].destination in p
    requires Root(p, r, sorted[i].source) != Root(p, r, sorted[i].destination)
    requires Ranked(p2, r2) && p2.Keys == p.Keys && r2.Keys == r.Keys
    requires Merged(p, r, p2, r2, Root(p, r, sorted[i].source), Root(p, r, sorted[i].destination))
    requires |Roots(p2)| == |Roots(p)| - 1
    ensures !Connected(mst, sorted[i].source, sorted[i].destination)
    ensures Progress(directed, adj, sorted, i + 1, mst + [sorted[i]], p2, r2)
  {
    var edge := sorted[i];
    if Connected(mst, edge.source, edge.destination) {
      ConnectedSameSet(mst, p, r, edge.source, edge.destination);
    }
    PrefixStep(sorted, i);
    GreedyStep(sorted, i);
    AcceptEdge(directed, adj, mst, sorted, i);
    MergedByRoots(p, r, p2, r2, edge.source, edge.destination, Root(p, r, edge.source), Root(p, r, edge.destination));
    MergeStep(mst, sorted[..i], edge, p, r, p2, r2);
  }

  /** Skipping `sorted[i]`, whose endpoints have one root, keeps the loop's
      invariant; the forest already connects them. */
  lemma SkipProgress(directed: bool, adj: Adj, sorted: seq<Edge>, i: nat, mst: seq<Edge>, p: Parents, r: Ranks)
    requires i < |sorted| && Progress(directed, adj, sorted, i, mst, p, r)
    requires sorted[i].source in p && sorted[i].destination in p
    requires Root(p, r, sorted[i].source) == Root(p, r, sorted[i].destination)
    ensures Connected(mst, sorted[i].source, sorted[i].destination)
    ensures Progress(directed, adj, sorted, i + 1, mst, p, r)
  {
    var edge := sorted[i];
    SpannedEdge(mst, p, r, edge);
    PrefixStep(sorted, i);
    GreedyStep(sorted, i);
    SkipStep(mst, sorted[..i], edge, p, r);
  }

  /** A forest spanning the sets connects two nodes of one set. */
  lemma SpannedEdge(mst: seq<Edge>, parent: Parents, rank: Ranks, e: Edge)
    requires Spans(mst, parent, rank) && e.source in parent && e.destination in parent
    requires Root(parent, rank, e.source) == Root(parent, rank, e.destination)
    ensures Connected(mst, e.source, e.destination)
  {
    ConnectedSym(mst, e.destination, Root(parent, rank, e.destination));
    ConnectedTrans(mst, e.source, Root(parent, rank, e.source), e.destination);
  }

  /** After the last candidate, the forest connects the endpoints of every
      candidate edge, and has one edge fewer than nodes per tree. */
  lemma SpanningAtEnd(directed: bool, adj: Adj, order: seq<Node>, sorted: seq<Edge>, mst: seq<Edge>, parent: Parents, rank: Ranks)
    requires WellFormed(adj) && IsEnumeration(order, adj.Keys)
    requires multiset(sorted) == multiset(Candidates(directed, adj, order))
    requires parent.Keys == adj.Keys
    requires Forest(mst, sorted, parent, rank)
    requires |mst| + |Roots(parent)| == |adj.Keys|
    ensures forall e :: Considered(directed, adj, e) ==> Connected(mst, e.source, e.destination)
    ensures |adj.Keys| == 0 ==> mst == []
    ensures |adj.Keys| > 0 ==> |mst| < |adj.Keys|
  {
    forall e | Considered(directed, adj, e)
      ensures Connected(mst, e.source, e.destination)
    {
      CandidatesAreConsidered(directed, adj, order, e);
      assert e in multiset(sorted);
      var j :| 0 <= j < |sorted| && sorted[j] == e;
      SpannedEdge(mst, parent, rank, e);
    }
    if |adj.Keys| > 0 {
      var u :| u in adj;
      assert Root(parent, rank, u) in Roots(parent);
    }
  }

  /** Every sorted candidate is a considered edge. */
  lemma SortedAreConsidered(directed: bool, adj: Adj, order: seq<Node>, sorted: seq<Edge>)
    requires WellFormed(adj) && IsEnumeration(order, adj.Keys)
    requires multiset(sorted) == multiset(Candidates(directed, adj, order))
    ensures forall k :: 0 <= k < |sorted| ==> Considered(directed, adj, sorted[k])
  {
    forall k | 0 <= k < |sorted|
      ensures Considered(directed, adj, sorted[k])
    {
      assert sorted[k] in multiset(Candidates(directed, adj, order));
      CandidatesAreConsidered(directed, adj, order, sorted[k]);
    }
  }

  /** The initialising loop of `kruskalMST`: every node its own parent, with
      rank 0, so every node is its own set and the empty forest spans them. */
  method InitialSets(adj: Adj, order: seq<Node>) returns (rank: Ranks, parent: Parents)
    requires IsEnumeration(order, adj.Keys)
    ensures Ranked(parent, rank) && parent.Keys == adj.Keys && rank.Keys == adj.Keys
    ensures forall u :: u in adj ==> parent[u] == u && rank[u] == 0
    ensures Forest([], [], parent, rank)
    ensures |Roots(parent)| == |adj.Keys|
  {
    rank, parent := map[], map[];
    for i := 0 to |order|
      invariant parent.Keys == rank.Keys == set k | 0 <= k < i :: order[k]
      invariant forall u :: u in parent ==> parent[u] == u && rank[u] == 0
    {
      rank := rank[order[i] := 0];
      parent := parent[order[i] := order[i]];
    }
    assert Ranked(parent, rank) by {
      forall x {:trigger Up(parent, x)} | x in parent ensures Up(parent, x) == x {
      }
    }
    assert Roots(parent) == adj.Keys;
    forall x {:trigger Root(parent, rank, x)} | x in parent
      ensures Connected([], x, Root(parent, rank, x))
    {
      assert Up(parent, x) == x;
      ConnectedRefl([], x);
    }
  }
}
