/** `hasCycle` and `hasCycleDFS`: depth-first search over an undirected
    store that records, for every node it reaches, the node it was reached
    from, and reports a cycle when an edge leads to a reached node other
    than the current node's own discovery parent. */
module Cycle {
  import opened Edges
  import opened Adjacency

  /** The discovery-parent map of the search; a root points to itself. */
  type Parents = map<Node, Node>

  /** `parent[x]`. The quantifier of `Forest` is triggered by this function
      rather than by the map lookup, so that it is not instantiated again for
      every pointer it proves to be in the domain. */
  function Pointer(parent: Parents, x: Node): Node
    requires x in parent
  {
    parent[x]
  }

  /** Discovery times witnessing that the parent pointers form a forest:
      every pointer stays in the map, and a node other than a root was
      discovered after its parent. */
  ghost predicate Forest(parent: Parents, time: map<Node, nat>) {
    && time.Keys == parent.Keys
    && (forall x {:trigger Pointer(parent, x)} :: x in parent ==>
          Pointer(parent, x) in parent && (Pointer(parent, x) != x ==> time[Pointer(parent, x)] < time[x]))
    && (forall x :: x in time ==> time[x] < |time.Keys|)
  }

  /** The search has gone through the first `j` edges of `x` without
      reporting a cycle: each leads to a reached node that is `x`'s discovery
      parent or was discovered from `x`. */
  ghost predicate Scanned(adj: Adj, parent: Parents, x: Node, j: nat)
    requires x in adj && x in parent && j <= |adj[x]|
  {
    forall k :: 0 <= k < j ==>
      adj[x][k].destination in parent &&
      (parent[adj[x][k].destination] == x || parent[x] == adj[x][k].destination)
  }

  /** The search has gone through every edge of `x` without reporting a cycle. */
  ghost predicate Explored(adj: Adj, parent: Parents, x: Node) {
    x in adj && x in parent && Scanned(adj, parent, x, |adj[x]|)
  }

  /** `parent'` only adds pointers to `parent`. */
  ghost predicate Extends(parent: Parents, parent': Parents) {
    parent.Keys <= parent'.Keys && forall y {:trigger parent'[y]} :: y in parent ==> parent'[y] == parent[y]
  }

  /** Every node reached after `parent` is explored in `parent'`. */
  ghost predicate ExploredSince(adj: Adj, parent: Parents, parent': Parents) {
    forall x {:trigger Explored(adj, parent', x)} :: x in parent' && x !in parent ==> Explored(adj, parent', x)
  }

  /** A cycle through at least three distinct nodes, each joined to the next
      (and the last to the first) by a stored edge. */
  ghost predicate SimpleCycle(adj: Adj, c: seq<Node>) {
    && |c| >= 3
    && (forall i, j :: 0 <= i < j < |c| ==> c[i] != c[j])
    && forall i :: 0 <= i < |c| ==> RingEdge(adj, c, i)
  }

  /** A stored edge joins the `i`-th node of the ring `c` to the next one. */
  ghost predicate RingEdge(adj: Adj, c: seq<Node>, i: nat)
    requires i < |c|
  {
    Adjacent(adj, c[i], if i + 1 < |c| then c[i + 1] else c[0])
  }

  /** Adding a node discovered from a reached node, or a new root, to the
      search keeps the parent links a forest. */
  lemma ForestAdd(parent: Parents, time: map<Node, nat>, x: Node, p: Node)
    requires Forest(parent, time) && x !in parent && (p in parent || p == x)
    ensures Forest(parent[x := p], time[x := |parent.Keys|])
  {
    var parent', time' := parent[x := p], time[x := |parent.Keys|];
    forall y {:trigger Pointer(parent', y)} | y in parent'
      ensures Pointer(parent', y) in parent' && (Pointer(parent', y) != y ==> time'[Pointer(parent', y)] < time'[y])
    {
      if y != x {
        assert Pointer(parent', y) == Pointer(parent, y);
      }
    }
  }

  /** Growing the search by new pointers keeps what has been scanned. */
  lemma ScannedGrows(adj: Adj, parent: Parents, parent': Parents, x: Node, j: nat)
    requires x in adj && x in parent && j <= |adj[x]| && Scanned(adj, parent, x, j)
    requires Extends(parent, parent')
    ensures Scanned(adj, parent', x, j)
  {
  }

  lemma ExploredGrows(adj: Adj, parent: Parents, parent': Parents, x: Node)
    requires Explored(adj, parent, x) && Extends(parent, parent')
    ensures Explored(adj, parent', x)
  {
    ScannedGrows(adj, parent, parent', x, |adj[x]|);
  }

  /** An explored node `u` has no edge to a node `v` discovered no later,
      unless `v` is `u`'s parent. */
  lemma NoEdgeFromLater(adj: Adj, parent: Parents, time: map<Node, nat>, u: Node, v: Node)
    requires Forest(parent, time) && Explored(adj, parent, u) && v in parent
    requires u != v && time[v] <= time[u] && parent[u] != v
    ensures !Adjacent(adj, u, v)
  {
    forall k | 0 <= k < |adj[u]|
      ensures adj[u][k].destination != v
    {
      assert Pointer(parent, v) == parent[v];
    }
  }

  /** An explored node `u` has no edge to a node `v` discovered no earlier,
      unless `v` was discovered from `u`. */
  lemma NoEdgeToLater(adj: Adj, parent: Parents, time: map<Node, nat>, u: Node, v: Node)
    requires Forest(parent, time) && Explored(adj, parent, u) && v in parent
    requires u != v && time[u] <= time[v] && parent[v] != u
    ensures !Adjacent(adj, u, v)
  {
    forall k | 0 <= k < |adj[u]|
      ensures adj[u][k].destination != v
    {
      assert Pointer(parent, u) == parent[u];
    }
  }

  /** A node of `c` discovered last. */
  lemma {:induction false} LatestIndex(c: seq<Node>, time: map<Node, nat>) returns (i: nat)
    requires |c| > 0 && forall j :: 0 <= j < |c| ==> c[j] in time
    ensures i < |c| && forall j :: 0 <= j < |c| ==> time[c[j]] <= time[c[i]]
  {
    i := 0;
    var n := 1;
    while n < |c|
      invariant 1 <= n <= |c| && i < n
      invariant forall j :: 0 <= j < n ==> time[c[j]] <= time[c[i]]
    {
      if time[c[n]] > time[c[i]] {
        i := n;
      }
      n := n + 1;
    }
  }

  /** When every node is explored, every ring of three or more distinct nodes
      misses an edge: at the node of the ring discovered last, the edges to
      its two ring neighbours would both have to be its parent pointer. */
  lemma CycleBroken(adj: Adj, parent: Parents, time: map<Node, nat>, c: seq<Node>)
    requires Forest(parent, time) && forall x {:trigger Explored(adj, parent, x)} :: x in adj ==> Explored(adj, parent, x)
    requires |c| >= 3 && forall i, j :: 0 <= i < j < |c| ==> c[i] != c[j]
    ensures exists i :: 0 <= i < |c| && !RingEdge(adj, c, i)
  {
    var n := |c|;
    if exists j :: 0 <= j < n && c[j] !in parent {
      var j :| 0 <= j < n && c[j] !in parent;
      var y := c[j];
      assert y in adj ==> Explored(adj, parent, y);
      assert !RingEdge(adj, c, j);
    } else {
      var i := LatestIndex(c, time);
      var p := if i == 0 then n - 1 else i - 1;
      var next, prev := if i + 1 < n then c[i + 1] else c[0], c[p];
      assert next != c[i] && prev != c[i] && next != prev;
      assert (if p + 1 < n then c[p + 1] else c[0]) == c[i];
      if c[i] !in adj {
        assert !RingEdge(adj, c, i);
      } else if parent[c[i]] != next {
        NoEdgeFromLater(adj, parent, time, c[i], next);
        assert !RingEdge(adj, c, i);
      } else if prev !in adj {
        assert !RingEdge(adj, c, p);
      } else {
        NoEdgeToLater(adj, parent, time, prev, c[i]);
        assert !RingEdge(adj, c, p);
      }
    }
  }

  /** When every node is explored, the store has no simple cycle. */
  lemma NoSimpleCycle(adj: Adj, parent: Parents, time: map<Node, nat>)
    requires Forest(parent, time) && forall x {:trigger Explored(adj, parent, x)} :: x in adj ==> Explored(adj, parent, x)
    ensures forall c :: !SimpleCycle(adj, c)
  {
    forall c | |c| >= 3 && forall i, j :: 0 <= i < j < |c| ==> c[i] != c[j]
      ensures !SimpleCycle(adj, c)
    {
      CycleBroken(adj, parent, time, c);
    }
  }

  /** The state of `hasCycleDFS(node, parent)` after `j` of `node`'s edges
      without a report: the search has only added pointers, inside the
      store and forming a forest; everything newly reached is explored, and
      `node` is scanned up to `j`. */
  ghost predicate Searching(adj: Adj, node: Node, parent: Parents, parent': Parents, time': map<Node, nat>, j: nat) {
    && node in adj && node in parent && j <= |adj[node]|
    && Extends(parent, parent') && parent'.Keys <= adj.Keys && Forest(parent', time')
    && ExploredSince(adj, parent, parent')
    && Scanned(adj, parent', node, j)
  }

  /** An edge to `node`'s own parent passes. */
  lemma ParentEdge(adj: Adj, node: Node, parent: Parents, parent': Parents, time': map<Node, nat>, j: nat)
    requires Searching(adj, node, parent, parent', time', j) && j < |adj[node]|
    requires adj[node][j].destination in parent' && parent'[node] == adj[node][j].destination
    ensures Searching(adj, node, parent, parent', time', j + 1)
  {
  }

  /** An edge to an unreached node, discovered from `node` and searched from
      without a report, passes. */
  lemma ChildEdge(adj: Adj, node: Node, parent: Parents, before: Parents, after: Parents, time': map<Node, nat>, j: nat)
    requires node in adj && node in parent && j < |adj[node]|
    requires Extends(parent, before) && ExploredSince(adj, parent, before) && Scanned(adj, before, node, j)
    requires Extends(before, after) && after.Keys <= adj.Keys && Forest(after, time')
    requires adj[node][j].destination !in before && ExploredSince(adj, before, after)
    requires adj[node][j].destination in after && after[adj[node][j].destination] == node
    ensures Searching(adj, node, parent, after, time', j + 1)
  {
    var dest := adj[node][j].destination;
    ScannedGrows(adj, before, after, node, j);
    assert node in before;
    forall x | x in after && x !in parent
      ensures Explored(adj, after, x)
    {
      if x in before {
        ExploredGrows(adj, before, after, x);
      }
    }
  }

  /** `hasCycleDFS(node, parent)`: goes through `node`'s edges in order; an
      edge to an unreached node reaches it from `node` and searches on from
      there, and an edge to a reached node other than `node`'s own parent
      reports a cycle. The search only adds pointers. When it reports none,
      `node` and every node it reached are explored. */
  method HasCycleDFS(adj: Adj, node: Node, parent: Parents, ghost time: map<Node, nat>)
      returns (r: bool, parent': Parents, ghost time': map<Node, nat>)
    requires WellFormed(adj) && node in parent && parent.Keys <= adj.Keys && Forest(parent, time)
    ensures Extends(parent, parent') && parent'.Keys <= adj.Keys && Forest(parent', time')
    ensures !r ==> ExploredSince(adj, parent, parent') && Explored(adj, parent', node)
    decreases |adj.Keys - parent.Keys|, 1
  {
    r, parent', time' := false, parent, time;
    var edges := adj[node];
    for j := 0 to |edges|
      invariant Searching(adj, node, parent, parent', time', j)
    {
      var dest := edges[j].destination;
      if dest !in parent' {
        ghost var before := parent';
        NoMore(adj.Keys, parent.Keys, parent'.Keys);
        var found;
        found, parent', time' := Descend(adj, node, dest, parent', time');
        if found {
          return true, parent', time';
        }
        ChildEdge(adj, node, parent, before, parent', time', j);
      } else if parent'[node] != dest {
        return true, parent', time';
      } else {
        ParentEdge(adj, node, parent, parent', time', j);
      }
    }
  }

  /** The unreached branch of `hasCycleDFS`: `dest` is reached from `node`
      and searched from. When the search reports nothing, `dest` is explored
      along with everything reached from it. */
  method Descend(adj: Adj, node: Node, dest: Node, parent: Parents, ghost time: map<Node, nat>)
      returns (r: bool, parent': Parents, ghost time': map<Node, nat>)
    requires WellFormed(adj) && node in parent && dest in adj && dest !in parent
    requires parent.Keys <= adj.Keys && Forest(parent, time)
    ensures Extends(parent, parent') && parent'.Keys <= adj.Keys && Forest(parent', time')
    ensures dest in parent' && parent'[dest] == node
    ensures !r ==> ExploredSince(adj, parent, parent')
    decreases |adj.Keys - parent.Keys|, 0
  {
    ForestAdd(parent, time, dest, node);
    Shrinks(adj.Keys, parent.Keys, parent.Keys, dest);
    var reached := parent[dest := node];
    r, parent', time' := HasCycleDFS(adj, dest, reached, time[dest := |parent.Keys|]);
    assert Extends(parent, parent') by {
      assert Extends(parent, reached) && Extends(reached, parent');
    }
    assert parent'[dest] == reached[dest];
  }

  /** A new root searched without reporting a cycle leaves every reached
      node explored. */
  lemma AfterRoot(adj: Adj, before: Parents, after: Parents, n: Node)
    requires n !in before && forall x {:trigger Explored(adj, before, x)} :: x in before ==> Explored(adj, before, x)
    requires Extends(before[n := n], after) && ExploredSince(adj, before[n := n], after)
    requires Explored(adj, after, n)
    ensures forall x {:trigger Explored(adj, after, x)} :: x in after ==> Explored(adj, after, x)
  {
    assert Extends(before, after);
    forall x | x in after
      ensures Explored(adj, after, x)
    {
      if x in before {
        ExploredGrows(adj, before, after, x);
      }
    }
  }

  /** Reaching one more node of the iteration order. */
  lemma PrefixReached(order: seq<Node>, i: nat, before: Parents, after: Parents)
    requires i < |order| && (forall k :: 0 <= k < i ==> order[k] in before)
    requires before.Keys <= after.Keys && order[i] in after
    ensures forall k :: 0 <= k < i + 1 ==> order[k] in after
  {
  }

  /** `hasCycle`. A directed store is never reported to have a cycle. On an
      undirected store every node of the iteration order not yet reached
      becomes a root that points to itself and is searched from; when no
      search reports a cycle the store has no simple cycle. */
  method HasCycle(directed: bool, adj: Adj, order: seq<Node>) returns (r: bool)
    requires WellFormed(adj) && IsEnumeration(order, adj.Keys)
    ensures directed ==> !r
    ensures !directed && !r ==> forall c :: !SimpleCycle(adj, c)
  {
    if directed {
      return false;
    }
    var parent: Parents := map[];
    ghost var time: map<Node, nat> := map[];
    for i := 0 to |order|
      invariant parent.Keys <= adj.Keys && Forest(parent, time)
      invariant forall k :: 0 <= k < i ==> order[k] in parent
      invariant forall x {:trigger Explored(adj, parent, x)} :: x in parent ==> Explored(adj, parent, x)
    {
      ghost var before0 := parent;
      var n := order[i];
      assert n in adj by {
        assert n in set k | 0 <= k < |order| :: order[k];
      }
      if n !in parent {
        ghost var before := parent;
        ForestAdd(parent, time, n, n);
        time := time[n := |parent.Keys|];
        parent := parent[n := n];
        var found;
        found, parent, time := HasCycleDFS(adj, n, parent, time);
        if found {
          return true;
        }
        AfterRoot(adj, before, parent, n);
      }
      PrefixReached(order, i, before0, parent);
    }
    forall x | x in adj
      ensures Explored(adj, parent, x)
    {
      var k :| 0 <= k < |order| && order[k] == x;
    }
    NoSimpleCycle(adj, parent, time);
    return false;
  }
}
