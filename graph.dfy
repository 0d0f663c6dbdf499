/** The graph store: the `Graph` class with its directedness flag and its
    adjacency map, and the two operations that change it. */
module GraphStore {
  import opened Edges
  import opened Adjacency

  /** The store after `addNode(n)`. */
  function WithNode(adj: Adj, n: Node): (r: Adj)
    ensures r.Keys == adj.Keys + {n}
    ensures forall u :: u in adj ==> r[u] == adj[u]
    ensures n !in adj ==> r[n] == []
  {
    if n in adj then adj else adj[n := []]
  }

  /** The store after `addEdge(src, dest, weight)`, or the exception it throws. */
  function WithEdge(directed: bool, adj: Adj, src: Node, dest: Node, weight: int): (r: Result<Adj>)
    ensures r.Err? <==> src !in adj || dest !in adj
    ensures r.Err? ==> r.failure == NodeNotFound
    ensures r.Ok? ==> r.value.Keys == adj.Keys
  {
    if src !in adj || dest !in adj then Err(NodeNotFound)
    else
      var once := adj[src := adj[src] + [Edge(src, dest, weight)]];
      if directed then Ok(once) else Ok(once[dest := once[dest] + [Edge(dest, src, weight)]])
  }

  /** Adding a node twice is adding it once. */
  lemma AddNodeIdempotent(adj: Adj, n: Node)
    ensures WithNode(WithNode(adj, n), n) == WithNode(adj, n)
  {
  }

  /** Adding a node that is present changes nothing; in particular its edge
      list is not cleared. */
  lemma AddNodePresent(adj: Adj, n: Node)
    requires n in adj
    ensures WithNode(adj, n) == adj
  {
  }

  lemma AddNodeKeepsInvariants(adj: Adj, n: Node)
    ensures WellFormed(adj) ==> WellFormed(WithNode(adj, n))
    ensures Mirrored(adj) ==> Mirrored(WithNode(adj, n))
  {
  }

  /** What `addEdge` does to each edge list when both endpoints exist: `src`
      gets exactly `(src, dest, weight)`, an undirected graph also files the
      mirror `(dest, src, weight)` under `dest` (so a self-loop is filed twice),
      and every other list is unchanged. */
  lemma AddEdgeAppends(directed: bool, adj: Adj, src: Node, dest: Node, weight: int)
    requires src in adj && dest in adj
    ensures var r := WithEdge(directed, adj, src, dest, weight).value;
      && (directed || src != dest ==> r[src] == adj[src] + [Edge(src, dest, weight)])
      && (!directed && src != dest ==> r[dest] == adj[dest] + [Edge(dest, src, weight)])
      && (!directed && src == dest ==> r[src] == adj[src] + [Edge(src, src, weight), Edge(src, src, weight)])
      && (directed ==> forall u :: u in adj && u != src ==> r[u] == adj[u])
      && (forall u :: u in adj && u != src && u != dest ==> r[u] == adj[u])
  {
  }

  /** `addEdge` keeps the store's invariants: every edge stays filed under its
      source with a registered destination, and an undirected store stays
      mirrored. */
  lemma AddEdgeKeepsInvariants(directed: bool, adj: Adj, src: Node, dest: Node, weight: int)
    requires WellFormed(adj) && (!directed ==> Mirrored(adj))
    requires src in adj && dest in adj
    ensures WellFormed(WithEdge(directed, adj, src, dest, weight).value)
    ensures !directed ==> Mirrored(WithEdge(directed, adj, src, dest, weight).value)
  {
    AddEdgeKeepsWellFormed(directed, adj, src, dest, weight);
    if !directed {
      AddEdgeKeepsMirrored(adj, src, dest, weight);
    }
  }

  lemma AddEdgeKeepsWellFormed(directed: bool, adj: Adj, src: Node, dest: Node, weight: int)
    requires WellFormed(adj) && src in adj && dest in adj
    ensures WellFormed(WithEdge(directed, adj, src, dest, weight).value)
  {
    var r: Adj := WithEdge(directed, adj, src, dest, weight).value;
    AddEdgeAppends(directed, adj, src, dest, weight);
    forall u, k | u in r && 0 <= k < |r[u]|
      ensures r[u][k].source == u && r[u][k].destination in r
    {
      if k >= |adj[u]| {
        assert u == src || u == dest;
      } else {
        assert r[u][k] == adj[u][k];
      }
    }
  }

  lemma AddEdgeKeepsMirrored(adj: Adj, src: Node, dest: Node, weight: int)
    requires WellFormed(adj) && Mirrored(adj) && src in adj && dest in adj
    ensures Mirrored(WithEdge(false, adj, src, dest, weight).value)
  {
    var r: Adj := WithEdge(false, adj, src, dest, weight).value;
    AddEdgeAppends(false, adj, src, dest, weight);
    forall u, k | u in r && 0 <= k < |r[u]|
      ensures r[u][k].destination in r && Reversed(r[u][k]) in r[r[u][k].destination]
    {
      if k < |adj[u]| {
        assert r[u][k] == adj[u][k];
        var v := adj[u][k].destination;
        var i :| 0 <= i < |adj[v]| && adj[v][i] == Reversed(adj[u][k]);
        assert r[v][..|adj[v]|] == adj[v];
        assert r[v][i] == adj[v][i];
      } else if src == dest {
        assert r[u][k] == Edge(src, src, weight);
      } else if u == src {
        assert r[u][k] == Edge(src, dest, weight);
        assert r[dest][|r[dest]| - 1] == Edge(dest, src, weight);
      } else {
        assert r[u][k] == Edge(dest, src, weight);
        assert r[src][|r[src]| - 1] == Edge(src, dest, weight);
      }
    }
  }

  /** `Graph<T, W>`: a directedness flag fixed at construction and the
      adjacency map `adjList`. */
  class Graph {
    const directed: bool
    var adj: Adj

    ghost predicate Valid()
      reads this
    {
      WellFormed(adj) && (!directed ==> Mirrored(adj))
    }

    /** `Graph(bool directed)`: no nodes yet. */
    constructor (directed: bool)
      ensures Valid()
      ensures this.directed == directed && adj == map[]
    {
      this.directed := directed;
      adj := map[];
    }

    /** `addNode`: registers `data` with an empty edge list unless it is
        already present. */
    method AddNode(data: Node)
      requires Valid()
      modifies this
      ensures Valid()
      ensures adj == WithNode(old(adj), data)
    {
      AddNodeKeepsInvariants(adj, data);
      if data !in adj {
        adj := adj[data := []];
      }
    }

    /** `addEdge`: throws, changing nothing, when an endpoint is missing;
        otherwise appends the edge (and, undirected, its mirror). The default
        weight is `W()`, that is 0. */
    method AddEdge(src: Node, dest: Node, weight: int := 0) returns (outcome: Outcome)
      requires Valid()
      modifies this
      ensures Valid()
      ensures outcome.Fail? <==> src !in old(adj) || dest !in old(adj)
      ensures outcome.Fail? ==> outcome.failure == NodeNotFound && adj == old(adj)
      ensures outcome.Pass? ==> Ok(adj) == WithEdge(directed, old(adj), src, dest, weight)
    {
      if src !in adj || dest !in adj {
        return Fail(NodeNotFound);
      }
      AddEdgeKeepsInvariants(directed, adj, src, dest, weight);
      adj := adj[src := adj[src] + [Edge(src, dest, weight)]];
      if !directed {
        adj := adj[dest := adj[dest] + [Edge(dest, src, weight)]];
      }
      outcome := Pass;
    }
  }
}
