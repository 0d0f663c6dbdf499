# A verified model of a header-only C++ graph library

The library keeps a graph as a directedness flag plus an adjacency map
`adjList`, from each node to the ordered list of its outgoing edges. It offers:

- `addNode` and `addEdge`;
- cycle detection (`hasCycle`, by depth-first search);
- two minimum-spanning-tree builders (`primMST`, `kruskalMST`);
- a disjoint-set structure (`find` with path compression, `unionByRank`);
- greedy first-fit colouring of nodes and of edges;
- Tarjan's strongly connected components (`connectedComponents` with `strongConnect`).

This project models all of these and proves the properties listed under
"## Model"; "## Left out" lists what is not proved.

Modelling choices:

- Nodes are strings (the library's Python binding instantiates
  `Graph<std::string, int>`), and weights are mathematical integers.
- `std::string`'s `<` is written out as lexicographic order (`Edges.NodeLess`).
- Thrown exceptions become the `Err` or `Fail` case of a result value. They
  carry the library's own exception kind and message.
- The iteration order of `std::unordered_map` is not fixed by the language. Each
  operation that iterates a hash container therefore takes that order as a
  parameter:
  - `order` lists the nodes of `adjList`, each exactly once (`IsEnumeration`).
  - `colorOrder` is the order in which the colour map is read out.
- `std::priority_queue` becomes a multiset, from which some edge of least weight
  is taken.
- `std::sort` is not stable, so the order it leaves among equal weights is
  open. `SortByWeight` is one concrete insertion sort by weight. `KruskalMST`
  promises its result for some weight-sorted permutation of the candidates, not
  for that particular sort (`TieOrderMatters` shows that the choice can change
  the result).

The files follow the library's structure:

| file | module | contents |
|---|---|---|
| `edges.dfy` | `Edges` | the `Edge` value, its comparisons, the failure values |
| `adjacency.dfy` | `Adjacency` | the store's shape and invariants; paths, reachability and undirected connectivity |
| `graph.dfy` | `GraphStore` | the `Graph` class with `AddNode` and `AddEdge` |
| `unionfind.dfy` | `UnionFind` | `find` and `unionByRank` over parent and rank maps |
| `kruskal.dfy` | `Kruskal` | `kruskalMST` |
| `prim.dfy` | `Prim` | `primMST` |
| `cycle.dfy` | `Cycle` | `hasCycle` and `hasCycleDFS` |
| `coloring.dfy` | `Coloring` | `nodeColoring` and `edgeColoring` |
| `scc.dfy` | `Scc` | `connectedComponents` and `strongConnect` |

Notes on the individual operations:

- **Graph.** `Graph` is a class whose `adj` field is reassigned by `AddNode` and
  `AddEdge`. The invariant `Valid` states two things. Every edge is filed under
  its source and leads to a registered node. In an undirected graph, every edge's
  mirror image is filed under its destination.
- **Disjoint sets.** `find` and `unionByRank` change the caller's maps in place.
  Here they take the maps and return the new ones. The rank map is a ghost
  witness for `find`: rank strictly increases along parent pointers, which makes
  the walk to the root terminate.
- **Kruskal.** The candidate filter is kept exactly as written (`!directed ||
  source < destination`). So an undirected graph offers both stored copies of
  each edge, and a directed graph offers only edges whose source is below their
  destination.
- **Cycle detection.** The model proves that "no cycle" answers are sound. A
  `false` result on an undirected graph means the graph has no simple cycle
  through three or more distinct nodes.
  - A self-loop on a search root is not reported, because the root is its own
    parent. A self-loop on any other node is reported.
  - A directed graph always gets `false`.
- **Colouring.** Each item gets the smallest positive colour not already used by
  its neighbours (`Mex`).
  - Nodes: in an undirected graph, two distinct adjacent nodes get different
    colours.
  - Edges: colours are keyed by full edge equality. An edge avoids only the
    colours of already-coloured edges filed under its own two endpoints. So two
    edges that share a node, each filed under a different end, can get the same
    colour. Example: the undirected path u–v–w, visited in the order u, v, w.
    The edge filed as (u,v) and the edge filed as (v,w) both get colour 1.
  - What is proved for edges: two edges filed under a common node differ, and
    every edge differs from its mirror copy.
- **Tarjan.** `strongConnect` works through six reference parameters. They are
  bundled in the `Tarjan` state value. The proof shows that the emitted
  components are non-empty and partition the node set. Each component ends with
  its root, whose lowlink equals its index, and every node of a component is
  reachable from that root.

## Model

| member | source | states |
|---|---|---|
| Edges.WeightLess | include/graph.h:87-90 | `operator<`: one edge is below another exactly when its weight is smaller; source and destination play no part |
| Edges.WeightGreater | include/graph.h:92-95 | the free `operator>`, which `std::greater` uses for Prim's queue: the second edge's weight is below the first's |
| Edges.NodeLess | include/graph.h:200 | `std::string`'s `<` on node names: lexicographic by character, a proper prefix below the longer name |
| Edges.GreaterIsConverseOfLess | include/graph.h:87-95 | the free `operator>` holds exactly when the arguments are ordered the other way round by `operator<` |
| Edges.WeightLessIsStrictWeakOrder | include/graph.h:87-90 | comparing edges by weight is irreflexive and transitive, and two edges are incomparable exactly when their weights are equal (the ordering `std::sort` and `std::greater` rely on) |
| Edges.WeightLessIsNotTotal | include/graph.h:15-18 | two different edges (`operator==` compares all three fields) can be incomparable under `operator<` |
| Edges.NodeLessIrreflexive | include/graph.h:200 | no node name is below itself under the string order used by the Kruskal filter |
| Edges.NodeLessAsymmetric | include/graph.h:200 | of two node names at most one is below the other |
| Edges.NodeLessTransitive | include/graph.h:200 | the string order is transitive |
| Edges.NodeLessTotal | include/graph.h:200 | of two different node names one is below the other |
| Adjacency.EnumerationLength | include/graph.h:125 | a duplicate-free listing of a node set has one entry per node |
| Adjacency.AllEdges | include/graph.h:290-291 | the edges met by the nested loop over `adjList` and each node's list, in that order |
| Adjacency.InAllEdges | include/graph.h:198-199 | an edge is met by the nested loop over `adjList` and each list exactly when it is filed under one of the listed nodes |
| Adjacency.StoredEdge | include/graph.h:198-199 | in a well-formed store, the edges the nested loop meets are exactly those filed under their own source |
| Adjacency.ReachableStep | include/graph.h:359-362 | an edge followed by a path is a path (a node reaches what its successors reach) |
| Adjacency.ReachableExtend | include/graph.h:181-183 | a path followed by an edge is a path |
| Adjacency.ClosedHoldsReachable | include/graph.h:170-186 | a node set that contains the start node and that no edge leaves contains every node reachable from the start |
| Adjacency.ConnectedSym | include/graph.h:219-222 | undirected connectivity through a set of edges is symmetric |
| Adjacency.ConnectedTrans | include/graph.h:219-222 | undirected connectivity through a set of edges is transitive |
| Adjacency.ConnectedGrow | include/graph.h:223 | adding an edge keeps every existing connection |
| GraphStore.WithNode | include/graph.h:103-107 | adding a node registers it; every registered node keeps its edge list, and a new node gets an empty one |
| GraphStore.AddNodeIdempotent | include/graph.h:103-107 | adding the same node twice is the same as adding it once |
| GraphStore.AddNodePresent | include/graph.h:104 | adding a node that is already present changes nothing, in particular its edge list is not cleared |
| GraphStore.AddNodeKeepsInvariants | include/graph.h:103-107 | adding a node keeps the store well formed, and mirrored if it was |
| GraphStore.WithEdge | include/graph.h:110-113 | adding an edge fails with `invalid_argument("Source or destination node not found")` exactly when an endpoint is not registered; otherwise the set of nodes is unchanged |
| GraphStore.AddEdgeAppends | include/graph.h:115-118 | exactly `(src,dest,w)` is appended to the source's list and, if undirected, `(dest,src,w)` to the destination's list (both to one list for a self-loop); every other list is unchanged |
| GraphStore.AddEdgeKeepsWellFormed | include/graph.h:110-119 | after adding an edge, every stored edge is still filed under its source and leads to a registered node |
| GraphStore.AddEdgeKeepsMirrored | include/graph.h:116-118 | in an undirected store, adding an edge keeps every edge's mirror image filed under its destination |
| GraphStore.AddEdgeKeepsInvariants | include/graph.h:110-119 | adding an edge keeps the store's invariant for its directedness |
| GraphStore.Graph.constructor | include/graph.h:99-100 | a new graph has the given directedness and no nodes |
| GraphStore.Graph.AddNode | include/graph.h:103-107 | the store becomes the one with the node added, and stays valid |
| GraphStore.Graph.AddEdge | include/graph.h:110-119 | fails and leaves the store unchanged exactly when an endpoint is missing; otherwise the store becomes the one with the edge (and its mirror) appended, and stays valid |
| UnionFind.Root | include/graph.h:232-237 | following parent pointers from a node ends at a node that is its own parent, of strictly higher rank unless it is the start |
| UnionFind.AboveShrinks | include/graph.h:234 | walking up to a node of higher rank leaves fewer nodes above, so the recursion of `find` terminates |
| UnionFind.RootWitnessIrrelevant | include/graph.h:232-237 | the root reached does not depend on which rank map witnesses termination |
| UnionFind.CompressKeepsRoots | include/graph.h:234 | pointing a node straight at its root keeps the structure ranked and keeps the root of every node |
| UnionFind.LinkMovesOneSet | include/graph.h:248-253 | hanging root `a` under a root `b` of higher rank moves exactly `a`'s set under `b` |
| UnionFind.HangUnder | include/graph.h:248-253 | hanging one root under another of higher rank keeps ranks increasing, re-roots exactly the first root's set, and removes that root from the set of roots |
| UnionFind.RedirectRoot | include/graph.h:249-253 | rewriting one root's pointer to another node removes exactly that root from the roots |
| UnionFind.SameRootsSameRootSet | include/graph.h:232-237 | two parent maps over the same nodes that give every node the same root have the same roots |
| UnionFind.CompressedTrans | include/graph.h:233-235 | compressing paths twice is again a compression and keeps the set of roots |
| UnionFind.Find | include/graph.h:232-237 | `find` returns the root of `x`; afterwards `parent[x]` is that root, no node's root has changed, and every pointer is either kept or aimed straight at its node's root |
| UnionFind.Unite | include/graph.h:244-255 | on two roots: nothing changes if they coincide; otherwise the root of lower rank goes under the other, on a tie `rootY` goes under `rootX` whose rank grows by exactly one, exactly the two sets are merged, no other pointer changes, and the number of sets drops by one |
| UnionFind.UnionByRank | include/graph.h:240-256 | afterwards `x` and `y` have one root (one of their old roots) and every other set is kept; equal roots mean only path compression and no rank change; a rank grows, by one, only on a tie; apart from path compression only a root's pointer is rewritten; the number of sets drops by one exactly when two sets were merged |
| UnionFind.MergedByRoots | include/graph.h:241-243 | merging the sets of the roots of `x` and `y` is merging the sets of `x` and `y` |
| UnionFind.CompressedMerged | include/graph.h:241-243 | merging after the path compressions done by the two `find` calls is merging in the original structure |
| Kruskal.Keep | include/graph.h:200 | the candidate filter, kept literally: the graph is undirected or the source is below the destination |
| Kruskal.Candidates | include/graph.h:197-204 | the `edges` vector: each node's list, filtered, concatenated in iteration order |
| Kruskal.Filtered | include/graph.h:200-202 | an edge is kept exactly when it is in the list and passes the filter (the graph is undirected, or the source is below the destination) |
| Kruskal.CandidatesAreConsidered | include/graph.h:197-204 | the collected candidates are exactly the stored edges passing the filter; for an undirected graph that is every stored edge, mirror copies included |
| Kruskal.CollectCandidates | include/graph.h:197-204 | the collecting loop builds exactly the filtered concatenation of the edge lists in iteration order |
| Kruskal.InsertByWeight | include/graph.h:207 | inserting into a list sorted by weight gives a sorted list holding one more copy of the edge |
| Kruskal.SortByWeight | include/graph.h:207 | sorting yields a list in non-decreasing weight holding the same edges with the same multiplicities |
| Kruskal.NothingConnects | include/graph.h:218-222 | before any edge is accepted, no two different nodes are connected |
| Kruskal.TieOrderMatters | include/graph.h:207 | two weight-sorted orders of the same edges, `(A,B,1)` then `(B,A,1)` or the reverse, make the greedy rule keep different edges |
| Kruskal.CompressedKeepsForest | include/graph.h:219-220 | path compression by `find` never separates the endpoints of accepted edges, nor joins nodes the accepted edges do not connect |
| Kruskal.MergeKeepsInside | include/graph.h:224 | after a union, the endpoints of every accepted edge still share a set |
| Kruskal.ConnectedSameSet | include/graph.h:218-226 | nodes connected by accepted edges are in one disjoint set |
| Kruskal.MergeSpans | include/graph.h:222-224 | after accepting an edge and merging its endpoints' sets, nodes in one set are connected by accepted edges |
| Kruskal.AcceptEdge | include/graph.h:222-223 | accepting the next edge when its endpoints are not yet connected keeps the result sorted by weight, made of candidates, and free of cycles |
| Kruskal.GreedyStep | include/graph.h:218-226 | one more sorted edge extends the greedy selection exactly when the edges selected so far do not connect its endpoints |
| Kruskal.AcceptProgress | include/graph.h:219-224 | when `find` gives the endpoints different roots, they are not connected by the accepted edges, and accepting the edge with a union keeps the loop invariant |
| Kruskal.SkipProgress | include/graph.h:219-222 | when `find` gives the endpoints one root, they are already connected by the accepted edges and skipping the edge keeps the loop invariant |
| Kruskal.ConsiderEdge | include/graph.h:219-225 | one turn of the loop accepts the edge exactly when the accepted edges do not yet connect its endpoints, and keeps the loop invariant |
| Kruskal.GrowForest | include/graph.h:218-226 | the loop returns the greedy selection from the sorted edges; it is sorted, made of candidates, acyclic, and accepted edges plus remaining sets equal the node count |
| Kruskal.SpanningAtEnd | include/graph.h:218-228 | at the end every candidate's endpoints are connected by the result, and the result has fewer edges than there are nodes |
| Kruskal.InitialSets | include/graph.h:210-215 | every node starts as its own root with rank 0, one set per node |
| Kruskal.KruskalMST | include/graph.h:192-229 | the result is the greedy selection from some weight-sorted permutation of the candidates (the order among equal weights being open): in non-decreasing weight, made of candidates, no edge closing a cycle with the edges before it, connecting the endpoints of every candidate, and empty or shorter than the node count |
| Prim.TreeStep | include/graph.h:179-180 | selecting an edge adds its destination to the tree |
| Prim.PrimTreeEdges | include/graph.h:170-186 | every selected edge is stored, does not lead to the start node, starts at the start node or at an earlier selected edge's destination, and no two selected edges share a destination |
| Prim.PrimTreeSize | include/graph.h:170-186 | the tree has one node more than there are selected edges |
| Prim.Outward | include/graph.h:181-185 | the edges pushed are exactly the listed edges whose destination is not yet visited |
| Prim.PushAll | include/graph.h:165-167 | the queue gains exactly the start node's edges |
| Prim.PushOutward | include/graph.h:181-185 | the queue gains exactly the edges to unvisited nodes |
| Prim.MinExists | include/graph.h:171 | a non-empty queue has an edge of least weight to take |
| Prim.StartGrowing | include/graph.h:163-167 | after visiting the start node and queueing its edges the loop invariant holds |
| Prim.SkipEdge | include/graph.h:174-177 | dropping an edge into the tree keeps the loop invariant |
| Prim.VisitEdge | include/graph.h:179-185 | selecting a least-weight edge to a new node and queueing that node's outward edges keeps the loop invariant |
| Prim.Exhausted | include/graph.h:170-186 | once the queue is empty, the visited nodes are exactly those reachable from the start |
| Prim.PrimMST | include/graph.h:153-189 | fails with `invalid_argument("Graph is empty")` exactly on a graph without nodes; otherwise the result is a tree grown from the first node in iteration order (stored edges, distinct destinations other than the start, each edge starting inside the tree built so far, the least-weight crossing edge at each step), has fewer edges than there are nodes, and spans exactly the nodes reachable from the start |
| Cycle.ForestAdd | include/graph.h:124-141 | recording a new node's parent keeps the parent map a forest rooted at the search roots |
| Cycle.NoEdgeFromLater | include/graph.h:145-146 | a fully scanned node without a report has no edge to an earlier-discovered node other than its parent |
| Cycle.NoEdgeToLater | include/graph.h:145-146 | a fully scanned node without a report has no edge to a later-discovered node unless it is that node's parent |
| Cycle.LatestIndex | include/graph.h:140-141 | some node of a non-empty node sequence was discovered last |
| Cycle.CycleBroken | include/graph.h:136-150 | when every node has been scanned without a report, every ring of three or more distinct nodes misses an edge |
| Cycle.NoSimpleCycle | include/graph.h:121-150 | when every node has been scanned without a report, the graph has no simple cycle |
| Cycle.ParentEdge | include/graph.h:145 | an edge back to the node's parent is not reported and keeps the scan invariant |
| Cycle.ChildEdge | include/graph.h:140-144 | after a child's search returns without a report, the scan invariant holds for the next edge |
| Cycle.HasCycleDFS | include/graph.h:136-150 | the search only adds parent entries; a `false` result means every node it discovered was fully scanned without finding a visited non-parent neighbour |
| Cycle.Descend | include/graph.h:140-144 | the child's parent is recorded as the current node before its search |
| Cycle.AfterRoot | include/graph.h:125-131 | after a search from a new root without a report, every discovered node is fully scanned |
| Cycle.HasCycle | include/graph.h:121-134 | a directed graph always gets `false`; an undirected graph gets `false` only if it has no simple cycle through three or more nodes |
| Coloring.FreeFrom | include/graph.h:268-271 | searching upward from `c` ends at the first colour not in use, which is at most one more than the number of colours in use |
| Coloring.Mex | include/graph.h:268-271 | the chosen colour is positive, not in use, every smaller positive colour is in use, and it is at most one more than the number of colours in use |
| Coloring.MexUnique | include/graph.h:268-271 | the smallest unused positive colour is the only colour with these properties |
| Coloring.SmallestFree | include/graph.h:268-271 | the search loop returns the smallest positive colour not in use |
| Coloring.ListColors | include/graph.h:275-279 | the result lists one colour per key, in the given order |
| Coloring.DestinationColorsSize | include/graph.h:262-267 | a node's edges contribute at most one used colour each |
| Coloring.NodeColorAtTurn | include/graph.h:261-273 | each node gets the smallest colour not used by its already-coloured out-neighbours at its turn |
| Coloring.ColoredEarlier | include/graph.h:272 | a node coloured earlier keeps its colour for the rest of the loop |
| Coloring.NodeColorBound | include/graph.h:263-272 | every node's colour is at least 1 and at most its out-degree plus one |
| Coloring.NodeColorDiffers | include/graph.h:263-272 | a node's colour differs from that of every out-neighbour coloured before it |
| Coloring.NodeColorSmallest | include/graph.h:268-272 | every smaller positive colour is held by an out-neighbour coloured before the node |
| Coloring.NodeColoringProper | include/graph.h:258-282 | in an undirected graph two distinct adjacent nodes get different colours |
| Coloring.CollectDestinationColors | include/graph.h:262-267 | the used-colour loop gathers exactly the colours of the already-coloured destinations |
| Coloring.NodeColoring | include/graph.h:258-282 | one colour per node, read out in the colour map's iteration order, each the greedy first-fit colour of that node |
| Coloring.EdgeListColorsSize | include/graph.h:298-308 | a list contributes at most one used colour per edge |
| Coloring.EdgeColorsStep | include/graph.h:292-315 | an edge already coloured is skipped; otherwise it gets the smallest colour unused around its two endpoints |
| Coloring.EdgeColorAtTurn | include/graph.h:297-315 | at its first visit an edge gets the smallest colour not used by the already-coloured edges filed under its source or destination |
| Coloring.EdgeColoredEarlier | include/graph.h:292-295 | an edge coloured earlier keeps its colour for the rest of the loop |
| Coloring.FirstVisit | include/graph.h:290-293 | every visited edge has a first visit |
| Coloring.EdgeColorBound | include/graph.h:297-315 | every edge's colour is at least 1 and at most the sum of its endpoints' degrees plus one |
| Coloring.EdgeColorDiffers | include/graph.h:297-315 | an edge's colour differs from that of every edge filed at one of its endpoints and coloured before it |
| Coloring.EdgeColorSmallest | include/graph.h:310-315 | every smaller positive colour is held by an earlier-coloured edge filed at one of its endpoints |
| Coloring.EdgeColoringProper | include/graph.h:284-327 | two different edges each filed at an endpoint of the other get different colours |
| Coloring.SameSourceColorsDiffer | include/graph.h:284-327 | two different edges filed under the same node get different colours |
| Coloring.MirrorColorsDiffer | include/graph.h:284-327 | in an undirected graph an edge and its mirror copy get different colours |
| Coloring.CollectEdgeColors | include/graph.h:298-308 | the used-colour loop gathers exactly the colours of the already-coloured edges of a list |
| Coloring.ColorEdgeList | include/graph.h:291-316 | the inner loop colours one node's edge list exactly as the greedy rule does |
| Coloring.EdgeColoring | include/graph.h:284-327 | one colour per distinct stored edge, read out in the colour map's iteration order, each the greedy first-fit colour of that edge |
| Scc.DistinctConcat | include/graph.h:356-376 | a concatenation is repetition-free exactly when both parts are and they share no node |
| Scc.Reverse | include/graph.h:372-377 | popping yields the top part of the stack back to front |
| Scc.ReverseKeeps | include/graph.h:372-377 | the popped component holds exactly the popped nodes, without repetition if the stack had none |
| Scc.GrowsTrans | include/graph.h:358-366 | a later state of a later state is a later state |
| Scc.Min | include/graph.h:363-365 | `std::min` gives the smaller of its two arguments |
| Scc.Pushed | include/graph.h:353-357 | the state after `node` is numbered with the current index, gets the same lowlink, the index advances, and `node` is pushed on the stack and into the on-stack set |
| Scc.Lowered | include/graph.h:363-365 | the state with `node`'s lowlink replaced by `std::min` of it and the given value |
| Scc.PartitionPush | include/graph.h:356 | pushing a new node keeps components and stack a partition of the visited nodes |
| Scc.StackPush | include/graph.h:353-356 | the pushed node's index and lowlink are no smaller than the bottom node's index |
| Scc.StackLower | include/graph.h:363-365 | lowering a lowlink to a value no smaller than the bottom node's index keeps the stack bound |
| Scc.PartitionPop | include/graph.h:368-378 | turning the top of the stack into a component keeps the partition |
| Scc.PoppedAreFresh | include/graph.h:368-378 | the nodes above a search's starting stack were unvisited when it started |
| Scc.PushValid | include/graph.h:353-357 | numbering and pushing an unvisited node keeps the state valid |
| Scc.PushFrame | include/graph.h:353-357 | after the push the node has the next index, sits on the stack above the caller's part, and its lowlink is at most its index |
| Scc.LowerValid | include/graph.h:363-365 | lowering a stacked node's lowlink keeps the state valid |
| Scc.LowerFrame | include/graph.h:363-365 | lowering the node's lowlink keeps the scan invariant |
| Scc.ChildFrame | include/graph.h:361-363 | after the recursive search of an unvisited destination, every newly visited node is reachable from the node, and the destination's lowlink is no smaller than the bottom index |
| Scc.BackEdgeBound | include/graph.h:364-365 | a destination on the stack has an index no smaller than the bottom node's |
| Scc.BottomIsRoot | include/graph.h:369 | a search started on an empty stack ends with the node's lowlink equal to its index |
| Scc.ComponentReachable | include/graph.h:368-378 | the popped component ends with the node, and each of its members is reachable from it |
| Scc.EmitValid | include/graph.h:368-378 | emitting the top of the stack as a component rooted at its first node keeps the state valid |
| Scc.EmitFrame | include/graph.h:368-378 | after emitting, the stack is back to the caller's stack and the node is off it with lowlink equal to index |
| Scc.PopComponent | include/graph.h:370-377 | the pop loop removes the nodes down to and including the node, and returns them in popping order |
| Scc.ScanEdge | include/graph.h:359-366 | one turn of the edge loop keeps the scan invariant |
| Scc.CloseComponent | include/graph.h:369-379 | a root's component is popped and emitted; a non-root stays on the stack |
| Scc.StrongConnect | include/graph.h:351-380 | the state stays valid and only grows; the node gets the next index; a node no longer on the stack has lowlink equal to index; a search started on an empty stack leaves it empty; every newly visited node is reachable from the node |
| Scc.StartValid | include/graph.h:332-337 | the initial state is valid |
| Scc.Visit | include/graph.h:340-342 | a loop turn leaves the node visited and the stack empty, and keeps earlier visits |
| Scc.AllVisited | include/graph.h:339-343 | once every listed node has been visited, all nodes have |
| Scc.StrongComponents | include/graph.h:331-345 | at the end every node is visited, the stack and on-stack set are empty, and each component ends with a node whose lowlink equals its index |
| Scc.ConnectedComponents | include/graph.h:329-349 | fails with `logic_error("This method is for directed graphs only")` exactly on an undirected graph; otherwise the components are non-empty, each node is in exactly one component exactly once, and every node of a component is reachable from its last node |

## Left out

- `katzCentrality`: floating-point fixed-point iteration with no iteration bound.
- `findSet`: it calls itself unconditionally, never terminates, and is never called.
- The unused members `minEdge`, `inTree` and `MST`.
- `EdgeHash`: hashing affects only the container's speed and iteration order. The
  edge colour map is keyed by edge equality.
- The Python binding and the Python driver scripts: foreign-language glue with no
  logic of its own.
- Hash-container iteration orders: they become parameters (`order`,
  `colorOrder`), constrained only to list each node (or edge) once.
- `operator[]` on an absent key: it inserts a default value. `.at` on an absent key
  throws. The library reaches neither on the paths modelled, because every key
  looked up is present. So `Find` requires `x in parent`, and `UnionByRank`
  requires both nodes in the map.
- Integer width: indices, ranks and colours are unbounded integers. A C++ `int`
  would overflow only beyond 2^31 nodes.
- Cycle.HasCycle: only the `false` answer is proved sound. The model does not
  prove that a `true` answer always points to a simple cycle.
- Kruskal.KruskalMST: minimality of total weight is not proved. The contract
  states the greedy selection rule, acyclicity and spanning.
- Kruskal.SortByWeight: it fixes one order among equal weights, which
  `std::sort` does not. So nothing about `KruskalMST` is stated in terms of it.
  `KruskalMST` is specified over every weight-sorted permutation.
- Prim.PrimMST: when several queued edges share the least weight, the model
  takes any one of them. `std::priority_queue`'s own tie-breaking is not
  pinned down.
- Scc.ConnectedComponents: the contract proves that the root reaches every
  member of its component. It does not prove the converse, that every member
  reaches the root, nor that each component is a maximal set of mutually
  reachable nodes. Both need a further invariant that is not carried: a path
  from each stacked node to the node whose index is its lowlink, together with
  the lowlink minimality argument.
- Recursion depth: the C++ recursion of `find`, `hasCycleDFS` and
  `strongConnect` can exhaust the call stack on deep graphs. The model does not
  bound it.
