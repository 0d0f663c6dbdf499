/** Greedy first-fit colouring of nodes (`nodeColoring`) and of edges
    (`edgeColoring`): each item in turn receives the smallest positive colour
    that no already coloured neighbour holds. */
module Coloring {
  import opened Edges
  import opened Adjacency

  // ------------------------------------------------------------------
  // The smallest free colour

  /** If every colour 1 .. n is taken, at least n colours are taken. */
  lemma {:induction false} TakenUpTo(used: set<int>, n: nat)
    requires forall k :: 1 <= k <= n ==> k in used
    ensures n <= |used|
  {
    if n > 0 {
      TakenUpTo(used - {n}, n - 1);
    }
  }

  /** The smallest colour from `c` on that `used` lacks, every colour below
      `c` being in `used`. */
  function FreeFrom(used: set<int>, c: int): (m: int)
    requires 1 <= c && forall k :: 1 <= k < c ==> k in used
    ensures c <= m <= |used| + 1 && m !in used
    ensures forall k :: 1 <= k < m ==> k in used
    decreases |used| + 1 - c
  {
    TakenUpTo(used, c - 1);
    if c !in used then c else FreeFrom(used, c + 1)
  }

  /** The smallest positive colour not in `used`; it is at most one more than
      the number of colours in use. */
  function Mex(used: set<int>): (m: int)
    ensures 1 <= m <= |used| + 1 && m !in used
    ensures forall k :: 1 <= k < m ==> k in used
  {
    FreeFrom(used, 1)
  }

  /** The three properties of `Mex` single it out. */
  lemma MexUnique(used: set<int>, c: int)
    requires 1 <= c && c !in used && forall k :: 1 <= k < c ==> k in used
    ensures c == Mex(used)
  {
  }

  /** The search both colourings end with: count up from 1 while the colour
      is in use. */
  method SmallestFree(used: set<int>) returns (color: int)
    ensures color == Mex(used)
  {
    color := 1;
    while color in used
      invariant 1 <= color && forall k :: 1 <= k < color ==> k in used
      decreases |used| + 1 - color
    {
      TakenUpTo(used, color);
      color := color + 1;
    }
    MexUnique(used, color);
  }

  /** The last loop of both colourings: the colours of a colour map, listed
      in the iteration order `keys` of that map. */
  method ListColors<K>(colors: map<K, int>, keys: seq<K>) returns (result: seq<int>)
    requires forall i :: 0 <= i < |keys| ==> keys[i] in colors
    ensures |result| == |keys|
    ensures forall i :: 0 <= i < |keys| ==> result[i] == colors[keys[i]]
  {
    result := [];
    for i := 0 to |keys|
      invariant |result| == i
      invariant forall k :: 0 <= k < i ==> result[k] == colors[keys[k]]
    {
      result := result + [colors[keys[i]]];
    }
  }

  // ------------------------------------------------------------------
  // Node colouring

  /** The colours held by the already coloured destinations of `list`. */
  ghost function DestinationColors(list: seq<Edge>, colors: map<Node, int>): set<int> {
    set k | 0 <= k < |list| && list[k].destination in colors :: colors[list[k].destination]
  }

  lemma DestinationColorsStep(list: seq<Edge>, colors: map<Node, int>, j: nat)
    requires j < |list|
    ensures DestinationColors(list[..j + 1], colors)
         == DestinationColors(list[..j], colors)
          + (if list[j].destination in colors then {colors[list[j].destination]} else {})
  {
    var a, b := list[..j + 1], list[..j];
    assert forall k :: 0 <= k < j ==> a[k] == b[k];
  }

  lemma {:induction false} DestinationColorsSize(list: seq<Edge>, colors: map<Node, int>)
    ensures |DestinationColors(list, colors)| <= |list|
  {
    if list != [] {
      var n := |list| - 1;
      DestinationColorsSize(list[..n], colors);
      DestinationColorsStep(list, colors, n);
      assert list[..n + 1] == list;
    }
  }

  /** The colours a node's outgoing edges see, for a node that may be absent. */
  ghost function SeenFrom(adj: Adj, colors: map<Node, int>, u: Node): set<int> {
    if u in adj then DestinationColors(adj[u], colors) else {}
  }

  /** `nodeColoring`'s colour map after colouring the nodes of `order` in turn. */
  ghost function NodeColors(adj: Adj, order: seq<Node>): (colors: map<Node, int>)
    ensures colors.Keys == set k | 0 <= k < |order| :: order[k]
  {
    if order == [] then map[]
    else
      var init, u := order[..|order| - 1], order[|order| - 1];
      var before := NodeColors(adj, init);
      assert forall k :: 0 <= k < |init| ==> init[k] == order[k];
      before[u := Mex(SeenFrom(adj, before, u))]
  }

  /** Colouring one more node of `order`. */
  lemma NodeColorsStep(adj: Adj, order: seq<Node>, i: nat)
    requires i < |order|
    ensures var before := NodeColors(adj, order[..i]);
            NodeColors(adj, order[..i + 1]) == before[order[i] := Mex(SeenFrom(adj, before, order[i]))]
  {
    assert order[..i + 1][..i] == order[..i];
  }

  /** A node of a repetition-free `order` keeps the colour it got when its
      turn came. */
  lemma {:induction false} NodeColorAtTurn(adj: Adj, order: seq<Node>, i: nat)
    requires i < |order| && forall a, b :: 0 <= a < b < |order| ==> order[a] != order[b]
    ensures NodeColors(adj, order)[order[i]]
         == Mex(SeenFrom(adj, NodeColors(adj, order[..i]), order[i]))
  {
    var n := |order| - 1;
    var init, u := order[..n], order[n];
    var before := NodeColors(adj, init);
    assert NodeColors(adj, order) == before[u := Mex(SeenFrom(adj, before, u))];
    if i < n {
      assert init[i] == order[i] != u;
      assert init[..i] == order[..i];
      NodeColorAtTurn(adj, init, i);
    }
  }

  /** Once coloured, a node keeps its colour while later nodes are coloured. */
  lemma ColoredEarlier(adj: Adj, order: seq<Node>, i: nat, j: nat)
    requires j < i <= |order| && forall a, b :: 0 <= a < b < |order| ==> order[a] != order[b]
    ensures order[j] in NodeColors(adj, order[..i])
    ensures NodeColors(adj, order[..i])[order[j]] == NodeColors(adj, order)[order[j]]
  {
    var p := order[..i];
    assert p[j] == order[j] && p[..j] == order[..j];
    NodeColorAtTurn(adj, p, j);
    NodeColorAtTurn(adj, order, j);
  }

  /** A node's colour is positive and at most one more than its out-degree. */
  lemma NodeColorBound(adj: Adj, order: seq<Node>, i: nat)
    requires IsEnumeration(order, adj.Keys) && i < |order|
    ensures order[i] in adj
    ensures 1 <= NodeColors(adj, order)[order[i]] <= |adj[order[i]]| + 1
  {
    var u := order[i];
    NodeColorAtTurn(adj, order, i);
    DestinationColorsSize(adj[u], NodeColors(adj, order[..i]));
  }

  /** A node's colour differs from that of every destination of its edges
      coloured before it (the `j`-th node of `order`, with `j` below `i`). */
  lemma NodeColorDiffers(adj: Adj, order: seq<Node>, i: nat, k: nat, j: nat)
    requires IsEnumeration(order, adj.Keys) && j < i < |order|
    requires k < |adj[order[i]]| && adj[order[i]][k].destination == order[j]
    ensures NodeColors(adj, order)[order[i]] != NodeColors(adj, order)[order[j]]
  {
    var u := order[i];
    var before := NodeColors(adj, order[..i]);
    NodeColorAtTurn(adj, order, i);
    ColoredEarlier(adj, order, i, j);
    assert before[order[j]] in DestinationColors(adj[u], before);
  }

  /** Colour `c` is held by a destination of `order[i]`'s edges coloured
      before it. */
  ghost predicate HeldBefore(adj: Adj, order: seq<Node>, i: nat, c: int)
    requires i < |order| && order[i] in adj
  {
    exists k, j :: 0 <= k < |adj[order[i]]| && 0 <= j < i && adj[order[i]][k].destination == order[j] &&
                   order[j] in NodeColors(adj, order) && NodeColors(adj, order)[order[j]] == c
  }

  /** First fit: every positive colour below a node's colour is held by a
      destination of its edges coloured before it. */
  lemma NodeColorSmallest(adj: Adj, order: seq<Node>, i: nat, c: int)
    requires i < |order| && order[i] in adj
    requires forall a, b :: 0 <= a < b < |order| ==> order[a] != order[b]
    requires 1 <= c < NodeColors(adj, order)[order[i]]
    ensures HeldBefore(adj, order, i, c)
  {
    var u := order[i];
    var before := NodeColors(adj, order[..i]);
    NodeColorAtTurn(adj, order, i);
    assert c in DestinationColors(adj[u], before);
    var k :| 0 <= k < |adj[u]| && adj[u][k].destination in before && before[adj[u][k].destination] == c;
    var j :| 0 <= j < i && order[..i][j] == adj[u][k].destination;
    assert order[..i][j] == order[j];
    ColoredEarlier(adj, order, i, j);
  }

  /** In an undirected store every edge is mirrored, so the first-fit rule
      sees both ends of an edge: two different nodes joined by an edge get
      different colours, whatever the iteration order. */
  lemma NodeColoringProper(adj: Adj, order: seq<Node>, u: Node, v: Node)
    requires WellFormed(adj) && Mirrored(adj) && IsEnumeration(order, adj.Keys)
    requires u in adj && Adjacent(adj, u, v) && u != v
    ensures NodeColors(adj, order)[u] != NodeColors(adj, order)[v]
  {
    var k :| 0 <= k < |adj[u]| && adj[u][k].destination == v;
    var back := Reversed(adj[u][k]);
    assert v in adj && back in adj[v];
    var k' :| 0 <= k' < |adj[v]| && adj[v][k'] == back;
    var i :| 0 <= i < |order| && order[i] == u;
    var j :| 0 <= j < |order| && order[j] == v;
    if j < i {
      NodeColorDiffers(adj, order, i, k, j);
    } else {
      assert adj[v][k'].destination == order[i] && i < j;
      NodeColorDiffers(adj, order, j, k', i);
    }
  }

  /** The inner loop of `nodeColoring`: the colours of the coloured
      destinations of `u`'s edges. */
  method CollectDestinationColors(list: seq<Edge>, colors: map<Node, int>) returns (used: set<int>)
    ensures used == DestinationColors(list, colors)
  {
    used := {};
    for j := 0 to |list|
      invariant used == DestinationColors(list[..j], colors)
    {
      DestinationColorsStep(list, colors, j);
      if list[j].destination in colors {
        used := used + {colors[list[j].destination]};
      }
    }
    assert list[..|list|] == list;
  }

  /** `nodeColoring`: colour the nodes in the store's iteration order `order`,
      then list the colours in the colour map's own iteration order
      `colorOrder`, one colour per node. */
  method NodeColoring(adj: Adj, order: seq<Node>, colorOrder: seq<Node>) returns (result: seq<int>)
    requires IsEnumeration(order, adj.Keys) && IsEnumeration(colorOrder, adj.Keys)
    ensures |result| == |colorOrder| == |adj.Keys|
    ensures forall i :: 0 <= i < |result| ==> result[i] == NodeColors(adj, order)[colorOrder[i]]
  {
    var colors: map<Node, int> := map[];
    for i := 0 to |order|
      invariant colors == NodeColors(adj, order[..i])
    {
      var u := order[i];
      assert u in adj;
      var used := CollectDestinationColors(adj[u], colors);
      var color := SmallestFree(used);
      NodeColorsStep(adj, order, i);
      colors := colors[u := color];
    }
    assert order[..|order|] == order;
    result := ListColors(colors, colorOrder);
    EnumerationLength(colorOrder, adj.Keys);
  }

  // ------------------------------------------------------------------
  // Edge colouring

  /** The colours held by the already coloured edges of `list`. */
  ghost function EdgeListColors(list: seq<Edge>, colors: map<Edge, int>): set<int> {
    set k | 0 <= k < |list| && list[k] in colors :: colors[list[k]]
  }

  lemma EdgeListColorsStep(list: seq<Edge>, colors: map<Edge, int>, j: nat)
    requires j < |list|
    ensures EdgeListColors(list[..j + 1], colors)
         == EdgeListColors(list[..j], colors) + (if list[j] in colors then {colors[list[j]]} else {})
  {
    var a, b := list[..j + 1], list[..j];
    assert forall k :: 0 <= k < j ==> a[k] == b[k];
  }

  lemma {:induction false} EdgeListColorsSize(list: seq<Edge>, colors: map<Edge, int>)
    ensures |EdgeListColors(list, colors)| <= |list|
  {
    if list != [] {
      var n := |list| - 1;
      EdgeListColorsSize(list[..n], colors);
      EdgeListColorsStep(list, colors, n);
      assert list[..n + 1] == list;
    }
  }

  /** The colours held by the coloured edges filed under `u`, for a node that
      may be absent. */
  ghost function HeldAt(adj: Adj, colors: map<Edge, int>, u: Node): set<int> {
    if u in adj then EdgeListColors(adj[u], colors) else {}
  }

  /** The colours the first-fit rule avoids for `e`: those of the coloured
      edges filed under either end of `e`. */
  ghost function Around(adj: Adj, colors: map<Edge, int>, e: Edge): set<int> {
    HeldAt(adj, colors, e.source) + HeldAt(adj, colors, e.destination)
  }

  /** `f` is filed under one of the two ends of `e`. */
  ghost predicate FiledAtEnd(adj: Adj, f: Edge, e: Edge) {
    (e.source in adj && f in adj[e.source]) || (e.destination in adj && f in adj[e.destination])
  }

  /** `edgeColoring`'s colour map after visiting the edges `es` in turn: an
      edge met again (an equal edge filed twice) keeps its first colour. */
  ghost function EdgeColors(adj: Adj, es: seq<Edge>): (colors: map<Edge, int>)
    ensures colors.Keys == set e | e in es
  {
    if es == [] then map[]
    else
      var init, e := es[..|es| - 1], es[|es| - 1];
      var before := EdgeColors(adj, init);
      assert es == init + [e];
      if e in before then before else before[e := Mex(Around(adj, before, e))]
  }

  /** Visiting one more edge. */
  lemma EdgeColorsStep(adj: Adj, es: seq<Edge>, e: Edge)
    ensures var before := EdgeColors(adj, es);
            EdgeColors(adj, es + [e]) == if e in before then before else before[e := Mex(Around(adj, before, e))]
  {
    assert (es + [e])[..|es|] == es;
  }

  /** An edge keeps the colour it got on its first visit. */
  lemma {:induction false} EdgeColorAtTurn(adj: Adj, es: seq<Edge>, i: nat)
    requires i < |es| && es[i] !in es[..i]
    ensures EdgeColors(adj, es)[es[i]] == Mex(Around(adj, EdgeColors(adj, es[..i]), es[i]))
  {
    var n := |es| - 1;
    var init, e := es[..n], es[n];
    assert es == init + [e];
    EdgeColorsStep(adj, init, e);
    if i < n {
      assert init[i] == es[i] && init[..i] == es[..i];
      assert es[i] in EdgeColors(adj, init);
      EdgeColorAtTurn(adj, init, i);
    }
  }

  /** A coloured edge keeps its colour while later edges are visited. */
  lemma {:induction false} EdgeColoredEarlier(adj: Adj, es: seq<Edge>, i: nat, f: Edge)
    requires i <= |es| && f in EdgeColors(adj, es[..i])
    ensures f in EdgeColors(adj, es) && EdgeColors(adj, es)[f] == EdgeColors(adj, es[..i])[f]
    decreases |es|
  {
    if i < |es| {
      var n := |es| - 1;
      var init := es[..n];
      assert es == init + [es[n]] && init[..i] == es[..i];
      EdgeColoredEarlier(adj, init, i, f);
      EdgeColorsStep(adj, init, es[n]);
    } else {
      assert es[..i] == es;
    }
  }

  /** The first visit of an edge. */
  lemma FirstVisit(es: seq<Edge>, e: Edge) returns (i: nat)
    requires e in es
    ensures i < |es| && es[i] == e && e !in es[..i]
  {
    i := 0;
    while es[i] != e
      invariant i < |es| && e !in es[..i]
      decreases |es| - i
    {
      assert es[..i + 1] == es[..i] + [es[i]];
      i := i + 1;
    }
  }

  /** An edge's colour is positive and at most one more than the number of
      edges filed under its two ends. */
  lemma EdgeColorBound(adj: Adj, es: seq<Edge>, e: Edge)
    requires e in es && e.source in adj && e.destination in adj
    ensures 1 <= EdgeColors(adj, es)[e] <= |adj[e.source]| + |adj[e.destination]| + 1
  {
    var i := FirstVisit(es, e);
    var before := EdgeColors(adj, es[..i]);
    EdgeColorAtTurn(adj, es, i);
    EdgeListColorsSize(adj[e.source], before);
    EdgeListColorsSize(adj[e.destination], before);
  }

  /** An edge's colour differs from that of every edge filed under one of its
      ends and coloured before its first visit. */
  lemma EdgeColorDiffers(adj: Adj, es: seq<Edge>, i: nat, f: Edge)
    requires i < |es| && es[i] !in es[..i]
    requires f in EdgeColors(adj, es[..i]) && FiledAtEnd(adj, f, es[i])
    ensures EdgeColors(adj, es)[es[i]] != EdgeColors(adj, es)[f]
  {
    var e, before := es[i], EdgeColors(adj, es[..i]);
    EdgeColorAtTurn(adj, es, i);
    EdgeColoredEarlier(adj, es, i, f);
    if e.source in adj && f in adj[e.source] {
      var k :| 0 <= k < |adj[e.source]| && adj[e.source][k] == f;
      assert before[f] in HeldAt(adj, before, e.source);
    } else {
      var k :| 0 <= k < |adj[e.destination]| && adj[e.destination][k] == f;
      assert before[f] in HeldAt(adj, before, e.destination);
    }
  }

  /** Colour `c` is held by an edge filed under an end of `es[i]` and coloured
      before its first visit. */
  ghost predicate HeldAround(adj: Adj, es: seq<Edge>, i: nat, c: int)
    requires i < |es|
  {
    exists f :: f in EdgeColors(adj, es[..i]) && FiledAtEnd(adj, f, es[i]) && EdgeColors(adj, es)[f] == c
  }

  /** First fit: every positive colour below an edge's colour is held by an
      edge filed under one of its ends and coloured before it. */
  lemma EdgeColorSmallest(adj: Adj, es: seq<Edge>, i: nat, c: int)
    requires i < |es| && es[i] !in es[..i]
    requires 1 <= c < EdgeColors(adj, es)[es[i]]
    ensures HeldAround(adj, es, i, c)
  {
    var e, before := es[i], EdgeColors(adj, es[..i]);
    EdgeColorAtTurn(adj, es, i);
    assert c in HeldAt(adj, before, e.source) + HeldAt(adj, before, e.destination);
    var f: Edge;
    if c in HeldAt(adj, before, e.source) {
      var k :| 0 <= k < |adj[e.source]| && adj[e.source][k] in before && before[adj[e.source][k]] == c;
      f := adj[e.source][k];
    } else {
      var k :| 0 <= k < |adj[e.destination]| && adj[e.destination][k] in before && before[adj[e.destination][k]] == c;
      f := adj[e.destination][k];
    }
    EdgeColoredEarlier(adj, es, i, f);
  }

  /** Two different edges each filed under an end of the other get different
      colours, whichever is visited first. */
  lemma EdgeColoringProper(adj: Adj, es: seq<Edge>, e: Edge, f: Edge)
    requires e in es && f in es && e != f
    requires FiledAtEnd(adj, f, e) && FiledAtEnd(adj, e, f)
    ensures EdgeColors(adj, es)[e] != EdgeColors(adj, es)[f]
  {
    var i := FirstVisit(es, e);
    var j := FirstVisit(es, f);
    if j < i {
      assert es[..i][j] == f;
      EdgeColorDiffers(adj, es, i, f);
    } else {
      assert es[..j][i] == e;
      EdgeColorDiffers(adj, es, j, e);
    }
  }

  /** Two different edges filed under the same node get different colours. */
  lemma SameSourceColorsDiffer(adj: Adj, order: seq<Node>, u: Node, e: Edge, f: Edge)
    requires WellFormed(adj) && IsEnumeration(order, adj.Keys)
    requires u in adj && e in adj[u] && f in adj[u] && e != f
    ensures var colors := EdgeColors(adj, AllEdges(adj, order));
            e in colors && f in colors && colors[e] != colors[f]
  {
    var k :| 0 <= k < |adj[u]| && adj[u][k] == e;
    var l :| 0 <= l < |adj[u]| && adj[u][l] == f;
    StoredEdge(adj, order, e);
    StoredEdge(adj, order, f);
    EdgeColoringProper(adj, AllEdges(adj, order), e, f);
  }

  /** In an undirected store an edge that is not a loop and its mirror image
      get different colours. */
  lemma MirrorColorsDiffer(adj: Adj, order: seq<Node>, u: Node, e: Edge)
    requires WellFormed(adj) && Mirrored(adj) && IsEnumeration(order, adj.Keys)
    requires u in adj && e in adj[u] && e.source != e.destination
    ensures var colors := EdgeColors(adj, AllEdges(adj, order));
            e in colors && Reversed(e) in colors && colors[e] != colors[Reversed(e)]
  {
    var k :| 0 <= k < |adj[u]| && adj[u][k] == e;
    var r := Reversed(e);
    assert e.source == u && r in adj[e.destination];
    StoredEdge(adj, order, e);
    StoredEdge(adj, order, r);
    EdgeColoringProper(adj, AllEdges(adj, order), e, r);
  }

  /** The colours of the coloured edges of `list`. */
  method CollectEdgeColors(list: seq<Edge>, colors: map<Edge, int>) returns (used: set<int>)
    ensures used == EdgeListColors(list, colors)
  {
    used := {};
    for j := 0 to |list|
      invariant used == EdgeListColors(list[..j], colors)
    {
      EdgeListColorsStep(list, colors, j);
      if list[j] in colors {
        used := used + {colors[list[j]]};
      }
    }
    assert list[..|list|] == list;
  }

  /** The inner loop of `edgeColoring` over one node's edge list. */
  method ColorEdgeList(adj: Adj, list: seq<Edge>, colors0: map<Edge, int>, ghost done: seq<Edge>)
      returns (colors: map<Edge, int>)
    requires colors0 == EdgeColors(adj, done)
    requires forall k :: 0 <= k < |list| ==> list[k].source in adj && list[k].destination in adj
    ensures colors == EdgeColors(adj, done + list)
  {
    colors := colors0;
    PrefixAppend(done, list, 0);
    for j := 0 to |list|
      invariant colors == EdgeColors(adj, done + list[..j])
    {
      var edge := list[j];
      PrefixAppend(done, list, j);
      EdgeColorsStep(adj, done + list[..j], edge);
      if edge in colors {
        continue;
      }
      var atSource := CollectEdgeColors(adj[edge.source], colors);
      var atDestination := CollectEdgeColors(adj[edge.destination], colors);
      var color := SmallestFree(atSource + atDestination);
      assert color == Mex(Around(adj, colors, edge));
      colors := colors[edge := color];
    }
    PrefixAppend(done, list, |list|);
  }

  lemma PrefixAppend(done: seq<Edge>, list: seq<Edge>, j: nat)
    requires j <= |list|
    ensures j == 0 ==> done + list[..j] == done
    ensures j < |list| ==> done + list[..j + 1] == (done + list[..j]) + [list[j]]
    ensures j == |list| ==> done + list[..j] == done + list
  {
    if j < |list| {
      assert list[..j + 1] == list[..j] + [list[j]];
    }
  }

  /** `edgeColoring`: visit the edges in the store's iteration order (`order`,
      then each node's list), colour each edge not yet coloured, and list the
      colours in the colour map's own iteration order `colorOrder`, one
      colour per distinct stored edge. */
  method EdgeColoring(adj: Adj, order: seq<Node>, colorOrder: seq<Edge>) returns (result: seq<int>)
    requires WellFormed(adj) && IsEnumeration(order, adj.Keys)
    requires IsEnumeration(colorOrder, set e | e in AllEdges(adj, order))
    ensures |result| == |colorOrder|
    ensures forall i :: 0 <= i < |result| ==> result[i] == EdgeColors(adj, AllEdges(adj, order))[colorOrder[i]]
  {
    var colors: map<Edge, int> := map[];
    for i := 0 to |order|
      invariant colors == EdgeColors(adj, AllEdges(adj, order[..i]))
    {
      var u := order[i];
      assert u in adj;
      assert order[..i + 1][..i] == order[..i];
      colors := ColorEdgeList(adj, adj[u], colors, AllEdges(adj, order[..i]));
    }
    assert order[..|order|] == order;
    result := ListColors(colors, colorOrder);
  }
}
