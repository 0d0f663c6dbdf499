/** Tarjan's strongly connected components (`connectedComponents` and its
    recursive helper `strongConnect`). */
module Scc {
  import opened Edges
  import opened Adjacency

  // ------------------------------------------------------------------
  // Sequences of nodes

  /** No node occurs twice. */
  ghost predicate Distinct(s: seq<Node>) {
    forall i, j :: 0 <= i < j < |s| ==> s[i] != s[j]
  }

  function Elements(s: seq<Node>): set<Node> {
    set i | 0 <= i < |s| :: s[i]
  }

  function Last(s: seq<Node>): Node
    requires |s| > 0
  {
    s[|s| - 1]
  }

  /** A concatenation has no repeated node exactly when neither part has one
      and the parts share no node. */
  lemma DistinctConcat(a: seq<Node>, b: seq<Node>)
    ensures Distinct(a + b) <==>
      Distinct(a) && Distinct(b) && forall x :: x in Elements(a) ==> x !in Elements(b)
  {
    var ab := a + b;
    if Distinct(ab) {
      forall i, j | 0 <= i < j < |b|
        ensures b[i] != b[j]
      {
        assert ab[|a| + i] == b[i] && ab[|a| + j] == b[j];
      }
      forall x | x in Elements(a)
        ensures x !in Elements(b)
      {
        var i :| 0 <= i < |a| && a[i] == x;
        assert forall j :: 0 <= j < |b| ==> ab[|a| + j] == b[j] && ab[i] != ab[|a| + j];
      }
      assert forall i, j :: 0 <= i < j < |a| ==> ab[i] == a[i] && ab[j] == a[j];
    }
    if Distinct(a) && Distinct(b) && forall x :: x in Elements(a) ==> x !in Elements(b) {
      forall i, j | 0 <= i < j < |ab|
        ensures ab[i] != ab[j]
      {
        if j < |a| {
          assert ab[i] == a[i] && ab[j] == a[j];
        } else if i < |a| {
          assert ab[i] == a[i] && ab[j] == b[j - |a|];
          assert a[i] in Elements(a) && b[j - |a|] in Elements(b);
          assert a[i] !in Elements(b);
        } else {
          assert ab[i] == b[i - |a|] && ab[j] == b[j - |a|];
        }
      }
    }
  }

  lemma ElementsConcat(a: seq<Node>, b: seq<Node>)
    ensures Elements(a + b) == Elements(a) + Elements(b)
  {
    var ab := a + b;
    forall x | x in Elements(ab)
      ensures x in Elements(a) + Elements(b)
    {
      var i :| 0 <= i < |ab| && ab[i] == x;
      if i < |a| {
        assert a[i] == x;
      } else {
        assert b[i - |a|] == x;
      }
    }
    forall x | x in Elements(a) + Elements(b)
      ensures x in Elements(ab)
    {
      if x in Elements(a) {
        var i :| 0 <= i < |a| && a[i] == x;
        assert ab[i] == x;
      } else {
        var i :| 0 <= i < |b| && b[i] == x;
        assert ab[|a| + i] == x;
      }
    }
  }

  /** `s` back to front: the order in which popping `s` off a stack yields
      its nodes. */
  function Reverse(s: seq<Node>): (r: seq<Node>)
    ensures |r| == |s| && forall i :: 0 <= i < |s| ==> r[i] == s[|s| - 1 - i]
  {
    if s == [] then [] else Reverse(s[1..]) + [s[0]]
  }

  /** Reversing keeps the nodes and their distinctness. */
  lemma ReverseKeeps(s: seq<Node>)
    ensures Elements(Reverse(s)) == Elements(s)
    ensures Distinct(s) ==> Distinct(Reverse(s))
  {
    var r := Reverse(s);
    forall x | x in Elements(s)
      ensures x in Elements(r)
    {
      var i :| 0 <= i < |s| && s[i] == x;
      assert r[|s| - 1 - i] == x;
    }
    assert forall i :: 0 <= i < |r| ==> r[i] in Elements(s);
    if Distinct(s) {
      forall i, j | 0 <= i < j < |r|
        ensures r[i] != r[j]
      {
        assert r[i] == s[|s| - 1 - i] && r[j] == s[|s| - 1 - j];
      }
    }
  }

  /** The components run together, in order. */
  function Flatten(cs: seq<seq<Node>>): seq<Node> {
    if cs == [] then [] else Flatten(cs[..|cs| - 1]) + cs[|cs| - 1]
  }

  lemma {:induction false} FlattenAppend(cs: seq<seq<Node>>, ds: seq<seq<Node>>)
    ensures Flatten(cs + ds) == Flatten(cs) + Flatten(ds)
    decreases |ds|
  {
    if ds != [] {
      var n := |ds| - 1;
      assert (cs + ds)[..|cs + ds| - 1] == cs + ds[..n];
      FlattenAppend(cs, ds[..n]);
    } else {
      assert cs + ds == cs;
    }
  }

  /** Every node of a component occurs in the flattening. */
  lemma {:induction false} InFlatten(cs: seq<seq<Node>>, k: nat, i: nat)
    requires k < |cs| && i < |cs[k]|
    ensures cs[k][i] in Elements(Flatten(cs))
  {
    var n := |cs| - 1;
    ElementsConcat(Flatten(cs[..n]), cs[n]);
    if k < n {
      assert cs[..n][k] == cs[k];
      InFlatten(cs[..n], k, i);
    } else {
      assert cs[n][i] in Elements(cs[n]);
    }
  }

  // ------------------------------------------------------------------
  // The algorithm's state

  /** The six variables `connectedComponents` owns and lends to
      `strongConnect` by reference: the next index, each visited node's index
      and lowlink, the work stack, the set of nodes on it, and the components
      emitted so far. */
  datatype Tarjan = Tarjan(index: int, indices: map<Node, int>, lowlinks: map<Node, int>,
                           stack: seq<Node>, onStack: set<Node>, components: seq<seq<Node>>)

  /** The emitted components are non-empty, and together with the stack they
      hold every visited node exactly once. */
  ghost predicate Partitioned(cs: seq<seq<Node>>, stack: seq<Node>, nodes: set<Node>) {
    && (forall k :: 0 <= k < |cs| ==> cs[k] != [])
    && Distinct(Flatten(cs) + stack)
    && Elements(Flatten(cs) + stack) == nodes
  }

  /** Every node on the stack has an index and a lowlink no smaller than the
      index of the node at the bottom of the stack. */
  ghost predicate StackBounded(stack: seq<Node>, indices: map<Node, int>, lowlinks: map<Node, int>) {
    forall i :: 0 <= i < |stack| ==>
      && stack[0] in indices && stack[i] in indices && stack[i] in lowlinks
      && indices[stack[0]] <= indices[stack[i]]
      && indices[stack[0]] <= lowlinks[stack[i]]
  }

  /** Every emitted component ends with its root, a node whose lowlink equals
      its index, and every node of the component is reachable from the root. */
  ghost predicate Rooted(adj: Adj, cs: seq<seq<Node>>, indices: map<Node, int>, lowlinks: map<Node, int>) {
    forall k :: 0 <= k < |cs| ==>
      && cs[k] != []
      && Last(cs[k]) in indices && Last(cs[k]) in lowlinks
      && lowlinks[Last(cs[k])] == indices[Last(cs[k])]
      && forall i :: 0 <= i < |cs[k]| ==> Reachable(adj, Last(cs[k]), cs[k][i])
  }

  /** The visited nodes are nodes of the graph, each with a lowlink and an
      index below the next one to be handed out. */
  ghost predicate Numbered(adj: Adj, t: Tarjan) {
    && t.lowlinks.Keys == t.indices.Keys && t.indices.Keys <= adj.Keys && 0 <= t.index
    && (forall x :: x in t.indices ==> 0 <= t.indices[x] < t.index)
  }

  /** The invariant the state keeps between steps of the search. */
  ghost predicate Valid(adj: Adj, t: Tarjan) {
    && Numbered(adj, t)
    && t.onStack == Elements(t.stack)
    && Partitioned(t.components, t.stack, t.indices.Keys)
    && StackBounded(t.stack, t.indices, t.lowlinks)
    && Rooted(adj, t.components, t.indices, t.lowlinks)
  }

  /** `t'` is a later state than `t`: indices and lowlinks of the nodes `t`
      had visited are kept, and `t`'s stack and component list are prefixes of
      `t'`'s. */
  ghost predicate Grows(t: Tarjan, t': Tarjan) {
    && t.index <= t'.index
    && t.indices.Keys <= t'.indices.Keys && t.lowlinks.Keys <= t'.lowlinks.Keys
    && (forall x {:trigger t'.indices[x]} :: x in t.indices ==> t'.indices[x] == t.indices[x])
    && (forall x {:trigger t'.lowlinks[x]} :: x in t.lowlinks ==> t'.lowlinks[x] == t.lowlinks[x])
    && |t.stack| <= |t'.stack| && t'.stack[..|t.stack|] == t.stack
    && |t.components| <= |t'.components| && t'.components[..|t.components|] == t.components
  }

  lemma GrowsTrans(t0: Tarjan, t1: Tarjan, t2: Tarjan)
    requires Grows(t0, t1) && Grows(t1, t2)
    ensures Grows(t0, t2)
  {
    assert t2.stack[..|t0.stack|] == t2.stack[..|t1.stack|][..|t0.stack|];
    assert t2.components[..|t0.components|] == t2.components[..|t1.components|][..|t0.components|];
  }

  /** The state right after `strongConnect` has numbered `node` and pushed it. */
  function Pushed(t: Tarjan, node: Node): Tarjan {
    Tarjan(t.index + 1, t.indices[node := t.index], t.lowlinks[node := t.index],
           t.stack + [node], t.onStack + {node}, t.components)
  }

  /** `node`'s lowlink lowered to `v`, if `v` is lower (`std::min`). */
  function Lowered(t: Tarjan, node: Node, v: int): Tarjan
    requires node in t.lowlinks
  {
    t.(lowlinks := t.lowlinks[node := Min(t.lowlinks[node], v)])
  }

  /** `std::min`. */
  function Min(a: int, b: int): (m: int)
    ensures m <= a && m <= b && (m == a || m == b)
  {
    if b < a then b else a
  }

  /** What holds while `strongConnect(node)` scans `node`'s edges, `t0`
      being the state it was called in. */
  ghost predicate Frame(adj: Adj, t0: Tarjan, node: Node, t: Tarjan) {
    && Valid(adj, t0) && Valid(adj, t) && Grows(t0, t) && node !in t0.indices
    && node in t.indices && t.indices[node] == t0.index
    && |t0.stack| < |t.stack| && t.stack[|t0.stack|] == node
    && t.lowlinks[node] <= t.indices[node]
    && forall x {:trigger Reachable(adj, node, x)} :: x in t.indices && x !in t0.indices ==> Reachable(adj, node, x)
  }

  // ------------------------------------------------------------------
  // How each step keeps the invariant

  lemma PartitionPush(cs: seq<seq<Node>>, stack: seq<Node>, nodes: set<Node>, x: Node)
    requires Partitioned(cs, stack, nodes) && x !in nodes
    ensures Partitioned(cs, stack + [x], nodes + {x})
  {
    var f := Flatten(cs);
    assert f + (stack + [x]) == (f + stack) + [x];
    assert Elements([x]) == {x} by {
      assert [x][0] == x;
    }
    DistinctConcat(f + stack, [x]);
    ElementsConcat(f + stack, [x]);
  }

  lemma StackPush(stack: seq<Node>, indices: map<Node, int>, lowlinks: map<Node, int>, x: Node, v: int)
    requires StackBounded(stack, indices, lowlinks) && x !in indices
    requires forall y :: y in indices ==> indices[y] < v
    ensures StackBounded(stack + [x], indices[x := v], lowlinks[x := v])
  {
    var s := stack + [x];
    forall i | 0 <= i < |s|
      ensures s[0] in indices[x := v] && s[i] in indices[x := v] && s[i] in lowlinks[x := v]
      ensures indices[x := v][s[0]] <= indices[x := v][s[i]]
      ensures indices[x := v][s[0]] <= lowlinks[x := v][s[i]]
    {
      if i < |stack| {
        assert s[0] == stack[0] && s[i] == stack[i];
      } else if |stack| > 0 {
        assert s[0] == stack[0];
      }
    }
  }

  lemma StackLower(stack: seq<Node>, indices: map<Node, int>, lowlinks: map<Node, int>, x: Node, v: int)
    requires StackBounded(stack, indices, lowlinks) && |stack| > 0
    requires stack[0] in indices && indices[stack[0]] <= v
    ensures StackBounded(stack, indices, lowlinks[x := v])
  {
  }

  lemma StackPrefix(stack: seq<Node>, indices: map<Node, int>, lowlinks: map<Node, int>, p: nat)
    requires StackBounded(stack, indices, lowlinks) && p <= |stack|
    ensures StackBounded(stack[..p], indices, lowlinks)
  {
    assert forall i :: 0 <= i < p ==> stack[..p][i] == stack[i];
  }

  /** The roots' entries are untouched when a node outside the components is
      renumbered. */
  lemma RootedUpdate(adj: Adj, cs: seq<seq<Node>>, indices: map<Node, int>, lowlinks: map<Node, int>,
                     indices': map<Node, int>, lowlinks': map<Node, int>, x: Node)
    requires Rooted(adj, cs, indices, lowlinks) && x !in Elements(Flatten(cs))
    requires forall y :: y != x ==> (y in indices' <==> y in indices) && (y in lowlinks' <==> y in lowlinks)
    requires forall y :: y != x && y in indices ==> indices'[y] == indices[y]
    requires forall y :: y != x && y in lowlinks ==> lowlinks'[y] == lowlinks[y]
    ensures Rooted(adj, cs, indices', lowlinks')
  {
    forall k | 0 <= k < |cs|
      ensures Last(cs[k]) != x
    {
      InFlatten(cs, k, |cs[k]| - 1);
    }
  }

  lemma RootedEmit(adj: Adj, cs: seq<seq<Node>>, indices: map<Node, int>, lowlinks: map<Node, int>, c: seq<Node>)
    requires Rooted(adj, cs, indices, lowlinks) && c != []
    requires Last(c) in indices && Last(c) in lowlinks && lowlinks[Last(c)] == indices[Last(c)]
    requires forall i :: 0 <= i < |c| ==> Reachable(adj, Last(c), c[i])
    ensures Rooted(adj, cs + [c], indices, lowlinks)
  {
    var cs' := cs + [c];
    assert forall k :: 0 <= k < |cs| ==> cs'[k] == cs[k];
    assert cs'[|cs|] == c;
  }

  /** Moving the top part `upper` of the stack, reversed, into a new
      component keeps the partition. */
  lemma PartitionPop(cs: seq<seq<Node>>, lower: seq<Node>, upper: seq<Node>, nodes: set<Node>)
    requires Partitioned(cs, lower + upper, nodes) && upper != []
    ensures Partitioned(cs + [Reverse(upper)], lower, nodes)
    ensures Distinct(lower + upper)
  {
    var f, r := Flatten(cs), Reverse(upper);
    var cs' := cs + [r];
    assert cs'[..|cs'| - 1] == cs;
    assert Flatten(cs') == f + r;
    assert f + (lower + upper) == (f + lower) + upper;
    DistinctConcat(f, lower + upper);
    DistinctConcat(lower, upper);
    DistinctConcat(f + lower, upper);
    DistinctConcat(f, lower);
    ElementsConcat(f, lower + upper);
    ElementsConcat(lower, upper);
    ElementsConcat(f, lower);
    ReverseKeeps(upper);
    // (f + r) + lower, assembled from its parts
    DistinctConcat(f, r);
    ElementsConcat(f, r);
    DistinctConcat(f + r, lower);
    ElementsConcat(f + r, lower);
    forall k | 0 <= k < |cs'|
      ensures cs'[k] != []
    {
      if k < |cs| {
        assert cs'[k] == cs[k];
      }
    }
  }

  /** The nodes above position `p` of the stack at the end of a search were
      not visited when the search began. */
  lemma PoppedAreFresh(t0: Tarjan, t: Tarjan)
    requires Partitioned(t0.components, t0.stack, t0.indices.Keys)
    requires Partitioned(t.components, t.stack, t.indices.Keys) && Grows(t0, t)
    ensures forall x :: x in Elements(t.stack[|t0.stack|..]) ==> x !in t0.indices
  {
    var c0, more := t0.components, t.components[|t0.components|..];
    var lower, upper := t.stack[..|t0.stack|], t.stack[|t0.stack|..];
    assert t.components == c0 + more;
    assert t.stack == lower + upper;
    FlattenAppend(c0, more);
    var f0, fm := Flatten(c0), Flatten(more);
    assert Flatten(t.components) + t.stack == f0 + (fm + lower) + upper;
    DistinctConcat(f0 + (fm + lower), upper);
    ElementsConcat(f0, fm + lower);
    ElementsConcat(fm, lower);
    ElementsConcat(f0, lower);
  }

  /** No node is twice on the stack. */
  lemma StackDistinct(adj: Adj, t: Tarjan)
    requires Valid(adj, t)
    ensures Distinct(t.stack)
  {
    DistinctConcat(Flatten(t.components), t.stack);
  }

  // ------------------------------------------------------------------
  // The steps of `strongConnect`

  lemma PushFrame(adj: Adj, t: Tarjan, node: Node)
    requires Valid(adj, t) && node in adj && node !in t.indices
    ensures Frame(adj, t, node, Pushed(t, node))
  {
    var t1 := Pushed(t, node);
    PushValid(adj, t, node);
    assert t1.stack[..|t.stack|] == t.stack;
    ReachableRefl(adj, node);
  }

  lemma PushValid(adj: Adj, t: Tarjan, node: Node)
    requires Valid(adj, t) && node in adj && node !in t.indices
    ensures Valid(adj, Pushed(t, node))
  {
    var t1 := Pushed(t, node);
    PushNumbered(adj, t, node);
    PartitionPush(t.components, t.stack, t.indices.Keys, node);
    StackPush(t.stack, t.indices, t.lowlinks, node, t.index);
    NotEmitted(t, node);
    RootedUpdate(adj, t.components, t.indices, t.lowlinks, t1.indices, t1.lowlinks, node);
    ElementsSnoc(t.stack, node);
  }

  lemma PushNumbered(adj: Adj, t: Tarjan, node: Node)
    requires Numbered(adj, t) && node in adj && node !in t.indices
    ensures Numbered(adj, Pushed(t, node))
  {
    var t1 := Pushed(t, node);
    forall x | x in t1.indices
      ensures 0 <= t1.indices[x] < t1.index
    {
      if x != node {
        assert x in t.indices;
      }
    }
  }

  /** An unvisited node is in no emitted component. */
  lemma NotEmitted(t: Tarjan, node: Node)
    requires Partitioned(t.components, t.stack, t.indices.Keys) && node !in t.indices
    ensures node !in Elements(Flatten(t.components))
  {
    ElementsConcat(Flatten(t.components), t.stack);
  }

  lemma ElementsSnoc(s: seq<Node>, x: Node)
    ensures Elements(s + [x]) == Elements(s) + {x}
  {
    ElementsConcat(s, [x]);
    assert Elements([x]) == {x} by {
      assert [x][0] == x;
    }
  }

  /** Lowering `node`'s lowlink to a value no smaller than the index at the
      bottom of the stack. */
  lemma LowerFrame(adj: Adj, t0: Tarjan, node: Node, t: Tarjan, v: int)
    requires Frame(adj, t0, node, t)
    requires t.stack[0] in t.indices && t.indices[t.stack[0]] <= v
    ensures Frame(adj, t0, node, Lowered(t, node, v))
  {
    assert t.stack[|t0.stack|] == node;
    LowerValid(adj, t, node, v);
  }

  lemma LowerValid(adj: Adj, t: Tarjan, node: Node, v: int)
    requires Valid(adj, t) && node in Elements(t.stack)
    requires t.stack[0] in t.indices && t.indices[t.stack[0]] <= v
    ensures Valid(adj, Lowered(t, node, v))
  {
    var m := Min(t.lowlinks[node], v);
    StackLower(t.stack, t.indices, t.lowlinks, node, m);
    OnStackNotEmitted(t.components, t.stack, t.indices.Keys, node);
    RootedUpdate(adj, t.components, t.indices, t.lowlinks, t.indices, t.lowlinks[node := m], node);
  }

  /** A node on the stack is in no emitted component. */
  lemma OnStackNotEmitted(cs: seq<seq<Node>>, stack: seq<Node>, nodes: set<Node>, x: Node)
    requires Partitioned(cs, stack, nodes) && x in Elements(stack)
    ensures x !in Elements(Flatten(cs))
  {
    DistinctConcat(Flatten(cs), stack);
  }

  /** After the recursive call for `node`'s unvisited destination `dest`. */
  lemma ChildFrame(adj: Adj, t0: Tarjan, node: Node, t: Tarjan, j: nat, t2: Tarjan)
    requires Frame(adj, t0, node, t) && node in adj && j < |adj[node]|
    requires adj[node][j].destination !in t.indices
    requires var dest := adj[node][j].destination;
      && Valid(adj, t2) && Grows(t, t2)
      && dest in t2.indices && t2.indices[dest] == t.index
      && (dest !in t2.onStack ==> dest in t2.lowlinks && t2.lowlinks[dest] == t2.indices[dest])
      && forall x {:trigger Reachable(adj, dest, x)} :: x in t2.indices && x !in t.indices ==> Reachable(adj, dest, x)
    ensures Frame(adj, t0, node, t2)
    ensures var dest := adj[node][j].destination;
      && dest in t2.lowlinks && t2.stack[0] in t2.indices
      && t2.indices[t2.stack[0]] <= t2.lowlinks[dest]
  {
    var dest := adj[node][j].destination;
    assert t2.stack[..|t.stack|] == t.stack;
    assert t2.stack[|t0.stack|] == node && t2.stack[0] == t.stack[0];
    assert t.stack[0] in t.indices;
    if dest in t2.onStack {
      var i :| 0 <= i < |t2.stack| && t2.stack[i] == dest;
    }
    GrowsTrans(t0, t, t2);
    forall x | x in t2.indices && x !in t0.indices
      ensures Reachable(adj, node, x)
    {
      if x !in t.indices {
        assert Reachable(adj, dest, x);
        ReachableStep(adj, node, dest, x);
      }
    }
  }

  /** A destination still on the stack has an index no smaller than the one
      at the bottom of the stack. */
  lemma BackEdgeBound(adj: Adj, t0: Tarjan, node: Node, t: Tarjan, dest: Node)
    requires Frame(adj, t0, node, t) && dest in t.onStack
    ensures dest in t.indices && t.stack[0] in t.indices && t.indices[t.stack[0]] <= t.indices[dest]
  {
    var i :| 0 <= i < |t.stack| && t.stack[i] == dest;
  }

  /** The search from the bottom of the stack always closes a component. */
  lemma BottomIsRoot(adj: Adj, t0: Tarjan, node: Node, t: Tarjan)
    requires Frame(adj, t0, node, t)
    ensures t0.stack == [] ==> t.lowlinks[node] == t.indices[node]
  {
    if t0.stack == [] {
      assert t.stack[0] == node;
    }
  }

  /** After popping `node`'s component off the stack. */
  lemma EmitFrame(adj: Adj, t0: Tarjan, node: Node, t: Tarjan, t': Tarjan)
    requires Frame(adj, t0, node, t) && t.lowlinks[node] == t.indices[node]
    requires var p := |t0.stack|;
      t' == t.(stack := t.stack[..p], onStack := t.onStack - Elements(t.stack[p..]),
               components := t.components + [Reverse(t.stack[p..])])
    ensures Valid(adj, t') && Grows(t0, t') && t'.stack == t0.stack
    ensures node !in t'.onStack && node in t'.lowlinks && t'.lowlinks[node] == t'.indices[node]
  {
    var p := |t0.stack|;
    var lower, upper := t.stack[..p], t.stack[p..];
    assert t.stack == lower + upper && lower == t0.stack;
    ComponentReachable(adj, t0, node, t);
    EmitValid(adj, t, lower, upper, t');
    EmitGrows(t0, t, t');
    assert node in Elements(upper) by {
      assert upper[0] == node;
    }
  }

  /** Popping back down to the stack a search started on, and appending a
      component, still extends the state the search started in. */
  lemma EmitGrows(t0: Tarjan, t: Tarjan, t': Tarjan)
    requires Grows(t0, t)
    requires var p := |t0.stack|;
      t' == t.(stack := t.stack[..p], onStack := t.onStack - Elements(t.stack[p..]),
               components := t.components + [Reverse(t.stack[p..])])
    ensures Grows(t0, t') && t'.stack == t0.stack
  {
    assert t'.components[..|t.components|] == t.components;
    assert t'.components[..|t0.components|] == t.components[..|t0.components|];
  }

  /** The nodes above `node` on the stack at the end of its scan are
      reachable from it, and `node` is the last of them to be popped. */
  lemma ComponentReachable(adj: Adj, t0: Tarjan, node: Node, t: Tarjan)
    requires Partitioned(t0.components, t0.stack, t0.indices.Keys)
    requires Partitioned(t.components, t.stack, t.indices.Keys) && Grows(t0, t)
    requires |t0.stack| < |t.stack| && t.stack[|t0.stack|] == node
    requires forall x {:trigger Reachable(adj, node, x)} :: x in t.indices && x !in t0.indices ==> Reachable(adj, node, x)
    ensures var comp := Reverse(t.stack[|t0.stack|..]);
      && comp != [] && Last(comp) == node
      && forall i :: 0 <= i < |comp| ==> Reachable(adj, Last(comp), comp[i])
  {
    var upper := t.stack[|t0.stack|..];
    var comp := Reverse(upper);
    PoppedAreFresh(t0, t);
    ElementsConcat(Flatten(t.components), t.stack);
    assert t.stack == t.stack[..|t0.stack|] + upper;
    ElementsConcat(t.stack[..|t0.stack|], upper);
    assert Last(comp) == node;
    forall i | 0 <= i < |comp|
      ensures Reachable(adj, node, comp[i])
    {
      assert comp[i] == upper[|upper| - 1 - i];
      assert comp[i] in Elements(upper);
    }
  }

  /** Moving the top part `upper` of the stack into a component rooted at its
      first node keeps the invariant. */
  lemma EmitValid(adj: Adj, t: Tarjan, lower: seq<Node>, upper: seq<Node>, t': Tarjan)
    requires Valid(adj, t) && t.stack == lower + upper && upper != []
    requires upper[0] in t.lowlinks && upper[0] in t.indices && t.lowlinks[upper[0]] == t.indices[upper[0]]
    requires forall i :: 0 <= i < |upper| ==> Reachable(adj, upper[0], Reverse(upper)[i])
    requires t' == t.(stack := lower, onStack := t.onStack - Elements(upper),
                      components := t.components + [Reverse(upper)])
    ensures Valid(adj, t')
  {
    var comp := Reverse(upper);
    PartitionPop(t.components, lower, upper, t.indices.Keys);
    StackSplit(lower, upper);
    assert t.stack[..|lower|] == lower;
    StackPrefix(t.stack, t.indices, t.lowlinks, |lower|);
    assert t.stack[|lower|] == upper[0];
    assert Last(comp) == upper[0];
    RootedEmit(adj, t.components, t.indices, t.lowlinks, comp);
  }

  /** Taking the nodes of `upper` off a stack without repetitions leaves the
      nodes of `lower`. */
  lemma StackSplit(lower: seq<Node>, upper: seq<Node>)
    requires Distinct(lower + upper)
    ensures Elements(lower + upper) - Elements(upper) == Elements(lower)
  {
    DistinctConcat(lower, upper);
    ElementsConcat(lower, upper);
  }

  /** The pop loop of `strongConnect`: pop nodes off `stack0` until `node`,
      which sits at position `p`, has been popped; the popped nodes form the
      component, in popping order. */
  method PopComponent(stack0: seq<Node>, p: nat, onStack0: set<Node>, node: Node)
      returns (stack: seq<Node>, onStack: set<Node>, component: seq<Node>)
    requires p < |stack0| && stack0[p] == node && Distinct(stack0)
    ensures stack == stack0[..p]
    ensures component == Reverse(stack0[p..])
    ensures onStack == onStack0 - Elements(stack0[p..])
  {
    stack, onStack, component := stack0, onStack0, [];
    var done := false;
    while !done
      invariant p <= |stack| <= |stack0| && stack == stack0[..|stack|]
      invariant component == Reverse(stack0[|stack|..])
      invariant onStack == onStack0 - Elements(stack0[|stack|..])
      invariant done <==> |stack| == p
      decreases |stack|
    {
      var n := |stack| - 1;
      var w := stack[n];
      assert stack0[n..] == [w] + stack0[n + 1..];
      ElementsConcat([w], stack0[n + 1..]);
      assert Elements([w]) == {w} by {
        assert [w][0] == w;
      }
      stack := stack[..n];
      onStack := onStack - {w};
      component := component + [w];
      done := w == node;
    }
  }

  /** `strongConnect(node)`: number `node`, push it, scan its edges, and, if
      `node` turns out to be a root, pop its component off the stack and emit
      it. The nodes it visits are reachable from `node`, and a search started
      on an empty stack leaves the stack empty. */
  method StrongConnect(adj: Adj, node: Node, t: Tarjan) returns (t': Tarjan)
    requires WellFormed(adj) && Valid(adj, t) && node in adj && node !in t.indices
    ensures Valid(adj, t') && Grows(t, t')
    ensures node in t'.indices && t'.indices[node] == t.index
    ensures node !in t'.onStack ==> node in t'.lowlinks && t'.lowlinks[node] == t'.indices[node]
    ensures t.stack == [] ==> t'.stack == []
    ensures forall x {:trigger Reachable(adj, node, x)} :: x in t'.indices && x !in t.indices ==> Reachable(adj, node, x)
    decreases |adj.Keys - t.indices.Keys|, 0
  {
    t' := Pushed(t, node);
    PushFrame(adj, t, node);
    for j := 0 to |adj[node]|
      invariant Frame(adj, t, node, t')
    {
      Shrinks(adj.Keys, t.indices.Keys, t.indices.Keys, node);
      NoMore(adj.Keys, t.indices.Keys + {node}, t'.indices.Keys);
      t' := ScanEdge(adj, t, node, t', j);
    }
    t' := CloseComponent(adj, t, node, t');
  }

  /** The end of `strongConnect(node)`: if `node` is a root, pop its
      component off the stack and emit it. */
  method CloseComponent(adj: Adj, t0: Tarjan, node: Node, t: Tarjan) returns (t': Tarjan)
    requires Frame(adj, t0, node, t)
    ensures Valid(adj, t') && Grows(t0, t')
    ensures node in t'.indices && t'.indices[node] == t0.index
    ensures node !in t'.onStack ==> node in t'.lowlinks && t'.lowlinks[node] == t'.indices[node]
    ensures t0.stack == [] ==> t'.stack == []
    ensures forall x {:trigger Reachable(adj, node, x)} :: x in t'.indices && x !in t0.indices ==> Reachable(adj, node, x)
  {
    BottomIsRoot(adj, t0, node, t);
    if t.lowlinks[node] == t.indices[node] {
      StackDistinct(adj, t);
      var stack, onStack, component := PopComponent(t.stack, |t0.stack|, t.onStack, node);
      t' := t.(stack := stack, onStack := onStack, components := t.components + [component]);
      EmitFrame(adj, t0, node, t, t');
    } else {
      assert t.stack[|t0.stack|] == node;
      t' := t;
    }
  }

  /** One turn of `strongConnect`'s edge loop: search an unvisited
      destination and fold its lowlink into `node`'s, or fold in the index of
      a destination still on the stack. */
  method ScanEdge(adj: Adj, t0: Tarjan, node: Node, t: Tarjan, j: nat) returns (t': Tarjan)
    requires WellFormed(adj) && node in adj && j < |adj[node]| && Frame(adj, t0, node, t)
    ensures Frame(adj, t0, node, t')
    decreases |adj.Keys - t.indices.Keys|, 1
  {
    var dest := adj[node][j].destination;
    if dest !in t.indices {
      var t2 := StrongConnect(adj, dest, t);
      ChildFrame(adj, t0, node, t, j, t2);
      LowerFrame(adj, t0, node, t2, t2.lowlinks[dest]);
      t' := Lowered(t2, node, t2.lowlinks[dest]);
    } else if dest in t.onStack {
      BackEdgeBound(adj, t0, node, t, dest);
      LowerFrame(adj, t0, node, t, t.indices[dest]);
      t' := Lowered(t, node, t.indices[dest]);
    } else {
      t' := t;
    }
  }

  /** The state `connectedComponents` starts from. */
  lemma StartValid(adj: Adj)
    ensures Valid(adj, Tarjan(0, map[], map[], [], {}, []))
  {
    assert Flatten([]) + [] == [];
  }

  /** The loop of `connectedComponents`: start a search from every node, in
      the store's iteration order `order`, that no earlier search reached.
      Every node ends up visited, the stack ends up empty, and every emitted
      component ends with a root: a node whose lowlink equals its index. */
  method StrongComponents(adj: Adj, order: seq<Node>) returns (t: Tarjan)
    requires WellFormed(adj) && IsEnumeration(order, adj.Keys)
    ensures Valid(adj, t) && t.indices.Keys == adj.Keys
    ensures t.stack == [] && t.onStack == {}
    ensures forall k :: 0 <= k < |t.components| ==>
      t.lowlinks[Last(t.components[k])] == t.indices[Last(t.components[k])]
  {
    t := Tarjan(0, map[], map[], [], {}, []);
    StartValid(adj);
    for i := 0 to |order|
      invariant Valid(adj, t) && t.stack == []
      invariant forall k :: 0 <= k < i ==> order[k] in t.indices
    {
      t := Visit(adj, order[i], t);
    }
    AllVisited(order, adj.Keys, t.indices.Keys);
  }

  /** One turn of `connectedComponents`' loop: search from `node` unless an
      earlier search reached it. */
  method Visit(adj: Adj, node: Node, t: Tarjan) returns (t': Tarjan)
    requires WellFormed(adj) && Valid(adj, t) && t.stack == [] && node in adj
    ensures Valid(adj, t') && t'.stack == []
    ensures node in t'.indices && forall x :: x in t.indices ==> x in t'.indices
  {
    if node !in t.indices {
      t' := StrongConnect(adj, node, t);
    } else {
      t' := t;
    }
  }

  /** A set of nodes of the graph that holds every node of an enumeration of
      the graph's nodes is all of them. */
  lemma AllVisited(order: seq<Node>, nodes: set<Node>, visited: set<Node>)
    requires IsEnumeration(order, nodes) && visited <= nodes
    requires forall k :: 0 <= k < |order| ==> order[k] in visited
    ensures visited == nodes
  {
  }

  /** `cs` partitions `nodes`: its lists are non-empty and every node occurs
      in exactly one list, exactly once. */
  ghost predicate Partition(cs: seq<seq<Node>>, nodes: set<Node>) {
    && (forall k :: 0 <= k < |cs| ==> cs[k] != [])
    && Distinct(Flatten(cs))
    && Elements(Flatten(cs)) == nodes
  }

  /** `connectedComponents`: directed graphs only. The components partition
      the nodes, and every node of a component is reachable from the root the
      component ends with. */
  method ConnectedComponents(directed: bool, adj: Adj, order: seq<Node>) returns (r: Result<seq<seq<Node>>>)
    requires WellFormed(adj) && IsEnumeration(order, adj.Keys)
    ensures r.Err? <==> !directed
    ensures r.Err? ==> r.failure == DirectedOnly
    ensures r.Ok? ==> Partition(r.value, adj.Keys)
    ensures r.Ok? ==> forall k, i :: 0 <= k < |r.value| && 0 <= i < |r.value[k]| ==>
      Reachable(adj, Last(r.value[k]), r.value[k][i])
  {
    if directed {
      var t := StrongComponents(adj, order);
      assert Flatten(t.components) + [] == Flatten(t.components);
      r := Ok(t.components);
    } else {
      r := Err(DirectedOnly);
    }
  }
}
