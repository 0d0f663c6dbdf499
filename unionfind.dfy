/** The disjoint-set helper of Kruskal's algorithm: `find` with path
    compression and `unionByRank`, over `parent` and `rank` maps that the
    caller owns and that both operations update (they are passed by
    reference in the source; here they go in as arguments and come back as
    results). */
module UnionFind {
  import opened Edges

  type Parents = map<Node, Node>
  type Ranks = map<Node, int>

  /** The parent pointers stay inside the domain and climb strictly in
      `rank`. This is the invariant union by rank keeps, and it is what makes
      `find` terminate: a `rank` meeting it witnesses that the parent links have
      no cycle other than a root's pointer to itself. */
  ghost predicate Ranked(parent: Parents, rank: Ranks) {
    && parent.Keys <= rank.Keys
    && forall x {:trigger Up(parent, x)} :: x in parent ==>
         Up(parent, x) in parent && (Up(parent, x) != x ==> rank[x] < rank[Up(parent, x)])
  }

  /** `parent[x]`. The quantifier of `Ranked` is triggered by this function
      rather than by the map lookup, so that it is not instantiated again for
      every pointer it proves to be in the domain. */
  function Up(parent: Parents, x: Node): Node
    requires x in parent
  {
    parent[x]
  }

  /** The nodes ranked strictly above `x`; it shrinks along parent pointers. */
  ghost function Above(rank: Ranks, x: Node): set<Node>
    requires x in rank
  {
    set y | y in rank && rank[y] > rank[x]
  }

  lemma AboveShrinks(rank: Ranks, x: Node, p: Node)
    requires x in rank && p in rank && rank[x] < rank[p]
    ensures Above(rank, p) < Above(rank, x)
  {
    assert p in Above(rank, x) && p !in Above(rank, p);
  }

  /** The representative of `x`'s set: the root its parent pointers lead to. */
  ghost function Root(parent: Parents, rank: Ranks, x: Node): (r: Node)
    requires Ranked(parent, rank) && x in parent
    ensures r in parent && parent[r] == r
    ensures x != r ==> rank[x] < rank[r]
    decreases Above(rank, x)
  {
    if Up(parent, x) == x then x
    else
      AboveShrinks(rank, x, parent[x]);
      Root(parent, rank, Up(parent, x))
  }

  /** The roots: one per set. */
  ghost function Roots(parent: Parents): set<Node> {
    set x | x in parent && parent[x] == x
  }

  /** The root does not depend on which ranking witnesses termination. */
  lemma {:induction false} RootWitnessIrrelevant(parent: Parents, r1: Ranks, r2: Ranks, x: Node)
    requires Ranked(parent, r1) && Ranked(parent, r2) && x in parent
    ensures Root(parent, r1, x) == Root(parent, r2, x)
    decreases Above(r1, x)
  {
    if Up(parent, x) != x {
      AboveShrinks(r1, x, parent[x]);
      RootWitnessIrrelevant(parent, r1, r2, Up(parent, x));
    }
  }

  /** Pointing `x` straight at its root changes no node's root. */
  lemma {:induction false} CompressKeepsRoots(parent: Parents, rank: Ranks, x: Node, y: Node)
    requires Ranked(parent, rank) && x in parent && y in parent
    ensures Ranked(parent[x := Root(parent, rank, x)], rank)
    ensures Root(parent[x := Root(parent, rank, x)], rank, y) == Root(parent, rank, y)
    decreases Above(rank, y)
  {
    var q := parent[x := Root(parent, rank, x)];
    assert forall z :: z in q ==> Up(q, z) == if z == x then Root(parent, rank, x) else Up(parent, z);
    assert Ranked(q, rank);
    if y != x && Up(parent, y) != y {
      AboveShrinks(rank, y, parent[y]);
      CompressKeepsRoots(parent, rank, x, Up(parent, y));
      assert Up(q, y) == Up(parent, y);
    }
  }

  /** Hanging root `a` under root `b` of higher rank moves exactly the members
      of `a`'s set into `b`'s set. */
  lemma {:induction false} LinkMovesOneSet(parent: Parents, rank: Ranks, a: Node, b: Node, y: Node)
    requires Ranked(parent, rank) && a in parent && b in parent && y in parent
    requires parent[a] == a && parent[b] == b && rank[a] < rank[b]
    ensures Ranked(parent[a := b], rank)
    ensures Root(parent[a := b], rank, y) ==
            if Root(parent, rank, y) == a then b else Root(parent, rank, y)
    decreases Above(rank, y)
  {
    var q := parent[a := b];
    assert forall z :: z in q ==> Up(q, z) == if z == a then b else Up(parent, z);
    assert Ranked(q, rank);
    if y != a && Up(parent, y) != y {
      AboveShrinks(rank, y, parent[y]);
      LinkMovesOneSet(parent, rank, a, b, Up(parent, y));
      assert Up(q, y) == Up(parent, y);
    }
  }

  /** Two parent maps that give every node the same root have the same roots. */
  lemma SameRootsSameRootSet(p1: Parents, p2: Parents, rank: Ranks)
    requires Ranked(p1, rank) && Ranked(p2, rank) && p1.Keys == p2.Keys
    requires forall y {:trigger Root(p1, rank, y)} :: y in p1 ==> Root(p2, rank, y) == Root(p1, rank, y)
    ensures Roots(p2) == Roots(p1)
  {
    forall y | y in p1
      ensures p1[y] == y <==> p2[y] == y
    {
      assert Root(p2, rank, y) == Root(p1, rank, y);
      assert Up(p1, y) == p1[y] && Up(p2, y) == p2[y];
    }
  }

  /** Redirecting a root's pointer elsewhere removes exactly that root. */
  lemma RedirectRoot(parent: Parents, a: Node, b: Node)
    requires a in parent && a != b
    ensures Roots(parent[a := b]) == Roots(parent) - {a}
  {
  }

  /** Hanging root `a` under root `b` of higher rank merges `a`'s set into
      `b`'s and removes one root. */
  lemma HangUnder(parent: Parents, rank: Ranks, a: Node, b: Node)
    requires Ranked(parent, rank) && a in parent && b in parent
    requires parent[a] == a && parent[b] == b && rank[a] < rank[b]
    ensures Ranked(parent[a := b], rank)
    ensures forall z {:trigger Root(parent[a := b], rank, z)} :: z in parent ==>
      Root(parent[a := b], rank, z) == if Root(parent, rank, z) == a then b else Root(parent, rank, z)
    ensures Roots(parent[a := b]) == Roots(parent) - {a}
  {
    RedirectRoot(parent, a, b);
    LinkMovesOneSet(parent, rank, a, b, a);
    forall z {:trigger Root(parent[a := b], rank, z)} | z in parent
      ensures Root(parent[a := b], rank, z) == if Root(parent, rank, z) == a then b else Root(parent, rank, z)
    {
      LinkMovesOneSet(parent, rank, a, b, z);
    }
  }

  /** `RootWitnessIrrelevant` for every node at once. */
  lemma RootsWitnessIrrelevant(parent: Parents, r1: Ranks, r2: Ranks)
    requires Ranked(parent, r1) && Ranked(parent, r2)
    ensures forall z {:trigger Root(parent, r2, z)} :: z in parent ==> Root(parent, r2, z) == Root(parent, r1, z)
  {
    forall z {:trigger Root(parent, r2, z)} | z in parent
      ensures Root(parent, r2, z) == Root(parent, r1, z)
    {
      RootWitnessIrrelevant(parent, r1, r2, z);
    }
  }

  /** `q` is `parent` after path compression: the same nodes, still ranked,
      every node with its old root, and every pointer either kept or aimed
      straight at its node's root. */
  ghost predicate Compressed(parent: Parents, q: Parents, rank: Ranks)
    requires Ranked(parent, rank)
  {
    && q.Keys == parent.Keys && Ranked(q, rank)
    && (forall y {:trigger Root(q, rank, y)} :: y in parent ==> Root(q, rank, y) == Root(parent, rank, y))
    && (forall y {:trigger Up(q, y)} :: y in parent ==> Up(q, y) == parent[y] || Up(q, y) == Root(parent, rank, y))
  }

  /** Compressing twice is compressing, and keeps the roots. */
  lemma CompressedTrans(a: Parents, b: Parents, c: Parents, rank: Ranks)
    requires Ranked(a, rank) && Compressed(a, b, rank) && Compressed(b, c, rank)
    ensures Compressed(a, c, rank) && Roots(c) == Roots(a)
  {
    forall z {:trigger Root(c, rank, z)} | z in a
      ensures Root(c, rank, z) == Root(a, rank, z)
    {
      assert Root(c, rank, z) == Root(b, rank, z);
    }
    forall z {:trigger Up(c, z)} | z in a
      ensures Up(c, z) == a[z] || Up(c, z) == Root(a, rank, z)
    {
      assert Up(b, z) == a[z] || Up(b, z) == Root(a, rank, z);
      assert Up(c, z) == b[z] || Up(c, z) == Root(b, rank, z);
      assert Root(b, rank, z) == Root(a, rank, z);
    }
    SameRootsSameRootSet(a, c, rank);
  }

  /** `find`: returns the root of `x` and rewrites `parent[x]` to it,
      recursively along the way (path compression). No node's root changes,
      and a pointer is only ever rewritten to its node's root. */
  method Find(x: Node, parent: Parents, ghost rank: Ranks) returns (r: Node, parent': Parents)
    requires Ranked(parent, rank) && x in parent
    ensures r == Root(parent, rank, x)
    ensures Compressed(parent, parent', rank)
    ensures parent'[x] == r
    decreases Above(rank, x)
  {
    if parent[x] != x {
      assert Up(parent, x) in parent;
      AboveShrinks(rank, x, parent[x]);
      var root, p := Find(parent[x], parent, rank);
      assert Up(p, x) == parent[x] || Up(p, x) == Root(parent, rank, x);
      assert Root(p, rank, x) == root by {
        assert Root(p, rank, Up(p, x)) == Root(parent, rank, Up(p, x));
      }
      CompressKeepsRoots(p, rank, x, x);
      parent' := p[x := root];
      forall y {:trigger Root(parent', rank, y)} | y in p
        ensures Root(parent', rank, y) == Root(parent, rank, y)
      {
        CompressKeepsRoots(p, rank, x, y);
        assert Root(p, rank, y) == Root(parent, rank, y);
      }
      forall y {:trigger Up(parent', y)} | y in parent
        ensures Up(parent', y) == parent[y] || Up(parent', y) == Root(parent, rank, y)
      {
        if y != x {
          assert Up(parent', y) == Up(p, y);
        }
      }
    } else {
      parent' := parent;
    }
    r := parent'[x];
  }

  /** `(p2, r2)` is `(p, r)` with the sets of `x` and `y` merged into one,
      named by one of their two old roots, and every other set kept. */
  ghost predicate Merged(p: Parents, r: Ranks, p2: Parents, r2: Ranks, x: Node, y: Node)
    requires Ranked(p, r) && Ranked(p2, r2) && p2.Keys == p.Keys && x in p && y in p
  {
    && Root(p2, r2, x) == Root(p2, r2, y)
    && (Root(p2, r2, x) == Root(p, r, x) || Root(p2, r2, x) == Root(p, r, y))
    && forall z {:trigger Root(p2, r2, z)} :: z in p ==>
         Root(p2, r2, z) ==
           if Root(p, r, z) == Root(p, r, x) || Root(p, r, z) == Root(p, r, y)
           then Root(p2, r2, x) else Root(p, r, z)
  }

  /** The linking half of `unionByRank`, on two roots: nothing when they
      coincide; otherwise the root of lower rank is hung under the other, and
      on a tie `ry` goes under `rx`, whose rank grows by one. */
  method Unite(rx: Node, ry: Node, rank: Ranks, parent: Parents) returns (rank': Ranks, parent': Parents)
    requires Ranked(parent, rank) && parent.Keys == rank.Keys && rx in Roots(parent) && ry in Roots(parent)
    ensures Ranked(parent', rank') && parent'.Keys == parent.Keys && rank'.Keys == rank.Keys
    ensures Merged(parent, rank, parent', rank', rx, ry)
    ensures rx == ry ==> rank' == rank && parent' == parent
    ensures rx != ry ==>
      && (rank[rx] < rank[ry] ==> Root(parent', rank', rx) == ry && rank' == rank)
      && (rank[rx] > rank[ry] ==> Root(parent', rank', rx) == rx && rank' == rank)
      && (rank[rx] == rank[ry] ==> Root(parent', rank', rx) == rx && rank' == rank[rx := rank[rx] + 1])
    ensures forall z {:trigger Up(parent', z)} :: z in parent && z != rx && z != ry ==> Up(parent', z) == parent[z]
    ensures |Roots(parent')| == if rx == ry then |Roots(parent)| else |Roots(parent)| - 1
  {
    if rx == ry {
      return rank, parent;
    }
    if rank[rx] < rank[ry] {
      HangUnder(parent, rank, rx, ry);
      parent', rank' := parent[rx := ry], rank;
    } else {
      rank' := if rank[rx] > rank[ry] then rank else rank[rx := rank[rx] + 1];
      assert Ranked(parent, rank');
      RootsWitnessIrrelevant(parent, rank, rank');
      HangUnder(parent, rank', ry, rx);
      parent' := parent[ry := rx];
    }
    forall z {:trigger Up(parent', z)} | z in parent && z != rx && z != ry
      ensures Up(parent', z) == parent[z]
    {
      assert Up(parent', z) == Up(parent, z);
    }
  }

  /** `unionByRank`: merges the sets of `x` and `y`. Both are first resolved
      with `find` (compressing their paths), then their roots are linked by
      rank as `Unite` describes. */
  method UnionByRank(x: Node, y: Node, rank: Ranks, parent: Parents) returns (rank': Ranks, parent': Parents)
    requires Ranked(parent, rank) && parent.Keys == rank.Keys && x in parent && y in parent
    ensures Ranked(parent', rank') && parent'.Keys == parent.Keys && rank'.Keys == rank.Keys
    // exactly the sets of x and y are merged, under one of their two roots
    ensures Merged(parent, rank, parent', rank', x, y)
    // with one root: nothing but path compression
    ensures Root(parent, rank, x) == Root(parent, rank, y) ==> rank' == rank
    // a root is hung under the root of higher rank; a rank grows only on a tie, by one
    ensures var rx, ry := Root(parent, rank, x), Root(parent, rank, y);
      rx != ry ==>
        && (rank[rx] < rank[ry] ==> Root(parent', rank', x) == ry && rank' == rank)
        && (rank[rx] > rank[ry] ==> Root(parent', rank', x) == rx && rank' == rank)
        && (rank[rx] == rank[ry] ==> Root(parent', rank', x) == rx && rank' == rank[rx := rank[rx] + 1])
    // apart from path compression, only a root's pointer is rewritten
    ensures forall z {:trigger Up(parent', z)} :: z in parent && z != Root(parent, rank, x) && z != Root(parent, rank, y) ==>
      Up(parent', z) == parent[z] || Up(parent', z) == Root(parent, rank, z)
    // the number of sets drops by one exactly when two sets were merged
    ensures |Roots(parent')| == if Root(parent, rank, x) == Root(parent, rank, y) then |Roots(parent)| else |Roots(parent)| - 1
  {
    var rootX, p1 := Find(x, parent, rank);
    var rootY, p2 := Find(y, p1, rank);
    assert rootY == Root(parent, rank, y) by {
      assert Root(p1, rank, y) == Root(parent, rank, y);
    }
    CompressedTrans(parent, p1, p2, rank);
    rank', parent' := Unite(rootX, rootY, rank, p2);
    forall z {:trigger Up(parent', z)} | z in parent && z != rootX && z != rootY
      ensures Up(parent', z) == parent[z] || Up(parent', z) == Root(parent, rank, z)
    {
      assert Up(p2, z) == parent[z] || Up(p2, z) == Root(parent, rank, z);
    }
    MergedByRoots(p2, rank, parent', rank', x, y, rootX, rootY);
    CompressedMerged(parent, p2, rank, parent', rank', x, y);
  }

  /** Merging the sets of two roots is merging the sets of any two of their
      members. */
  lemma MergedByRoots(p: Parents, r: Ranks, p2: Parents, r2: Ranks, x: Node, y: Node, rx: Node, ry: Node)
    requires Ranked(p, r) && Ranked(p2, r2) && p2.Keys == p.Keys && x in p && y in p
    requires rx == Root(p, r, x) && ry == Root(p, r, y)
    requires Merged(p, r, p2, r2, rx, ry)
    ensures Merged(p, r, p2, r2, x, y)
  {
    assert Root(p, r, rx) == rx && Root(p, r, ry) == ry;
    assert Root(p2, r2, x) == Root(p2, r2, rx);
    assert Root(p2, r2, y) == Root(p2, r2, ry);
  }

  /** A merge after path compression is a merge of the sets before it. */
  lemma CompressedMerged(parent: Parents, q: Parents, rank: Ranks, p2: Parents, r2: Ranks, x: Node, y: Node)
    requires Ranked(parent, rank) && Compressed(parent, q, rank)
    requires Ranked(p2, r2) && p2.Keys == parent.Keys && x in parent && y in parent
    requires Merged(q, rank, p2, r2, x, y)
    ensures Merged(parent, rank, p2, r2, x, y)
  {
    assert Root(q, rank, x) == Root(parent, rank, x) && Root(q, rank, y) == Root(parent, rank, y);
    forall z {:trigger Root(p2, r2, z)} | z in parent
      ensures Root(p2, r2, z) ==
        if Root(parent, rank, z) == Root(parent, rank, x) || Root(parent, rank, z) == Root(parent, rank, y)
        then Root(p2, r2, x) else Root(parent, rank, z)
    {
      assert Root(q, rank, z) == Root(parent, rank, z);
    }
  }
}
