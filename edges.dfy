/** Values shared by every part of the graph library: node identities,
    weighted edges, the two orders the algorithms use, and the failures the
    library reports. */
module Edges {

  /** Node identities. The library is generic in its node type; the binding
      layer instantiates it with strings, so a node is a string here. */
  type Node = string

  /** An edge `source -> destination` carrying an integer weight. The three
      getters of the source are the datatype's destructors, and datatype
      equality compares all three fields, exactly as `Edge::operator==` does. */
  datatype Edge = Edge(source: Node, destination: Node, weight: int)

  /** `Edge::operator<`: edges are compared by weight alone. */
  predicate WeightLess(a: Edge, b: Edge) {
    a.weight < b.weight
  }

  /** The free `operator>` on edges, written in terms of the weights. */
  predicate WeightGreater(a: Edge, b: Edge) {
    b.weight < a.weight
  }

  /** `operator>` is `operator<` with its arguments swapped. */
  lemma GreaterIsConverseOfLess(a: Edge, b: Edge)
    ensures WeightGreater(a, b) <==> WeightLess(b, a)
  {
  }

  /** `operator<` is a strict weak order: irreflexive, transitive, and two
      edges are unordered exactly when their weights are equal. */
  lemma WeightLessIsStrictWeakOrder(a: Edge, b: Edge, c: Edge)
    ensures !WeightLess(a, a)
    ensures WeightLess(a, b) && WeightLess(b, c) ==> WeightLess(a, c)
    ensures !WeightLess(a, b) && !WeightLess(b, a) <==> a.weight == b.weight
  {
  }

  /** `operator<` is not `operator==`: different edges of equal weight are
      unordered, so a sort may leave them in either order. */
  lemma WeightLessIsNotTotal()
    ensures var a, b := Edge("A", "B", 1), Edge("B", "C", 1);
            a != b && !WeightLess(a, b) && !WeightLess(b, a)
  {
  }

  /** `std::string::operator<`: lexicographic order on characters, a proper
      prefix coming first. */
  predicate NodeLess(a: Node, b: Node)
    decreases |a|
  {
    if |a| == 0 then |b| > 0
    else if |b| == 0 then false
    else if a[0] != b[0] then a[0] < b[0]
    else NodeLess(a[1..], b[1..])
  }

  lemma {:induction false} NodeLessIrreflexive(a: Node)
    ensures !NodeLess(a, a)
    decreases |a|
  {
    if |a| > 0 {
      NodeLessIrreflexive(a[1..]);
    }
  }

  lemma {:induction false} NodeLessAsymmetric(a: Node, b: Node)
    ensures NodeLess(a, b) ==> !NodeLess(b, a)
    decreases |a|
  {
    if |a| > 0 && |b| > 0 && a[0] == b[0] {
      NodeLessAsymmetric(a[1..], b[1..]);
    }
  }

  lemma {:induction false} NodeLessTransitive(a: Node, b: Node, c: Node)
    requires NodeLess(a, b) && NodeLess(b, c)
    ensures NodeLess(a, c)
    decreases |a|
  {
    if |a| > 0 && a[0] == b[0] && b[0] == c[0] {
      NodeLessTransitive(a[1..], b[1..], c[1..]);
    }
  }

  /** Two different strings are always ordered one way or the other. */
  lemma {:induction false} NodeLessTotal(a: Node, b: Node)
    requires a != b
    ensures NodeLess(a, b) || NodeLess(b, a)
    decreases |a|
  {
    if |a| > 0 && |b| > 0 && a[0] == b[0] {
      assert a == [a[0]] + a[1..] && b == [b[0]] + b[1..];
      NodeLessTotal(a[1..], b[1..]);
    }
  }

  /** The exceptions the library throws: `std::invalid_argument` and
      `std::logic_error`, each with its message. */
  datatype Failure = InvalidArgument(what: string) | LogicError(what: string)

  /** Thrown by `addEdge` when an endpoint was never added. */
  const NodeNotFound: Failure := InvalidArgument("Source or destination node not found")
  /** Thrown by `primMST` on a graph without nodes. */
  const GraphIsEmpty: Failure := InvalidArgument("Graph is empty")
  /** Thrown by `connectedComponents` on an undirected graph. */
  const DirectedOnly: Failure := LogicError("This method is for directed graphs only")

  /** The outcome of an operation that returns a value or throws. */
  datatype Result<T> = Ok(value: T) | Err(failure: Failure)

  /** The outcome of an operation that returns nothing or throws. */
  datatype Outcome = Pass | Fail(failure: Failure)
}
