/** The dataflow graph that the partitioner and the memory planner read.
    Nodes and tensors are numbered from zero; a graph lists its nodes in execution order. */
module GraphInfo {

  /** Stands for an absent tensor where a list of tensors allows one. */
  const OPTIONAL_TENSOR := -1

  datatype Node = Node(inputs: seq<int>, outputs: seq<int>, temporaries: seq<int>)

  datatype Graph = Graph(
    numTensors: nat,
    nodes: seq<Node>,
    inputs: seq<int>,
    outputs: seq<int>,
    variables: seq<int>)

  predicate IsTensor(g: Graph, t: int) {
    0 <= t < g.numTensors
  }

  predicate IsNode(g: Graph, n: int) {
    0 <= n < |g.nodes|
  }

  predicate Produces(g: Graph, n: int, t: int) {
    IsNode(g, n) && t in g.nodes[n].outputs
  }

  predicate Consumes(g: Graph, n: int, t: int) {
    IsNode(g, n) && t in g.nodes[n].inputs
  }

  ghost predicate Produced(g: Graph, t: int) {
    exists n :: Produces(g, n, t)
  }

  /** No tensor is the output of two nodes. */
  ghost predicate SingleProducer(g: Graph) {
    forall m, n, t :: Produces(g, m, t) && Produces(g, n, t) ==> m == n
  }

  /** Some node in the list produces the tensor. */
  predicate ProducedIn(g: Graph, ns: seq<int>, t: int) {
    exists n :: n in ns && Produces(g, n, t)
  }

  /** Node n can run once the nodes of `done` have run: each of its inputs is either produced by none of the
      graph's nodes, or by one of those. */
  ghost predicate Runnable(g: Graph, done: seq<int>, n: int) {
    forall t :: Consumes(g, n, t) && Produced(g, t) ==> ProducedIn(g, done, t)
  }

  ghost predicate NoDuplicates<T>(s: seq<T>) {
    forall i, j :: 0 <= i < j < |s| ==> s[i] != s[j]
  }

  /** A list of nodes that can run one after the other from its start. */
  ghost predicate DependencyOrdered(g: Graph, order: seq<int>) {
    forall i :: 0 <= i < |order| ==> IsNode(g, order[i]) && Runnable(g, order[..i], order[i])
  }

  /** Every node of the graph exactly once, in an order in which the nodes can run. */
  ghost predicate TopologicalOrder(g: Graph, order: seq<int>) {
    && NoDuplicates(order)
    && (forall n :: IsNode(g, n) ==> n in order)
    && DependencyOrdered(g, order)
  }

  /** A rank that grows along every edge of the graph. */
  ghost predicate RanksEdges(g: Graph, rank: seq<nat>) {
    && |rank| == |g.nodes|
    && forall m, n, t :: Produces(g, m, t) && Consumes(g, n, t) ==> rank[m] < rank[n]
  }

  ghost predicate Acyclic(g: Graph) {
    exists rank :: RanksEdges(g, rank)
  }
}
