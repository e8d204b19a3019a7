/** The liveness plan of the arena planner, stated without the reference counts that the method uses. */
module MemoryPlan {
  import opened GraphInfo

  datatype EntryKind = Alloc | Dealloc

  /** One element of the allocation queue. */
  datatype Entry = Entry(node: int, tensor: int, kind: EntryKind)

  datatype Options = Options(preserveInputs: bool, preserveIntermediates: bool)

  /** What the source demands of the graph: tensor indices in range, except that inputs may be absent. */
  ghost predicate ValidGraph(g: Graph) {
    && (forall t :: t in g.inputs ==> t == OPTIONAL_TENSOR || IsTensor(g, t))
    && (forall t :: t in g.outputs || t in g.variables ==> IsTensor(g, t))
    && (forall n, t :: Consumes(g, n, t) ==> t == OPTIONAL_TENSOR || IsTensor(g, t))
    && (forall n, t :: Produces(g, n, t) ==> IsTensor(g, t))
  }

  /** The temporaries of all nodes. */
  function NodeTemporaries(g: Graph): seq<seq<int>> {
    seq(|g.nodes|, i requires 0 <= i < |g.nodes| => g.nodes[i].temporaries)
  }

  /** Allocation entries for the tensors of the list that were not allocated before, each once. */
  ghost function NewAllocs(node: int, ts: seq<int>, before: set<int>): seq<Entry> {
    if ts == [] then []
    else
      var k := |ts| - 1;
      NewAllocs(node, ts[..k], before) +
      if ts[k] == OPTIONAL_TENSOR || ts[k] in before || ts[k] in ts[..k] then [] else [Entry(node, ts[k], Alloc)]
  }

  ghost function Members(ts: seq<int>): set<int> {
    set t | t in ts && t != OPTIONAL_TENSOR
  }

  /** The tensors that are allocated before node i. */
  ghost function AllocatedBefore(g: Graph, i: nat): set<int>
    requires i <= |g.nodes|
  {
    if i == 0 then Members(g.inputs + g.variables)
    else AllocatedBefore(g, i - 1) + Members(g.nodes[i - 1].outputs)
  }

  /** The graph keeps tensor t to the end. */
  ghost predicate Pinned(g: Graph, o: Options, t: int) {
    t in g.outputs || t in g.variables || (o.preserveInputs && t in g.inputs)
  }

  ghost predicate ConsumedFrom(g: Graph, i: int, t: int) {
    exists k :: i <= k && Consumes(g, k, t)
  }

  /** Input j of node i is the last use of a tensor that may be freed. */
  ghost predicate FreedAt(g: Graph, o: Options, i: int, j: int)
    requires IsNode(g, i) && 0 <= j < |g.nodes[i].inputs|
  {
    var t := g.nodes[i].inputs[j];
    && !o.preserveIntermediates
    && t != OPTIONAL_TENSOR && t in AllocatedBefore(g, i + 1) && !Pinned(g, o, t)
    && t !in g.nodes[i].inputs[j + 1..] && !ConsumedFrom(g, i + 1, t)
  }

  /** Entries that free tensors at their last use among the first j inputs of node i. */
  ghost function Frees(g: Graph, o: Options, i: int, j: nat): seq<Entry>
    requires IsNode(g, i) && j <= |g.nodes[i].inputs|
  {
    if j == 0 then []
    else Frees(g, o, i, j - 1) +
         if FreedAt(g, o, i, j - 1) then [Entry(i, g.nodes[i].inputs[j - 1], Dealloc)] else []
  }

  /** The queue up to the entries of node i - 1. */
  ghost function Plan(g: Graph, o: Options, i: nat): seq<Entry>
    requires i <= |g.nodes|
  {
    if i == 0 then NewAllocs(0, g.inputs + g.variables, {})
    else Plan(g, o, i - 1) + NodePlan(g, o, i - 1)
  }

  ghost function NodeAllocs(g: Graph, i: nat): seq<Entry>
    requires IsNode(g, i)
  {
    NewAllocs(i, g.nodes[i].outputs, AllocatedBefore(g, i))
  }

  ghost function NodePlan(g: Graph, o: Options, i: nat): seq<Entry>
    requires IsNode(g, i)
  {
    NodeAllocs(g, i) + Frees(g, o, i, |g.nodes[i].inputs|)
  }

  // ----- reference counts

  ghost function Count(ts: seq<int>, t: int): nat {
    if ts == [] then 0 else (if ts[0] == t then 1 else 0) + Count(ts[1..], t)
  }

  lemma {:induction false} CountZero(ts: seq<int>, t: int)
    ensures Count(ts, t) == 0 <==> t !in ts
  {
    if ts != [] {
      CountZero(ts[1..], t);
      assert t in ts <==> t == ts[0] || t in ts[1..];
    }
  }

  /** References to tensor t from the nodes i and later. */
  ghost function References(g: Graph, i: nat, t: int): nat
    requires i <= |g.nodes|
    decreases |g.nodes| - i
  {
    if i == |g.nodes| then 0 else Count(g.nodes[i].inputs, t) + References(g, i + 1, t)
  }

  /** References that are never given up. */
  ghost function Pins(g: Graph, o: Options, t: int): nat {
    Count(g.outputs, t) + Count(g.variables, t) + if o.preserveInputs then Count(g.inputs, t) else 0
  }

  lemma PinsArePinned(g: Graph, o: Options, t: int)
    ensures Pins(g, o, t) == 0 <==> !Pinned(g, o, t)
  {
    CountZero(g.outputs, t);
    CountZero(g.variables, t);
    CountZero(g.inputs, t);
  }

  lemma {:induction false} ReferencesConsume(g: Graph, i: nat, t: int)
    requires i <= |g.nodes|
    ensures References(g, i, t) == 0 <==> !ConsumedFrom(g, i, t)
    decreases |g.nodes| - i
  {
    if i < |g.nodes| {
      ReferencesConsume(g, i + 1, t);
      CountZero(g.nodes[i].inputs, t);
      assert t in g.nodes[i].inputs ==> Consumes(g, i, t);
      assert ConsumedFrom(g, i, t) <==> Consumes(g, i, t) || ConsumedFrom(g, i + 1, t);
    }
  }

  /** The references to tensor t that are left after the first j inputs of node i. */
  ghost function Left(g: Graph, o: Options, i: nat, j: nat, t: int): nat
    requires IsNode(g, i) && j <= |g.nodes[i].inputs|
  {
    Pins(g, o, t) + Count(g.nodes[i].inputs[j..], t) + References(g, i + 1, t)
  }

  /** A count drops to zero exactly at the last use of a tensor that is not pinned. */
  lemma ZeroMeansLastUse(g: Graph, o: Options, i: nat, j: nat)
    requires IsNode(g, i) && j < |g.nodes[i].inputs|
    ensures var t := g.nodes[i].inputs[j];
      Left(g, o, i, j + 1, t) == 0 <==>
      !Pinned(g, o, t) && t !in g.nodes[i].inputs[j + 1..] && !ConsumedFrom(g, i + 1, t)
  {
    var t := g.nodes[i].inputs[j];
    PinsArePinned(g, o, t);
    ReferencesConsume(g, i + 1, t);
    CountZero(g.nodes[i].inputs[j + 1..], t);
  }

  lemma LeftDropsByOne(g: Graph, o: Options, i: nat, j: nat, t: int)
    requires IsNode(g, i) && j < |g.nodes[i].inputs|
    ensures Left(g, o, i, j, t) == Left(g, o, i, j + 1, t) + if g.nodes[i].inputs[j] == t then 1 else 0
  {
    assert g.nodes[i].inputs[j..][1..] == g.nodes[i].inputs[j + 1..];
  }

  /** All references that are left when node i is reached. */
  ghost function Held(g: Graph, o: Options, i: nat, t: int): nat
    requires i <= |g.nodes|
  {
    Pins(g, o, t) + References(g, i, t)
  }

  lemma HeldIsLeft(g: Graph, o: Options, i: nat, t: int)
    requires IsNode(g, i)
    ensures Held(g, o, i, t) == Left(g, o, i, 0, t)
    ensures Held(g, o, i + 1, t) == Left(g, o, i, |g.nodes[i].inputs|, t)
  {
    assert g.nodes[i].inputs[0..] == g.nodes[i].inputs;
  }
}
