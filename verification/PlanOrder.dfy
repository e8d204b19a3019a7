/** The order of the queue: it follows the lists that planning goes over, and nothing else has this order. */
module PlanOrder {
  import opened GraphInfo
  import opened MemoryPlan
  import opened PlanTheorems

  ghost predicate FirstAt(ts: seq<int>, k: int, t: int) {
    0 <= k < |ts| && ts[k] == t && forall j :: 0 <= j < k ==> ts[j] != t
  }

  ghost predicate LastAt(ts: seq<int>, k: int, t: int) {
    0 <= k < |ts| && ts[k] == t && forall j :: k < j < |ts| ==> ts[j] != t
  }

  /** Tensor t first occurs before tensor u does. */
  ghost predicate ComesFirst(ts: seq<int>, t: int, u: int) {
    exists j, k :: j < k && FirstAt(ts, j, t) && FirstAt(ts, k, u)
  }

  /** Tensor t last occurs before tensor u does. */
  ghost predicate EndsFirst(ts: seq<int>, t: int, u: int) {
    exists j, k :: j < k && LastAt(ts, j, t) && LastAt(ts, k, u)
  }

  /** What planning goes over to allocate for a node: its outputs, and before those of the first node the inputs and
      variables of the model. */
  function AllocationList(g: Graph, i: int): seq<int> {
    (if i == 0 then g.inputs + g.variables else []) + if IsNode(g, i) then g.nodes[i].outputs else []
  }

  function InputsOf(g: Graph, i: int): seq<int> {
    if IsNode(g, i) then g.nodes[i].inputs else []
  }

  /** The order of the queue: by node; allocations before deallocations; tensors by their first occurrence in the list
      for allocations, by their last occurrence among the inputs for deallocations. */
  ghost predicate Precedes(g: Graph, e: Entry, f: Entry) {
    e.node < f.node ||
    (e.node == f.node &&
     if e.kind != f.kind then e.kind == Alloc
     else if e.kind == Alloc then ComesFirst(AllocationList(g, e.node), e.tensor, f.tensor)
     else EndsFirst(InputsOf(g, e.node), e.tensor, f.tensor))
  }

  lemma {:induction false} FirstIndex(ts: seq<int>, t: int) returns (k: int)
    requires t in ts
    ensures FirstAt(ts, k, t)
  {
    if ts[0] == t {
      k := 0;
    } else {
      assert t in ts[1..];
      var j := FirstIndex(ts[1..], t);
      k := j + 1;
      forall i | 0 <= i < k
        ensures ts[i] != t
      {
        assert i > 0 ==> ts[i] == ts[1..][i - 1];
      }
    }
  }

  /** More elements behind do not matter to first occurrences. */
  lemma ComesFirstInMore(ts: seq<int>, more: seq<int>, t: int, u: int)
    requires ComesFirst(ts, t, u)
    ensures ComesFirst(ts + more, t, u)
  {
    var j, k :| j < k && FirstAt(ts, j, t) && FirstAt(ts, k, u);
    assert FirstAt(ts + more, j, t) && FirstAt(ts + more, k, u);
  }

  /** Elements in front that are not these two do not matter either. */
  lemma ComesFirstBehind(front: seq<int>, ts: seq<int>, t: int, u: int)
    requires ComesFirst(ts, t, u) && t !in front && u !in front
    ensures ComesFirst(front + ts, t, u)
  {
    var j, k :| j < k && FirstAt(ts, j, t) && FirstAt(ts, k, u);
    assert FirstAt(front + ts, |front| + j, t) && FirstAt(front + ts, |front| + k, u);
  }

  lemma ComesFirstAcross(front: seq<int>, ts: seq<int>, t: int, u: int)
    requires t in front && u in ts && u !in front
    ensures ComesFirst(front + ts, t, u)
  {
    var j := FirstIndex(front, t);
    var k := FirstIndex(ts, u);
    assert FirstAt(front + ts, j, t) && FirstAt(front + ts, |front| + k, u);
  }

  lemma {:induction false} NewAllocsInOrder(node: int, ts: seq<int>, before: set<int>, a: int, b: int)
    requires 0 <= a < b < |NewAllocs(node, ts, before)|
    ensures var q := NewAllocs(node, ts, before); ComesFirst(ts, q[a].tensor, q[b].tensor)
  {
    var k, q := |ts| - 1, NewAllocs(node, ts, before);
    var head := NewAllocs(node, ts[..k], before);
    assert ts == ts[..k] + [ts[k]];
    if b < |head| {
      NewAllocsInOrder(node, ts[..k], before, a, b);
      ComesFirstInMore(ts[..k], [ts[k]], q[a].tensor, q[b].tensor);
    } else {
      assert q[a] == head[a] && head[a] in head;
      NewAllocsContents(node, ts[..k], before, head[a]);
      ComesFirstAcross(ts[..k], [ts[k]], q[a].tensor, q[b].tensor);
    }
  }

  lemma {:induction false} FreesInOrder(g: Graph, o: Options, i: int, n: nat, a: int, b: int)
    requires IsNode(g, i) && n <= |g.nodes[i].inputs| && 0 <= a < b < |Frees(g, o, i, n)|
    ensures var q := Frees(g, o, i, n); EndsFirst(g.nodes[i].inputs, q[a].tensor, q[b].tensor)
  {
    var q, head, ts := Frees(g, o, i, n), Frees(g, o, i, n - 1), g.nodes[i].inputs;
    if b < |head| {
      FreesInOrder(g, o, i, n - 1, a, b);
    } else {
      assert q[a] == head[a] && head[a] in head;
      FreesContents(g, o, i, n - 1, head[a]);
      var j :| 0 <= j < n - 1 && ts[j] == q[a].tensor && FreedAt(g, o, i, j);
      FreedAtLast(g, o, i, j);
      FreedAtLast(g, o, i, n - 1);
    }
  }

  lemma FreedAtLast(g: Graph, o: Options, i: int, j: nat)
    requires IsNode(g, i) && j < |g.nodes[i].inputs| && FreedAt(g, o, i, j)
    ensures LastAt(g.nodes[i].inputs, j, g.nodes[i].inputs[j])
  {
    var ts := g.nodes[i].inputs;
    forall k | j < k < |ts|
      ensures ts[k] != ts[j]
    {
      assert ts[j + 1..][k - j - 1] == ts[k];
    }
  }

  lemma NodePlanPrecedes(g: Graph, o: Options, i: nat, a: int, b: int)
    requires IsNode(g, i) && 0 <= a < b < |NodePlan(g, o, i)|
    ensures Precedes(g, NodePlan(g, o, i)[a], NodePlan(g, o, i)[b])
  {
    var q, allocs := NodePlan(g, o, i), NodeAllocs(g, i);
    NodePlanOrdered(g, o, i, a, b);
    assert q[a] in q && q[b] in q;
    NodePlanContents(g, o, i, q[a]);
    NodePlanContents(g, o, i, q[b]);
    if b < |allocs| {
      assert allocs[a] in allocs && allocs[b] in allocs;
      NewAllocsContents(i, g.nodes[i].outputs, AllocatedBefore(g, i), allocs[a]);
      NewAllocsContents(i, g.nodes[i].outputs, AllocatedBefore(g, i), allocs[b]);
      NewAllocsInOrder(i, g.nodes[i].outputs, AllocatedBefore(g, i), a, b);
      var front := if i == 0 then g.inputs + g.variables else [];
      ComesFirstBehind(front, g.nodes[i].outputs, q[a].tensor, q[b].tensor);
    } else if a >= |allocs| {
      FreesInOrder(g, o, i, |g.nodes[i].inputs|, a - |allocs|, b - |allocs|);
      FreesContents(g, o, i, |g.nodes[i].inputs|, q[a]);
      FreesContents(g, o, i, |g.nodes[i].inputs|, q[b]);
      assert q[a] in Frees(g, o, i, |g.nodes[i].inputs|) && q[b] in Frees(g, o, i, |g.nodes[i].inputs|);
    } else {
      assert q[a] in allocs && q[b] in Frees(g, o, i, |g.nodes[i].inputs|);
      NewAllocsContents(i, g.nodes[i].outputs, AllocatedBefore(g, i), q[a]);
      FreesContents(g, o, i, |g.nodes[i].inputs|, q[b]);
    }
  }

  /** An entry from before node i and one of node i. */
  lemma PrecedesAcross(g: Graph, o: Options, i: nat, e: Entry, f: Entry)
    requires IsNode(g, i) && e in Plan(g, o, i) && f in NodePlan(g, o, i)
    ensures Precedes(g, e, f)
  {
    PlanContents(g, o, i, e);
    NodePlanContents(g, o, i, f);
    if e.node == i && f.kind == Alloc {
      var front := g.inputs + g.variables;
      assert f.tensor in AllocatedBefore(g, 0) <==> f.tensor in front && f.tensor != OPTIONAL_TENSOR;
      ComesFirstAcross(front, g.nodes[0].outputs, e.tensor, f.tensor);
    }
  }

  /** Of two entries of the queue, the earlier one precedes the other. */
  lemma {:induction false} QueueInListOrder(g: Graph, o: Options, i: nat, a: int, b: int)
    requires i <= |g.nodes| && 0 <= a < b < |Plan(g, o, i)|
    ensures Precedes(g, Plan(g, o, i)[a], Plan(g, o, i)[b])
  {
    var q := Plan(g, o, i);
    if i == 0 {
      assert q[a] in q && q[b] in q;
      PlanContents(g, o, 0, q[a]);
      PlanContents(g, o, 0, q[b]);
      NewAllocsInOrder(0, g.inputs + g.variables, {}, a, b);
      ComesFirstInMore(g.inputs + g.variables, if IsNode(g, 0) then g.nodes[0].outputs else [],
                       q[a].tensor, q[b].tensor);
    } else {
      var before, here := Plan(g, o, i - 1), NodePlan(g, o, i - 1);
      if b < |before| {
        QueueInListOrder(g, o, i - 1, a, b);
      } else if a < |before| {
        assert before[a] in before && here[b - |before|] in here;
        PrecedesAcross(g, o, i - 1, before[a], here[b - |before|]);
      } else {
        NodePlanPrecedes(g, o, i - 1, a - |before|, b - |before|);
      }
    }
  }

  // ----- no other queue

  /** No two entries precede each other, and none itself. */
  lemma PrecedesOneWay(g: Graph, e: Entry, f: Entry)
    requires Precedes(g, e, f)
    ensures !Precedes(g, f, e)
  {
  }

  ghost predicate InQueueOrder(g: Graph, q: seq<Entry>) {
    forall a, b :: 0 <= a < b < |q| ==> Precedes(g, q[a], q[b])
  }

  ghost predicate SameEntries(p: seq<Entry>, q: seq<Entry>) {
    forall e :: e in p <==> e in q
  }

  lemma SameHead(g: Graph, p: seq<Entry>, q: seq<Entry>)
    requires InQueueOrder(g, p) && InQueueOrder(g, q) && SameEntries(p, q) && p != []
    ensures q != [] && p[0] == q[0]
  {
    assert p[0] in p;
    assert q[0] in q;
    var j :| 0 <= j < |q| && q[j] == p[0];
    var k :| 0 <= k < |p| && p[k] == q[0];
    if j > 0 && k > 0 {
      PrecedesOneWay(g, p[0], q[0]);
    }
  }

  lemma SameTail(g: Graph, p: seq<Entry>, q: seq<Entry>)
    requires InQueueOrder(g, p) && InQueueOrder(g, q) && SameEntries(p, q) && p != [] && q != [] && p[0] == q[0]
    ensures InQueueOrder(g, p[1..]) && InQueueOrder(g, q[1..]) && SameEntries(p[1..], q[1..])
  {
    forall e
      ensures e in p[1..] <==> e in p && e != p[0]
      ensures e in q[1..] <==> e in q && e != q[0]
    {
      TailOf(g, p, e);
      TailOf(g, q, e);
    }
  }

  lemma TailOf(g: Graph, p: seq<Entry>, e: Entry)
    requires InQueueOrder(g, p) && p != []
    ensures e in p[1..] <==> e in p && e != p[0]
  {
    if e in p[1..] {
      var k :| 0 <= k < |p[1..]| && p[1..][k] == e;
      assert Precedes(g, p[0], p[k + 1]);
      PrecedesOneWay(g, p[0], p[k + 1]);
    }
  }

  lemma {:induction false} OnlyOneOrder(g: Graph, p: seq<Entry>, q: seq<Entry>)
    requires InQueueOrder(g, p) && InQueueOrder(g, q) && SameEntries(p, q)
    ensures p == q
  {
    if p == [] {
      if q != [] {
        SameHead(g, q, p);
      }
    } else {
      SameHead(g, p, q);
      SameTail(g, p, q);
      OnlyOneOrder(g, p[1..], q[1..]);
      assert p == [p[0]] + p[1..] && q == [q[0]] + q[1..];
    }
  }

  /** Node n is the first to need memory for tensor t: the model's inputs and variables count for node 0. */
  ghost predicate FirstNeeds(g: Graph, n: int, t: int) {
    t != OPTIONAL_TENSOR &&
    if t in g.inputs || t in g.variables then n == 0
    else Produces(g, n, t) && forall m :: m < n ==> !Produces(g, m, t)
  }

  /** Node n is the last to use tensor t, which nobody asks to be kept and which has memory by then. */
  ghost predicate LastUses(g: Graph, o: Options, n: int, t: int) {
    && !o.preserveIntermediates && t != OPTIONAL_TENSOR
    && t !in g.outputs && t !in g.variables && !(o.preserveInputs && t in g.inputs)
    && Consumes(g, n, t) && (forall m :: n < m ==> !Consumes(g, m, t))
    && (t in g.inputs || exists m :: m <= n && Produces(g, m, t))
  }

  ghost predicate Planned(g: Graph, o: Options, e: Entry) {
    if e.kind == Alloc then FirstNeeds(g, e.node, e.tensor) else LastUses(g, o, e.node, e.tensor)
  }

  lemma PlannedIffQueued(g: Graph, o: Options, e: Entry)
    ensures e in Plan(g, o, |g.nodes|) <==> Planned(g, o, e)
  {
    PlanExact(g, o, e);
    if IsNode(g, e.node) {
      AllocatedOrigin(g, e.node, e.tensor);
      AllocatedOrigin(g, e.node + 1, e.tensor);
      assert ProducedBefore(g, e.node, e.tensor) <==> exists m :: m < e.node && Produces(g, m, e.tensor);
      assert ProducedBefore(g, e.node + 1, e.tensor) <==> exists m :: m <= e.node && Produces(g, m, e.tensor);
      assert ConsumedFrom(g, e.node + 1, e.tensor) <==> exists m :: e.node < m && Consumes(g, m, e.tensor);
    }
  }

  /** The queue, without recursion and counts: a list of entries is the plan if and only if it holds exactly the
      allocations where a tensor is first needed and the deallocations at the last use, in this order. */
  lemma OnlyPlan(g: Graph, o: Options, q: seq<Entry>)
    ensures q == Plan(g, o, |g.nodes|) <==> InQueueOrder(g, q) && forall e :: e in q <==> Planned(g, o, e)
  {
    var p := Plan(g, o, |g.nodes|);
    forall a, b | 0 <= a < b < |p|
      ensures Precedes(g, p[a], p[b])
    {
      QueueInListOrder(g, o, |g.nodes|, a, b);
    }
    forall e
      ensures e in p <==> Planned(g, o, e)
    {
      PlannedIffQueued(g, o, e);
    }
    if InQueueOrder(g, q) && SameEntries(p, q) {
      OnlyOneOrder(g, p, q);
    }
  }
}
