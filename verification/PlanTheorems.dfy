/** The plan is exact: each tensor is allocated once, before it is used, and freed at its last use or never. */
module PlanTheorems {
  import opened GraphInfo
  import opened MemoryPlan

  /** Node i allocates tensor t: it is an input or variable of the model, or an output that is new at node i. */
  ghost predicate AllocatedAt(g: Graph, i: int, t: int) {
    t != OPTIONAL_TENSOR &&
    ((i == 0 && (t in g.inputs || t in g.variables)) || (Produces(g, i, t) && t !in AllocatedBefore(g, i)))
  }

  /** Node i frees tensor t: it uses an allocated tensor that is not pinned and that no later node uses. */
  ghost predicate FreedBy(g: Graph, o: Options, i: int, t: int) {
    && !o.preserveIntermediates
    && t != OPTIONAL_TENSOR && Consumes(g, i, t) && t in AllocatedBefore(g, i + 1)
    && !Pinned(g, o, t) && !ConsumedFrom(g, i + 1, t)
  }

  lemma {:induction false} NewAllocsContents(node: int, ts: seq<int>, before: set<int>, e: Entry)
    ensures e in NewAllocs(node, ts, before) <==>
      e.kind == Alloc && e.node == node && e.tensor in ts && e.tensor != OPTIONAL_TENSOR && e.tensor !in before
  {
    if ts != [] {
      NewAllocsContents(node, ts[..|ts| - 1], before, e);
      assert ts == ts[..|ts| - 1] + [ts[|ts| - 1]];
    }
  }

  lemma {:induction false} NewAllocsOnce(node: int, ts: seq<int>, before: set<int>)
    ensures forall a, b :: 0 <= a < b < |NewAllocs(node, ts, before)| ==>
      NewAllocs(node, ts, before)[a].tensor != NewAllocs(node, ts, before)[b].tensor
  {
    if ts != [] {
      var k := |ts| - 1;
      var head := NewAllocs(node, ts[..k], before);
      NewAllocsOnce(node, ts[..k], before);
      forall a | 0 <= a < |head|
        ensures head[a].tensor in ts[..k]
      {
        NewAllocsContents(node, ts[..k], before, head[a]);
        assert head[a] in head;
      }
    }
  }

  lemma {:induction false} FreesContents(g: Graph, o: Options, i: int, j: nat, e: Entry)
    requires IsNode(g, i) && j <= |g.nodes[i].inputs|
    ensures e in Frees(g, o, i, j) <==>
      e.kind == Dealloc && e.node == i &&
      exists k :: 0 <= k < j && g.nodes[i].inputs[k] == e.tensor && FreedAt(g, o, i, k)
  {
    if j > 0 {
      FreesContents(g, o, i, j - 1, e);
    }
  }

  lemma {:induction false} FreesOnce(g: Graph, o: Options, i: int, j: nat)
    requires IsNode(g, i) && j <= |g.nodes[i].inputs|
    ensures forall a, b :: 0 <= a < b < |Frees(g, o, i, j)| ==>
      Frees(g, o, i, j)[a].tensor != Frees(g, o, i, j)[b].tensor
  {
    if j > 0 {
      var head, x := Frees(g, o, i, j - 1), g.nodes[i].inputs[j - 1];
      FreesOnce(g, o, i, j - 1);
      forall a | 0 <= a < |head|
        ensures head[a].tensor != x
      {
        FreesContents(g, o, i, j - 1, head[a]);
        assert head[a] in head;
        var k :| 0 <= k < j - 1 && g.nodes[i].inputs[k] == head[a].tensor && FreedAt(g, o, i, k);
        assert g.nodes[i].inputs[k + 1..][j - 2 - k] == x;
      }
    }
  }

  lemma {:induction false} LastIndex(ts: seq<int>, t: int) returns (k: int)
    requires t in ts
    ensures 0 <= k < |ts| && ts[k] == t && t !in ts[k + 1..]
  {
    if ts[|ts| - 1] == t {
      k := |ts| - 1;
    } else {
      assert ts == ts[..|ts| - 1] + [ts[|ts| - 1]];
      k := LastIndex(ts[..|ts| - 1], t);
      assert ts[k + 1..] == ts[..|ts| - 1][k + 1..] + [ts[|ts| - 1]];
    }
  }

  /** What a node adds to the queue. */
  lemma NodePlanContents(g: Graph, o: Options, i: nat, e: Entry)
    requires IsNode(g, i)
    ensures e in NodePlan(g, o, i) <==>
      (e.node == i &&
       if e.kind == Alloc then Produces(g, i, e.tensor) && e.tensor != OPTIONAL_TENSOR &&
         e.tensor !in AllocatedBefore(g, i)
       else FreedBy(g, o, i, e.tensor))
  {
    var inputs := g.nodes[i].inputs;
    NewAllocsContents(i, g.nodes[i].outputs, AllocatedBefore(g, i), e);
    FreesContents(g, o, i, |inputs|, e);
    if e.tensor in inputs {
      var k := LastIndex(inputs, e.tensor);
      assert FreedBy(g, o, i, e.tensor) ==> FreedAt(g, o, i, k);
    }
    forall k | 0 <= k < |inputs| && inputs[k] == e.tensor && FreedAt(g, o, i, k)
      ensures FreedBy(g, o, i, e.tensor)
    {
      assert Consumes(g, i, inputs[k]);
    }
  }

  /** The entries of the queue before those of node i. */
  lemma {:induction false} PlanContents(g: Graph, o: Options, i: nat, e: Entry)
    requires i <= |g.nodes|
    ensures e in Plan(g, o, i) <==>
      if e.kind == Alloc then (e.node == 0 || e.node < i) && AllocatedAt(g, e.node, e.tensor) &&
        (e.node < i || e.tensor in g.inputs || e.tensor in g.variables)
      else e.node < i && FreedBy(g, o, e.node, e.tensor)
  {
    if i == 0 {
      NewAllocsContents(0, g.inputs + g.variables, {}, e);
    } else {
      PlanContents(g, o, i - 1, e);
      NodePlanContents(g, o, i - 1, e);
      if e.node == 0 && e.kind == Alloc && e.tensor != OPTIONAL_TENSOR {
        assert e.tensor in AllocatedBefore(g, 0) <==> e.tensor in g.inputs || e.tensor in g.variables;
      }
    }
  }

  /** The queue holds exactly the first allocations and the deallocations at the last use. */
  lemma PlanExact(g: Graph, o: Options, e: Entry)
    ensures e in Plan(g, o, |g.nodes|) <==>
      if e.kind == Alloc then AllocatedAt(g, e.node, e.tensor) else FreedBy(g, o, e.node, e.tensor)
  {
    PlanContents(g, o, |g.nodes|, e);
  }

  lemma {:induction false} AllocatedGrows(g: Graph, i: nat, j: nat)
    requires i <= j <= |g.nodes|
    ensures AllocatedBefore(g, i) <= AllocatedBefore(g, j)
  {
    if i < j {
      AllocatedGrows(g, i, j - 1);
    }
  }

  ghost predicate ProducedBefore(g: Graph, i: int, t: int) {
    exists m :: m < i && Produces(g, m, t)
  }

  /** What is allocated before node i: what the model provides and what earlier nodes produce. */
  lemma {:induction false} AllocatedOrigin(g: Graph, i: nat, t: int)
    requires i <= |g.nodes|
    ensures t in AllocatedBefore(g, i) <==>
      t != OPTIONAL_TENSOR && (t in g.inputs || t in g.variables || ProducedBefore(g, i, t))
  {
    if i > 0 {
      var k := i - 1;
      AllocatedOrigin(g, k, t);
      assert t in g.nodes[k].outputs <==> Produces(g, k, t);
      assert ProducedBefore(g, i, t) <==> ProducedBefore(g, k, t) || Produces(g, k, t);
    }
  }

  /** Every entry of the queue before node i speaks of a tensor that is allocated by then. */
  lemma PlanTensorsAllocated(g: Graph, o: Options, i: nat, e: Entry)
    requires i <= |g.nodes| && e in Plan(g, o, i)
    ensures e.tensor in AllocatedBefore(g, i) && 0 <= e.node && (e.node < i || e.node == 0)
    ensures e.kind == Dealloc ==> !ConsumedFrom(g, i, e.tensor)
  {
    PlanContents(g, o, i, e);
    if e.node == 0 && (e.tensor in g.inputs || e.tensor in g.variables) && e.kind == Alloc {
      ProvidedAllocated(g, i, e.tensor);
    } else {
      assert IsNode(g, e.node) && e.node < i;
      if e.kind == Alloc {
        ProducedAllocated(g, e.node, e.tensor);
      }
      AllocatedGrows(g, e.node + 1, i);
    }
  }

  lemma ProvidedAllocated(g: Graph, i: nat, t: int)
    requires i <= |g.nodes| && t != OPTIONAL_TENSOR && (t in g.inputs || t in g.variables)
    ensures t in AllocatedBefore(g, i)
  {
    assert t in AllocatedBefore(g, 0);
    AllocatedGrows(g, 0, i);
  }

  lemma ProducedAllocated(g: Graph, k: nat, t: int)
    requires Produces(g, k, t) && t != OPTIONAL_TENSOR
    ensures t in AllocatedBefore(g, k + 1)
  {
    assert t in Members(g.nodes[k].outputs);
  }

  /** The queue is ordered by node, and a node's allocations come before its deallocations. */
  lemma {:induction false} PlanOrdered(g: Graph, o: Options, i: nat, a: int, b: int)
    requires i <= |g.nodes| && 0 <= a < b < |Plan(g, o, i)|
    ensures var q := Plan(g, o, i);
      q[a].node <= q[b].node && (q[a].node == q[b].node ==> q[a].kind == Alloc || q[b].kind == Dealloc)
  {
    var q := Plan(g, o, i);
    if i == 0 {
      NewAllocsContents(0, g.inputs + g.variables, {}, q[a]);
      NewAllocsContents(0, g.inputs + g.variables, {}, q[b]);
      assert q[a] in q && q[b] in q;
    } else {
      var before, here := Plan(g, o, i - 1), NodePlan(g, o, i - 1);
      if b < |before| {
        PlanOrdered(g, o, i - 1, a, b);
      } else {
        assert q[b] == here[b - |before|];
        NodePlanContents(g, o, i - 1, q[b]);
        assert q[b] in here;
        if a < |before| {
          assert q[a] == before[a] && before[a] in before;
          PlanTensorsAllocated(g, o, i - 1, q[a]);
          PlanContents(g, o, i - 1, q[a]);
        } else {
          NodePlanOrdered(g, o, i - 1, a - |before|, b - |before|);
        }
      }
    }
  }

  lemma NodePlanOrdered(g: Graph, o: Options, i: nat, a: int, b: int)
    requires IsNode(g, i) && 0 <= a < b < |NodePlan(g, o, i)|
    ensures var q := NodePlan(g, o, i);
      && q[a].node == q[b].node == i
      && (q[a].kind == Alloc || q[b].kind == Dealloc)
      && (q[a].tensor == q[b].tensor ==> q[a].kind == Alloc && q[b].kind == Dealloc)
  {
    var q, allocs, frees := NodePlan(g, o, i), NodeAllocs(g, i), Frees(g, o, i, |g.nodes[i].inputs|);
    assert q[a] in q && q[b] in q;
    NodePlanContents(g, o, i, q[a]);
    NodePlanContents(g, o, i, q[b]);
    NewAllocsOnce(i, g.nodes[i].outputs, AllocatedBefore(g, i));
    FreesOnce(g, o, i, |g.nodes[i].inputs|);
    forall c | 0 <= c < |q|
      ensures if c < |allocs| then q[c] == allocs[c] && q[c].kind == Alloc
              else q[c] == frees[c - |allocs|] && q[c].kind == Dealloc
    {
      if c < |allocs| {
        assert q[c] in allocs;
        NewAllocsContents(i, g.nodes[i].outputs, AllocatedBefore(g, i), q[c]);
      } else {
        assert q[c] in frees;
        FreesContents(g, o, i, |g.nodes[i].inputs|, q[c]);
      }
    }
  }

  lemma PlannedAcross(g: Graph, o: Options, i: nat, e: Entry, e': Entry)
    requires IsNode(g, i) && e in Plan(g, o, i) && e' in NodePlan(g, o, i) && e.tensor == e'.tensor
    ensures e.kind == Alloc && e'.kind == Dealloc
  {
    PlanTensorsAllocated(g, o, i, e);
    NodePlanContents(g, o, i, e');
  }

  /** Two entries for one tensor are its allocation followed by its deallocation: at most one of each, in this
      order, for every graph, although nothing but the counts prevents a second deallocation. */
  lemma {:induction false} PlannedOnce(g: Graph, o: Options, i: nat, a: int, b: int)
    requires i <= |g.nodes| && 0 <= a < b < |Plan(g, o, i)| && Plan(g, o, i)[a].tensor == Plan(g, o, i)[b].tensor
    ensures Plan(g, o, i)[a].kind == Alloc && Plan(g, o, i)[b].kind == Dealloc
  {
    var q := Plan(g, o, i);
    if i == 0 {
      NewAllocsOnce(0, g.inputs + g.variables, {});
    } else {
      var before, here := Plan(g, o, i - 1), NodePlan(g, o, i - 1);
      if b < |before| {
        PlannedOnce(g, o, i - 1, a, b);
      } else if a < |before| {
        assert before[a] in before && here[b - |before|] in here;
        PlannedAcross(g, o, i - 1, before[a], here[b - |before|]);
      } else {
        NodePlanOrdered(g, o, i - 1, a - |before|, b - |before|);
      }
    }
  }

  /** Outputs and variables of the model, preserved inputs, and with preserved intermediates everything, are never
      freed. */
  lemma NeverFreed(g: Graph, o: Options, e: Entry)
    requires e.tensor in g.outputs || e.tensor in g.variables || (o.preserveInputs && e.tensor in g.inputs) ||
      o.preserveIntermediates
    ensures e.kind == Dealloc ==> e !in Plan(g, o, |g.nodes|)
  {
    PlanContents(g, o, |g.nodes|, e);
  }
}
