/** The plan uses the arenas well: all tensors that are still needed at a node lie in disjoint blocks. */
module ArenaSharing {
  import opened Wrappers
  import opened GraphInfo
  import opened MemoryPlan
  import opened PlanTheorems
  import opened Arena
  import opened Replay
  import opened ArenaMemory

  // ----- logs in which each tensor is allocated once

  ghost function HeldAfter(ops: seq<Op>): set<int> {
    if ops == [] then {}
    else
      var before, op := HeldAfter(ops[..|ops| - 1]), ops[|ops| - 1];
      if op.Allocate? then before + {op.tensor} else before - {op.tensor}
  }

  ghost function EverAllocated(ops: seq<Op>): set<int> {
    if ops == [] then {}
    else EverAllocated(ops[..|ops| - 1]) + if ops[|ops| - 1].Allocate? then {ops[|ops| - 1].tensor} else {}
  }

  /** Nothing is allocated twice, and only what is held is freed. */
  ghost predicate WellUsed(tensors: seq<TensorInfo>, ops: seq<Op>) {
    ops == [] ||
    var before, op := ops[..|ops| - 1], ops[|ops| - 1];
    && WellUsed(tensors, before) && 0 <= op.tensor < |tensors|
    && if op.Allocate? then op.tensor !in EverAllocated(before) else op.tensor in HeldAfter(before)
  }

  /** The block of tensor t is as large as t, and is a live block of t's arena if it is not empty. */
  ghost predicate Housed(tensors: seq<TensorInfo>, m: Memory, t: int) {
    && 0 <= t < |tensors| == |m.allocs|
    && (tensors[t].placement != Elsewhere ==> m.allocs[t].size == tensors[t].bytes)
    && (tensors[t].placement == ArenaRw && tensors[t].bytes > 0 ==> m.allocs[t] in m.arena)
    && (tensors[t].placement == ArenaRwPersistent && tensors[t].bytes > 0 ==> m.allocs[t] in m.persistent)
  }

  /** Two tensors of one arena with bytes have disjoint blocks. */
  ghost predicate Apart(tensors: seq<TensorInfo>, m: Memory, a: int, b: int) {
    0 <= a < |tensors| == |m.allocs| && 0 <= b < |tensors| && a != b &&
    tensors[a].placement == tensors[b].placement != Elsewhere && tensors[a].bytes > 0 && tensors[b].bytes > 0 ==>
      Disjoint(m.allocs[a], m.allocs[b])
  }

  ghost predicate Sound(tensors: seq<TensorInfo>, m: Memory, held: set<int>) {
    && |m.allocs| == |tensors| && Layout(m.arena) && Layout(m.persistent)
    && (forall t :: t in held ==> Housed(tensors, m, t))
    && (forall a, b :: a in held && b in held ==> Apart(tensors, m, a, b))
  }

  ghost function EmptyMemory(tensors: seq<TensorInfo>): Memory {
    Memory([], [], seq(|tensors|, _ => ArenaAlloc(0, 0)))
  }

  lemma AllocateHouses(tensors: seq<TensorInfo>, alignment: nat, m: Memory, t: int)
    requires 0 < alignment <= DEFAULT_ARENA_ALIGNMENT && 0 <= t < |tensors| == |m.allocs|
    requires Layout(m.arena) && Layout(m.persistent)
    ensures var r := RunAllocate(tensors, alignment, m, t);
      && r.Some? && Layout(r.value.arena) && Layout(r.value.persistent)
      && |r.value.allocs| == |tensors| && Housed(tensors, r.value, t)
      && (forall u :: 0 <= u < |tensors| && u != t ==> r.value.allocs[u] == m.allocs[u])
      && (forall b :: b in m.arena ==> b in r.value.arena)
      && (forall b :: b in m.persistent ==> b in r.value.persistent)
      && (tensors[t].bytes > 0 && tensors[t].placement == ArenaRw ==>
            forall b :: b in m.arena ==> Disjoint(r.value.allocs[t], b))
      && (tensors[t].bytes > 0 && tensors[t].placement == ArenaRwPersistent ==>
            forall b :: b in m.persistent ==> Disjoint(r.value.allocs[t], b))
  {
    AllocateStep(m.arena, alignment, tensors[t].bytes);
    AllocateStep(m.persistent, alignment, tensors[t].bytes);
  }

  lemma AllocateKeepsSound(tensors: seq<TensorInfo>, alignment: nat, m: Memory, held: set<int>, t: int)
    requires 0 < alignment <= DEFAULT_ARENA_ALIGNMENT && Sound(tensors, m, held) && t !in held && 0 <= t < |tensors|
    ensures var r := RunAllocate(tensors, alignment, m, t);
      && r.Some? && Sound(tensors, r.value, held + {t})
      && forall u :: 0 <= u < |tensors| && u != t ==> r.value.allocs[u] == m.allocs[u]
  {
    AllocateHouses(tensors, alignment, m, t);
    var n := RunAllocate(tensors, alignment, m, t).value;
    forall u | u in held
      ensures Housed(tensors, n, u) && Apart(tensors, n, u, t) && Apart(tensors, n, t, u)
    {
      assert Housed(tensors, m, u);
    }
    forall a, b | a in held && b in held
      ensures Apart(tensors, n, a, b)
    {
      assert Apart(tensors, m, a, b);
    }
  }

  lemma DeallocateKeepsSound(tensors: seq<TensorInfo>, m: Memory, held: set<int>, t: int)
    requires Sound(tensors, m, held) && t in held
    ensures var r := RunDeallocate(tensors, m, t);
      r.Some? && Sound(tensors, r.value, held - {t}) && r.value.allocs == m.allocs
  {
    assert Housed(tensors, m, t);
    var n := RunDeallocate(tensors, m, t).value;
    if tensors[t].placement == ArenaRw && m.allocs[t].size > 0 {
      DeallocateStep(m.arena, m.allocs[t]);
    }
    forall u | u in held - {t}
      ensures Housed(tensors, n, u)
    {
      assert Housed(tensors, m, u) && Apart(tensors, m, u, t);
    }
    forall a, b | a in held - {t} && b in held - {t}
      ensures Apart(tensors, n, a, b)
    {
      assert Apart(tensors, m, a, b);
    }
  }

  /** A well-used log runs without failure, and keeps the held tensors in disjoint live blocks. */
  lemma {:induction false} WellUsedRuns(tensors: seq<TensorInfo>, alignment: nat, ops: seq<Op>)
    requires 0 < alignment <= DEFAULT_ARENA_ALIGNMENT && WellUsed(tensors, ops)
    ensures var r := RunOps(tensors, alignment, EmptyMemory(tensors), ops);
      r.Some? && Sound(tensors, r.value, HeldAfter(ops))
    ensures HeldAfter(ops) <= EverAllocated(ops)
  {
    if ops != [] {
      var before, op := ops[..|ops| - 1], ops[|ops| - 1];
      WellUsedRuns(tensors, alignment, before);
      var m := RunOps(tensors, alignment, EmptyMemory(tensors), before).value;
      if op.Allocate? {
        AllocateKeepsSound(tensors, alignment, m, HeldAfter(before), op.tensor);
      } else {
        DeallocateKeepsSound(tensors, m, HeldAfter(before), op.tensor);
      }
    }
  }

  /** Every block of the shared arena is that of a tensor that is held. The blocks of the other arena are those of the
      tensors that were allocated there: these are kept. */
  ghost predicate NothingElse(tensors: seq<TensorInfo>, m: Memory, held: set<int>, ever: set<int>) {
    && |m.allocs| == |tensors|
    && (forall t :: t in ever && 0 <= t < |tensors| && tensors[t].placement == ArenaRwPersistent ==>
          tensors[t].bytes == 0 || m.allocs[t] in m.persistent)
    && (forall b :: b in m.arena ==> exists t :: HasBlock(tensors, m, t, ArenaRw, b) && t in held)
    && (forall b :: b in m.persistent ==> exists t :: HasBlock(tensors, m, t, ArenaRwPersistent, b) && t in ever)
  }

  ghost predicate HasBlock(tensors: seq<TensorInfo>, m: Memory, t: int, p: Placement, b: ArenaAlloc) {
    0 <= t < |tensors| == |m.allocs| && tensors[t].placement == p && tensors[t].bytes > 0 && m.allocs[t] == b
  }

  lemma AllocateAddsOne(tensors: seq<TensorInfo>, alignment: nat, m: Memory, held: set<int>, ever: set<int>, t: int)
    requires 0 < alignment <= DEFAULT_ARENA_ALIGNMENT && 0 <= t < |tensors| && t !in ever && held <= ever
    requires Layout(m.arena) && Layout(m.persistent) && NothingElse(tensors, m, held, ever)
    ensures var r := RunAllocate(tensors, alignment, m, t);
      r.Some? && NothingElse(tensors, r.value, held + {t}, ever + {t})
  {
    AllocateStep(m.arena, alignment, tensors[t].bytes);
    AllocateStep(m.persistent, alignment, tensors[t].bytes);
    var n := RunAllocate(tensors, alignment, m, t).value;
    forall b | b in n.arena
      ensures exists u :: HasBlock(tensors, n, u, ArenaRw, b) && u in held + {t}
    {
      if b in m.arena {
        var u :| HasBlock(tensors, m, u, ArenaRw, b) && u in held;
        assert HasBlock(tensors, n, u, ArenaRw, b);
      } else {
        assert HasBlock(tensors, n, t, ArenaRw, b);
      }
    }
    forall b | b in n.persistent
      ensures exists u :: HasBlock(tensors, n, u, ArenaRwPersistent, b) && u in ever + {t}
    {
      if b in m.persistent {
        var u :| HasBlock(tensors, m, u, ArenaRwPersistent, b) && u in ever;
        assert HasBlock(tensors, n, u, ArenaRwPersistent, b);
      } else {
        assert HasBlock(tensors, n, t, ArenaRwPersistent, b);
      }
    }
  }

  lemma DeallocateTakesOne(tensors: seq<TensorInfo>, m: Memory, held: set<int>, ever: set<int>, t: int)
    requires Sound(tensors, m, held) && t in held && NothingElse(tensors, m, held, ever)
    ensures var r := RunDeallocate(tensors, m, t);
      r.Some? && NothingElse(tensors, r.value, held - {t}, ever)
  {
    assert Housed(tensors, m, t);
    var n := RunDeallocate(tensors, m, t).value;
    if tensors[t].placement == ArenaRw && m.allocs[t].size > 0 {
      DeallocateStep(m.arena, m.allocs[t]);
    }
    forall b | b in n.arena
      ensures exists u :: HasBlock(tensors, n, u, ArenaRw, b) && u in held - {t}
    {
      var u :| HasBlock(tensors, m, u, ArenaRw, b) && u in held;
      assert HasBlock(tensors, n, u, ArenaRw, b);
    }
    forall b | b in n.persistent
      ensures exists u :: HasBlock(tensors, n, u, ArenaRwPersistent, b) && u in ever
    {
      var u :| HasBlock(tensors, m, u, ArenaRwPersistent, b) && u in ever;
      assert HasBlock(tensors, n, u, ArenaRwPersistent, b);
    }
  }

  /** A well-used log leaves no block behind: the shared arena has the blocks of the held tensors and no others. */
  lemma {:induction false} NothingLeaks(tensors: seq<TensorInfo>, alignment: nat, ops: seq<Op>)
    requires 0 < alignment <= DEFAULT_ARENA_ALIGNMENT && WellUsed(tensors, ops)
    ensures var r := RunOps(tensors, alignment, EmptyMemory(tensors), ops);
      r.Some? && NothingElse(tensors, r.value, HeldAfter(ops), EverAllocated(ops))
  {
    if ops != [] {
      var before, op := ops[..|ops| - 1], ops[|ops| - 1];
      WellUsedRuns(tensors, alignment, before);
      NothingLeaks(tensors, alignment, before);
      var m := RunOps(tensors, alignment, EmptyMemory(tensors), before).value;
      if op.Allocate? {
        AllocateAddsOne(tensors, alignment, m, HeldAfter(before), EverAllocated(before), op.tensor);
      } else {
        DeallocateTakesOne(tensors, m, HeldAfter(before), EverAllocated(before), op.tensor);
      }
    }
  }

  /** A tensor keeps its block for the rest of a well-used log. */
  lemma {:induction false} BlocksStay(tensors: seq<TensorInfo>, alignment: nat, p: seq<Op>, ops: seq<Op>, t: int)
    requires 0 < alignment <= DEFAULT_ARENA_ALIGNMENT && WellUsed(tensors, ops) && p <= ops
    requires t in EverAllocated(p) && 0 <= t < |tensors|
    ensures WellUsed(tensors, p) && t in EverAllocated(ops)
    ensures RunOps(tensors, alignment, EmptyMemory(tensors), p).Some?
    ensures RunOps(tensors, alignment, EmptyMemory(tensors), ops).Some?
    ensures var m, n := RunOps(tensors, alignment, EmptyMemory(tensors), p).value,
                        RunOps(tensors, alignment, EmptyMemory(tensors), ops).value;
      |m.allocs| == |n.allocs| == |tensors| && m.allocs[t] == n.allocs[t]
    decreases |ops|
  {
    WellUsedRuns(tensors, alignment, ops);
    if p == ops {
    } else {
      var before, op := ops[..|ops| - 1], ops[|ops| - 1];
      assert p <= before;
      BlocksStay(tensors, alignment, p, before, t);
      WellUsedRuns(tensors, alignment, before);
      var m := RunOps(tensors, alignment, EmptyMemory(tensors), before).value;
      if op.Allocate? {
        AllocateKeepsSound(tensors, alignment, m, HeldAfter(before), op.tensor);
      } else {
        DeallocateKeepsSound(tensors, m, HeldAfter(before), op.tensor);
      }
    }
  }

  lemma {:induction false} HeldWasAllocated(ops: seq<Op>, t: int)
    requires t in HeldAfter(ops)
    ensures Allocate(t) in ops
  {
    var last := ops[|ops| - 1];
    if !(last.Allocate? && last.tensor == t) {
      HeldWasAllocated(ops[..|ops| - 1], t);
    }
  }

  ghost predicate NoneInArenas(tensors: seq<TensorInfo>, ops: seq<Op>) {
    forall t :: Allocate(t) in ops && 0 <= t < |tensors| ==> tensors[t].placement == Elsewhere
  }

  lemma {:induction false} RunsWithoutArenas(tensors: seq<TensorInfo>, alignment: nat, ops: seq<Op>)
    requires 0 < alignment && WellUsed(tensors, ops) && NoneInArenas(tensors, ops)
    ensures RunOps(tensors, alignment, EmptyMemory(tensors), ops) == Some(EmptyMemory(tensors))
  {
    if ops != [] {
      var before, op := ops[..|ops| - 1], ops[|ops| - 1];
      assert ops == before + [op];
      RunsWithoutArenas(tensors, alignment, before);
      if op.Deallocate? {
        HeldWasAllocated(before, op.tensor);
      }
      assert Allocate(op.tensor) in ops;
    }
  }

  /** A well-used log fails exactly if it allocates a tensor in an arena with an alignment above 64. */
  lemma FailsIffOveraligned(tensors: seq<TensorInfo>, alignment: nat, ops: seq<Op>)
    requires 0 < alignment && WellUsed(tensors, ops)
    ensures RunOps(tensors, alignment, EmptyMemory(tensors), ops) == None <==>
      alignment > 64 && exists t :: Allocate(t) in ops && 0 <= t < |tensors| && tensors[t].placement != Elsewhere
  {
    if alignment <= 64 {
      WellUsedRuns(tensors, alignment, ops);
    } else if NoneInArenas(tensors, ops) {
      RunsWithoutArenas(tensors, alignment, ops);
    } else if RunOps(tensors, alignment, EmptyMemory(tensors), ops).Some? {
      var t :| Allocate(t) in ops && 0 <= t < |tensors| && tensors[t].placement != Elsewhere;
      AllocatedArePlaced(tensors, alignment, EmptyMemory(tensors), ops, t);
    }
  }

  // ----- appending allocations and deallocations

  lemma LastApart(ts: seq<int>)
    requires ts != [] && NoDuplicates(ts)
    ensures NoDuplicates(ts[..|ts| - 1]) && ts[|ts| - 1] in ts && ts[|ts| - 1] !in ts[..|ts| - 1]
    ensures forall t :: t in ts <==> t in ts[..|ts| - 1] || t == ts[|ts| - 1]
  {
    assert ts == ts[..|ts| - 1] + [ts[|ts| - 1]];
  }

  lemma AppendAllocate(tensors: seq<TensorInfo>, done: seq<Op>, t: int)
    requires WellUsed(tensors, done) && 0 <= t < |tensors| && t !in EverAllocated(done)
    ensures var log := done + [Allocate(t)];
      && WellUsed(tensors, log)
      && HeldAfter(log) == HeldAfter(done) + {t} && EverAllocated(log) == EverAllocated(done) + {t}
  {
    var log := done + [Allocate(t)];
    assert log[..|log| - 1] == done && log[|log| - 1] == Allocate(t);
  }

  lemma AllocatesLast(done: seq<Op>, ts: seq<int>)
    requires ts != []
    ensures done + Allocates(ts) == done + Allocates(ts[..|ts| - 1]) + [Allocate(ts[|ts| - 1])]
  {
  }

  lemma {:induction false} AppendAllocates(tensors: seq<TensorInfo>, done: seq<Op>, ts: seq<int>)
    requires WellUsed(tensors, done) && NoDuplicates(ts)
    requires forall t :: t in ts ==> 0 <= t < |tensors| && t !in EverAllocated(done)
    ensures var log := done + Allocates(ts);
      && WellUsed(tensors, log)
      && (forall t :: t in HeldAfter(log) <==> t in HeldAfter(done) || t in ts)
      && (forall t :: t in EverAllocated(log) <==> t in EverAllocated(done) || t in ts)
  {
    var log := done + Allocates(ts);
    if ts == [] {
      assert log == done;
    } else {
      var head, last := ts[..|ts| - 1], ts[|ts| - 1];
      LastApart(ts);
      forall t | t in head
        ensures t in ts
      {
      }
      AppendAllocates(tensors, done, head);
      AppendAllocate(tensors, done + Allocates(head), last);
      AllocatesLast(done, ts);
    }
  }

  lemma {:induction false} AppendDeallocates(tensors: seq<TensorInfo>, done: seq<Op>, ts: seq<int>)
    requires WellUsed(tensors, done) && NoDuplicates(ts)
    requires forall t :: t in ts ==> 0 <= t < |tensors| && t in HeldAfter(done)
    ensures var log := done + Deallocates(ts);
      && WellUsed(tensors, log)
      && (forall t :: t in HeldAfter(log) <==> t in HeldAfter(done) && t !in ts)
      && (forall t :: t in EverAllocated(log) <==> t in EverAllocated(done))
  {
    var log := done + Deallocates(ts);
    if ts == [] {
      assert log == done;
    } else {
      var head, last := ts[..|ts| - 1], ts[|ts| - 1];
      LastApart(ts);
      forall t | t in head
        ensures t in ts
      {
      }
      AppendDeallocates(tensors, done, head);
      assert log[..|log| - 1] == done + Deallocates(head) && log[|log| - 1] == Deallocate(last);
    }
  }

  // ----- the log of a whole plan, node by node

  predicate IsTemporary(g: Graph, i: int, t: int) {
    IsNode(g, i) && t in g.nodes[i].temporaries
  }

  /** Temporaries belong to one node each, once, and are no other tensors of the graph. */
  ghost predicate PrivateTemporaries(g: Graph) {
    && (forall i :: IsNode(g, i) ==> NoDuplicates(g.nodes[i].temporaries))
    && (forall i, j, t :: IsTemporary(g, i, t) && IsTemporary(g, j, t) ==> i == j)
    && (forall i, t :: IsTemporary(g, i, t) ==>
          IsTensor(g, t) && t !in AllocatedBefore(g, |g.nodes|) && t !in g.outputs)
    && (forall i, k, t :: IsTemporary(g, i, t) ==> !Consumes(g, k, t))
  }

  ghost function TensorsOf(es: seq<Entry>): seq<int> {
    seq(|es|, k requires 0 <= k < |es| => es[k].tensor)
  }

  /** The allocation entries of node i; those of node 0 start with the inputs and variables of the model. */
  ghost function StageAllocs(g: Graph, o: Options, i: nat): seq<Entry>
    requires IsNode(g, i)
  {
    if i == 0 then Plan(g, o, 0) + NodeAllocs(g, 0) else NodeAllocs(g, i)
  }

  ghost function StageFrees(g: Graph, o: Options, i: nat): seq<Entry>
    requires IsNode(g, i)
  {
    Frees(g, o, i, |g.nodes[i].inputs|)
  }

  /** The log before node i. */
  ghost function LogBefore(g: Graph, o: Options, i: nat): seq<Op>
    requires i <= |g.nodes|
    decreases i, 0
  {
    if i == 0 then []
    else LogAt(g, o, i - 1) + Deallocates(TensorsOf(StageFrees(g, o, i - 1))) + Deallocates(g.nodes[i - 1].temporaries)
  }

  /** The log when node i has everything it needs and has freed nothing yet. */
  ghost function LogAt(g: Graph, o: Options, i: nat): seq<Op>
    requires IsNode(g, i)
    decreases i, 1
  {
    LogBefore(g, o, i) + Allocates(g.nodes[i].temporaries) + Allocates(TensorsOf(StageAllocs(g, o, i)))
  }

  lemma StageEntries(g: Graph, o: Options, i: nat)
    requires IsNode(g, i)
    ensures forall e :: e in StageAllocs(g, o, i) ==> e.kind == Alloc && e.node == i
    ensures forall e :: e in StageFrees(g, o, i) ==> e.kind == Dealloc && e.node == i && FreedBy(g, o, i, e.tensor)
    ensures forall t :: FreedBy(g, o, i, t) ==> Entry(i, t, Dealloc) in StageFrees(g, o, i)
  {
    forall e
      ensures e in StageAllocs(g, o, i) ==> e.kind == Alloc && e.node == i
    {
      NewAllocsContents(0, g.inputs + g.variables, {}, e);
      NewAllocsContents(i, g.nodes[i].outputs, AllocatedBefore(g, i), e);
    }
    forall e
      ensures e in StageFrees(g, o, i) <==> e.kind == Dealloc && e.node == i && FreedBy(g, o, i, e.tensor)
    {
      NodePlanContents(g, o, i, e);
      FreesContents(g, o, i, |g.nodes[i].inputs|, e);
      NewAllocsContents(i, g.nodes[i].outputs, AllocatedBefore(g, i), e);
    }
  }

  lemma InTensorsOf(es: seq<Entry>, t: int)
    ensures t in TensorsOf(es) <==> exists e :: e in es && e.tensor == t
  {
    if t in TensorsOf(es) {
      var k :| 0 <= k < |es| && TensorsOf(es)[k] == t;
      assert es[k] in es;
    }
    if exists e :: e in es && e.tensor == t {
      var e :| e in es && e.tensor == t;
      var k :| 0 <= k < |es| && es[k] == e;
      assert TensorsOf(es)[k] == t;
    }
  }

  /** The allocations of node i are for different tensors. */
  lemma StageAllocsOnce(g: Graph, o: Options, i: nat)
    requires IsNode(g, i)
    ensures NoDuplicates(TensorsOf(StageAllocs(g, o, i)))
  {
    NewAllocsOnce(i, g.nodes[i].outputs, AllocatedBefore(g, i));
    if i == 0 {
      var first, second := Plan(g, o, 0), NodeAllocs(g, 0);
      NewAllocsOnce(0, g.inputs + g.variables, {});
      forall a, b | 0 <= a < |first| && 0 <= b < |second|
        ensures first[a].tensor != second[b].tensor
      {
        assert first[a] in first && second[b] in second;
        NewAllocsContents(0, g.inputs + g.variables, {}, first[a]);
        NewAllocsContents(0, g.nodes[0].outputs, AllocatedBefore(g, 0), second[b]);
      }
    }
  }

  /** Node i allocates what is allocated by its end and, unless it is the first, was not before. */
  lemma StageAllocsNew(g: Graph, o: Options, i: nat, t: int)
    requires IsNode(g, i)
    ensures t in TensorsOf(StageAllocs(g, o, i)) <==>
      t in AllocatedBefore(g, i + 1) && (i == 0 || t !in AllocatedBefore(g, i))
  {
    StageEntries(g, o, i);
    InTensorsOf(StageAllocs(g, o, i), t);
    assert t in TensorsOf(StageAllocs(g, o, i)) <==> Entry(i, t, Alloc) in StageAllocs(g, o, i);
    NewAllocsContents(i, g.nodes[i].outputs, AllocatedBefore(g, i), Entry(i, t, Alloc));
    if i == 0 {
      NewAllocsContents(0, g.inputs + g.variables, {}, Entry(0, t, Alloc));
    }
  }

  lemma StageFreesOnce(g: Graph, o: Options, i: nat)
    requires IsNode(g, i)
    ensures NoDuplicates(TensorsOf(StageFrees(g, o, i)))
    ensures forall t :: t in TensorsOf(StageFrees(g, o, i)) <==> FreedBy(g, o, i, t)
  {
    FreesOnce(g, o, i, |g.nodes[i].inputs|);
    StageEntries(g, o, i);
    forall t
      ensures t in TensorsOf(StageFrees(g, o, i)) <==> FreedBy(g, o, i, t)
    {
      InTensorsOf(StageFrees(g, o, i), t);
    }
  }

  ghost predicate FreedBefore(g: Graph, o: Options, i: int, t: int) {
    exists k :: 0 <= k < i && FreedBy(g, o, k, t)
  }

  ghost predicate TemporaryBefore(g: Graph, i: int, t: int) {
    exists k :: 0 <= k < i && IsTemporary(g, k, t)
  }

  /** Tensor t is held before node i if and only if it is live there. */
  ghost predicate HeldBefore(g: Graph, o: Options, i: nat, t: int)
    requires i <= |g.nodes|
  {
    && (t in HeldAfter(LogBefore(g, o, i)) <==> i > 0 && t in AllocatedBefore(g, i) && !FreedBefore(g, o, i, t))
    && (t in EverAllocated(LogBefore(g, o, i)) <==> (i > 0 && t in AllocatedBefore(g, i)) || TemporaryBefore(g, i, t))
  }

  /** Tensor t is held when node i runs if and only if it is live then. */
  ghost predicate HeldAt(g: Graph, o: Options, i: nat, t: int)
    requires IsNode(g, i)
  {
    && (t in HeldAfter(LogAt(g, o, i)) <==>
        (t in AllocatedBefore(g, i + 1) && !FreedBefore(g, o, i, t)) || IsTemporary(g, i, t))
    && (t in EverAllocated(LogAt(g, o, i)) <==> t in AllocatedBefore(g, i + 1) || TemporaryBefore(g, i + 1, t))
  }

  ghost predicate BeforeInv(g: Graph, o: Options, tensors: seq<TensorInfo>, i: nat)
    requires i <= |g.nodes|
  {
    WellUsed(tensors, LogBefore(g, o, i)) && forall t :: HeldBefore(g, o, i, t)
  }

  ghost predicate AtInv(g: Graph, o: Options, tensors: seq<TensorInfo>, i: nat)
    requires IsNode(g, i)
  {
    WellUsed(tensors, LogAt(g, o, i)) && forall t :: HeldAt(g, o, i, t)
  }

  lemma AllocatedAreTensors(g: Graph, i: nat, t: int)
    requires MemoryPlan.ValidGraph(g) && i <= |g.nodes| && t in AllocatedBefore(g, i)
    ensures IsTensor(g, t)
  {
    if i > 0 {
      if t in AllocatedBefore(g, i - 1) {
        AllocatedAreTensors(g, i - 1, t);
      } else {
        assert Produces(g, i - 1, t);
      }
    }
  }

  lemma AllocatedNotTemporary(g: Graph, i: nat, k: int, t: int)
    requires PrivateTemporaries(g) && i <= |g.nodes| && t in AllocatedBefore(g, i)
    ensures !IsTemporary(g, k, t)
  {
    AllocatedGrows(g, i, |g.nodes|);
  }

  /** A temporary of node i was never allocated before. */
  lemma TemporariesClear(g: Graph, o: Options, i: nat, t: int)
    requires PrivateTemporaries(g) && IsTemporary(g, i, t) && HeldBefore(g, o, i, t)
    ensures IsTensor(g, t) && t !in EverAllocated(LogBefore(g, o, i))
  {
    if t in AllocatedBefore(g, i) { AllocatedNotTemporary(g, i, i, t); }
  }

  lemma TemporaryStep(g: Graph, i: nat, t: int)
    requires IsNode(g, i)
    ensures TemporaryBefore(g, i + 1, t) <==> TemporaryBefore(g, i, t) || t in g.nodes[i].temporaries
  {
    assert IsTemporary(g, i, t) <==> t in g.nodes[i].temporaries;
  }

  lemma FreedStep(g: Graph, o: Options, i: nat, t: int)
    ensures FreedBefore(g, o, i + 1, t) <==> FreedBefore(g, o, i, t) || FreedBy(g, o, i, t)
  {
  }

  /** What was freed was allocated, and nobody uses it any more. */
  lemma FreedIsDead(g: Graph, o: Options, i: nat, t: int)
    requires FreedBefore(g, o, i, t) && i <= |g.nodes|
    ensures i > 0 && t in AllocatedBefore(g, i) && !ConsumedFrom(g, i, t)
    ensures !o.preserveIntermediates && !Pinned(g, o, t)
  {
    var k :| 0 <= k < i && FreedBy(g, o, k, t);
    AllocatedGrows(g, k + 1, i);
  }

  /** What node i allocates is no temporary and was not allocated before. */
  lemma NewsClear(g: Graph, o: Options, i: nat, t: int)
    requires MemoryPlan.ValidGraph(g) && PrivateTemporaries(g) && IsNode(g, i) && t in TensorsOf(StageAllocs(g, o, i))
    requires HeldBefore(g, o, i, t)
    ensures IsTensor(g, t) && t !in EverAllocated(LogBefore(g, o, i)) && !IsTemporary(g, i, t)
  {
    StageAllocsNew(g, o, i, t);
    AllocatedAreTensors(g, i + 1, t);
    forall k
      ensures !IsTemporary(g, k, t)
    {
      AllocatedNotTemporary(g, i + 1, k, t);
    }
  }

  lemma AllocateStage(g: Graph, o: Options, tensors: seq<TensorInfo>, i: nat)
    requires MemoryPlan.ValidGraph(g) && PrivateTemporaries(g) && |tensors| == g.numTensors && IsNode(g, i)
    requires BeforeInv(g, o, tensors, i)
    ensures var log := LogAt(g, o, i); var news := TensorsOf(StageAllocs(g, o, i));
      && WellUsed(tensors, log)
      && (forall t :: t in HeldAfter(log) <==>
            t in HeldAfter(LogBefore(g, o, i)) || t in g.nodes[i].temporaries || t in news)
      && (forall t :: t in EverAllocated(log) <==>
            t in EverAllocated(LogBefore(g, o, i)) || t in g.nodes[i].temporaries || t in news)
  {
    var before, temps, news := LogBefore(g, o, i), g.nodes[i].temporaries, TensorsOf(StageAllocs(g, o, i));
    forall t | t in temps
      ensures 0 <= t < |tensors| && t !in EverAllocated(before)
    {
      assert IsTemporary(g, i, t) && HeldBefore(g, o, i, t);
      TemporariesClear(g, o, i, t);
    }
    AppendAllocates(tensors, before, temps);
    StageAllocsOnce(g, o, i);
    forall t | t in news
      ensures 0 <= t < |tensors| && t !in EverAllocated(before) && t !in temps
    {
      assert HeldBefore(g, o, i, t);
      NewsClear(g, o, i, t);
    }
    AppendAllocates(tensors, before + Allocates(temps), news);
  }

  lemma BeforeToAt(g: Graph, o: Options, tensors: seq<TensorInfo>, i: nat)
    requires MemoryPlan.ValidGraph(g) && PrivateTemporaries(g) && |tensors| == g.numTensors && IsNode(g, i)
    requires BeforeInv(g, o, tensors, i)
    ensures AtInv(g, o, tensors, i)
  {
    AllocateStage(g, o, tensors, i);
    AllocatedGrows(g, i, i + 1);
    forall t
      ensures HeldAt(g, o, i, t)
    {
      assert HeldBefore(g, o, i, t);
      StageAllocsNew(g, o, i, t);
      TemporaryStep(g, i, t);
      if FreedBefore(g, o, i, t) { FreedIsDead(g, o, i, t); }
    }
  }

  lemma FreesClear(g: Graph, o: Options, i: nat, t: int)
    requires MemoryPlan.ValidGraph(g) && PrivateTemporaries(g) && IsNode(g, i) && FreedBy(g, o, i, t)
    requires HeldAt(g, o, i, t)
    ensures IsTensor(g, t) && t in HeldAfter(LogAt(g, o, i)) && !IsTemporary(g, i, t)
  {
    AllocatedAreTensors(g, i + 1, t);
    AllocatedNotTemporary(g, i + 1, i, t);
    if FreedBefore(g, o, i, t) { FreedIsDead(g, o, i, t); }
  }

  /** The log when node i has freed the tensors that die at it, and only its temporaries are still to be freed. */
  ghost function LogFreed(g: Graph, o: Options, i: nat): seq<Op>
    requires IsNode(g, i)
  {
    LogAt(g, o, i) + Deallocates(TensorsOf(StageFrees(g, o, i)))
  }

  lemma FreedStage(g: Graph, o: Options, tensors: seq<TensorInfo>, i: nat)
    requires MemoryPlan.ValidGraph(g) && PrivateTemporaries(g) && |tensors| == g.numTensors && IsNode(g, i)
    requires AtInv(g, o, tensors, i)
    ensures WellUsed(tensors, LogFreed(g, o, i))
    ensures forall t :: t in HeldAfter(LogFreed(g, o, i)) <==>
      t in HeldAfter(LogAt(g, o, i)) && t !in TensorsOf(StageFrees(g, o, i))
    ensures forall t :: t in EverAllocated(LogFreed(g, o, i)) <==> t in EverAllocated(LogAt(g, o, i))
    ensures forall t :: t in g.nodes[i].temporaries ==> 0 <= t < |tensors| && t in HeldAfter(LogFreed(g, o, i))
  {
    var at, temps, freed := LogAt(g, o, i), g.nodes[i].temporaries, TensorsOf(StageFrees(g, o, i));
    StageFreesOnce(g, o, i);
    forall t | t in freed
      ensures 0 <= t < |tensors| && t in HeldAfter(at) && t !in temps
    {
      assert HeldAt(g, o, i, t);
      FreesClear(g, o, i, t);
    }
    AppendDeallocates(tensors, at, freed);
    forall t | t in temps
      ensures 0 <= t < |tensors| && t in HeldAfter(at + Deallocates(freed))
    {
      assert IsTemporary(g, i, t) && HeldAt(g, o, i, t);
    }
  }

  lemma FreeStage(g: Graph, o: Options, tensors: seq<TensorInfo>, i: nat)
    requires MemoryPlan.ValidGraph(g) && PrivateTemporaries(g) && |tensors| == g.numTensors && IsNode(g, i)
    requires AtInv(g, o, tensors, i)
    ensures var log := LogBefore(g, o, i + 1); var freed := TensorsOf(StageFrees(g, o, i));
      && WellUsed(tensors, log)
      && (forall t :: t in HeldAfter(log) <==>
            t in HeldAfter(LogAt(g, o, i)) && t !in freed && t !in g.nodes[i].temporaries)
      && (forall t :: t in EverAllocated(log) <==> t in EverAllocated(LogAt(g, o, i)))
  {
    FreedStage(g, o, tensors, i);
    AppendDeallocates(tensors, LogFreed(g, o, i), g.nodes[i].temporaries);
  }

  lemma AtToBefore(g: Graph, o: Options, tensors: seq<TensorInfo>, i: nat)
    requires MemoryPlan.ValidGraph(g) && PrivateTemporaries(g) && |tensors| == g.numTensors && IsNode(g, i)
    requires AtInv(g, o, tensors, i)
    ensures BeforeInv(g, o, tensors, i + 1)
  {
    FreeStage(g, o, tensors, i);
    StageFreesOnce(g, o, i);
    var next := i + 1;
    forall t
      ensures HeldBefore(g, o, next, t)
    {
      assert HeldAt(g, o, i, t);
      FreedStep(g, o, i, t);
      if t in AllocatedBefore(g, i + 1) { AllocatedNotTemporary(g, i + 1, i, t); }
    }
  }

  lemma NothingBeforeFirst(g: Graph, o: Options, tensors: seq<TensorInfo>)
    ensures BeforeInv(g, o, tensors, 0)
  {
    forall t: int
      ensures HeldBefore(g, o, 0, t)
    {
    }
  }

  lemma NodeStep(g: Graph, o: Options, tensors: seq<TensorInfo>, i: nat, next: nat)
    requires MemoryPlan.ValidGraph(g) && PrivateTemporaries(g) && |tensors| == g.numTensors
    requires IsNode(g, i) && next == i + 1 && BeforeInv(g, o, tensors, i)
    ensures BeforeInv(g, o, tensors, next)
  {
    BeforeToAt(g, o, tensors, i);
    AtToBefore(g, o, tensors, i);
  }

  /** The whole log is well used, and what is held before each node is what is live there. */
  lemma {:induction false} LogsAreSound(g: Graph, o: Options, tensors: seq<TensorInfo>, i: nat)
    requires MemoryPlan.ValidGraph(g) && PrivateTemporaries(g) && |tensors| == g.numTensors && i <= |g.nodes|
    ensures BeforeInv(g, o, tensors, i)
  {
    if i == 0 {
      NothingBeforeFirst(g, o, tensors);
    } else {
      LogsAreSound(g, o, tensors, i - 1);
      NodeStep(g, o, tensors, i - 1, i);
    }
  }

  lemma {:induction false} AtIsPrefix(g: Graph, o: Options, i: nat, n: nat)
    requires i < n <= |g.nodes|
    ensures LogAt(g, o, i) <= LogBefore(g, o, n)
    decreases n
  {
    var k := n - 1;
    if i < k {
      AtIsPrefix(g, o, i, k);
      BeforeIsPrefix(g, o, k);
    }
    NodeIsPrefix(g, o, k, n);
  }

  lemma BeforeIsPrefix(g: Graph, o: Options, k: nat)
    requires k < |g.nodes|
    ensures LogBefore(g, o, k) <= LogAt(g, o, k)
  {
  }

  lemma NodeIsPrefix(g: Graph, o: Options, k: nat, n: nat)
    requires n == k + 1 <= |g.nodes|
    ensures LogAt(g, o, k) <= LogBefore(g, o, n)
  {
  }

  // ----- the replay of the plan is that log

  lemma {:induction false} EntryOpsOfMatching(es: seq<Entry>, i: int, done: seq<Op>)
    requires forall e :: e in es ==> e.node == i
    ensures (forall e :: e in es ==> e.kind == Alloc) ==> EntryOps(es, i, done) == done + Allocates(TensorsOf(es))
    ensures (forall e :: e in es ==> e.kind == Dealloc) ==> EntryOps(es, i, done) == done + Deallocates(TensorsOf(es))
  {
    if es != [] {
      assert es[0] in es;
      var op := OpOf(es[0]);
      EntryOpsOfMatching(es[1..], i, done + [op]);
      if es[0].kind == Alloc {
        assert Allocates(TensorsOf(es)) == [op] + Allocates(TensorsOf(es[1..]));
      } else {
        assert Deallocates(TensorsOf(es)) == [op] + Deallocates(TensorsOf(es[1..]));
      }
    }
  }

  lemma {:induction false} EntryOpsAppend(a: seq<Entry>, b: seq<Entry>, i: int, done: seq<Op>)
    ensures EntryOps(a + b, i, done) == EntryOps(b, i, EntryOps(a, i, done))
  {
    if a == [] {
      assert a + b == b;
    } else {
      assert (a + b)[0] == a[0] && (a + b)[1..] == a[1..] + b;
      EntryOpsAppend(a[1..], b, i, if a[0].node == i then done + [OpOf(a[0])] else done);
    }
  }

  lemma NoOpsOfOthers(es: seq<Entry>, i: int, done: seq<Op>)
    requires forall e :: e in es ==> e.node != i
    ensures EntryOps(es, i, done) == done
  {
    assert forall k :: 0 <= k < |es| ==> es[k] in es;
    NoEntryOps(es, i, done);
  }

  /** What the queue before node m adds to the log for an earlier node i. */
  lemma {:induction false} EntryOpsOfPlan(g: Graph, o: Options, m: nat, i: nat, done: seq<Op>)
    requires i < m <= |g.nodes|
    ensures EntryOps(Plan(g, o, m), i, done) ==
      done + Allocates(TensorsOf(StageAllocs(g, o, i))) + Deallocates(TensorsOf(StageFrees(g, o, i)))
    decreases m
  {
    var k := m - 1;
    EntryOpsAppend(Plan(g, o, k), NodePlan(g, o, k), i, done);
    if k == i {
      EntryOpsOfStage(g, o, i, done);
    } else {
      EntryOpsOfPlan(g, o, k, i, done);
      forall e | e in NodePlan(g, o, k)
        ensures e.node != i
      {
        NodePlanContents(g, o, k, e);
      }
      NoOpsOfOthers(NodePlan(g, o, k), i, EntryOps(Plan(g, o, k), i, done));
    }
  }

  lemma EntryOpsOfStage(g: Graph, o: Options, i: nat, done: seq<Op>)
    requires IsNode(g, i)
    ensures EntryOps(NodePlan(g, o, i), i, EntryOps(Plan(g, o, i), i, done)) ==
      done + Allocates(TensorsOf(StageAllocs(g, o, i))) + Deallocates(TensorsOf(StageFrees(g, o, i)))
  {
    StageEntries(g, o, i);
    var before := EntryOps(Plan(g, o, i), i, done);
    EntryOpsAppend(NodeAllocs(g, i), StageFrees(g, o, i), i, before);
    if i == 0 {
      EntryOpsAppend(Plan(g, o, 0), NodeAllocs(g, 0), 0, done);
    } else {
      forall e | e in Plan(g, o, i)
        ensures e.node != i
      {
        PlanTensorsAllocated(g, o, i, e);
      }
      NoOpsOfOthers(Plan(g, o, i), i, done);
    }
    EntryOpsOfMatching(StageAllocs(g, o, i), i, done);
    EntryOpsOfMatching(StageFrees(g, o, i), i, done + Allocates(TensorsOf(StageAllocs(g, o, i))));
  }

  lemma NodeOpsOfPlan(g: Graph, o: Options, i: nat, next: nat)
    requires IsNode(g, i) && next == i + 1
    ensures NodeOps(NodeTemporaries(g), Plan(g, o, |g.nodes|), i, LogBefore(g, o, i)) == LogBefore(g, o, next)
  {
    EntryOpsOfPlan(g, o, |g.nodes|, i, LogBefore(g, o, i) + Allocates(g.nodes[i].temporaries));
  }

  /** This is the log before node i. */
  ghost predicate Logged(g: Graph, o: Options, i: nat, log: seq<Op>) {
    i <= |g.nodes| && forall n: nat :: n == i && n <= |g.nodes| ==> log == LogBefore(g, o, n)
  }

  lemma LoggedNext(g: Graph, o: Options, i: nat, next: nat, log: seq<Op>)
    requires IsNode(g, i) && next == i + 1 && Logged(g, o, i, log)
    ensures Logged(g, o, next, NodeOps(NodeTemporaries(g), Plan(g, o, |g.nodes|), i, log))
  {
    assert log == LogBefore(g, o, i);
    NodeOpsOfPlan(g, o, i, next);
  }

  lemma {:induction false} NodewiseIsLogged(g: Graph, o: Options, hi: nat)
    requires hi <= |g.nodes|
    ensures Logged(g, o, hi, Nodewise(NodeTemporaries(g), Plan(g, o, |g.nodes|), 0, hi, []))
  {
    var temps, q := NodeTemporaries(g), Plan(g, o, |g.nodes|);
    if hi > 0 {
      var before := Nodewise(temps, q, 0, hi - 1, []);
      NodewiseIsLogged(g, o, hi - 1);
      LoggedNext(g, o, hi - 1, hi, before);
      NodewiseNext(temps, q, hi - 1, hi, before, NodeOps(temps, q, hi - 1, before));
    }
  }

  lemma NodewiseIsLog(g: Graph, o: Options, hi: nat)
    requires hi <= |g.nodes|
    ensures Nodewise(NodeTemporaries(g), Plan(g, o, |g.nodes|), 0, hi, []) == LogBefore(g, o, hi)
  {
    NodewiseIsLogged(g, o, hi);
  }

  /** The replay serves all temporaries: no node from the one before a node without entries on has any. */
  ghost predicate TemporariesServed(g: Graph, o: Options) {
    GapsQuiet(NodeTemporaries(g), Plan(g, o, |g.nodes|))
  }

  /** A node has an entry exactly if it allocates or frees a tensor. */
  lemma EntryIffPlanned(g: Graph, o: Options, i: int)
    ensures HasEntry(Plan(g, o, |g.nodes|), i) <==> exists t :: AllocatedAt(g, i, t) || FreedBy(g, o, i, t)
  {
    var q := Plan(g, o, |g.nodes|);
    if HasEntry(q, i) {
      var k :| 0 <= k < |q| && q[k].node == i;
      assert q[k] in q;
      PlanExact(g, o, q[k]);
    }
    if exists t :: AllocatedAt(g, i, t) || FreedBy(g, o, i, t) {
      var t :| AllocatedAt(g, i, t) || FreedBy(g, o, i, t);
      var e := Entry(i, t, if AllocatedAt(g, i, t) then Alloc else Dealloc);
      PlanExact(g, o, e);
      var k :| 0 <= k < |q| && q[k] == e;
    }
  }

  lemma PlanIsOrdered(g: Graph, o: Options)
    ensures Ordered(Plan(g, o, |g.nodes|))
  {
    forall a, b | 0 <= a < b < |Plan(g, o, |g.nodes|)|
      ensures Plan(g, o, |g.nodes|)[a].node <= Plan(g, o, |g.nodes|)[b].node
    {
      PlanOrdered(g, o, |g.nodes|, a, b);
    }
  }

  /** Planning once and replaying over any consecutive intervals issues exactly that log. */
  lemma IncrementalReplayIsLog(g: Graph, o: Options, cuts: seq<int>)
    requires TemporariesServed(g, o) && Cuts(cuts, |g.nodes|)
    ensures ReplayCuts(NodeTemporaries(g), Plan(g, o, |g.nodes|), cuts) == LogBefore(g, o, |g.nodes|)
  {
    PlanIsOrdered(g, o);
    QuietReplayIsNodewise(NodeTemporaries(g), Plan(g, o, |g.nodes|), cuts);
    NodewiseIsLog(g, o, |g.nodes|);
  }

  /** One call over all nodes issues that log, too. */
  lemma FullReplayIsLog(g: Graph, o: Options)
    requires TemporariesServed(g, o) && g.nodes != []
    ensures ReplayCall(NodeTemporaries(g), Plan(g, o, |g.nodes|), 0, |g.nodes| - 1, []) == LogBefore(g, o, |g.nodes|)
  {
    OneShotIsOneCut(NodeTemporaries(g), Plan(g, o, |g.nodes|), |g.nodes|);
    IncrementalReplayIsLog(g, o, [0, |g.nodes|]);
  }

  /** The exact conditions for the plan of any graph: splits do not matter if and only if the gaps are harmless, and
      every choice of intervals issues the log node by node if and only if all temporaries are served. */
  lemma SplitsOfPlans(g: Graph, o: Options)
    ensures SplitsDoNotMatter(NodeTemporaries(g), Plan(g, o, |g.nodes|)) <==>
      GapsHarmless(NodeTemporaries(g), Plan(g, o, |g.nodes|))
    ensures (forall cuts :: Cuts(cuts, |g.nodes|) ==>
      ReplayCuts(NodeTemporaries(g), Plan(g, o, |g.nodes|), cuts) == LogBefore(g, o, |g.nodes|)) <==>
        TemporariesServed(g, o)
  {
    var q := Plan(g, o, |g.nodes|);
    PlanIsOrdered(g, o);
    forall k | 0 <= k < |q|
      ensures 0 <= q[k].node
    {
      assert q[k] in q;
      PlanExact(g, o, q[k]);
    }
    SplitsDoNotMatterIffGapsHarmless(NodeTemporaries(g), q);
    ReplaysAreNodewiseIffGapsQuiet(NodeTemporaries(g), q);
    NodewiseIsLog(g, o, |g.nodes|);
  }

  /** No call that starts at or before a node without an entry allocates the temporaries of that node or a later one. */
  lemma NotServedPastGap(g: Graph, o: Options, first: int, last: int, s: int, i: int, t: int)
    requires PrivateTemporaries(g) && first <= s <= i && !HasEntry(Plan(g, o, |g.nodes|), s) && IsTemporary(g, i, t)
    ensures Allocate(t) !in ReplayCall(NodeTemporaries(g), Plan(g, o, |g.nodes|), first, last, [])
  {
    var temps, q := NodeTemporaries(g), Plan(g, o, |g.nodes|);
    if Allocate(t) in ReplayCall(temps, q, first, last, []) {
      NothingAllocatedPastGap(temps, q, first, last, first, s, [], t);
      if TemporaryOf(temps, first, s, t) {
        var k :| first <= k < s && t in Temporaries(temps, k);
        assert IsTemporary(g, k, t);
      } else {
        var e :| e in q && OpOf(e) == Allocate(t);
        PlanTensorsAllocated(g, o, |g.nodes|, e);
      }
    }
  }

  /** Node 1 reads a model output and writes nothing. */
  function GapGraph(): Graph {
    Graph(3, [Node([], [0], [1]), Node([0], [], [2])], [], [0], [])
  }

  lemma GapGraphIsValid()
    ensures MemoryPlan.ValidGraph(GapGraph()) && SingleProducer(GapGraph())
  {
  }

  lemma GapGraphTemporaries()
    ensures PrivateTemporaries(GapGraph())
  {
    var g := GapGraph();
    assert AllocatedBefore(g, 2) == {0} by {
      assert AllocatedBefore(g, 0) == {};
      assert AllocatedBefore(g, 1) == {0};
    }
    forall i, t
      ensures IsTemporary(g, i, t) <==> (i == 0 && t == 1) || (i == 1 && t == 2)
    {
    }
  }

  lemma GapGraphHasGap(o: Options)
    ensures !HasEntry(Plan(GapGraph(), o, 2), 1)
  {
    var g := GapGraph();
    EntryIffPlanned(g, o, 1);
    forall t
      ensures !AllocatedAt(g, 1, t) && !FreedBy(g, o, 1, t)
    {
    }
  }

  /** A graph for which splits do matter, whatever the options: the gap at node 1 is not harmless, as the temporary
      of node 0 is freed once more by a call that starts at node 1. */
  lemma SplitsMatterForAGraph(o: Options)
    ensures !SplitsDoNotMatter(NodeTemporaries(GapGraph()), Plan(GapGraph(), o, 2))
  {
    var temps := NodeTemporaries(GapGraph());
    GapGraphHasGap(o);
    SplitsOfPlans(GapGraph(), o);
    assert Temporaries(temps, 0) == [1];
    assert !HarmlessGap(temps, Plan(GapGraph(), o, 2), 1);
  }

  // ----- the result

  /** When node i runs, tensor t is held: it is allocated by then and not freed before. */
  ghost predicate LiveAt(g: Graph, o: Options, i: nat, t: int)
    requires IsNode(g, i)
  {
    (t in AllocatedBefore(g, i + 1) && !FreedBefore(g, o, i, t)) || IsTemporary(g, i, t)
  }

  ghost predicate HoldsLive(g: Graph, o: Options, log: seq<Op>, i: nat)
    requires IsNode(g, i)
  {
    forall t :: LiveAt(g, o, i, t) ==> t in HeldAfter(log)
  }

  /** After some beginning of the log, all tensors that are live at node i are held. */
  ghost predicate ServesNode(g: Graph, o: Options, log: seq<Op>, i: nat)
    requires IsNode(g, i)
  {
    exists p: seq<Op> :: p <= log && HoldsLive(g, o, p, i)
  }

  /** The log is well used and serves all nodes. */
  ghost predicate ServesGraph(g: Graph, o: Options, tensors: seq<TensorInfo>, log: seq<Op>) {
    WellUsed(tensors, log) && forall i: nat :: IsNode(g, i) ==> ServesNode(g, o, log, i)
  }

  lemma LogAtHoldsLive(g: Graph, o: Options, tensors: seq<TensorInfo>, i: nat)
    requires MemoryPlan.ValidGraph(g) && PrivateTemporaries(g) && |tensors| == g.numTensors && IsNode(g, i)
    ensures AtInv(g, o, tensors, i) && HoldsLive(g, o, LogAt(g, o, i), i)
  {
    LogsAreSound(g, o, tensors, i);
    BeforeToAt(g, o, tensors, i);
    forall t | LiveAt(g, o, i, t)
      ensures t in HeldAfter(LogAt(g, o, i))
    {
      assert HeldAt(g, o, i, t);
    }
  }

  /** The log node by node serves the graph. */
  lemma LogServesGraph(g: Graph, o: Options, tensors: seq<TensorInfo>)
    requires MemoryPlan.ValidGraph(g) && PrivateTemporaries(g) && |tensors| == g.numTensors
    ensures ServesGraph(g, o, tensors, LogBefore(g, o, |g.nodes|))
  {
    LogsAreSound(g, o, tensors, |g.nodes|);
    forall i: nat | IsNode(g, i)
      ensures ServesNode(g, o, LogBefore(g, o, |g.nodes|), i)
    {
      LogAtHoldsLive(g, o, tensors, i);
      AtIsPrefix(g, o, i, |g.nodes|);
    }
  }

  lemma {:induction false} WellUsedPrefix(tensors: seq<TensorInfo>, p: seq<Op>, ops: seq<Op>)
    requires WellUsed(tensors, ops) && p <= ops
    ensures WellUsed(tensors, p)
    decreases |ops|
  {
    if p != ops {
      assert p <= ops[..|ops| - 1];
      WellUsedPrefix(tensors, p, ops[..|ops| - 1]);
    }
  }

  /** Running a log that serves the graph places, at every node, all tensors that are live there apart from each
      other. The places are those that the whole log ends with, so sharing over time does not break it. */
  lemma LiveTensorsApart(g: Graph, o: Options, tensors: seq<TensorInfo>, alignment: nat, log: seq<Op>, i: nat,
                         a: int, b: int)
    requires ServesGraph(g, o, tensors, log) && |tensors| == g.numTensors
    requires 0 < alignment <= DEFAULT_ARENA_ALIGNMENT && IsNode(g, i) && LiveAt(g, o, i, a) && LiveAt(g, o, i, b)
    ensures var r := RunOps(tensors, alignment, EmptyMemory(tensors), log);
      && r.Some? && |r.value.allocs| == |tensors| && IsTensor(g, a) && IsTensor(g, b)
      && (tensors[a].placement != Elsewhere ==> r.value.allocs[a].size == tensors[a].bytes)
      && Apart(tensors, r.value, a, b)
  {
    assert ServesNode(g, o, log, i);
    var p: seq<Op> :| p <= log && HoldsLive(g, o, p, i);
    WellUsedPrefix(tensors, p, log);
    WellUsedRuns(tensors, alignment, p);
    WellUsedRuns(tensors, alignment, log);
    var m := RunOps(tensors, alignment, EmptyMemory(tensors), p).value;
    assert Housed(tensors, m, a) && Housed(tensors, m, b) && Apart(tensors, m, a, b);
    BlocksStay(tensors, alignment, p, log, a);
    BlocksStay(tensors, alignment, p, log, b);
  }
}
