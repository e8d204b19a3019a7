/** The arena planner: plans the lifetimes of all tensors, then replays the plan against the arenas. The replay
    may be split into calls over consecutive intervals of nodes. */
module Planner {
  import opened Sequences
  import opened Wrappers
  import opened GraphInfo
  import opened MemoryPlan
  import opened Arena
  import opened Replay
  import opened ArenaMemory

  ghost predicate Marks(g: Graph, hasAlloc: seq<bool>, s: set<int>) {
    |hasAlloc| == g.numTensors && forall t :: IsTensor(g, t) ==> hasAlloc[t] == (t in s)
  }

  /** Adds one reference for each tensor of the list that is present. */
  method CountAll(g: Graph, refcounts: seq<int>, ts: seq<int>) returns (r: seq<int>)
    requires |refcounts| == g.numTensors
    requires forall t :: t in ts ==> t == OPTIONAL_TENSOR || IsTensor(g, t)
    ensures |r| == g.numTensors && forall t :: IsTensor(g, t) ==> r[t] == refcounts[t] + Count(ts, t)
  {
    r := refcounts;
    for j := 0 to |ts|
      invariant |r| == g.numTensors
      invariant forall t :: IsTensor(g, t) ==> r[t] + Count(ts[j..], t) == refcounts[t] + Count(ts, t)
    {
      assert ts[j..][1..] == ts[j + 1..];
      assert ts[j] in ts;
      if ts[j] != OPTIONAL_TENSOR {
        r := r[ts[j] := r[ts[j]] + 1];
      }
    }
  }

  /** The table of blocks, with empty ones added up to n. */
  function Grown(allocs: seq<ArenaAlloc>, n: nat): (r: seq<ArenaAlloc>)
    requires |allocs| <= n
    ensures |r| == n && r[..|allocs|] == allocs
  {
    allocs + seq(n - |allocs|, _ => ArenaAlloc(0, 0))
  }

  class ArenaPlanner {
    const graph: Graph
    const tensors: seq<TensorInfo>
    const options: Options
    const tensorAlignment: nat
    const arena: SimpleMemoryArena
    const persistentArena: SimpleMemoryArena
    var allocs: seq<ArenaAlloc>
    var allocQueue: seq<Entry>

    ghost predicate Valid()
      reads this, arena, persistentArena
    {
      && arena != persistentArena && arena.Valid() && persistentArena.Valid()
      && arena.arenaAlignment == persistentArena.arenaAlignment == DEFAULT_ARENA_ALIGNMENT
      && tensorAlignment > 0 && |tensors| == graph.numTensors
    }

    /** The state that the replay changes. */
    ghost function Current(): Memory
      reads this, arena, persistentArena
    {
      Memory(arena.allocs, persistentArena.allocs, allocs)
    }

    constructor (graph: Graph, tensors: seq<TensorInfo>, options: Options, tensorAlignment: nat)
      requires tensorAlignment > 0 && |tensors| == graph.numTensors
      ensures Valid() && fresh(arena) && fresh(persistentArena)
      ensures this.graph == graph && this.tensors == tensors && this.options == options
      ensures this.tensorAlignment == tensorAlignment && allocQueue == [] && Current() == Memory([], [], [])
    {
      this.graph := graph;
      this.tensors := tensors;
      this.options := options;
      this.tensorAlignment := tensorAlignment;
      arena := new SimpleMemoryArena(DEFAULT_ARENA_ALIGNMENT);
      persistentArena := new SimpleMemoryArena(DEFAULT_ARENA_ALIGNMENT);
      allocs := [];
      allocQueue := [];
    }

    /** Forgets all allocations, but not the queue. */
    method ResetAllocations()
      requires Valid()
      modifies `allocs, arena, persistentArena
      ensures Valid() && Current() == Memory([], [], seq(graph.numTensors, _ => ArenaAlloc(0, 0)))
    {
      arena.Clear();
      persistentArena.Clear();
      allocs := seq(graph.numTensors, _ => ArenaAlloc(0, 0));
    }

    /** Queues the allocation of a tensor that has none yet. */
    method Allocate(node: int, tensor: int, hasAlloc: seq<bool>) returns (r: seq<bool>)
      requires 0 <= tensor < |hasAlloc|
      modifies `allocQueue
      ensures r == hasAlloc[tensor := true]
      ensures allocQueue == old(allocQueue) + if hasAlloc[tensor] then [] else [Entry(node, tensor, Alloc)]
    {
      r := hasAlloc;
      if !hasAlloc[tensor] {
        allocQueue := allocQueue + [Entry(node, tensor, Alloc)];
        r := r[tensor := true];
      }
    }

    /** Queues the allocation of all tensors of the list. */
    method AllocateAll(node: int, ts: seq<int>, hasAlloc: seq<bool>, ghost s: set<int>) returns (r: seq<bool>)
      requires Marks(graph, hasAlloc, s)
      requires forall t :: t in ts ==> t == OPTIONAL_TENSOR || IsTensor(graph, t)
      modifies `allocQueue
      ensures Marks(graph, r, s + Members(ts))
      ensures allocQueue == old(allocQueue) + NewAllocs(node, ts, s)
    {
      r := hasAlloc;
      for j := 0 to |ts|
        invariant Marks(graph, r, s + Members(ts[..j]))
        invariant allocQueue == old(allocQueue) + NewAllocs(node, ts[..j], s)
      {
        assert ts[..j + 1][..j] == ts[..j];
        assert ts[j] in ts;
        assert ts[..j + 1] == ts[..j] + [ts[j]];
        if ts[j] != OPTIONAL_TENSOR {
          r := Allocate(node, ts[j], r);
        }
      }
      assert ts[..|ts|] == ts;
    }

    /** Gives up the references of node i to its inputs; queues a tensor for deallocation when the last one goes. */
    method ReleaseInputs(i: nat, refcounts: seq<int>, hasAlloc: seq<bool>) returns (r: seq<int>)
      requires ValidGraph(graph) && IsNode(graph, i) && !options.preserveIntermediates
      requires Marks(graph, hasAlloc, AllocatedBefore(graph, i + 1))
      requires |refcounts| == graph.numTensors
      requires forall t :: IsTensor(graph, t) ==> refcounts[t] == Left(graph, options, i, 0, t)
      modifies `allocQueue
      ensures |r| == graph.numTensors
      ensures forall t :: IsTensor(graph, t) ==> r[t] == Left(graph, options, i, |graph.nodes[i].inputs|, t)
      ensures allocQueue == old(allocQueue) + Frees(graph, options, i, |graph.nodes[i].inputs|)
    {
      r := refcounts;
      for j := 0 to |graph.nodes[i].inputs|
        invariant |r| == graph.numTensors
        invariant forall t :: IsTensor(graph, t) ==> r[t] == Left(graph, options, i, j, t)
        invariant allocQueue == old(allocQueue) + Frees(graph, options, i, j)
      {
        r := ReleaseInput(i, j, r, hasAlloc);
      }
    }

    method ReleaseInput(i: nat, j: nat, refcounts: seq<int>, hasAlloc: seq<bool>) returns (r: seq<int>)
      requires ValidGraph(graph) && IsNode(graph, i) && j < |graph.nodes[i].inputs| && !options.preserveIntermediates
      requires Marks(graph, hasAlloc, AllocatedBefore(graph, i + 1))
      requires |refcounts| == graph.numTensors
      requires forall t :: IsTensor(graph, t) ==> refcounts[t] == Left(graph, options, i, j, t)
      modifies `allocQueue
      ensures |r| == graph.numTensors
      ensures forall t :: IsTensor(graph, t) ==> r[t] == Left(graph, options, i, j + 1, t)
      ensures allocQueue == old(allocQueue) +
        if FreedAt(graph, options, i, j) then [Entry(i, graph.nodes[i].inputs[j], Dealloc)] else []
    {
      var x := graph.nodes[i].inputs[j];
      assert Consumes(graph, i, x);
      ZeroMeansLastUse(graph, options, i, j);
      forall t
        ensures Left(graph, options, i, j, t) == Left(graph, options, i, j + 1, t) + if x == t then 1 else 0
      {
        LeftDropsByOne(graph, options, i, j, t);
      }
      r := refcounts;
      if x != OPTIONAL_TENSOR {
        r := r[x := r[x] - 1];
        if r[x] == 0 {
          if hasAlloc[x] {
            allocQueue := allocQueue + [Entry(i, x, Dealloc)];
          }
        }
      }
    }

    /** Plans all allocations. The queue is appended to, not cleared, so a second call would leave the entries of
        the first in front. */
    method PlanAllocations()
      requires Valid() && ValidGraph(graph)
      modifies this, arena, persistentArena
      ensures Valid() && Current() == Memory([], [], seq(graph.numTensors, _ => ArenaAlloc(0, 0)))
      ensures allocQueue == old(allocQueue) + Plan(graph, options, |graph.nodes|)
    {
      ResetAllocations();
      PlanQueue();
    }

    /** The queue holds the plan up to node i behind what it held before, and the counts and marks are those of i. */
    ghost predicate PlannedTo(before: seq<Entry>, refcounts: seq<int>, hasAlloc: seq<bool>, i: nat)
      reads this`allocQueue
    {
      |refcounts| == graph.numTensors && forall n: nat :: n == i && n <= |graph.nodes| ==>
        && allocQueue == before + Plan(graph, options, n)
        && Marks(graph, hasAlloc, AllocatedBefore(graph, n))
        && (!options.preserveIntermediates ==>
              forall t :: IsTensor(graph, t) ==> refcounts[t] == Held(graph, options, n, t))
    }

    /** The part of PlanAllocations that fills the queue. */
    method PlanQueue()
      requires ValidGraph(graph)
      modifies `allocQueue
      ensures allocQueue == old(allocQueue) + Plan(graph, options, |graph.nodes|)
    {
      ghost var before := allocQueue;
      var refcounts := CountReferences();
      var hasAlloc := AllocateInputs();
      assert allocQueue == before + Plan(graph, options, 0);
      for i := 0 to |graph.nodes|
        invariant PlannedTo(before, refcounts, hasAlloc, i)
      {
        refcounts, hasAlloc := PlanNext(before, i, refcounts, hasAlloc);
      }
    }

    method PlanNext(ghost before: seq<Entry>, i: nat, refcounts: seq<int>, hasAlloc: seq<bool>)
      returns (r: seq<int>, a: seq<bool>)
      requires ValidGraph(graph) && IsNode(graph, i) && PlannedTo(before, refcounts, hasAlloc, i)
      modifies `allocQueue
      ensures PlannedTo(before, r, a, i + 1)
    {
      assert allocQueue == before + Plan(graph, options, i);
      r, a := PlanNode(i, refcounts, hasAlloc);
      Associative(before, Plan(graph, options, i), NodePlan(graph, options, i));
    }

    /** The loops of PlanAllocations over the inputs and variables of the model. */
    method AllocateInputs() returns (hasAlloc: seq<bool>)
      requires ValidGraph(graph)
      modifies `allocQueue
      ensures Marks(graph, hasAlloc, AllocatedBefore(graph, 0))
      ensures allocQueue == old(allocQueue) + Plan(graph, options, 0)
    {
      hasAlloc := seq(graph.numTensors, _ => false);
      hasAlloc := AllocateAll(0, graph.inputs + graph.variables, hasAlloc, {});
      // The source goes over the graph inputs a second time, when all of them are marked.
      NothingNew(0, graph.inputs, AllocatedBefore(graph, 0));
      hasAlloc := AllocateAll(0, graph.inputs, hasAlloc, AllocatedBefore(graph, 0));
      assert AllocatedBefore(graph, 0) + Members(graph.inputs) == AllocatedBefore(graph, 0);
    }

    /** One step of PlanAllocations through the graph in execution order. */
    method PlanNode(i: nat, refcounts: seq<int>, hasAlloc: seq<bool>) returns (r: seq<int>, a: seq<bool>)
      requires ValidGraph(graph) && IsNode(graph, i)
      requires Marks(graph, hasAlloc, AllocatedBefore(graph, i))
      requires |refcounts| == graph.numTensors
      requires !options.preserveIntermediates ==>
        forall t :: IsTensor(graph, t) ==> refcounts[t] == Held(graph, options, i, t)
      modifies `allocQueue
      ensures Marks(graph, a, AllocatedBefore(graph, i + 1))
      ensures |r| == graph.numTensors
      ensures !options.preserveIntermediates ==>
        forall t :: IsTensor(graph, t) ==> r[t] == Held(graph, options, i + 1, t)
      ensures allocQueue == old(allocQueue) + NodePlan(graph, options, i)
    {
      assert forall t :: t in graph.nodes[i].outputs ==> Produces(graph, i, t);
      a := AllocateAll(i, graph.nodes[i].outputs, hasAlloc, AllocatedBefore(graph, i));
      r := refcounts;
      forall t
        ensures Held(graph, options, i, t) == Left(graph, options, i, 0, t)
        ensures Held(graph, options, i + 1, t) == Left(graph, options, i, |graph.nodes[i].inputs|, t)
      {
        HeldIsLeft(graph, options, i, t);
      }
      if !options.preserveIntermediates {
        r := ReleaseInputs(i, r, a);
      } else {
        NothingFreed(graph, options, i, |graph.nodes[i].inputs|);
      }
    }

    /** The loops of PlanAllocations that set up the reference counts. */
    method CountReferences() returns (refcounts: seq<int>)
      requires ValidGraph(graph)
      ensures |refcounts| == graph.numTensors
      ensures forall t :: IsTensor(graph, t) ==> refcounts[t] == Held(graph, options, 0, t)
    {
      refcounts := seq(graph.numTensors, _ => 0);
      refcounts := CountAll(graph, refcounts, graph.outputs);
      refcounts := CountAll(graph, refcounts, graph.variables);
      if options.preserveInputs {
        refcounts := CountAll(graph, refcounts, graph.inputs);
      }
      for i := 0 to |graph.nodes|
        invariant |refcounts| == graph.numTensors
        invariant forall t :: IsTensor(graph, t) ==>
          refcounts[t] + References(graph, i, t) == Held(graph, options, 0, t)
      {
        assert forall t :: t in graph.nodes[i].inputs ==> Consumes(graph, i, t);
        refcounts := CountAll(graph, refcounts, graph.nodes[i].inputs);
      }
    }

    // ----- execution

    method CalculateTensorAllocation(t: int) returns (ok: bool)
      requires Valid() && IsTensor(graph, t) && |allocs| == graph.numTensors
      modifies `allocs, arena, persistentArena
      ensures Valid() && |allocs| == graph.numTensors
      ensures RunOp(tensors, tensorAlignment, old(Current()), Op.Allocate(t)) == if ok then Some(Current()) else None
      ensures ok <==> tensors[t].placement == Elsewhere || tensorAlignment <= 64
      ensures ok ==> PlacedAt(tensors, tensorAlignment, Current(), t)
    {
      ghost var m := Current();
      ok := true;
      if tensors[t].placement == ArenaRw {
        var a;
        ok, a := arena.Allocate(tensorAlignment, tensors[t].bytes);
        if ok { allocs := allocs[t := a]; }
      }
      if tensors[t].placement == ArenaRwPersistent {
        var a;
        ok, a := persistentArena.Allocate(tensorAlignment, tensors[t].bytes);
        if ok { allocs := allocs[t := a]; }
      }
      if ok {
        AllocatePlaces(tensors, tensorAlignment, m, t);
      }
    }

    method CalculateTensorDeallocation(t: int) returns (ok: bool)
      requires Valid() && IsTensor(graph, t) && |allocs| == graph.numTensors
      modifies arena
      ensures Valid()
      ensures RunOp(tensors, tensorAlignment, old(Current()), Op.Deallocate(t)) == if ok then Some(Current()) else None
    {
      ok := true;
      if tensors[t].placement == ArenaRw {
        ok := arena.Deallocate(allocs[t]);
      }
    }

    method CalculateAllocationOfInternalTensors(i: int) returns (ok: bool)
      requires Valid() && |allocs| == graph.numTensors
      requires forall k, t :: IsNode(graph, k) && t in graph.nodes[k].temporaries ==> IsTensor(graph, t)
      modifies `allocs, arena, persistentArena
      ensures Valid() && |allocs| == graph.numTensors
      ensures RunOps(tensors, tensorAlignment, old(Current()), Allocates(Temporaries(NodeTemporaries(graph), i))) ==
        if ok then Some(Current()) else None
    {
      ok := true;
      if 0 <= i < |graph.nodes| {
        var ts := graph.nodes[i].temporaries;
        ghost var m, ops := Current(), Allocates(ts);
        for k := 0 to |ts|
          invariant ok && Valid() && |allocs| == graph.numTensors
          invariant RunOps(tensors, tensorAlignment, m, ops[..k]) == Some(Current())
        {
          assert ts[k] in ts;
          RunOpsNext(tensors, tensorAlignment, m, ops, k, Current());
          ok := CalculateTensorAllocation(ts[k]);
          if !ok {
            return;
          }
        }
        assert ops[..|ts|] == ops;
      }
    }

    method CalculateDeallocationOfInternalTensors(i: int) returns (ok: bool)
      requires Valid() && |allocs| == graph.numTensors
      requires forall k, t :: IsNode(graph, k) && t in graph.nodes[k].temporaries ==> IsTensor(graph, t)
      modifies arena
      ensures Valid()
      ensures RunOps(tensors, tensorAlignment, old(Current()), Deallocates(Temporaries(NodeTemporaries(graph), i))) ==
        if ok then Some(Current()) else None
    {
      ok := true;
      // A negative index becomes a huge unsigned one.
      if 0 <= i < |graph.nodes| {
        var ts := graph.nodes[i].temporaries;
        ghost var m, ops := Current(), Deallocates(ts);
        for k := 0 to |ts|
          invariant ok && Valid()
          invariant RunOps(tensors, tensorAlignment, m, ops[..k]) == Some(Current())
        {
          assert ts[k] in ts;
          RunOpsNext(tensors, tensorAlignment, m, ops, k, Current());
          ok := CalculateTensorDeallocation(ts[k]);
          if !ok {
            return;
          }
        }
        assert ops[..|ts|] == ops;
      }
    }

    /** Starts a node: frees the temporaries of the node before it, unless it is the first, and allocates its own. */
    method StartNode(first: int, active: int) returns (ok: bool)
      requires Valid() && |allocs| == graph.numTensors
      requires forall k, t :: IsNode(graph, k) && t in graph.nodes[k].temporaries ==> IsTensor(graph, t)
      modifies `allocs, arena, persistentArena
      ensures Valid() && |allocs| == graph.numTensors
      ensures var ops := (if active != first
          then Deallocates(Temporaries(NodeTemporaries(graph), active - 1)) else []) +
          Allocates(Temporaries(NodeTemporaries(graph), active));
        RunOps(tensors, tensorAlignment, old(Current()), ops) == if ok then Some(Current()) else None
    {
      ghost var temps := NodeTemporaries(graph);
      ghost var freed := if active != first then Deallocates(Temporaries(temps, active - 1)) else [];
      ghost var m := Current();
      RunOpsAppend(tensors, tensorAlignment, m, freed, Allocates(Temporaries(temps, active)));
      if active != first {
        ok := CalculateDeallocationOfInternalTensors(active - 1);
        if !ok { return; }
      }
      ok := CalculateAllocationOfInternalTensors(active);
    }

    method HandleEntry(e: Entry) returns (ok: bool)
      requires Valid() && |allocs| == graph.numTensors && IsTensor(graph, e.tensor)
      modifies `allocs, arena, persistentArena
      ensures Valid() && |allocs| == graph.numTensors
      ensures RunOp(tensors, tensorAlignment, old(Current()), OpOf(e)) == if ok then Some(Current()) else None
    {
      if e.kind == Alloc {
        ok := CalculateTensorAllocation(e.tensor);
      } else {
        ok := CalculateTensorDeallocation(e.tensor);
      }
    }

    /** The part of the loop that starts a node when its first entry comes and handles the entry. */
    method HandleNext(first: int, active: int, e: Entry) returns (ok: bool, active': int)
      requires Valid() && |allocs| == graph.numTensors && IsTensor(graph, e.tensor)
      requires forall k, t :: IsNode(graph, k) && t in graph.nodes[k].temporaries ==> IsTensor(graph, t)
      modifies `allocs, arena, persistentArena
      ensures Valid() && |allocs| == graph.numTensors
      ensures active' == if e.node == active then active + 1 else active
      ensures RunOps(tensors, tensorAlignment, old(Current()), StepOps(NodeTemporaries(graph), first, active, e)) ==
        if ok then Some(Current()) else None
    {
      ghost var m, ops := Current(), StepOps(NodeTemporaries(graph), first, active, e);
      ghost var start := ops[..|ops| - 1];
      active' := if e.node == active then active + 1 else active;
      if e.node == active {
        assert start == (if active != first then Deallocates(Temporaries(NodeTemporaries(graph), active - 1)) else []) +
          Allocates(Temporaries(NodeTemporaries(graph), active));
        ok := StartNode(first, active);
        if !ok {
          return;
        }
      }
      assert RunOps(tensors, tensorAlignment, m, start) == Some(Current());
      ok := HandleEntry(e);
    }

    /** One round of the loop over the queue, with the log of the rounds before it. */
    method Round(k: int, first: int, last: int, active: int, ghost m: Memory, ghost done: seq<Op>)
      returns (ok: bool, active': int, ghost done': seq<Op>)
      requires Valid() && |allocs| == graph.numTensors
      requires 0 <= k < |allocQueue| && first <= allocQueue[k].node <= last && IsTensor(graph, allocQueue[k].tensor)
      requires forall k, t :: IsNode(graph, k) && t in graph.nodes[k].temporaries ==> IsTensor(graph, t)
      requires RunOps(tensors, tensorAlignment, m, done) == Some(Current())
      modifies `allocs, arena, persistentArena
      ensures Valid() && |allocs| == graph.numTensors
      ensures RunOps(tensors, tensorAlignment, m, done') == if ok then Some(Current()) else None
      ensures var total := ReplayFrom(NodeTemporaries(graph), allocQueue[k..], first, last, active, done);
        done' <= total && ReplayFrom(NodeTemporaries(graph), allocQueue[k + 1..], first, last, active', done') == total
    {
      ghost var ops := StepOps(NodeTemporaries(graph), first, active, allocQueue[k]);
      ReplayNext(NodeTemporaries(graph), allocQueue, k, first, last, active, done);
      RunOpsAppend(tensors, tensorAlignment, m, done, ops);
      done' := done + ops;
      ok, active' := HandleNext(first, active, allocQueue[k]);
    }

    /** Replays the queue over the nodes from first to last. Entries of earlier nodes were handled by earlier calls,
        entries of later nodes are left for later ones. */
    method CalculateAllocations(first: int, last: int) returns (ok: bool)
      requires Valid() && |allocs| == graph.numTensors
      requires forall k :: 0 <= k < |allocQueue| ==> IsTensor(graph, allocQueue[k].tensor)
      requires forall k, t :: IsNode(graph, k) && t in graph.nodes[k].temporaries ==> IsTensor(graph, t)
      modifies `allocs, arena, persistentArena
      ensures Valid() && |allocs| == graph.numTensors
      ensures RunOps(tensors, tensorAlignment, old(Current()),
                     ReplayCall(NodeTemporaries(graph), allocQueue, first, last, [])) ==
        if ok then Some(Current()) else None
    {
      var active := first;
      ghost var m := Current();
      ghost var done: seq<Op> := [];
      ghost var total := ReplayCall(NodeTemporaries(graph), allocQueue, first, last, []);
      var k := 0;
      assert allocQueue[0..] == allocQueue;
      while k < |allocQueue|
        invariant 0 <= k <= |allocQueue| && Valid() && |allocs| == graph.numTensors
        invariant RunOps(tensors, tensorAlignment, m, done) == Some(Current())
        invariant ReplayFrom(NodeTemporaries(graph), allocQueue[k..], first, last, active, done) == total
      {
        assert allocQueue[k..][0] == allocQueue[k] && allocQueue[k..][1..] == allocQueue[k + 1..];
        if allocQueue[k].node < first {
          k := k + 1;
          continue;
        }
        if allocQueue[k].node > last {
          break;
        }
        ok, active, done := Round(k, first, last, active, m, done);
        if !ok {
          FailureStays(tensors, tensorAlignment, m, done, total);
          return;
        }
        k := k + 1;
      }
      ok := FreeLast(active, m, done);
    }

    /** The end of CalculateAllocations, which frees the temporaries of the last node. */
    method FreeLast(active: int, ghost m: Memory, ghost done: seq<Op>) returns (ok: bool)
      requires Valid() && |allocs| == graph.numTensors
      requires forall k, t :: IsNode(graph, k) && t in graph.nodes[k].temporaries ==> IsTensor(graph, t)
      requires RunOps(tensors, tensorAlignment, m, done) == Some(Current())
      modifies arena
      ensures Valid()
      ensures RunOps(tensors, tensorAlignment, m,
          done + Deallocates(Temporaries(NodeTemporaries(graph), active - 1))) ==
        if ok then Some(Current()) else None
    {
      RunOpsAppend(tensors, tensorAlignment, m, done, Deallocates(Temporaries(NodeTemporaries(graph), active - 1)));
      ok := CalculateDeallocationOfInternalTensors(active - 1);
    }

    /** Allocates everything that the nodes from first to last need. Fails if there are more blocks than tensors. */
    method ExecuteAllocations(first: int, last: int) returns (ok: bool)
      requires Valid()
      requires forall k :: 0 <= k < |allocQueue| ==> IsTensor(graph, allocQueue[k].tensor)
      requires forall k, t :: IsNode(graph, k) && t in graph.nodes[k].temporaries ==> IsTensor(graph, t)
      modifies `allocs, arena, persistentArena
      ensures Valid()
      ensures |old(allocs)| > graph.numTensors ==> !ok && Current() == old(Current())
      ensures |old(allocs)| <= graph.numTensors ==>
        var m := old(Current()).(allocs := Grown(old(allocs), graph.numTensors));
        && |allocs| == graph.numTensors
        && RunOps(tensors, tensorAlignment, m, ReplayCall(NodeTemporaries(graph), allocQueue, first, last, [])) ==
             if ok then Some(Current()) else None
      ensures ok ==> forall t :: Op.Allocate(t) in ReplayCall(NodeTemporaries(graph), allocQueue, first, last, []) ==>
        PlacedAt(tensors, tensorAlignment, Current(), t)
    {
      if |allocs| > graph.numTensors {
        return false;
      }
      allocs := Grown(allocs, graph.numTensors);
      ghost var m, log := Current(), ReplayCall(NodeTemporaries(graph), allocQueue, first, last, []);
      ok := CalculateAllocations(first, last);
      if ok {
        forall t | Op.Allocate(t) in log
          ensures PlacedAt(tensors, tensorAlignment, Current(), t)
        {
          AllocatedArePlaced(tensors, tensorAlignment, m, log, t);
        }
      }
    }
  }

  /** One round of the loop: the log grows by the operations of entry k, and what is left starts behind it. */
  lemma ReplayNext(temps: seq<seq<int>>, q: seq<Entry>, k: int, first: int, last: int, active: int, done: seq<Op>)
    requires 0 <= k < |q| && first <= q[k].node <= last
    ensures var ops := StepOps(temps, first, active, q[k]);
      var active' := if q[k].node == active then active + 1 else active;
      && ReplayFrom(temps, q[k..], first, last, active, done) ==
           ReplayFrom(temps, q[k + 1..], first, last, active', done + ops)
      && done + ops <= ReplayFrom(temps, q[k..], first, last, active, done)
  {
    var e := q[k];
    assert q[k..][0] == e && q[k..][1..] == q[k + 1..];
    if e.node == active {
      var freed := if active != first then done + Deallocates(Temporaries(temps, active - 1)) else done;
      var next := freed + Allocates(Temporaries(temps, active)) + [OpOf(e)];
      assert next == done + StepOps(temps, first, active, e);
      ReplayExtends(temps, q[k + 1..], first, last, active + 1, next);
    } else {
      ReplayExtends(temps, q[k + 1..], first, last, active, done + [OpOf(e)]);
    }
  }

  /** The operations of one entry: it starts its node if it is the first entry of the node that is waited for. */
  ghost function StepOps(temps: seq<seq<int>>, first: int, active: int, e: Entry): seq<Op> {
    if e.node != active then [OpOf(e)]
    else
      (if active != first then Deallocates(Temporaries(temps, active - 1)) else []) +
      Allocates(Temporaries(temps, active)) + [OpOf(e)]
  }

  lemma {:induction false} NothingFreed(g: Graph, o: Options, i: int, j: nat)
    requires IsNode(g, i) && j <= |g.nodes[i].inputs| && o.preserveIntermediates
    ensures Frees(g, o, i, j) == []
  {
    if j > 0 {
      NothingFreed(g, o, i, j - 1);
    }
  }

  lemma {:induction false} NothingNew(node: int, ts: seq<int>, before: set<int>)
    requires Members(ts) <= before
    ensures NewAllocs(node, ts, before) == []
  {
    if ts != [] {
      var k := |ts| - 1;
      assert ts[k] != OPTIONAL_TENSOR ==> ts[k] in Members(ts);
      assert Members(ts[..k]) <= Members(ts);
      NothingNew(node, ts[..k], before);
    }
  }
}
