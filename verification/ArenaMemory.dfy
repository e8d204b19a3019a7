/** What the operations of the replay do to the two arenas and to the table of tensor allocations. */
module ArenaMemory {
  import opened Wrappers
  import opened Arena
  import opened MemoryPlan
  import opened Replay

  const DEFAULT_ARENA_ALIGNMENT := 64

  /** Where a tensor lives; constants and dynamic tensors live outside the arenas. */
  datatype Placement = ArenaRw | ArenaRwPersistent | Elsewhere

  datatype TensorInfo = TensorInfo(placement: Placement, bytes: nat)

  datatype Memory = Memory(arena: seq<ArenaAlloc>, persistent: seq<ArenaAlloc>, allocs: seq<ArenaAlloc>)

  ghost function RunAllocate(tensors: seq<TensorInfo>, alignment: nat, m: Memory, t: int): Option<Memory>
    requires alignment > 0
  {
    if !(0 <= t < |tensors| == |m.allocs|) then None
    else
      match tensors[t].placement
      case ArenaRw =>
        if alignment > DEFAULT_ARENA_ALIGNMENT then None
        else Some(m.(arena := AfterAllocate(m.arena, alignment, tensors[t].bytes),
                     allocs := m.allocs[t := NewBlock(m.arena, alignment, tensors[t].bytes)]))
      case ArenaRwPersistent =>
        if alignment > DEFAULT_ARENA_ALIGNMENT then None
        else Some(m.(persistent := AfterAllocate(m.persistent, alignment, tensors[t].bytes),
                     allocs := m.allocs[t := NewBlock(m.persistent, alignment, tensors[t].bytes)]))
      case Elsewhere => Some(m)
  }

  /** Only blocks of the shared arena are ever released. */
  ghost function RunDeallocate(tensors: seq<TensorInfo>, m: Memory, t: int): Option<Memory> {
    if !(0 <= t < |tensors| == |m.allocs|) then None
    else if tensors[t].placement != ArenaRw || m.allocs[t].size == 0 then Some(m)
    else if m.allocs[t] in m.arena then Some(m.(arena := Without(m.arena, m.allocs[t])))
    else None
  }

  ghost function RunOp(tensors: seq<TensorInfo>, alignment: nat, m: Memory, op: Op): Option<Memory>
    requires alignment > 0
  {
    if op.Allocate? then RunAllocate(tensors, alignment, m, op.tensor) else RunDeallocate(tensors, m, op.tensor)
  }

  /** Runs the operations in turn; fails with the first one that fails. */
  ghost function RunOps(tensors: seq<TensorInfo>, alignment: nat, m: Memory, ops: seq<Op>): Option<Memory>
    requires alignment > 0
  {
    if ops == [] then Some(m)
    else
      match RunOps(tensors, alignment, m, ops[..|ops| - 1])
      case None => None
      case Some(before) => RunOp(tensors, alignment, before, ops[|ops| - 1])
  }

  lemma {:induction false} RunOpsAppend(tensors: seq<TensorInfo>, alignment: nat, m: Memory, a: seq<Op>, b: seq<Op>)
    requires alignment > 0
    ensures RunOps(tensors, alignment, m, a + b) ==
      match RunOps(tensors, alignment, m, a) case None => None case Some(n) => RunOps(tensors, alignment, n, b)
  {
    if b == [] {
      assert a + b == a;
    } else {
      RunOpsAppend(tensors, alignment, m, a, b[..|b| - 1]);
      assert (a + b)[..|a + b| - 1] == a + b[..|b| - 1];
    }
  }

  lemma RunOpsNext(tensors: seq<TensorInfo>, alignment: nat, m: Memory, ops: seq<Op>, k: int, n: Memory)
    requires alignment > 0 && 0 <= k < |ops| && RunOps(tensors, alignment, m, ops[..k]) == Some(n)
    ensures RunOps(tensors, alignment, m, ops[..k + 1]) == RunOp(tensors, alignment, n, ops[k])
    ensures RunOp(tensors, alignment, n, ops[k]) == None ==> RunOps(tensors, alignment, m, ops) == None
  {
    assert ops[..k + 1][..k] == ops[..k];
    if RunOp(tensors, alignment, n, ops[k]) == None {
      FailureStays(tensors, alignment, m, ops[..k + 1], ops);
    }
  }

  /** The block of tensor t is as large as t and starts at a multiple of the alignment, which an arena supports; a
      tensor outside the arenas needs no block. */
  ghost predicate PlacedAt(tensors: seq<TensorInfo>, alignment: nat, m: Memory, t: int)
    requires alignment > 0
  {
    0 <= t < |tensors| == |m.allocs| &&
    (tensors[t].placement != Elsewhere ==>
       alignment <= 64 && m.allocs[t].offset % alignment == 0 && m.allocs[t].size == tensors[t].bytes)
  }

  lemma AllocatePlaces(tensors: seq<TensorInfo>, alignment: nat, m: Memory, t: int)
    requires alignment > 0 && RunOp(tensors, alignment, m, Allocate(t)).Some?
    ensures PlacedAt(tensors, alignment, RunOp(tensors, alignment, m, Allocate(t)).value, t)
  {
    NewBlockHasNoRest(m.arena, alignment, tensors[t].bytes);
    NewBlockHasNoRest(m.persistent, alignment, tensors[t].bytes);
  }

  /** Whatever the memory and the operations are: if they succeed, every tensor that they allocate ends with a block
      that is aligned and of its size. */
  lemma {:induction false} AllocatedArePlaced(tensors: seq<TensorInfo>, alignment: nat, m: Memory, ops: seq<Op>, t: int)
    requires alignment > 0 && RunOps(tensors, alignment, m, ops).Some? && Allocate(t) in ops
    ensures PlacedAt(tensors, alignment, RunOps(tensors, alignment, m, ops).value, t)
  {
    var head, op := ops[..|ops| - 1], ops[|ops| - 1];
    var before := RunOps(tensors, alignment, m, head).value;
    if op == Allocate(t) {
      AllocatePlaces(tensors, alignment, before, t);
    } else {
      assert ops == head + [op];
      AllocatedArePlaced(tensors, alignment, m, head, t);
    }
  }

  /** A log only grows. */
  lemma {:induction false} ReplayExtends(temps: seq<seq<int>>, q: seq<Entry>, first: int, last: int, active: int,
                                         done: seq<Op>)
    ensures done <= ReplayFrom(temps, q, first, last, active, done)
    decreases |q|
  {
    if q != [] {
      if q[0].node < first {
        ReplayExtends(temps, q[1..], first, last, active, done);
      } else if q[0].node > last {
      } else if q[0].node == active {
        var freed := if active != first then done + Deallocates(Temporaries(temps, active - 1)) else done;
        ReplayExtends(temps, q[1..], first, last, active + 1,
          freed + Allocates(Temporaries(temps, active)) + [OpOf(q[0])]);
      } else {
        ReplayExtends(temps, q[1..], first, last, active, done + [OpOf(q[0])]);
      }
    }
  }

  /** Once an operation has failed, so has every longer log. */
  lemma FailureStays(tensors: seq<TensorInfo>, alignment: nat, m: Memory, done: seq<Op>, total: seq<Op>)
    requires alignment > 0 && done <= total && RunOps(tensors, alignment, m, done) == None
    ensures RunOps(tensors, alignment, m, total) == None
  {
    assert total == done + total[|done|..];
    RunOpsAppend(tensors, alignment, m, done, total[|done|..]);
  }
}
