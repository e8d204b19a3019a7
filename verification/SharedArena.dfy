/** Sharing memory cannot be observed: the planned places give the graph the results of private buffers. */
module SharedArena {
  import opened Wrappers
  import opened GraphInfo
  import opened MemoryPlan
  import opened PlanTheorems
  import opened Arena
  import opened Replay
  import opened ArenaMemory
  import opened ArenaSharing
  import opened ArenaOneCall
  import Planner

  type Byte = b: int | 0 <= b < 256

  // ----- byte stores

  /** An address: spaces 0 and 1 are the two arenas, every other space is a buffer of its own. */
  datatype Cell = Cell(space: int, offset: int)

  datatype Region = Region(space: int, offset: int, size: nat)

  type Store = Cell -> Byte

  predicate Within(c: Cell, r: Region) {
    c.space == r.space && r.offset <= c.offset < r.offset + r.size
  }

  ghost predicate Separate(a: Region, b: Region) {
    a.space != b.space || a.offset + a.size <= b.offset || b.offset + b.size <= a.offset || a.size == 0 || b.size == 0
  }

  function Load(store: Store, r: Region): seq<Byte> {
    seq(r.size, k => store(Cell(r.space, r.offset + k)))
  }

  /** Stores one byte for each offset of the region. */
  function StoreAt(store: Store, r: Region, bytes: int -> Byte): Store {
    c => if Within(c, r) then bytes(c.offset - r.offset) else store(c)
  }

  // ----- running the graph

  /** What a node writes at an offset of a tensor, given the contents of its inputs. */
  type Kernels = (int, int, seq<seq<Byte>>, int) -> Byte

  /** What a node leaves in its temporaries: anything. */
  type Scratch = (int, int, int) -> Byte

  /** The contents of the inputs of a node; an absent input has none. */
  function Contents(store: Store, layout: seq<Region>, ts: seq<int>): seq<seq<Byte>> {
    seq(|ts|, k requires 0 <= k < |ts| => if 0 <= ts[k] < |layout| then Load(store, layout[ts[k]]) else [])
  }

  function StoreAll(store: Store, layout: seq<Region>, ts: seq<int>, bytes: (int, int) -> Byte): Store {
    if ts == [] then store
    else
      var before, t := StoreAll(store, layout, ts[..|ts| - 1], bytes), ts[|ts| - 1];
      if 0 <= t < |layout| then StoreAt(before, layout[t], k => bytes(t, k)) else before
  }

  /** A node writes its outputs, and updates in place the variables among its inputs. */
  function Writes(g: Graph, i: int): seq<int>
    requires IsNode(g, i)
  {
    g.nodes[i].outputs + VariablesOf(g, g.nodes[i].inputs)
  }

  function VariablesOf(g: Graph, ts: seq<int>): seq<int> {
    if ts == [] then [] else VariablesOf(g, ts[..|ts| - 1]) + if ts[|ts| - 1] in g.variables then [ts[|ts| - 1]] else []
  }

  function RunNode(g: Graph, kernels: Kernels, scratch: Scratch, layout: seq<Region>, store: Store, i: int): Store
    requires IsNode(g, i)
  {
    var inputs := Contents(store, layout, g.nodes[i].inputs);
    var scribbled := StoreAll(store, layout, g.nodes[i].temporaries, (t, k) => scratch(i, t, k));
    StoreAll(scribbled, layout, Writes(g, i), (t, k) => kernels(i, t, inputs, k))
  }

  /** Runs the nodes before node n in execution order. */
  function Run(g: Graph, kernels: Kernels, scratch: Scratch, layout: seq<Region>, store: Store, n: nat): Store
    requires n <= |g.nodes|
  {
    if n == 0 then store
    else RunNode(g, kernels, scratch, layout, Run(g, kernels, scratch, layout, store, n - 1), n - 1)
  }

  // ----- what stores do to regions

  lemma LoadSeparate(store: Store, w: Region, bytes: int -> Byte, r: Region)
    requires Separate(w, r)
    ensures Load(StoreAt(store, w, bytes), r) == Load(store, r)
  {
    forall k | 0 <= k < r.size
      ensures Load(StoreAt(store, w, bytes), r)[k] == Load(store, r)[k]
    {
      assert !Within(Cell(r.space, r.offset + k), w);
    }
  }

  lemma LoadStored(store: Store, r: Region, bytes: int -> Byte)
    ensures Load(StoreAt(store, r, bytes), r) == seq(r.size, k => bytes(k))
  {
    forall k | 0 <= k < r.size
      ensures Load(StoreAt(store, r, bytes), r)[k] == seq(r.size, k => bytes(k))[k]
    {
      assert Within(Cell(r.space, r.offset + k), r);
    }
  }

  lemma {:induction false} StoreAllElsewhere(store: Store, layout: seq<Region>, ts: seq<int>, bytes: (int,
                                             int) -> Byte, r: Region)
    requires forall u :: u in ts && 0 <= u < |layout| ==> Separate(layout[u], r)
    ensures Load(StoreAll(store, layout, ts, bytes), r) == Load(store, r)
  {
    if ts != [] {
      var head, t := ts[..|ts| - 1], ts[|ts| - 1];
      assert t in ts;
      assert forall u :: u in head ==> u in ts;
      StoreAllElsewhere(store, layout, head, bytes, r);
      if 0 <= t < |layout| {
        LoadSeparate(StoreAll(store, layout, head, bytes), layout[t], k => bytes(t, k), r);
      }
    }
  }

  lemma {:induction false} StoreAllThere(store: Store, layout: seq<Region>, ts: seq<int>, bytes: (int,
                                         int) -> Byte, t: int)
    requires t in ts && 0 <= t < |layout|
    requires forall u :: u in ts && 0 <= u < |layout| && u != t ==> Separate(layout[u], layout[t])
    ensures Load(StoreAll(store, layout, ts, bytes), layout[t]) == seq(layout[t].size, k => bytes(t, k))
  {
    var head, last := ts[..|ts| - 1], ts[|ts| - 1];
    assert forall u :: u in ts <==> u in head || u == last by { assert ts == head + [last]; }
    var before := StoreAll(store, layout, head, bytes);
    if last == t {
      LoadStored(before, layout[t], k => bytes(t, k));
      assert seq(layout[t].size, k => (k => bytes(t, k))(k)) == seq(layout[t].size, k => bytes(t, k));
    } else {
      StoreAllThere(store, layout, head, bytes, t);
      if 0 <= last < |layout| {
        LoadSeparate(before, layout[last], k => bytes(last, k), layout[t]);
      }
    }
  }

  lemma {:induction false} VariablesOfContents(g: Graph, ts: seq<int>, t: int)
    ensures t in VariablesOf(g, ts) <==> t in ts && t in g.variables
  {
    if ts != [] {
      assert ts == ts[..|ts| - 1] + [ts[|ts| - 1]];
      VariablesOfContents(g, ts[..|ts| - 1], t);
    }
  }

  // ----- one node in two layouts

  /** All tensors that node i touches. */
  ghost predicate Touched(g: Graph, i: int, t: int)
    requires IsNode(g, i)
  {
    t in Writes(g, i) || t in g.nodes[i].temporaries
  }

  /** The layout keeps tensor t clear of all other tensors that node i touches. */
  ghost predicate ClearAt(g: Graph, layout: seq<Region>, i: int, t: int)
    requires IsNode(g, i)
  {
    0 <= t < |layout| && forall u :: Touched(g, i, u) && 0 <= u < |layout| && u != t ==> Separate(layout[u], layout[t])
  }

  lemma WrittenTensor(g: Graph, kernels: Kernels, scratch: Scratch, layout: seq<Region>, store: Store, i: int, t: int)
    requires IsNode(g, i) && t in Writes(g, i) && ClearAt(g, layout, i, t)
    ensures Load(RunNode(g, kernels, scratch, layout, store, i), layout[t]) ==
      seq(layout[t].size, k => kernels(i, t, Contents(store, layout, g.nodes[i].inputs), k))
  {
    var inputs := Contents(store, layout, g.nodes[i].inputs);
    var scribbled := StoreAll(store, layout, g.nodes[i].temporaries, (t, k) => scratch(i, t, k));
    forall u | u in Writes(g, i) && 0 <= u < |layout| && u != t
      ensures Separate(layout[u], layout[t])
    {
      assert Touched(g, i, u);
    }
    var bytes := (t, k) => kernels(i, t, inputs, k);
    StoreAllThere(scribbled, layout, Writes(g, i), bytes, t);
    assert seq(layout[t].size, k => bytes(t, k)) == seq(layout[t].size, k => kernels(i, t, inputs, k));
  }

  lemma UntouchedTensor(g: Graph, kernels: Kernels, scratch: Scratch, layout: seq<Region>, store: Store, i: int, t: int)
    requires IsNode(g, i) && !Touched(g, i, t) && ClearAt(g, layout, i, t)
    ensures Load(RunNode(g, kernels, scratch, layout, store, i), layout[t]) == Load(store, layout[t])
  {
    var inputs := Contents(store, layout, g.nodes[i].inputs);
    var scribbled := StoreAll(store, layout, g.nodes[i].temporaries, (t, k) => scratch(i, t, k));
    forall u | (u in Writes(g, i) || u in g.nodes[i].temporaries) && 0 <= u < |layout|
      ensures Separate(layout[u], layout[t])
    {
      assert Touched(g, i, u);
    }
    StoreAllElsewhere(store, layout, g.nodes[i].temporaries, (t, k) => scratch(i, t, k), layout[t]);
    StoreAllElsewhere(scribbled, layout, Writes(g, i), (t, k) => kernels(i, t, inputs, k), layout[t]);
  }

  // ----- which tensors carry a value that matters

  /** What the graph must satisfy for its execution order to make sense: one producer for each tensor, which is no
      input or variable of the model, and comes before the consumers; private temporaries; no use of a tensor that
      nothing provides. */
  ghost predicate Executable(g: Graph, tensors: seq<TensorInfo>) {
    && MemoryPlan.ValidGraph(g) && SingleProducer(g) && PrivateTemporaries(g) && |tensors| == g.numTensors
    && (forall m, t :: Produces(g, m, t) ==> t !in g.inputs && t !in g.variables)
    && (forall m, n, t :: Produces(g, m, t) && Consumes(g, n, t) ==> m < n)
    && (forall n, t :: Consumes(g, n, t) && t != OPTIONAL_TENSOR && !Produced(g, t) ==> Provided(g, tensors, t))
  }

  /** A tensor that has its value before the first node: an input or variable, or one outside the arenas. */
  ghost predicate Provided(g: Graph, tensors: seq<TensorInfo>, t: int) {
    && IsTensor(g, t) && |tensors| == g.numTensors && !Produced(g, t)
    && (t in g.inputs || t in g.variables || (tensors[t].placement == Elsewhere && forall i :: !IsTemporary(g, i, t)))
  }

  ghost predicate Defined(g: Graph, tensors: seq<TensorInfo>, i: int, t: int) {
    Provided(g, tensors, t) || ProducedBefore(g, i, t)
  }

  /** The value of t is asked for by node i or a later one, or kept to the end. */
  ghost predicate Needed(g: Graph, o: Options, i: int, t: int) {
    ConsumedFrom(g, i, t) || Kept(g, o, t)
  }

  /** What the options and the model ask to be kept to the end. */
  ghost predicate Kept(g: Graph, o: Options, t: int) {
    t in g.outputs || t in g.variables || (o.preserveInputs && t in g.inputs) || o.preserveIntermediates
  }

  /** Tensor t carries a value before node i that matters. */
  ghost predicate Alive(g: Graph, o: Options, tensors: seq<TensorInfo>, i: int, t: int) {
    Defined(g, tensors, i, t) && Needed(g, o, i, t)
  }

  // ----- the two layouts

  /** A buffer of its own for each tensor. */
  function PrivateLayout(tensors: seq<TensorInfo>): seq<Region> {
    seq(|tensors|, t requires 0 <= t < |tensors| => Region(2 + t, 0, tensors[t].bytes))
  }

  /** The places that the planner gives the tensors. */
  function SharedLayout(tensors: seq<TensorInfo>, m: Memory): seq<Region>
    requires |m.allocs| == |tensors|
  {
    seq(|tensors|, t requires 0 <= t < |tensors| =>
      match tensors[t].placement
      case ArenaRw => Region(0, m.allocs[t].offset, m.allocs[t].size)
      case ArenaRwPersistent => Region(1, m.allocs[t].offset, m.allocs[t].size)
      case Elsewhere => Region(2 + t, 0, tensors[t].bytes))
  }

  /** The memory after planning and one call of ExecuteAllocations over all nodes. */
  ghost function PlannedMemory(g: Graph, o: Options, tensors: seq<TensorInfo>, alignment: nat): Option<Memory>
    requires alignment > 0
  {
    RunOps(tensors, alignment, EmptyMemory(tensors), OneCallLog(g, o))
  }

  /** What the planner must be given: an executable graph whose temporaries one call serves, and an alignment that the
      arena supports. */
  ghost predicate Plannable(g: Graph, o: Options, tensors: seq<TensorInfo>, alignment: nat) {
    Executable(g, tensors) && ServedAtOnce(g, o) && g.nodes != [] && 0 < alignment <= DEFAULT_ARENA_ALIGNMENT
  }

  /** In an executable graph every node with an output has an entry. */
  lemma OutputGivesEntry(g: Graph, o: Options, tensors: seq<TensorInfo>, i: nat)
    requires Executable(g, tensors) && IsNode(g, i) && g.nodes[i].outputs != []
    ensures HasEntry(Plan(g, o, |g.nodes|), i)
  {
    var t := g.nodes[i].outputs[0];
    assert Produces(g, i, t);
    AllocatedOrigin(g, i, t);
    assert AllocatedAt(g, i, t);
    EntryIffPlanned(g, o, i);
  }

  /** So one call serves a graph if no node from a node without outputs on has temporaries, and any calls over
      consecutive intervals do if the node before it has none either: if all nodes have outputs, for example, or if no
      node has temporaries. */
  lemma OutputsSuffice(g: Graph, o: Options, tensors: seq<TensorInfo>)
    requires Executable(g, tensors)
    ensures (forall i, j :: IsNode(g, i) && g.nodes[i].outputs == [] && IsNode(g, j) && i <= j ==>
      g.nodes[j].temporaries == []) ==> ServedAtOnce(g, o)
    ensures (forall i, j :: IsNode(g, i) && g.nodes[i].outputs == [] && IsNode(g, j) && i - 1 <= j ==>
      g.nodes[j].temporaries == []) ==> TemporariesServed(g, o)
  {
    forall i | IsNode(g, i) && !HasEntry(Plan(g, o, |g.nodes|), i)
      ensures g.nodes[i].outputs == []
    {
      if g.nodes[i].outputs != [] {
        OutputGivesEntry(g, o, tensors, i);
      }
    }
  }

  lemma PlanningSucceeds(g: Graph, o: Options, tensors: seq<TensorInfo>, alignment: nat)
    requires Plannable(g, o, tensors, alignment)
    ensures PlannedMemory(g, o, tensors, alignment).Some? && ServesGraph(g, o, tensors, OneCallLog(g, o))
    ensures |PlannedMemory(g, o, tensors, alignment).value.allocs| == |tensors|
  {
    OneCallServesGraph(g, o, tensors);
    WellUsedRuns(tensors, alignment, OneCallLog(g, o));
  }

  lemma LiveIsAllocated(g: Graph, o: Options, tensors: seq<TensorInfo>, log: seq<Op>, i: nat, t: int)
    requires ServesGraph(g, o, tensors, log) && IsNode(g, i) && LiveAt(g, o, i, t)
    ensures Allocate(t) in log
  {
    assert ServesNode(g, o, log, i);
    var p: seq<Op> :| p <= log && HoldsLive(g, o, p, i);
    HeldWasAllocated(p, t);
    assert log == p + log[|p|..];
  }

  /** The tensors that need memory: what the model provides, what nodes produce, and temporaries. */
  ghost predicate NeedsPlace(g: Graph, t: int) {
    t != OPTIONAL_TENSOR &&
    (t in g.inputs || t in g.variables || Produced(g, t) || exists i :: IsTemporary(g, i, t))
  }

  lemma NeededIsAllocated(g: Graph, o: Options, tensors: seq<TensorInfo>, t: int)
    requires Executable(g, tensors) && ServedAtOnce(g, o) && g.nodes != [] && NeedsPlace(g, t)
    ensures Allocate(t) in OneCallLog(g, o)
  {
    OneCallServesGraph(g, o, tensors);
    var i: nat;
    if t in g.inputs || t in g.variables {
      i := 0;
      ProvidedIsLive(g, o, t);
    } else {
      i :| IsNode(g, i) && (Produces(g, i, t) || IsTemporary(g, i, t));
      TouchedIsLive(g, o, tensors, i, t);
    }
    LiveIsAllocated(g, o, tensors, OneCallLog(g, o), i, t);
  }

  /** In the planned memory, every tensor that needs memory has a block of its size that starts at a multiple of the
      alignment, if it belongs in an arena. */
  lemma PlannedIsAligned(g: Graph, o: Options, tensors: seq<TensorInfo>, alignment: nat, t: int)
    requires Plannable(g, o, tensors, alignment) && NeedsPlace(g, t)
    ensures var r := PlannedMemory(g, o, tensors, alignment);
      r.Some? && 0 <= t < |tensors| == |r.value.allocs| &&
      (tensors[t].placement != Elsewhere ==>
         r.value.allocs[t].offset % alignment == 0 && r.value.allocs[t].size == tensors[t].bytes)
  {
    PlanningSucceeds(g, o, tensors, alignment);
    NeededIsAllocated(g, o, tensors, t);
    AllocatedArePlaced(tensors, alignment, EmptyMemory(tensors), OneCallLog(g, o), t);
  }

  /** For other alignments, planning fails exactly if a tensor that needs memory belongs in an arena. */
  lemma PlanningFailsIffOveraligned(g: Graph, o: Options, tensors: seq<TensorInfo>, alignment: nat)
    requires Executable(g, tensors) && ServedAtOnce(g, o) && g.nodes != [] && 0 < alignment
    ensures PlannedMemory(g, o, tensors, alignment) == None <==>
      alignment > 64 && exists t :: NeedsPlace(g, t) && 0 <= t < |tensors| && tensors[t].placement != Elsewhere
  {
    OneCallServesGraph(g, o, tensors);
    FailsIffOveraligned(tensors, alignment, OneCallLog(g, o));
    forall t
      ensures Allocate(t) in OneCallLog(g, o) <==> NeedsPlace(g, t)
    {
      if NeedsPlace(g, t) {
        NeededIsAllocated(g, o, tensors, t);
      } else if Allocate(t) in OneCallLog(g, o) {
        AllocatedIsNeeded(g, o, tensors, t);
      }
    }
  }

  /** Nothing else is allocated. */
  lemma AllocatedIsNeeded(g: Graph, o: Options, tensors: seq<TensorInfo>, t: int)
    requires Executable(g, tensors) && g.nodes != [] && Allocate(t) in OneCallLog(g, o)
    ensures NeedsPlace(g, t)
  {
    var temps, q, n := NodeTemporaries(g), Plan(g, o, |g.nodes|), |g.nodes|;
    NoEntryBehind(g, o);
    NothingAllocatedPastGap(temps, q, 0, n - 1, 0, n, [], t);
    if e :| e in q && OpOf(e) == Allocate(t) {
      PlanExact(g, o, e);
      assert AllocatedAt(g, e.node, t);
    } else {
      var i :| 0 <= i < n && t in Temporaries(temps, i);
      assert IsTemporary(g, i, t);
    }
  }

  lemma NoEntryBehind(g: Graph, o: Options)
    requires g.nodes != []
    ensures !HasEntry(Plan(g, o, |g.nodes|), |g.nodes|)
  {
    EntryIffPlanned(g, o, |g.nodes|);
  }

  /** Planning with a new planner and executing over all nodes at once succeeds, and ends in the planned memory. */
  method PlanAndExecute(planner: Planner.ArenaPlanner) returns (ok: bool)
    requires planner.Valid() && planner.allocQueue == []
    requires Plannable(planner.graph, planner.options, planner.tensors, planner.tensorAlignment)
    modifies planner, planner.arena, planner.persistentArena
    ensures ok && planner.Valid()
    ensures PlannedMemory(planner.graph, planner.options, planner.tensors, planner.tensorAlignment) ==
      Some(planner.Current())
    ensures forall t :: NeedsPlace(planner.graph, t) ==>
      PlacedAt(planner.tensors, planner.tensorAlignment, planner.Current(), t)
  {
    QueueInRange(planner.graph, planner.options);
    planner.PlanAllocations();
    assert [] + Plan(planner.graph, planner.options, |planner.graph.nodes|) ==
      Plan(planner.graph, planner.options, |planner.graph.nodes|);
    ok := ExecuteOnce(planner);
    PlanningSucceeds(planner.graph, planner.options, planner.tensors, planner.tensorAlignment);
    forall t | NeedsPlace(planner.graph, t)
      ensures PlacedAt(planner.tensors, planner.tensorAlignment, planner.Current(), t)
    {
      PlannedIsAligned(planner.graph, planner.options, planner.tensors, planner.tensorAlignment, t);
    }
  }

  /** One call over all nodes, right after planning. */
  method ExecuteOnce(planner: Planner.ArenaPlanner) returns (ok: bool)
    requires planner.Valid() && planner.allocQueue == Plan(planner.graph, planner.options, |planner.graph.nodes|)
    requires planner.Current() == EmptyMemory(planner.tensors)
    requires forall k :: 0 <= k < |planner.allocQueue| ==> IsTensor(planner.graph, planner.allocQueue[k].tensor)
    requires forall k, t :: IsNode(planner.graph, k) && t in planner.graph.nodes[k].temporaries ==>
      IsTensor(planner.graph, t)
    modifies planner, planner.arena, planner.persistentArena
    ensures planner.Valid()
    ensures PlannedMemory(planner.graph, planner.options, planner.tensors, planner.tensorAlignment) ==
      if ok then Some(planner.Current()) else None
  {
    assert Planner.Grown(planner.allocs, planner.graph.numTensors) == planner.allocs;
    ok := planner.ExecuteAllocations(0, |planner.graph.nodes| - 1);
  }

  lemma QueueInRange(g: Graph, o: Options)
    requires MemoryPlan.ValidGraph(g) && PrivateTemporaries(g)
    ensures var q := Plan(g, o, |g.nodes|); forall k :: 0 <= k < |q| ==> IsTensor(g, q[k].tensor)
    ensures forall k, t :: IsNode(g, k) && t in g.nodes[k].temporaries ==> IsTensor(g, t)
  {
    var q := Plan(g, o, |g.nodes|);
    forall k | 0 <= k < |q|
      ensures IsTensor(g, q[k].tensor)
    {
      PlanTensorsAllocated(g, o, |g.nodes|, q[k]);
      AllocatedAreTensors(g, |g.nodes|, q[k].tensor);
    }
    assert forall k, t :: IsNode(g, k) && t in g.nodes[k].temporaries ==> IsTemporary(g, k, t);
  }

  // ----- what is alive is held

  lemma DefinedIsAllocated(g: Graph, tensors: seq<TensorInfo>, i: nat, t: int)
    requires Executable(g, tensors) && i <= |g.nodes| && Defined(g, tensors, i, t) && IsTensor(g, t)
    requires tensors[t].placement != Elsewhere
    ensures t in AllocatedBefore(g, i)
  {
    AllocatedOrigin(g, i, t);
  }

  lemma DefinedIsTensor(g: Graph, tensors: seq<TensorInfo>, i: int, t: int)
    requires Executable(g, tensors) && Defined(g, tensors, i, t)
    ensures IsTensor(g, t)
  {
    if !Provided(g, tensors, t) {
      var m :| m < i && Produces(g, m, t);
    }
  }

  lemma AliveIsLive(g: Graph, o: Options, tensors: seq<TensorInfo>, i: nat, next: nat, t: int)
    requires Executable(g, tensors) && IsNode(g, i) && next == i + 1 && IsTensor(g, t)
    requires Alive(g, o, tensors, i, t) || Alive(g, o, tensors, next, t)
    requires tensors[t].placement != Elsewhere
    ensures LiveAt(g, o, i, t)
  {
    assert Defined(g, tensors, next, t);
    DefinedIsAllocated(g, tensors, next, t);
    if FreedBefore(g, o, i, t) {
      FreedIsDead(g, o, i, t);
    }
  }

  lemma TouchedIsLive(g: Graph, o: Options, tensors: seq<TensorInfo>, i: nat, t: int)
    requires Executable(g, tensors) && IsNode(g, i) && Touched(g, i, t)
    ensures LiveAt(g, o, i, t)
  {
    VariablesOfContents(g, g.nodes[i].inputs, t);
    if t !in g.nodes[i].temporaries {
      assert t in g.nodes[i].outputs ==> Produces(g, i, t);
      AllocatedOrigin(g, i + 1, t);
      AllocatedOrigin(g, i, t);
      if FreedBefore(g, o, i, t) {
        FreedIsDead(g, o, i, t);
      }
    }
  }

  /** Around node i, the layout gives tensor t its full size, clear of all other tensors that the node touches. */
  ghost predicate GoodFor(g: Graph, o: Options, tensors: seq<TensorInfo>, layout: seq<Region>, i: int, next: int,
                          t: int)
    requires IsNode(g, i)
  {
    Alive(g, o, tensors, i, t) || Alive(g, o, tensors, next, t) ==>
      0 <= t < |tensors| == |layout| && ClearAt(g, layout, i, t) && layout[t].size == tensors[t].bytes
  }

  ghost predicate GoodLayout(g: Graph, o: Options, tensors: seq<TensorInfo>, layout: seq<Region>) {
    |layout| == |tensors| &&
    forall i, next, t :: IsNode(g, i) && next == i + 1 ==> GoodFor(g, o, tensors, layout, i, next, t)
  }

  lemma SharedIsClear(g: Graph, o: Options, tensors: seq<TensorInfo>, alignment: nat, i: nat, next: nat, t: int)
    requires Plannable(g, o, tensors, alignment) && IsNode(g, i) && next == i + 1
    requires Alive(g, o, tensors, i, t) || Alive(g, o, tensors, next, t)
    ensures var r := PlannedMemory(g, o, tensors, alignment);
      && r.Some? && |r.value.allocs| == |tensors| && IsTensor(g, t)
      && ClearAt(g, SharedLayout(tensors, r.value), i, t)
      && SharedLayout(tensors, r.value)[t].size == tensors[t].bytes
  {
    PlanningSucceeds(g, o, tensors, alignment);
    DefinedIsTensor(g, tensors, next, t);
    var layout := SharedLayout(tensors, PlannedMemory(g, o, tensors, alignment).value);
    if tensors[t].placement != Elsewhere {
      AliveIsLive(g, o, tensors, i, next, t);
      LiveTensorsApart(g, o, tensors, alignment, OneCallLog(g, o), i, t, t);
    }
    forall u | Touched(g, i, u) && 0 <= u < |layout| && u != t
      ensures Separate(layout[u], layout[t])
    {
      TouchedIsLive(g, o, tensors, i, u);
      if tensors[t].placement != Elsewhere {
        LiveTensorsApart(g, o, tensors, alignment, OneCallLog(g, o), i, u, t);
      }
    }
  }

  /** The places that planning gives the tensors are good. */
  lemma SharedIsGood(g: Graph, o: Options, tensors: seq<TensorInfo>, alignment: nat)
    requires Plannable(g, o, tensors, alignment)
    ensures var r := PlannedMemory(g, o, tensors, alignment);
      r.Some? && |r.value.allocs| == |tensors| && GoodLayout(g, o, tensors, SharedLayout(tensors, r.value))
  {
    PlanningSucceeds(g, o, tensors, alignment);
    var layout := SharedLayout(tensors, PlannedMemory(g, o, tensors, alignment).value);
    forall i, next, t | IsNode(g, i) && next == i + 1
      ensures GoodFor(g, o, tensors, layout, i, next, t)
    {
      if Alive(g, o, tensors, i, t) || Alive(g, o, tensors, next, t) {
        SharedIsClear(g, o, tensors, alignment, i, next, t);
      }
    }
  }

  lemma PrivateIsGood(g: Graph, o: Options, tensors: seq<TensorInfo>)
    requires Executable(g, tensors)
    ensures GoodLayout(g, o, tensors, PrivateLayout(tensors))
  {
    forall i, next, t | IsNode(g, i) && next == i + 1
      ensures GoodFor(g, o, tensors, PrivateLayout(tensors), i, next, t)
    {
      if Alive(g, o, tensors, i, t) || Alive(g, o, tensors, next, t) {
        DefinedIsTensor(g, tensors, next, t);
      }
    }
  }

  // ----- runs in two good layouts agree

  /** Both stores hold the same bytes for every tensor that is alive before node i. */
  ghost predicate SameAlive(g: Graph, o: Options, tensors: seq<TensorInfo>, i: int,
                            a: seq<Region>, s: Store, b: seq<Region>, p: Store)
    requires |a| == |b| == |tensors|
  {
    forall t :: Alive(g, o, tensors, i, t) && 0 <= t < |tensors| ==> Load(s, a[t]) == Load(p, b[t])
  }

  lemma SameInputs(g: Graph, o: Options, tensors: seq<TensorInfo>, i: nat,
                   a: seq<Region>, s: Store, b: seq<Region>, p: Store)
    requires Executable(g, tensors) && IsNode(g, i) && |a| == |b| == |tensors|
    requires SameAlive(g, o, tensors, i, a, s, b, p)
    ensures Contents(s, a, g.nodes[i].inputs) == Contents(p, b, g.nodes[i].inputs)
  {
    var ts := g.nodes[i].inputs;
    forall k | 0 <= k < |ts|
      ensures Contents(s, a, ts)[k] == Contents(p, b, ts)[k]
    {
      var t := ts[k];
      assert Consumes(g, i, t) && ConsumedFrom(g, i, t);
      if 0 <= t < |tensors| {
        if Produced(g, t) {
          var m :| Produces(g, m, t);
          assert ProducedBefore(g, i, t);
        }
        assert Alive(g, o, tensors, i, t);
      }
    }
  }

  /** A tensor that is alive after node i and that the node does not write was alive before, and is no temporary. */
  lemma AliveBeforeNode(g: Graph, o: Options, tensors: seq<TensorInfo>, i: nat, next: nat, t: int)
    requires Executable(g, tensors) && IsNode(g, i) && next == i + 1
    requires Alive(g, o, tensors, next, t) && t !in Writes(g, i)
    ensures Alive(g, o, tensors, i, t) && t !in g.nodes[i].temporaries
  {
    assert !Produces(g, i, t);
    AllocatedOrigin(g, |g.nodes|, t);
    assert ProducedBefore(g, next, t) ==> ProducedBefore(g, |g.nodes|, t);
    DefinedIsTensor(g, tensors, next, t);
    assert !IsTemporary(g, i, t);
  }

  lemma SameAfterNode(g: Graph, o: Options, tensors: seq<TensorInfo>, kernels: Kernels, scratchA: Scratch,
                      scratchB: Scratch,
                      a: seq<Region>, s: Store, b: seq<Region>, p: Store, i: nat, next: nat, t: int)
    requires Executable(g, tensors) && IsNode(g, i) && next == i + 1 && Alive(g, o, tensors, next, t)
    requires |a| == |b| == |tensors|
    requires GoodFor(g, o, tensors, a, i, next, t) && GoodFor(g, o, tensors, b, i, next, t)
    requires SameAlive(g, o, tensors, i, a, s, b, p)
    ensures 0 <= t < |tensors|
    ensures Load(RunNode(g, kernels, scratchA, a, s, i), a[t]) == Load(RunNode(g, kernels, scratchB, b, p, i), b[t])
  {
    if t in Writes(g, i) {
      SameInputs(g, o, tensors, i, a, s, b, p);
      WrittenTensor(g, kernels, scratchA, a, s, i, t);
      WrittenTensor(g, kernels, scratchB, b, p, i, t);
    } else {
      AliveBeforeNode(g, o, tensors, i, next, t);
      UntouchedTensor(g, kernels, scratchA, a, s, i, t);
      UntouchedTensor(g, kernels, scratchB, b, p, i, t);
    }
  }

  lemma {:induction false} RunsAgree(g: Graph, o: Options, tensors: seq<TensorInfo>, kernels: Kernels,
                                     scratchA: Scratch, scratchB: Scratch,
                                     a: seq<Region>, s: Store, b: seq<Region>, p: Store, n: nat)
    requires Executable(g, tensors) && n <= |g.nodes|
    requires GoodLayout(g, o, tensors, a) && GoodLayout(g, o, tensors, b)
    requires SameAlive(g, o, tensors, 0, a, s, b, p)
    ensures SameAlive(g, o, tensors, n, a, Run(g, kernels, scratchA, a, s, n), b, Run(g, kernels, scratchB, b, p, n))
  {
    if n > 0 {
      var i := n - 1;
      RunsAgree(g, o, tensors, kernels, scratchA, scratchB, a, s, b, p, i);
      var s', p' := Run(g, kernels, scratchA, a, s, i), Run(g, kernels, scratchB, b, p, i);
      forall t | Alive(g, o, tensors, n, t) && 0 <= t < |tensors|
        ensures Load(RunNode(g, kernels, scratchA, a, s', i), a[t]) ==
          Load(RunNode(g, kernels, scratchB, b, p', i), b[t])
      {
        assert GoodFor(g, o, tensors, a, i, n, t) && GoodFor(g, o, tensors, b, i, n, t);
        SameAfterNode(g, o, tensors, kernels, scratchA, scratchB, a, s', b, p', i, n, t);
      }
    }
  }

  /** The main result. Plan, replay over all nodes once, load what the model provides, and run all nodes in the
      shared arenas: every tensor that the graph keeps, its outputs first of all, ends with the bytes that it has
      when each tensor has a buffer of its own. The node functions, the sizes, the garbage left in temporaries and
      the initial contents of the memory are arbitrary. */
  lemma SharingIsUnobservable(g: Graph, o: Options, tensors: seq<TensorInfo>, alignment: nat, kernels: Kernels,
                              scratchS: Scratch, scratchP: Scratch, s: Store, p: Store)
    requires Plannable(g, o, tensors, alignment)
    requires var r := PlannedMemory(g, o, tensors, alignment);
      r.Some? && |r.value.allocs| == |tensors| ==>
      forall t :: Provided(g, tensors, t) && 0 <= t < |tensors| ==>
        Load(s, SharedLayout(tensors, r.value)[t]) == Load(p, PrivateLayout(tensors)[t])
    ensures var r := PlannedMemory(g, o, tensors, alignment);
      && r.Some? && |r.value.allocs| == |tensors|
      && var shared, own, n := SharedLayout(tensors, r.value), PrivateLayout(tensors), |g.nodes|;
         forall t :: Kept(g, o, t) && Defined(g, tensors, n, t) && 0 <= t < |tensors| ==>
           Load(Run(g, kernels, scratchS, shared, s, n), shared[t]) ==
             Load(Run(g, kernels, scratchP, own, p, n), own[t])
  {
    SharedIsGood(g, o, tensors, alignment);
    PrivateIsGood(g, o, tensors);
    var shared := SharedLayout(tensors, PlannedMemory(g, o, tensors, alignment).value);
    assert forall t :: Alive(g, o, tensors, 0, t) ==> Provided(g, tensors, t);
    RunsAgree(g, o, tensors, kernels, scratchS, scratchP, shared, s, PrivateLayout(tensors), p, |g.nodes|);
    forall t | Kept(g, o, t) && Defined(g, tensors, |g.nodes|, t)
      ensures Alive(g, o, tensors, |g.nodes|, t)
    {
    }
  }

  /** The premise can be met: any values can be loaded into the inputs and variables at their shared places. */
  lemma InputsCanBeLoaded(g: Graph, o: Options, tensors: seq<TensorInfo>, alignment: nat, store: Store,
                          values: (int, int) -> Byte, t: int)
    requires Plannable(g, o, tensors, alignment) && t in g.inputs + g.variables && t != OPTIONAL_TENSOR
    ensures var r := PlannedMemory(g, o, tensors, alignment);
      && r.Some? && |r.value.allocs| == |tensors| && IsTensor(g, t)
      && var shared := SharedLayout(tensors, r.value);
         Load(StoreAll(store, shared, g.inputs + g.variables, values), shared[t]) ==
           seq(tensors[t].bytes, k => values(t, k))
  {
    PlanningSucceeds(g, o, tensors, alignment);
    var ts := g.inputs + g.variables;
    var shared := SharedLayout(tensors, PlannedMemory(g, o, tensors, alignment).value);
    forall u | u in ts && 0 <= u < |shared|
      ensures u != t ==> Separate(shared[u], shared[t])
      ensures tensors[t].placement != Elsewhere ==> shared[t].size == tensors[t].bytes
    {
      ProvidedApart(g, o, tensors, alignment, u, t);
    }
    StoreAllThere(store, shared, ts, values, t);
  }

  /** Two tensors that the model provides have separate blocks. */
  lemma ProvidedApart(g: Graph, o: Options, tensors: seq<TensorInfo>, alignment: nat, u: int, t: int)
    requires Plannable(g, o, tensors, alignment)
    requires u in g.inputs + g.variables && t in g.inputs + g.variables && u != OPTIONAL_TENSOR && t != OPTIONAL_TENSOR
    ensures var r := PlannedMemory(g, o, tensors, alignment);
      && r.Some? && |r.value.allocs| == |tensors| && IsTensor(g, t) && IsTensor(g, u)
      && var shared := SharedLayout(tensors, r.value);
         && (u != t ==> Separate(shared[u], shared[t]))
         && (tensors[t].placement != Elsewhere ==> shared[t].size == tensors[t].bytes)
  {
    ProvidedBlocks(g, o, tensors, alignment, u, t);
    ProvidedBlocks(g, o, tensors, alignment, t, u);
    ApartIsSeparate(tensors, PlannedMemory(g, o, tensors, alignment).value, u, t);
  }

  lemma ProvidedBlocks(g: Graph, o: Options, tensors: seq<TensorInfo>, alignment: nat, u: int, t: int)
    requires Plannable(g, o, tensors, alignment)
    requires u in g.inputs + g.variables && t in g.inputs + g.variables && u != OPTIONAL_TENSOR && t != OPTIONAL_TENSOR
    ensures var r := PlannedMemory(g, o, tensors, alignment);
      && r.Some? && |r.value.allocs| == |tensors| && IsTensor(g, u) && Apart(tensors, r.value, u, t)
      && SizedFor(tensors, r.value, u)
  {
    PlanningSucceeds(g, o, tensors, alignment);
    ProvidedIsLive(g, o, u);
    ProvidedIsLive(g, o, t);
    LiveTensorsApart(g, o, tensors, alignment, OneCallLog(g, o), 0, u, t);
  }

  lemma ProvidedIsLive(g: Graph, o: Options, t: int)
    requires |g.nodes| > 0 && t in g.inputs + g.variables && t != OPTIONAL_TENSOR
    ensures LiveAt(g, o, 0, t)
  {
    AllocatedOrigin(g, 1, t);
  }

  predicate SizedFor(tensors: seq<TensorInfo>, m: Memory, t: int)
    requires |m.allocs| == |tensors| && 0 <= t < |tensors|
  {
    tensors[t].placement != Elsewhere ==> m.allocs[t].size == tensors[t].bytes
  }

  lemma ApartIsSeparate(tensors: seq<TensorInfo>, m: Memory, u: int, t: int)
    requires |m.allocs| == |tensors| && 0 <= u < |tensors| && 0 <= t < |tensors|
    requires Apart(tensors, m, u, t) && SizedFor(tensors, m, u) && SizedFor(tensors, m, t)
    ensures u != t ==> Separate(SharedLayout(tensors, m)[u], SharedLayout(tensors, m)[t])
  {
  }
}
