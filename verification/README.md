# Models of TensorFlow's graph planning, function conversion, tensor formats and session protocols

This project models parts of the TensorFlow snapshot and of the image classifier that uses it, and proves properties
of the models. The models follow the code step by step: what the code changes in place is changed in place here, its
loops are loops, and its error branches are there.

* **Graph partitioning** (`GraphInfo`, `Partitioner`, `PartitionTheorems`, `PartitionDetermined`, `PartitionMeaning`).
  TensorFlow Lite splits a dataflow graph into subsets for a delegate and for itself. The split is determined by the
  graph and the kinds of its nodes, preserves the meaning of the graph, has exact boundary lists, and has at most one
  subset more than necessary.
* **Arena planning** (`Arena`, `MemoryPlan`, `Planner`, `PlanTheorems`, `PlanOrder`, `Replay`, `ArenaMemory`,
  `ArenaSharing`, `ArenaOneCall`, `SharedArena`). A plan by reference counts says when tensors are allocated and
  freed, and in which order; it is replayed against a best-fit arena with aligned blocks. Sharing memory this way
  cannot be observed. The replay over several intervals equals the replay in one call exactly when the nodes without
  entries in the queue are harmless, a condition on the temporaries around them.
* **Functions from graphs** (`NodeNames`, `FunctionGraph`, `FunctionConversion`, `GraphToFunction`, `FunctionMeaning`,
  `FunctionText`). A graph is turned into a function definition whose names are normalised and made unique. The
  definition can be instantiated without name clashes, and computes what the graph computes with its inputs
  overridden.
* **Tensor formats** (`Varint`, `StringFormat`, `StringTensor`, `StringLayout`, `NestedValues`, `GoTensor`,
  `GoTensorLayout`, `GoStringTensor`). The C and the Go interface encode string tensors into the same bytes and decode
  each other's; nested numeric slices round-trip exactly when they are rectangular. Varints are the base 128 varints
  of the Protocol Buffers encoding.
* **Lists of shapes** (`PartialShape`, `ShapeList`). Shapes are kept in compact forms and travel through flat buffers;
  the round trip holds exactly for the shapes that the compact forms can keep.
* **Protocols** (`GoSession`, `GoSessionCalls`, `GraphLifetime`, `GraphLifetimeCalls`, `SessionExtend`,
  `SessionExtendCalls`). Running and closing Go sessions, deleting a graph that sessions share, and sending a growing
  graph to its sessions, as steps of any number of threads in any order.
* **Top labels** (`TopLabels`). The bounded priority queue of the image classifier.

`Wrappers`, `Sequences` and `MachineNumbers` hold what several modules use.

The protocols are state machines: a state, a step of one thread, and runs as lists of states. A step is what a thread
does between two points where another thread can come in; taking a mutex, waiting and every access to shared fields
are steps of their own. Safety is stated for every state of every run; what a call has done when it returns is stated
for every call in every run, whatever other threads do meanwhile. Progress is stated for each of the three protocols:
while a call is going on some thread can go on, and without new calls every schedule ends, as the calls have only so
many steps left.

Node functions, kernels, the contents of tensors, the garbage in unused memory, the byte order of the machine and the
outcomes of native calls are parameters. What callers have to ensure is stated as preconditions: indices in range, one
producer for each tensor, no cycles (only where the claim needs it), unique node names, one deletion of a graph and no
new sessions after it.

Where the code and its comments or its obvious intent differ, the models follow the code:

* `ResetAllocations` does not clear the allocation queue, so planning twice appends a second plan
  (`lite/arena_planner.cc:53-59`); `PlanAllocations` states what is appended.
* `deallocated` is never set, so the checks on it always pass (`lite/arena_planner.cc:70-92`); that a tensor is freed
  at most once follows from the reference counts alone.
* The replay notices a node only by its first queue entry, so it stalls at a node without entries
  (`lite/arena_planner.cc:217-225`); `Replay` gives the exact conditions under which this does no harm, and
  `ArenaSharing` a graph for which it does.
* Shapes with dimensions below -1 are accepted when they are set, and are then either changed to -1 or refused when
  they are read (`core/framework/tensor_shape.cc:240-301`); `ShapeList.RoundTrip` gives the exact condition, and
  `ShapeList.MinusTwoIsLost` an input.
* An array access that fails in the middle of selecting labels leaves entries in the shared queue
  (`CustomImageClassifier.java:220-226`); the next call's result is stated for that case too.

## Model

| member | source | states |
|---|---|---|
| Partitioner.PartitionGraphIntoIndependentNodeSubsetsImpl.constructor | ML Kit Java/tensorflow-master/tensorflow/lite/graph_info.cc:53-63 | a node is of the partition kind exactly if it is listed |
| Partitioner.PartitionGraphIntoIndependentNodeSubsetsImpl.UpdateNode | ML Kit Java/tensorflow-master/tensorflow/lite/graph_info.cc:130-182 | a node is placed exactly if it is unplaced, all its inputs are ready, and the last subset is of its kind or still of none; otherwise nothing changes, and every placement keeps the whole invariant and lowers the count of unplaced nodes |
| Partitioner.PartitionGraphIntoIndependentNodeSubsetsImpl.InputsReady | ML Kit Java/tensorflow-master/tensorflow/lite/graph_info.cc:140-144 | the inputs are ready exactly if none of them waits for an unplaced producer |
| Partitioner.PartitionGraphIntoIndependentNodeSubsetsImpl.Place | ML Kit Java/tensorflow-master/tensorflow/lite/graph_info.cc:147-178 | the whole new state: node and output epochs, the node at the end of the last subset, and which boundary lists gain which tensors |
| Partitioner.PartitionGraphIntoIndependentNodeSubsetsImpl.PlaceOutputs | ML Kit Java/tensorflow-master/tensorflow/lite/graph_info.cc:159-161 | exactly the outputs of the node change their epoch |
| Partitioner.PartitionGraphIntoIndependentNodeSubsetsImpl.RecordInputs | ML Kit Java/tensorflow-master/tensorflow/lite/graph_info.cc:162-177 | an input is listed in the last subset, and as output of the subset where it resides, exactly if it resides in another subset |
| Partitioner.PartitionGraphIntoIndependentNodeSubsetsImpl.Pass | ML Kit Java/tensorflow-master/tensorflow/lite/graph_info.cc:189-195 | one sweep over the nodes either places a node, or leaves the state alone and no node can be placed; no node that the loop has passed since the last placement can be placed |
| Partitioner.PartitionGraphIntoIndependentNodeSubsetsImpl.BuildNodeSubset | ML Kit Java/tensorflow-master/tensorflow/lite/graph_info.cc:185-197 | the inner fixpoint loop ends; the new subset is empty exactly when no unplaced node is ready at all |
| Partitioner.PartitionGraphIntoIndependentNodeSubsetsImpl.AssignEpochs | ML Kit Java/tensorflow-master/tensorflow/lite/graph_info.cc:66-91 | both fixpoint loops end on every graph, cyclic or not, by the count of unplaced nodes, and then no unplaced node is ready |
| Partitioner.PartitionGraphIntoIndependentNodeSubsetsImpl.MarkModelOutputs | ML Kit Java/tensorflow-master/tensorflow/lite/graph_info.cc:95-99 | exactly the model outputs are added, each to the subset that produces it |
| Partitioner.PartitionGraphIntoIndependentNodeSubsetsImpl.UniquefyTensors | ML Kit Java/tensorflow-master/tensorflow/lite/graph_info.cc:103-112 | the boundary lists become sorted and free of duplicates and keep their members |
| Partitioner.PartitionGraphIntoIndependentNodeSubsetsImpl.Partition | ML Kit Java/tensorflow-master/tensorflow/lite/graph_info.cc:66-113 | on an acyclic single-producer graph the result is a complete partition: every node placed once, subsets of one kind, greedy, dependency-ordered, nodes in the order in which the loop comes to them when they are ready, boundary lists sorted and exact (consumed but not produced inside; produced inside and consumed by another subset or a model output) |
| Partitioner.PartitionGraphIntoIndependentNodeSubsets | ML Kit Java/tensorflow-master/tensorflow/lite/graph_info.cc:215-222 | the entry point: the list of nodes to partition gives the kinds, and the returned subsets are such a partition |
| Partitioner.MovedKeepsInv | ML Kit Java/tensorflow-master/tensorflow/lite/graph_info.cc:130-182 | placing a node keeps: epochs, positions, kinds, dependency order and boundary lists all agree |
| Partitioner.StuckIsSettled | ML Kit Java/tensorflow-master/tensorflow/lite/graph_info.cc:185-197 | when a sweep places nothing, the subset is finished: every node that is ready for it and of its kind is in it |
| Partitioner.AcyclicPlaced | ML Kit Java/tensorflow-master/tensorflow/lite/graph_info.cc:85-91 | on an acyclic graph a state in which no unplaced node is ready has no unplaced node |
| PartitionTheorems.SubsetsAreTopological | ML Kit Java/tensorflow-master/tensorflow/lite/graph_info.cc:66-113 | the subsets one after the other are a topological order of the whole graph |
| PartitionTheorems.OwnSubset | ML Kit Java/tensorflow-master/tensorflow/lite/graph_info.cc:145-157 | every node lies in exactly one subset, at one place, and that subset is of its kind |
| PartitionTheorems.AllPlacedIffAcyclic | ML Kit Java/tensorflow-master/tensorflow/lite/graph_info.cc:85-91 | the loops place every node if and only if the graph is acyclic |
| PartitionTheorems.InputComesFromOneEarlierSubset | ML Kit Java/tensorflow-master/tensorflow/lite/graph_info.cc:164-177 | an input of a subset that some node produces is listed as output by exactly one subset, a strictly earlier one; any other input by none |
| PartitionTheorems.KindsAlternate | ML Kit Java/tensorflow-master/tensorflow/lite/graph_info.cc:145-157 | consecutive subsets are of different kinds |
| PartitionTheorems.KindByParity | ML Kit Java/tensorflow-master/tensorflow/lite/graph_info.cc:145-157 | the kind of a subset is that of the first one exactly at even positions |
| PartitionTheorems.GreedyIsEarliest | ML Kit Java/tensorflow-master/tensorflow/lite/graph_info.cc:145-157 | in any homogeneous dependency-ordered grouping that starts with the same kind, no node lies in an earlier group, counted by changes of kind |
| PartitionTheorems.MinimalForItsFirstKind | ML Kit Java/tensorflow-master/tensorflow/lite/graph_info.cc:145-157 | no such grouping has fewer groups than the greedy result |
| PartitionTheorems.AtMostOneAboveMinimum | ML Kit Java/tensorflow-master/tensorflow/lite/graph_info.cc:145-157 | no homogeneous dependency-ordered grouping at all has fewer groups by more than one |
| PartitionTheorems.OneAboveMinimumHappens | ML Kit Java/tensorflow-master/tensorflow/lite/graph_info.cc:145-157 | a concrete graph where the greedy result has one group more than the minimum, so the bound is sharp |
| PartitionDetermined.SameNext | ML Kit Java/tensorflow-master/tensorflow/lite/graph_info.cc:185-197 | with the same nodes at all earlier places, two partitions of a graph have the same node at the next place: the first ready one for a new subset, the next ready one of the kind that the loop comes to otherwise |
| PartitionDetermined.PartitionIsDetermined | ML Kit Java/tensorflow-master/tensorflow/lite/graph_info.cc:66-197 | any two partitions of a graph with the same kinds are equal: subsets, kinds, the order of the nodes in them and the boundary lists leave no choice |
| PartitionMeaning.RunSolves | ML Kit Java/tensorflow-master/tensorflow/lite/graph_info.cc:130-182 | running nodes in dependency order solves the equations of the nodes that have run and overwrites nothing |
| PartitionMeaning.OrderDoesNotMatter | ML Kit Java/tensorflow-master/tensorflow/lite/graph_info.cc:66-113 | any two topological orders give every tensor the same value |
| PartitionMeaning.SubsetsFollowSolution | ML Kit Java/tensorflow-master/tensorflow/lite/graph_info.cc:95-112 | running subsets as black boxes that see only their listed inputs and show only their listed outputs follows any solution of the whole graph |
| PartitionMeaning.PartitionPreservesMeaning | ML Kit Java/tensorflow-master/tensorflow/lite/graph_info.cc:66-182 | for arbitrary node functions, running the subsets as black boxes in order gives every model output the value that any topological run of the whole graph gives it |
| Arena.AlignToIsLeastMultiple | ML Kit Java/tensorflow-master/tensorflow/lite/simple_memory_arena.cc:26-29 | the aligned offset is the least multiple of the alignment that is not below the offset |
| Arena.SimpleMemoryArena.Allocate | ML Kit Java/tensorflow-master/tensorflow/lite/simple_memory_arena.cc:35-81 | fails exactly if the alignment is too large; else the block is the best-fit block, inserted in order, and no other block changes |
| Arena.SimpleMemoryArena.FindBestFit | ML Kit Java/tensorflow-master/tensorflow/lite/simple_memory_arena.cc:53-71 | the offset and place are those of the first narrowest gap that fits, or the aligned end |
| Arena.BestFitUnique | ML Kit Java/tensorflow-master/tensorflow/lite/simple_memory_arena.cc:53-71 | the declarative best-fit condition determines the choice |
| Arena.SimpleMemoryArena.Deallocate | ML Kit Java/tensorflow-master/tensorflow/lite/simple_memory_arena.cc:83-102 | removes the one block at the offset; fails exactly if there is none of that offset and size |
| Arena.SimpleMemoryArena.Clear | ML Kit Java/tensorflow-master/tensorflow/lite/simple_memory_arena.cc:144-149 | no blocks are left |
| Arena.AllocateStep | ML Kit Java/tensorflow-master/tensorflow/lite/simple_memory_arena.cc:35-81 | a successful allocation keeps the blocks sorted and disjoint; the new block is of the asked size and disjoint from all others |
| Arena.NewBlockIsAligned | ML Kit Java/tensorflow-master/tensorflow/lite/simple_memory_arena.cc:35-81 | the block of an allocation starts at a multiple of the alignment |
| Arena.AllocationIsBestFit | ML Kit Java/tensorflow-master/tensorflow/lite/simple_memory_arena.cc:53-71 | in terms of the blocks alone: the new block goes to the narrowest gap that has room for an aligned block, of several the first, and behind the last block if none has, at the first aligned offset there |
| Arena.DeallocateStep | ML Kit Java/tensorflow-master/tensorflow/lite/simple_memory_arena.cc:83-102 | freeing a block of the layout succeeds and removes that block only |
| Arena.DeallocateUndoesAllocate | ML Kit Java/tensorflow-master/tensorflow/lite/simple_memory_arena.cc:35-102 | freeing a block just allocated restores the layout as it was |
| Planner.ArenaPlanner.ResetAllocations | ML Kit Java/tensorflow-master/tensorflow/lite/arena_planner.cc:53-59 | both arenas and all blocks are cleared; the queue is not |
| Planner.ArenaPlanner.PlanAllocations | ML Kit Java/tensorflow-master/tensorflow/lite/arena_planner.cc:61-180 | the queue gains exactly the plan, which OnlyPlan characterises without recursion and reference counts |
| Planner.ArenaPlanner.AllocateAll | ML Kit Java/tensorflow-master/tensorflow/lite/arena_planner.cc:112-130 | exactly the tensors not allocated before get one entry each, in the order of their first occurrences in the list |
| Planner.ArenaPlanner.CountReferences | ML Kit Java/tensorflow-master/tensorflow/lite/arena_planner.cc:102-142 | the counts are uses by nodes plus one for each reason to keep the tensor |
| Planner.ArenaPlanner.ReleaseInput | ML Kit Java/tensorflow-master/tensorflow/lite/arena_planner.cc:166-172 | the count drops by one, and an entry is queued exactly at the last use of an allocated tensor that is not kept |
| Planner.ArenaPlanner.PlanNode | ML Kit Java/tensorflow-master/tensorflow/lite/arena_planner.cc:151-174 | one node adds its new outputs, then the tensors that die at it |
| MemoryPlan.ZeroMeansLastUse | ML Kit Java/tensorflow-master/tensorflow/lite/arena_planner.cc:163-173 | a count reaches zero exactly at the last use of a tensor that is not kept |
| PlanTheorems.PlanExact | ML Kit Java/tensorflow-master/tensorflow/lite/arena_planner.cc:65-175 | an entry is in the queue if and only if it allocates a tensor where it first appears or frees it at its last consumer |
| PlanTheorems.PlanOrdered | ML Kit Java/tensorflow-master/tensorflow/lite/arena_planner.cc:65-175 | the queue is ordered by node, with the allocations of a node before its deallocations |
| PlanTheorems.PlannedOnce | ML Kit Java/tensorflow-master/tensorflow/lite/arena_planner.cc:65-175 | at most one allocation and one deallocation for each tensor, the allocation first |
| PlanTheorems.NeverFreed | ML Kit Java/tensorflow-master/tensorflow/lite/arena_planner.cc:99-121 | graph outputs, variables and preserved inputs are never freed, and nothing is if intermediates are preserved |
| PlanOrder.NewAllocsInOrder | ML Kit Java/tensorflow-master/tensorflow/lite/arena_planner.cc:112-130 | of two new allocations for a list, the earlier one is for the tensor that first occurs earlier in the list |
| PlanOrder.FreesInOrder | ML Kit Java/tensorflow-master/tensorflow/lite/arena_planner.cc:163-173 | of two deallocations of a node, the earlier one is for the tensor whose last occurrence among the inputs is earlier |
| PlanOrder.QueueInListOrder | ML Kit Java/tensorflow-master/tensorflow/lite/arena_planner.cc:61-175 | of two entries of the queue, the earlier one precedes the other: by node, allocations first, then by first occurrence among inputs, variables and outputs of the first node, or the outputs of another, or by last occurrence among the inputs |
| PlanOrder.PlannedIffQueued | ML Kit Java/tensorflow-master/tensorflow/lite/arena_planner.cc:61-175 | an entry is queued if and only if its node is the first to need the tensor, or the last to use a tensor that nobody asks to be kept, stated on the graph alone |
| PlanOrder.OnlyPlan | ML Kit Java/tensorflow-master/tensorflow/lite/arena_planner.cc:61-175 | a list of entries is the queue of the graph if and only if it holds exactly these entries in this order |
| Planner.ArenaPlanner.CalculateTensorAllocation | ML Kit Java/tensorflow-master/tensorflow/lite/arena_planner.cc:259-270 | fails exactly if the tensor belongs in an arena and the alignment is above 64; otherwise the tensor of an arena has a block of its size at a multiple of the alignment, and nothing else changes |
| Planner.ArenaPlanner.CalculateTensorDeallocation | ML Kit Java/tensorflow-master/tensorflow/lite/arena_planner.cc:272-278 | one deallocation, only for tensors of the non-persistent arena |
| Planner.ArenaPlanner.CalculateAllocationOfInternalTensors | ML Kit Java/tensorflow-master/tensorflow/lite/arena_planner.cc:280-291 | the temporaries of the node are allocated in order; nothing beyond the last node |
| Planner.ArenaPlanner.CalculateDeallocationOfInternalTensors | ML Kit Java/tensorflow-master/tensorflow/lite/arena_planner.cc:293-304 | the temporaries of the node are freed in order |
| Planner.ArenaPlanner.CalculateAllocations | ML Kit Java/tensorflow-master/tensorflow/lite/arena_planner.cc:208-240 | the call runs exactly the arena operations of the replay, up to the first that fails |
| Planner.ArenaPlanner.ExecuteAllocations | ML Kit Java/tensorflow-master/tensorflow/lite/arena_planner.cc:182-188 | fails if the list of blocks is too long; otherwise grows it and replays; if that succeeds, every tensor that the call allocates in an arena has a block of its size at a multiple of the alignment |
| Replay.ReplayIsNodewise | ML Kit Java/tensorflow-master/tensorflow/lite/arena_planner.cc:214-237 | if every node in the interval has an entry, one call issues for each node in turn: its temporaries, its entries, and the release of its temporaries |
| Replay.NodeOpsLayout | ML Kit Java/tensorflow-master/tensorflow/lite/arena_planner.cc:214-237 | what a node adds to the log, place by place: allocations of its temporaries in order, its entries in the order of the queue, deallocations of its temporaries in order |
| Replay.IncrementalEqualsOneShot | ML Kit Java/tensorflow-master/tensorflow/lite/arena_planner.cc:182-240 | replaying consecutive intervals issues the same operations as one call over the whole range |
| Replay.StallsAtGap | ML Kit Java/tensorflow-master/tensorflow/lite/arena_planner.cc:217-225 | a call that starts at or before a node without an entry issues exactly the operations that it would issue if that node and all later ones had no temporaries |
| Replay.NothingAllocatedPastGap | ML Kit Java/tensorflow-master/tensorflow/lite/arena_planner.cc:217-225 | whatever such a call allocates belongs to the queue or to the temporaries of a node before the gap |
| Replay.CutBreaksEquality | ML Kit Java/tensorflow-master/tensorflow/lite/arena_planner.cc:214-237 | a cut behind a gap issues strictly more operations than one call, if the second call frees the temporaries of the node before it once more or allocates those of its first node |
| Replay.SplitsDoNotMatterIffGapsHarmless | ML Kit Java/tensorflow-master/tensorflow/lite/arena_planner.cc:214-237 | for given temporaries, incremental replay equals one-shot replay for all splits if and only if the node before every node without an entry has no temporaries, nor has any later node with an entry |
| Replay.SplitsNeverMatterIffEveryNodeHasEntry | ML Kit Java/tensorflow-master/tensorflow/lite/arena_planner.cc:214-237 | for all temporaries at once, they are equal if and only if there is at most one node or every node has an entry |
| Replay.ReplaysAreNodewiseIffGapsQuiet | ML Kit Java/tensorflow-master/tensorflow/lite/arena_planner.cc:208-240 | all splits issue every node's temporaries around its own entries if and only if no node from the one before a node without an entry on has temporaries |
| ArenaSharing.SplitsOfPlans | ML Kit Java/tensorflow-master/tensorflow/lite/arena_planner.cc:61-240 | both conditions hold for the plan of every graph, without further premises |
| ArenaSharing.NotServedPastGap | ML Kit Java/tensorflow-master/tensorflow/lite/arena_planner.cc:217-225 | no call that starts at or before a node without an entry allocates a temporary of that node or a later one |
| ArenaSharing.SplitsMatterForAGraph | ML Kit Java/tensorflow-master/tensorflow/lite/arena_planner.cc:217-225 | for a concrete graph with a node without an entry, some split differs from one call, whatever the options |
| ArenaSharing.GapGraphTemporaries | ML Kit Java/tensorflow-master/tensorflow/lite/arena_planner.cc:280-304 | the temporaries of that graph are private |
| ArenaSharing.EntryIffPlanned | ML Kit Java/tensorflow-master/tensorflow/lite/arena_planner.cc:151-174 | when a node has a queue entry, in terms of the graph |
| ArenaMemory.RunOpsAppend | ML Kit Java/tensorflow-master/tensorflow/lite/arena_planner.cc:259-278 | running two lists of operations one after the other is running both at once |
| ArenaMemory.AllocatedArePlaced | ML Kit Java/tensorflow-master/tensorflow/lite/arena_planner.cc:259-270 | whatever the memory and the operations are: if they succeed, every tensor that they allocate in an arena ends with a block of its size that starts at a multiple of the alignment |
| ArenaSharing.FailsIffOveraligned | ML Kit Java/tensorflow-master/tensorflow/lite/arena_planner.cc:259-270 | a log that is used well fails if and only if it allocates a tensor in an arena with an alignment above 64 |
| ArenaSharing.NothingLeaks | ML Kit Java/tensorflow-master/tensorflow/lite/simple_memory_arena.cc:35-102 | after such a log the shared arena holds the blocks of the tensors that are held and no others, and the other arena those of all tensors that were allocated in it |
| ArenaSharing.WellUsedRuns | ML Kit Java/tensorflow-master/tensorflow/lite/simple_memory_arena.cc:35-102 | a log that frees only held tensors and allocates none twice never fails, keeps the layouts disjoint, and houses what is held |
| ArenaSharing.LogsAreSound | ML Kit Java/tensorflow-master/tensorflow/lite/arena_planner.cc:214-304 | the log of the whole plan is such a log, and after every node it holds exactly the live tensors |
| ArenaSharing.FullReplayIsLog | ML Kit Java/tensorflow-master/tensorflow/lite/arena_planner.cc:182-240 | planning and one call over all nodes issue exactly that log, if the replay serves all temporaries |
| ArenaSharing.IncrementalReplayIsLog | ML Kit Java/tensorflow-master/tensorflow/lite/arena_planner.cc:182-240 | so do consecutive calls |
| ArenaSharing.LiveTensorsApart | ML Kit Java/tensorflow-master/tensorflow/lite/arena_planner.cc:61-240 | in the final offsets of any log that serves the graph, any two tensors that are live at the same node, temporaries included, have disjoint blocks |
| ArenaSharing.LogServesGraph | ML Kit Java/tensorflow-master/tensorflow/lite/arena_planner.cc:61-240 | the log node by node serves the graph: all that is live at a node is held after some beginning of it |
| ArenaOneCall.OneCallFreesLast | ML Kit Java/tensorflow-master/tensorflow/lite/arena_planner.cc:208-240 | with a first node without an entry, one call issues the same operations as node by node, but releases the temporaries of the node before it last |
| ArenaOneCall.OneCallServesGraph | ML Kit Java/tensorflow-master/tensorflow/lite/arena_planner.cc:208-240 | one call over all nodes serves the graph, if no node from one without an entry on has temporaries |
| ArenaOneCall.OneCallServesIffServedAtOnce | ML Kit Java/tensorflow-master/tensorflow/lite/arena_planner.cc:208-240 | and only then: otherwise some temporaries are never allocated |
| SharedArena.OutputGivesEntry | ML Kit Java/tensorflow-master/tensorflow/lite/arena_planner.cc:150-159 | in an executable graph every node with an output has a queue entry |
| SharedArena.OutputsSuffice | ML Kit Java/tensorflow-master/tensorflow/lite/arena_planner.cc:214-240 | so one call serves the graph if no node from one without outputs on has temporaries, and consecutive calls do if the node before has none either |
| SharedArena.PlanAndExecute | ML Kit Java/tensorflow-master/tensorflow/lite/arena_planner.cc:61-206 | planning with a new planner and executing over all nodes succeeds, and the planner then holds the memory that the results below speak of |
| SharedArena.PlannedIsAligned | ML Kit Java/tensorflow-master/tensorflow/lite/arena_planner.cc:259-270 | in the planned memory every input, variable, node output and temporary that belongs in an arena has a block of its size that starts at a multiple of the planner's alignment |
| SharedArena.PlanningFailsIffOveraligned | ML Kit Java/tensorflow-master/tensorflow/lite/arena_planner.cc:259-270 | the replay of a plan fails if and only if the alignment is above 64 and some such tensor belongs in an arena |
| SharedArena.SharedIsGood | ML Kit Java/tensorflow-master/tensorflow/lite/arena_planner.cc:61-304 | the shared layout meets, at every node, all that private buffers meet |
| SharedArena.SharingIsUnobservable | ML Kit Java/tensorflow-master/tensorflow/lite/arena_planner.cc:61-304 | for arbitrary node functions, sizes, garbage and initial memory: every tensor that the graph keeps ends with the same bytes in the shared arenas as with a buffer of its own |
| SharedArena.InputsCanBeLoaded | ML Kit Java/tensorflow-master/tensorflow/lite/arena_planner.cc:112-130 | the premise can be met: arbitrary inputs and variables can be loaded at their shared places together |
| NodeNames.Normalize | ML Kit Java/tensorflow-master/tensorflow/c/c_api_function.cc:80-103 | the result is the normal form and matches [a-z][a-z0-9_]* for every string |
| NodeNames.NormalUnique | ML Kit Java/tensorflow-master/tensorflow/c/c_api_function.cc:80-103 | a name has one normal form |
| NodeNames.ArgNamesAreNormal | ML Kit Java/tensorflow-master/tensorflow/c/c_api_function.cc:80-103 | normal forms are their own normal forms |
| NodeNames.NormalIsText | ML Kit Java/tensorflow-master/tensorflow/c/c_api_function.cc:80-103 | the normal form in character codes: from the first letter on, large letters made small, letters and digits kept, all else an underscore, or the text unknown if there is no letter |
| NodeNames.DecimalIsNumeral | ML Kit Java/tensorflow-master/tensorflow/c/c_api_function.cc:105-113 | the decimal notation is the one string of digits in base 10 without leading zeros that has the value |
| NodeNames.UniqueIsFirstFree | ML Kit Java/tensorflow-master/tensorflow/c/c_api_function.cc:105-113 | the unique form in characters: the name if it is free, else name, underscore and number, free and with the least number |
| NodeNames.DecimalInjective | ML Kit Java/tensorflow-master/tensorflow/c/c_api_function.cc:105-113 | different numbers are written differently |
| NodeNames.CandidatesFit | ML Kit Java/tensorflow-master/tensorflow/c/c_api_function.cc:105-113 | no more candidates than used names can be taken, which ends the search |
| NodeNames.NodeNameMapping.constructor | ML Kit Java/tensorflow-master/tensorflow/c/c_api_function.cc:44-78 | nothing is used and nothing is mapped |
| NodeNames.NodeNameMapping.UniquifyHelper | ML Kit Java/tensorflow-master/tensorflow/c/c_api_function.cc:105-113 | the search ends, and the result is the name itself if it is free, else the first free candidate |
| NodeNames.NodeNameMapping.GetOutputName | ML Kit Java/tensorflow-master/tensorflow/c/c_api_function.cc:121-127 | a fresh name in normal form, used but not mapped |
| NodeNames.NodeNameMapping.GetInputName | ML Kit Java/tensorflow-master/tensorflow/c/c_api_function.cc:115-119 | a fresh name in normal form to which the node is mapped, also when it was mapped before; the mapping stays one-to-one and within the used names |
| NodeNames.NodeNameMapping.Uniquify | ML Kit Java/tensorflow-master/tensorflow/c/c_api_function.cc:129-134 | a fresh name to which the node is mapped; the mapping stays one-to-one |
| NodeNames.NodeNameMapping.UseOutputName | ML Kit Java/tensorflow-master/tensorflow/c/c_api_function.cc:136-144 | fails exactly if the name is used |
| FunctionConversion.FlatInjective | ML Kit Java/tensorflow-master/tensorflow/c/c_api_function.cc:306-338 | different tensors have different flat names |
| FunctionConversion.NameOutputs | ML Kit Java/tensorflow-master/tensorflow/c/c_api_function.cc:285-296 | fails exactly if the given names repeat; otherwise the given names, or fresh normal ones, in order |
| FunctionConversion.NameInputs | ML Kit Java/tensorflow-master/tensorflow/c/c_api_function.cc:299-307 | every input gets a fresh argument name, the tensor renaming and the name mapping hold exactly the inputs |
| FunctionConversion.AddOutputs | ML Kit Java/tensorflow-master/tensorflow/c/c_api_function.cc:323-340 | all outputs of the node that were not in the renaming are added under their nested names, and nothing else changes |
| FunctionConversion.NameBody | ML Kit Java/tensorflow-master/tensorflow/c/c_api_function.cc:317-341 | afterwards the renaming holds exactly the reference of every tensor that has one, and the mapping the name of every node that has one |
| FunctionConversion.CollectEdges | ML Kit Java/tensorflow-master/tensorflow/c/c_api_function.cc:184-194 | for each input the last edge that ends there and is neither a control edge nor from the source node, none exactly if there is no such edge; the sources of all control edges not from the source node, in order |
| FunctionGraph.DataEdgeIsLast | ML Kit Java/tensorflow-master/tensorflow/c/c_api_function.cc:184-194 | the edge that the semantics of the graph uses for an input is the last one in the list that ends there and is neither a control edge nor from the source node; there is none if and only if no edge is such |
| FunctionGraph.ControlsAreSelected | ML Kit Java/tensorflow-master/tensorflow/c/c_api_function.cc:184-194 | the control inputs are the sources of exactly the control edges that do not come from the source node, in the order of the edges |
| FunctionConversion.DataInputs | ML Kit Java/tensorflow-master/tensorflow/c/c_api_function.cc:197-224 | fails exactly if an input has no edge or its tensor no reference, with the error of the first such input; otherwise the references in order |
| FunctionConversion.ControlInputs | ML Kit Java/tensorflow-master/tensorflow/c/c_api_function.cc:226-241 | fails exactly if a source has no name; otherwise the names with a caret, in order |
| FunctionConversion.ConvertNode | ML Kit Java/tensorflow-master/tensorflow/c/c_api_function.cc:168-240 | fails exactly if something the node needs has no reference; otherwise its definition with renamed references |
| FunctionConversion.FillFunctionBody | ML Kit Java/tensorflow-master/tensorflow/c/c_api_function.cc:160-248 | all nodes in order, and stateful exactly if one of them is |
| FunctionConversion.FillReturns | ML Kit Java/tensorflow-master/tensorflow/c/c_api_function.cc:347-361 | fails exactly if an output has no reference; otherwise each output argument is mapped to its reference |
| GraphToFunction.GraphToFunctionDef | ML Kit Java/tensorflow-master/tensorflow/c/c_api_function.cc:252-382 | succeeds if and only if the given output names differ and the body is closed under what its nodes and the outputs need; the result is then a conversion |
| GraphToFunction.ProcessInputs | ML Kit Java/tensorflow-master/tensorflow/c/c_api_function.cc:388-421 | fails exactly for an invalid, reference-typed or repeated input, with the error of the first one; otherwise the nodes with inputs |
| GraphToFunction.ProcessOutputs | ML Kit Java/tensorflow-master/tensorflow/c/c_api_function.cc:425-443 | fails exactly for an invalid or reference-typed output, with the error of the first one |
| GraphToFunction.ComputeBodyNodes | ML Kit Java/tensorflow-master/tensorflow/c/c_api_function.cc:447-478 | the given operations, or all operations without inputs, in order; fails exactly if then a node with inputs has several outputs |
| GraphToFunction.TFGraphToFunction | ML Kit Java/tensorflow-master/tensorflow/c/c_api_function.cc:488-538 | the whole entry point: succeeds if and only if all checks pass, and the result is a conversion of the chosen body; the error says which check failed first |
| FunctionMeaning.NamesAreFresh | ML Kit Java/tensorflow-master/tensorflow/c/c_api_function.cc:285-341 | all names of outputs, inputs and nodes differ, input names match the pattern, and no name of an input or node holds a colon, though a given output name may |
| FunctionMeaning.KeysDiffer | ML Kit Java/tensorflow-master/tensorflow/core/framework/function.cc:155-216 | instantiating a converted function never enters a name twice: arguments, their elements, node outputs and output elements all have different names |
| FunctionMeaning.RefResolves | ML Kit Java/tensorflow-master/tensorflow/core/framework/function.cc:236-272 | a reference made for a tensor resolves to the argument or to the output of the body node that it was made for |
| FunctionText.StartIsSum | ML Kit Java/tensorflow-master/tensorflow/core/framework/function.cc:188-212 | an output argument starts behind as many tensors as the arguments before it stand for |
| FunctionText.RefByArgument | ML Kit Java/tensorflow-master/tensorflow/c/c_api_function.cc:152-158 | a tensor has a reference type if and only if the argument that stands for it has |
| FunctionText.InputText | ML Kit Java/tensorflow-master/tensorflow/c/c_api_function.cc:196-224 | the text of a data input: the argument of the tensor that the last edge into the input brings, or node name, argument name and number in the argument, with colons between them |
| FunctionText.OutputText | ML Kit Java/tensorflow-master/tensorflow/c/c_api_function.cc:347-361 | the same for the outputs |
| FunctionMeaning.ControlTargetsAgree | ML Kit Java/tensorflow-master/tensorflow/core/framework/function.cc:274-301 | all index entries that a control input can match belong to the same argument or node |
| FunctionMeaning.ControlRefersToSource | ML Kit Java/tensorflow-master/tensorflow/core/framework/function.cc:274-301 | a control input refers to the source of its control edge: to its node definition, or else to the last argument for one of its outputs |
| FunctionMeaning.RefHasValue | ML Kit Java/tensorflow-master/tensorflow/core/framework/function.cc:218-309 | a reference has the value of the tensor that it stands for, for every bound on how far back it may reach |
| FunctionMeaning.ConversionPreservesMeaning | ML Kit Java/tensorflow-master/tensorflow/c/c_api_function.cc:160-361 | evaluating the function definition on arguments equals evaluating the graph over its lists of edges with the input tensors overridden, output by output, also for tensors that are input and output and for input nodes in the body |
| FunctionMeaning.AvailableHasValue | ML Kit Java/tensorflow-master/tensorflow/c/c_api_function.cc:197-224 | in a closed body without cycles every available tensor has a value, so the equality above is not between undefined values |
| Varint.VarintLength | ML Kit Java/tensorflow-master/tensorflow/core/lib/core/coding.cc:127-134 | the number of bytes of the varint |
| Varint.EncodeVarint64 | ML Kit Java/tensorflow-master/tensorflow/core/lib/core/coding.cc:110-119 | writes the base 128 varint and nothing else |
| Varint.GetVarint64Ptr | ML Kit Java/tensorflow-master/tensorflow/core/lib/core/coding.cc:166-182 | reads at most ten groups before the limit and fails otherwise |
| Varint.ReadWritten | ML Kit Java/tensorflow-master/tensorflow/core/lib/core/coding.cc:110-182 | reading a written 64-bit number gives it back and stops right after it |
| Varint.ReadIff | ML Kit Java/tensorflow-master/tensorflow/core/lib/core/coding.cc:166-182 | for all bytes: reading succeeds if and only if a varint of at most ten bytes ends before the limit; then it gives its groups of seven bits, of a tenth group the lowest bit, and stops at its end |
| StringLayout.LengthIsEncoding | ML Kit Java/tensorflow-master/tensorflow/core/lib/core/coding.cc:110-119 | the bytes of a number are its groups of seven bits, lowest first, marked but for the last, and no more than it needs: there is no other way to write it |
| StringLayout.TensorLayout | ML Kit Java/tensorflow-master/tensorflow/c/c_api.cc:489-572 | place by place: word i is how many bytes the strings before string i take, and string i stands that far behind the words, after its length |
| StringLayout.TensorSize | ML Kit Java/tensorflow-master/tensorflow/c/c_api.cc:525-572 | there is nothing else in the buffer |
| StringTensor.StringEncodedSize | ML Kit Java/tensorflow-master/tensorflow/c/c_api.cc:302-304 | the size in 64-bit arithmetic |
| StringTensor.StringEncode | ML Kit Java/tensorflow-master/tensorflow/c/c_api.cc:261-278 | succeeds exactly if the true size fits; writes length and bytes only; the two errors are told apart by whether the size overflows |
| StringTensor.StringRoundTrip | ML Kit Java/tensorflow-master/tensorflow/c/c_api.cc:261-300 | decoding an encoded string finds it |
| StringTensor.EncodedTensorSize | ML Kit Java/tensorflow-master/tensorflow/c/c_api.cc:525-532 | the computed size is the exact size |
| StringTensor.EncodeElement | ML Kit Java/tensorflow-master/tensorflow/c/c_api.cc:540-553 | one turn writes the next offset and the next string |
| StringTensor.FromTensor | ML Kit Java/tensorflow-master/tensorflow/c/c_api.cc:489-572 | encoding succeeds, fills the buffer exactly, and gives the offsets followed by the encoded strings; no elements give an empty buffer |
| StringTensor.ToTensor | ML Kit Java/tensorflow-master/tensorflow/c/c_api.cc:440-467 | fails exactly if the offsets do not fit or one element cannot be found, with the error of the first one; otherwise the strings found |
| StringTensor.EncodedHolds | ML Kit Java/tensorflow-master/tensorflow/c/c_api.cc:440-572 | every string is found in the bytes of the encoded tensor |
| StringTensor.EncodeDecode | ML Kit Java/tensorflow-master/tensorflow/c/c_api.cc:440-572 | decoding an encoded tensor gives back its strings |
| NestedValues.HasShapeIffOwn | ML Kit Java/tensorflow-master/tensorflow/go/tensor.go:238-257 | a value has some shape if and only if it has the shape read from its elements with zero indices |
| NestedValues.FlattenIsRowMajor | ML Kit Java/tensorflow-master/tensorflow/go/tensor.go:335-341 | the element at an index is found at its row-major place |
| NestedValues.BuildFlatten | ML Kit Java/tensorflow-master/tensorflow/go/tensor.go:364-380 | a value is determined by its shape and its elements in order |
| NestedValues.FlattenBuild | ML Kit Java/tensorflow-master/tensorflow/go/tensor.go:364-380 | any elements of the right number make a value of the shape |
| GoTensor.ShapeOfValue | ML Kit Java/tensorflow-master/tensorflow/go/tensor.go:238-257 | the lengths along the zero indices, and zeros below an empty slice |
| GoTensor.NumElements | ML Kit Java/tensorflow-master/tensorflow/go/tensor.go:277-283 | the product of the dimensions |
| GoTensor.EncodeTensor | ML Kit Java/tensorflow-master/tensorflow/go/tensor.go:302-347 | fails exactly if the value does not fit the shape; otherwise appends the bytes of all elements in row-major order, whether one by one or, for a last dimension of numbers, all at once |
| GoTensor.DecodeTensor | ML Kit Java/tensorflow-master/tensorflow/go/tensor.go:351-386 | fails exactly if there are too few bytes; otherwise reads exactly the room of the shape and the value that fits it |
| GoTensor.ReadUnique | ML Kit Java/tensorflow-master/tensorflow/go/tensor.go:351-386 | bytes are read as one list of elements only |
| GoTensor.NewTensor | ML Kit Java/tensorflow-master/tensorflow/go/tensor.go:72-113 | fails exactly if the value does not fit its own shape, panics exactly above the slice limit, never reports a wrong size, and otherwise holds exactly the elements' bytes |
| GoTensorLayout.NumbersLayout | ML Kit Java/tensorflow-master/tensorflow/go/tensor.go:302-347 | the bytes of the element at an index, 1 or 0 for a flag, are found at its place in row-major order |
| GoTensorLayout.ReadLayout | ML Kit Java/tensorflow-master/tensorflow/go/tensor.go:351-386 | the element of a decoded value at an index is what the bytes at its place mean; a flag is true exactly for a 1 |
| GoTensor.ValueOf | ML Kit Java/tensorflow-master/tensorflow/go/tensor.go:170-186 | the value that the bytes stand for |
| GoTensor.RoundTrip | ML Kit Java/tensorflow-master/tensorflow/go/tensor.go:72-186 | making a tensor and taking its value succeeds exactly if the value has a shape and is small enough, and gives the value back |
| GoStringTensor.ByteSizeOfEncodedStrings | ML Kit Java/tensorflow-master/tensorflow/go/tensor.go:287-298 | the exact size of all encoded strings |
| GoStringTensor.StringEncoder.EncodeString | ML Kit Java/tensorflow-master/tensorflow/go/tensor.go:396-410 | the next offset and the next string are in place, and everything written before stays |
| GoStringTensor.StringEncoder.Encode | ML Kit Java/tensorflow-master/tensorflow/go/tensor.go:395-426 | fails exactly if the value does not fit the shape; otherwise all its strings are in place in order |
| GoStringTensor.StringDecoder.Decode | ML Kit Java/tensorflow-master/tensorflow/go/tensor.go:434-465 | fails exactly if a string in range cannot be found; otherwise the value of the shape with these strings |
| GoStringTensor.NewStringTensor | ML Kit Java/tensorflow-master/tensorflow/go/tensor.go:72-113 | the exact bytes of the format, or the exact reason for failing |
| GoStringTensor.StringValueOf | ML Kit Java/tensorflow-master/tensorflow/go/tensor.go:170-186 | the value that the bytes hold |
| GoStringTensor.EncodersAgree | ML Kit Java/tensorflow-master/tensorflow/c/c_api.cc:524-560 | the Go encoder and the C encoder write the same bytes for the same strings |
| GoStringTensor.DecodersAgree | ML Kit Java/tensorflow-master/tensorflow/go/tensor.go:434-465 | both decoders give back the strings that either encoder has written |
| GoStringTensor.RoundTrip | ML Kit Java/tensorflow-master/tensorflow/go/tensor.go:72-186 | making a string tensor and taking its value gives the value back, exactly when it has a shape and is small enough |
| PartialShape.MultiplyWithoutOverflow | ML Kit Java/tensorflow-master/tensorflow/core/util/overflow.h:26-46 | the product if it has 63 bits, a negative number otherwise |
| PartialShape.PartialTensorShape.AddDim | ML Kit Java/tensorflow-master/tensorflow/core/framework/tensor_shape.cc:240-252 | aborts exactly for too many dimensions or elements; otherwise the list of dimensions grows by one, whatever compact form keeps it |
| PartialShape.PartialTensorShape.UnsafeAddDim | ML Kit Java/tensorflow-master/tensorflow/core/framework/tensor_shape.cc:255-297 | the three compact forms keep the same list of dimensions, except that the small ones turn a number below -1 into -1; the form is always the one that FormNext describes |
| PartialShape.PartialTensorShape.ChangeForm | ML Kit Java/tensorflow-master/tensorflow/core/framework/tensor_shape.cc:265-293 | the new form holds all the values |
| PartialShape.FormNext | ML Kit Java/tensorflow-master/tensorflow/core/framework/tensor_shape.cc:255-297 | which form is used: 16 bits for up to six dimensions below 65534, else 32 bits for up to three below 4294967294, else the long form |
| PartialShape.ElementsMultiply | ML Kit Java/tensorflow-master/tensorflow/core/framework/tensor_shape.cc:240-252 | the number of elements is the product of the dimensions, or unknown exactly if one of them is |
| PartialShape.NoOverflowIff | ML Kit Java/tensorflow-master/tensorflow/core/framework/tensor_shape.cc:136-144 | no overflow on the way means that no prefix has 2^63 elements or more |
| ShapeList.Flatten | ML Kit Java/tensorflow-master/tensorflow/go/graph.go:451-463 | the dimensions of all shapes one after the other, and their numbers |
| ShapeList.SetAttrShapeListHelper | ML Kit Java/tensorflow-master/tensorflow/go/graph.go:24-41 | the start of every shape in the flat dimensions, from the numbers of dimensions alone |
| ShapeList.FlatLayout | ML Kit Java/tensorflow-master/tensorflow/go/graph.go:451-463 | dimension d of shape i stands in the flat list d places behind the dimensions of all shapes before it, and there is nothing else in the list |
| ShapeList.TFSetAttrShapeList | ML Kit Java/tensorflow-master/tensorflow/c/c_api.cc:1263-1279 | aborts exactly if a shape cannot be made; otherwise keeps every shape |
| ShapeList.SetAttr | ML Kit Java/tensorflow-master/tensorflow/go/graph.go:451-469 | the whole way of setting a list of shapes |
| ShapeList.MakeShape | ML Kit Java/tensorflow-master/tensorflow/core/framework/tensor_shape.cc:136-144 | a shape can be made exactly if it has at most 254 dimensions and its element count does not overflow on the way |
| ShapeList.IsValidShape | ML Kit Java/tensorflow-master/tensorflow/core/framework/tensor_shape.cc:75-114 | exactly the shapes that are not changed by being kept |
| ShapeList.GetNodeAttr | ML Kit Java/tensorflow-master/tensorflow/core/framework/node_def_util.cc:248-250 | the kept shapes, or an error exactly if one is not valid |
| ShapeList.Metadata | ML Kit Java/tensorflow-master/tensorflow/c/c_api.cc:1606-1611 | list size and total size |
| ShapeList.GetShapes | ML Kit Java/tensorflow-master/tensorflow/c/c_api.cc:1753-1782 | fails exactly if the storage is smaller than the number of dimensions of the shapes asked for, at most max_values of them; otherwise starts, numbers and dimensions of these are all in place |
| ShapeList.Attr | ML Kit Java/tensorflow-master/tensorflow/go/attrs.go:152-176 | reads the kept list back, or fails exactly if a shape is not valid; storage of the metadata's total size is always enough |
| ShapeList.RoundTrip | ML Kit Java/tensorflow-master/tensorflow/go/graph.go:451-469 | setting and reading back gives the same list if and only if every shape has at most 254 dimensions, none below -1, and no overflow; it aborts exactly if a shape cannot be made |
| ShapeList.MinusTwoIsLost | ML Kit Java/tensorflow-master/tensorflow/core/framework/tensor_shape.cc:240-301 | a shape with the dimension -2 is accepted when it is set and does not come back |
| GoSession.StepInv | ML Kit Java/tensorflow-master/tensorflow/go/session.go:120-145 | every step of every goroutine keeps the invariant |
| GoSession.RunsAreSafe | ML Kit Java/tensorflow-master/tensorflow/go/session.go:120-145 | in every state of every run, a native run has a live session, the wait group counts the runs in flight, the native session is deleted at most once, and not while a run is in flight |
| GoSession.MutualExclusion | ML Kit Java/tensorflow-master/tensorflow/go/session.go:258-273 | only one goroutine is between locking and unlocking, so nobody adds to the wait group while another waits |
| GoSession.ClosedForGood | ML Kit Java/tensorflow-master/tensorflow/go/session.go:121-125 | once closed, a session stays closed and admits no run |
| GoSession.UsableUntilCloseSucceeds | ML Kit Java/tensorflow-master/tensorflow/go/session.go:258-273 | in every state of every run, the session is usable if and only if no native close has succeeded before: closes that fail, however many, leave it as it was |
| GoSessionCalls.RunsUnlessClosed | ML Kit Java/tensorflow-master/tensorflow/go/session.go:120-145 | every call of Run, from its start to its return: it goes through the native run exactly once if no native close had succeeded before it read the handle, and otherwise it is refused exactly once and does not get there |
| GoSessionCalls.UsableAdmits | ML Kit Java/tensorflow-master/tensorflow/go/session.go:121-131 | a call that reads the handle of a usable session is not refused, one that reads that of another session is; while it runs natively, the wait group counts it and the session is usable |
| GoSessionCalls.ClosesOnce | ML Kit Java/tensorflow-master/tensorflow/go/session.go:258-273 | every call of Close calls the native close exactly once, or not at all if one had succeeded before it read the handle; if its own succeeds, the session is closed and deleted when the call returns |
| GoSessionCalls.EitherOutcome | ML Kit Java/tensorflow-master/tensorflow/go/session.go:265-269 | the native close may fail or succeed, and the step tells which |
| GoSession.NoDeadlock | ML Kit Java/tensorflow-master/tensorflow/go/session.go:258-273 | as long as a call is going on, some goroutine can go on, also while a closing one waits with the mutex held |
| GoSession.CallsEnd | ML Kit Java/tensorflow-master/tensorflow/go/session.go:120-145 | without new calls, every schedule ends within a bound |
| GoSession.EndsWithAllIdle | ML Kit Java/tensorflow-master/tensorflow/go/session.go:120-145 | a run can only get stuck with all calls returned, the mutex free and no run in flight |
| GraphLifetime.MoveInv | ML Kit Java/tensorflow-master/tensorflow/c/c_api.cc:1867-1874 | every call and every step of every thread keeps the invariant |
| GraphLifetime.FreedOnceAndUnused | ML Kit Java/tensorflow-master/tensorflow/c/c_api.cc:2584-2597 | in every state of every run the graph is freed at most once, and then no session is registered and no thread has still to use it |
| GraphLifetime.WhoCompletesFrees | ML Kit Java/tensorflow-master/tensorflow/c/c_api.cc:2584-2597 | exactly the thread whose lock section made the deletion requested and the sessions empty will free the graph |
| GraphLifetime.StaysDue | ML Kit Java/tensorflow-master/tensorflow/c/c_api.cc:2500-2515 | once due, the deletion stays due |
| GraphLifetimeCalls.MadeIsRegistered | ML Kit Java/tensorflow-master/tensorflow/c/c_api.cc:2500-2515 | when TF_NewSession returns, whatever other threads have done, its session is registered in the graph and can be used |
| GraphLifetimeCalls.EndedIsOver | ML Kit Java/tensorflow-master/tensorflow/c/c_api.cc:2584-2597 | when TF_DeleteSession returns, its session is not registered any more and never will be again |
| GraphLifetimeCalls.DeletedIsMarked | ML Kit Java/tensorflow-master/tensorflow/c/c_api.cc:1867-1874 | when TF_DeleteGraph returns, the graph is marked and stays so |
| GraphLifetime.FreedAtTheEnd | ML Kit Java/tensorflow-master/tensorflow/c/c_api.cc:1867-1874 | when all calls have returned, the graph has been freed exactly once if its deletion was called for and every session that was made has been ended, and not at all otherwise |
| GraphLifetime.CallsEnd | ML Kit Java/tensorflow-master/tensorflow/c/c_api.cc:2584-2597 | without new calls, every schedule ends within a bound |
| GraphLifetime.EndsWithAllIdle | ML Kit Java/tensorflow-master/tensorflow/c/c_api.cc:2584-2597 | a run can only get stuck with all calls returned, and the graph freed exactly if the callers asked for it and ended all sessions |
| GraphLifetime.NoDeadlock | ML Kit Java/tensorflow-master/tensorflow/c/c_api.cc:2584-2597 | as long as a call is going on, some thread can go on |
| SessionExtend.MoveInv | ML Kit Java/tensorflow-master/tensorflow/c/c_api.cc:684-736 | every call and every step of every thread keeps the invariant |
| SessionExtend.ChainIsExact | ML Kit Java/tensorflow-master/tensorflow/c/c_api.cc:711-720 | chained batches hold every id of their range at most once, and exactly those that were live operations when captured |
| SessionExtend.SentExactlyOnce | ML Kit Java/tensorflow-master/tensorflow/c/c_api.cc:684-736 | in every state of every run, what a session has been sent covers its ids up to where it stands, each operation live at its capture exactly once, and every operation still live |
| SessionExtend.FailuresLoseNothing | ML Kit Java/tensorflow-master/tensorflow/c/c_api.cc:699-732 | over any stretch of any run, with any number of failed cycle checks and extensions in it: what was sent stays, and the next batch starts where the session stood |
| SessionExtendCalls.CallSendsNews | ML Kit Java/tensorflow-master/tensorflow/c/c_api.cc:684-736 | every call on a session, whatever other threads do: if the session is behind the graph when the call compares, and neither its cycle check nor its extension fails, the session is sent exactly what it lacks, as one batch, and that is noted; otherwise it is left as it was |
| SessionExtendCalls.CallBringsUpToDate | ML Kit Java/tensorflow-master/tensorflow/c/c_api.cc:684-736 | so a call without a failure brings the session up to the graph: when it returns, every operation that was in the graph when it began and that was live when it compared has been sent |
| SessionExtendCalls.EitherOutcome | ML Kit Java/tensorflow-master/tensorflow/c/c_api.cc:703-724 | the cycle check and the extension may fail or succeed, and the step tells which |
| SessionExtendCalls.MutationVisitsAll | ML Kit Java/tensorflow-master/tensorflow/c/c_api.cc:610-625 | a call that notes a change of the graph visits every session |
| SessionExtendCalls.EditCallEdits | ML Kit Java/tensorflow-master/tensorflow/c/c_api.cc:1411-1415 | a call that changes the graph does so before it returns |
| SessionExtend.CallsEnd | ML Kit Java/tensorflow-master/tensorflow/c/c_api.cc:610-625 | without new calls, every schedule ends within a bound |
| SessionExtend.EndsWithAllIdle | ML Kit Java/tensorflow-master/tensorflow/c/c_api.cc:684-736 | a run can only get stuck with all calls returned and no lock held; each session has then noted all that it was sent |
| SessionExtend.LockOrder | ML Kit Java/tensorflow-master/tensorflow/c/c_api.cc:610-625 | who waits for a session has the graph and no session; who waits for the graph has nothing |
| SessionExtend.NoDeadlock | ML Kit Java/tensorflow-master/tensorflow/c/c_api.cc:684-736 | as long as a call is going on, some thread can go on |
| TopLabels.TopNext | ML Kit Java/CustomImageClassifier.java:220-226 | adding an entry and dropping a lowest one keeps the top entries |
| TopLabels.EntriesCount | ML Kit Java/CustomImageClassifier.java:220-221 | the entries are the labels with their scores: each as often as a label has that name and its signed byte stands for that score |
| TopLabels.PriorityQueue.Poll | ML Kit Java/CustomImageClassifier.java:224-224 | gives out and removes a lowest entry |
| TopLabels.CustomImageClassifier.AddLabels | ML Kit Java/CustomImageClassifier.java:220-226 | the queue keeps the top entries of all that was added; it throws exactly if there are fewer scores than labels |
| TopLabels.CustomImageClassifier.TakeLabels | ML Kit Java/CustomImageClassifier.java:227-232 | the entries of the queue in ascending order; the queue is empty afterwards |
| TopLabels.CustomImageClassifier.PrintTopKLabels | ML Kit Java/CustomImageClassifier.java:219-234 | ascending, the top entries of the labels and of what an earlier failed call left behind, and an empty queue afterwards |
| TopLabels.TopIsHighest | ML Kit Java/CustomImageClassifier.java:219-234 | of all selections of the same size, sorted by score, a top selection has the highest score at every place |
| TopLabels.TopScores | ML Kit Java/CustomImageClassifier.java:219-234 | any two results have the same score at every place, so the scores are determined with their multiplicities however ties are broken |

## Left out

- Arena offsets and sizes are unbounded numbers: the wrap-around of `size_t` sums in `simple_memory_arena.cc` is not modelled.
- Planner.ArenaPlanner.ExecuteAllocations: ends with the replay; the commit of the arenas and the resolution of pointers behind it are not modelled.
- `SimpleMemoryArena::Commit`, the moving base pointer and `ResolveTensorAllocation`: everything is stated for offsets.
- Tensors that change their size between calls: all sizes are fixed.
- A call of `CalculateDeallocationOfInternalTensors` with node -1 converts to a large index in the code and does nothing; the model does nothing.
- The optional tensor -1 is handled where the code handles it: the planner's outputs and variables, and all of the partitioner's lists, must be in range.
- Data types, attribute checks and while-loop back edges in the conversion of graphs to functions; the hash appended to function names.
- NameRangesForNode: the ranges of output arguments are part of the model's operations instead of being computed from attributes; they are visited in declaration order, and the result does not depend on the order.
- Instantiating functions: only the index of names and the resolution of references are modelled, as a relation; the search of the sorted index for control inputs is stated as matching any entry.
- Kernels are functions of the values of the inputs; the effects of stateful operations, and the order that control edges impose on them, are kept as references but not given a meaning.
- 32-bit loop counters and casts (`int i` over tensor elements, `C.int` of sizes) and 64-bit overflow of element counts in Go are not modelled; buffers above 2^30 bytes panic in the Go model as the slice type demands.
- GraphToFunction.GraphToFunctionDef: takes for granted that no body node is given twice; the code would name such a node twice and map it to the later name.
- GraphToFunction.TFGraphToFunction: takes for granted, likewise, that the list of operations has no repetition.
- GoStringTensor.StringDecoder.Decode: takes for granted that strings end inside the buffer, because the C function that it calls does not compare them; it is exact for what encoders write.
- GoStringTensor.StringValueOf: takes the same for granted.
- StringTensor.ToTensor: takes for granted that strings end inside the buffer and that offsets are below 2^63, because the code does not compare them; it is exact for what encoders write.
- Go arrays (as opposed to slices) in nested values: their lengths are fixed by their types.
- ReadTensor, WriteContentsTo, resource and variant tensors.
- Scalar attributes and list attributes of other kinds than shapes.
- GraphLifetime: sessions are made by TF_NewSession; TF_LoadSessionFromSavedModel registers its session under the same lock.
- SessionExtend: the set of sessions is fixed, mutation warnings are not kept, and node ids are never reused.
- Session.ListDevices reads the handle outside the lock protocol and is not part of it.
- The native implementation of running, closing and extending sessions: its outcomes are arbitrary.
- Probabilities are the bytes they are computed from, which keeps their order; the text of the labels' output is left out.
- Import of graph definitions, gradients, while loops, shape inference, buffers and files: not part of this model.
