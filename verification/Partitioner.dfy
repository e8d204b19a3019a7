/** Splits a graph into node subsets of one kind each, in dependency order, by a greedy fixpoint. */
module Partitioner {
  import opened GraphInfo

  const NOT_READY := -1
  const ALWAYS_READY := -2

  datatype Kind = Unexplored | Partition | NonPartition

  datatype NodeSubset = NodeSubset(kind: Kind, nodes: seq<int>, inputTensors: seq<int>, outputTensors: seq<int>)

  const EMPTY_SUBSET := NodeSubset(Unexplored, [], [], [])

  /** What the source demands of the graph: indices in range and one producer for each tensor. */
  ghost predicate ValidGraph(g: Graph) {
    && (forall n, t :: Consumes(g, n, t) || Produces(g, n, t) ==> IsTensor(g, t))
    && SingleProducer(g)
  }

  /** The state of the partitioner as a value: the subsets so far, the epoch of each tensor and of each node, and,
      for the proofs alone, the position of each placed node in its subset. */
  datatype State = State(subsets: seq<NodeSubset>, te: seq<int>, ne: seq<int>, pos: seq<int>)

  ghost predicate Sized(g: Graph, kinds: seq<Kind>, st: State) {
    |st.te| == g.numTensors && |st.ne| == |st.pos| == |kinds| == |g.nodes|
  }

  // ----- the invariant

  /** Every tensor has the epoch of its producer; a tensor without one is always ready. */
  ghost predicate EpochsAgree(g: Graph, te: seq<int>, ne: seq<int>) {
    && |te| == g.numTensors && |ne| == |g.nodes|
    && (forall n, t :: Produces(g, n, t) ==> IsTensor(g, t) && te[t] == ne[n])
    && (forall t :: IsTensor(g, t) && !Produced(g, t) ==> te[t] == ALWAYS_READY)
  }

  predicate NodeAt(s: seq<NodeSubset>, n: int, e: int, j: int) {
    0 <= e < |s| && 0 <= j < |s[e].nodes| && s[e].nodes[j] == n
  }

  /** The node lists of the subsets are the inverse of the node epochs and positions. */
  ghost predicate NodesAgree(g: Graph, s: seq<NodeSubset>, ne: seq<int>, pos: seq<int>) {
    && |ne| == |pos| == |g.nodes|
    && (forall n :: 0 <= n < |ne| ==> NOT_READY <= ne[n] < |s|)
    && (forall n :: 0 <= n < |ne| && ne[n] != NOT_READY ==> NodeAt(s, n, ne[n], pos[n]))
    && (forall n, e, j :: NodeAt(s, n, e, j) ==> 0 <= n < |ne| && ne[n] == e && pos[n] == j)
  }

  /** A subset holds nodes of its own kind; a subset without nodes has none yet. */
  ghost predicate KindsAgree(kinds: seq<Kind>, s: seq<NodeSubset>, ne: seq<int>) {
    && |kinds| == |ne|
    && (forall n :: 0 <= n < |kinds| ==> kinds[n] != Unexplored)
    && (forall n :: 0 <= n < |ne| && 0 <= ne[n] < |s| ==> kinds[n] == s[ne[n]].kind)
    && (forall e :: 0 <= e < |s| && s[e].nodes == [] ==> s[e].kind == Unexplored)
  }

  /** Node m was placed before node n. */
  predicate PlacedBefore(ne: seq<int>, pos: seq<int>, m: int, n: int)
    requires |ne| == |pos| && 0 <= m < |ne| && 0 <= n < |ne|
  {
    0 <= ne[m] && (ne[m] < ne[n] || (ne[m] == ne[n] && pos[m] < pos[n]))
  }

  /** The producer of an input of a placed node was placed before it. */
  ghost predicate InOrder(g: Graph, ne: seq<int>, pos: seq<int>) {
    && |ne| == |pos| == |g.nodes|
    && forall m, n, t :: Produces(g, m, t) && Consumes(g, n, t) && ne[n] != NOT_READY ==> PlacedBefore(ne, pos, m, n)
  }

  /** A node placed in subset e consumes tensor t. */
  ghost predicate ConsumedInside(g: Graph, ne: seq<int>, e: int, t: int)
    requires |ne| == |g.nodes|
  {
    exists n :: Consumes(g, n, t) && ne[n] == e
  }

  /** A node placed outside subset e consumes tensor t. */
  ghost predicate ConsumedOutside(g: Graph, ne: seq<int>, e: int, t: int)
    requires |ne| == |g.nodes|
  {
    exists n :: Consumes(g, n, t) && ne[n] != NOT_READY && ne[n] != e
  }

  predicate InputListed(s: seq<NodeSubset>, e: int, t: int) {
    0 <= e < |s| && t in s[e].inputTensors
  }

  predicate OutputListed(s: seq<NodeSubset>, e: int, t: int) {
    0 <= e < |s| && t in s[e].outputTensors
  }

  /** The boundary lists name exactly the tensors that cross between the nodes placed so far. */
  ghost predicate BoundariesExact(g: Graph, s: seq<NodeSubset>, te: seq<int>, ne: seq<int>) {
    && |te| == g.numTensors && |ne| == |g.nodes|
    && (forall e, t :: 0 <= e < |s| ==>
          (InputListed(s, e, t) <==> IsTensor(g, t) && te[t] != e && ConsumedInside(g, ne, e, t)))
    && (forall e, t :: 0 <= e < |s| ==>
          (OutputListed(s, e, t) <==> IsTensor(g, t) && te[t] == e && ConsumedOutside(g, ne, e, t)))
  }

  ghost predicate Inv(g: Graph, kinds: seq<Kind>, st: State) {
    && ValidGraph(g)
    && EpochsAgree(g, st.te, st.ne)
    && NodesAgree(g, st.subsets, st.ne, st.pos)
    && KindsAgree(kinds, st.subsets, st.ne)
    && InOrder(g, st.ne, st.pos)
    && BoundariesExact(g, st.subsets, st.te, st.ne)
  }

  // ----- one step: a node moves into the last subset

  /** All inputs of node n have an epoch before `limit`, or none because they are always ready. */
  ghost predicate ReadyBefore(g: Graph, te: seq<int>, n: int, limit: int) {
    |te| == g.numTensors &&
    forall t :: Consumes(g, n, t) ==> IsTensor(g, t) && te[t] != NOT_READY && te[t] < limit
  }

  ghost predicate CanAssign(g: Graph, kinds: seq<Kind>, st: State, n: int) {
    && Sized(g, kinds, st) && st.subsets != [] && IsNode(g, n)
    && st.ne[n] == NOT_READY
    && ReadyBefore(g, st.te, n, |st.subsets|)
    && (st.subsets[|st.subsets| - 1].kind == Unexplored || st.subsets[|st.subsets| - 1].kind == kinds[n])
  }

  ghost predicate Moved(g: Graph, kinds: seq<Kind>, n: int, st: State, st': State) {
    var cur := |st.subsets| - 1;
    && Sized(g, kinds, st) && Sized(g, kinds, st') && st.subsets != [] && IsNode(g, n)
    && st'.ne == st.ne[n := cur]
    && st'.pos == st.pos[n := |st.subsets[cur].nodes|]
    && (forall t :: IsTensor(g, t) ==> st'.te[t] == if Produces(g, n, t) then cur else st.te[t])
    && MovedSubsets(g, kinds, n, st.subsets, st'.te, st'.subsets)
  }

  ghost predicate MovedSubsets(g: Graph, kinds: seq<Kind>, n: int, s: seq<NodeSubset>, te': seq<int>,
                               s': seq<NodeSubset>) {
    var cur := |s| - 1;
    && s != [] && |te'| == g.numTensors && 0 <= n < |kinds|
    && |s'| == |s|
    && (forall e :: 0 <= e < cur ==> s'[e].kind == s[e].kind && s'[e].nodes == s[e].nodes)
    && s'[cur].kind == kinds[n]
    && s'[cur].nodes == s[cur].nodes + [n]
    && (forall e, t :: 0 <= e < |s| ==>
          (InputListed(s', e, t) <==>
           InputListed(s, e, t) || (e == cur && IsTensor(g, t) && Consumes(g, n, t) && te'[t] != cur)))
    && (forall e, t :: 0 <= e < |s| ==>
          (OutputListed(s', e, t) <==>
           OutputListed(s, e, t) || (e != cur && IsTensor(g, t) && Consumes(g, n, t) && te'[t] == e)))
  }

  lemma MovedKeepsEpochs(g: Graph, kinds: seq<Kind>, n: int, st: State, st': State)
    requires ValidGraph(g) && EpochsAgree(g, st.te, st.ne)
    requires Moved(g, kinds, n, st, st')
    ensures EpochsAgree(g, st'.te, st'.ne)
  {
  }

  lemma MovedKeepsNodes(g: Graph, kinds: seq<Kind>, n: int, st: State, st': State)
    requires NodesAgree(g, st.subsets, st.ne, st.pos) && KindsAgree(kinds, st.subsets, st.ne)
    requires CanAssign(g, kinds, st, n) && Moved(g, kinds, n, st, st')
    ensures NodesAgree(g, st'.subsets, st'.ne, st'.pos) && KindsAgree(kinds, st'.subsets, st'.ne)
  {
    var s, s', cur := st.subsets, st'.subsets, |st.subsets| - 1;
    forall k, e, j
      ensures NodeAt(s', k, e, j) <==> NodeAt(s, k, e, j) || (k == n && e == cur && j == |s[cur].nodes|)
    {
    }
    assert NodeAt(s', n, cur, |s[cur].nodes|);
  }

  lemma MovedKeepsOrder(g: Graph, kinds: seq<Kind>, n: int, st: State, st': State)
    requires Inv(g, kinds, st) && CanAssign(g, kinds, st, n) && Moved(g, kinds, n, st, st')
    ensures InOrder(g, st'.ne, st'.pos)
  {
    forall m, k, t | Produces(g, m, t) && Consumes(g, k, t) && st'.ne[k] != NOT_READY
      ensures PlacedBefore(st'.ne, st'.pos, m, k)
    {
      if k == n {
        assert st.te[t] == st.ne[m] && st.te[t] != NOT_READY;
      } else {
        assert PlacedBefore(st.ne, st.pos, m, k);
      }
    }
  }

  /** Placing node n leaves the consumers of tensor t in the other subsets as they were. */
  lemma MovedConsumers(g: Graph, ne: seq<int>, n: int, cur: nat, e: int, t: int)
    requires |ne| == |g.nodes| && IsNode(g, n) && ne[n] == NOT_READY && 0 <= e
    ensures ConsumedInside(g, ne[n := cur], e, t) <==> ConsumedInside(g, ne, e, t) || (Consumes(g, n, t) && e == cur)
    ensures ConsumedOutside(g, ne[n := cur], e, t) <==> ConsumedOutside(g, ne, e, t) || (Consumes(g, n, t) && e != cur)
  {
    var ne' := ne[n := cur];
    if ConsumedInside(g, ne, e, t) {
      var k :| Consumes(g, k, t) && ne[k] == e;
      assert ne'[k] == e;
    }
    if ConsumedOutside(g, ne, e, t) {
      var k :| Consumes(g, k, t) && ne[k] != NOT_READY && ne[k] != e;
      assert ne'[k] == ne[k];
    }
    assert ne'[n] == cur;
  }

  lemma MovedKeepsBoundaries(g: Graph, kinds: seq<Kind>, n: int, st: State, st': State)
    requires EpochsAgree(g, st.te, st.ne) && InOrder(g, st.ne, st.pos) && BoundariesExact(g, st.subsets, st.te, st.ne)
    requires CanAssign(g, kinds, st, n) && Moved(g, kinds, n, st, st')
    ensures BoundariesExact(g, st'.subsets, st'.te, st'.ne)
  {
    var cur := |st.subsets| - 1;
    forall e, t | 0 <= e < |st'.subsets|
      ensures InputListed(st'.subsets, e, t) <==>
        IsTensor(g, t) && st'.te[t] != e && ConsumedInside(g, st'.ne, e, t)
      ensures OutputListed(st'.subsets, e, t) <==>
        IsTensor(g, t) && st'.te[t] == e && ConsumedOutside(g, st'.ne, e, t)
    {
      MovedConsumers(g, st.ne, n, cur, e, t);
      if Produces(g, n, t) {
        ProducerUnplaced(g, st.ne, st.pos, n, e, t);
        assert !Consumes(g, n, t);
      }
    }
  }

  /** A tensor whose producer is not placed has no placed consumer. */
  lemma ProducerUnplaced(g: Graph, ne: seq<int>, pos: seq<int>, n: int, e: int, t: int)
    requires InOrder(g, ne, pos) && Produces(g, n, t) && ne[n] == NOT_READY && 0 <= e
    ensures !ConsumedInside(g, ne, e, t) && !ConsumedOutside(g, ne, e, t)
  {
    assert forall k :: Consumes(g, k, t) && ne[k] != NOT_READY ==> PlacedBefore(ne, pos, n, k);
  }

  /** Moving a node that can be assigned keeps the invariant. */
  lemma MovedKeepsInv(g: Graph, kinds: seq<Kind>, n: int, st: State, st': State)
    requires Inv(g, kinds, st) && CanAssign(g, kinds, st, n) && Moved(g, kinds, n, st, st')
    ensures Inv(g, kinds, st')
  {
    MovedKeepsEpochs(g, kinds, n, st, st');
    MovedKeepsNodes(g, kinds, n, st, st');
    MovedKeepsOrder(g, kinds, n, st, st');
    MovedKeepsBoundaries(g, kinds, n, st, st');
  }

  // ----- greed: what the fixpoint loops leave behind in each finished subset

  /** Nothing that was left out of subset e for a later one could have joined it. */
  ghost predicate Greedy(g: Graph, kinds: seq<Kind>, st: State, e: int)
    requires Sized(g, kinds, st) && 0 <= e < |st.subsets|
  {
    forall m :: IsNode(g, m) && (st.ne[m] == NOT_READY || e < st.ne[m]) && kinds[m] == st.subsets[e].kind ==>
      !ReadyBefore(g, st.te, m, e + 1)
  }

  /** Subset e was opened by the first node that was ready, which gave it its kind. */
  ghost predicate FirstReady(g: Graph, kinds: seq<Kind>, st: State, e: int)
    requires Sized(g, kinds, st) && 0 <= e < |st.subsets|
  {
    st.subsets[e].nodes != [] ==>
      && ReadyBefore(g, st.te, st.subsets[e].nodes[0], e)
      && forall m :: IsNode(g, m) && m < st.subsets[e].nodes[0] && (st.ne[m] == NOT_READY || e <= st.ne[m]) ==>
           !ReadyBefore(g, st.te, m, e)
  }

  /** Node m lies in an earlier subset than e, or before position j of that. */
  predicate PlacedBy(ne: seq<int>, pos: seq<int>, m: int, e: int, j: int) {
    0 <= m < |ne| == |pos| && 0 <= ne[m] && (ne[m] < e || (ne[m] == e && pos[m] < j))
  }

  /** A loop over the nodes that starts again at its end passes node m on the way from node a to node b. */
  predicate Passes(a: int, m: int, b: int) {
    if a < b then a < m < b else a < m || m < b
  }

  /** Node m waits for a node that is not placed before position j of subset e. */
  ghost predicate WaitsAt(g: Graph, ne: seq<int>, pos: seq<int>, m: int, e: int, j: int) {
    exists p, t :: Produces(g, p, t) && Consumes(g, m, t) && !PlacedBy(ne, pos, p, e, j)
  }

  /** All nodes that the loop passed before it placed the one at position j of subset e were of the other kind, placed,
      or waiting. */
  ghost predicate SweptAt(g: Graph, kinds: seq<Kind>, st: State, e: int, j: int)
    requires Sized(g, kinds, st) && 0 <= e < |st.subsets| && 0 < j < |st.subsets[e].nodes|
  {
    forall m :: IsNode(g, m) && Passes(st.subsets[e].nodes[j - 1], m, st.subsets[e].nodes[j]) ==>
      kinds[m] != st.subsets[e].kind || PlacedBy(st.ne, st.pos, m, e, j) || WaitsAt(g, st.ne, st.pos, m, e, j)
  }

  /** The nodes of subset e stand in the order in which the loop comes to them when they are ready. */
  ghost predicate Swept(g: Graph, kinds: seq<Kind>, st: State, e: int)
    requires Sized(g, kinds, st) && 0 <= e < |st.subsets|
  {
    forall j :: 0 < j < |st.subsets[e].nodes| ==> SweptAt(g, kinds, st, e, j)
  }

  ghost predicate Finished(g: Graph, kinds: seq<Kind>, st: State, e: int) {
    && Sized(g, kinds, st) && 0 <= e < |st.subsets|
    && st.subsets[e].nodes != [] && Greedy(g, kinds, st, e) && FirstReady(g, kinds, st, e) && Swept(g, kinds, st, e)
  }

  /** The first `count` subsets are finished. */
  ghost predicate Settled(g: Graph, kinds: seq<Kind>, st: State, count: int) {
    && Sized(g, kinds, st) && count <= |st.subsets|
    && forall e :: 0 <= e < count ==> Finished(g, kinds, st, e)
  }

  /** The state between two updates while the last subset is being filled. */
  ghost predicate Filling(g: Graph, kinds: seq<Kind>, st: State) {
    && st.subsets != [] && Inv(g, kinds, st)
    && Settled(g, kinds, st, |st.subsets| - 1)
    && FirstReady(g, kinds, st, |st.subsets| - 1)
    && Swept(g, kinds, st, |st.subsets| - 1)
  }

  /** No node can be assigned that the loop has passed since it placed the last one, on its way to node n. */
  ghost predicate StuckTo(g: Graph, kinds: seq<Kind>, st: State, n: int)
    requires st.subsets != []
  {
    var nodes := st.subsets[|st.subsets| - 1].nodes;
    if nodes == [] then StuckBelow(g, kinds, st, n)
    else forall m :: IsNode(g, m) && Passes(nodes[|nodes| - 1], m, n) ==> !CanAssign(g, kinds, st, m)
  }

  /** No node with an index below n can be assigned. */
  ghost predicate StuckBelow(g: Graph, kinds: seq<Kind>, st: State, n: int) {
    forall m :: IsNode(g, m) && m < n ==> !CanAssign(g, kinds, st, m)
  }

  /** No unplaced node could be placed. */
  ghost predicate Exhausted(g: Graph, te: seq<int>, ne: seq<int>) {
    && |te| == g.numTensors && |ne| == |g.nodes|
    && forall n :: IsNode(g, n) && ne[n] == NOT_READY ==>
         exists t :: Consumes(g, n, t) && IsTensor(g, t) && te[t] == NOT_READY
  }

  lemma MovedKeepsReadiness(g: Graph, kinds: seq<Kind>, n: int, st: State, st': State, m: int, limit: int)
    requires EpochsAgree(g, st.te, st.ne) && IsNode(g, n) && Moved(g, kinds, n, st, st') && st.ne[n] == NOT_READY
    requires limit < |st.subsets|
    ensures ReadyBefore(g, st'.te, m, limit) == ReadyBefore(g, st.te, m, limit)
  {
  }

  lemma SameSwept(g: Graph, kinds: seq<Kind>, st: State, st': State, e: int)
    requires Sized(g, kinds, st) && 0 <= e < |st.subsets| && Swept(g, kinds, st, e)
    requires st'.ne == st.ne && st'.pos == st.pos && |st'.te| == |st.te| && e < |st'.subsets|
    requires st'.subsets[e].nodes == st.subsets[e].nodes && st'.subsets[e].kind == st.subsets[e].kind
    ensures Swept(g, kinds, st', e)
  {
    forall j | 0 < j < |st'.subsets[e].nodes|
      ensures SweptAt(g, kinds, st', e, j)
    {
      assert SweptAt(g, kinds, st, e, j);
    }
  }

  /** The loop goes on past a node that cannot be assigned. */
  lemma StuckNext(g: Graph, kinds: seq<Kind>, st: State, n: int)
    requires st.subsets != [] && StuckTo(g, kinds, st, n) && !CanAssign(g, kinds, st, n)
    ensures StuckTo(g, kinds, st, n + 1)
  {
  }

  lemma MovedIsStuckTo(g: Graph, kinds: seq<Kind>, n: int, st: State, st': State)
    requires Moved(g, kinds, n, st, st')
    ensures StuckTo(g, kinds, st', n + 1)
  {
  }

  lemma PlacedStays(ne: seq<int>, pos: seq<int>, n: int, cur: int, len: int, m: int, e: int, j: int)
    requires 0 <= n < |ne| == |pos| && ne[n] == NOT_READY && (e < cur || (e == cur && j <= len))
    ensures PlacedBy(ne[n := cur], pos[n := len], m, e, j) == PlacedBy(ne, pos, m, e, j)
  {
  }

  lemma WaitsStays(g: Graph, ne: seq<int>, pos: seq<int>, n: int, cur: int, len: int, m: int, e: int, j: int)
    requires 0 <= n < |ne| == |pos| && ne[n] == NOT_READY && (e < cur || (e == cur && j <= len))
    requires WaitsAt(g, ne, pos, m, e, j)
    ensures WaitsAt(g, ne[n := cur], pos[n := len], m, e, j)
  {
    var p, t :| Produces(g, p, t) && Consumes(g, m, t) && !PlacedBy(ne, pos, p, e, j);
    PlacedStays(ne, pos, n, cur, len, p, e, j);
  }

  /** Placing a node leaves the order of the nodes before it alone. */
  lemma MovedKeepsSweptAt(g: Graph, kinds: seq<Kind>, n: int, st: State, st': State, e: int, j: int)
    requires IsNode(g, n) && Moved(g, kinds, n, st, st') && st.ne[n] == NOT_READY
    requires 0 <= e < |st.subsets| && 0 < j < |st.subsets[e].nodes| && SweptAt(g, kinds, st, e, j)
    requires st'.subsets[e].kind == st.subsets[e].kind
    ensures j < |st'.subsets[e].nodes| && SweptAt(g, kinds, st', e, j)
  {
    var cur := |st.subsets| - 1;
    var len := |st.subsets[cur].nodes|;
    var nodes, nodes' := st.subsets[e].nodes, st'.subsets[e].nodes;
    assert |nodes| <= |nodes'| && nodes'[j] == nodes[j] && nodes'[j - 1] == nodes[j - 1];
    forall m | IsNode(g, m) && Passes(nodes[j - 1], m, nodes[j])
      ensures kinds[m] != st'.subsets[e].kind || PlacedBy(st'.ne, st'.pos, m, e, j) ||
        WaitsAt(g, st'.ne, st'.pos, m, e, j)
    {
      PlacedStays(st.ne, st.pos, n, cur, len, m, e, j);
      if WaitsAt(g, st.ne, st.pos, m, e, j) {
        WaitsStays(g, st.ne, st.pos, n, cur, len, m, e, j);
      }
    }
  }

  lemma MovedKeepsSwept(g: Graph, kinds: seq<Kind>, n: int, st: State, st': State, e: int)
    requires IsNode(g, n) && Moved(g, kinds, n, st, st') && st.ne[n] == NOT_READY
    requires 0 <= e < |st.subsets| - 1 && Swept(g, kinds, st, e)
    ensures Swept(g, kinds, st', e)
  {
    forall j | 0 < j < |st'.subsets[e].nodes|
      ensures SweptAt(g, kinds, st', e, j)
    {
      assert SweptAt(g, kinds, st, e, j);
      MovedKeepsSweptAt(g, kinds, n, st, st', e, j);
    }
  }

  /** A node that cannot be assigned, though it is of the kind of the last subset and unplaced, waits for another. */
  lemma StuckWaits(g: Graph, kinds: seq<Kind>, n: int, st: State, st': State, m: int)
    requires ValidGraph(g) && EpochsAgree(g, st.te, st.ne) && NodesAgree(g, st.subsets, st.ne, st.pos)
    requires KindsAgree(kinds, st.subsets, st.ne)
    requires CanAssign(g, kinds, st, n) && Moved(g, kinds, n, st, st') && IsNode(g, m) && !CanAssign(g, kinds, st, m)
    ensures var cur := |st.subsets| - 1; var j := |st.subsets[cur].nodes|;
      kinds[m] != kinds[n] || PlacedBy(st'.ne, st'.pos, m, cur, j) || WaitsAt(g, st'.ne, st'.pos, m, cur, j)
  {
    var cur := |st.subsets| - 1;
    var j := |st.subsets[cur].nodes|;
    if st.ne[m] != NOT_READY {
      assert NodeAt(st.subsets, m, st.ne[m], st.pos[m]);
    } else if kinds[m] == kinds[n] {
      var t :| Consumes(g, m, t) && !(IsTensor(g, t) && st.te[t] != NOT_READY && st.te[t] < |st.subsets|);
      WaitedFor(g, kinds, n, st, st', m, t);
    }
  }

  lemma WaitedFor(g: Graph, kinds: seq<Kind>, n: int, st: State, st': State, m: int, t: int)
    requires EpochsAgree(g, st.te, st.ne) && NodesAgree(g, st.subsets, st.ne, st.pos)
    requires CanAssign(g, kinds, st, n) && Moved(g, kinds, n, st, st') && Consumes(g, m, t) && IsTensor(g, t)
    requires !(st.te[t] != NOT_READY && st.te[t] < |st.subsets|)
    ensures var cur := |st.subsets| - 1; WaitsAt(g, st'.ne, st'.pos, m, cur, |st.subsets[cur].nodes|)
  {
    EpochsBounded(g, st, t);
    var p :| Produces(g, p, t);
    assert st.ne[p] == NOT_READY;
    assert !PlacedBy(st'.ne, st'.pos, p, |st.subsets| - 1, |st.subsets[|st.subsets| - 1].nodes|);
  }

  /** The last subset stays in the order of the loop when the loop places the node that it is at. */
  lemma MovedKeepsLastSwept(g: Graph, kinds: seq<Kind>, n: int, st: State, st': State)
    requires Filling(g, kinds, st) && CanAssign(g, kinds, st, n) && StuckTo(g, kinds, st, n)
    requires Moved(g, kinds, n, st, st')
    ensures Swept(g, kinds, st', |st.subsets| - 1)
  {
    var cur := |st.subsets| - 1;
    var nodes := st.subsets[cur].nodes;
    forall j | 0 < j < |st'.subsets[cur].nodes|
      ensures SweptAt(g, kinds, st', cur, j)
    {
      if j < |nodes| {
        assert SweptAt(g, kinds, st, cur, j);
        KindStays(g, kinds, n, st, st');
        MovedKeepsSweptAt(g, kinds, n, st, st', cur, j);
      } else {
        forall m | IsNode(g, m) && Passes(nodes[j - 1], m, n)
          ensures kinds[m] != kinds[n] || PlacedBy(st'.ne, st'.pos, m, cur, j) || WaitsAt(g, st'.ne, st'.pos, m, cur, j)
        {
          StuckWaits(g, kinds, n, st, st', m);
        }
      }
    }
  }

  lemma KindStays(g: Graph, kinds: seq<Kind>, n: int, st: State, st': State)
    requires Filling(g, kinds, st) && CanAssign(g, kinds, st, n) && Moved(g, kinds, n, st, st')
    requires st.subsets[|st.subsets| - 1].nodes != []
    ensures st'.subsets[|st.subsets| - 1].kind == st.subsets[|st.subsets| - 1].kind
  {
    var cur := |st.subsets| - 1;
    assert NodeAt(st.subsets, st.subsets[cur].nodes[0], cur, 0);
  }

  lemma MovedKeepsSettled(g: Graph, kinds: seq<Kind>, n: int, st: State, st': State)
    requires EpochsAgree(g, st.te, st.ne) && IsNode(g, n) && Moved(g, kinds, n, st, st') && st.ne[n] == NOT_READY
    requires Settled(g, kinds, st, |st.subsets| - 1)
    ensures Settled(g, kinds, st', |st.subsets| - 1)
  {
    forall e | 0 <= e < |st.subsets| - 1
      ensures Finished(g, kinds, st', e)
    {
      forall m
        ensures ReadyBefore(g, st'.te, m, e + 1) == ReadyBefore(g, st.te, m, e + 1)
        ensures ReadyBefore(g, st'.te, m, e) == ReadyBefore(g, st.te, m, e)
      {
        MovedKeepsReadiness(g, kinds, n, st, st', m, e + 1);
        MovedKeepsReadiness(g, kinds, n, st, st', m, e);
      }
      assert Finished(g, kinds, st, e);
      MovedKeepsSwept(g, kinds, n, st, st', e);
    }
  }

  /** While the last subset is empty, ready for it means ready before it, as nothing has its epoch. */
  lemma EmptyLastReadiness(g: Graph, st: State, m: int)
    requires EpochsAgree(g, st.te, st.ne) && NodesAgree(g, st.subsets, st.ne, st.pos)
    requires st.subsets != [] && st.subsets[|st.subsets| - 1].nodes == []
    ensures ReadyBefore(g, st.te, m, |st.subsets| - 1) == ReadyBefore(g, st.te, m, |st.subsets|)
    ensures 0 <= m < |st.ne| ==> st.ne[m] < |st.subsets| - 1
  {
    forall t | IsTensor(g, t)
      ensures st.te[t] < |st.subsets| - 1
    {
      EmptyLastEpoch(g, st, t);
    }
    if 0 <= m < |st.ne| && st.ne[m] != NOT_READY {
      assert NodeAt(st.subsets, m, st.ne[m], st.pos[m]);
    }
  }

  /** The last subset stays opened by its first ready node, whether n is that node or joins later. */
  lemma MovedKeepsFirstReady(g: Graph, kinds: seq<Kind>, n: int, st: State, st': State)
    requires EpochsAgree(g, st.te, st.ne) && NodesAgree(g, st.subsets, st.ne, st.pos)
    requires KindsAgree(kinds, st.subsets, st.ne)
    requires CanAssign(g, kinds, st, n) && Moved(g, kinds, n, st, st')
    requires FirstReady(g, kinds, st, |st.subsets| - 1)
    requires st.subsets[|st.subsets| - 1].nodes == [] ==> StuckBelow(g, kinds, st, n)
    ensures FirstReady(g, kinds, st', |st.subsets| - 1)
  {
    var cur := |st.subsets| - 1;
    forall m
      ensures ReadyBefore(g, st'.te, m, cur) == ReadyBefore(g, st.te, m, cur)
    {
      MovedKeepsReadiness(g, kinds, n, st, st', m, cur);
    }
    if st.subsets[cur].nodes == [] {
      forall m
        ensures ReadyBefore(g, st.te, m, cur) == ReadyBefore(g, st.te, m, cur + 1)
        ensures IsNode(g, m) ==> st.ne[m] < cur
      {
        EmptyLastReadiness(g, st, m);
      }
      assert st'.subsets[cur].nodes[0] == n;
      OpenedBy(g, kinds, st, n);
    } else {
      assert st'.subsets[cur].nodes[0] == st.subsets[cur].nodes[0];
    }
  }

  /** No node below n waits for the empty last subset. */
  lemma OpenedBy(g: Graph, kinds: seq<Kind>, st: State, n: int)
    requires Sized(g, kinds, st) && st.subsets != [] && StuckBelow(g, kinds, st, n)
    requires st.subsets[|st.subsets| - 1].kind == Unexplored
    ensures forall m :: IsNode(g, m) && m < n && st.ne[m] == NOT_READY ==> !ReadyBefore(g, st.te, m, |st.subsets|)
  {
    assert forall m :: IsNode(g, m) && m < n ==> !CanAssign(g, kinds, st, m);
  }

  lemma EpochsBounded(g: Graph, st: State, t: int)
    requires EpochsAgree(g, st.te, st.ne) && NodesAgree(g, st.subsets, st.ne, st.pos) && IsTensor(g, t)
    ensures st.te[t] < |st.subsets|
  {
    if Produced(g, t) {
      var m :| Produces(g, m, t);
      assert st.te[t] == st.ne[m];
    }
  }

  lemma EmptyLastEpoch(g: Graph, st: State, t: int)
    requires EpochsAgree(g, st.te, st.ne) && NodesAgree(g, st.subsets, st.ne, st.pos) && IsTensor(g, t)
    requires st.subsets != [] && st.subsets[|st.subsets| - 1].nodes == []
    ensures st.te[t] < |st.subsets| - 1
  {
    if Produced(g, t) {
      var m :| Produces(g, m, t);
      assert st.te[t] == st.ne[m];
    }
  }

  /** The nodes without a subset. */
  ghost function Unplaced(ne: seq<int>): set<int> {
    set n | 0 <= n < |ne| && ne[n] == NOT_READY
  }

  lemma PlacingShrinksUnplaced(ne: seq<int>, n: int, e: nat)
    requires 0 <= n < |ne| && ne[n] == NOT_READY
    ensures |Unplaced(ne[n := e])| < |Unplaced(ne)|
  {
    assert Unplaced(ne) == Unplaced(ne[n := e]) + {n};
  }

  lemma MovedKeepsFilling(g: Graph, kinds: seq<Kind>, n: int, st: State, st': State)
    requires Filling(g, kinds, st) && CanAssign(g, kinds, st, n) && StuckTo(g, kinds, st, n)
    requires Moved(g, kinds, n, st, st')
    ensures Filling(g, kinds, st') && st'.subsets[|st.subsets| - 1].nodes != []
    ensures |Unplaced(st'.ne)| < |Unplaced(st.ne)|
  {
    MovedKeepsInv(g, kinds, n, st, st');
    MovedKeepsSettled(g, kinds, n, st, st');
    MovedKeepsFirstReady(g, kinds, n, st, st');
    MovedKeepsLastSwept(g, kinds, n, st, st');
    PlacingShrinksUnplaced(st.ne, n, |st.subsets| - 1);
  }

  /** A fresh empty subset at the end changes nothing about the others. */
  lemma EmptySubsetIsFilling(g: Graph, kinds: seq<Kind>, st: State, st': State)
    requires Inv(g, kinds, st) && Settled(g, kinds, st, |st.subsets|)
    requires st' == st.(subsets := st.subsets + [EMPTY_SUBSET])
    ensures Filling(g, kinds, st')
  {
    assert forall e :: 0 <= e < |st.subsets| ==> st'.subsets[e] == st.subsets[e];
    assert forall n, e, j :: NodeAt(st'.subsets, n, e, j) == NodeAt(st.subsets, n, e, j);
    assert forall e, t :: InputListed(st'.subsets, e, t) == InputListed(st.subsets, e, t);
    assert forall e, t :: OutputListed(st'.subsets, e, t) == OutputListed(st.subsets, e, t);
    forall e | 0 <= e < |st.subsets|
      ensures Finished(g, kinds, st', e)
    {
      assert Finished(g, kinds, st, e);
      SameSwept(g, kinds, st, st', e);
    }
    forall t | IsTensor(g, t)
      ensures st.te[t] < |st.subsets|
    {
      EpochsBounded(g, st, t);
    }
  }

  /** When no node can be assigned, the last subset is finished if it has nodes, and the graph is exhausted
      if it has none. */
  lemma StuckIsSettled(g: Graph, kinds: seq<Kind>, st: State)
    requires Filling(g, kinds, st) && StuckBelow(g, kinds, st, |g.nodes|)
    ensures st.subsets[|st.subsets| - 1].nodes != [] ==> Settled(g, kinds, st, |st.subsets|)
    ensures st.subsets[|st.subsets| - 1].nodes == [] ==> Exhausted(g, st.te, st.ne)
  {
    var cur := |st.subsets| - 1;
    if st.subsets[cur].nodes == [] {
      forall m | IsNode(g, m) && st.ne[m] == NOT_READY
        ensures exists t :: Consumes(g, m, t) && IsTensor(g, t) && st.te[t] == NOT_READY
      {
        assert !CanAssign(g, kinds, st, m);
        var t :| Consumes(g, m, t) && !(IsTensor(g, t) && st.te[t] != NOT_READY && st.te[t] < |st.subsets|);
        EpochsBounded(g, st, t);
      }
    } else {
      forall m | IsNode(g, m) && (st.ne[m] == NOT_READY || cur < st.ne[m]) && kinds[m] == st.subsets[cur].kind
        ensures !ReadyBefore(g, st.te, m, cur + 1)
      {
        assert !CanAssign(g, kinds, st, m);
      }
    }
  }

  // ----- the finished partition

  ghost predicate StrictlyIncreasing(s: seq<int>) {
    forall i, j :: 0 <= i < j < |s| ==> s[i] < s[j]
  }

  /** Sorts and removes duplicates, as std::sort and std::unique do together. */
  function Uniquefy(items: seq<int>): (r: seq<int>)
    ensures StrictlyIncreasing(r)
    ensures forall t :: t in r <==> t in items
  {
    if items == [] then [] else Insert(Uniquefy(items[1..]), items[0])
  }

  lemma HeadIsLeast(sorted: seq<int>)
    requires StrictlyIncreasing(sorted) && sorted != []
    ensures forall t :: t in sorted[1..] ==> sorted[0] < t
    ensures forall t :: t in sorted <==> t == sorted[0] || t in sorted[1..]
  {
    forall t | t in sorted[1..]
      ensures sorted[0] < t
    {
      var k :| 0 <= k < |sorted[1..]| && sorted[1..][k] == t;
      assert sorted[k + 1] == t;
    }
    assert sorted == [sorted[0]] + sorted[1..];
  }

  function Insert(sorted: seq<int>, x: int): (r: seq<int>)
    requires StrictlyIncreasing(sorted)
    ensures StrictlyIncreasing(r)
    ensures forall t :: t in r <==> t == x || t in sorted
  {
    if sorted == [] || x < sorted[0] then [x] + sorted
    else if x == sorted[0] then sorted
    else
      var rest := Insert(sorted[1..], x);
      assert forall t :: t in rest ==> sorted[0] < t by {
        HeadIsLeast(sorted);
      }
      assert forall k :: 0 <= k < |rest| ==> rest[k] in rest;
      [sorted[0]] + rest
  }

  /** The boundary lists of the result: sorted sets of exactly the tensors that cross, where the outputs of the
      model count as consumed outside. */
  ghost predicate BoundaryLists(g: Graph, s: seq<NodeSubset>, te: seq<int>, ne: seq<int>) {
    && |te| == g.numTensors && |ne| == |g.nodes|
    && (forall e :: 0 <= e < |s| ==>
          StrictlyIncreasing(s[e].inputTensors) && StrictlyIncreasing(s[e].outputTensors))
    && (forall e, t :: 0 <= e < |s| ==>
          (InputListed(s, e, t) <==> IsTensor(g, t) && te[t] != e && ConsumedInside(g, ne, e, t)))
    && (forall e, t :: 0 <= e < |s| ==>
          (OutputListed(s, e, t) <==>
           IsTensor(g, t) && te[t] == e && (ConsumedOutside(g, ne, e, t) || t in g.outputs)))
  }

  /** What Partition computes: every node placed, greedily, with exact boundary lists. */
  ghost predicate IsPartition(g: Graph, kinds: seq<Kind>, st: State) {
    && ValidGraph(g)
    && EpochsAgree(g, st.te, st.ne)
    && NodesAgree(g, st.subsets, st.ne, st.pos)
    && KindsAgree(kinds, st.subsets, st.ne)
    && InOrder(g, st.ne, st.pos)
    && Settled(g, kinds, st, |st.subsets|)
    && (forall n :: 0 <= n < |st.ne| ==> st.ne[n] != NOT_READY)
    && BoundaryLists(g, st.subsets, st.te, st.ne)
  }

  /** In an acyclic graph the fixpoint places every node. */
  lemma {:induction false} AcyclicPlaced(g: Graph, te: seq<int>, ne: seq<int>, rank: seq<nat>, n: int)
    requires EpochsAgree(g, te, ne) && Exhausted(g, te, ne) && RanksEdges(g, rank) && IsNode(g, n)
    ensures ne[n] != NOT_READY
    decreases rank[n]
  {
    if ne[n] == NOT_READY {
      var t :| Consumes(g, n, t) && IsTensor(g, t) && te[t] == NOT_READY;
      assert Produced(g, t);
      var m :| Produces(g, m, t);
      AcyclicPlaced(g, te, ne, rank, m);
    }
  }

  /** The lists of tensors are the only part of the subsets that may differ. */
  ghost predicate SameNodes(s: seq<NodeSubset>, s': seq<NodeSubset>) {
    && |s'| == |s|
    && forall e :: 0 <= e < |s| ==> s'[e].kind == s[e].kind && s'[e].nodes == s[e].nodes
  }

  /** Rewriting the tensor lists alone keeps everything that is said about the nodes. */
  lemma SameNodesKeepPlacement(g: Graph, kinds: seq<Kind>, st: State, s': seq<NodeSubset>)
    requires NodesAgree(g, st.subsets, st.ne, st.pos) && KindsAgree(kinds, st.subsets, st.ne)
    requires Settled(g, kinds, st, |st.subsets|) && SameNodes(st.subsets, s')
    ensures NodesAgree(g, s', st.ne, st.pos) && KindsAgree(kinds, s', st.ne)
    ensures Settled(g, kinds, st.(subsets := s'), |s'|)
  {
    assert forall n, e, j :: NodeAt(s', n, e, j) == NodeAt(st.subsets, n, e, j);
    forall e | 0 <= e < |s'|
      ensures Finished(g, kinds, st.(subsets := s'), e)
    {
      assert Finished(g, kinds, st, e);
      SameSwept(g, kinds, st, st.(subsets := s'), e);
    }
  }

  /** Adding the model outputs to the exact lists and sorting these gives the lists of the result. */
  lemma BoundariesFinished(g: Graph, s: seq<NodeSubset>, s': seq<NodeSubset>, te: seq<int>, ne: seq<int>)
    requires BoundariesExact(g, s, te, ne) && |s'| == |s|
    requires forall e :: 0 <= e < |s'| ==>
      StrictlyIncreasing(s'[e].inputTensors) && StrictlyIncreasing(s'[e].outputTensors)
    requires forall e, t :: 0 <= e < |s'| ==> (InputListed(s', e, t) <==> InputListed(s, e, t))
    requires forall e, t :: 0 <= e < |s'| ==>
      (OutputListed(s', e, t) <==> OutputListed(s, e, t) || (IsTensor(g, t) && te[t] == e && t in g.outputs))
    ensures BoundaryLists(g, s', te, ne)
  {
  }

  // ----- the partitioner

  class PartitionGraphIntoIndependentNodeSubsetsImpl {
    const info: Graph
    const nodeKinds: seq<Kind>
    var nodeSubsets: seq<NodeSubset>
    var tensorEpochs: seq<int>
    var nodeEpochs: seq<int>
    ghost var nodePositions: seq<int>

    ghost function Current(): State
      reads this
    {
      State(nodeSubsets, tensorEpochs, nodeEpochs, nodePositions)
    }

    constructor (info: Graph, nodesToPartition: seq<int>)
      requires forall k :: 0 <= k < |nodesToPartition| ==> IsNode(info, nodesToPartition[k])
      ensures this.info == info && |nodeKinds| == |info.nodes|
      ensures forall n :: IsNode(info, n) ==>
        nodeKinds[n] == if n in nodesToPartition then Kind.Partition else NonPartition
    {
      var kinds := seq(|info.nodes|, _ => NonPartition);
      for k := 0 to |nodesToPartition|
        invariant |kinds| == |info.nodes|
        invariant forall n :: IsNode(info, n) ==>
          kinds[n] == if n in nodesToPartition[..k] then Kind.Partition else NonPartition
      {
        kinds := kinds[nodesToPartition[k] := Kind.Partition];
      }
      assert nodesToPartition[..|nodesToPartition|] == nodesToPartition;
      this.info := info;
      nodeKinds := kinds;
      nodeSubsets, tensorEpochs, nodeEpochs, nodePositions := [], [], [], [];
    }

    /** The current state is one between two updates. */
    ghost predicate Fills()
      reads this
    {
      nodeSubsets != [] && forall st :: st == Current() ==> Filling(info, nodeKinds, st)
    }

    /** Moves node n into the last subset if all its inputs are placed and its kind fits. */
    method UpdateNode(n: int) returns (updated: bool)
      requires Fills() && IsNode(info, n)
      requires StuckTo(info, nodeKinds, Current(), n)
      modifies this
      ensures Fills() && |nodeSubsets| == |old(nodeSubsets)|
      ensures StuckTo(info, nodeKinds, Current(), n + 1)
      ensures updated == CanAssign(info, nodeKinds, old(Current()), n)
      ensures !updated ==> Current() == old(Current())
      ensures updated ==> Moved(info, nodeKinds, n, old(Current()), Current())
      ensures updated ==> nodeSubsets[|nodeSubsets| - 1].nodes != []
      ensures updated ==> |Unplaced(nodeEpochs)| < |Unplaced(old(nodeEpochs))|
    {
      assert Filling(info, nodeKinds, Current());
      var cur := |nodeSubsets| - 1;
      if !CanAssign(info, nodeKinds, Current(), n) {
        StuckNext(info, nodeKinds, Current(), n);
      }
      if nodeEpochs[n] != NOT_READY {
        return false;
      }
      var ready := InputsReady(n);
      if !ready {
        return false;
      }
      if nodeSubsets[cur].kind == Unexplored || nodeSubsets[cur].kind == nodeKinds[n] {
        ghost var st := Current();
        Place(n, cur);
        MovedKeepsFilling(info, nodeKinds, n, st, Current());
        MovedIsStuckTo(info, nodeKinds, n, st, Current());
        return true;
      } else {
        return false;
      }
    }

    /** The loop of UpdateNode that looks for an input without an epoch. */
    method InputsReady(n: int) returns (ready: bool)
      requires Inv(info, nodeKinds, Current()) && IsNode(info, n)
      ensures ready == ReadyBefore(info, tensorEpochs, n, |nodeSubsets|)
    {
      var inputs := info.nodes[n].inputs;
      for i := 0 to |inputs|
        invariant forall t :: t in inputs[..i] ==> IsTensor(info, t) && tensorEpochs[t] != NOT_READY
      {
        assert Consumes(info, n, inputs[i]);
        if tensorEpochs[inputs[i]] == NOT_READY {
          return false;
        }
      }
      assert inputs[..|inputs|] == inputs;
      forall t | Consumes(info, n, t)
        ensures tensorEpochs[t] < |nodeSubsets|
      {
        EpochsBounded(info, Current(), t);
      }
      return true;
    }

    /** The branch of UpdateNode that moves the node; an unexplored subset takes the kind of its first node. */
    method Place(n: int, cur: int)
      requires ValidGraph(info) && CanAssign(info, nodeKinds, Current(), n) && cur == |nodeSubsets| - 1
      modifies this
      ensures Moved(info, nodeKinds, n, old(Current()), Current())
    {
      ghost var s := nodeSubsets;
      if nodeSubsets[cur].kind == Unexplored {
        nodeSubsets := nodeSubsets[cur := nodeSubsets[cur].(kind := nodeKinds[n])];
      }
      nodeEpochs := nodeEpochs[n := cur];
      nodePositions := nodePositions[n := |nodeSubsets[cur].nodes|];
      nodeSubsets := nodeSubsets[cur := nodeSubsets[cur].(nodes := nodeSubsets[cur].nodes + [n])];
      PlaceOutputs(n, cur);
      ghost var s1 := nodeSubsets;
      assert forall e :: 0 <= e < |s| ==>
        s1[e].inputTensors == s[e].inputTensors && s1[e].outputTensors == s[e].outputTensors;
      RecordInputs(n, cur);
      assert MovedSubsets(info, nodeKinds, n, s, tensorEpochs, nodeSubsets);
    }

    /** The loop of UpdateNode over the outputs of the node. */
    method PlaceOutputs(n: int, epoch: int)
      requires IsNode(info, n) && |tensorEpochs| == info.numTensors
      requires forall t :: Produces(info, n, t) ==> IsTensor(info, t)
      modifies `tensorEpochs
      ensures |tensorEpochs| == info.numTensors
      ensures forall t :: IsTensor(info, t) ==>
        tensorEpochs[t] == if Produces(info, n, t) then epoch else old(tensorEpochs)[t]
    {
      var outputs := info.nodes[n].outputs;
      for i := 0 to |outputs|
        invariant |tensorEpochs| == info.numTensors
        invariant forall t :: IsTensor(info, t) ==>
          tensorEpochs[t] == if t in outputs[..i] then epoch else old(tensorEpochs)[t]
      {
        assert Produces(info, n, outputs[i]);
        tensorEpochs := tensorEpochs[outputs[i] := epoch];
      }
      assert outputs[..|outputs|] == outputs;
    }

    /** The loop of UpdateNode that records which inputs of the node cross into its subset. */
    method RecordInputs(n: int, cur: int)
      requires IsNode(info, n) && |tensorEpochs| == info.numTensors && 0 <= cur < |nodeSubsets|
      requires forall t :: Consumes(info, n, t) ==> IsTensor(info, t) && tensorEpochs[t] < |nodeSubsets|
      modifies `nodeSubsets
      ensures SameNodes(old(nodeSubsets), nodeSubsets)
      ensures forall e, t :: 0 <= e < |nodeSubsets| ==>
        (InputListed(nodeSubsets, e, t) <==>
         InputListed(old(nodeSubsets), e, t) ||
         (e == cur && IsTensor(info, t) && Consumes(info, n, t) && tensorEpochs[t] != cur))
      ensures forall e, t :: 0 <= e < |nodeSubsets| ==>
        (OutputListed(nodeSubsets, e, t) <==>
         OutputListed(old(nodeSubsets), e, t) ||
         (e != cur && IsTensor(info, t) && Consumes(info, n, t) && tensorEpochs[t] == e))
    {
      var inputs := info.nodes[n].inputs;
      ghost var s := nodeSubsets;
      for i := 0 to |inputs|
        invariant SameNodes(s, nodeSubsets)
        invariant forall e, t :: 0 <= e < |nodeSubsets| ==>
          (InputListed(nodeSubsets, e, t) <==>
           InputListed(s, e, t) || (e == cur && IsTensor(info, t) && t in inputs[..i] && tensorEpochs[t] != cur))
        invariant forall e, t :: 0 <= e < |nodeSubsets| ==>
          (OutputListed(nodeSubsets, e, t) <==>
           OutputListed(s, e, t) || (e != cur && IsTensor(info, t) && t in inputs[..i] && tensorEpochs[t] == e))
      {
        var x := inputs[i];
        assert Consumes(info, n, x);
        assert inputs[..i + 1] == inputs[..i] + [x];
        assert forall t :: t in inputs[..i + 1] <==> t in inputs[..i] || t == x;
        RecordInput(x, cur);
      }
      assert inputs[..|inputs|] == inputs;
      assert forall t :: Consumes(info, n, t) <==> t in inputs;
    }

    method RecordInput(x: int, cur: int)
      requires |tensorEpochs| == info.numTensors && 0 <= cur < |nodeSubsets|
      requires IsTensor(info, x) && tensorEpochs[x] < |nodeSubsets|
      modifies `nodeSubsets
      ensures SameNodes(old(nodeSubsets), nodeSubsets)
      ensures forall e, t :: 0 <= e < |nodeSubsets| ==>
        (InputListed(nodeSubsets, e, t) <==>
         InputListed(old(nodeSubsets), e, t) || (e == cur && t == x && tensorEpochs[x] != cur))
      ensures forall e, t :: 0 <= e < |nodeSubsets| ==>
        (OutputListed(nodeSubsets, e, t) <==>
         OutputListed(old(nodeSubsets), e, t) || (e != cur && t == x && tensorEpochs[x] == e))
    {
      var inputEpoch := tensorEpochs[x];
      if inputEpoch != cur {
        nodeSubsets := nodeSubsets[cur := nodeSubsets[cur].(inputTensors := nodeSubsets[cur].inputTensors + [x])];
        if inputEpoch >= 0 {
          nodeSubsets := nodeSubsets[inputEpoch :=
            nodeSubsets[inputEpoch].(outputTensors := nodeSubsets[inputEpoch].outputTensors + [x])];
        }
      }
    }

    /** Fills one more subset: passes over all nodes until a pass places nothing. */
    method BuildNodeSubset()
      requires Inv(info, nodeKinds, Current()) && Settled(info, nodeKinds, Current(), |nodeSubsets|)
      modifies this
      ensures Inv(info, nodeKinds, Current()) && |nodeSubsets| == |old(nodeSubsets)| + 1
      ensures nodeSubsets[|nodeSubsets| - 1].nodes != [] ==>
        && Settled(info, nodeKinds, Current(), |nodeSubsets|)
        && |Unplaced(nodeEpochs)| < |Unplaced(old(nodeEpochs))|
      ensures nodeSubsets[|nodeSubsets| - 1].nodes == [] ==>
        && Current() == old(Current()).(subsets := old(nodeSubsets) + [EMPTY_SUBSET])
        && Exhausted(info, tensorEpochs, nodeEpochs)
    {
      ghost var st := Current();
      nodeSubsets := nodeSubsets + [EMPTY_SUBSET];
      EmptySubsetIsFilling(info, nodeKinds, st, Current());
      FillSubset();
      assert Filling(info, nodeKinds, Current());
      StuckIsSettled(info, nodeKinds, Current());
    }

    /** The loop of BuildNodeSubset: passes over all nodes until a pass places nothing. */
    method FillSubset()
      requires Fills() && nodeSubsets[|nodeSubsets| - 1].nodes == []
      modifies this
      ensures Fills() && |nodeSubsets| == |old(nodeSubsets)|
      ensures StuckBelow(info, nodeKinds, Current(), |info.nodes|)
      ensures nodeSubsets[|nodeSubsets| - 1].nodes == [] ==> Current() == old(Current())
      ensures nodeSubsets[|nodeSubsets| - 1].nodes != [] ==> |Unplaced(nodeEpochs)| < |Unplaced(old(nodeEpochs))|
    {
      ghost var st := Current();
      while true
        invariant Fills() && |nodeSubsets| == |st.subsets| && StuckTo(info, nodeKinds, Current(), 0)
        invariant nodeSubsets[|nodeSubsets| - 1].nodes == [] ==> Current() == st
        invariant nodeSubsets[|nodeSubsets| - 1].nodes != [] ==> |Unplaced(nodeEpochs)| < |Unplaced(st.ne)|
        decreases |Unplaced(nodeEpochs)|
      {
        var didSomething := Pass();
        if !didSomething {
          return;
        }
      }
    }

    /** One pass over all nodes in index order. */
    method Pass() returns (didSomething: bool)
      requires Fills() && StuckTo(info, nodeKinds, Current(), 0)
      modifies this
      ensures Fills() && |nodeSubsets| == |old(nodeSubsets)| && StuckTo(info, nodeKinds, Current(), 0)
      ensures didSomething ==>
        |Unplaced(nodeEpochs)| < |Unplaced(old(nodeEpochs))| && nodeSubsets[|nodeSubsets| - 1].nodes != []
      ensures !didSomething ==>
        Current() == old(Current()) && StuckBelow(info, nodeKinds, Current(), |info.nodes|)
    {
      didSomething := false;
      ghost var st := Current();
      for n := 0 to |info.nodes|
        invariant Fills() && |nodeSubsets| == |st.subsets| && StuckTo(info, nodeKinds, Current(), n)
        invariant didSomething ==>
          |Unplaced(nodeEpochs)| < |Unplaced(st.ne)| && nodeSubsets[|nodeSubsets| - 1].nodes != []
        invariant !didSomething ==> Current() == st && StuckBelow(info, nodeKinds, st, n)
      {
        var updated := UpdateNode(n);
        if updated {
          didSomething := true;
        }
      }
    }

    /** The start of Partition: clears the state, then opens one subset after the other until one stays empty.
        Nothing is assumed about cycles; the loops end because every round but the last places a node. */
    method AssignEpochs()
      requires ValidGraph(info) && |nodeKinds| == |info.nodes|
      requires forall n :: 0 <= n < |nodeKinds| ==> nodeKinds[n] != Unexplored
      modifies this
      ensures Inv(info, nodeKinds, Current()) && Settled(info, nodeKinds, Current(), |nodeSubsets|)
      ensures Exhausted(info, tensorEpochs, nodeEpochs)
    {
      nodeSubsets := [];
      tensorEpochs := seq(info.numTensors, _ => ALWAYS_READY);
      nodeEpochs := seq(|info.nodes|, _ => NOT_READY);
      nodePositions := nodeEpochs;
      for n := 0 to |info.nodes|
        invariant |tensorEpochs| == info.numTensors && nodeSubsets == []
        invariant nodeEpochs == nodePositions == seq(|info.nodes|, _ => NOT_READY)
        invariant forall t :: IsTensor(info, t) ==>
          tensorEpochs[t] == if exists m :: Produces(info, m, t) && m < n then NOT_READY else ALWAYS_READY
      {
        PlaceOutputs(n, NOT_READY);
      }
      while true
        invariant Inv(info, nodeKinds, Current()) && Settled(info, nodeKinds, Current(), |nodeSubsets|)
        decreases |Unplaced(nodeEpochs)|
      {
        ghost var st := Current();
        BuildNodeSubset();
        if nodeSubsets[|nodeSubsets| - 1].nodes == [] {
          nodeSubsets := nodeSubsets[..|nodeSubsets| - 1];
          assert Current() == st;
          break;
        }
      }
    }

    /** Partitions the graph. The source indexes the subsets with the epoch of every model output, so each of
        those must have a producer that gets placed. */
    method Partition()
      requires ValidGraph(info) && |nodeKinds| == |info.nodes|
      requires forall n :: 0 <= n < |nodeKinds| ==> nodeKinds[n] != Unexplored
      requires Acyclic(info) && forall t :: t in info.outputs ==> IsTensor(info, t) && Produced(info, t)
      modifies this
      ensures IsPartition(info, nodeKinds, Current())
    {
      AssignEpochs();
      ghost var st := Current();
      ghost var rank :| RanksEdges(info, rank);
      forall n | IsNode(info, n)
        ensures nodeEpochs[n] != NOT_READY
      {
        AcyclicPlaced(info, tensorEpochs, nodeEpochs, rank, n);
      }
      MarkModelOutputs();
      UniquefyTensors();
      BoundariesFinished(info, st.subsets, nodeSubsets, tensorEpochs, nodeEpochs);
      SameNodesKeepPlacement(info, nodeKinds, st, nodeSubsets);
    }

    /** The loop of Partition over the model outputs. */
    method MarkModelOutputs()
      requires |tensorEpochs| == info.numTensors
      requires forall t :: t in info.outputs ==> IsTensor(info, t) && 0 <= tensorEpochs[t] < |nodeSubsets|
      modifies `nodeSubsets
      ensures SameNodes(old(nodeSubsets), nodeSubsets)
      ensures forall e, t :: 0 <= e < |nodeSubsets| ==>
        (InputListed(nodeSubsets, e, t) <==> InputListed(old(nodeSubsets), e, t))
      ensures forall e, t :: 0 <= e < |nodeSubsets| ==>
        (OutputListed(nodeSubsets, e, t) <==>
         OutputListed(old(nodeSubsets), e, t) || (IsTensor(info, t) && tensorEpochs[t] == e && t in info.outputs))
    {
      ghost var s := nodeSubsets;
      for i := 0 to |info.outputs|
        invariant SameNodes(s, nodeSubsets)
        invariant forall e, t :: 0 <= e < |nodeSubsets| ==> (InputListed(nodeSubsets, e, t) <==> InputListed(s, e, t))
        invariant forall e, t :: 0 <= e < |nodeSubsets| ==>
          (OutputListed(nodeSubsets, e, t) <==>
           OutputListed(s, e, t) || (IsTensor(info, t) && tensorEpochs[t] == e && t in info.outputs[..i]))
      {
        var x := info.outputs[i];
        assert x in info.outputs;
        assert info.outputs[..i + 1] == info.outputs[..i] + [x];
        assert forall t :: t in info.outputs[..i + 1] <==> t in info.outputs[..i] || t == x;
        var epoch := tensorEpochs[x];
        nodeSubsets := nodeSubsets[epoch :=
          nodeSubsets[epoch].(outputTensors := nodeSubsets[epoch].outputTensors + [x])];
      }
      assert info.outputs[..|info.outputs|] == info.outputs;
    }

    /** The loop of Partition that sorts the tensor lists and removes their duplicates. */
    method UniquefyTensors()
      modifies `nodeSubsets
      ensures SameNodes(old(nodeSubsets), nodeSubsets)
      ensures forall e :: 0 <= e < |nodeSubsets| ==>
        && StrictlyIncreasing(nodeSubsets[e].inputTensors) && StrictlyIncreasing(nodeSubsets[e].outputTensors)
      ensures forall e, t :: 0 <= e < |nodeSubsets| ==>
        && (InputListed(nodeSubsets, e, t) <==> InputListed(old(nodeSubsets), e, t))
        && (OutputListed(nodeSubsets, e, t) <==> OutputListed(old(nodeSubsets), e, t))
    {
      ghost var s := nodeSubsets;
      for i := 0 to |nodeSubsets|
        invariant |nodeSubsets| == |s|
        invariant forall e :: i <= e < |s| ==> nodeSubsets[e] == s[e]
        invariant forall e :: 0 <= e < i ==>
          nodeSubsets[e] == s[e].(inputTensors := Uniquefy(s[e].inputTensors),
            outputTensors := Uniquefy(s[e].outputTensors))
      {
        nodeSubsets := nodeSubsets[i := nodeSubsets[i].(
          inputTensors := Uniquefy(nodeSubsets[i].inputTensors),
          outputTensors := Uniquefy(nodeSubsets[i].outputTensors))];
      }
    }
  }

  /** The kind of each node, given the list of nodes to partition. */
  function NodeKinds(g: Graph, nodesToPartition: seq<int>): seq<Kind> {
    seq(|g.nodes|, n => if n in nodesToPartition then Kind.Partition else NonPartition)
  }

  /** The entry point: a partition of the graph, for any list of nodes to partition. The epochs and positions that
      belong to the subsets are not returned. */
  method PartitionGraphIntoIndependentNodeSubsets(info: Graph, nodesToPartition: seq<int>)
    returns (nodeSubsets: seq<NodeSubset>)
    requires forall k :: 0 <= k < |nodesToPartition| ==> IsNode(info, nodesToPartition[k])
    requires ValidGraph(info) && Acyclic(info)
    requires forall t :: t in info.outputs ==> IsTensor(info, t) && Produced(info, t)
    ensures exists st :: IsPartition(info, NodeKinds(info, nodesToPartition), st) && st.subsets == nodeSubsets
  {
    var partitioner := new PartitionGraphIntoIndependentNodeSubsetsImpl(info, nodesToPartition);
    assert partitioner.nodeKinds == NodeKinds(info, nodesToPartition);
    partitioner.Partition();
    nodeSubsets := partitioner.nodeSubsets;
    assert partitioner.Current().subsets == nodeSubsets;
  }
}
