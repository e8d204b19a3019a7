/** Sending the nodes of a shared graph to its sessions, before they run, from any number of threads. */
module SessionExtend {
  import opened Sequences
  import opened Wrappers

  /** What is at a node id: an operation, another node, or nothing any more. */
  datatype Node = Op | NotOp | Removed

  /** The operations with ids from `from` to `to` - 1, as the graph was when they were captured. */
  datatype Batch = Batch(from: nat, to: nat, ids: seq<nat>, graph: seq<Node>)

  /** sent: what the native session has been extended with; base: how many nodes it was made with. */
  datatype Session = Session(mu: Option<nat>, lastNumGraphNodes: nat, base: nat, sent: seq<Batch>)

  datatype Pc =
    | Idle
    | EditLock | Edit | EditUnlock
    | MutationLock | MutationNext(k: nat) | MutationHave(k: nat) | MutationUnlock
    | ExtendLock(k: nat) | ExtendSession(k: nat) | ExtendCompare(k: nat) | ExtendValidate(k: nat, n: nat)
    | ExtendCapture(k: nat, n: nat) | ExtendGiveUp(k: nat) | ExtendUnlock(k: nat, b: Batch)
    | ExtendNative(k: nat, b: Batch) | ExtendCommit(k: nat, b: Batch) | ExtendRelease(k: nat)

  datatype State = State(nodes: seq<Node>, mu: Option<nat>, sessions: seq<Session>, pcs: seq<Pc>)

  predicate Init(s: State) {
    && s.mu.None? && (forall t :: 0 <= t < |s.pcs| ==> s.pcs[t] == Idle)
    && (forall k :: 0 <= k < |s.sessions| ==> FreshSession(s, s.sessions[k]))
  }

  predicate FreshSession(s: State, x: Session) {
    x.mu.None? && x.sent == [] && x.lastNumGraphNodes == x.base <= |s.nodes|
  }

  // ----- steps

  /** The ids of the operations among the nodes from `from` to `end` - 1. */
  function LiveOps(nodes: seq<Node>, from: nat, end: nat): (r: seq<nat>)
    requires end <= |nodes|
    ensures forall i :: 0 <= i < |r| ==> from <= r[i] < end && nodes[r[i]] == Op
    ensures forall i, j :: 0 <= i < j < |r| ==> r[i] < r[j]
    ensures forall id: nat :: from <= id < end && nodes[id] == Op ==> id in r
    decreases end
  {
    if end <= from then [] else LiveOps(nodes, from, end - 1) + if nodes[end - 1] == Op then [end - 1] else []
  }

  function At(s: State, t: nat, pc: Pc): State
    requires t < |s.pcs|
  {
    s.(pcs := s.pcs[t := pc])
  }

  function Put(s: State, k: nat, x: Session): State
    requires k < |s.sessions|
  {
    s.(sessions := s.sessions[k := x])
  }

  predicate Starts(s: State, pc: Pc) {
    pc == EditLock || pc == MutationLock || (pc.ExtendLock? && pc.k < |s.sessions|)
  }

  /** A new call of an idle thread. */
  predicate Call(s: State, s': State, t: nat) {
    t < |s.pcs| && s.pcs[t] == Idle && t < |s'.pcs| && Starts(s, s'.pcs[t]) && s' == At(s, t, s'.pcs[t])
  }

  /** A change of the graph: a node is added, which may fail and leave an empty id, or a node is removed. */
  ghost predicate GraphEdit(nodes: seq<Node>, nodes': seq<Node>) {
    || (exists x :: nodes' == nodes + [x])
    || (exists i :: RemovedAt(nodes, nodes', i))
  }

  predicate RemovedAt(nodes: seq<Node>, nodes': seq<Node>, i: nat) {
    i < |nodes| && nodes' == nodes[i := Removed]
  }

  /** The lock that a thread has to get for its next step. */
  function WantsSession(pc: Pc, sessions: nat): Option<nat> {
    if pc.ExtendSession? then Some(pc.k)
    else if pc.MutationNext? && pc.k < sessions then Some(pc.k)
    else None
  }

  predicate WantsGraph(pc: Pc) {
    pc == EditLock || pc == MutationLock || pc.ExtendLock?
  }

  predicate Enabled(s: State, t: nat) {
    t < |s.pcs| && s.pcs[t] != Idle && SessionsExist(s, s.pcs[t]) &&
    (WantsGraph(s.pcs[t]) ==> s.mu.None?) &&
    var k := WantsSession(s.pcs[t], |s.sessions|);
    k.Some? ==> s.sessions[k.value].mu.None?
  }

  /** The session that a thread is at exists. */
  predicate SessionsExist(s: State, pc: Pc) {
    match pc
    case MutationNext(k) => k <= |s.sessions|
    case MutationHave(k) => k < |s.sessions|
    case ExtendLock(k) => k < |s.sessions|
    case ExtendSession(k) => k < |s.sessions|
    case ExtendCompare(k) => k < |s.sessions|
    case ExtendValidate(k, n) => k < |s.sessions|
    case ExtendCapture(k, n) => k < |s.sessions| && n <= |s.nodes|
    case ExtendGiveUp(k) => k < |s.sessions|
    case ExtendUnlock(k, b) => k < |s.sessions|
    case ExtendNative(k, b) => k < |s.sessions|
    case ExtendCommit(k, b) => k < |s.sessions|
    case ExtendRelease(k) => k < |s.sessions|
    case _ => true
  }

  /** The step of thread t; ok tells whether the cycle check or the native extension succeeds. */
  function Advance(s: State, t: nat, ok: bool, nodes: seq<Node>): State
    requires t < |s.pcs| && SessionsExist(s, s.pcs[t])
  {
    match s.pcs[t]
    case Idle => s
    case EditLock => At(s, t, Edit).(mu := Some(t))
    case Edit => At(s, t, EditUnlock).(nodes := nodes)
    case EditUnlock => At(s, t, Idle).(mu := None)
    case MutationLock => At(s, t, MutationNext(0)).(mu := Some(t))
    case MutationNext(k) =>
      if k == |s.sessions| then At(s, t, MutationUnlock)
      else Put(At(s, t, MutationHave(k)), k, s.sessions[k].(mu := Some(t)))
    case MutationHave(k) => Put(At(s, t, MutationNext(k + 1)), k, s.sessions[k].(mu := None))
    case MutationUnlock => At(s, t, Idle).(mu := None)
    case ExtendLock(k) => At(s, t, ExtendSession(k)).(mu := Some(t))
    case ExtendSession(k) => Put(At(s, t, ExtendCompare(k)), k, s.sessions[k].(mu := Some(t)))
    case ExtendCompare(k) =>
      At(s, t, if s.sessions[k].lastNumGraphNodes < |s.nodes| then ExtendValidate(k, |s.nodes|) else ExtendGiveUp(k))
    case ExtendValidate(k, n) => At(s, t, if ok then ExtendCapture(k, n) else ExtendGiveUp(k))
    case ExtendCapture(k, n) =>
      var from := s.sessions[k].lastNumGraphNodes;
      At(s, t, ExtendUnlock(k, Batch(from, n, LiveOps(s.nodes, from, n), s.nodes)))
    case ExtendGiveUp(k) => At(s, t, ExtendRelease(k)).(mu := None)
    case ExtendUnlock(k, b) => At(s, t, ExtendNative(k, b)).(mu := None)
    case ExtendNative(k, b) =>
      if ok then Put(At(s, t, ExtendCommit(k, b)), k, s.sessions[k].(sent := s.sessions[k].sent + [b]))
      else At(s, t, ExtendRelease(k))
    case ExtendCommit(k, b) => Put(At(s, t, ExtendRelease(k)), k, s.sessions[k].(lastNumGraphNodes := b.to))
    case ExtendRelease(k) => Put(At(s, t, Idle), k, s.sessions[k].(mu := None))
  }

  ghost predicate Step(s: State, s': State, t: nat) {
    Enabled(s, t) && (s.pcs[t] == Edit ==> GraphEdit(s.nodes, s'.nodes)) &&
    exists ok :: s' == Advance(s, t, ok, s'.nodes)
  }

  ghost predicate Move(s: State, s': State, t: nat) {
    Call(s, s', t) || Step(s, s', t)
  }

  ghost predicate Next(s: State, s': State) {
    exists t: nat :: Move(s, s', t)
  }

  ghost predicate IsRun(run: seq<State>) {
    run != [] && Init(run[0]) && forall i: nat :: i + 1 < |run| ==> NextAt(run, i)
  }

  ghost predicate NextAt(run: seq<State>, i: nat)
    requires i + 1 < |run|
  {
    Next(run[i], run[i + 1])
  }

  // ----- the invariant

  predicate HoldsGraph(pc: Pc) {
    match pc
    case Edit => true case EditUnlock => true
    case MutationNext(_) => true case MutationHave(_) => true case MutationUnlock => true
    case ExtendSession(_) => true case ExtendCompare(_) => true case ExtendValidate(_, _) => true
    case ExtendCapture(_, _) => true case ExtendGiveUp(_) => true case ExtendUnlock(_, _) => true
    case _ => false
  }

  predicate HoldsSession(pc: Pc, k: nat) {
    match pc
    case MutationHave(j) => j == k
    case ExtendCompare(j) => j == k
    case ExtendValidate(j, _) => j == k
    case ExtendCapture(j, _) => j == k
    case ExtendGiveUp(j) => j == k
    case ExtendUnlock(j, _) => j == k
    case ExtendNative(j, _) => j == k
    case ExtendCommit(j, _) => j == k
    case ExtendRelease(j) => j == k
    case _ => false
  }

  /** The captured graph is the beginning of the graph, but for nodes that have been removed since. */
  ghost predicate Older(captured: seq<Node>, nodes: seq<Node>) {
    |captured| <= |nodes| && forall i :: 0 <= i < |captured| ==> nodes[i] == captured[i] || nodes[i] == Removed
  }

  ghost predicate GoodBatch(b: Batch, nodes: seq<Node>) {
    b.from <= b.to == |b.graph| && b.ids == LiveOps(b.graph, b.from, b.to) && Older(b.graph, nodes)
  }

  /** The batches follow one another without gap or overlap. */
  ghost predicate Chain(sent: seq<Batch>, base: nat, end: nat) {
    if sent == [] then base == end
    else
      var last := sent[|sent| - 1];
      last.to == end && Chain(sent[..|sent| - 1], base, last.from)
  }

  ghost predicate GoodBatches(sent: seq<Batch>, nodes: seq<Node>) {
    forall i :: 0 <= i < |sent| ==> GoodBatch(sent[i], nodes)
  }

  /** The end of what has been sent to session k, when its lock is not held by a thread that has yet to note it. */
  ghost predicate SessionInv(s: State, k: nat)
    requires k < |s.sessions|
  {
    var x := s.sessions[k];
    && (x.mu.Some? ==> x.mu.value < |s.pcs|)
    && x.base <= x.lastNumGraphNodes <= |s.nodes| && GoodBatches(x.sent, s.nodes)
    && Chain(x.sent, x.base, Sent(s, k))
  }

  /** How far the nodes have been sent to session k. */
  function Sent(s: State, k: nat): nat
    requires k < |s.sessions|
  {
    var x := s.sessions[k];
    if x.mu.Some? && x.mu.value < |s.pcs| && s.pcs[x.mu.value].ExtendCommit? then s.pcs[x.mu.value].b.to
    else x.lastNumGraphNodes
  }

  ghost predicate Locks(s: State, t: nat)
    requires t < |s.pcs|
  {
    var pc := s.pcs[t];
    && SessionsExist(s, pc)
    && (HoldsGraph(pc) <==> s.mu == Some(t))
    && (forall k :: 0 <= k < |s.sessions| ==> (HoldsSession(pc, k) <==> s.sessions[k].mu == Some(t)))
  }

  /** What a thread has read of the graph and the session is still so. */
  ghost predicate Work(s: State, t: nat)
    requires t < |s.pcs|
  {
    var pc := s.pcs[t];
    && SessionsExist(s, pc)
    && (pc.ExtendValidate? || pc.ExtendCapture? ==> s.sessions[pc.k].lastNumGraphNodes < pc.n == |s.nodes|)
    && (pc.ExtendUnlock? || pc.ExtendNative? || pc.ExtendCommit? ==>
        GoodBatch(pc.b, s.nodes) && pc.b.from == s.sessions[pc.k].lastNumGraphNodes)
  }

  ghost predicate ThreadInv(s: State, t: nat)
    requires t < |s.pcs|
  {
    Locks(s, t) && Work(s, t)
  }

  ghost predicate Inv(s: State) {
    && (s.mu.Some? ==> s.mu.value < |s.pcs|)
    && (forall k: nat :: k < |s.sessions| ==> SessionInv(s, k))
    && (forall t: nat :: t < |s.pcs| ==> ThreadInv(s, t))
  }

  lemma OlderStays(captured: seq<Node>, nodes: seq<Node>, nodes': seq<Node>)
    requires Older(captured, nodes) && Older(nodes, nodes')
    ensures Older(captured, nodes')
  {
  }

  lemma EditOlder(nodes: seq<Node>, nodes': seq<Node>)
    requires nodes' == nodes || GraphEdit(nodes, nodes')
    ensures Older(nodes, nodes')
  {
  }

  /** What a move leaves alone. */
  lemma MovePcs(s: State, s': State, t: nat)
    requires Move(s, s', t)
    ensures t < |s.pcs| && |s'.pcs| == |s.pcs| && s'.pcs == s.pcs[t := s'.pcs[t]]
    ensures |s'.sessions| == |s.sessions| && (s'.nodes == s.nodes || (s.pcs[t] == Edit && GraphEdit(s.nodes, s'.nodes)))
  {
  }

  /** A move changes at most the session whose lock its thread holds or gets. */
  lemma MoveSessions(s: State, s': State, t: nat, k: nat)
    requires Move(s, s', t) && k < |s.sessions|
    ensures |s'.sessions| == |s.sessions| && t < |s.pcs| && t < |s'.pcs|
    ensures s'.sessions[k] == s.sessions[k] || HoldsSession(s.pcs[t], k) || HoldsSession(s'.pcs[t], k)
    ensures s'.sessions[k].base == s.sessions[k].base
  {
  }

  lemma BatchStays(b: Batch, nodes: seq<Node>, nodes': seq<Node>)
    requires GoodBatch(b, nodes) && Older(nodes, nodes')
    ensures GoodBatch(b, nodes')
  {
    OlderStays(b.graph, nodes, nodes');
  }

  lemma BatchesStay(sent: seq<Batch>, nodes: seq<Node>, nodes': seq<Node>)
    requires GoodBatches(sent, nodes) && Older(nodes, nodes')
    ensures GoodBatches(sent, nodes')
  {
    forall i | 0 <= i < |sent|
      ensures GoodBatch(sent[i], nodes')
    {
      BatchStays(sent[i], nodes, nodes');
    }
  }

  /** A session whose lock the moving thread neither holds nor gets. */
  lemma SessionKept(s: State, s': State, t: nat, k: nat)
    requires Inv(s) && Move(s, s', t) && k < |s.sessions|
    requires |s'.sessions| == |s.sessions| && s'.sessions[k] == s.sessions[k]
    requires t < |s.pcs| && !HoldsSession(s.pcs[t], k)
    ensures SessionInv(s', k)
  {
    MovePcs(s, s', t);
    EditOlder(s.nodes, s'.nodes);
    assert SessionInv(s, k) && ThreadInv(s, t);
    BatchesStay(s.sessions[k].sent, s.nodes, s'.nodes);
  }

  /** A session whose lock the moving thread holds or gets, if the thread sends it nothing. */
  lemma SessionLocked(s: State, s': State, t: nat, k: nat)
    requires Inv(s) && Move(s, s', t) && k < |s.sessions| && t < |s.pcs| && t < |s'.pcs|
    requires HoldsSession(s.pcs[t], k) || HoldsSession(s'.pcs[t], k)
    requires !s'.pcs[t].ExtendCommit? && !s.pcs[t].ExtendCommit?
    ensures |s'.sessions| == |s.sessions| && SessionInv(s', k)
  {
    MovePcs(s, s', t);
    assert SessionInv(s, k) && ThreadInv(s, t);
  }

  /** The session that is sent a batch, or whose batch is noted. */
  lemma SessionSent(s: State, s': State, t: nat, k: nat)
    requires Inv(s) && Move(s, s', t) && k < |s.sessions| && t < |s.pcs| && t < |s'.pcs|
    requires HoldsSession(s.pcs[t], k) || HoldsSession(s'.pcs[t], k)
    requires s'.pcs[t].ExtendCommit? || s.pcs[t].ExtendCommit?
    ensures |s'.sessions| == |s.sessions| && SessionInv(s', k)
  {
    MovePcs(s, s', t);
    assert SessionInv(s, k) && ThreadInv(s, t);
    var x, x' := s.sessions[k], s'.sessions[k];
    if s'.pcs[t].ExtendCommit? {
      assert x'.sent[..|x.sent|] == x.sent;
    }
  }

  lemma OwnGraphLock(s: State, s': State, t: nat)
    requires Inv(s) && Move(s, s', t)
    ensures |s'.pcs| == |s.pcs| && t < |s.pcs|
    ensures SessionsExist(s', s'.pcs[t]) && (HoldsGraph(s'.pcs[t]) <==> s'.mu == Some(t))
  {
    MovePcs(s, s', t);
    assert ThreadInv(s, t);
  }

  lemma OwnSessionLock(s: State, s': State, t: nat, k: nat)
    requires Inv(s) && Move(s, s', t) && k < |s.sessions|
    ensures |s'.pcs| == |s.pcs| && t < |s.pcs| && |s'.sessions| == |s.sessions|
    ensures HoldsSession(s'.pcs[t], k) <==> s'.sessions[k].mu == Some(t)
  {
    MovePcs(s, s', t);
    assert ThreadInv(s, t);
  }

  lemma OwnLocks(s: State, s': State, t: nat)
    requires Inv(s) && Move(s, s', t)
    ensures |s'.pcs| == |s.pcs| && t < |s.pcs| && Locks(s', t)
  {
    OwnGraphLock(s, s', t);
    MovePcs(s, s', t);
    forall k | 0 <= k < |s'.sessions|
      ensures HoldsSession(s'.pcs[t], k) <==> s'.sessions[k].mu == Some(t)
    {
      OwnSessionLock(s, s', t, k);
    }
  }

  lemma OwnWork(s: State, s': State, t: nat)
    requires Inv(s) && Move(s, s', t) && t < |s.pcs|
    requires s'.pcs == s.pcs[t := s'.pcs[t]] && SessionsExist(s', s'.pcs[t])
    ensures Work(s', t)
  {
    EditOlder(s.nodes, s.nodes);
    assert ThreadInv(s, t);
    if s.pcs[t].ExtendCapture? {
      assert SessionInv(s, s.pcs[t].k);
    }
  }

  /** The thread that moves keeps its invariant. */
  lemma OwnInv(s: State, s': State, t: nat)
    requires Inv(s) && Move(s, s', t)
    ensures |s'.pcs| == |s.pcs| && t < |s.pcs| && ThreadInv(s', t)
  {
    MovePcs(s, s', t);
    OwnLocks(s, s', t);
    OwnWork(s, s', t);
  }

  /** The others keep theirs. */
  lemma OtherInv(s: State, s': State, t: nat, u: nat)
    requires Inv(s) && Move(s, s', t) && u < |s.pcs| && u != t
    ensures |s'.pcs| == |s.pcs| && ThreadInv(s', u)
  {
    MovePcs(s, s', t);
    EditOlder(s.nodes, s'.nodes);
    assert ThreadInv(s, t) && ThreadInv(s, u);
    if s.pcs[u].ExtendUnlock? || s.pcs[u].ExtendNative? || s.pcs[u].ExtendCommit? {
      BatchStays(s.pcs[u].b, s.nodes, s'.nodes);
    }
  }

  lemma MoveInv(s: State, s': State, t: nat)
    requires Inv(s) && Move(s, s', t)
    ensures Inv(s')
  {
    MovePcs(s, s', t);
    assert ThreadInv(s, t);
    forall k: nat | k < |s'.sessions|
      ensures SessionInv(s', k)
    {
      MoveSessions(s, s', t, k);
      if HoldsSession(s.pcs[t], k) || HoldsSession(s'.pcs[t], k) {
        if s'.pcs[t].ExtendCommit? || s.pcs[t].ExtendCommit? {
          SessionSent(s, s', t, k);
        } else {
          SessionLocked(s, s', t, k);
        }
      } else {
        SessionKept(s, s', t, k);
      }
    }
    forall u: nat | u < |s'.pcs|
      ensures ThreadInv(s', u)
    {
      if u == t {
        OwnInv(s, s', t);
      } else {
        OtherInv(s, s', t, u);
      }
    }
  }

  lemma NextInv(s: State, s': State)
    requires Inv(s) && Next(s, s')
    ensures Inv(s')
  {
    var t: nat :| Move(s, s', t);
    MoveInv(s, s', t);
  }

  lemma {:induction false} RunInv(run: seq<State>, i: nat)
    requires IsRun(run) && i < |run|
    ensures Inv(run[i])
  {
    if i > 0 {
      RunInv(run, i - 1);
      assert NextAt(run, i - 1);
      NextInv(run[i - 1], run[i]);
    }
  }

  // ----- exactly once

  /** Everything that has been sent. */
  function AllSent(sent: seq<Batch>): seq<nat> {
    if sent == [] then [] else AllSent(sent[..|sent| - 1]) + sent[|sent| - 1].ids
  }

  /** The batch whose range holds id; the graph that it was captured from. */
  function CapturedAs(sent: seq<Batch>, id: nat): Option<Node> {
    if sent == [] then None
    else
      var last := sent[|sent| - 1];
      if last.from <= id < last.to && id < |last.graph| then Some(last.graph[id])
      else CapturedAs(sent[..|sent| - 1], id)
  }

  predicate Increasing(ids: seq<nat>) {
    forall i, j :: 0 <= i < j < |ids| ==> ids[i] < ids[j]
  }

  /** Chained good batches send the ids in order, so each at most once, and all that were live when captured. */
  lemma {:induction false} ChainIsExact(sent: seq<Batch>, base: nat, end: nat, nodes: seq<Node>, id: nat)
    requires Chain(sent, base, end) && GoodBatches(sent, nodes)
    ensures base <= end && Increasing(AllSent(sent)) &&
      forall i :: 0 <= i < |AllSent(sent)| ==> base <= AllSent(sent)[i] < end
    ensures CapturedAs(sent, id).Some? <==> base <= id < end
    ensures id in AllSent(sent) <==> CapturedAs(sent, id) == Some(Op)
    ensures base <= id < end ==> id < |nodes| && (nodes[id] == CapturedAs(sent, id).value || nodes[id] == Removed)
  {
    if sent != [] {
      var n := |sent| - 1;
      var last := sent[n];
      assert GoodBatch(last, nodes);
      assert GoodBatches(sent[..n], nodes) by {
        assert forall i :: 0 <= i < n ==> sent[..n][i] == sent[i] && GoodBatch(sent[i], nodes);
      }
      ChainIsExact(sent[..n], base, last.from, nodes, id);
    }
  }

  /** In every state of every run, for every session and every node id: what has been sent covers the ids from the
      session's base to where it stands, each operation that was live at its capture exactly once and nothing else;
      an operation that is still live has been sent. */
  lemma SentExactlyOnce(run: seq<State>, i: nat, k: nat, id: nat)
    requires IsRun(run) && i < |run| && k < |run[i].sessions|
    ensures var s, x := run[i], run[i].sessions[k];
            && Increasing(AllSent(x.sent))
            && (CapturedAs(x.sent, id).Some? <==> x.base <= id < Sent(s, k))
            && (id in AllSent(x.sent) <==> CapturedAs(x.sent, id) == Some(Op))
            && (x.base <= id < Sent(s, k) && id < |s.nodes| && s.nodes[id] == Op ==> id in AllSent(x.sent))
            && x.lastNumGraphNodes <= Sent(s, k)
  {
    RunInv(run, i);
    var s, x := run[i], run[i].sessions[k];
    assert SessionInv(s, k);
    ChainIsExact(x.sent, x.base, Sent(s, k), s.nodes, id);
    if x.mu.Some? {
      assert ThreadInv(s, x.mu.value);
    }
  }

  /** A move sends at most one batch to a session. */
  lemma MoveSends(s: State, s': State, t: nat, k: nat)
    requires Move(s, s', t) && k < |s.sessions|
    ensures |s'.sessions| == |s.sessions| && s.sessions[k].sent <= s'.sessions[k].sent
  {
  }

  lemma NextSends(s: State, s': State, k: nat)
    requires Next(s, s') && k < |s.sessions|
    ensures |s'.sessions| == |s.sessions| && s.sessions[k].sent <= s'.sessions[k].sent
    ensures s'.sessions[k].base == s.sessions[k].base
  {
    var t: nat :| Move(s, s', t);
    MoveSends(s, s', t, k);
    MoveSessions(s, s', t, k);
  }

  lemma {:induction false} RunSends(run: seq<State>, i: nat, j: nat, k: nat)
    requires IsRun(run) && i <= j < |run| && k < |run[i].sessions|
    ensures |run[j].sessions| == |run[i].sessions| && run[i].sessions[k].sent <= run[j].sessions[k].sent
    ensures run[j].sessions[k].base == run[i].sessions[k].base
    decreases j
  {
    if i < j {
      RunSends(run, i, j - 1, k);
      assert NextAt(run, j - 1);
      NextSends(run[j - 1], run[j], k);
    }
  }

  /** Where the first m batches of a chain end is where the next one starts, or the whole chain ends. */
  lemma {:induction false} ChainCut(sent: seq<Batch>, base: nat, end: nat, m: nat, mid: nat)
    requires Chain(sent, base, end) && m <= |sent| && Chain(sent[..m], base, mid)
    ensures mid == if m < |sent| then sent[m].from else end
    decreases |sent|
  {
    var n := |sent| - 1;
    if m == |sent| {
      assert sent[..m] == sent;
    } else {
      assert sent[..n][..m] == sent[..m];
      if m == n {
        ChainEnd(sent[..n], base, mid, sent[n].from);
      } else {
        ChainCut(sent[..n], base, sent[n].from, m, mid);
      }
    }
  }

  lemma ChainEnd(sent: seq<Batch>, base: nat, end: nat, end': nat)
    requires Chain(sent, base, end) && Chain(sent, base, end')
    ensures end == end'
  {
  }

  /** Failed cycle checks and extensions, however many, lose nothing and repeat nothing: from any state of a run to
      any later one, what was sent stays, the next batch that is sent starts where the session stood, and until then
      the session stands where it stood. */
  lemma FailuresLoseNothing(run: seq<State>, i: nat, j: nat, k: nat)
    requires IsRun(run) && i <= j < |run| && k < |run[i].sessions|
    ensures |run[j].sessions| == |run[i].sessions|
    ensures var before, after := run[i].sessions[k].sent, run[j].sessions[k].sent;
      && before <= after
      && Sent(run[i], k) == if |before| < |after| then after[|before|].from else Sent(run[j], k)
  {
    RunInv(run, i);
    RunInv(run, j);
    RunSends(run, i, j, k);
    assert SessionInv(run[i], k) && SessionInv(run[j], k);
    var before, x := run[i].sessions[k].sent, run[j].sessions[k];
    assert x.sent[..|before|] == before;
    ChainCut(x.sent, x.base, Sent(run[j], k), |before|, Sent(run[i], k));
  }

  // ----- no deadlock

  /** A thread that waits for a session holds the graph and no session; one that waits for the graph holds nothing. */
  lemma LockOrder(s: State, t: nat, k: nat)
    requires Inv(s) && t < |s.pcs| && k < |s.sessions|
    ensures WantsSession(s.pcs[t], |s.sessions|).Some? ==> HoldsGraph(s.pcs[t]) && s.sessions[k].mu != Some(t)
    ensures WantsGraph(s.pcs[t]) ==> !HoldsGraph(s.pcs[t]) && s.sessions[k].mu != Some(t)
  {
    assert ThreadInv(s, t);
  }

  /** As long as a call is going on, some thread can go on with its call. */
  lemma NoDeadlock(s: State, t: nat) returns (u: nat)
    requires Inv(s) && t < |s.pcs| && s.pcs[t] != Idle
    ensures Enabled(s, u)
  {
    u := t;
    if WantsGraph(s.pcs[t]) && s.mu.Some? {
      u := s.mu.value;
      assert ThreadInv(s, u);
    }
    assert ThreadInv(s, t);
    var k := WantsSession(s.pcs[u], |s.sessions|);
    if k.Some? && s.sessions[k.value].mu.Some? {
      assert SessionInv(s, k.value);
      u := s.sessions[k.value].mu.value;
      assert ThreadInv(s, u);
    }
  }

  /** A thread that is enabled has a step to take. */
  lemma EnabledSteps(s: State, t: nat) returns (s': State)
    requires Enabled(s, t)
    ensures Step(s, s', t)
  {
    s' := Advance(s, t, true, s.nodes + [Op]);
    assert s.pcs[t] == Edit ==> s'.nodes == s.nodes + [Op];
    assert s' == Advance(s, t, true, s'.nodes);
  }

  // ----- all calls return

  /** How many steps a call can still take, with a given number of sessions. */
  function Left(pc: Pc, sessions: nat): nat {
    match pc
    case Idle => 0
    case EditLock => 3 case Edit => 2 case EditUnlock => 1
    case MutationLock => 3 + 2 * sessions
    case MutationNext(k) => if k <= sessions then 2 + 2 * (sessions - k) else 0
    case MutationHave(k) => if k < sessions then 1 + 2 * (sessions - k) else 0
    case MutationUnlock => 1
    case ExtendLock(_) => 9 case ExtendSession(_) => 8 case ExtendCompare(_) => 7
    case ExtendValidate(_, _) => 6 case ExtendCapture(_, _) => 5 case ExtendUnlock(_, _) => 4
    case ExtendNative(_, _) => 3 case ExtendCommit(_, _) => 2
    case ExtendGiveUp(_) => 2 case ExtendRelease(_) => 1
  }

  function Lefts(s: State): seq<nat> {
    seq(|s.pcs|, t requires 0 <= t < |s.pcs| => Left(s.pcs[t], |s.sessions|))
  }

  /** How many steps all calls can still take. */
  function AllLeft(s: State): nat {
    Sum(Lefts(s))
  }

  lemma OwnLeft(s: State, s': State, t: nat)
    requires Step(s, s', t)
    ensures t < |s'.pcs| && Left(s'.pcs[t], |s'.sessions|) < Left(s.pcs[t], |s.sessions|)
  {
  }

  /** A step within a call brings all calls nearer to their ends. */
  lemma StepShortens(s: State, s': State, t: nat)
    requires Step(s, s', t)
    ensures AllLeft(s') < AllLeft(s)
  {
    MovePcs(s, s', t);
    OwnLeft(s, s', t);
    var left := Left(s'.pcs[t], |s'.sessions|);
    assert Lefts(s') == Lefts(s)[t := left];
    SumUpdate(Lefts(s), t, left);
  }

  ghost predicate Steps(s: State, s': State) {
    exists t: nat :: Step(s, s', t)
  }

  /** From state i of the run on there are no new calls, only steps of any threads in any order. */
  ghost predicate NoNewCalls(run: seq<State>, i: nat) {
    forall j: nat :: i <= j && j + 1 < |run| ==> StepAt(run, j)
  }

  ghost predicate StepAt(run: seq<State>, j: nat)
    requires j + 1 < |run|
  {
    Steps(run[j], run[j + 1])
  }

  /** Without new calls every schedule ends, after no more steps than the calls have left. */
  lemma {:induction false} CallsEnd(run: seq<State>, i: nat, n: nat)
    requires i + n < |run| && NoNewCalls(run, i)
    ensures n + AllLeft(run[i + n]) <= AllLeft(run[i])
  {
    if n > 0 {
      CallsEnd(run, i, n - 1);
      assert StepAt(run, i + n - 1);
      var t: nat :| Step(run[i + n - 1], run[i + n - 1 + 1], t);
      StepShortens(run[i + n - 1], run[i + n], t);
    }
  }

  /** No thread can take a step. */
  ghost predicate Stuck(s: State) {
    forall t: nat, s': State :: !Step(s, s', t)
  }

  /** A run can only get stuck when all calls have returned; then no lock is held, and each session has noted all
      that it has been sent. */
  lemma EndsWithAllIdle(run: seq<State>, i: nat, t: nat, k: nat)
    requires IsRun(run) && i < |run| && Stuck(run[i]) && t < |run[i].pcs| && k < |run[i].sessions|
    ensures run[i].pcs[t] == Idle && run[i].mu.None? && run[i].sessions[k].mu.None?
    ensures Sent(run[i], k) == run[i].sessions[k].lastNumGraphNodes
  {
    var s := run[i];
    RunInv(run, i);
    forall u: nat | u < |s.pcs|
      ensures s.pcs[u] == Idle
    {
      if s.pcs[u] != Idle {
        var v := NoDeadlock(s, u);
        var s' := EnabledSteps(s, v);
        assert false;
      }
    }
    assert s.mu.Some? ==> ThreadInv(s, s.mu.value);
    assert SessionInv(s, k);
    assert s.sessions[k].mu.Some? ==> ThreadInv(s, s.sessions[k].mu.value);
  }
}
