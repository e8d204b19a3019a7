/** Who deletes a graph that sessions share: TF_NewSession, TF_DeleteSession and TF_DeleteGraph on any threads. */
module GraphLifetime {
  import opened Sequences
  import opened Wrappers

  /** Where a thread is; `del` is what it has found out while it had the lock. */
  datatype Pc =
    | Idle
    | NewLock(k: nat) | NewInsert(k: nat) | NewUnlock(k: nat)
    | EndLock(k: nat) | EndErase(k: nat) | EndUnlock(k: nat, del: bool) | EndFree(k: nat, del: bool)
    | GraphLock | GraphMark | GraphUnlock(del: bool) | GraphFree(del: bool)

  /** sessions: registered in the graph; open: made and not yet being deleted; requested: TF_DeleteGraph was called. */
  datatype State = State(sessions: set<nat>, deleteRequested: bool, mu: Option<nat>, frees: nat,
                         open: set<nat>, used: set<nat>, requested: bool, pcs: seq<Pc>)

  predicate Init(s: State) {
    && s.sessions == {} && !s.deleteRequested && s.mu.None? && s.frees == 0 && s.open == {} && s.used == {}
    && !s.requested && forall t :: 0 <= t < |s.pcs| ==> s.pcs[t] == Idle
  }

  function At(s: State, t: nat, pc: Pc): State
    requires t < |s.pcs|
  {
    s.(pcs := s.pcs[t := pc])
  }

  // ----- calls: what the callers may do

  predicate MakesSession(pc: Pc) { pc.NewLock? || pc.NewInsert? || pc.NewUnlock? }

  /** A new session: not once the deletion of the graph has been called for. */
  ghost predicate CallNew(s: State, s': State, t: nat) {
    t < |s.pcs| && s.pcs[t] == Idle && !s.requested &&
    exists k: nat :: k !in s.used && s' == At(s, t, NewLock(k)).(used := s.used + {k})
  }

  /** The end of a session: once for each, after it has been made. */
  ghost predicate CallEnd(s: State, s': State, t: nat) {
    t < |s.pcs| && s.pcs[t] == Idle &&
    exists k: nat :: k in s.open && s' == At(s, t, EndLock(k)).(open := s.open - {k})
  }

  /** The deletion of the graph: once, and not while a session is being made. */
  ghost predicate CallDelete(s: State, s': State, t: nat) {
    && t < |s.pcs| && s.pcs[t] == Idle && !s.requested
    && (forall u: nat :: u < |s.pcs| ==> !MakesSession(s.pcs[u]))
    && s' == At(s, t, GraphLock).(requested := true)
  }

  // ----- steps within calls

  function Advance(s: State, t: nat): State
    requires t < |s.pcs|
  {
    match s.pcs[t]
    case Idle => s
    case NewLock(k) => At(s, t, NewInsert(k)).(mu := Some(t))
    case NewInsert(k) => At(s, t, NewUnlock(k)).(sessions := s.sessions + {k})
    case NewUnlock(k) => At(s, t, Idle).(mu := None, open := s.open + {k})
    case EndLock(k) => At(s, t, EndErase(k)).(mu := Some(t))
    case EndErase(k) =>
      At(s, t, EndUnlock(k, s.deleteRequested && s.sessions - {k} == {})).(sessions := s.sessions - {k})
    case EndUnlock(k, del) => At(s, t, EndFree(k, del)).(mu := None)
    case EndFree(k, del) => At(s, t, Idle).(frees := s.frees + if del then 1 else 0)
    case GraphLock => At(s, t, GraphMark).(mu := Some(t))
    case GraphMark => At(s, t, GraphUnlock(s.sessions == {})).(deleteRequested := true)
    case GraphUnlock(del) => At(s, t, GraphFree(del)).(mu := None)
    case GraphFree(del) => At(s, t, Idle).(frees := s.frees + if del then 1 else 0)
  }

  predicate Waits(pc: Pc) { pc.NewLock? || pc.EndLock? || pc.GraphLock? }

  predicate Enabled(s: State, t: nat) {
    t < |s.pcs| && s.pcs[t] != Idle && (Waits(s.pcs[t]) ==> s.mu.None?)
  }

  predicate Step(s: State, s': State, t: nat) {
    Enabled(s, t) && s' == Advance(s, t)
  }

  /** A call or a step of thread t. */
  ghost predicate Move(s: State, s': State, t: nat) {
    CallNew(s, s', t) || CallEnd(s, s', t) || CallDelete(s, s', t) || Step(s, s', t)
  }

  ghost predicate Next(s: State, s': State) {
    exists t: nat :: Move(s, s', t)
  }

  ghost predicate IsRun(run: seq<State>) {
    run != [] && Init(run[0]) && forall i: nat :: i + 1 < |run| ==> NextAt(run, i)
  }

  ghost predicate NextAt(run: seq<State>, i: nat)
    requires i + 1 < |run|
  {
    Next(run[i], run[i + 1])
  }

  // ----- the invariant

  predicate Holds(pc: Pc) {
    match pc
    case NewInsert(_) => true case NewUnlock(_) => true
    case EndErase(_) => true case EndUnlock(_, _) => true
    case GraphMark => true case GraphUnlock(_) => true
    case _ => false
  }

  /** The thread uses the graph until it has unlocked it. */
  predicate UsesGraph(pc: Pc) {
    Holds(pc) || Waits(pc)
  }

  /** The thread will free the graph. */
  predicate WillFree(pc: Pc) {
    match pc
    case EndUnlock(_, del) => del
    case EndFree(_, del) => del
    case GraphUnlock(del) => del
    case GraphFree(del) => del
    case _ => false
  }

  predicate DeletesGraph(pc: Pc) { pc.GraphLock? || pc.GraphMark? }

  /** The thread is the one that deals with this session. */
  predicate DealsWith(pc: Pc, k: nat) {
    pc == NewLock(k) || pc == NewInsert(k) || pc == NewUnlock(k) || pc == EndLock(k) || pc == EndErase(k)
  }

  /** The graph is to be freed, or has been. */
  predicate Due(s: State) {
    s.deleteRequested && s.sessions == {}
  }

  ghost predicate ThreadInv(s: State, t: nat)
    requires t < |s.pcs|
  {
    var pc := s.pcs[t];
    && (Holds(pc) <==> s.mu == Some(t))
    && (MakesSession(pc) ==> !s.requested)
    && (forall k :: DealsWith(pc, k) ==>
          k in s.used && k !in s.open && (k in s.sessions <==> !pc.NewLock? && !pc.NewInsert?))
    && (DeletesGraph(pc) ==> s.requested && !s.deleteRequested)
    && (WillFree(pc) ==> Due(s) && s.frees == 0)
    && (pc.EndUnlock? || pc.GraphUnlock? ==> pc.del || !Due(s))
  }

  /** Two threads deal with different sessions, only one deletes the graph, and only one will free it. */
  ghost predicate Apart(p: Pc, q: Pc) {
    && (forall k :: DealsWith(p, k) ==> !DealsWith(q, k))
    && !(DeletesGraph(p) && DeletesGraph(q))
    && !(WillFree(p) && WillFree(q))
  }

  ghost predicate SomeoneWillFree(s: State) {
    exists t: nat :: t < |s.pcs| && WillFree(s.pcs[t])
  }

  /** The deletion that was called for is under way. */
  ghost predicate SomeoneDeletes(s: State) {
    exists t: nat :: t < |s.pcs| && DeletesGraph(s.pcs[t])
  }

  ghost predicate SomeoneDealsWith(s: State, k: nat) {
    exists t: nat :: t < |s.pcs| && DealsWith(s.pcs[t], k)
  }

  ghost predicate Inv(s: State) {
    && (s.mu.Some? ==> s.mu.value < |s.pcs|)
    && s.open <= s.sessions <= s.used
    && (forall k :: k in s.sessions ==> k in s.open || SomeoneDealsWith(s, k))
    && (s.deleteRequested ==> s.requested)
    && (s.requested ==> s.deleteRequested || SomeoneDeletes(s))
    && s.frees <= 1 && (s.frees == 1 ==> Due(s))
    && (Due(s) && s.frees == 0 ==> SomeoneWillFree(s))
    && (forall t: nat :: t < |s.pcs| ==> ThreadInv(s, t))
    && (forall t: nat, u: nat :: t < |s.pcs| && u < |s.pcs| && t != u ==> Apart(s.pcs[t], s.pcs[u]))
  }

  lemma StepPcs(s: State, s': State, t: nat)
    requires Move(s, s', t)
    ensures t < |s.pcs| && |s'.pcs| == |s.pcs| && s'.pcs == s.pcs[t := s'.pcs[t]]
  {
  }

  /** The thread that moves keeps its invariant. */
  lemma OwnInv(s: State, s': State, t: nat)
    requires Inv(s) && Move(s, s', t)
    ensures |s'.pcs| == |s.pcs| && t < |s.pcs| && ThreadInv(s', t)
  {
    StepPcs(s, s', t);
    assert ThreadInv(s, t);
    assert s.mu.Some? ==> ThreadInv(s, s.mu.value);
  }

  /** The others keep theirs. */
  lemma OtherInv(s: State, s': State, t: nat, u: nat)
    requires Inv(s) && Move(s, s', t) && u < |s.pcs| && u != t
    ensures |s'.pcs| == |s.pcs| && ThreadInv(s', u)
  {
    StepPcs(s, s', t);
    assert ThreadInv(s, t) && ThreadInv(s, u) && Apart(s.pcs[t], s.pcs[u]);
  }

  lemma MoveApart(s: State, s': State, t: nat, u: nat)
    requires Inv(s) && Move(s, s', t) && u < |s.pcs| && u != t
    ensures |s'.pcs| == |s.pcs| && t < |s.pcs| && Apart(s'.pcs[t], s'.pcs[u]) && Apart(s'.pcs[u], s'.pcs[t])
  {
    StepPcs(s, s', t);
    assert ThreadInv(s, t) && ThreadInv(s, u) && Apart(s.pcs[t], s.pcs[u]) && Apart(s.pcs[u], s.pcs[t]);
  }

  /** As long as the graph is to be freed, a thread will do it. */
  lemma StillWillFree(s: State, s': State, t: nat)
    requires Inv(s) && Move(s, s', t) && Due(s') && s'.frees == 0
    ensures SomeoneWillFree(s')
  {
    StepPcs(s, s', t);
    assert ThreadInv(s, t);
    if Due(s) {
      var u: nat :| u < |s.pcs| && WillFree(s.pcs[u]);
      assert WillFree(s'.pcs[u]);
    } else {
      assert WillFree(s'.pcs[t]);
    }
  }

  /** What the callers have asked for is done or under way. */
  lemma AskedInv(s: State, s': State, t: nat, k: nat)
    requires Inv(s) && Move(s, s', t)
    ensures s'.requested ==> s'.deleteRequested || SomeoneDeletes(s')
    ensures k in s'.sessions ==> k in s'.open || SomeoneDealsWith(s', k)
  {
    DeletionInv(s, s', t);
    SessionInv(s, s', t, k);
  }

  lemma DeletionInv(s: State, s': State, t: nat)
    requires Inv(s) && Move(s, s', t)
    ensures s'.requested ==> s'.deleteRequested || SomeoneDeletes(s')
  {
    StepPcs(s, s', t);
    if s.requested && !s.deleteRequested {
      var u: nat :| u < |s.pcs| && DeletesGraph(s.pcs[u]);
      assert u != t ==> DeletesGraph(s'.pcs[u]);
    }
    assert DeletesGraph(s'.pcs[t]) ==> SomeoneDeletes(s');
  }

  lemma SessionInv(s: State, s': State, t: nat, k: nat)
    requires Inv(s) && Move(s, s', t)
    ensures k in s'.sessions ==> k in s'.open || SomeoneDealsWith(s', k)
  {
    StepPcs(s, s', t);
    if k in s.sessions && k !in s.open {
      var u: nat :| u < |s.pcs| && DealsWith(s.pcs[u], k);
      assert u != t ==> DealsWith(s'.pcs[u], k);
    }
    assert DealsWith(s'.pcs[t], k) ==> SomeoneDealsWith(s', k);
  }

  lemma SharedInv(s: State, s': State, t: nat)
    requires Inv(s) && Move(s, s', t)
    ensures (s'.mu.Some? ==> s'.mu.value < |s'.pcs|) && s'.open <= s'.sessions <= s'.used
    ensures (s'.deleteRequested ==> s'.requested) && s'.frees <= 1 && (s'.frees == 1 ==> Due(s'))
  {
    StepPcs(s, s', t);
    assert ThreadInv(s, t);
  }

  lemma MoveInv(s: State, s': State, t: nat)
    requires Inv(s) && Move(s, s', t)
    ensures Inv(s')
  {
    StepPcs(s, s', t);
    SharedInv(s, s', t);
    forall k
      ensures s'.requested ==> s'.deleteRequested || SomeoneDeletes(s')
      ensures k in s'.sessions ==> k in s'.open || SomeoneDealsWith(s', k)
    {
      AskedInv(s, s', t, k);
    }
    AskedInv(s, s', t, 0);
    if Due(s') && s'.frees == 0 {
      StillWillFree(s, s', t);
    }
    forall u: nat | u < |s'.pcs|
      ensures ThreadInv(s', u)
    {
      if u == t {
        OwnInv(s, s', t);
      } else {
        OtherInv(s, s', t, u);
      }
    }
    forall u: nat, v: nat | u < |s'.pcs| && v < |s'.pcs| && u != v
      ensures Apart(s'.pcs[u], s'.pcs[v])
    {
      if u == t {
        MoveApart(s, s', t, v);
      } else if v == t {
        MoveApart(s, s', t, u);
      } else {
        assert Apart(s.pcs[u], s.pcs[v]);
      }
    }
  }

  lemma NextInv(s: State, s': State)
    requires Inv(s) && Next(s, s')
    ensures Inv(s')
  {
    var t: nat :| Move(s, s', t);
    MoveInv(s, s', t);
  }

  lemma {:induction false} RunInv(run: seq<State>, i: nat)
    requires IsRun(run) && i < |run|
    ensures Inv(run[i])
  {
    if i > 0 {
      RunInv(run, i - 1);
      assert NextAt(run, i - 1);
      NextInv(run[i - 1], run[i]);
    }
  }

  // ----- what the callers can rely on

  lemma UserKeepsGraph(s: State, t: nat)
    requires Inv(s) && t < |s.pcs| && UsesGraph(s.pcs[t])
    ensures s.frees == 0
  {
    var pc := s.pcs[t];
    assert ThreadInv(s, t);
    if pc.NewUnlock? || pc.EndLock? || pc.EndErase? {
      assert DealsWith(pc, pc.k);
    }
  }

  /** In every state of every run: the graph has been freed at most once; if it has been freed, no session is
      registered, and no thread has still to lock or unlock it. */
  lemma FreedOnceAndUnused(run: seq<State>, i: nat, t: nat)
    requires IsRun(run) && i < |run| && t < |run[i].pcs|
    ensures run[i].frees <= 1
    ensures run[i].frees == 1 ==>
      run[i].sessions == {} && run[i].open == {} && !UsesGraph(run[i].pcs[t]) && !WillFree(run[i].pcs[t])
  {
    RunInv(run, i);
    assert ThreadInv(run[i], t);
    if UsesGraph(run[i].pcs[t]) {
      UserKeepsGraph(run[i], t);
    }
  }

  predicate Freer(s: State, t: nat) {
    t < |s.pcs| && WillFree(s.pcs[t])
  }

  /** The graph is freed by one thread only, and that is the thread whose lock section made the deletion requested
      and the sessions empty, whether it deleted the graph or the last session. */
  lemma WhoCompletesFrees(run: seq<State>, i: nat, next: nat, t: nat)
    requires IsRun(run) && next == i + 1 < |run| && Move(run[i], run[next], t)
    requires !Due(run[i]) && Due(run[next])
    ensures run[i].pcs[t].EndErase? || run[i].pcs[t].GraphMark?
    ensures forall u: nat :: Freer(run[next], u) <==> u == t
  {
    var s, s' := run[i], run[next];
    RunInv(run, i);
    RunInv(run, next);
    StepPcs(s, s', t);
    assert ThreadInv(s, t);
    forall u: nat
      ensures Freer(s', u) <==> u == t
    {
      assert u < |s'.pcs| && u != t ==> Apart(s'.pcs[u], s'.pcs[t]);
    }
  }

  /** Once due, the deletion of the graph stays due: no session is registered any more. */
  lemma StaysDue(run: seq<State>, i: nat)
    requires IsRun(run) && i + 1 < |run| && Due(run[i])
    ensures Due(run[i + 1])
  {
    RunInv(run, i);
    assert NextAt(run, i);
    var t: nat :| Move(run[i], run[i + 1], t);
    assert ThreadInv(run[i], t);
    assert run[i].pcs[t].EndErase? || run[i].pcs[t].NewInsert? ==> DealsWith(run[i].pcs[t], run[i].pcs[t].k);
  }

  /** When all calls have returned, the graph has been freed exactly once if its deletion was called for and all
      sessions that were made have been ended, and not at all otherwise. */
  lemma FreedAtTheEnd(run: seq<State>, i: nat)
    requires IsRun(run) && i < |run| && AllIdle(run[i])
    ensures run[i].frees == if run[i].requested && run[i].open == {} then 1 else 0
    ensures run[i].sessions == run[i].open
  {
    var s := run[i];
    RunInv(run, i);
    assert forall t: nat :: t < |s.pcs| ==> !DeletesGraph(s.pcs[t]) && !WillFree(s.pcs[t]);
    forall k | k in s.sessions
      ensures k in s.open
    {
      assert !SomeoneDealsWith(s, k);
    }
  }

  predicate AllIdle(s: State) {
    forall t :: 0 <= t < |s.pcs| ==> s.pcs[t] == Idle
  }

  // ----- no deadlock

  /** As long as a call is going on, some thread can go on with its call. */
  lemma NoDeadlock(s: State, t: nat) returns (u: nat)
    requires Inv(s) && t < |s.pcs| && s.pcs[t] != Idle
    ensures Enabled(s, u)
  {
    u := if s.mu.Some? then s.mu.value else t;
    assert ThreadInv(s, u);
  }

  // ----- all calls return

  /** How many steps a call can still take. */
  function Left(pc: Pc): nat {
    match pc
    case Idle => 0
    case NewLock(_) => 3 case NewInsert(_) => 2 case NewUnlock(_) => 1
    case EndLock(_) => 4 case EndErase(_) => 3 case EndUnlock(_, _) => 2 case EndFree(_, _) => 1
    case GraphLock => 4 case GraphMark => 3 case GraphUnlock(_) => 2 case GraphFree(_) => 1
  }

  function Lefts(pcs: seq<Pc>): seq<nat> {
    seq(|pcs|, t requires 0 <= t < |pcs| => Left(pcs[t]))
  }

  lemma LeftsUpdate(pcs: seq<Pc>, t: nat, pc: Pc)
    requires t < |pcs|
    ensures Sum(Lefts(pcs[t := pc])) == Sum(Lefts(pcs)) - Left(pcs[t]) + Left(pc)
  {
    assert Lefts(pcs[t := pc]) == Lefts(pcs)[t := Left(pc)];
    SumUpdate(Lefts(pcs), t, Left(pc));
  }

  /** How many steps all calls can still take. */
  function AllLeft(s: State): nat {
    Sum(Lefts(s.pcs))
  }

  lemma OwnLeft(s: State, s': State, t: nat)
    requires Step(s, s', t)
    ensures t < |s'.pcs| && Left(s'.pcs[t]) < Left(s.pcs[t])
  {
  }

  lemma StepShortens(s: State, s': State, t: nat)
    requires Step(s, s', t)
    ensures AllLeft(s') < AllLeft(s)
  {
    StepPcs(s, s', t);
    OwnLeft(s, s', t);
    LeftsUpdate(s.pcs, t, s'.pcs[t]);
  }

  /** From state i of the run on there are no new calls, only steps of any threads in any order. */
  ghost predicate NoNewCalls(run: seq<State>, i: nat) {
    forall j: nat :: i <= j && j + 1 < |run| ==> StepAt(run, j)
  }

  ghost predicate StepAt(run: seq<State>, j: nat)
    requires j + 1 < |run|
  {
    Steps(run[j], run[j + 1])
  }

  ghost predicate Steps(s: State, s': State) {
    exists t: nat :: Step(s, s', t)
  }

  /** Without new calls every schedule ends, after no more steps than the calls have left. */
  lemma {:induction false} CallsEnd(run: seq<State>, i: nat, n: nat)
    requires i + n < |run| && NoNewCalls(run, i)
    ensures n + AllLeft(run[i + n]) <= AllLeft(run[i])
  {
    if n > 0 {
      CallsEnd(run, i, n - 1);
      assert StepAt(run, i + n - 1);
      var t: nat :| Step(run[i + n - 1], run[i + n - 1 + 1], t);
      StepShortens(run[i + n - 1], run[i + n], t);
    }
  }

  /** No thread can take a step. */
  ghost predicate Stuck(s: State) {
    forall t: nat :: !Enabled(s, t)
  }

  /** A run can only get stuck when all calls have returned. So it ends with the graph freed exactly once, if the
      callers have deleted the graph and ended all sessions. */
  lemma EndsWithAllIdle(run: seq<State>, i: nat)
    requires IsRun(run) && i < |run| && Stuck(run[i])
    ensures AllIdle(run[i])
    ensures run[i].frees == if run[i].requested && run[i].open == {} then 1 else 0
  {
    RunInv(run, i);
    if t: nat :| t < |run[i].pcs| && run[i].pcs[t] != Idle {
      var u := NoDeadlock(run[i], t);
      assert false;
    }
    FreedAtTheEnd(run, i);
  }
}
