/** What a call gets done that sends new operations to a session, whatever the other threads do meanwhile. */
module SessionExtendCalls {
  import opened Wrappers
  import opened SessionExtend

  /** A thread and a session that exist in the run, between two of its states. */
  ghost predicate Span(run: seq<State>, t: nat, k: nat, i: nat, j: nat) {
    IsRun(run) && i <= j < |run| &&
    forall m: nat :: i <= m <= j ==> t < |run[m].pcs| && k < |run[m].sessions|
  }

  /** The states from i to j are one call of thread t, which begins at `first` and has returned in the last state. */
  ghost predicate IsCall(run: seq<State>, t: nat, k: nat, first: Pc, i: nat, j: nat) {
    && Span(run, t, k, i, j) && run[i].pcs[t] == first && run[j].pcs[t] == Idle
    && forall m: nat :: i <= m < j ==> run[m].pcs[t] != Idle
  }

  /** The cycle check or the native extension of thread t fails. */
  predicate StepFails(s: State, s': State, t: nat) {
    t < |s.pcs| && t < |s'.pcs| &&
    ((s.pcs[t].ExtendValidate? && s'.pcs[t].ExtendGiveUp?) || (s.pcs[t].ExtendNative? && s'.pcs[t].ExtendRelease?))
  }

  /** Both may fail or succeed. */
  lemma EitherOutcome(s: State, t: nat) returns (fails: State, succeeds: State)
    requires t < |s.pcs| && SessionsExist(s, s.pcs[t]) && (s.pcs[t].ExtendValidate? || s.pcs[t].ExtendNative?)
    ensures Step(s, fails, t) && StepFails(s, fails, t)
    ensures Step(s, succeeds, t) && !StepFails(s, succeeds, t)
  {
    fails, succeeds := Advance(s, t, false, s.nodes), Advance(s, t, true, s.nodes);
    assert fails == Advance(s, t, false, fails.nodes) && succeeds == Advance(s, t, true, succeeds.nodes);
  }

  /** This happens in step m. */
  ghost predicate FailsAt(run: seq<State>, t: nat, m: nat) {
    m + 1 < |run| && StepFails(run[m], run[m + 1], t)
  }

  ghost predicate Fails(run: seq<State>, t: nat, i: nat, j: nat) {
    exists m: nat :: i <= m < j && FailsAt(run, t, m)
  }

  /** The nodes that session k has not been sent, as they are in state c. */
  ghost function News(run: seq<State>, k: nat, c: nat): Batch
    requires c < |run| && k < |run[c].sessions|
  {
    var from, nodes := run[c].sessions[k].lastNumGraphNodes, run[c].nodes;
    Batch(from, |nodes|, LiveOps(nodes, from, |nodes|), nodes)
  }

  /** There are such nodes. */
  ghost predicate Behind(run: seq<State>, k: nat, c: nat)
    requires c < |run| && k < |run[c].sessions|
  {
    run[c].sessions[k].lastNumGraphNodes < |run[c].nodes|
  }

  /** Session k in state j is as it was in state c. */
  ghost predicate Unsent(run: seq<State>, k: nat, c: nat, j: nat)
    requires c < |run| && j < |run| && k < |run[c].sessions| && k < |run[j].sessions|
  {
    var before, now := run[c].sessions[k], run[j].sessions[k];
    now.sent == before.sent && now.lastNumGraphNodes == before.lastNumGraphNodes
  }

  /** Session k has been sent one batch since state c, and it has been noted how far the batch reaches. */
  ghost predicate SentAndNoted(run: seq<State>, k: nat, c: nat, j: nat)
    requires c < |run| && j < |run| && k < |run[c].sessions| && k < |run[j].sessions|
  {
    var before, now := run[c].sessions[k], run[j].sessions[k];
    now.sent == before.sent + [News(run, k, c)] && now.lastNumGraphNodes == |run[c].nodes|
  }

  /** What a call that compared in state c has done when it has let go of the session. */
  ghost predicate Outcome(run: seq<State>, t: nat, k: nat, i: nat, j: nat, c: nat)
    requires Span(run, t, k, i, j) && i <= c < j
  {
    if Behind(run, k, c) && !Fails(run, t, i, j) then SentAndNoted(run, k, c, j) else Unsent(run, k, c, j)
  }

  ghost predicate ComparesAt(run: seq<State>, t: nat, k: nat, c: nat) {
    c < |run| && t < |run[c].pcs| && k < |run[c].sessions| && run[c].pcs[t] == ExtendCompare(k)
  }

  /** How far the call has come in state j, after it compared in state c. */
  ghost predicate Progress(run: seq<State>, t: nat, k: nat, i: nat, j: nat, c: nat)
    requires Span(run, t, k, i, j) && i <= c < j
  {
    match run[j].pcs[t]
    case ExtendValidate(l, n) =>
      l == k && n == |run[c].nodes| && run[j].nodes == run[c].nodes && Behind(run, k, c) && Unsent(run, k, c, j) &&
      !Fails(run, t, i, j)
    case ExtendCapture(l, n) =>
      l == k && n == |run[c].nodes| && run[j].nodes == run[c].nodes && Behind(run, k, c) && Unsent(run, k, c, j) &&
      !Fails(run, t, i, j)
    case ExtendUnlock(l, b) =>
      l == k && b == News(run, k, c) && Behind(run, k, c) && Unsent(run, k, c, j) && !Fails(run, t, i, j)
    case ExtendNative(l, b) =>
      l == k && b == News(run, k, c) && Behind(run, k, c) && Unsent(run, k, c, j) && !Fails(run, t, i, j)
    case ExtendCommit(l, b) =>
      l == k && b == News(run, k, c) && Behind(run, k, c) && !Fails(run, t, i, j) &&
      run[j].sessions[k].sent == run[c].sessions[k].sent + [b]
    case ExtendGiveUp(l) =>
      l == k && Unsent(run, k, c, j) && (Behind(run, k, c) ==> Fails(run, t, i, j))
    case ExtendRelease(l) => l == k && Outcome(run, t, k, i, j, c)
    case Idle => Outcome(run, t, k, i, j, c)
    case _ => false
  }

  /** The thread that moves is t, or t is where it was; then it has kept its session, and the graph if it has that. */
  lemma OwnOrOther(run: seq<State>, t: nat, k: nat, m: nat)
    requires IsRun(run) && m + 1 < |run| && t < |run[m].pcs| && k < |run[m].sessions| && run[m].pcs[t] != Idle
    ensures t < |run[m + 1].pcs| && k < |run[m + 1].sessions| && |run[m].nodes| <= |run[m + 1].nodes|
    ensures Step(run[m], run[m + 1], t) ||
      (run[m + 1].pcs[t] == run[m].pcs[t] && Untouched(run[m], run[m + 1], t, k))
  {
    RunInv(run, m);
    assert NextAt(run, m);
    var u: nat :| Move(run[m], run[m + 1], u);
    MovePcs(run[m], run[m + 1], u);
    if u != t {
      OthersLeave(run[m], run[m + 1], u, t, k);
    }
  }

  ghost predicate Untouched(s: State, s': State, t: nat, k: nat) {
    && t < |s.pcs| && k < |s.sessions| == |s'.sessions|
    && (HoldsSession(s.pcs[t], k) ==> s'.sessions[k] == s.sessions[k])
    && (HoldsGraph(s.pcs[t]) ==> s'.nodes == s.nodes)
  }

  /** Other threads leave a session and the graph alone while t has their locks. */
  lemma OthersLeave(s: State, s': State, u: nat, t: nat, k: nat)
    requires Inv(s) && Move(s, s', u) && u != t && t < |s.pcs| && k < |s.sessions|
    ensures |s'.pcs| == |s.pcs| && s'.pcs[t] == s.pcs[t] && Untouched(s, s', t, k)
  {
    MovePcs(s, s', u);
    MoveSessions(s, s', u, k);
    MoveInv(s, s', u);
    assert ThreadInv(s, t) && ThreadInv(s, u) && ThreadInv(s', t) && ThreadInv(s', u);
  }

  lemma FailsNext(run: seq<State>, t: nat, i: nat, j: nat)
    requires i <= j
    ensures Fails(run, t, i, j + 1) <==> Fails(run, t, i, j) || FailsAt(run, t, j)
  {
  }

  lemma ProgressNext(run: seq<State>, t: nat, k: nat, i: nat, j: nat, c: nat)
    requires Span(run, t, k, i, j) && Span(run, t, k, i, j + 1) && i <= c < j
    requires Progress(run, t, k, i, j, c) && run[j].pcs[t] != Idle
    ensures Progress(run, t, k, i, j + 1, c)
  {
    OwnOrOther(run, t, k, j);
    FailsNext(run, t, i, j);
  }

  /** How the call begins: it gets the graph, then the session, then it compares. */
  ghost predicate Begins(run: seq<State>, t: nat, k: nat, i: nat, j: nat)
    requires Span(run, t, k, i, j)
  {
    run[j].pcs[t] in {ExtendLock(k), ExtendSession(k), ExtendCompare(k)} && !Fails(run, t, i, j) &&
    |run[i].nodes| <= |run[j].nodes|
  }

  lemma BeginsNext(run: seq<State>, t: nat, k: nat, i: nat, j: nat)
    requires Span(run, t, k, i, j) && Span(run, t, k, i, j + 1) && Begins(run, t, k, i, j)
    ensures Begins(run, t, k, i, j + 1) || (ComparesAt(run, t, k, j) && Progress(run, t, k, i, j + 1, j))
  {
    OwnOrOther(run, t, k, j);
    FailsNext(run, t, i, j);
  }

  lemma {:induction false} CallGoesOn(run: seq<State>, t: nat, k: nat, i: nat, j: nat) returns (c: nat)
    requires Span(run, t, k, i, j) && run[i].pcs[t] == ExtendLock(k)
    requires forall m: nat :: i <= m < j ==> run[m].pcs[t] != Idle
    ensures Begins(run, t, k, i, j) ||
      (i <= c < j && ComparesAt(run, t, k, c) && |run[i].nodes| <= |run[c].nodes| && Progress(run, t, k, i, j, c))
    decreases j
  {
    c := i;
    if i < j {
      c := CallGoesOn(run, t, k, i, j - 1);
      if Begins(run, t, k, i, j - 1) {
        BeginsNext(run, t, k, i, j - 1);
        c := j - 1;
      } else {
        ProgressNext(run, t, k, i, j - 1, c);
      }
    }
  }

  /** Every call compares once, in state c. If the session is behind the graph then and neither its cycle check nor its
      extension fails, it sends the session exactly what it lacks, as one batch, and notes that; otherwise it leaves
      the session as it was. */
  lemma CallSendsNews(run: seq<State>, t: nat, k: nat, i: nat, j: nat) returns (c: nat)
    requires IsCall(run, t, k, ExtendLock(k), i, j)
    ensures i <= c < j && ComparesAt(run, t, k, c) && |run[i].nodes| <= |run[c].nodes|
    ensures Behind(run, k, c) && !Fails(run, t, i, j) ==> SentAndNoted(run, k, c, j)
    ensures !Behind(run, k, c) || Fails(run, t, i, j) ==> Unsent(run, k, c, j)
  {
    c := CallGoesOn(run, t, k, i, j);
  }

  lemma AllSentNext(sent: seq<Batch>, b: Batch, id: nat)
    ensures id in AllSent(sent + [b]) <==> id in AllSent(sent) || id in b.ids
  {
    assert (sent + [b])[..|sent|] == sent;
  }

  /** So a call that meets no failure brings the session up to the graph: when it returns, the session has been sent
      every operation that was in the graph when the call began and that was live when it compared. */
  lemma CallBringsUpToDate(run: seq<State>, t: nat, k: nat, i: nat, j: nat) returns (c: nat)
    requires IsCall(run, t, k, ExtendLock(k), i, j) && !Fails(run, t, i, j)
    ensures i <= c < j && ComparesAt(run, t, k, c)
    ensures run[j].sessions[k].lastNumGraphNodes >= |run[c].nodes| >= |run[i].nodes|
    ensures forall id: nat :: run[c].sessions[k].base <= id < |run[c].nodes| && run[c].nodes[id] == Op ==>
      id in AllSent(run[j].sessions[k].sent)
  {
    c := CallSendsNews(run, t, k, i, j);
    RunInv(run, c);
    assert ThreadInv(run[c], t);
    forall id: nat | run[c].sessions[k].base <= id < |run[c].nodes| && run[c].nodes[id] == Op
      ensures id in AllSent(run[j].sessions[k].sent)
    {
      SentExactlyOnce(run, c, k, id);
      if Behind(run, k, c) {
        AllSentNext(run[c].sessions[k].sent, News(run, k, c), id);
      }
    }
  }

  // ----- changing the graph

  /** In state m thread t has the graph and session k, to note the change there. */
  ghost predicate VisitsAt(run: seq<State>, t: nat, k: nat, m: nat) {
    m < |run| && t < |run[m].pcs| && run[m].pcs[t] == MutationHave(k)
  }

  ghost predicate Visited(run: seq<State>, t: nat, k: nat, i: nat, j: nat) {
    exists m: nat :: i <= m < j && VisitsAt(run, t, k, m)
  }

  /** Session k has been visited, or is still to come. */
  ghost predicate VisitsFrom(run: seq<State>, t: nat, k: nat, i: nat, j: nat)
    requires Span(run, t, k, i, j)
  {
    || Visited(run, t, k, i, j)
    || match run[j].pcs[t]
       case MutationLock => true
       case MutationNext(l) => l <= k
       case MutationHave(l) => l <= k
       case _ => false
  }

  lemma VisitsNext(run: seq<State>, t: nat, k: nat, i: nat, j: nat)
    requires Span(run, t, k, i, j) && Span(run, t, k, i, j + 1) && VisitsFrom(run, t, k, i, j)
    requires run[j].pcs[t] != Idle
    ensures VisitsFrom(run, t, k, i, j + 1)
  {
    OwnOrOther(run, t, k, j);
    if Visited(run, t, k, i, j) {
      var m: nat :| i <= m < j && VisitsAt(run, t, k, m);
    } else if run[j].pcs[t] == MutationHave(k) {
      assert VisitsAt(run, t, k, j);
    }
  }

  /** A call that notes a change of the graph visits every session. */
  lemma {:induction false} AllSessionsVisited(run: seq<State>, t: nat, k: nat, i: nat, j: nat)
    requires Span(run, t, k, i, j) && run[i].pcs[t] == MutationLock
    requires forall m: nat :: i <= m < j ==> run[m].pcs[t] != Idle
    ensures VisitsFrom(run, t, k, i, j)
    decreases j
  {
    if i < j {
      AllSessionsVisited(run, t, k, i, j - 1);
      VisitsNext(run, t, k, i, j - 1);
    }
  }

  lemma MutationVisitsAll(run: seq<State>, t: nat, k: nat, i: nat, j: nat)
    requires IsCall(run, t, k, MutationLock, i, j)
    ensures Visited(run, t, k, i, j)
  {
    AllSessionsVisited(run, t, k, i, j);
  }

  /** In step m thread t changes the graph. */
  ghost predicate EditsAt(run: seq<State>, t: nat, m: nat) {
    m + 1 < |run| && t < |run[m].pcs| && run[m].pcs[t] == Edit && GraphEdit(run[m].nodes, run[m + 1].nodes)
  }

  ghost predicate Edited(run: seq<State>, t: nat, i: nat, j: nat) {
    exists m: nat :: i <= m < j && EditsAt(run, t, m)
  }

  lemma EditsNext(run: seq<State>, t: nat, k: nat, i: nat, j: nat)
    requires Span(run, t, k, i, j) && Span(run, t, k, i, j + 1) && run[j].pcs[t] != Idle
    requires run[j].pcs[t] in {EditLock, Edit} || Edited(run, t, i, j)
    ensures run[j + 1].pcs[t] in {EditLock, Edit} || Edited(run, t, i, j + 1)
  {
    OwnOrOther(run, t, k, j);
    if Edited(run, t, i, j) {
      var m: nat :| i <= m < j && EditsAt(run, t, m);
    } else if run[j].pcs[t] == Edit && run[j + 1].pcs[t] != Edit {
      assert EditsAt(run, t, j);
    }
  }

  lemma {:induction false} EditGoesOn(run: seq<State>, t: nat, k: nat, i: nat, j: nat)
    requires Span(run, t, k, i, j) && run[i].pcs[t] == EditLock
    requires forall m: nat :: i <= m < j ==> run[m].pcs[t] != Idle
    ensures run[j].pcs[t] in {EditLock, Edit} || Edited(run, t, i, j)
    decreases j
  {
    if i < j {
      EditGoesOn(run, t, k, i, j - 1);
      EditsNext(run, t, k, i, j - 1);
    }
  }

  /** A call that edits the graph does so. */
  lemma EditCallEdits(run: seq<State>, t: nat, k: nat, i: nat, j: nat)
    requires IsCall(run, t, k, EditLock, i, j)
    ensures Edited(run, t, i, j)
  {
    EditGoesOn(run, t, k, i, j);
  }
}
