/** Running and closing a Go session from any number of goroutines. */
module GoSession {
  import opened Sequences
  import opened Wrappers

  // ----- steps of a goroutine

  /** Where a goroutine is. Run, PartialRun.Run and NewPartialRun take the same steps. */
  datatype Pc =
    | Idle
    | RunLock | RunCheck | RunRefused | RunAdd | RunUnlock | RunBegin | RunNative | RunDone
    | CloseLock | CloseWait | CloseCheck | CloseNative | CloseDelete | CloseClear | CloseUnlock

  /** open: the handle is not nil; deletions: how often the native session has been deleted. */
  datatype State = State(open: bool, deletions: nat, mu: Option<nat>, wg: int, pcs: seq<Pc>)

  predicate Init(s: State) {
    s.open && s.deletions == 0 && s.mu.None? && s.wg == 0 && forall t :: 0 <= t < |s.pcs| ==> s.pcs[t] == Idle
  }

  function At(s: State, t: nat, pc: Pc): State
    requires t < |s.pcs|
  {
    s.(pcs := s.pcs[t := pc])
  }

  /** The step of goroutine t; of a close whose native close fails, if ok is false. */
  function Advance(s: State, t: nat, ok: bool): State
    requires t < |s.pcs|
  {
    match s.pcs[t]
    case Idle => At(s, t, if ok then RunLock else CloseLock)
    case RunLock => At(s, t, RunCheck).(mu := Some(t))
    case RunCheck => At(s, t, if s.open then RunAdd else RunRefused)
    case RunRefused => At(s, t, Idle).(mu := None)
    case RunAdd => At(s, t, RunUnlock).(wg := s.wg + 1)
    case RunUnlock => At(s, t, RunBegin).(mu := None)
    case RunBegin => At(s, t, RunNative)
    case RunNative => At(s, t, RunDone)
    case RunDone => At(s, t, Idle).(wg := s.wg - 1)
    case CloseLock => At(s, t, CloseWait).(mu := Some(t))
    case CloseWait => At(s, t, CloseCheck)
    case CloseCheck => At(s, t, if s.open then CloseNative else CloseUnlock)
    case CloseNative => At(s, t, if ok then CloseDelete else CloseUnlock)
    case CloseDelete => At(s, t, CloseClear).(deletions := s.deletions + 1)
    case CloseClear => At(s, t, CloseUnlock).(open := false)
    case CloseUnlock => At(s, t, Idle).(mu := None)
  }

  /** What a goroutine has to wait for: the mutex, or the runs in flight. */
  predicate Enabled(s: State, t: nat)
    requires t < |s.pcs|
  {
    (s.pcs[t] in {RunLock, CloseLock} ==> s.mu.None?) && (s.pcs[t] == CloseWait ==> s.wg == 0)
  }

  predicate Step(s: State, s': State, t: nat) {
    t < |s.pcs| && Enabled(s, t) && (s' == Advance(s, t, true) || s' == Advance(s, t, false))
  }

  ghost predicate Next(s: State, s': State) {
    exists t: nat :: Step(s, s', t)
  }

  /** A run of all goroutines: their steps in any order. */
  ghost predicate IsRun(run: seq<State>) {
    run != [] && Init(run[0]) && forall i: nat :: i + 1 < |run| ==> NextAt(run, i)
  }

  ghost predicate NextAt(run: seq<State>, i: nat)
    requires i + 1 < |run|
  {
    Next(run[i], run[i + 1])
  }

  // ----- the invariant

  predicate Holds(pc: Pc) {
    pc in {RunCheck, RunRefused, RunAdd, RunUnlock, CloseWait, CloseCheck, CloseNative, CloseDelete, CloseClear,
      CloseUnlock}
  }

  /** Counted by the wait group: a run that has been admitted and has not ended. */
  predicate InFlight(pc: Pc) {
    pc in {RunUnlock, RunBegin, RunNative, RunDone}
  }

  /** The closing goroutine has waited. */
  predicate Closing(pc: Pc) {
    pc in {CloseCheck, CloseNative, CloseDelete, CloseClear, CloseUnlock}
  }

  function Count(pcs: seq<Pc>): nat {
    if pcs == [] then 0 else Count(pcs[..|pcs| - 1]) + if InFlight(pcs[|pcs| - 1]) then 1 else 0
  }

  ghost predicate GoroutineInv(s: State, t: nat)
    requires t < |s.pcs|
  {
    var pc := s.pcs[t];
    && (Holds(pc) <==> s.mu == Some(t))
    && (InFlight(pc) || pc == RunAdd ==> s.open && s.deletions == 0)
    && (Closing(pc) ==> s.wg == 0)
    && (pc in {CloseNative, CloseDelete} ==> s.open && s.deletions == 0)
    && (pc == CloseClear ==> s.open && s.deletions == 1)
  }

  ghost predicate Inv(s: State) {
    && s.wg == Count(s.pcs)
    && (s.mu.Some? ==> s.mu.value < |s.pcs|)
    && (!s.open ==> s.deletions == 1)
    && (s.open ==> s.deletions == 0 || (s.mu.Some? && s.mu.value < |s.pcs| && s.pcs[s.mu.value] == CloseClear))
    && forall t: nat :: t < |s.pcs| ==> GoroutineInv(s, t)
  }

  lemma {:induction false} CountUpdate(pcs: seq<Pc>, t: nat, pc: Pc)
    requires t < |pcs|
    ensures Count(pcs[t := pc]) == Count(pcs) - (if InFlight(pcs[t]) then 1 else 0) + (if InFlight(pc) then 1 else 0)
  {
    var n := |pcs| - 1;
    if t == n {
      assert pcs[t := pc][..n] == pcs[..n];
    } else {
      assert pcs[t := pc][..n] == pcs[..n][t := pc];
      CountUpdate(pcs[..n], t, pc);
    }
  }

  /** If nothing is in flight, nobody is. */
  lemma {:induction false} CountZero(pcs: seq<Pc>, t: nat)
    requires Count(pcs) == 0 && t < |pcs|
    ensures !InFlight(pcs[t])
  {
    if t < |pcs| - 1 {
      CountZero(pcs[..|pcs| - 1], t);
    }
  }

  lemma {:induction false} InitCount(pcs: seq<Pc>)
    requires forall t :: 0 <= t < |pcs| ==> pcs[t] == Idle
    ensures Count(pcs) == 0
  {
    if pcs != [] {
      InitCount(pcs[..|pcs| - 1]);
    }
  }

  lemma InitInv(s: State)
    requires Init(s)
    ensures Inv(s)
  {
    InitCount(s.pcs);
  }

  /** A step changes where its goroutine is, and nothing about where the others are. */
  lemma StepPcs(s: State, s': State, t: nat)
    requires Step(s, s', t)
    ensures |s'.pcs| == |s.pcs| && s'.pcs == s.pcs[t := s'.pcs[t]]
  {
  }

  lemma StepCount(s: State, s': State, t: nat)
    requires s.wg == Count(s.pcs) && Step(s, s', t)
    ensures |s'.pcs| == |s.pcs| && s'.wg == Count(s'.pcs)
    ensures forall u: nat :: u < |s.pcs| && u != t ==> s'.pcs[u] == s.pcs[u]
  {
    StepPcs(s, s', t);
    CountUpdate(s.pcs, t, s'.pcs[t]);
    assert s'.wg - s.wg == (if InFlight(s'.pcs[t]) then 1 else 0) - (if InFlight(s.pcs[t]) then 1 else 0);
  }

  /** Other goroutines keep their invariant. */
  lemma OtherInv(s: State, s': State, t: nat, u: nat)
    requires Inv(s) && Step(s, s', t) && u < |s.pcs| && u != t
    ensures |s'.pcs| == |s.pcs| && GoroutineInv(s', u)
  {
    StepCount(s, s', t);
    assert GoroutineInv(s, t) && GoroutineInv(s, u);
    if s.wg == 0 {
      CountZero(s.pcs, u);
    }
  }

  lemma OwnInv(s: State, s': State, t: nat)
    requires Inv(s) && Step(s, s', t)
    ensures |s'.pcs| == |s.pcs| && GoroutineInv(s', t)
  {
    StepCount(s, s', t);
    assert GoroutineInv(s, t);
    assert s.mu.Some? ==> GoroutineInv(s, s.mu.value);
  }

  lemma StepInv(s: State, s': State, t: nat)
    requires Inv(s) && Step(s, s', t)
    ensures Inv(s')
  {
    StepCount(s, s', t);
    OwnInv(s, s', t);
    forall u: nat | u < |s'.pcs|
      ensures GoroutineInv(s', u)
    {
      if u != t {
        OtherInv(s, s', t, u);
      }
    }
    assert GoroutineInv(s, t);
  }

  lemma {:induction false} RunInv(run: seq<State>, i: nat)
    requires IsRun(run) && i < |run|
    ensures Inv(run[i])
  {
    if i == 0 {
      InitInv(run[0]);
    } else {
      RunInv(run, i - 1);
      assert NextAt(run, i - 1);
      var t: nat :| Step(run[i - 1], run[i], t);
      StepInv(run[i - 1], run[i], t);
    }
  }

  // ----- safety

  /** In every state of every run: native runs have a live session, the wait group counts the runs in flight,
      the native session is deleted at most once, and not while a run is in flight. */
  lemma RunsAreSafe(run: seq<State>, i: nat, t: nat)
    requires IsRun(run) && i < |run| && t < |run[i].pcs|
    ensures var s := run[i];
            && (s.pcs[t] in {RunBegin, RunNative} ==> s.open && s.deletions == 0)
            && s.wg == Count(s.pcs) && s.deletions <= 1
            && (s.pcs[t] in {CloseNative, CloseDelete, CloseClear} ==>
                  forall u: nat :: u < |s.pcs| ==> !InFlight(s.pcs[u]))
  {
    var s := run[i];
    RunInv(run, i);
    assert GoroutineInv(s, t);
    assert s.mu.Some? ==> GoroutineInv(s, s.mu.value);
    if s.wg == 0 {
      forall u: nat | u < |s.pcs|
        ensures !InFlight(s.pcs[u])
      {
        CountZero(s.pcs, u);
      }
    }
  }

  /** At most one goroutine is between locking and unlocking, so nobody adds to the wait group while another waits. */
  lemma MutualExclusion(run: seq<State>, i: nat, t: nat, u: nat)
    requires IsRun(run) && i < |run| && t < |run[i].pcs| && u < |run[i].pcs|
    requires Holds(run[i].pcs[t]) && Holds(run[i].pcs[u])
    ensures t == u
  {
    RunInv(run, i);
    assert GoroutineInv(run[i], t) && GoroutineInv(run[i], u);
  }

  /** Once closed, a session stays closed, and every later run is refused. */
  lemma {:induction false} ClosedForGood(run: seq<State>, i: nat, j: nat, t: nat)
    requires IsRun(run) && i <= j < |run| && !run[i].open && t < |run[j].pcs|
    ensures !run[j].open && !InFlight(run[j].pcs[t]) && run[j].pcs[t] != RunAdd
  {
    if i < j {
      assert NextAt(run, j - 1);
      var u: nat :| Step(run[j - 1], run[j], u);
      ClosedForGood(run, i, j - 1, u);
    }
    RunInv(run, j);
    assert GoroutineInv(run[j], t);
  }

  /** In step i of the run a native close succeeds. */
  ghost predicate CloseSucceeds(run: seq<State>, i: nat) {
    i + 1 < |run| && Closes(run[i], run[i + 1])
  }

  ghost predicate Closes(s: State, s': State) {
    exists t: nat :: ClosesAt(s, s', t)
  }

  ghost predicate ClosesAt(s: State, s': State, t: nat) {
    t < |s.pcs| && t < |s'.pcs| && s.pcs[t] == CloseNative && s'.pcs[t] == CloseDelete
  }

  /** The session can be used: its handle is there and no goroutine is about to delete it. */
  ghost predicate Usable(s: State) {
    s.open && s.deletions == 0 && forall t: nat :: t < |s.pcs| ==> s.pcs[t] !in {CloseDelete, CloseClear}
  }

  lemma UsableNext(s: State, s': State, t: nat)
    requires Inv(s) && Step(s, s', t)
    ensures Usable(s') <==> Usable(s) && !ClosesAt(s, s', t)
  {
    StepPcs(s, s', t);
    StepInv(s, s', t);
    assert GoroutineInv(s, t) && GoroutineInv(s', t);
    if Usable(s) && !ClosesAt(s, s', t) {
      forall u: nat | u < |s'.pcs|
        ensures s'.pcs[u] !in {CloseDelete, CloseClear}
      {
        assert u != t ==> s'.pcs[u] == s.pcs[u];
      }
    }
    if !Usable(s) {
      StaysUnusable(s, s', t);
    }
  }

  lemma StaysUnusable(s: State, s': State, t: nat)
    requires Inv(s) && Step(s, s', t) && !Usable(s)
    ensures !Usable(s')
  {
    StepPcs(s, s', t);
    assert GoroutineInv(s, t);
    if s.open && s.deletions == 0 {
      var u: nat :| u < |s.pcs| && s.pcs[u] in {CloseDelete, CloseClear};
      assert GoroutineInv(s, u);
      assert u != t ==> s'.pcs[u] == s.pcs[u];
    }
  }

  /** Closes that fail, however many, leave the session usable: it is so as long as, and only as long as, no native
      close has succeeded. */
  lemma {:induction false} UsableUntilCloseSucceeds(run: seq<State>, i: nat)
    requires IsRun(run) && i < |run|
    ensures Usable(run[i]) <==> forall j: nat :: j < i ==> !CloseSucceeds(run, j)
  {
    if i > 0 {
      var k := i - 1;
      UsableUntilCloseSucceeds(run, k);
      RunInv(run, k);
      assert NextAt(run, k);
      var t: nat :| Step(run[k], run[k + 1], t);
      UsableNext(run[k], run[k + 1], t);
      StepPcs(run[k], run[k + 1], t);
      assert CloseSucceeds(run, k) <==> ClosesAt(run[k], run[k + 1], t);
    }
  }

  // ----- liveness

  /** Whether goroutine t can take a step that is not the start of a new call. */
  ghost predicate CanStep(s: State, t: nat) {
    t < |s.pcs| && s.pcs[t] != Idle && exists s' :: Step(s, s', t)
  }

  lemma EnabledSteps(s: State, t: nat)
    requires t < |s.pcs| && s.pcs[t] != Idle && Enabled(s, t)
    ensures CanStep(s, t)
  {
    assert Step(s, Advance(s, t, true), t);
  }

  lemma {:induction false} SomeInFlight(pcs: seq<Pc>) returns (t: nat)
    requires Count(pcs) > 0
    ensures t < |pcs| && InFlight(pcs[t])
  {
    t := |pcs| - 1;
    if !InFlight(pcs[t]) {
      t := SomeInFlight(pcs[..t]);
    }
  }

  /** No deadlock: as long as a call is going on, some goroutine can go on with its call. In particular a closing
      goroutine that waits with the mutex held does not stop the runs that it waits for. */
  lemma NoDeadlock(s: State, t: nat) returns (u: nat)
    requires Inv(s) && t < |s.pcs| && s.pcs[t] != Idle
    ensures CanStep(s, u)
  {
    u := t;
    if s.mu.Some? {
      u := s.mu.value;
      assert GoroutineInv(s, u);
      if s.pcs[u] == CloseWait && s.wg > 0 {
        u := SomeInFlight(s.pcs);
      }
    } else {
      assert GoroutineInv(s, t);
    }
    EnabledSteps(s, u);
  }

  /** How many steps a call can still take. */
  function Left(pc: Pc): nat {
    match pc
    case Idle => 0
    case RunLock => 7 case RunCheck => 6 case RunRefused => 1 case RunAdd => 5
    case RunUnlock => 4 case RunBegin => 3 case RunNative => 2 case RunDone => 1
    case CloseLock => 7 case CloseWait => 6 case CloseCheck => 5 case CloseNative => 4
    case CloseDelete => 3 case CloseClear => 2 case CloseUnlock => 1
  }

  function Lefts(pcs: seq<Pc>): seq<nat> {
    seq(|pcs|, t requires 0 <= t < |pcs| => Left(pcs[t]))
  }

  lemma LeftsUpdate(pcs: seq<Pc>, t: nat, pc: Pc)
    requires t < |pcs|
    ensures Sum(Lefts(pcs[t := pc])) == Sum(Lefts(pcs)) - Left(pcs[t]) + Left(pc)
  {
    assert Lefts(pcs[t := pc]) == Lefts(pcs)[t := Left(pc)];
    SumUpdate(Lefts(pcs), t, Left(pc));
  }

  /** How many steps all calls can still take. */
  function AllLeft(pcs: seq<Pc>): nat {
    Sum(Lefts(pcs))
  }

  lemma OwnLeft(s: State, s': State, t: nat)
    requires Step(s, s', t) && s.pcs[t] != Idle
    ensures t < |s'.pcs| && Left(s'.pcs[t]) < Left(s.pcs[t])
  {
  }

  /** A step within a call brings all calls nearer to their ends. */
  lemma StepShortens(s: State, s': State, t: nat)
    requires Step(s, s', t) && s.pcs[t] != Idle
    ensures AllLeft(s'.pcs) < AllLeft(s.pcs)
  {
    StepPcs(s, s', t);
    OwnLeft(s, s', t);
    LeftsUpdate(s.pcs, t, s'.pcs[t]);
  }

  /** Steps within calls, by any goroutines in any order. */
  ghost predicate NoNewCalls(run: seq<State>) {
    forall i: nat :: i + 1 < |run| ==> WithinCall(run, i)
  }

  ghost predicate WithinCall(run: seq<State>, i: nat)
    requires i + 1 < |run|
  {
    exists t: nat :: Step(run[i], run[i + 1], t) && run[i].pcs[t] != Idle
  }

  /** Without new calls every schedule ends, after no more steps than the calls have left. */
  lemma {:induction false} CallsEnd(run: seq<State>, n: nat)
    requires n < |run| && NoNewCalls(run)
    ensures n + AllLeft(run[n].pcs) <= AllLeft(run[0].pcs)
  {
    if n > 0 {
      CallsEnd(run, n - 1);
      assert WithinCall(run, n - 1);
      var t: nat :| Step(run[n - 1], run[n - 1 + 1], t) && run[n - 1].pcs[t] != Idle;
      StepShortens(run[n - 1], run[n], t);
    }
  }

  /** No goroutine can go on with a call. */
  ghost predicate Stuck(s: State) {
    forall t: nat :: !CanStep(s, t)
  }

  /** A run can only get stuck when all calls have returned; then the mutex is free and no run is in flight. */
  lemma EndsWithAllIdle(run: seq<State>, i: nat, t: nat)
    requires IsRun(run) && i < |run| && Stuck(run[i]) && t < |run[i].pcs|
    ensures run[i].pcs[t] == Idle && run[i].mu.None? && run[i].wg == 0
  {
    var s := run[i];
    RunInv(run, i);
    forall u: nat | u < |s.pcs|
      ensures s.pcs[u] == Idle
    {
      if s.pcs[u] != Idle {
        var v := NoDeadlock(s, u);
        assert false;
      }
    }
    InitCount(s.pcs);
    assert s.mu.Some? ==> GoroutineInv(s, s.mu.value);
  }
}
