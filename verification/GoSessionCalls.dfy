/** What a caller gets from running or closing a Go session, whatever the other goroutines do meanwhile. */
module GoSessionCalls {
  import opened Wrappers
  import opened GoSession

  /** A goroutine that exists in the run, between two of its states. */
  ghost predicate Span(run: seq<State>, t: nat, i: nat, j: nat) {
    IsRun(run) && i <= j < |run| && forall m: nat :: i <= m <= j ==> t < |run[m].pcs|
  }

  /** The states from i to j are one call of goroutine t, which begins at `first` and has returned in the last state. */
  ghost predicate IsCall(run: seq<State>, t: nat, first: Pc, i: nat, j: nat) {
    && Span(run, t, i, j) && run[i].pcs[t] == first && run[j].pcs[t] == Idle
    && forall m: nat :: i <= m < j ==> run[m].pcs[t] != Idle
  }

  /** In step m goroutine t comes to pc. */
  ghost predicate Enters(run: seq<State>, t: nat, pc: Pc, m: nat)
    requires m + 1 < |run| && t < |run[m].pcs| && t < |run[m + 1].pcs|
  {
    run[m].pcs[t] != pc && run[m + 1].pcs[t] == pc
  }

  /** How often goroutine t comes to pc between states i and j. */
  ghost function Times(run: seq<State>, t: nat, pc: Pc, i: nat, j: nat): nat
    requires Span(run, t, i, j)
    decreases j
  {
    if i == j then 0 else Times(run, t, pc, i, j - 1) + if Enters(run, t, pc, j - 1) then 1 else 0
  }

  /** In step m goroutine t reads the handle. */
  ghost predicate Checks(run: seq<State>, t: nat, m: nat) {
    && m + 1 < |run| && t < |run[m].pcs| && t < |run[m + 1].pcs|
    && run[m].pcs[t] in {RunCheck, CloseCheck} && run[m + 1].pcs[t] != run[m].pcs[t]
  }

  /** One state further, goroutine t is where it was or has taken its own step. */
  lemma OwnOrNothing(run: seq<State>, t: nat, m: nat)
    requires IsRun(run) && m + 1 < |run| && t < |run[m].pcs|
    ensures t < |run[m + 1].pcs| && Inv(run[m])
    ensures run[m + 1].pcs[t] == run[m].pcs[t] || Step(run[m], run[m + 1], t)
  {
    RunInv(run, m);
    assert NextAt(run, m);
    var u: nat :| Step(run[m], run[m + 1], u);
    StepPcs(run[m], run[m + 1], u);
  }

  /** Whoever reads the handle under the lock finds it exactly if the session is usable. */
  lemma CheckSeesUsable(s: State, t: nat)
    requires Inv(s) && t < |s.pcs| && s.pcs[t] in {RunCheck, CloseCheck}
    ensures s.open <==> Usable(s)
  {
    assert GoroutineInv(s, t);
    forall u: nat | u < |s.pcs|
      ensures s.pcs[u] !in {CloseDelete, CloseClear}
    {
      assert GoroutineInv(s, u);
    }
  }

  // ----- running

  /** How far a call of Run has come in state j: c is the step in which it read the handle. */
  ghost predicate RunningAt(run: seq<State>, t: nat, i: nat, j: nat, c: nat)
    requires Span(run, t, i, j)
  {
    var natives, refused := Times(run, t, RunNative, i, j), Times(run, t, RunRefused, i, j);
    var pc := run[j].pcs[t];
    if pc in {RunLock, RunCheck} then natives == 0 && refused == 0
    else
      && i <= c < j && Checks(run, t, c)
      && if pc == RunRefused then !Usable(run[c]) && natives == 0 && refused == 1
         else if pc in {RunAdd, RunUnlock, RunBegin} then Usable(run[c]) && natives == 0 && refused == 0
         else if pc in {RunNative, RunDone} then Usable(run[c]) && natives == 1 && refused == 0
         else pc == Idle && if Usable(run[c]) then natives == 1 && refused == 0 else natives == 0 && refused == 1
  }

  lemma RunningNext(run: seq<State>, t: nat, i: nat, j: nat, c: nat) returns (c': nat)
    requires Span(run, t, i, j + 1) && Span(run, t, i, j) && RunningAt(run, t, i, j, c) && run[j].pcs[t] != Idle
    ensures RunningAt(run, t, i, j + 1, c')
  {
    OwnOrNothing(run, t, j);
    c' := if run[j].pcs[t] == RunCheck then j else c;
    if run[j].pcs[t] == RunCheck {
      CheckSeesUsable(run[j], t);
    }
  }

  lemma {:induction false} RunGoesOn(run: seq<State>, t: nat, i: nat, j: nat) returns (c: nat)
    requires Span(run, t, i, j) && run[i].pcs[t] == RunLock
    requires forall m: nat :: i <= m < j ==> run[m].pcs[t] != Idle
    ensures RunningAt(run, t, i, j, c)
    decreases j
  {
    if i == j {
      c := 0;
    } else {
      c := RunGoesOn(run, t, i, j - 1);
      c := RunningNext(run, t, i, j - 1, c);
    }
  }

  /** Every call of Run reads the handle once, in step c. If no native close had succeeded before, it goes through the
      native run exactly once; otherwise it is refused and does not get there. */
  lemma RunsUnlessClosed(run: seq<State>, t: nat, i: nat, j: nat) returns (c: nat)
    requires IsCall(run, t, RunLock, i, j)
    ensures i <= c < j && Checks(run, t, c) && run[c].pcs[t] == RunCheck
    ensures Times(run, t, RunNative, i, j) == if forall n: nat :: n < c ==> !CloseSucceeds(run, n) then 1 else 0
    ensures Times(run, t, RunRefused, i, j) == 1 - Times(run, t, RunNative, i, j)
  {
    c := RunGoesOn(run, t, i, j);
    UsableUntilCloseSucceeds(run, c);
    NotClosing(run, t, i, c);
  }

  lemma NotClosing(run: seq<State>, t: nat, i: nat, j: nat)
    requires Span(run, t, i, j) && run[i].pcs[t] == RunLock
    requires forall m: nat :: i <= m < j ==> run[m].pcs[t] != Idle
    ensures run[j].pcs[t] != CloseCheck
  {
    var c := RunGoesOn(run, t, i, j);
  }

  /** A call that reads the handle of a usable session is not refused, and while it runs natively it is counted. */
  lemma UsableAdmits(run: seq<State>, t: nat, m: nat)
    requires IsRun(run) && m + 1 < |run| && t < |run[m].pcs|
    ensures t < |run[m + 1].pcs|
    ensures run[m].pcs[t] == RunCheck && Usable(run[m]) ==> run[m + 1].pcs[t] in {RunCheck, RunAdd}
    ensures run[m].pcs[t] == RunCheck && !Usable(run[m]) ==> run[m + 1].pcs[t] in {RunCheck, RunRefused}
    ensures run[m].pcs[t] == RunNative ==> run[m].wg > 0 && Usable(run[m])
  {
    OwnOrNothing(run, t, m);
    if run[m].pcs[t] == RunCheck {
      CheckSeesUsable(run[m], t);
    }
    if run[m].pcs[t] == RunNative {
      RunsUnderCount(run[m], t);
    }
  }

  lemma RunsUnderCount(s: State, t: nat)
    requires Inv(s) && t < |s.pcs| && s.pcs[t] == RunNative
    ensures s.wg > 0 && Usable(s)
  {
    assert GoroutineInv(s, t);
    if s.wg == 0 {
      CountZero(s.pcs, t);
    }
    forall u: nat | u < |s.pcs|
      ensures s.pcs[u] !in {CloseDelete, CloseClear}
    {
      assert GoroutineInv(s, u);
    }
  }

  // ----- closing

  /** The native close may succeed or fail. */
  lemma EitherOutcome(s: State, t: nat) returns (fails: State, succeeds: State)
    requires t < |s.pcs| && s.pcs[t] == CloseNative
    ensures Step(s, fails, t) && !ClosesAt(s, fails, t)
    ensures Step(s, succeeds, t) && ClosesAt(s, succeeds, t)
  {
    fails, succeeds := Advance(s, t, false), Advance(s, t, true);
  }

  /** How far a call of Close has come in state j: c is the step in which it read the handle. */
  ghost predicate ClosingAt(run: seq<State>, t: nat, i: nat, j: nat, c: nat)
    requires Span(run, t, i, j)
  {
    var tries, done := Times(run, t, CloseNative, i, j), Times(run, t, CloseDelete, i, j);
    match run[j].pcs[t]
    case CloseLock => tries == 0 && done == 0
    case CloseWait => tries == 0 && done == 0
    case CloseCheck => tries == 0 && done == 0
    case CloseNative => i <= c < j && Checks(run, t, c) && Usable(run[c]) && tries == 1 && done == 0
    case CloseDelete => i <= c < j && Checks(run, t, c) && Usable(run[c]) && tries == 1 && done == 1
    case CloseClear => i <= c < j && Checks(run, t, c) && Usable(run[c]) && tries == 1 && done == 1
    case CloseUnlock => Closed(run, t, i, j, c)
    case Idle => Closed(run, t, i, j, c)
    case _ => false
  }

  /** The handle was read; the native close was called exactly if the session was usable; if it succeeded, the session
      has been deleted, and the handle is gone. */
  ghost predicate Closed(run: seq<State>, t: nat, i: nat, j: nat, c: nat)
    requires Span(run, t, i, j)
  {
    var tries, done := Times(run, t, CloseNative, i, j), Times(run, t, CloseDelete, i, j);
    && i <= c < j && Checks(run, t, c) && tries == (if Usable(run[c]) then 1 else 0) && done <= tries
    && (done == 1 ==> !run[j].open && run[j].deletions == 1)
  }

  lemma ClosingNext(run: seq<State>, t: nat, i: nat, j: nat, c: nat) returns (c': nat)
    requires Span(run, t, i, j + 1) && Span(run, t, i, j) && ClosingAt(run, t, i, j, c) && run[j].pcs[t] != Idle
    ensures ClosingAt(run, t, i, j + 1, c')
  {
    OwnOrNothing(run, t, j);
    RunInv(run, j + 1);
    c' := if run[j].pcs[t] == CloseCheck then j else c;
    if run[j].pcs[t] == CloseCheck {
      CheckSeesUsable(run[j], t);
    }
    if !run[j].open {
      ClosedForGood(run, j, j + 1, t);
    }
  }

  lemma {:induction false} CloseGoesOn(run: seq<State>, t: nat, i: nat, j: nat) returns (c: nat)
    requires Span(run, t, i, j) && run[i].pcs[t] == CloseLock
    requires forall m: nat :: i <= m < j ==> run[m].pcs[t] != Idle
    ensures ClosingAt(run, t, i, j, c)
    decreases j
  {
    if i == j {
      c := 0;
    } else {
      c := CloseGoesOn(run, t, i, j - 1);
      c := ClosingNext(run, t, i, j - 1, c);
    }
  }

  /** Every call of Close reads the handle once, in step c, and calls the native close exactly once, or not at all if
      one had succeeded before. If its own succeeds, the session is closed and deleted when the call returns. */
  lemma ClosesOnce(run: seq<State>, t: nat, i: nat, j: nat) returns (c: nat)
    requires IsCall(run, t, CloseLock, i, j)
    ensures i <= c < j && Checks(run, t, c)
    ensures Times(run, t, CloseNative, i, j) == if forall n: nat :: n < c ==> !CloseSucceeds(run, n) then 1 else 0
    ensures Times(run, t, CloseDelete, i, j) <= Times(run, t, CloseNative, i, j)
    ensures Times(run, t, CloseDelete, i, j) == 1 ==> !run[j].open && run[j].deletions == 1
  {
    c := CloseGoesOn(run, t, i, j);
    UsableUntilCloseSucceeds(run, c);
  }
}
