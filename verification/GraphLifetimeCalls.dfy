/** What each call on a shared graph has done when it returns, whatever the other threads do meanwhile. */
module GraphLifetimeCalls {
  import opened Wrappers
  import opened GraphLifetime

  /** A thread that exists in the run, between two of its states. */
  ghost predicate Span(run: seq<State>, t: nat, i: nat, j: nat) {
    IsRun(run) && i <= j < |run| && forall m: nat :: i <= m <= j ==> t < |run[m].pcs|
  }

  /** The states from i to j belong to one call of thread t, which begins at `first`. */
  ghost predicate WithinCall(run: seq<State>, t: nat, first: Pc, i: nat, j: nat) {
    Span(run, t, i, j) && run[i].pcs[t] == first && forall m: nat :: i <= m < j ==> run[m].pcs[t] != Idle
  }

  /** And in the last one it has returned. */
  ghost predicate IsCall(run: seq<State>, t: nat, first: Pc, i: nat, j: nat) {
    WithinCall(run, t, first, i, j) && run[j].pcs[t] == Idle
  }

  lemma Moves(run: seq<State>, t: nat, m: nat) returns (u: nat)
    requires IsRun(run) && m + 1 < |run| && t < |run[m].pcs|
    ensures Inv(run[m]) && Inv(run[m + 1]) && Move(run[m], run[m + 1], u)
    ensures t < |run[m + 1].pcs| && (u != t ==> run[m + 1].pcs[t] == run[m].pcs[t])
  {
    RunInv(run, m);
    RunInv(run, m + 1);
    assert NextAt(run, m);
    u :| Move(run[m], run[m + 1], u);
    StepPcs(run[m], run[m + 1], u);
  }

  // ----- making a session

  lemma {:induction false} MakingGoesOn(run: seq<State>, t: nat, k: nat, i: nat, j: nat)
    requires WithinCall(run, t, NewLock(k), i, j)
    ensures run[j].pcs[t] in {NewLock(k), NewInsert(k), NewUnlock(k)} ||
      (run[j].pcs[t] == Idle && k in run[j].open && k in run[j].sessions)
    decreases j
  {
    if i < j {
      MakingGoesOn(run, t, k, i, j - 1);
      var u := Moves(run, t, j - 1);
    }
  }

  /** When TF_NewSession returns, the session is registered in the graph and can be used. */
  lemma MadeIsRegistered(run: seq<State>, t: nat, k: nat, i: nat, j: nat)
    requires IsCall(run, t, NewLock(k), i, j)
    ensures k in run[j].open && k in run[j].sessions
  {
    MakingGoesOn(run, t, k, i, j);
  }

  // ----- ending a session

  /** The session was made once and is over: it is not registered, and no thread deals with it. */
  ghost predicate Over(s: State, k: nat) {
    && k in s.used && k !in s.open && k !in s.sessions
    && forall u: nat :: u < |s.pcs| ==> !DealsWith(s.pcs[u], k)
  }

  lemma OverStays(s: State, s': State, t: nat, k: nat)
    requires Inv(s) && Move(s, s', t) && Over(s, k)
    ensures Over(s', k)
  {
    StepPcs(s, s', t);
    assert !DealsWith(s.pcs[t], k);
    forall u: nat | u < |s'.pcs|
      ensures !DealsWith(s'.pcs[u], k)
    {
      assert u != t ==> s'.pcs[u] == s.pcs[u];
    }
  }

  lemma EraseEnds(s: State, s': State, t: nat, k: nat)
    requires Inv(s) && Step(s, s', t) && s.pcs[t] == EndErase(k)
    ensures Over(s', k)
  {
    assert ThreadInv(s, t) && DealsWith(s.pcs[t], k);
    forall u: nat | u < |s'.pcs|
      ensures !DealsWith(s'.pcs[u], k)
    {
      assert u != t ==> s'.pcs[u] == s.pcs[u] && Apart(s.pcs[t], s.pcs[u]);
    }
  }

  lemma {:induction false} EndingGoesOn(run: seq<State>, t: nat, k: nat, i: nat, j: nat)
    requires WithinCall(run, t, EndLock(k), i, j)
    ensures run[j].pcs[t] in {EndLock(k), EndErase(k)} || Over(run[j], k)
    decreases j
  {
    if i < j {
      EndingGoesOn(run, t, k, i, j - 1);
      var u := Moves(run, t, j - 1);
      if Over(run[j - 1], k) {
        OverStays(run[j - 1], run[j], u, k);
      } else if u == t && run[j - 1].pcs[t] == EndErase(k) {
        EraseEnds(run[j - 1], run[j], t, k);
      }
    }
  }

  /** When TF_DeleteSession returns, the session is not registered any more, and never will be again. */
  lemma {:induction false} EndedIsOver(run: seq<State>, t: nat, k: nat, i: nat, j: nat, n: nat)
    requires IsCall(run, t, EndLock(k), i, j) && j <= n < |run|
    ensures k !in run[n].sessions && Over(run[n], k)
    decreases n
  {
    if n == j {
      EndingGoesOn(run, t, k, i, j);
    } else {
      EndedIsOver(run, t, k, i, j, n - 1);
      RunInv(run, n - 1);
      assert NextAt(run, n - 1);
      var u: nat :| Move(run[n - 1], run[n], u);
      OverStays(run[n - 1], run[n], u, k);
    }
  }

  // ----- deleting the graph

  lemma {:induction false} DeletingGoesOn(run: seq<State>, t: nat, i: nat, j: nat)
    requires WithinCall(run, t, GraphLock, i, j)
    ensures run[j].pcs[t] in {GraphLock, GraphMark} || run[j].deleteRequested
    decreases j
  {
    if i < j {
      DeletingGoesOn(run, t, i, j - 1);
      var u := Moves(run, t, j - 1);
    }
  }

  /** When TF_DeleteGraph returns, the graph is marked, and stays so; whenever no session is registered, it is due. */
  lemma {:induction false} DeletedIsMarked(run: seq<State>, t: nat, i: nat, j: nat, n: nat)
    requires IsCall(run, t, GraphLock, i, j) && j <= n < |run|
    ensures run[n].deleteRequested && (run[n].sessions == {} ==> Due(run[n]))
    decreases n
  {
    if n == j {
      DeletingGoesOn(run, t, i, j);
    } else {
      DeletedIsMarked(run, t, i, j, n - 1);
      assert NextAt(run, n - 1);
      var u: nat :| Move(run[n - 1], run[n], u);
    }
  }
}
