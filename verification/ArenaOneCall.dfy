/** One call over all nodes serves a graph also if the node before the first gap has temporaries. */
module ArenaOneCall {
  import opened GraphInfo
  import opened MemoryPlan
  import opened PlanTheorems
  import opened Replay
  import opened ArenaMemory
  import opened ArenaSharing

  /** One call over all nodes serves all temporaries: no node from a node without entries on has any. */
  ghost predicate ServedAtOnce(g: Graph, o: Options) {
    NoneFromGap(NodeTemporaries(g), Plan(g, o, |g.nodes|))
  }

  /** The log of one call over all nodes. */
  ghost function OneCallLog(g: Graph, o: Options): seq<Op> {
    ReplayCall(NodeTemporaries(g), Plan(g, o, |g.nodes|), 0, |g.nodes| - 1, [])
  }

  // ----- freeing later

  /** What one more operation does to a log. */
  lemma AppendOne(tensors: seq<TensorInfo>, log: seq<Op>, op: Op)
    ensures HeldAfter(log + [op]) ==
      if op.Allocate? then HeldAfter(log) + {op.tensor} else HeldAfter(log) - {op.tensor}
    ensures EverAllocated(log + [op]) == EverAllocated(log) + if op.Allocate? then {op.tensor} else {}
    ensures WellUsed(tensors, log + [op]) <==>
      && WellUsed(tensors, log) && 0 <= op.tensor < |tensors|
      && if op.Allocate? then op.tensor !in EverAllocated(log) else op.tensor in HeldAfter(log)
  {
    assert (log + [op])[..|log|] == log;
  }

  /** The log `late` holds what `early` holds, and the tensors of a set that `early` has freed. */
  ghost predicate HoldsLonger(tensors: seq<TensorInfo>, late: seq<Op>, early: seq<Op>, more: set<int>) {
    && WellUsed(tensors, late) && WellUsed(tensors, early)
    && HeldAfter(late) == HeldAfter(early) + more && EverAllocated(late) == EverAllocated(early)
  }

  lemma HoldsLongerNext(tensors: seq<TensorInfo>, late: seq<Op>, early: seq<Op>, more: set<int>, op: Op)
    requires HoldsLonger(tensors, late, early, more) && WellUsed(tensors, early + [op]) && op.tensor !in more
    ensures HoldsLonger(tensors, late + [op], early + [op], more)
  {
    AppendOne(tensors, late, op);
    AppendOne(tensors, early, op);
  }

  ghost function Elements(ts: seq<int>): set<int> {
    set t | t in ts
  }

  /** A well-used log that holds all tensors of a list without repetition. */
  ghost predicate Releasable(tensors: seq<TensorInfo>, x: seq<Op>, ts: seq<int>) {
    NoDuplicates(ts) && forall log: seq<Op> :: log == x ==>
      WellUsed(tensors, log) && forall t :: t in ts ==> 0 <= t < |tensors| && t in HeldAfter(log)
  }

  /** A well-used log, without regard to how its parts are. */
  ghost predicate Sane(tensors: seq<TensorInfo>, log: seq<Op>) {
    forall l: seq<Op> :: l == log ==> WellUsed(tensors, l)
  }

  /** The log holds what is live at node i, without regard to how its parts are. */
  ghost predicate Serving(g: Graph, o: Options, log: seq<Op>, i: nat)
    requires IsNode(g, i)
  {
    forall l: seq<Op> :: l == log ==> HoldsLive(g, o, l, i)
  }

  ghost predicate Untouched(ts: seq<int>, b: seq<Op>) {
    forall op :: op in b ==> op.tensor !in ts
  }

  lemma ReleaseAll(tensors: seq<TensorInfo>, x: seq<Op>, ts: seq<int>)
    requires Releasable(tensors, x, ts)
    ensures HoldsLonger(tensors, x, x + Deallocates(ts), Elements(ts))
  {
    var early := x + Deallocates(ts);
    assert WellUsed(tensors, x);
    AppendDeallocates(tensors, x, ts);
    forall t
      ensures t in HeldAfter(x) <==> t in HeldAfter(early) + Elements(ts)
      ensures t in EverAllocated(x) <==> t in EverAllocated(early)
    {
      assert t in HeldAfter(early) <==> t in HeldAfter(x) && t !in ts;
    }
  }

  lemma UntouchedInit(ts: seq<int>, b: seq<Op>)
    requires Untouched(ts, b) && b != []
    ensures Untouched(ts, b[..|b| - 1]) && b[|b| - 1].tensor !in ts
  {
  }

  lemma LastApart(x: seq<Op>, b: seq<Op>)
    requires b != []
    ensures x + b == (x + b[..|b| - 1]) + [b[|b| - 1]]
  {
  }

  /** Freeing the tensors of a list only after the operations b, which leave these alone, keeps a log well used: all
      that was held is held, and the list as well. */
  lemma {:induction false} FreesCanWait(tensors: seq<TensorInfo>, x: seq<Op>, ts: seq<int>, b: seq<Op>)
    requires Releasable(tensors, x, ts) && Untouched(ts, b)
    requires Sane(tensors, x + Deallocates(ts) + b)
    ensures HoldsLonger(tensors, x + b, x + Deallocates(ts) + b, Elements(ts))
    decreases |b|
  {
    var early := x + Deallocates(ts);
    if b == [] {
      ReleaseAll(tensors, x, ts);
      assert x + b == x && early + b == early;
    } else {
      var head, op := b[..|b| - 1], b[|b| - 1];
      UntouchedInit(ts, b);
      LastApart(early, b);
      LastApart(x, b);
      AppendOne(tensors, early + head, op);
      FreesCanWait(tensors, x, ts, head);
      HoldsLongerNext(tensors, x + head, early + head, Elements(ts), op);
    }
  }

  /** Then the log that frees them last is well used, too. */
  lemma FreedLast(tensors: seq<TensorInfo>, x: seq<Op>, ts: seq<int>, b: seq<Op>)
    requires Releasable(tensors, x, ts) && Untouched(ts, b)
    requires Sane(tensors, x + Deallocates(ts) + b)
    ensures Sane(tensors, x + b + Deallocates(ts))
  {
    FreesCanWait(tensors, x, ts, b);
    assert WellUsed(tensors, x);
    forall t | t in ts
      ensures t in HeldAfter(x + b)
    {
      assert t in Elements(ts);
    }
    AppendDeallocates(tensors, x + b, ts);
  }

  /** And what serves a node with the early release serves it with the late one. */
  lemma ServedLater(g: Graph, o: Options, tensors: seq<TensorInfo>, x: seq<Op>, ts: seq<int>, b: seq<Op>,
                    log: seq<Op>, i: nat)
    requires Releasable(tensors, x, ts) && Untouched(ts, b)
    requires Sane(tensors, x + Deallocates(ts) + b)
    requires IsNode(g, i) && Serving(g, o, x + Deallocates(ts) + b, i) && x + b <= log
    ensures ServesNode(g, o, log, i)
  {
    FreesCanWait(tensors, x, ts, b);
    assert HoldsLive(g, o, x + Deallocates(ts) + b, i);
    assert HoldsLive(g, o, x + b, i);
  }

  // ----- the log of one call

  /** The operations behind a gap at node s. */
  ghost function Behind(g: Graph, o: Options, s: int): seq<Op> {
    EntriesBetween(Plan(g, o, |g.nodes|), s, |g.nodes| - 1, [])
  }

  /** With a gap at s, one call frees the temporaries of the node before it last. */
  lemma OneCallFreesLast(g: Graph, o: Options, s: int)
    requires ServedAtOnce(g, o) && FirstGap(Plan(g, o, |g.nodes|), |g.nodes|, s) && 0 < s < |g.nodes|
    ensures var x, frees := LogFreed(g, o, s - 1), Deallocates(g.nodes[s - 1].temporaries);
      && LogBefore(g, o, s) == x + frees
      && OneCallLog(g, o) == x + Behind(g, o, s) + frees
      && LogBefore(g, o, |g.nodes|) == x + frees + Behind(g, o, s)
  {
    NodewiseIsLog(g, o, s);
    NodewiseIsLog(g, o, |g.nodes|);
    ReleasedLast(g, o, s - 1, s);
    OneCallIs(g, o, s, LogFreed(g, o, s - 1));
  }

  lemma ReleasedLast(g: Graph, o: Options, k: nat, next: nat)
    requires IsNode(g, k) && next == k + 1
    ensures LogBefore(g, o, next) == LogFreed(g, o, k) + Deallocates(g.nodes[k].temporaries)
  {
  }

  /** The same, with x for the log before the gap. */
  lemma OneCallIs(g: Graph, o: Options, s: int, x: seq<Op>)
    requires ServedAtOnce(g, o) && FirstGap(Plan(g, o, |g.nodes|), |g.nodes|, s) && 0 < s < |g.nodes|
    requires Nodewise(NodeTemporaries(g), Plan(g, o, |g.nodes|), 0, s, []) ==
      x + Deallocates(g.nodes[s - 1].temporaries)
    ensures OneCallLog(g, o) == x + Behind(g, o, s) + Deallocates(g.nodes[s - 1].temporaries)
    ensures Nodewise(NodeTemporaries(g), Plan(g, o, |g.nodes|), 0, |g.nodes|, []) ==
      x + Deallocates(g.nodes[s - 1].temporaries) + Behind(g, o, s)
  {
    PlanIsOrdered(g, o);
    NodewisePastGap(NodeTemporaries(g), Plan(g, o, |g.nodes|), s);
    OneCallPastGap(NodeTemporaries(g), Plan(g, o, |g.nodes|), s, x);
  }

  lemma BehindNoTemporaries(g: Graph, o: Options, s: int, i: int, op: Op)
    requires PrivateTemporaries(g) && IsNode(g, i) && op in Behind(g, o, s)
    ensures op.tensor !in g.nodes[i].temporaries
  {
    EntriesAreQueued(Plan(g, o, |g.nodes|), s, |g.nodes| - 1, op);
    var e :| e in Plan(g, o, |g.nodes|) && OpOf(e) == op;
    PlanTensorsAllocated(g, o, |g.nodes|, e);
    AllocatedNotTemporary(g, |g.nodes|, i, op.tensor);
    assert IsTemporary(g, i, op.tensor) <==> op.tensor in g.nodes[i].temporaries;
  }

  lemma BeforeGrows(g: Graph, o: Options, s: nat, i: nat)
    requires s <= i < |g.nodes|
    ensures LogBefore(g, o, s) <= LogAt(g, o, i)
  {
    BeforeIsPrefix(g, o, s);
    if s < i {
      AtIsPrefix(g, o, s, i);
      BeforeIsPrefix(g, o, i);
    }
  }

  lemma RestOfPrefix(a: seq<Op>, c: seq<Op>, d: seq<Op>) returns (b: seq<Op>)
    requires a <= c <= a + d
    ensures c == a + b && b <= d
  {
    b := c[|a|..];
    assert d == (a + d)[|a|..];
  }

  /** The log up to node i, behind a gap at s, is the log before the gap and some of what is behind it. */
  lemma AtBehindGap(g: Graph, o: Options, s: nat, i: nat) returns (b: seq<Op>)
    requires ServedAtOnce(g, o) && FirstGap(Plan(g, o, |g.nodes|), |g.nodes|, s) && 0 < s <= i < |g.nodes|
    ensures LogAt(g, o, i) == LogFreed(g, o, s - 1) + Deallocates(g.nodes[s - 1].temporaries) + b
    ensures b <= Behind(g, o, s)
  {
    OneCallFreesLast(g, o, s);
    BeforeGrows(g, o, s, i);
    AtIsPrefix(g, o, i, |g.nodes|);
    b := RestOfPrefix(LogBefore(g, o, s), LogAt(g, o, i), Behind(g, o, s));
  }

  lemma OneCallBegins(g: Graph, o: Options, s: nat, b: seq<Op>)
    requires ServedAtOnce(g, o) && FirstGap(Plan(g, o, |g.nodes|), |g.nodes|, s) && 0 < s < |g.nodes|
    requires b <= Behind(g, o, s)
    ensures LogFreed(g, o, s - 1) + b <= OneCallLog(g, o)
  {
    OneCallFreesLast(g, o, s);
  }

  lemma OneCallStarts(g: Graph, o: Options, s: nat)
    requires ServedAtOnce(g, o) && FirstGap(Plan(g, o, |g.nodes|), |g.nodes|, s) && 0 < s < |g.nodes|
    ensures LogFreed(g, o, s - 1) <= OneCallLog(g, o)
  {
    OneCallFreesLast(g, o, s);
  }

  /** What a beginning of the log node by node holds behind the gap, a beginning of the log of one call holds. */
  lemma ServedBehindGap(g: Graph, o: Options, tensors: seq<TensorInfo>, s: nat, i: nat)
    requires MemoryPlan.ValidGraph(g) && PrivateTemporaries(g) && |tensors| == g.numTensors
    requires ServedAtOnce(g, o) && FirstGap(Plan(g, o, |g.nodes|), |g.nodes|, s) && 0 < s <= i < |g.nodes|
    ensures ServesNode(g, o, OneCallLog(g, o), i)
  {
    var b := AtBehindGap(g, o, s, i);
    LogAtServes(g, o, tensors, i);
    PartApart(g, o, s, s - 1, b);
    TemporariesHeld(g, o, tensors, s - 1);
    OneCallBegins(g, o, s, b);
    ServedLater(g, o, tensors, LogFreed(g, o, s - 1), g.nodes[s - 1].temporaries, b, OneCallLog(g, o), i);
  }

  /** When only its temporaries are still to be freed, node k holds these. */
  lemma TemporariesHeld(g: Graph, o: Options, tensors: seq<TensorInfo>, k: nat)
    requires MemoryPlan.ValidGraph(g) && PrivateTemporaries(g) && |tensors| == g.numTensors && IsNode(g, k)
    ensures Releasable(tensors, LogFreed(g, o, k), g.nodes[k].temporaries)
  {
    LogAtHoldsLive(g, o, tensors, k);
    FreedStage(g, o, tensors, k);
  }

  lemma LogAtServes(g: Graph, o: Options, tensors: seq<TensorInfo>, i: nat)
    requires MemoryPlan.ValidGraph(g) && PrivateTemporaries(g) && |tensors| == g.numTensors && IsNode(g, i)
    ensures Sane(tensors, LogAt(g, o, i)) && Serving(g, o, LogAt(g, o, i), i)
  {
    LogAtHoldsLive(g, o, tensors, i);
  }

  lemma EarlyIsSane(g: Graph, o: Options, tensors: seq<TensorInfo>, s: nat)
    requires MemoryPlan.ValidGraph(g) && PrivateTemporaries(g) && |tensors| == g.numTensors
    requires ServedAtOnce(g, o) && FirstGap(Plan(g, o, |g.nodes|), |g.nodes|, s) && 0 < s < |g.nodes|
    ensures Sane(tensors, LogFreed(g, o, s - 1) + Deallocates(g.nodes[s - 1].temporaries) + Behind(g, o, s))
  {
    OneCallFreesLast(g, o, s);
    LogServesGraph(g, o, tensors);
  }

  lemma PartApart(g: Graph, o: Options, s: int, i: int, b: seq<Op>)
    requires PrivateTemporaries(g) && IsNode(g, i) && b <= Behind(g, o, s)
    ensures Untouched(g.nodes[i].temporaries, b)
  {
    forall op | op in b
      ensures op.tensor !in g.nodes[i].temporaries
    {
      assert op in Behind(g, o, s);
      BehindNoTemporaries(g, o, s, i, op);
    }
  }

  lemma AtIsPrefixOfFreed(g: Graph, o: Options, i: nat, k: nat)
    requires i <= k < |g.nodes|
    ensures LogAt(g, o, i) <= LogFreed(g, o, k)
  {
    if i < k {
      AtIsPrefix(g, o, i, k);
      BeforeIsPrefix(g, o, k);
    }
  }

  lemma ServedBeforeGap(g: Graph, o: Options, tensors: seq<TensorInfo>, s: nat, i: nat)
    requires MemoryPlan.ValidGraph(g) && PrivateTemporaries(g) && |tensors| == g.numTensors
    requires ServedAtOnce(g, o) && FirstGap(Plan(g, o, |g.nodes|), |g.nodes|, s) && i < s < |g.nodes|
    ensures ServesNode(g, o, OneCallLog(g, o), i)
  {
    AtIsPrefixOfOneCall(g, o, s, i);
    LogAtServes(g, o, tensors, i);
    ServedWithin(g, o, LogAt(g, o, i), OneCallLog(g, o), i);
  }

  lemma AtIsPrefixOfOneCall(g: Graph, o: Options, s: nat, i: nat)
    requires ServedAtOnce(g, o) && FirstGap(Plan(g, o, |g.nodes|), |g.nodes|, s) && i < s < |g.nodes|
    ensures LogAt(g, o, i) <= OneCallLog(g, o)
  {
    OneCallStarts(g, o, s);
    AtIsPrefixOfFreed(g, o, i, s - 1);
    PrefixOfPrefix(LogAt(g, o, i), LogFreed(g, o, s - 1), OneCallLog(g, o));
  }

  lemma PrefixOfPrefix(p: seq<Op>, x: seq<Op>, log: seq<Op>)
    requires p <= x <= log
    ensures p <= log
  {
  }

  lemma ServedWithin(g: Graph, o: Options, p: seq<Op>, log: seq<Op>, i: nat)
    requires p <= log && IsNode(g, i) && Serving(g, o, p, i)
    ensures ServesNode(g, o, log, i)
  {
    assert HoldsLive(g, o, p, i);
  }

  lemma OneCallWellUsed(g: Graph, o: Options, tensors: seq<TensorInfo>, s: nat)
    requires MemoryPlan.ValidGraph(g) && PrivateTemporaries(g) && |tensors| == g.numTensors
    requires ServedAtOnce(g, o) && FirstGap(Plan(g, o, |g.nodes|), |g.nodes|, s) && 0 < s < |g.nodes|
    ensures Sane(tensors, OneCallLog(g, o))
  {
    OneCallFreesLast(g, o, s);
    EarlyIsSane(g, o, tensors, s);
    PartApart(g, o, s, s - 1, Behind(g, o, s));
    TemporariesHeld(g, o, tensors, s - 1);
    FreedLast(tensors, LogFreed(g, o, s - 1), g.nodes[s - 1].temporaries, Behind(g, o, s));
  }

  /** One call over all nodes serves the graph. */
  lemma OneCallServesGraph(g: Graph, o: Options, tensors: seq<TensorInfo>)
    requires MemoryPlan.ValidGraph(g) && PrivateTemporaries(g) && |tensors| == g.numTensors
    requires ServedAtOnce(g, o) && g.nodes != []
    ensures ServesGraph(g, o, tensors, OneCallLog(g, o))
  {
    var n := |g.nodes|;
    var s := FindFirstGap(Plan(g, o, n), n);
    if 0 < s < n {
      OneCallWellUsed(g, o, tensors, s);
      forall i: nat | IsNode(g, i)
        ensures ServesNode(g, o, OneCallLog(g, o), i)
      {
        if i < s {
          ServedBeforeGap(g, o, tensors, s, i);
        } else {
          ServedBehindGap(g, o, tensors, s, i);
        }
      }
    } else {
      FullReplayIsLog(g, o);
      LogServesGraph(g, o, tensors);
    }
  }

  /** The condition is exact: if a node from a gap on has temporaries, one call never allocates these. */
  lemma OneCallServesIffServedAtOnce(g: Graph, o: Options, tensors: seq<TensorInfo>)
    requires MemoryPlan.ValidGraph(g) && PrivateTemporaries(g) && |tensors| == g.numTensors && g.nodes != []
    ensures ServesGraph(g, o, tensors, OneCallLog(g, o)) <==> ServedAtOnce(g, o)
  {
    if ServedAtOnce(g, o) {
      OneCallServesGraph(g, o, tensors);
    } else {
      var temps, q := NodeTemporaries(g), Plan(g, o, |g.nodes|);
      var i, j :| 0 <= i < |temps| && !HasEntry(q, i) && i <= j < |temps| && Temporaries(temps, j) != [];
      var t := g.nodes[j].temporaries[0];
      NotServedPastGap(g, o, 0, |g.nodes| - 1, i, j, t);
      if ServesNode(g, o, OneCallLog(g, o), j) {
        var p: seq<Op> :| p <= OneCallLog(g, o) && HoldsLive(g, o, p, j);
        assert LiveAt(g, o, j, t);
        HeldWasAllocated(p, t);
        assert false;
      }
    }
  }
}
