/** The replay of the queue: which arena operations a call over an interval of nodes adds to the log. */
module Replay {
  import opened MemoryPlan

  datatype Op = Allocate(tensor: int) | Deallocate(tensor: int)

  function OpOf(e: Entry): Op {
    if e.kind == Alloc then Allocate(e.tensor) else Deallocate(e.tensor)
  }

  function Allocates(ts: seq<int>): seq<Op> {
    seq(|ts|, k requires 0 <= k < |ts| => Allocate(ts[k]))
  }

  function Deallocates(ts: seq<int>): seq<Op> {
    seq(|ts|, k requires 0 <= k < |ts| => Deallocate(ts[k]))
  }

  /** The temporaries of node i; none for an index that is no node. The source compares the index with an unsigned
      count, so -1 counts as no node. */
  function Temporaries(temps: seq<seq<int>>, i: int): seq<int> {
    if 0 <= i < |temps| then temps[i] else []
  }

  /** The log at the end of CalculateAllocations, from the point where the log is `done`, the loop has reached the
      queue q and waits for the first entry of node `active`. */
  function ReplayFrom(temps: seq<seq<int>>, q: seq<Entry>, first: int, last: int, active: int, done: seq<Op>): seq<Op>
    decreases |q|
  {
    if q == [] then done + Deallocates(Temporaries(temps, active - 1))
    else if q[0].node < first then ReplayFrom(temps, q[1..], first, last, active, done)
    else if q[0].node > last then done + Deallocates(Temporaries(temps, active - 1))
    else if q[0].node == active then
      var freed := if active != first then done + Deallocates(Temporaries(temps, active - 1)) else done;
      var reserved := freed + Allocates(Temporaries(temps, active));
      ReplayFrom(temps, q[1..], first, last, active + 1, reserved + [OpOf(q[0])])
    else ReplayFrom(temps, q[1..], first, last, active, done + [OpOf(q[0])])
  }

  /** The log after CalculateAllocations(first, last), given the log before it. */
  function ReplayCall(temps: seq<seq<int>>, q: seq<Entry>, first: int, last: int, done: seq<Op>): seq<Op> {
    ReplayFrom(temps, q, first, last, first, done)
  }

  // ----- node by node

  /** The queue is ordered by node. */
  ghost predicate Ordered(q: seq<Entry>) {
    forall a, b :: 0 <= a < b < |q| ==> q[a].node <= q[b].node
  }

  ghost predicate HasEntry(q: seq<Entry>, i: int) {
    exists k :: 0 <= k < |q| && q[k].node == i
  }

  /** The log after the queue's entries for node i. */
  function EntryOps(q: seq<Entry>, i: int, done: seq<Op>): seq<Op> {
    if q == [] then done else EntryOps(q[1..], i, if q[0].node == i then done + [OpOf(q[0])] else done)
  }

  /** The log after node i: its temporaries live around its own entries. */
  function NodeOps(temps: seq<seq<int>>, q: seq<Entry>, i: int, done: seq<Op>): seq<Op> {
    EntryOps(q, i, done + Allocates(Temporaries(temps, i))) + Deallocates(Temporaries(temps, i))
  }

  /** The log after the nodes from lo to hi - 1. */
  function Nodewise(temps: seq<seq<int>>, q: seq<Entry>, lo: int, hi: int, done: seq<Op>): seq<Op>
    requires lo <= hi
    decreases hi - lo
  {
    if lo == hi then done else Nodewise(temps, q, lo + 1, hi, NodeOps(temps, q, lo, done))
  }

  lemma {:induction false} NoEntryOps(q: seq<Entry>, i: int, done: seq<Op>)
    requires forall k :: 0 <= k < |q| ==> q[k].node != i
    ensures EntryOps(q, i, done) == done
  {
    if q != [] {
      NoEntryOps(q[1..], i, done);
    }
  }

  /** One operation for each entry, of its kind and for its tensor. */
  ghost predicate Handles(ops: seq<Op>, es: seq<Entry>) {
    |ops| == |es| && forall k :: 0 <= k < |ops| ==>
      ops[k].tensor == es[k].tensor && (ops[k].Allocate? <==> es[k].kind == Alloc)
  }

  /** One operation for each tensor of the list, all of one kind. */
  ghost predicate ForEach(ops: seq<Op>, ts: seq<int>, allocate: bool) {
    |ops| == |ts| && forall k :: 0 <= k < |ops| ==> ops[k].tensor == ts[k] && ops[k].Allocate? == allocate
  }

  /** The entries of node i are those from lo to hi - 1. */
  ghost predicate EntriesAt(q: seq<Entry>, i: int, lo: nat, hi: nat) {
    lo <= hi <= |q| && forall k :: 0 <= k < |q| ==> (q[k].node == i <==> lo <= k < hi)
  }

  lemma {:induction false} EntryOpsLayout(q: seq<Entry>, i: int, lo: nat, hi: nat, done: seq<Op>) returns (ops: seq<Op>)
    requires EntriesAt(q, i, lo, hi)
    ensures EntryOps(q, i, done) == done + ops && Handles(ops, q[lo..hi])
  {
    if hi == lo {
      NoEntryOps(q, i, done);
      ops := [];
    } else if lo > 0 {
      ops := EntryOpsLayout(q[1..], i, lo - 1, hi - 1, done);
      assert q[1..][lo - 1..hi - 1] == q[lo..hi];
    } else {
      var op := OpOf(q[0]);
      var rest := EntryOpsLayout(q[1..], i, 0, hi - 1, done + [op]);
      ops := [op] + rest;
      assert done + [op] + rest == done + ops;
      assert q[0..hi] == [q[0]] + q[1..][0..hi - 1];
    }
  }

  /** What a node adds to the log, place by place: the allocations of its temporaries in order, its entries in the order
      of the queue, the deallocations of its temporaries in order. */
  lemma NodeOpsLayout(temps: seq<seq<int>>, q: seq<Entry>, i: nat, lo: nat, hi: nat, done: seq<Op>)
    returns (reserve: seq<Op>, ops: seq<Op>, release: seq<Op>)
    requires i < |temps| && EntriesAt(q, i, lo, hi)
    ensures NodeOps(temps, q, i, done) == done + reserve + ops + release
    ensures ForEach(reserve, temps[i], true) && Handles(ops, q[lo..hi]) && ForEach(release, temps[i], false)
  {
    reserve, release := Allocates(temps[i]), Deallocates(temps[i]);
    ops := EntryOpsLayout(q, i, lo, hi, done + reserve);
  }

  /** An entry of a node below the range does not matter to the range. */
  lemma {:induction false} NodewiseSkips(temps: seq<seq<int>>, q: seq<Entry>, lo: int, hi: int, done: seq<Op>)
    requires q != [] && q[0].node < lo <= hi
    ensures Nodewise(temps, q, lo, hi, done) == Nodewise(temps, q[1..], lo, hi, done)
    decreases hi - lo
  {
    if lo < hi {
      NodewiseSkips(temps, q, lo + 1, hi, NodeOps(temps, q, lo, done));
    }
  }

  /** What the tail of an ordered queue keeps: its order, and the entries of all nodes past the head's. */
  lemma OrderedRest(q: seq<Entry>, i: int)
    requires q != [] && Ordered(q)
    ensures Ordered(q[1..]) && forall k :: 0 <= k < |q[1..]| ==> q[0].node <= q[1..][k].node
    ensures q[0].node != i ==> HasEntry(q[1..], i) == HasEntry(q, i)
  {
    var r := q[1..];
    assert forall k :: 0 <= k < |r| ==> r[k] == q[k + 1];
    if q[0].node != i && HasEntry(q, i) {
      var k :| 0 <= k < |q| && q[k].node == i;
      assert r[k - 1].node == i;
    }
  }

  /** The head of an ordered queue is not past a node that has an entry. */
  lemma HeadNotPast(q: seq<Entry>, i: int)
    requires Ordered(q) && HasEntry(q, i)
    ensures q != [] && q[0].node <= i
  {
    var k :| 0 <= k < |q| && q[k].node == i;
    assert k > 0 ==> q[0].node <= q[k].node;
  }

  /** Inside node active - 1 the rest of the replay is the rest of this node, then node by node. */
  lemma {:induction false} ReplayFromInside(temps: seq<seq<int>>, q: seq<Entry>, first: int, last: int, active: int,
                                            done: seq<Op>)
    requires Ordered(q) && first < active <= last + 1
    requires forall k :: 0 <= k < |q| ==> active - 1 <= q[k].node
    requires forall i :: active <= i <= last ==> HasEntry(q, i)
    ensures ReplayFrom(temps, q, first, last, active, done) ==
      Nodewise(temps, q, active, last + 1, EntryOps(q, active - 1, done) + Deallocates(Temporaries(temps, active - 1)))
    decreases |q|
  {
    if active <= last { HeadNotPast(q, active); }
    if q == [] || q[0].node > last {
      NoEntryOps(q, active - 1, done) by {
        assert forall k :: 0 < k < |q| ==> q[0].node <= q[k].node;
      }
    } else {
      var r, op := q[1..], OpOf(q[0]);
      var freed := Deallocates(Temporaries(temps, active - 1));
      OrderedRest(q, active - 1);
      if q[0].node == active - 1 {
        forall i | active <= i <= last ensures HasEntry(r, i) { OrderedRest(q, i); }
        ReplayFromInside(temps, r, first, last, active, done + [op]);
        NodewiseSkips(temps, q, active, last + 1, EntryOps(r, active - 1, done + [op]) + freed);
      } else {
        assert q[0].node == active;
        forall i | active + 1 <= i <= last ensures HasEntry(r, i) { OrderedRest(q, i); }
        var next := done + freed + Allocates(Temporaries(temps, active)) + [op];
        ReplayFromInside(temps, r, first, last, active + 1, next);
        NodewiseSkips(temps, q, active + 1, last + 1, EntryOps(r, active, next) +
          Deallocates(Temporaries(temps, active)));
        NoEntryOps(q, active - 1, done) by {
          assert forall k :: 0 < k < |q| ==> q[0].node <= q[k].node;
        }
      }
    }
  }

  /** If every node of the interval has an entry, a call over the interval goes node by node. */
  lemma {:induction false} ReplayIsNodewise(temps: seq<seq<int>>, q: seq<Entry>, first: int, last: int, done: seq<Op>)
    requires Ordered(q) && first <= last
    requires forall i :: first <= i <= last ==> HasEntry(q, i)
    ensures ReplayCall(temps, q, first, last, done) == Nodewise(temps, q, first, last + 1, done)
    decreases |q|
  {
    HeadNotPast(q, first);
    var r := q[1..];
    OrderedRest(q, first);
    if q[0].node < first {
      forall i | first <= i <= last ensures HasEntry(r, i) { OrderedRest(q, i); }
      ReplayIsNodewise(temps, r, first, last, done);
      NodewiseSkips(temps, q, first, last + 1, done);
    } else {
      forall i | first + 1 <= i <= last ensures HasEntry(r, i) { OrderedRest(q, i); }
      var next := done + Allocates(Temporaries(temps, first)) + [OpOf(q[0])];
      ReplayFromInside(temps, r, first, last, first + 1, next);
      NodewiseSkips(temps, q, first + 1, last + 1, EntryOps(r, first, next) + Deallocates(Temporaries(temps, first)));
    }
  }

  // ----- calls over consecutive intervals

  /** Cuts of [0, n - 1] into consecutive intervals, none of them empty. */
  ghost predicate Cuts(cuts: seq<int>, n: int) {
    && |cuts| >= 2 && cuts[0] == 0 && cuts[|cuts| - 1] == n
    && forall j, k :: 0 <= j < k < |cuts| ==> cuts[j] < cuts[k]
  }

  /** The log after the calls over [cuts[0], cuts[1] - 1], [cuts[1], cuts[2] - 1], and so on. */
  ghost function ReplayCuts(temps: seq<seq<int>>, q: seq<Entry>, cuts: seq<int>): seq<Op> {
    if |cuts| < 2 then []
    else ReplayCall(temps, q, cuts[|cuts| - 2], cuts[|cuts| - 1] - 1, ReplayCuts(temps, q, cuts[..|cuts| - 1]))
  }

  lemma {:induction false} NodewiseContinues(temps: seq<seq<int>>, q: seq<Entry>, lo: int, mid: int, hi: int,
                                             done: seq<Op>)
    requires lo <= mid <= hi
    ensures Nodewise(temps, q, lo, hi, done) == Nodewise(temps, q, mid, hi, Nodewise(temps, q, lo, mid, done))
    decreases mid - lo
  {
    if lo < mid {
      NodewiseContinues(temps, q, lo + 1, mid, hi, NodeOps(temps, q, lo, done));
    }
  }

  /** The last call of several goes on from the log of the others. */
  lemma LastCut(temps: seq<seq<int>>, q: seq<Entry>, cuts: seq<int>, n: int)
    requires Cuts(cuts, n)
    ensures var head, mid := cuts[..|cuts| - 1], cuts[|cuts| - 2];
      && 0 <= mid < n && ReplayCuts(temps, q, cuts) == ReplayCall(temps, q, mid, n - 1, ReplayCuts(temps, q, head))
      && (if |head| < 2 then mid == 0 && ReplayCuts(temps, q, head) == [] else Cuts(head, mid))
  {
  }

  lemma CallContinues(temps: seq<seq<int>>, q: seq<Entry>, c: int, d: int)
    requires Ordered(q) && 0 <= c < d && forall i :: c <= i < d ==> HasEntry(q, i)
    ensures ReplayCall(temps, q, c, d - 1, Nodewise(temps, q, 0, c, [])) == Nodewise(temps, q, 0, d, [])
  {
    ReplayIsNodewise(temps, q, c, d - 1, Nodewise(temps, q, 0, c, []));
    NodewiseContinues(temps, q, 0, c, d, []);
  }

  lemma OneCallIsNodewise(temps: seq<seq<int>>, q: seq<Entry>, n: int)
    requires Ordered(q) && 0 < n && forall i :: 0 <= i < n ==> HasEntry(q, i)
    ensures ReplayCall(temps, q, 0, n - 1, []) == Nodewise(temps, q, 0, n, [])
  {
    ReplayIsNodewise(temps, q, 0, n - 1, []);
  }

  lemma {:induction false} CutsAreNodewise(temps: seq<seq<int>>, q: seq<Entry>, cuts: seq<int>, n: int)
    requires Ordered(q) && Cuts(cuts, n) && forall i :: 0 <= i < n ==> HasEntry(q, i)
    ensures 0 < n && ReplayCuts(temps, q, cuts) == Nodewise(temps, q, 0, n, [])
    decreases |cuts|
  {
    var head, mid := cuts[..|cuts| - 1], cuts[|cuts| - 2];
    LastCut(temps, q, cuts, n);
    if |head| >= 2 {
      CutsAreNodewise(temps, q, head, mid);
    }
    CallContinues(temps, q, mid, n);
  }

  /** Incremental planning issues the same operations, temporaries included, as one call over all nodes. */
  lemma IncrementalEqualsOneShot(temps: seq<seq<int>>, q: seq<Entry>, cuts: seq<int>, n: int)
    requires Ordered(q) && Cuts(cuts, n) && forall i :: 0 <= i < n ==> HasEntry(q, i)
    ensures ReplayCuts(temps, q, cuts) == ReplayCall(temps, q, 0, n - 1, [])
  {
    CutsAreNodewise(temps, q, cuts, n);
    OneCallIsNodewise(temps, q, n);
  }

  lemma NodewiseNext(temps: seq<seq<int>>, q: seq<Entry>, i: nat, next: nat, before: seq<Op>, after: seq<Op>)
    requires next == i + 1 && Nodewise(temps, q, 0, i, []) == before && NodeOps(temps, q, i, before) == after
    ensures Nodewise(temps, q, 0, next, []) == after
  {
    NodewiseContinues(temps, q, 0, i, next, []);
  }

  // ----- a node without an entry

  /** The log after the queue's entries for the nodes from first to last, without any temporaries. */
  function EntriesBetween(q: seq<Entry>, first: int, last: int, done: seq<Op>): seq<Op> {
    if q == [] then done
    else if q[0].node < first then EntriesBetween(q[1..], first, last, done)
    else if q[0].node > last then done
    else EntriesBetween(q[1..], first, last, done + [OpOf(q[0])])
  }

  lemma {:induction false} EntriesOfNone(q: seq<Entry>, first: int, last: int, done: seq<Op>)
    requires last < first
    ensures EntriesBetween(q, first, last, done) == done
  {
    if q != [] {
      EntriesOfNone(q[1..], first, last, done);
    }
  }

  /** Where the range starts does not matter below the first entry. */
  lemma {:induction false} EntriesFrom(q: seq<Entry>, first: int, first': int, last: int, done: seq<Op>)
    requires forall k :: 0 <= k < |q| ==> first <= q[k].node && first' <= q[k].node
    ensures EntriesBetween(q, first, last, done) == EntriesBetween(q, first', last, done)
  {
    if q != [] {
      EntriesFrom(q[1..], first, first', last, done + [OpOf(q[0])]);
    }
  }

  lemma {:induction false} EntriesJoin(q: seq<Entry>, lo: int, mid: int, hi: int, done: seq<Op>)
    requires Ordered(q) && lo <= mid <= hi
    ensures EntriesBetween(q, mid, hi, EntriesBetween(q, lo, mid - 1, done)) == EntriesBetween(q, lo, hi, done)
  {
    if q != [] {
      OrderedRest(q, lo);
      if q[0].node < lo {
        EntriesJoin(q[1..], lo, mid, hi, done);
      } else if q[0].node < mid {
        EntriesJoin(q[1..], lo, mid, hi, done + [OpOf(q[0])]);
      } else {
        EntriesFrom(q, lo, mid, hi, done);
      }
    }
  }

  /** A call issues the entries alone, if it meets no temporaries: neither at the nodes with entries, nor, where it
      stalls, at the node before. */
  lemma {:induction false} QuietCall(temps: seq<seq<int>>, q: seq<Entry>, first: int, last: int, active: int,
                                     done: seq<Op>)
    requires Ordered(q) && first <= active && first <= last
    requires forall i :: first <= i && HasEntry(q, i) ==> Temporaries(temps, i) == []
    requires Temporaries(temps, active - 1) == [] || (active == first && HasEntry(q, first))
    ensures ReplayFrom(temps, q, first, last, active, done) == EntriesBetween(q, first, last, done)
    decreases |q|
  {
    if active == first && HasEntry(q, first) { HeadNotPast(q, first); }
    if q != [] && q[0].node <= last {
      var r := q[1..];
      OrderedRest(q, first);
      assert HasEntry(q, q[0].node);
      forall i | first <= i && HasEntry(r, i)
        ensures Temporaries(temps, i) == []
      {
        var k :| 0 <= k < |r| && r[k].node == i;
        assert q[k + 1].node == i;
      }
      if q[0].node < first {
        QuietCall(temps, r, first, last, active, done);
      } else if q[0].node == active {
        assert Temporaries(temps, active) == [];
        var freed := if active != first then done + Deallocates(Temporaries(temps, active - 1)) else done;
        assert freed == done && freed + Allocates(Temporaries(temps, active)) + [OpOf(q[0])] == done + [OpOf(q[0])];
        QuietCall(temps, r, first, last, active + 1, done + [OpOf(q[0])]);
      } else {
        QuietCall(temps, r, first, last, active, done + [OpOf(q[0])]);
      }
    } else {
      assert done + Deallocates(Temporaries(temps, active - 1)) == done;
    }
  }

  /** A call that comes to a gap s without temporaries around it goes on with the entries alone. */
  lemma {:induction false} CallPassesGap(temps: seq<seq<int>>, q: seq<Entry>, first: int, last: int, s: int,
                                         active: int, done: seq<Op>)
    requires Ordered(q) && first <= active <= s <= last
    requires !HasEntry(q, s) && forall i :: active <= i < s ==> HasEntry(q, i)
    requires Temporaries(temps, s - 1) == [] && forall i :: s < i && HasEntry(q, i) ==> Temporaries(temps, i) == []
    ensures ReplayFrom(temps, q, first, last, active, done) ==
      EntriesBetween(q, s, last, ReplayFrom(temps, q, first, s - 1, active, done))
    decreases |q|
  {
    if active < s { HeadNotPast(q, active); }
    if q == [] || q[0].node > s {
      assert done + Deallocates(Temporaries(temps, s - 1)) == done;
      forall k | 0 <= k < |q|
        ensures s < q[k].node
      {
        assert k > 0 ==> q[0].node <= q[k].node;
      }
      QuietCall(temps, q, first, last, s, done);
      EntriesFrom(q, first, s, last, done);
    } else {
      assert q[0].node != s;
      var r := q[1..];
      OrderedRest(q, s);
      var active' := if first <= q[0].node == active then active + 1 else active;
      forall i | active' <= i < s ensures HasEntry(r, i) { OrderedRest(q, i); }
      forall i | s < i && HasEntry(r, i)
        ensures Temporaries(temps, i) == []
      {
        OrderedRest(q, i);
      }
      if q[0].node < first {
        CallPassesGap(temps, r, first, last, s, active, done);
      } else if q[0].node == active {
        var freed := if active != first then done + Deallocates(Temporaries(temps, active - 1)) else done;
        CallPassesGap(temps, r, first, last, s, active + 1,
          freed + Allocates(Temporaries(temps, active)) + [OpOf(q[0])]);
      } else {
        CallPassesGap(temps, r, first, last, s, active, done + [OpOf(q[0])]);
      }
    }
  }

  /** A node without an entry is harmless if there are no temporaries at the node before it, which would be freed
      late or twice, and at later nodes with entries, which only a call that starts behind the gap would allocate. */
  ghost predicate HarmlessGap(temps: seq<seq<int>>, q: seq<Entry>, i: int) {
    Temporaries(temps, i - 1) == [] && forall j :: i < j < |temps| && HasEntry(q, j) ==> Temporaries(temps, j) == []
  }

  ghost predicate GapsHarmless(temps: seq<seq<int>>, q: seq<Entry>) {
    forall i :: 0 <= i < |temps| && !HasEntry(q, i) ==> HarmlessGap(temps, q, i)
  }

  /** s is the first node without an entry, or the number of nodes. */
  ghost predicate FirstGap(q: seq<Entry>, n: nat, s: int) {
    0 <= s <= n && (forall i :: 0 <= i < s ==> HasEntry(q, i)) && (s < n ==> !HasEntry(q, s))
  }

  /** The log after the nodes below m: node by node up to the gap s, then the entries alone. */
  ghost function LogToGap(temps: seq<seq<int>>, q: seq<Entry>, s: nat, m: nat): seq<Op> {
    EntriesBetween(q, s, m - 1, Nodewise(temps, q, 0, if m < s then m else s, []))
  }

  /** Before the gap, the log goes node by node. */
  lemma LogBeforeGap(temps: seq<seq<int>>, q: seq<Entry>, s: nat, m: nat)
    requires m <= s
    ensures LogToGap(temps, q, s, m) == Nodewise(temps, q, 0, m, [])
  {
    EntriesOfNone(q, s, m - 1, Nodewise(temps, q, 0, m, []));
  }

  lemma CallBeforeGap(temps: seq<seq<int>>, q: seq<Entry>, s: nat, c: nat, d: nat)
    requires Ordered(q) && c < d <= s && forall i :: 0 <= i < s ==> HasEntry(q, i)
    ensures ReplayCall(temps, q, c, d - 1, LogToGap(temps, q, s, c)) == LogToGap(temps, q, s, d)
  {
    LogBeforeGap(temps, q, s, c);
    LogBeforeGap(temps, q, s, d);
    CallContinues(temps, q, c, d);
  }

  lemma CallIntoGap(temps: seq<seq<int>>, q: seq<Entry>, s: nat, c: nat, d: nat)
    requires Ordered(q) && HarmlessGap(temps, q, s) && FirstGap(q, |temps|, s) && c < s < d <= |temps|
    ensures ReplayCall(temps, q, c, d - 1, LogToGap(temps, q, s, c)) == LogToGap(temps, q, s, d)
  {
    var done := LogToGap(temps, q, s, c);
    CallBeforeGap(temps, q, s, c, s);
    LogBeforeGap(temps, q, s, s);
    CallPassesGap(temps, q, c, d - 1, s, c, done);
  }

  lemma CallBehindGap(temps: seq<seq<int>>, q: seq<Entry>, s: nat, c: nat, d: nat)
    requires Ordered(q) && HarmlessGap(temps, q, s) && !HasEntry(q, s) && s <= c < d <= |temps|
    requires HasEntry(q, c) || HarmlessGap(temps, q, c)
    ensures ReplayCall(temps, q, c, d - 1, LogToGap(temps, q, s, c)) == LogToGap(temps, q, s, d)
  {
    QuietCall(temps, q, c, d - 1, c, LogToGap(temps, q, s, c));
    EntriesJoin(q, s, c, d - 1, Nodewise(temps, q, 0, s, []));
  }

  lemma CallExtendsLogToGap(temps: seq<seq<int>>, q: seq<Entry>, s: nat, c: nat, d: nat)
    requires Ordered(q) && GapsHarmless(temps, q) && FirstGap(q, |temps|, s) && c < d <= |temps|
    ensures ReplayCall(temps, q, c, d - 1, LogToGap(temps, q, s, c)) == LogToGap(temps, q, s, d)
  {
    if d <= s {
      CallBeforeGap(temps, q, s, c, d);
    } else if c < s {
      CallIntoGap(temps, q, s, c, d);
    } else {
      CallBehindGap(temps, q, s, c, d);
    }
  }

  lemma {:induction false} CutsGiveLogToGap(temps: seq<seq<int>>, q: seq<Entry>, cuts: seq<int>, s: nat, n: nat)
    requires Ordered(q) && GapsHarmless(temps, q) && FirstGap(q, |temps|, s) && Cuts(cuts, n) && n <= |temps|
    ensures 0 < n && ReplayCuts(temps, q, cuts) == LogToGap(temps, q, s, n)
    decreases |cuts|
  {
    var head, mid := cuts[..|cuts| - 1], cuts[|cuts| - 2];
    LastCut(temps, q, cuts, n);
    if |head| < 2 {
      LogBeforeGap(temps, q, s, 0);
    } else {
      CutsGiveLogToGap(temps, q, head, s, mid);
    }
    CallExtendsLogToGap(temps, q, s, mid, n);
  }

  lemma {:induction false} FindFirstGap(q: seq<Entry>, n: nat) returns (s: nat)
    ensures FirstGap(q, n, s)
  {
    if n == 0 {
      s := 0;
    } else {
      s := FindFirstGap(q, n - 1);
      if s == n - 1 && HasEntry(q, s) {
        s := n;
      }
    }
  }

  /** A call allocates no temporaries of a gap and of the nodes behind it: it issues the same operations as if these
      nodes had none. */
  lemma {:induction false} StallsAtGap(temps: seq<seq<int>>, q: seq<Entry>, first: int, last: int, active: int, s: int,
                                       done: seq<Op>)
    requires active <= s && 0 <= s <= |temps| && !HasEntry(q, s)
    ensures ReplayFrom(temps, q, first, last, active, done) == ReplayFrom(temps[..s], q, first, last, active, done)
    decreases |q|
  {
    assert forall i :: i < s ==> Temporaries(temps, i) == Temporaries(temps[..s], i);
    if q != [] && (q[0].node < first || q[0].node <= last) {
      assert q[0].node != s;
      assert forall k :: 0 <= k < |q[1..]| ==> q[1..][k] == q[k + 1];
      if q[0].node < first {
        StallsAtGap(temps, q[1..], first, last, active, s, done);
      } else if q[0].node == active {
        var freed := if active != first then done + Deallocates(Temporaries(temps, active - 1)) else done;
        StallsAtGap(temps, q[1..], first, last, active + 1, s, freed + Allocates(Temporaries(temps, active)) +
          [OpOf(q[0])]);
      } else {
        StallsAtGap(temps, q[1..], first, last, active, s, done + [OpOf(q[0])]);
      }
    }
  }

  /** Tensor t is a temporary of a node from lo to hi - 1. */
  ghost predicate TemporaryOf(temps: seq<seq<int>>, lo: int, hi: int, t: int) {
    exists i :: lo <= i < hi && t in Temporaries(temps, i)
  }

  /** Every allocation that a call adds before or at a gap s belongs to the queue, or to the temporaries of a node
      before the gap. */
  lemma {:induction false} NothingAllocatedPastGap(temps: seq<seq<int>>, q: seq<Entry>, first: int, last: int,
                                                   active: int, s: int, done: seq<Op>, t: int)
    requires active <= s && !HasEntry(q, s) && Allocate(t) in ReplayFrom(temps, q, first, last, active, done)
    ensures Allocate(t) in done || (exists e :: e in q && OpOf(e) == Allocate(t)) || TemporaryOf(temps, active, s, t)
    decreases |q|
  {
    if q != [] && (q[0].node < first || q[0].node <= last) {
      assert q[0].node != s;
      assert forall k :: 0 <= k < |q[1..]| ==> q[1..][k] == q[k + 1];
      if q[0].node < first {
        NothingAllocatedPastGap(temps, q[1..], first, last, active, s, done, t);
      } else if q[0].node == active {
        var freed := if active != first then done + Deallocates(Temporaries(temps, active - 1)) else done;
        var next := freed + Allocates(Temporaries(temps, active)) + [OpOf(q[0])];
        NothingAllocatedPastGap(temps, q[1..], first, last, active + 1, s, next, t);
        assert t in Temporaries(temps, active) ==> TemporaryOf(temps, active, s, t);
      } else {
        NothingAllocatedPastGap(temps, q[1..], first, last, active, s, done + [OpOf(q[0])], t);
      }
    }
  }

  // ----- one call past a gap

  lemma {:induction false} EntriesExtend(q: seq<Entry>, first: int, last: int, done: seq<Op>)
    ensures EntriesBetween(q, first, last, done) == done + EntriesBetween(q, first, last, [])
  {
    if q == [] || (q[0].node >= first && q[0].node > last) {
      assert done + [] == done;
    } else if q[0].node < first {
      EntriesExtend(q[1..], first, last, done);
    } else {
      var op, rest := [OpOf(q[0])], EntriesBetween(q[1..], first, last, []);
      EntriesExtend(q[1..], first, last, done + op);
      EntriesExtend(q[1..], first, last, [] + op);
      assert done + op + rest == done + (op + rest) && [] + op == op;
    }
  }

  /** The entries between two nodes are entries of the queue. */
  lemma {:induction false} EntriesAreQueued(q: seq<Entry>, first: int, last: int, op: Op)
    requires op in EntriesBetween(q, first, last, [])
    ensures exists e :: e in q && OpOf(e) == op
  {
    assert forall k :: 0 <= k < |q[1..]| ==> q[1..][k] == q[k + 1];
    if q[0].node < first {
      EntriesAreQueued(q[1..], first, last, op);
    } else {
      assert [] + [OpOf(q[0])] == [OpOf(q[0])];
      EntriesExtend(q[1..], first, last, [OpOf(q[0])]);
      assert q[0] in q;
      if op != OpOf(q[0]) {
        EntriesAreQueued(q[1..], first, last, op);
      }
    }
  }

  /** A call that waits for a gap handles its entries and then frees the temporaries of the node before the gap. */
  lemma {:induction false} StalledCall(temps: seq<seq<int>>, q: seq<Entry>, first: int, last: int, active: int,
                                       done: seq<Op>)
    requires !HasEntry(q, active)
    ensures ReplayFrom(temps, q, first, last, active, done) ==
      EntriesBetween(q, first, last, done) + Deallocates(Temporaries(temps, active - 1))
    decreases |q|
  {
    if q != [] && (q[0].node < first || q[0].node <= last) {
      assert q[0].node != active;
      assert forall k :: 0 <= k < |q[1..]| ==> q[1..][k] == q[k + 1];
      StalledCall(temps, q[1..], first, last, active, if q[0].node < first then done else done + [OpOf(q[0])]);
    }
  }

  /** A call that comes to a gap s releases the temporaries of the node before it, which a call up to that node would
      release behind the log x, only after the entries of all later nodes. */
  lemma {:induction false} CallWaitsAtGap(temps: seq<seq<int>>, q: seq<Entry>, first: int, last: int, s: int,
                                          active: int, done: seq<Op>, x: seq<Op>)
    requires Ordered(q) && first <= active <= s <= last
    requires !HasEntry(q, s) && forall i :: active <= i < s ==> HasEntry(q, i)
    requires ReplayFrom(temps, q, first, s - 1, active, done) == x + Deallocates(Temporaries(temps, s - 1))
    ensures ReplayFrom(temps, q, first, last, active, done) ==
      EntriesBetween(q, s, last, x) + Deallocates(Temporaries(temps, s - 1))
    decreases |q|
  {
    if active < s { HeadNotPast(q, active); }
    if q == [] || q[0].node > s {
      SameFront(done, x, Deallocates(Temporaries(temps, s - 1)));
      forall k | 0 <= k < |q|
        ensures s < q[k].node
      {
        assert k > 0 ==> q[0].node <= q[k].node;
      }
      StalledCall(temps, q, first, last, s, done);
      EntriesFrom(q, first, s, last, done);
    } else {
      assert q[0].node != s;
      var r := q[1..];
      OrderedRest(q, s);
      var active' := if first <= q[0].node == active then active + 1 else active;
      forall i | active' <= i < s ensures HasEntry(r, i) { OrderedRest(q, i); }
      if q[0].node < first {
        CallWaitsAtGap(temps, r, first, last, s, active, done, x);
      } else if q[0].node == active {
        var freed := if active != first then done + Deallocates(Temporaries(temps, active - 1)) else done;
        var next := freed + Allocates(Temporaries(temps, active)) + [OpOf(q[0])];
        CallWaitsAtGap(temps, r, first, last, s, active + 1, next, x);
      } else {
        CallWaitsAtGap(temps, r, first, last, s, active, done + [OpOf(q[0])], x);
      }
    }
  }

  lemma SameFront(a: seq<Op>, b: seq<Op>, back: seq<Op>)
    requires a + back == b + back
    ensures a == b
  {
    assert a == (a + back)[..|a|] && b == (b + back)[..|b|];
  }

  /** One call over all nodes, with a gap at s: the log x of the nodes before the gap, but for the release of the
      last temporaries, then all later entries, then that release. */
  lemma OneCallPastGap(temps: seq<seq<int>>, q: seq<Entry>, s: int, x: seq<Op>)
    requires Ordered(q) && FirstGap(q, |temps|, s) && 0 < s < |temps|
    requires Nodewise(temps, q, 0, s, []) == x + Deallocates(Temporaries(temps, s - 1))
    ensures ReplayCall(temps, q, 0, |temps| - 1, []) ==
      x + EntriesBetween(q, s, |temps| - 1, []) + Deallocates(Temporaries(temps, s - 1))
  {
    ReplayIsNodewise(temps, q, 0, s - 1, []);
    CallWaitsAtGap(temps, q, 0, |temps| - 1, s, 0, [], x);
    EntriesExtend(q, s, |temps| - 1, x);
  }

  /** No node from a gap on has temporaries. */
  ghost predicate NoneFromGap(temps: seq<seq<int>>, q: seq<Entry>) {
    forall i, j :: 0 <= i < |temps| && !HasEntry(q, i) && i <= j < |temps| ==> Temporaries(temps, j) == []
  }

  /** Node by node, with a gap at s and no temporaries from there on, the release comes before the later entries. */
  lemma NodewisePastGap(temps: seq<seq<int>>, q: seq<Entry>, s: int)
    requires Ordered(q) && NoneFromGap(temps, q) && FirstGap(q, |temps|, s) && s < |temps|
    ensures Nodewise(temps, q, 0, |temps|, []) == Nodewise(temps, q, 0, s, []) + EntriesBetween(q, s, |temps| - 1, [])
  {
    var done := Nodewise(temps, q, 0, s, []);
    NodewiseContinues(temps, q, 0, s, |temps|, []);
    NodewiseOfQuiet(temps, q, s, |temps|, done);
    EntriesExtend(q, s, |temps| - 1, done);
  }

  // ----- what a gap breaks, counted in operations

  /** How many entries a call handles. */
  function Handled(q: seq<Entry>, first: int, last: int): nat {
    if q == [] then 0
    else if q[0].node < first then Handled(q[1..], first, last)
    else if q[0].node > last then 0
    else 1 + Handled(q[1..], first, last)
  }

  lemma {:induction false} HandledFrom(q: seq<Entry>, first: int, first': int, last: int)
    requires forall k :: 0 <= k < |q| ==> first <= q[k].node && first' <= q[k].node
    ensures Handled(q, first, last) == Handled(q, first', last)
  {
    if q != [] {
      HandledFrom(q[1..], first, first', last);
    }
  }

  /** A call that waits for a gap handles its entries and then frees the temporaries of the node before the gap. */
  lemma {:induction false} StalledLength(temps: seq<seq<int>>, q: seq<Entry>, first: int, last: int, active: int,
                                         done: seq<Op>)
    requires !HasEntry(q, active)
    ensures |ReplayFrom(temps, q, first, last, active, done)| ==
      |done| + Handled(q, first, last) + |Temporaries(temps, active - 1)|
    decreases |q|
  {
    if q != [] && (q[0].node < first || q[0].node <= last) {
      assert q[0].node != active;
      assert forall k :: 0 <= k < |q[1..]| ==> q[1..][k] == q[k + 1];
      StalledLength(temps, q[1..], first, last, active, if q[0].node < first then done else done + [OpOf(q[0])]);
    }
  }

  lemma {:induction false} AtLeastHandled(temps: seq<seq<int>>, q: seq<Entry>, first: int, last: int, active: int,
                                          done: seq<Op>)
    ensures |ReplayFrom(temps, q, first, last, active, done)| >= |done| + Handled(q, first, last)
    decreases |q|
  {
    if q != [] && (q[0].node < first || q[0].node <= last) {
      if q[0].node < first {
        AtLeastHandled(temps, q[1..], first, last, active, done);
      } else if q[0].node == active {
        var freed := if active != first then done + Deallocates(Temporaries(temps, active - 1)) else done;
        AtLeastHandled(temps, q[1..], first, last, active + 1,
          freed + Allocates(Temporaries(temps, active)) + [OpOf(q[0])]);
      } else {
        AtLeastHandled(temps, q[1..], first, last, active, done + [OpOf(q[0])]);
      }
    }
  }

  /** A call whose first node has an entry allocates the temporaries of that node. */
  lemma {:induction false} StartedLength(temps: seq<seq<int>>, q: seq<Entry>, first: int, last: int, done: seq<Op>)
    requires Ordered(q) && HasEntry(q, first) && first <= last
    ensures |ReplayCall(temps, q, first, last, done)| >= |done| + Handled(q, first, last) + |Temporaries(temps, first)|
    decreases |q|
  {
    HeadNotPast(q, first);
    if q[0].node < first {
      OrderedRest(q, first);
      StartedLength(temps, q[1..], first, last, done);
    } else {
      AtLeastHandled(temps, q[1..], first, last, first + 1, done + Allocates(Temporaries(temps, first)) + [OpOf(q[0])]);
    }
  }

  /** One call past a gap adds to what it issues up to node c - 1 only the entries from c on. */
  lemma {:induction false} PastGapLength(temps: seq<seq<int>>, q: seq<Entry>, s: int, c: int, last: int, active: int,
                                         done: seq<Op>)
    requires Ordered(q) && 0 <= active <= s <= c <= last && forall k :: 0 <= k < |q| ==> 0 <= q[k].node
    requires !HasEntry(q, s) && forall i :: active <= i < s ==> HasEntry(q, i)
    ensures |ReplayFrom(temps, q, 0, last, active, done)| ==
      |ReplayFrom(temps, q, 0, c - 1, active, done)| + Handled(q, c, last)
    decreases |q|
  {
    if active < s { HeadNotPast(q, active); }
    if q == [] || q[0].node >= c {
      assert active == s;
      StalledLength(temps, q, 0, last, s, done);
      forall k | 0 <= k < |q|
        ensures c <= q[k].node
      {
        assert k > 0 ==> q[0].node <= q[k].node;
      }
      HandledFrom(q, 0, c, last);
    } else {
      var r := q[1..];
      OrderedRest(q, s);
      assert q[0].node != s;
      var active' := if q[0].node == active then active + 1 else active;
      forall i | active' <= i < s ensures HasEntry(r, i) { OrderedRest(q, i); }
      if q[0].node == active {
        var freed := if active != 0 then done + Deallocates(Temporaries(temps, active - 1)) else done;
        PastGapLength(temps, r, s, c, last, active + 1, freed + Allocates(Temporaries(temps, active)) + [OpOf(q[0])]);
      } else {
        PastGapLength(temps, r, s, c, last, active, done + [OpOf(q[0])]);
      }
    }
  }

  lemma TwoCuts(temps: seq<seq<int>>, q: seq<Entry>, c: int, n: int)
    ensures ReplayCuts(temps, q, [0, c, n]) == ReplayCall(temps, q, c, n - 1, ReplayCall(temps, q, 0, c - 1, []))
  {
    assert [0, c, n][..2] == [0, c] && [0, c][..1] == [0];
    assert ReplayCuts(temps, q, [0, c]) == ReplayCall(temps, q, 0, c - 1, ReplayCuts(temps, q, [0]));
  }

  /** Cutting at node c behind a gap issues more operations than planning in one go, if the second call frees the
      temporaries of the node before c once more, or allocates those of c. */
  lemma CutBreaksEquality(temps: seq<seq<int>>, q: seq<Entry>, s: nat, c: nat)
    requires Ordered(q) && (forall k :: 0 <= k < |q| ==> 0 <= q[k].node)
    requires s <= c < |temps| && 0 < c && !HasEntry(q, s) && forall i :: 0 <= i < s ==> HasEntry(q, i)
    requires Temporaries(temps, if HasEntry(q, c) then c else c - 1) != []
    ensures |ReplayCuts(temps, q, [0, c, |temps|])| > |ReplayCall(temps, q, 0, |temps| - 1, [])|
  {
    var last := |temps| - 1;
    var done := ReplayCall(temps, q, 0, c - 1, []);
    TwoCuts(temps, q, c, |temps|);
    PastGapLength(temps, q, s, c, last, 0, []);
    if HasEntry(q, c) {
      StartedLength(temps, q, c, last, done);
    } else {
      StalledLength(temps, q, c, last, c, done);
    }
  }

  // ----- the exact conditions

  /** Incremental planning equals one-shot planning, whatever the intervals. */
  ghost predicate SplitsDoNotMatter(temps: seq<seq<int>>, q: seq<Entry>) {
    forall cuts :: Cuts(cuts, |temps|) ==> ReplayCuts(temps, q, cuts) == ReplayCall(temps, q, 0, |temps| - 1, [])
  }

  /** The exact condition, for the temporaries and the queue of any graph: splits do not matter if and only if all
      nodes without entries are harmless. */
  lemma SplitsDoNotMatterIffGapsHarmless(temps: seq<seq<int>>, q: seq<Entry>)
    requires Ordered(q) && forall k :: 0 <= k < |q| ==> 0 <= q[k].node
    ensures SplitsDoNotMatter(temps, q) <==> GapsHarmless(temps, q)
  {
    var n := |temps|;
    var s := FindFirstGap(q, n);
    if GapsHarmless(temps, q) {
      forall cuts | Cuts(cuts, n)
        ensures ReplayCuts(temps, q, cuts) == ReplayCall(temps, q, 0, n - 1, [])
      {
        CutsGiveLogToGap(temps, q, cuts, s, n);
        OneShotIsOneCut(temps, q, n);
        CutsGiveLogToGap(temps, q, [0, n], s, n);
      }
    } else {
      var i :| 0 <= i < n && !HasEntry(q, i) && !HarmlessGap(temps, q, i);
      var c := i;
      if Temporaries(temps, i - 1) == [] {
        var j :| i < j < n && HasEntry(q, j) && Temporaries(temps, j) != [];
        c := j;
      }
      CutBreaksEquality(temps, q, s, c);
      assert Cuts([0, c, n], n);
    }
  }

  lemma OneShotIsOneCut(temps: seq<seq<int>>, q: seq<Entry>, n: nat)
    requires 0 < n
    ensures Cuts([0, n], n) && ReplayCuts(temps, q, [0, n]) == ReplayCall(temps, q, 0, n - 1, [])
  {
    assert [0, n][..1] == [0];
  }

  /** One temporary at every node. */
  function OneEach(n: nat): seq<seq<int>> {
    seq(n, _ => [0])
  }

  /** The condition without regard to the temporaries: splits matter for none of them if and only if every node has
      an entry in the queue, or there is at most one node. */
  lemma SplitsNeverMatterIffEveryNodeHasEntry(q: seq<Entry>, n: nat)
    requires Ordered(q) && forall k :: 0 <= k < |q| ==> 0 <= q[k].node
    ensures (n <= 1 || forall i :: 0 <= i < n ==> HasEntry(q, i)) <==>
      forall temps: seq<seq<int>> :: |temps| == n ==> SplitsDoNotMatter(temps, q)
  {
    forall temps: seq<seq<int>> | |temps| == n
      ensures SplitsDoNotMatter(temps, q) <==> GapsHarmless(temps, q)
    {
      SplitsDoNotMatterIffGapsHarmless(temps, q);
    }
    if 1 < n && exists i :: 0 <= i < n && !HasEntry(q, i) {
      var i :| 0 <= i < n && !HasEntry(q, i);
      var temps := OneEach(n);
      assert if i > 0 then !HarmlessGap(temps, q, i)
        else if HasEntry(q, 1) then !HarmlessGap(temps, q, 0) else !HarmlessGap(temps, q, 1);
    }
  }

  // ----- node by node

  /** From the node before a gap on, no node has temporaries. */
  ghost predicate GapsQuiet(temps: seq<seq<int>>, q: seq<Entry>) {
    forall i, j :: 0 <= i < |temps| && !HasEntry(q, i) && i - 1 <= j < |temps| ==> Temporaries(temps, j) == []
  }

  lemma {:induction false} NodewiseOfQuiet(temps: seq<seq<int>>, q: seq<Entry>, lo: int, hi: int, done: seq<Op>)
    requires Ordered(q) && lo <= hi && forall i :: lo <= i < hi ==> Temporaries(temps, i) == []
    ensures Nodewise(temps, q, lo, hi, done) == EntriesBetween(q, lo, hi - 1, done)
    decreases |q| + (hi - lo)
  {
    if lo == hi {
      EntriesOfNone(q, lo, hi - 1, done);
    } else {
      assert done + Allocates(Temporaries(temps, lo)) == done;
      assert EntryOps(q, lo, done) + Deallocates(Temporaries(temps, lo)) == EntryOps(q, lo, done);
      if q == [] {
        NodewiseOfQuiet(temps, q, lo + 1, hi, done);
      } else if q[0].node <= lo {
        var r := q[1..];
        var next := if q[0].node == lo then done + [OpOf(q[0])] else done;
        OrderedRest(q, lo);
        NodewiseOfQuiet(temps, r, lo, hi, next);
        assert EntryOps(q, lo, done) == EntryOps(r, lo, next);
        assert next + Allocates(Temporaries(temps, lo)) == next;
        assert EntryOps(r, lo, next) + Deallocates(Temporaries(temps, lo)) == EntryOps(r, lo, next);
        NodewiseSkips(temps, q, lo + 1, hi, EntryOps(q, lo, done));
      } else {
        forall k | 0 <= k < |q|
          ensures lo < q[k].node
        {
          assert k > 0 ==> q[0].node <= q[k].node;
        }
        NoEntryOps(q, lo, done);
        NodewiseOfQuiet(temps, q, lo + 1, hi, done);
        EntriesFrom(q, lo, lo + 1, hi - 1, done);
      }
    }
  }

  /** If no node from the one before a gap on has temporaries, then all calls go node by node: every node finds its
      temporaries allocated around its own entries. */
  lemma QuietReplayIsNodewise(temps: seq<seq<int>>, q: seq<Entry>, cuts: seq<int>)
    requires Ordered(q) && GapsQuiet(temps, q) && Cuts(cuts, |temps|)
    ensures ReplayCuts(temps, q, cuts) == Nodewise(temps, q, 0, |temps|, [])
  {
    var n := |temps|;
    var s := FindFirstGap(q, n);
    CutsGiveLogToGap(temps, q, cuts, s, n);
    if s < n {
      NodewiseOfQuiet(temps, q, s, n, Nodewise(temps, q, 0, s, []));
      NodewiseContinues(temps, q, 0, s, n, []);
    } else {
      EntriesOfNone(q, s, n - 1, Nodewise(temps, q, 0, n, []));
    }
  }

  lemma {:induction false} EntriesLength(q: seq<Entry>, first: int, last: int, done: seq<Op>)
    ensures |EntriesBetween(q, first, last, done)| == |done| + Handled(q, first, last)
  {
    if q != [] {
      EntriesLength(q[1..], first, last, if q[0].node < first then done else done + [OpOf(q[0])]);
    }
  }

  lemma {:induction false} EntryOpsLength(q: seq<Entry>, i: int, done: seq<Op>)
    requires Ordered(q)
    ensures |EntryOps(q, i, done)| == |done| + Handled(q, i, i)
  {
    if q != [] {
      OrderedRest(q, i);
      EntryOpsLength(q[1..], i, if q[0].node == i then done + [OpOf(q[0])] else done);
      assert q[0].node > i && |q| > 1 ==> q[1..][0].node > i;
    }
  }

  lemma {:induction false} HandledSplits(q: seq<Entry>, lo: int, hi: int)
    requires Ordered(q) && lo <= hi
    ensures Handled(q, lo, hi) == Handled(q, lo, lo) + Handled(q, lo + 1, hi)
  {
    if q != [] {
      OrderedRest(q, lo);
      HandledSplits(q[1..], lo, hi);
      assert q[0].node > lo && |q| > 1 ==> q[1..][0].node > lo;
    }
  }

  /** Node by node, each node's temporaries are allocated and freed. */
  lemma {:induction false} NodewiseLength(temps: seq<seq<int>>, q: seq<Entry>, lo: int, hi: int, j: int, done: seq<Op>)
    requires Ordered(q) && lo <= hi
    ensures |Nodewise(temps, q, lo, hi, done)| >=
      |done| + Handled(q, lo, hi - 1) + if lo <= j < hi then |Temporaries(temps, j)| else 0
    decreases hi - lo
  {
    if lo == hi {
      EntriesOfNone(q, lo, hi - 1, []);
      EntriesLength(q, lo, hi - 1, []);
    } else {
      EntryOpsLength(q, lo, done + Allocates(Temporaries(temps, lo)));
      HandledSplits(q, lo, hi - 1);
      NodewiseLength(temps, q, lo + 1, hi, j, NodeOps(temps, q, lo, done));
    }
  }

  /** The exact condition for what a runtime needs: for every choice of intervals each node finds its temporaries
      allocated around its own entries, if and only if no node from the one before a gap on has temporaries. */
  lemma ReplaysAreNodewiseIffGapsQuiet(temps: seq<seq<int>>, q: seq<Entry>)
    requires Ordered(q) && forall k :: 0 <= k < |q| ==> 0 <= q[k].node
    ensures (forall cuts :: Cuts(cuts, |temps|) ==>
      ReplayCuts(temps, q, cuts) == Nodewise(temps, q, 0, |temps|, [])) <==>
      GapsQuiet(temps, q)
  {
    if GapsQuiet(temps, q) {
      forall cuts | Cuts(cuts, |temps|)
        ensures ReplayCuts(temps, q, cuts) == Nodewise(temps, q, 0, |temps|, [])
      {
        QuietReplayIsNodewise(temps, q, cuts);
      }
    } else {
      var cuts := UnquietGapShows(temps, q);
    }
  }

  /** If a node from the one before a gap on has temporaries, some split does not go node by node. */
  lemma UnquietGapShows(temps: seq<seq<int>>, q: seq<Entry>) returns (cuts: seq<int>)
    requires Ordered(q) && (forall k :: 0 <= k < |q| ==> 0 <= q[k].node) && !GapsQuiet(temps, q)
    ensures Cuts(cuts, |temps|) && ReplayCuts(temps, q, cuts) != Nodewise(temps, q, 0, |temps|, [])
  {
    var n := |temps|;
    var i, j :| 0 <= i < n && !HasEntry(q, i) && i - 1 <= j < n && Temporaries(temps, j) != [];
    OneShotIsOneCut(temps, q, n);
    cuts := [0, n];
    if GapsHarmless(temps, q) {
      UnquietGapDiffers(temps, q, i, j);
    } else if ReplayCuts(temps, q, cuts) == Nodewise(temps, q, 0, n, []) {
      SplitsDoNotMatterIffGapsHarmless(temps, q);
      cuts :| Cuts(cuts, n) && ReplayCuts(temps, q, cuts) != ReplayCall(temps, q, 0, n - 1, []);
    }
  }

  lemma UnquietGapDiffers(temps: seq<seq<int>>, q: seq<Entry>, i: int, j: int)
    requires Ordered(q) && GapsHarmless(temps, q)
    requires 0 <= i < |temps| && !HasEntry(q, i) && i - 1 <= j < |temps| && Temporaries(temps, j) != []
    ensures Cuts([0, |temps|], |temps|)
    ensures |ReplayCuts(temps, q, [0, |temps|])| < |Nodewise(temps, q, 0, |temps|, [])|
  {
    var n := |temps|;
    var s := FindFirstGap(q, n);
    var done := Nodewise(temps, q, 0, s, []);
    assert HarmlessGap(temps, q, i);
    CutsGiveLogToGap(temps, q, [0, n], s, n);
    EntriesLength(q, s, n - 1, done);
    NodewiseLength(temps, q, s, n, j, done);
    NodewiseContinues(temps, q, 0, s, n, []);
  }
}
