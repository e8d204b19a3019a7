/** The partition of a graph is determined: subsets, their kinds, the order of their nodes, and their lists. */
module PartitionDetermined {
  import opened GraphInfo
  import opened Partitioner
  import opened PartitionTheorems

  /** Place (a, i) comes before place (e, j). */
  predicate Before(a: int, i: int, e: int, j: int) {
    a < e || (a == e && i < j)
  }

  /** Up to place (e, j) both partitions hold the same nodes at the same places. */
  ghost predicate SameBefore(st: State, st': State, e: int, j: int) {
    forall n, a, i :: Before(a, i, e, j) ==> (NodeAt(st.subsets, n, a, i) <==> NodeAt(st'.subsets, n, a, i))
  }

  ghost predicate Both(g: Graph, kinds: seq<Kind>, st: State, st': State) {
    IsPartition(g, kinds, st) && IsPartition(g, kinds, st')
  }

  lemma PlacedAtItsPlace(g: Graph, kinds: seq<Kind>, st: State, n: int)
    requires IsPartition(g, kinds, st) && IsNode(g, n)
    ensures |st.ne| == |st.pos| == |g.nodes| && NodeAt(st.subsets, n, st.ne[n], st.pos[n]) && 0 <= st.ne[n]
  {
    OwnSubset(g, kinds, st, n, st.ne[n], st.pos[n]);
  }

  /** What is placed before (e, j) in one is placed there in the other. */
  lemma SamePlaced(g: Graph, kinds: seq<Kind>, st: State, st': State, e: int, j: int, m: int)
    requires Both(g, kinds, st, st') && SameBefore(st, st', e, j) && IsNode(g, m)
    ensures PlacedBy(st.ne, st.pos, m, e, j) <==> PlacedBy(st'.ne, st'.pos, m, e, j)
    ensures PlacedBy(st.ne, st.pos, m, e, j) ==> st.ne[m] == st'.ne[m] && st.pos[m] == st'.pos[m]
  {
    PlacedAtItsPlace(g, kinds, st, m);
    PlacedAtItsPlace(g, kinds, st', m);
    if PlacedBy(st.ne, st.pos, m, e, j) {
      assert Before(st.ne[m], st.pos[m], e, j);
      assert NodeAt(st'.subsets, m, st.ne[m], st.pos[m]);
    }
    if PlacedBy(st'.ne, st'.pos, m, e, j) {
      assert Before(st'.ne[m], st'.pos[m], e, j);
      assert NodeAt(st.subsets, m, st'.ne[m], st'.pos[m]);
    }
  }

  /** The producers of what the node at (e, j) consumes are placed before it, also in the other partition. */
  lemma ProducersPlaced(g: Graph, kinds: seq<Kind>, st: State, st': State, e: int, j: int, n: int, p: int, t: int)
    requires Both(g, kinds, st, st') && SameBefore(st, st', e, j) && NodeAt(st.subsets, n, e, j)
    requires Produces(g, p, t) && Consumes(g, n, t)
    ensures PlacedBy(st'.ne, st'.pos, p, e, j)
  {
    SubsetMembers(g, kinds, st, e, j);
    assert PlacedBefore(st.ne, st.pos, p, n);
    SamePlaced(g, kinds, st, st', e, j, p);
  }

  /** So the node does not wait there. */
  lemma NotWaiting(g: Graph, kinds: seq<Kind>, st: State, st': State, e: int, j: int, n: int)
    requires Both(g, kinds, st, st') && SameBefore(st, st', e, j) && NodeAt(st.subsets, n, e, j)
    ensures !WaitsAt(g, st'.ne, st'.pos, n, e, j)
  {
    forall p, t | Produces(g, p, t) && Consumes(g, n, t)
      ensures PlacedBy(st'.ne, st'.pos, p, e, j)
    {
      ProducersPlaced(g, kinds, st, st', e, j, n, p, t);
    }
  }

  /** It is ready there. */
  lemma ReadyThere(g: Graph, kinds: seq<Kind>, st: State, st': State, e: int, j: int, n: int)
    requires Both(g, kinds, st, st') && SameBefore(st, st', e, j) && NodeAt(st.subsets, n, e, j)
    ensures ReadyBefore(g, st'.te, n, if j == 0 then e else e + 1)
  {
    SubsetMembers(g, kinds, st, e, j);
    NoLaterPlace(g, kinds, st', e, j, 0);
    forall t | Consumes(g, n, t)
      ensures IsTensor(g, t) && st'.te[t] != NOT_READY && st'.te[t] < if j == 0 then e else e + 1
    {
      if Produced(g, t) {
        var p :| Produces(g, p, t);
        ProducersPlaced(g, kinds, st, st', e, j, n, p, t);
        NoLaterPlace(g, kinds, st', e, j, p);
      }
    }
  }

  /** Before position 0 of a subset come only earlier subsets. */
  lemma NoLaterPlace(g: Graph, kinds: seq<Kind>, st: State, e: int, j: int, p: int)
    requires IsPartition(g, kinds, st)
    ensures j == 0 && PlacedBy(st.ne, st.pos, p, e, j) ==> st.ne[p] < e
  {
    if PlacedBy(st.ne, st.pos, p, e, j) {
      assert NodeAt(st.subsets, p, st.ne[p], st.pos[p]);
    }
  }

  /** The node at (e, j) is not placed earlier in the other partition. */
  lemma NotEarlier(g: Graph, kinds: seq<Kind>, st: State, st': State, e: int, j: int, n: int)
    requires Both(g, kinds, st, st') && SameBefore(st, st', e, j) && NodeAt(st.subsets, n, e, j)
    ensures IsNode(g, n) && !PlacedBy(st'.ne, st'.pos, n, e, j) && e <= st'.ne[n] < |st'.subsets|
    ensures st'.ne[n] == e ==> j <= st'.pos[n]
  {
    SubsetMembers(g, kinds, st, e, j);
    SamePlaced(g, kinds, st, st', e, j, n);
    PlacedAtItsPlace(g, kinds, st', n);
  }

  /** The first node of a subset is the same in both. */
  lemma SameFirst(g: Graph, kinds: seq<Kind>, st: State, st': State, e: int, n: int)
    requires Both(g, kinds, st, st') && SameBefore(st, st', e, 0) && NodeAt(st.subsets, n, e, 0)
    ensures 0 <= e < |st'.subsets| && st'.subsets[e].nodes != [] && st'.subsets[e].nodes[0] <= n
  {
    NotEarlier(g, kinds, st, st', e, 0, n);
    ReadyThere(g, kinds, st, st', e, 0, n);
    assert Finished(g, kinds, st', e);
    assert FirstReady(g, kinds, st', e);
  }

  /** The subset has a node at position j in the other partition, too. */
  lemma SameLength(g: Graph, kinds: seq<Kind>, st: State, st': State, e: int, j: int, n: int)
    requires Both(g, kinds, st, st') && SameBefore(st, st', e, j) && NodeAt(st.subsets, n, e, j) && 0 < j
    ensures 0 <= e < |st'.subsets| && j < |st'.subsets[e].nodes|
    ensures st'.subsets[e].kind == st.subsets[e].kind == kinds[n]
    ensures st'.subsets[e].nodes[j - 1] == st.subsets[e].nodes[j - 1]
  {
    SubsetMembers(g, kinds, st, e, j);
    SubsetMembers(g, kinds, st, e, j - 1);
    var a := st.subsets[e].nodes[j - 1];
    assert Before(e, j - 1, e, j) && NodeAt(st.subsets, a, e, j - 1);
    assert NodeAt(st'.subsets, a, e, j - 1);
    SubsetMembers(g, kinds, st', e, j - 1);
    NotEarlier(g, kinds, st, st', e, j, n);
    ReadyThere(g, kinds, st, st', e, j, n);
    assert Finished(g, kinds, st', e);
    assert Greedy(g, kinds, st', e);
    PlacedAtItsPlace(g, kinds, st', n);
  }

  /** The loop does not pass the node at (e, j) of one partition on the way to that of the other. */
  lemma NotPassed(g: Graph, kinds: seq<Kind>, st: State, st': State, e: int, j: int, n: int)
    requires Both(g, kinds, st, st') && SameBefore(st, st', e, j) && NodeAt(st.subsets, n, e, j) && 0 < j
    ensures 0 <= e < |st'.subsets| && j < |st'.subsets[e].nodes|
    ensures !Passes(st'.subsets[e].nodes[j - 1], n, st'.subsets[e].nodes[j])
  {
    SameLength(g, kinds, st, st', e, j, n);
    NotEarlier(g, kinds, st, st', e, j, n);
    NotWaiting(g, kinds, st, st', e, j, n);
    assert Finished(g, kinds, st', e);
    assert SweptAt(g, kinds, st', e, j);
  }

  lemma SameBeforeTurned(st: State, st': State, e: int, j: int)
    requires SameBefore(st, st', e, j)
    ensures SameBefore(st', st, e, j)
  {
  }

  /** Nodes of one subset at two positions differ. */
  lemma Differ(g: Graph, kinds: seq<Kind>, st: State, e: int, i: int, j: int)
    requires IsPartition(g, kinds, st) && 0 <= e < |st.subsets| && 0 <= i < j < |st.subsets[e].nodes|
    ensures st.subsets[e].nodes[i] != st.subsets[e].nodes[j]
  {
    SubsetMembers(g, kinds, st, e, i);
    SubsetMembers(g, kinds, st, e, j);
  }

  /** The node at the next place is the same in both. */
  lemma SameNext(g: Graph, kinds: seq<Kind>, st: State, st': State, e: int, j: int, n: int)
    requires Both(g, kinds, st, st') && SameBefore(st, st', e, j) && NodeAt(st.subsets, n, e, j)
    ensures NodeAt(st'.subsets, n, e, j)
  {
    SameBeforeTurned(st, st', e, j);
    if j == 0 {
      SameFirst(g, kinds, st, st', e, n);
      SameFirst(g, kinds, st', st, e, st'.subsets[e].nodes[0]);
    } else {
      NotPassed(g, kinds, st, st', e, j, n);
      SameLength(g, kinds, st, st', e, j, n);
      NotPassed(g, kinds, st', st, e, j, st'.subsets[e].nodes[j]);
      Differ(g, kinds, st, e, j - 1, j);
      Differ(g, kinds, st', e, j - 1, j);
    }
  }

  lemma SameThrough(g: Graph, kinds: seq<Kind>, st: State, st': State, e: int, j: nat)
    requires Both(g, kinds, st, st') && SameBefore(st, st', e, j)
    ensures SameBefore(st, st', e, j + 1)
  {
    forall n, a, i | Before(a, i, e, j + 1)
      ensures NodeAt(st.subsets, n, a, i) <==> NodeAt(st'.subsets, n, a, i)
    {
      if !Before(a, i, e, j) {
        SameBeforeTurned(st, st', e, j);
        if NodeAt(st.subsets, n, e, j) {
          SameNext(g, kinds, st, st', e, j, n);
        }
        if NodeAt(st'.subsets, n, e, j) {
          SameNext(g, kinds, st', st, e, j, n);
        }
      }
    }
  }

  lemma {:induction false} SameInSubset(g: Graph, kinds: seq<Kind>, st: State, st': State, e: int, j: nat)
    requires Both(g, kinds, st, st') && SameBefore(st, st', e, 0)
    ensures SameBefore(st, st', e, j)
  {
    if j > 0 {
      SameInSubset(g, kinds, st, st', e, j - 1);
      SameThrough(g, kinds, st, st', e, j - 1);
    }
  }

  lemma {:induction false} SameUpTo(g: Graph, kinds: seq<Kind>, st: State, st': State, e: nat)
    requires Both(g, kinds, st, st')
    ensures SameBefore(st, st', e, 0)
  {
    if e > 0 {
      SameUpTo(g, kinds, st, st', e - 1);
      forall n, a, i | Before(a, i, e, 0)
        ensures NodeAt(st.subsets, n, a, i) <==> NodeAt(st'.subsets, n, a, i)
      {
        if a == e - 1 && i >= 0 {
          SameInSubset(g, kinds, st, st', e - 1, i + 1);
          assert Before(a, i, e - 1, i + 1);
        } else {
          assert a < e - 1 ==> Before(a, i, e - 1, 0);
        }
      }
    }
  }

  /** Both hold the same nodes at the same places. */
  lemma SamePlaces(g: Graph, kinds: seq<Kind>, st: State, st': State, n: int, a: int, i: int)
    requires Both(g, kinds, st, st')
    ensures NodeAt(st.subsets, n, a, i) <==> NodeAt(st'.subsets, n, a, i)
  {
    if 0 <= a {
      SameUpTo(g, kinds, st, st', a + 1);
      assert Before(a, i, a + 1, 0);
    }
  }

  lemma {:induction false} SameList(s: seq<int>, s': seq<int>)
    requires StrictlyIncreasing(s) && StrictlyIncreasing(s') && forall t :: t in s <==> t in s'
    ensures s == s'
  {
    assert |s| > 0 ==> s[0] in s;
    assert |s'| > 0 ==> s'[0] in s';
    if s != [] && s' != [] {
      HeadIsLeast(s);
      HeadIsLeast(s');
      SameList(s[1..], s'[1..]);
    }
  }

  lemma SameEpochs(g: Graph, kinds: seq<Kind>, st: State, st': State)
    requires Both(g, kinds, st, st')
    ensures st.ne == st'.ne && st.te == st'.te
  {
    forall n | IsNode(g, n)
      ensures st.ne[n] == st'.ne[n]
    {
      PlacedAtItsPlace(g, kinds, st, n);
      SamePlaces(g, kinds, st, st', n, st.ne[n], st.pos[n]);
    }
    forall t | IsTensor(g, t)
      ensures st.te[t] == st'.te[t]
    {
      if Produced(g, t) {
        var p :| Produces(g, p, t);
      }
    }
  }

  lemma NoMoreSubsets(g: Graph, kinds: seq<Kind>, st: State, st': State)
    requires Both(g, kinds, st, st')
    ensures |st.subsets| <= |st'.subsets|
  {
    if |st.subsets| > 0 {
      var e := |st.subsets| - 1;
      assert Finished(g, kinds, st, e);
      assert NodeAt(st.subsets, st.subsets[e].nodes[0], e, 0);
      SamePlaces(g, kinds, st, st', st.subsets[e].nodes[0], e, 0);
    }
  }

  lemma NoMoreNodes(g: Graph, kinds: seq<Kind>, st: State, st': State, e: int)
    requires Both(g, kinds, st, st') && 0 <= e < |st.subsets|
    ensures e < |st'.subsets| && st.subsets[e].nodes <= st'.subsets[e].nodes
  {
    NoMoreSubsets(g, kinds, st, st');
    forall j | 0 <= j < |st.subsets[e].nodes|
      ensures j < |st'.subsets[e].nodes| && st.subsets[e].nodes[j] == st'.subsets[e].nodes[j]
    {
      SamePlaces(g, kinds, st, st', st.subsets[e].nodes[j], e, j);
      assert NodeAt(st.subsets, st.subsets[e].nodes[j], e, j);
    }
    var a, b := st.subsets[e].nodes, st'.subsets[e].nodes;
    if a != [] {
      assert NodeAt(st.subsets, a[|a| - 1], e, |a| - 1);
      SamePlaces(g, kinds, st, st', a[|a| - 1], e, |a| - 1);
    }
    assert a == b[..|a|];
  }

  lemma SameSubset(g: Graph, kinds: seq<Kind>, st: State, st': State, e: int)
    requires Both(g, kinds, st, st') && 0 <= e < |st.subsets|
    ensures e < |st'.subsets| && st.subsets[e] == st'.subsets[e]
  {
    NoMoreNodes(g, kinds, st, st', e);
    NoMoreNodes(g, kinds, st', st, e);
    assert Finished(g, kinds, st, e);
    SubsetMembers(g, kinds, st, e, 0);
    SubsetMembers(g, kinds, st', e, 0);
    SameEpochs(g, kinds, st, st');
    forall t
      ensures InputListed(st.subsets, e, t) <==> InputListed(st'.subsets, e, t)
      ensures OutputListed(st.subsets, e, t) <==> OutputListed(st'.subsets, e, t)
    {
    }
    SameLists(st.subsets, st'.subsets, e);
  }

  lemma SameLists(s: seq<NodeSubset>, s': seq<NodeSubset>, e: int)
    requires 0 <= e < |s| && e < |s'|
    requires StrictlyIncreasing(s[e].inputTensors) && StrictlyIncreasing(s[e].outputTensors)
    requires StrictlyIncreasing(s'[e].inputTensors) && StrictlyIncreasing(s'[e].outputTensors)
    requires forall t :: InputListed(s, e, t) <==> InputListed(s', e, t)
    requires forall t :: OutputListed(s, e, t) <==> OutputListed(s', e, t)
    ensures s[e].inputTensors == s'[e].inputTensors && s[e].outputTensors == s'[e].outputTensors
  {
    forall t
      ensures t in s[e].inputTensors <==> t in s'[e].inputTensors
      ensures t in s[e].outputTensors <==> t in s'[e].outputTensors
    {
      assert InputListed(s, e, t) <==> InputListed(s', e, t);
      assert OutputListed(s, e, t) <==> OutputListed(s', e, t);
    }
    SameList(s[e].inputTensors, s'[e].inputTensors);
    SameList(s[e].outputTensors, s'[e].outputTensors);
  }

  /** The graph and the kinds of its nodes leave no choice: what makes a partition determines the result. */
  lemma PartitionIsDetermined(g: Graph, kinds: seq<Kind>, st: State, st': State)
    requires IsPartition(g, kinds, st) && IsPartition(g, kinds, st')
    ensures st.subsets == st'.subsets
  {
    NoMoreSubsets(g, kinds, st, st');
    NoMoreSubsets(g, kinds, st', st);
    forall e | 0 <= e < |st.subsets|
      ensures st.subsets[e] == st'.subsets[e]
    {
      SameSubset(g, kinds, st, st', e);
    }
  }
}
