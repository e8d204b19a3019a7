/** What a partition guarantees: coverage in dependency order, exact boundaries, and a near-minimal length. */
module PartitionTheorems {
  import opened GraphInfo
  import opened Partitioner

  // ----- coverage and order

  /** The nodes of all subsets, one subset after the other. */
  ghost function Flatten(s: seq<NodeSubset>): seq<int> {
    if s == [] then [] else Flatten(s[..|s| - 1]) + s[|s| - 1].nodes
  }

  /** The invariant of Flatten over the first k subsets. */
  ghost predicate FlattenedTo(g: Graph, st: State, k: nat, order: seq<int>)
    requires |st.ne| == |g.nodes|
  {
    && NoDuplicates(order)
    && (forall n :: n in order <==> IsNode(g, n) && st.ne[n] < k)
    && DependencyOrdered(g, order)
  }

  lemma SubsetMembers(g: Graph, kinds: seq<Kind>, st: State, e: int, j: int)
    requires IsPartition(g, kinds, st) && 0 <= e < |st.subsets| && 0 <= j < |st.subsets[e].nodes|
    ensures var n := st.subsets[e].nodes[j]; IsNode(g, n) && st.ne[n] == e && st.pos[n] == j
  {
    assert NodeAt(st.subsets, st.subsets[e].nodes[j], e, j);
  }

  lemma {:induction false} FlattenCovers(g: Graph, kinds: seq<Kind>, st: State, k: nat)
    requires IsPartition(g, kinds, st) && k <= |st.subsets|
    ensures FlattenedTo(g, st, k, Flatten(st.subsets[..k]))
  {
    if k > 0 {
      FlattenCovers(g, kinds, st, k - 1);
      var before, last := Flatten(st.subsets[..k - 1]), st.subsets[k - 1].nodes;
      assert st.subsets[..k][..k - 1] == st.subsets[..k - 1];
      forall j | 0 <= j < |last|
        ensures IsNode(g, last[j]) && st.ne[last[j]] == k - 1 && st.pos[last[j]] == j
        ensures Runnable(g, before + last[..j], last[j])
      {
        SubsetMembers(g, kinds, st, k - 1, j);
        RunnableAfter(g, kinds, st, before, k - 1, j);
      }
      forall n | IsNode(g, n) && st.ne[n] == k - 1
        ensures n in last
      {
        assert NodeAt(st.subsets, n, st.ne[n], st.pos[n]);
      }
      AppendRunnable(g, before, last);
    }
  }

  lemma AppendRunnable(g: Graph, before: seq<int>, last: seq<int>)
    requires DependencyOrdered(g, before)
    requires forall j :: 0 <= j < |last| ==> IsNode(g, last[j]) && Runnable(g, before + last[..j], last[j])
    ensures DependencyOrdered(g, before + last)
  {
    var order := before + last;
    forall i | 0 <= i < |order|
      ensures IsNode(g, order[i]) && Runnable(g, order[..i], order[i])
    {
      if i < |before| {
        assert order[..i] == before[..i];
      } else {
        assert order[..i] == before + last[..i - |before|];
      }
    }
  }

  /** Node j of subset e can run after all earlier subsets and the first j nodes of its own. */
  lemma RunnableAfter(g: Graph, kinds: seq<Kind>, st: State, before: seq<int>, e: int, j: int)
    requires IsPartition(g, kinds, st) && 0 <= e < |st.subsets| && 0 <= j < |st.subsets[e].nodes|
    requires forall n :: IsNode(g, n) && st.ne[n] < e ==> n in before
    ensures Runnable(g, before + st.subsets[e].nodes[..j], st.subsets[e].nodes[j])
  {
    var n, done := st.subsets[e].nodes[j], before + st.subsets[e].nodes[..j];
    SubsetMembers(g, kinds, st, e, j);
    forall t | Consumes(g, n, t) && Produced(g, t)
      ensures ProducedIn(g, done, t)
    {
      var m :| Produces(g, m, t);
      assert PlacedBefore(st.ne, st.pos, m, n);
      assert NodeAt(st.subsets, m, st.ne[m], st.pos[m]);
      assert m in done;
    }
  }

  /** The concatenated subsets hold every node exactly once, in an order in which the nodes can run. */
  lemma SubsetsAreTopological(g: Graph, kinds: seq<Kind>, st: State)
    requires IsPartition(g, kinds, st)
    ensures TopologicalOrder(g, Flatten(st.subsets))
  {
    FlattenCovers(g, kinds, st, |st.subsets|);
    assert st.subsets[..|st.subsets|] == st.subsets;
  }

  /** Every node lies in exactly one subset, at one position, and that subset is of the node's kind. */
  lemma OwnSubset(g: Graph, kinds: seq<Kind>, st: State, n: int, e: int, j: int)
    requires IsPartition(g, kinds, st) && IsNode(g, n)
    ensures NodeAt(st.subsets, n, e, j) <==> e == st.ne[n] && j == st.pos[n]
    ensures 0 <= st.ne[n] < |st.subsets| && st.subsets[st.ne[n]].kind == kinds[n]
  {
    assert NodeAt(st.subsets, n, st.ne[n], st.pos[n]);
  }

  /** The loops place every node exactly when the graph has no cycle. */
  lemma AllPlacedIffAcyclic(g: Graph, kinds: seq<Kind>, st: State)
    requires Inv(g, kinds, st) && Exhausted(g, st.te, st.ne)
    ensures (forall n :: IsNode(g, n) ==> st.ne[n] != NOT_READY) <==> Acyclic(g)
  {
    if Acyclic(g) {
      var rank :| RanksEdges(g, rank);
      forall n | IsNode(g, n)
        ensures st.ne[n] != NOT_READY
      {
        AcyclicPlaced(g, st.te, st.ne, rank, n);
      }
    }
    if forall n :: IsNode(g, n) ==> st.ne[n] != NOT_READY {
      var width := |g.nodes| + SumOfLengths(st.subsets);
      var rank: seq<nat> := seq(|g.nodes|, n requires 0 <= n < |g.nodes| => PlaceRank(g, kinds, st, width, n));
      forall m, n, t | Produces(g, m, t) && Consumes(g, n, t)
        ensures rank[m] < rank[n]
      {
        assert PlacedBefore(st.ne, st.pos, m, n);
        PlaceRankGrows(g, kinds, st, width, m, n);
      }
      assert RanksEdges(g, rank);
    }
  }

  ghost function SumOfLengths(s: seq<NodeSubset>): nat {
    if s == [] then 0 else SumOfLengths(s[..|s| - 1]) + |s[|s| - 1].nodes|
  }

  lemma {:induction false} LengthBelowSum(s: seq<NodeSubset>, e: int)
    requires 0 <= e < |s|
    ensures |s[e].nodes| <= SumOfLengths(s)
  {
    if e < |s| - 1 {
      LengthBelowSum(s[..|s| - 1], e);
    }
  }

  ghost function PlaceRank(g: Graph, kinds: seq<Kind>, st: State, width: nat, n: int): nat
    requires Inv(g, kinds, st) && IsNode(g, n) && st.ne[n] != NOT_READY
  {
    assert NodeAt(st.subsets, n, st.ne[n], st.pos[n]);
    st.ne[n] * width + st.pos[n]
  }

  lemma RankGrows(a: nat, p: nat, b: nat, q: nat, width: nat)
    requires (a < b && p < width) || (a == b && p < q)
    ensures a * width + p < b * width + q
  {
    if a < b {
      TimesGrows(a + 1, b, width);
      assert (a + 1) * width == a * width + width;
    }
  }

  lemma {:induction false} TimesGrows(a: nat, b: nat, width: nat)
    requires a <= b
    ensures a * width <= b * width
  {
    if a < b {
      TimesGrows(a, b - 1, width);
      assert b * width == (b - 1) * width + width;
    }
  }

  lemma PlaceRankGrows(g: Graph, kinds: seq<Kind>, st: State, width: nat, m: int, n: int)
    requires Inv(g, kinds, st) && IsNode(g, n) && st.ne[n] != NOT_READY && IsNode(g, m)
    requires SumOfLengths(st.subsets) <= width && PlacedBefore(st.ne, st.pos, m, n)
    ensures PlaceRank(g, kinds, st, width, m) < PlaceRank(g, kinds, st, width, n)
  {
    assert NodeAt(st.subsets, m, st.ne[m], st.pos[m]);
    LengthBelowSum(st.subsets, st.ne[m]);
    RankGrows(st.ne[m], st.pos[m], st.ne[n], st.pos[n], width);
  }

  // ----- boundaries

  /** An input of subset e is either produced by no node, or exposed by exactly one subset, and that one is
      strictly earlier. */
  lemma InputComesFromOneEarlierSubset(g: Graph, kinds: seq<Kind>, st: State, e: int, t: int, p: int)
    requires IsPartition(g, kinds, st) && InputListed(st.subsets, e, t)
    ensures Produced(g, t) ==> 0 <= st.te[t] < e && (OutputListed(st.subsets, p, t) <==> p == st.te[t])
    ensures !Produced(g, t) ==> !OutputListed(st.subsets, p, t)
  {
    var n :| Consumes(g, n, t) && st.ne[n] == e;
    if Produced(g, t) {
      var m :| Produces(g, m, t);
      assert PlacedBefore(st.ne, st.pos, m, n);
      assert ConsumedOutside(g, st.ne, st.te[t], t);
    }
  }

  // ----- alternation and near-minimality

  /** Neighbouring subsets differ in kind. */
  lemma KindsAlternate(g: Graph, kinds: seq<Kind>, st: State, e: int)
    requires IsPartition(g, kinds, st) && 0 <= e < |st.subsets| - 1
    ensures st.subsets[e].kind != st.subsets[e + 1].kind
  {
    var n := st.subsets[e + 1].nodes;
    assert Finished(g, kinds, st, e) && Finished(g, kinds, st, e + 1);
    SubsetMembers(g, kinds, st, e + 1, 0);
    assert kinds[n[0]] == st.subsets[e + 1].kind;
  }

  lemma {:induction false} KindByParity(g: Graph, kinds: seq<Kind>, st: State, e: int)
    requires IsPartition(g, kinds, st) && 0 <= e < |st.subsets|
    ensures st.subsets[e].kind != Unexplored
    ensures st.subsets[e].kind == st.subsets[0].kind <==> e % 2 == 0
  {
    assert Finished(g, kinds, st, e);
    SubsetMembers(g, kinds, st, e, 0);
    if e > 0 {
      KindByParity(g, kinds, st, e - 1);
      KindByParity(g, kinds, st, 0);
      KindsAlternate(g, kinds, st, e - 1);
    }
  }

  /** A way to cut the graph into groups of one kind each, in dependency order; groups may be empty and
      neighbouring groups may have the same kind. */
  ghost predicate Grouping(g: Graph, kinds: seq<Kind>, group: seq<int>, groupKinds: seq<Kind>) {
    && |group| == |kinds| == |g.nodes|
    && (forall k :: 0 <= k < |groupKinds| ==> groupKinds[k] != Unexplored)
    && (forall n :: IsNode(g, n) ==> 0 <= group[n] < |groupKinds| && groupKinds[group[n]] == kinds[n])
    && (forall m, n, t :: Produces(g, m, t) && Consumes(g, n, t) ==> group[m] <= group[n])
  }

  /** How often the kind changes up to group k. */
  ghost function Changes(groupKinds: seq<Kind>, k: int): nat
    requires 0 <= k < |groupKinds|
  {
    if k == 0 then 0
    else Changes(groupKinds, k - 1) + if groupKinds[k] == groupKinds[k - 1] then 0 else 1
  }

  lemma {:induction false} ChangesParity(groupKinds: seq<Kind>, k: int)
    requires 0 <= k < |groupKinds| && forall i :: 0 <= i < |groupKinds| ==> groupKinds[i] != Unexplored
    ensures groupKinds[k] == groupKinds[0] <==> Changes(groupKinds, k) % 2 == 0
    ensures Changes(groupKinds, k) <= k
  {
    if k > 0 {
      ChangesParity(groupKinds, k - 1);
    }
  }

  lemma {:induction false} ChangesGrow(groupKinds: seq<Kind>, j: int, k: int)
    requires 0 <= j <= k < |groupKinds|
    ensures Changes(groupKinds, j) <= Changes(groupKinds, k)
  {
    if j < k {
      ChangesGrow(groupKinds, j, k - 1);
    }
  }

  /** The greedy epoch of a node is at most the number of kind changes up to its group in any grouping that
      starts with the same kind. */
  lemma {:induction false} GreedyIsEarliest(g: Graph, kinds: seq<Kind>, st: State, group: seq<int>,
                                            groupKinds: seq<Kind>, n: int)
    requires IsPartition(g, kinds, st) && Grouping(g, kinds, group, groupKinds) && IsNode(g, n)
    requires st.subsets != [] && groupKinds != [] && groupKinds[0] == st.subsets[0].kind
    ensures st.ne[n] <= Changes(groupKinds, group[n])
    decreases st.ne[n], st.pos[n]
  {
    OwnSubset(g, kinds, st, n, st.ne[n], st.pos[n]);
    var a := Changes(groupKinds, group[n]);
    if a < st.ne[n] {
      ChangesParity(groupKinds, group[n]);
      KindByParity(g, kinds, st, a);
      KindByParity(g, kinds, st, 0);
      assert Finished(g, kinds, st, a);
      assert !ReadyBefore(g, st.te, n, a + 1);
      var t :| Consumes(g, n, t) && !(IsTensor(g, t) && st.te[t] != NOT_READY && st.te[t] < a + 1);
      var m :| Produces(g, m, t);
      assert PlacedBefore(st.ne, st.pos, m, n);
      OwnSubset(g, kinds, st, m, st.ne[m], st.pos[m]);
      GreedyIsEarliest(g, kinds, st, group, groupKinds, m);
      ChangesGrow(groupKinds, group[m], group[n]);
      assert false;
    }
  }

  /** No grouping that starts with the same kind has fewer groups. */
  lemma MinimalForItsFirstKind(g: Graph, kinds: seq<Kind>, st: State, group: seq<int>, groupKinds: seq<Kind>)
    requires IsPartition(g, kinds, st) && Grouping(g, kinds, group, groupKinds)
    requires st.subsets != [] ==> groupKinds != [] && groupKinds[0] == st.subsets[0].kind
    ensures |st.subsets| <= |groupKinds|
  {
    if st.subsets != [] {
      var last := |st.subsets| - 1;
      assert Finished(g, kinds, st, last);
      SubsetMembers(g, kinds, st, last, 0);
      var n := st.subsets[last].nodes[0];
      GreedyIsEarliest(g, kinds, st, group, groupKinds, n);
      ChangesParity(groupKinds, group[n]);
    }
  }

  /** The partition is at most one subset longer than any grouping whatever. */
  lemma AtMostOneAboveMinimum(g: Graph, kinds: seq<Kind>, st: State, group: seq<int>, groupKinds: seq<Kind>)
    requires IsPartition(g, kinds, st) && Grouping(g, kinds, group, groupKinds)
    ensures |st.subsets| <= |groupKinds| + 1
  {
    if st.subsets != [] {
      KindByParity(g, kinds, st, 0);
      var shifted := seq(|group|, n requires 0 <= n < |group| => group[n] + 1);
      var padded := [st.subsets[0].kind] + groupKinds;
      assert Grouping(g, kinds, shifted, padded);
      MinimalForItsFirstKind(g, kinds, st, shifted, padded);
    }
  }

  /** The bound is met: on this graph every run yields three subsets although two groups suffice, because the
      first ready node fixes the first kind. */
  lemma OneAboveMinimumHappens(st: State)
    requires var g := Graph(3, [Node([], [0], []), Node([], [1], []), Node([1], [2], [])], [], [], []);
      IsPartition(g, [Kind.Partition, NonPartition, Kind.Partition], st)
    ensures |st.subsets| == 3
    ensures var g := Graph(3, [Node([], [0], []), Node([], [1], []), Node([1], [2], [])], [], [], []);
      Grouping(g, [Kind.Partition, NonPartition, Kind.Partition], [1, 0, 1], [NonPartition, Kind.Partition])
  {
    var g := Graph(3, [Node([], [0], []), Node([], [1], []), Node([1], [2], [])], [], [], []);
    var kinds := [Kind.Partition, NonPartition, Kind.Partition];
    assert Produces(g, 1, 1) && Consumes(g, 2, 1);
    FirstNodeOpens(g, kinds, st);
    OwnSubset(g, kinds, st, 1, st.ne[1], st.pos[1]);
    OwnSubset(g, kinds, st, 2, st.ne[2], st.pos[2]);
    assert PlacedBefore(st.ne, st.pos, 1, 2);
    AtMostOneAboveMinimum(g, kinds, st, [1, 0, 1], [NonPartition, Kind.Partition]);
  }

  /** If node 0 has no inputs, it opens the first subset. */
  lemma FirstNodeOpens(g: Graph, kinds: seq<Kind>, st: State)
    requires IsPartition(g, kinds, st) && IsNode(g, 0) && g.nodes[0].inputs == []
    ensures st.subsets != [] && st.ne[0] == 0 && st.subsets[0].kind == kinds[0]
  {
    OwnSubset(g, kinds, st, 0, st.ne[0], st.pos[0]);
    assert Finished(g, kinds, st, 0);
    SubsetMembers(g, kinds, st, 0, 0);
    assert ReadyBefore(g, st.te, 0, 0);
    assert st.subsets[0].nodes[0] == 0;
  }
}
