/** Partitioning preserves meaning: the subsets, run as black boxes, compute what the whole graph computes. */
module PartitionMeaning {
  import opened Wrappers
  import opened GraphInfo
  import opened Partitioner
  import opened PartitionTheorems

  /** What a node computes: the value of its output tensor `t` from the values of its inputs. */
  type Kernels<!V> = (int, int, seq<V>) -> V

  function Read<V>(env: map<int, V>, ts: seq<int>): seq<V>
    requires forall t :: t in ts ==> t in env
  {
    if ts == [] then []
    else
      var last := ts[|ts| - 1];
      assert last in ts;
      Read(env, ts[..|ts| - 1]) + [env[last]]
  }

  lemma {:induction false} ReadsAgree<V>(env: map<int, V>, v: map<int, V>, ts: seq<int>)
    requires forall t :: t in ts ==> t in env && t in v && env[t] == v[t]
    ensures Read(env, ts) == Read(v, ts)
  {
    if ts != [] {
      assert ts[|ts| - 1] in ts;
      ReadsAgree(env, v, ts[..|ts| - 1]);
    }
  }

  /** Runs node n on the tensors that have a value; fails if an input has none. */
  function RunNode<V>(g: Graph, kernels: Kernels<V>, env: map<int, V>, n: int): Option<map<int, V>> {
    if IsNode(g, n) && forall t :: t in g.nodes[n].inputs ==> t in env then
      Some(env + map t | t in g.nodes[n].outputs :: kernels(n, t, Read(env, g.nodes[n].inputs)))
    else
      None
  }

  function RunNodes<V>(g: Graph, kernels: Kernels<V>, env: map<int, V>, ns: seq<int>): Option<map<int, V>> {
    if ns == [] then Some(env)
    else
      match RunNodes(g, kernels, env, ns[..|ns| - 1])
      case None => None
      case Some(before) => RunNode(g, kernels, before, ns[|ns| - 1])
  }

  /** Runs a subset as a black box: it sees the tensors of its input list and exposes those of its output list. */
  function RunSubset<V>(g: Graph, kernels: Kernels<V>, env: map<int, V>, subset: NodeSubset): Option<map<int, V>> {
    if forall t :: t in subset.inputTensors ==> t in env then
      var local := map t | t in subset.inputTensors :: env[t];
      match RunNodes(g, kernels, local, subset.nodes)
      case None => None
      case Some(after) =>
        if forall t :: t in subset.outputTensors ==> t in after then
          Some(env + map t | t in subset.outputTensors :: after[t])
        else
          None
    else
      None
  }

  function RunSubsets<V>(g: Graph, kernels: Kernels<V>, env: map<int, V>, s: seq<NodeSubset>): Option<map<int, V>> {
    if s == [] then Some(env)
    else
      match RunSubsets(g, kernels, env, s[..|s| - 1])
      case None => None
      case Some(before) => RunSubset(g, kernels, before, s[|s| - 1])
  }

  /** The values given from outside: one for each tensor that is consumed but not produced, none for the others. */
  ghost predicate Feeds<V>(g: Graph, init: map<int, V>) {
    && (forall n, t :: Consumes(g, n, t) && !Produced(g, t) ==> t in init)
    && (forall t :: t in init ==> !Produced(g, t))
  }

  /** Node n has its inputs in v, and v gives its outputs what the node computes from them. */
  ghost predicate Solved<V(!new)>(g: Graph, kernels: Kernels<V>, v: map<int, V>, n: int)
    requires IsNode(g, n)
  {
    && (forall t :: t in g.nodes[n].inputs ==> t in v)
    && (forall t :: t in g.nodes[n].outputs ==> t in v && v[t] == kernels(n, t, Read(v, g.nodes[n].inputs)))
  }

  ghost predicate Agrees<V(!new)>(env: map<int, V>, v: map<int, V>) {
    forall t :: t in env ==> t in v && env[t] == v[t]
  }

  /** Running one node inside a solution stays inside it. */
  lemma StepFollowsSolution<V(!new)>(g: Graph, kernels: Kernels<V>, v: map<int, V>, env: map<int, V>, n: int)
    requires IsNode(g, n) && Solved(g, kernels, v, n) && Agrees(env, v)
    requires forall t :: Consumes(g, n, t) ==> t in env
    ensures var r := RunNode(g, kernels, env, n);
      r.Some? && Agrees(r.value, v) && forall t :: t in r.value <==> t in env || Produces(g, n, t)
  {
    assert forall t :: t in g.nodes[n].inputs ==> Consumes(g, n, t);
    ReadsAgree(env, v, g.nodes[n].inputs);
  }

  /** Running nodes inside a solution stays inside it. */
  lemma {:induction false} RunFollowsSolution<V(!new)>(g: Graph, kernels: Kernels<V>, v: map<int, V>, env: map<int, V>,
                                                ns: seq<int>)
    requires forall i :: 0 <= i < |ns| ==> IsNode(g, ns[i]) && Solved(g, kernels, v, ns[i])
    requires forall i, t :: 0 <= i < |ns| && Consumes(g, ns[i], t) ==> t in env || ProducedIn(g, ns[..i], t)
    requires Agrees(env, v)
    ensures var r := RunNodes(g, kernels, env, ns);
      r.Some? && Agrees(r.value, v) && forall t :: t in r.value <==> t in env || ProducedIn(g, ns, t)
  {
    if ns != [] {
      var n, head := ns[|ns| - 1], ns[..|ns| - 1];
      assert forall i :: 0 <= i < |head| ==> head[..i] == ns[..i];
      RunFollowsSolution(g, kernels, v, env, head);
      StepFollowsSolution(g, kernels, v, RunNodes(g, kernels, env, head).value, n);
      forall t
        ensures ProducedIn(g, ns, t) <==> ProducedIn(g, head, t) || Produces(g, n, t)
      {
        ProducedInAppended(g, ns, t);
      }
    }
  }

  lemma ProducedInAppended(g: Graph, ns: seq<int>, t: int)
    requires ns != []
    ensures ProducedIn(g, ns, t) <==> ProducedIn(g, ns[..|ns| - 1], t) || Produces(g, ns[|ns| - 1], t)
  {
    assert ns == ns[..|ns| - 1] + [ns[|ns| - 1]];
  }

  /** Running a topological order from its start gives a solution for the nodes that have run. */
  lemma {:induction false} RunSolves<V(!new)>(g: Graph, kernels: Kernels<V>, init: map<int, V>, order: seq<int>)
    requires SingleProducer(g) && Feeds(g, init) && NoDuplicates(order) && DependencyOrdered(g, order)
    ensures var r := RunNodes(g, kernels, init, order);
      && r.Some? && Agrees(init, r.value)
      && (forall t :: t in r.value <==> t in init || ProducedIn(g, order, t))
      && (forall i :: 0 <= i < |order| ==> Solved(g, kernels, r.value, order[i]))
  {
    if order != [] {
      var head := order[..|order| - 1];
      InitIsOrdered(g, order);
      RunSolves(g, kernels, init, head);
      var before := RunNodes(g, kernels, init, head).value;
      assert forall i :: 0 <= i < |head| ==> head[i] == order[i] && Solved(g, kernels, before, head[i]);
      NextSolves(g, kernels, init, order, before);
    }
  }

  lemma InitIsOrdered(g: Graph, order: seq<int>)
    requires DependencyOrdered(g, order) && NoDuplicates(order) && order != []
    ensures DependencyOrdered(g, order[..|order| - 1]) && NoDuplicates(order[..|order| - 1])
  {
    var head := order[..|order| - 1];
    forall i | 0 <= i < |head|
      ensures IsNode(g, head[i]) && Runnable(g, head[..i], head[i])
    {
      assert head[..i] == order[..i];
    }
  }

  /** The last node of a topological order continues what the others have solved. */
  lemma NextSolves<V(!new)>(g: Graph, kernels: Kernels<V>, init: map<int, V>, order: seq<int>, before: map<int, V>)
    requires SingleProducer(g) && Feeds(g, init) && NoDuplicates(order) && DependencyOrdered(g, order) && order != []
    requires Agrees(init, before) && forall t :: t in before <==> t in init || ProducedIn(g, order[..|order| - 1], t)
    requires forall i :: 0 <= i < |order| - 1 ==> Solved(g, kernels, before, order[i])
    ensures var r := RunNode(g, kernels, before, order[|order| - 1]);
      && r.Some? && Agrees(init, r.value)
      && (forall t :: t in r.value <==> t in init || ProducedIn(g, order, t))
      && (forall i :: 0 <= i < |order| ==> Solved(g, kernels, r.value, order[i]))
  {
    var k := |order| - 1;
    var n, head := order[k], order[..k];
    assert Runnable(g, head, n);
    forall t | t in g.nodes[n].inputs
      ensures t in before
    {
      assert Consumes(g, n, t);
    }
    // Nothing that has a value is overwritten: not a fed tensor, and not the output of another node.
    forall t | t in before
      ensures !Produces(g, n, t)
    {
      assert t !in init ==> ProducedIn(g, head, t);
      assert n !in head;
    }
    StepSolves(g, kernels, before, n);
    var after := RunNode(g, kernels, before, n).value;
    forall i | 0 <= i < k
      ensures Solved(g, kernels, after, order[i])
    {
      SolvedStays(g, kernels, before, after, order[i]);
    }
    AllProducedInAppended(g, order);
  }

  /** A node that overwrites nothing solves its equation. */
  lemma StepSolves<V(!new)>(g: Graph, kernels: Kernels<V>, before: map<int, V>, n: int)
    requires IsNode(g, n) && (forall t :: t in g.nodes[n].inputs ==> t in before)
    requires forall t :: t in before ==> !Produces(g, n, t)
    ensures var r := RunNode(g, kernels, before, n);
      && r.Some? && Agrees(before, r.value) && Solved(g, kernels, r.value, n)
      && forall t :: t in r.value <==> t in before || Produces(g, n, t)
  {
    var after := RunNode(g, kernels, before, n).value;
    assert forall t :: t in g.nodes[n].outputs ==> Produces(g, n, t);
    ReadsAgree(after, before, g.nodes[n].inputs);
  }

  lemma SolvedStays<V(!new)>(g: Graph, kernels: Kernels<V>, before: map<int, V>, after: map<int, V>, n: int)
    requires IsNode(g, n) && Solved(g, kernels, before, n) && Agrees(before, after)
    ensures Solved(g, kernels, after, n)
  {
    ReadsAgree(after, before, g.nodes[n].inputs);
  }

  lemma AllProducedInAppended(g: Graph, order: seq<int>)
    requires order != []
    ensures forall t :: ProducedIn(g, order, t) <==>
      ProducedIn(g, order[..|order| - 1], t) || Produces(g, order[|order| - 1], t)
  {
    forall t
      ensures ProducedIn(g, order, t) <==> ProducedIn(g, order[..|order| - 1], t) || Produces(g, order[|order| - 1], t)
    {
      ProducedInAppended(g, order, t);
    }
  }

  /** Any two topological orders give the same values to the same tensors. */
  lemma OrderDoesNotMatter<V(!new)>(g: Graph, kernels: Kernels<V>, init: map<int, V>, a: seq<int>, b: seq<int>)
    requires SingleProducer(g) && Feeds(g, init) && TopologicalOrder(g, a) && TopologicalOrder(g, b)
    ensures RunNodes(g, kernels, init, a).Some?
    ensures RunNodes(g, kernels, init, a) == RunNodes(g, kernels, init, b)
  {
    RunsRelated(g, kernels, init, a, b);
    var v, w := RunNodes(g, kernels, init, a).value, RunNodes(g, kernels, init, b).value;
    forall t | t in v
      ensures t in w && v[t] == w[t]
    {
    }
    forall t | t in w
      ensures t in v
    {
    }
    assert v == w;
  }

  lemma RunsRelated<V(!new)>(g: Graph, kernels: Kernels<V>, init: map<int, V>, a: seq<int>, b: seq<int>)
    requires SingleProducer(g) && Feeds(g, init) && TopologicalOrder(g, a) && TopologicalOrder(g, b)
    ensures var r, s := RunNodes(g, kernels, init, a), RunNodes(g, kernels, init, b);
      r.Some? && s.Some? && Agrees(s.value, r.value) && forall t :: t in r.value <==> t in s.value
  {
    RunSolves(g, kernels, init, a);
    var v := RunNodes(g, kernels, init, a).value;
    AllSolved(g, kernels, v, a, b);
    forall i, t | 0 <= i < |b| && Consumes(g, b[i], t)
      ensures t in init || ProducedIn(g, b[..i], t)
    {
      assert Runnable(g, b[..i], b[i]);
    }
    RunFollowsSolution(g, kernels, v, init, b);
    var w := RunNodes(g, kernels, init, b).value;
    forall t
      ensures t in v <==> t in w
    {
      ProducedInOrder(g, a, t);
      ProducedInOrder(g, b, t);
    }
  }

  lemma AllSolved<V(!new)>(g: Graph, kernels: Kernels<V>, v: map<int, V>, a: seq<int>, b: seq<int>)
    requires TopologicalOrder(g, a) && DependencyOrdered(g, b)
    requires forall i :: 0 <= i < |a| ==> IsNode(g, a[i]) && Solved(g, kernels, v, a[i])
    ensures forall i :: 0 <= i < |b| ==> IsNode(g, b[i]) && Solved(g, kernels, v, b[i])
  {
    forall i | 0 <= i < |b|
      ensures IsNode(g, b[i]) && Solved(g, kernels, v, b[i])
    {
      assert b[i] in a;
    }
  }

  lemma ProducedInOrder(g: Graph, order: seq<int>, t: int)
    requires TopologicalOrder(g, order)
    ensures ProducedIn(g, order, t) <==> Produced(g, t)
  {
    if Produced(g, t) {
      var n :| Produces(g, n, t);
      assert n in order;
    }
  }

  /** One of the first k subsets shows the tensor. */
  ghost predicate ShownBefore(s: seq<NodeSubset>, k: nat, t: int) {
    exists e :: 0 <= e < k && OutputListed(s, e, t)
  }

  lemma ShownNext(s: seq<NodeSubset>, k: nat, t: int)
    ensures ShownBefore(s, k + 1, t) <==> ShownBefore(s, k, t) || OutputListed(s, k, t)
  {
  }

  /** What a subset asks for is there: it is given, or an earlier subset shows it. */
  lemma InputIsThere<V(!new)>(g: Graph, kinds: seq<Kind>, st: State, init: map<int, V>, e: nat, t: int)
    requires IsPartition(g, kinds, st) && Feeds(g, init) && e < |st.subsets| && t in st.subsets[e].inputTensors
    ensures t in init || ShownBefore(st.subsets, e, t)
  {
    assert InputListed(st.subsets, e, t);
    InputComesFromOneEarlierSubset(g, kinds, st, e, t, st.te[t]);
    assert !Produced(g, t) ==> t in init;
  }

  /** The first k subsets run to values of the whole, and hold all tensors that later subsets may ask for. */
  lemma {:induction false} SubsetsFollowSolution<V(!new)>(g: Graph, kinds: seq<Kind>, st: State, kernels: Kernels<V>,
                                                          init: map<int, V>, v: map<int, V>, k: nat)
    requires IsPartition(g, kinds, st) && Feeds(g, init) && k <= |st.subsets| && Agrees(init, v)
    requires forall n :: IsNode(g, n) ==> Solved(g, kernels, v, n)
    ensures var r := RunSubsets(g, kernels, init, st.subsets[..k]);
      && r.Some? && Agrees(r.value, v)
      && (forall t :: t in r.value <==> t in init || ShownBefore(st.subsets, k, t))
  {
    if k > 0 {
      assert st.subsets[..k][..k - 1] == st.subsets[..k - 1];
      SubsetsFollowSolution(g, kinds, st, kernels, init, v, k - 1);
      var before := RunSubsets(g, kernels, init, st.subsets[..k - 1]).value;
      forall t | t in st.subsets[k - 1].inputTensors
        ensures t in before
      {
        InputIsThere(g, kinds, st, init, k - 1, t);
      }
      SubsetFollowsSolution(g, kinds, st, kernels, before, v, k - 1);
      var after := RunSubset(g, kernels, before, st.subsets[k - 1]).value;
      forall t
        ensures t in after <==> t in init || ShownBefore(st.subsets, k, t)
      {
        ShownNext(st.subsets, k - 1, t);
        assert t in after <==> t in before || OutputListed(st.subsets, k - 1, t);
      }
    }
  }

  lemma SubsetFollowsSolution<V(!new)>(g: Graph, kinds: seq<Kind>, st: State, kernels: Kernels<V>,
                                       env: map<int, V>, v: map<int, V>, e: nat)
    requires IsPartition(g, kinds, st) && e < |st.subsets| && Agrees(env, v)
    requires forall n :: IsNode(g, n) ==> Solved(g, kernels, v, n)
    requires forall t :: t in st.subsets[e].inputTensors ==> t in env
    ensures var r := RunSubset(g, kernels, env, st.subsets[e]);
      && r.Some? && Agrees(r.value, v)
      && (forall t :: t in r.value <==> t in env || t in st.subsets[e].outputTensors)
  {
    var sub := st.subsets[e];
    var local := map t | t in sub.inputTensors :: env[t];
    forall i, t | 0 <= i < |sub.nodes| && Consumes(g, sub.nodes[i], t)
      ensures t in local || ProducedIn(g, sub.nodes[..i], t)
    {
      SubsetMembers(g, kinds, st, e, i);
      if st.te[t] == e {
        assert Produced(g, t);
        var m :| Produces(g, m, t);
        assert PlacedBefore(st.ne, st.pos, m, sub.nodes[i]);
        assert NodeAt(st.subsets, m, st.ne[m], st.pos[m]);
      } else {
        assert InputListed(st.subsets, e, t);
      }
    }
    forall i | 0 <= i < |sub.nodes|
      ensures IsNode(g, sub.nodes[i])
    {
      SubsetMembers(g, kinds, st, e, i);
    }
    RunFollowsSolution(g, kernels, v, local, sub.nodes);
    var after := RunNodes(g, kernels, local, sub.nodes).value;
    forall t | t in sub.outputTensors
      ensures t in after
    {
      assert OutputListed(st.subsets, e, t);
      assert Produced(g, t);
      var m :| Produces(g, m, t);
      assert NodeAt(st.subsets, m, st.ne[m], st.pos[m]);
      assert ProducedIn(g, sub.nodes, t);
    }
  }

  /** The main result: for arbitrary kernels and any topological order, running the subsets one after the other,
      each as a black box between its boundary lists, succeeds and gives every exposed tensor, and so every model
      output, the value that the whole graph gives it. */
  lemma PartitionPreservesMeaning<V(!new)>(g: Graph, kinds: seq<Kind>, st: State, kernels: Kernels<V>,
                                           init: map<int, V>, order: seq<int>)
    requires IsPartition(g, kinds, st) && Feeds(g, init) && TopologicalOrder(g, order)
    requires forall t :: t in g.outputs ==> IsTensor(g, t) && Produced(g, t)
    ensures var whole, parts := RunNodes(g, kernels, init, order), RunSubsets(g, kernels, init, st.subsets);
      && whole.Some? && parts.Some? && Agrees(parts.value, whole.value)
      && forall t :: t in g.outputs ==> t in parts.value && t in whole.value && parts.value[t] == whole.value[t]
  {
    RunSolves(g, kernels, init, order);
    var v := RunNodes(g, kernels, init, order).value;
    forall n | IsNode(g, n)
      ensures Solved(g, kernels, v, n)
    {
      assert n in order;
    }
    SubsetsFollowSolution(g, kinds, st, kernels, init, v, |st.subsets|);
    assert st.subsets[..|st.subsets|] == st.subsets;
    forall t | t in g.outputs
      ensures t in RunSubsets(g, kernels, init, st.subsets).value
    {
      var m :| Produces(g, m, t);
      OwnSubset(g, kinds, st, m, st.ne[m], st.pos[m]);
      assert OutputListed(st.subsets, st.te[t], t);
    }
  }
}
