/** The conversion of a graph to a function definition. */
module FunctionConversion {
  import opened Wrappers
  import opened NodeNames
  import opened FunctionGraph

  datatype Error =
    | InvalidInput
    | RefInput
    | DuplicateInput
    | InvalidOutput
    | RefOutput
    | InputNodeHasSeveralOutputs
    | DuplicateOutputName
    | MissingInputEdge
    | InputNotAvailable
    | ControlSourceNotInBody
    | OutputNotAvailable

  datatype Result<T> = Ok(value: T) | Err(error: Error)

  // ----- flat names of tensors

  lemma SplitAtColon(a: string, x: string, b: string, y: string)
    requires ':' !in a && ':' !in b && a + ":" + x == b + ":" + y
    ensures a == b && x == y
  {
    var s, t := a + ":" + x, b + ":" + y;
    assert s[|a|] == ':' && t[|b|] == ':';
    assert |a| == |b|;
    assert a == s[..|a|] && b == t[..|b|];
    assert x == s[|a| + 1..] && y == t[|b| + 1..];
  }

  function FlatOf(g: Graph, t: Tensor): string
    requires ValidTensor(g, t)
  {
    Flat(g[t.node].name, t.index)
  }

  /** Different tensors have different flat names. */
  lemma FlatInjective(g: Graph, t: Tensor, t': Tensor)
    requires ValidGraph(g) && ValidTensor(g, t) && ValidTensor(g, t') && FlatOf(g, t) == FlatOf(g, t')
    ensures t == t'
  {
    assert ValidNode(g, g[t.node]) && ValidNode(g, g[t'.node]);
    SplitAtColon(g[t.node].name, Decimal(t.index), g[t'.node].name, Decimal(t'.index));
    DecimalInjective(t.index, t'.index);
  }

  // ----- the two maps that the conversion fills

  function Lookup(m: map<string, string>, key: string): Option<string> {
    if key in m then Some(m[key]) else None
  }

  ghost predicate Renamed(g: Graph, nm: Naming, m: map<string, string>, t: Tensor)
    requires ValidTensor(g, t)
  {
    Lookup(m, FlatOf(g, t)) == RefOf(g, nm, t)
  }

  /** The tensor renaming holds the reference of each tensor that has one. */
  ghost predicate TensorsRenamed(g: Graph, nm: Naming, m: map<string, string>) {
    forall t: Tensor :: ValidTensor(g, t) ==> Renamed(g, nm, m, t)
  }

  ghost predicate Mapped(g: Graph, nm: Naming, m: map<string, string>, n: nat)
    requires n < |g| && |nm.args| <= |nm.inputs|
  {
    Lookup(m, g[n].name) == NameOf(nm, n)
  }

  /** The name mapping holds the name of each node that has one. */
  ghost predicate NodesMapped(g: Graph, nm: Naming, m: map<string, string>)
    requires |nm.args| <= |nm.inputs|
  {
    forall n: nat :: n < |g| ==> Mapped(g, nm, m, n)
  }

  lemma InputNamed(g: Graph, nm: Naming, m: map<string, string>, a: string)
    requires ValidGraph(g) && ValidNaming(g, nm) && |nm.args| < |nm.inputs| && nm.nodeNames == []
    requires TensorsRenamed(g, nm, m)
    ensures TensorsRenamed(g, nm.(args := nm.args + [a]), m[FlatOf(g, nm.inputs[|nm.args|]) := a])
  {
    var t0 := nm.inputs[|nm.args|];
    var nm' := nm.(args := nm.args + [a]);
    var m' := m[FlatOf(g, t0) := a];
    IndexOfElement(nm.inputs, |nm.args|);
    forall t: Tensor | ValidTensor(g, t)
      ensures Renamed(g, nm', m', t)
    {
      assert Renamed(g, nm, m, t);
      if FlatOf(g, t) == FlatOf(g, t0) {
        FlatInjective(g, t, t0);
      }
    }
  }

  lemma InputMapped(g: Graph, nm: Naming, m: map<string, string>, a: string)
    requires ValidGraph(g) && ValidNaming(g, nm) && |nm.args| < |nm.inputs| && nm.nodeNames == []
    requires NodesMapped(g, nm, m)
    ensures NodesMapped(g, nm.(args := nm.args + [a]), m[g[nm.inputs[|nm.args|].node].name := a])
  {
    var n0 := nm.inputs[|nm.args|].node;
    var nm' := nm.(args := nm.args + [a]);
    var m' := m[g[n0].name := a];
    assert nm'.args[..|nm'.args| - 1] == nm.args;
    forall n: nat | n < |g|
      ensures Mapped(g, nm', m', n)
    {
      assert Mapped(g, nm, m, n);
    }
  }

  lemma BodyMapped(g: Graph, nm: Naming, m: map<string, string>, name: string)
    requires ValidGraph(g) && ValidNaming(g, nm) && |nm.nodeNames| < |nm.body|
    requires NodesMapped(g, nm, m)
    ensures NodesMapped(g, nm.(nodeNames := nm.nodeNames + [name]), m[g[nm.body[|nm.nodeNames|]].name := name])
  {
    var n0 := nm.body[|nm.nodeNames|];
    var nm' := nm.(nodeNames := nm.nodeNames + [name]);
    var m' := m[g[n0].name := name];
    IndexOfElement(nm.body, |nm.nodeNames|);
    forall n: nat | n < |g|
      ensures Mapped(g, nm', m', n)
    {
      assert Mapped(g, nm, m, n);
    }
  }

  /** m' is m with the outputs of a node that were not in it, up to output number n. */
  ghost predicate OutputsAdded(node: string, name: string, outputs: seq<OutputArg>, n: nat,
                               m: map<string, string>, m': map<string, string>) {
    && n <= Start(outputs, |outputs|)
    && (forall key :: key in m ==> key in m' && m'[key] == m[key])
    && (forall key :: key in m' && key !in m ==> exists i: nat :: i < n && key == Flat(node, i))
    && (forall i: nat :: i < n ==> OutputAdded(node, name, outputs, i, m, m'))
  }

  ghost predicate OutputAdded(node: string, name: string, outputs: seq<OutputArg>, i: nat,
                              m: map<string, string>, m': map<string, string>)
    requires i < Start(outputs, |outputs|)
  {
    Flat(node, i) in m' && (Flat(node, i) !in m ==> m'[Flat(node, i)] == Nested(name, outputs, i))
  }

  lemma BodyRenamed(g: Graph, nm: Naming, m: map<string, string>, m': map<string, string>, name: string)
    requires ValidGraph(g) && ValidNaming(g, nm) && |nm.nodeNames| < |nm.body| && |nm.args| == |nm.inputs|
    requires TensorsRenamed(g, nm, m)
    requires var node := g[nm.body[|nm.nodeNames|]];
             OutputsAdded(node.name, name, node.op.outputs, NumOutputs(node.op), m, m')
    ensures TensorsRenamed(g, nm.(nodeNames := nm.nodeNames + [name]), m')
  {
    var n0 := nm.body[|nm.nodeNames|];
    var node := g[n0];
    var nm' := nm.(nodeNames := nm.nodeNames + [name]);
    IndexOfElement(nm.body, |nm.nodeNames|);
    forall t: Tensor | ValidTensor(g, t)
      ensures Renamed(g, nm', m', t)
    {
      assert Renamed(g, nm, m, t);
      if t.node == n0 {
        assert OutputAdded(node.name, name, node.op.outputs, t.index, m, m');
      } else if FlatOf(g, t) in m' && FlatOf(g, t) !in m {
        var i: nat :| i < NumOutputs(node.op) && FlatOf(g, t) == Flat(node.name, i);
        FlatInjective(g, t, Tensor(n0, i));
      }
    }
  }

  // ----- the signature

  /** The first outputs have the names args. */
  ghost predicate OutputsNamed(g: Graph, outputs: seq<Tensor>, given: seq<string>, args: seq<string>, used: set<string>)
    requires forall i :: 0 <= i < |outputs| ==> ValidTensor(g, outputs[i])
  {
    && |args| <= |outputs| && (given == [] || |given| == |outputs|)
    && used == Elements(args) && PickedOutputs(g, outputs, given, args)
    && (given != [] ==> args == given[..|args|] && Distinct(args))
  }

  /** The same, without regard to how the names are made up. */
  ghost predicate NamedOutputs(g: Graph, outputs: seq<Tensor>, given: seq<string>, args: seq<string>, used: set<string>)
    requires forall i :: 0 <= i < |outputs| ==> ValidTensor(g, outputs[i])
  {
    forall names: seq<string> :: names == args ==> OutputsNamed(g, outputs, given, names, used)
  }

  lemma AllOutputsNamed(g: Graph, outputs: seq<Tensor>, given: seq<string>, args: seq<string>, used: set<string>)
    requires forall i :: 0 <= i < |outputs| ==> ValidTensor(g, outputs[i])
    requires NamedOutputs(g, outputs, given, args, used) && |args| == |outputs|
    ensures given == [] || |given| == |outputs|
    ensures Distinct(given) && used == Elements(args) && PickedOutputs(g, outputs, given, args)
  {
    assert OutputsNamed(g, outputs, given, args, used);
    assert given != [] ==> given[..|args|] == given;
  }

  /** Picks the names of the outputs. Fails if the given names repeat. */
  method NameOutputs(g: Graph, outputs: seq<Tensor>, given: seq<string>, names: NodeNameMapping)
    returns (r: Result<seq<string>>)
    requires given == [] || |given| == |outputs|
    requires forall i :: 0 <= i < |outputs| ==> ValidTensor(g, outputs[i])
    requires names.Valid() && names.usedNames == {}
    modifies names`usedNames
    ensures names.Valid()
    ensures r == Err(DuplicateOutputName) || r.Ok?
    ensures r.Ok? <==> Distinct(given)
    ensures r.Ok? ==> |r.value| == |outputs| && names.usedNames == Elements(r.value)
    ensures r.Ok? ==> PickedOutputs(g, outputs, given, r.value)
  {
    var args: seq<string> := [];
    for i := 0 to |outputs|
      invariant names.Valid() && |args| == i
      invariant NamedOutputs(g, outputs, given, args, names.usedNames)
    {
      var ok, name := NameOutput(g, outputs, given, args, names);
      if !ok {
        return Err(DuplicateOutputName);
      }
      args := args + [name];
    }
    AllOutputsNamed(g, outputs, given, args, names.usedNames);
    r := Ok(args);
  }

  /** Picks the name of the next output. */
  method NameOutput(g: Graph, outputs: seq<Tensor>, given: seq<string>, args: seq<string>, names: NodeNameMapping)
    returns (ok: bool, name: string)
    requires |args| < |outputs| && forall i :: 0 <= i < |outputs| ==> ValidTensor(g, outputs[i])
    requires names.Valid() && NamedOutputs(g, outputs, given, args, names.usedNames)
    modifies names`usedNames
    ensures names.Valid()
    ensures !ok ==> !Distinct(given)
    ensures ok ==> NamedOutputs(g, outputs, given, args + [name], names.usedNames)
  {
    var i := |args|;
    assert OutputsNamed(g, outputs, given, args, names.usedNames);
    if given != [] {
      ok := names.UseOutputName(given[i]);
      name := given[i];
      if !ok {
        assert given[i] in given[..i];
        return;
      }
    } else {
      name := names.GetOutputName(g[outputs[i].node].name);
      ok := true;
    }
    ElementsAppend(args, name);
    PickedNext(g, outputs, given, args, name);
  }

  lemma PickedNext(g: Graph, outputs: seq<Tensor>, given: seq<string>, args: seq<string>, name: string)
    requires |args| < |outputs| && (given == [] || |given| == |outputs|)
    requires forall i :: 0 <= i < |outputs| ==> ValidTensor(g, outputs[i])
    requires PickedOutputs(g, outputs, given, args) && name !in args
    requires if given != [] then name == given[|args|]
      else PickedArg(g[outputs[|args|].node].name, Elements(args), name)
    ensures PickedOutputs(g, outputs, given, args + [name])
  {
    assert (args + [name])[..|args|] == args;
  }

  /** The inputs up to |nm.args| are named, renamed and mapped. */
  ghost predicate InputsNamed(g: Graph, nm: Naming, before: set<string>, used: set<string>,
                              mapping: map<string, string>, renaming: map<string, string>)
    requires ValidGraph(g) && ValidNaming(g, nm)
  {
    && nm.nodeNames == []
    && used == before + Elements(nm.args)
    && PickedInputs(g, nm.inputs, before, nm.args)
    && TensorsRenamed(g, nm, renaming)
    && NodesMapped(g, nm, mapping)
  }

  lemma InputNamedNext(g: Graph, nm: Naming, before: set<string>, used: set<string>,
                       mapping: map<string, string>, renaming: map<string, string>, a: string)
    requires ValidGraph(g) && ValidNaming(g, nm) && |nm.args| < |nm.inputs|
    requires InputsNamed(g, nm, before, used, mapping, renaming)
    requires PickedArg(g[nm.inputs[|nm.args|].node].name, used, a)
    ensures var t := nm.inputs[|nm.args|];
            InputsNamed(g, nm.(args := nm.args + [a]), before, used + {a},
                        mapping[g[t.node].name := a], renaming[FlatOf(g, t) := a])
  {
    InputNamed(g, nm, renaming, a);
    InputMapped(g, nm, mapping, a);
    ElementsAppend(nm.args, a);
    PickedInputsNext(g, nm.inputs, before, nm.args, a);
  }

  lemma PickedInputsNext(g: Graph, inputs: seq<Tensor>, before: set<string>, args: seq<string>, a: string)
    requires |args| < |inputs| && forall i :: 0 <= i < |inputs| ==> ValidTensor(g, inputs[i])
    requires PickedInputs(g, inputs, before, args)
    requires PickedArg(g[inputs[|args|].node].name, before + Elements(args), a)
    ensures PickedInputs(g, inputs, before, args + [a])
  {
    assert (args + [a])[..|args|] == args;
  }

  /** Picks the names of the inputs and starts the tensor renaming. */
  method NameInputs(g: Graph, ghost nm: Naming, inputs: seq<Tensor>, names: NodeNameMapping)
    returns (args: seq<string>, renaming: map<string, string>)
    requires ValidGraph(g) && ValidNaming(g, nm) && nm.inputs == inputs && nm.args == [] && nm.nodeNames == []
    requires names.Valid() && names.nameMapping == map[]
    modifies names
    ensures names.Valid() && |args| == |inputs|
    ensures InputsNamed(g, nm.(args := args), old(names.usedNames), names.usedNames, names.nameMapping, renaming)
  {
    args, renaming := [], map[];
    for i := 0 to |inputs|
      invariant names.Valid() && |args| == i
      invariant InputsNamed(g, nm.(args := args), old(names.usedNames), names.usedNames, names.nameMapping, renaming)
    {
      label Before:
      var name := names.GetInputName(g[inputs[i].node].name);
      assert PickedArg(g[inputs[i].node].name, old@Before(names.usedNames), name);
      InputNamedNext(g, nm.(args := args), old(names.usedNames), old@Before(names.usedNames),
                     old@Before(names.nameMapping), renaming, name);
      renaming := renaming[Flat(g[inputs[i].node].name, inputs[i].index) := name];
      args := args + [name];
    }
  }

  // ----- the names of the body

  lemma OutputAddedNext(node: string, name: string, outputs: seq<OutputArg>, n: nat, a: nat,
                        m: map<string, string>, m': map<string, string>, m'': map<string, string>)
    requires a < |outputs| && Start(outputs, a) <= n < Start(outputs, a + 1)
    requires OutputsAdded(node, name, outputs, n, m, m')
    requires m'' == if Flat(node, n) in m' then m'
                    else m'[Flat(node, n) := name + ":" + outputs[a].name + ":" + Decimal(n - Start(outputs, a))]
    ensures OutputsAdded(node, name, outputs, n + 1, m, m'')
  {
    LocalUnique(outputs, n, a);
    forall i: nat | i < n + 1
      ensures OutputAdded(node, name, outputs, i, m, m'')
    {
      if i < n {
        assert OutputAdded(node, name, outputs, i, m, m');
      } else if Flat(node, n) in m' && Flat(node, n) !in m {
        var k: nat :| k < n && Flat(node, n) == Flat(node, k);
        FlatIndexInjective(node, n, k);
      }
    }
  }

  lemma FlatIndexInjective(name: string, i: nat, k: nat)
    requires Flat(name, i) == Flat(name, k)
    ensures i == k
  {
    assert Flat(name, i)[|name| + 1..] == Decimal(i);
    assert Flat(name, k)[|name| + 1..] == Decimal(k);
    DecimalInjective(i, k);
  }

  /** Adds the outputs of a node that are not yet in the renaming. */
  method AddOutputs(node: string, name: string, outputs: seq<OutputArg>, renaming: map<string, string>)
    returns (r: map<string, string>)
    ensures OutputsAdded(node, name, outputs, Start(outputs, |outputs|), renaming, r)
  {
    r := renaming;
    var start := 0;
    for a := 0 to |outputs|
      invariant start == Start(outputs, a)
      invariant OutputsAdded(node, name, outputs, start, renaming, r)
    {
      r := AddArg(node, name, outputs, a, start, renaming, r);
      start := start + outputs[a].count;
    }
  }

  method AddArg(node: string, name: string, outputs: seq<OutputArg>, a: nat, start: nat,
                ghost before: map<string, string>, renaming: map<string, string>)
    returns (r: map<string, string>)
    requires a < |outputs| && start == Start(outputs, a)
    requires OutputsAdded(node, name, outputs, start, before, renaming)
    ensures OutputsAdded(node, name, outputs, Start(outputs, a + 1), before, r)
  {
    r := renaming;
    StartMonotone(outputs, a + 1, |outputs|);
    for i := start to start + outputs[a].count
      invariant OutputsAdded(node, name, outputs, i, before, r)
    {
      var original := Flat(node, i);
      ghost var old_r := r;
      if original !in r {
        r := r[original := name + ":" + outputs[a].name + ":" + Decimal(i - start)];
      }
      OutputAddedNext(node, name, outputs, i, a, before, old_r, r);
    }
  }

  /** All inputs and the body nodes up to |nm.nodeNames| are named, renamed and mapped. */
  ghost predicate BodyNamed(g: Graph, nm: Naming, before: set<string>, used: set<string>,
                            mapping: map<string, string>, renaming: map<string, string>)
    requires ValidGraph(g) && ValidNaming(g, nm)
  {
    && |nm.args| == |nm.inputs|
    && used == before + Elements(nm.nodeNames)
    && PickedNodes(g, nm.body, before, nm.nodeNames)
    && TensorsRenamed(g, nm, renaming)
    && NodesMapped(g, nm, mapping)
  }

  lemma BodyNamedNext(g: Graph, nm: Naming, before: set<string>, used: set<string>, mapping: map<string, string>,
                      renaming: map<string, string>, renaming': map<string, string>, name: string)
    requires ValidGraph(g) && ValidNaming(g, nm) && |nm.nodeNames| < |nm.body|
    requires BodyNamed(g, nm, before, used, mapping, renaming)
    requires var node := g[nm.body[|nm.nodeNames|]];
             && IsUniqueOf(used, node.name, name)
             && OutputsAdded(node.name, name, node.op.outputs, NumOutputs(node.op), renaming, renaming')
    ensures BodyNamed(g, nm.(nodeNames := nm.nodeNames + [name]), before, used + {name},
                      mapping[g[nm.body[|nm.nodeNames|]].name := name], renaming')
  {
    BodyMapped(g, nm, mapping, name);
    BodyRenamed(g, nm, renaming, renaming', name);
    ElementsAppend(nm.nodeNames, name);
    assert (nm.nodeNames + [name])[..|nm.nodeNames|] == nm.nodeNames;
  }

  /** Picks the names of the body nodes and completes the tensor renaming. */
  method NameBody(g: Graph, ghost nm: Naming, body: seq<nat>, names: NodeNameMapping, renaming0: map<string, string>)
    returns (renaming: map<string, string>, ghost nodeNames: seq<string>)
    requires ValidGraph(g) && ValidNaming(g, nm) && nm.body == body && nm.nodeNames == []
    requires names.Valid() && BodyNamed(g, nm, names.usedNames, names.usedNames, names.nameMapping, renaming0)
    modifies names
    ensures names.Valid() && |nodeNames| == |body|
    ensures BodyNamed(g, nm.(nodeNames := nodeNames), old(names.usedNames), names.usedNames, names.nameMapping,
      renaming)
  {
    renaming, nodeNames := renaming0, [];
    for j := 0 to |body|
      invariant names.Valid() && |nodeNames| == j
      invariant BodyNamed(g, nm.(nodeNames := nodeNames), old(names.usedNames), names.usedNames,
                          names.nameMapping, renaming)
    {
      label Before:
      ghost var before := renaming;
      var node := g[body[j]];
      var name := names.Uniquify(node.name);
      renaming := AddOutputs(node.name, name, node.op.outputs, renaming);
      BodyNamedNext(g, nm.(nodeNames := nodeNames), old(names.usedNames), old@Before(names.usedNames),
                    old@Before(names.nameMapping), before, renaming, name);
      nodeNames := nodeNames + [name];
    }
  }

  // ----- the body

  lemma EdgesNext(edges: seq<Edge>, i: nat, k: int)
    requires i < |edges|
    ensures Controls(edges[..i + 1]) ==
      Controls(edges[..i]) + if edges[i].src != SOURCE && IsControl(edges[i]) then [edges[i].src] else []
    ensures DataEdge(edges[..i + 1], k) == if BringsData(edges[i], k) then Some(edges[i]) else DataEdge(edges[..i], k)
  {
    assert edges[..i + 1] == edges[..i] + [edges[i]];
    DataEdgeNext(edges[..i], edges[i], k);
  }

  /** Sorts the edges that end at a node into data edges, by input, and control edges. */
  method CollectEdges(node: Node) returns (inEdges: seq<Option<Edge>>, controls: seq<nat>)
    requires forall i :: 0 <= i < |node.inEdges| ==> EndsAtInput(node, node.inEdges[i])
    ensures |inEdges| == node.op.numInputs
    ensures forall k :: 0 <= k < |inEdges| ==> inEdges[k] == DataEdge(node.inEdges, k)
    ensures controls == Controls(node.inEdges)
    ensures forall k :: 0 <= k < |inEdges| ==> IsDataInput(node.inEdges, k, inEdges[k])
    ensures exists indices :: Selects(node.inEdges, indices, controls)
  {
    var edges := node.inEdges;
    inEdges := seq(node.op.numInputs, _ => None);
    controls := [];
    for i := 0 to |edges|
      invariant |inEdges| == node.op.numInputs
      invariant forall k :: 0 <= k < |inEdges| ==> inEdges[k] == DataEdge(edges[..i], k)
      invariant controls == Controls(edges[..i])
    {
      var e := edges[i];
      ghost var before := inEdges;
      EdgesNext(edges, i, e.dstInput);
      if e.src != SOURCE {
        if IsControl(e) {
          controls := controls + [e.src];
        } else {
          assert EndsAtInput(node, e);
          inEdges := inEdges[e.dstInput := Some(e)];
        }
      }
      forall k | 0 <= k < |inEdges|
        ensures inEdges[k] == DataEdge(edges[..i + 1], k)
      {
        EdgesNext(edges, i, k);
        assert inEdges[k] == if BringsData(e, k) then Some(e) else before[k];
      }
    }
    assert edges[..|edges|] == edges;
    forall k | 0 <= k < |inEdges|
      ensures IsDataInput(edges, k, inEdges[k])
    {
      DataEdgeIsLast(edges, k, inEdges[k]);
    }
    ghost var indices := ControlsAreSelected(edges);
  }

  /** Input k is the first that has no reference, because it has no edge or else because its source is not available. */
  ghost predicate FirstMissing(g: Graph, nm: Naming, n: nat, k: int, noEdge: bool, error: Error)
    requires ValidGraph(g) && n < |g|
  {
    && InputRef(g, nm, n, k).None? && (forall i :: 0 <= i < k ==> InputRef(g, nm, n, i).Some?)
    && error == if noEdge then MissingInputEdge else InputNotAvailable
  }

  /** Renames the data inputs of a node. Fails if one has no edge or is not available. */
  method DataInputs(g: Graph, ghost nm: Naming, n: nat, inEdges: seq<Option<Edge>>, renaming: map<string, string>)
    returns (r: Result<seq<string>>)
    requires ValidGraph(g) && n < |g| && TensorsRenamed(g, nm, renaming)
    requires forall k :: 0 <= k < |inEdges| ==> inEdges[k] == DataEdge(g[n].inEdges, k)
    ensures r.Ok? || r == Err(MissingInputEdge) || r == Err(InputNotAvailable)
    ensures r.Ok? <==> forall k :: 0 <= k < |inEdges| ==> InputRef(g, nm, n, k).Some?
    ensures r.Err? ==> exists k :: 0 <= k < |inEdges| && FirstMissing(g, nm, n, k, inEdges[k].None?, r.error)
    ensures r.Ok? ==>
      |r.value| == |inEdges| && forall k :: 0 <= k < |inEdges| ==> InputRef(g, nm, n, k) == Some(r.value[k])
  {
    var inputs: seq<string> := [];
    for k := 0 to |inEdges|
      invariant |inputs| == k
      invariant forall i :: 0 <= i < k ==> InputRef(g, nm, n, i) == Some(inputs[i])
    {
      if inEdges[k].None? {
        assert FirstMissing(g, nm, n, k, true, MissingInputEdge);
        return Err(MissingInputEdge);
      }
      var e := inEdges[k].value;
      assert ValidNode(g, g[n]);
      assert ValidEdge(g, e);
      assert Renamed(g, nm, renaming, TensorOf(e));
      var original := Flat(g[e.src].name, e.srcOutput);
      if original !in renaming {
        assert FirstMissing(g, nm, n, k, false, InputNotAvailable);
        return Err(InputNotAvailable);
      }
      inputs := inputs + [renaming[original]];
    }
    r := Ok(inputs);
  }

  /** Renames the control inputs. Fails if a source has no name. */
  method ControlInputs(g: Graph, ghost nm: Naming, controls: seq<nat>, names: NodeNameMapping)
    returns (r: Result<seq<string>>)
    requires ValidGraph(g) && |nm.args| <= |nm.inputs| && forall c :: 0 <= c < |controls| ==> controls[c] < |g|
    requires names.Valid() && NodesMapped(g, nm, names.nameMapping)
    ensures r.Ok? || r == Err(ControlSourceNotInBody)
    ensures r.Ok? <==> forall c :: 0 <= c < |controls| ==> NameOf(nm, controls[c]).Some?
    ensures r.Ok? ==>
      |r.value| == |controls| && forall c :: 0 <= c < |controls| ==> ControlConverted(nm, controls[c], r.value[c])
  {
    var inputs: seq<string> := [];
    for c := 0 to |controls|
      invariant |inputs| == c
      invariant forall i :: 0 <= i < c ==> ControlConverted(nm, controls[i], inputs[i])
    {
      assert Mapped(g, nm, names.nameMapping, controls[c]);
      var normalized := names.Lookup(g[controls[c]].name);
      if normalized == "" {
        assert NameOf(nm, controls[c]).None?;
        return Err(ControlSourceNotInBody);
      }
      inputs := inputs + ["^" + normalized];
    }
    r := Ok(inputs);
  }

  lemma {:induction false} ControlsInGraph(g: Graph, edges: seq<Edge>)
    requires forall i :: 0 <= i < |edges| ==> ValidEdge(g, edges[i])
    ensures forall c :: 0 <= c < |Controls(edges)| ==> Controls(edges)[c] < |g|
  {
    if edges != [] {
      ControlsInGraph(g, edges[..|edges| - 1]);
    }
  }

  /** What the node needs has a reference. */
  ghost predicate NodeReferable(g: Graph, nm: Naming, n: nat)
    requires ValidGraph(g) && n < |g| && |nm.args| <= |nm.inputs|
  {
    && (forall k :: 0 <= k < g[n].op.numInputs ==> InputRef(g, nm, n, k).Some?)
    && (forall c :: 0 <= c < |Controls(g[n].inEdges)| ==> NameOf(nm, Controls(g[n].inEdges)[c]).Some?)
  }

  method ConvertNode(g: Graph, ghost nm: Naming, n: nat, names: NodeNameMapping, renaming: map<string, string>)
    returns (r: Result<NodeDef>)
    requires ValidGraph(g) && n < |g| && |nm.args| <= |nm.inputs| && NameOf(nm, n).Some?
    requires names.Valid() && NodesMapped(g, nm, names.nameMapping) && TensorsRenamed(g, nm, renaming)
    ensures r.Ok? || r.error in {MissingInputEdge, InputNotAvailable, ControlSourceNotInBody}
    ensures r.Ok? <==> NodeReferable(g, nm, n)
    ensures r.Ok? ==> NodeConverted(g, nm, n, r.value)
  {
    var node := g[n];
    assert ValidNode(g, node);
    ControlsInGraph(g, node.inEdges);
    assert Mapped(g, nm, names.nameMapping, n);
    var device := if node.assignedDevice != "" then node.assignedDevice else node.device;
    var name := names.Lookup(node.name);
    var inEdges, controls := CollectEdges(node);
    var data := DataInputs(g, nm, n, inEdges, renaming);
    if data.Err? {
      return Err(data.error);
    }
    var deps := ControlInputs(g, nm, controls, names);
    if deps.Err? {
      return Err(deps.error);
    }
    r := Ok(NodeDef(name, node.op, node.attrs, device, data.value + deps.value));
  }

  /** A node before j is stateful. */
  ghost predicate StatefulBefore(g: Graph, body: seq<nat>, j: nat)
    requires j <= |body| && forall i :: 0 <= i < |body| ==> body[i] < |g|
  {
    exists i :: 0 <= i < j && g[body[i]].op.stateful
  }

  lemma StatefulNext(g: Graph, body: seq<nat>, j: nat)
    requires j < |body| && forall i :: 0 <= i < |body| ==> body[i] < |g|
    ensures StatefulBefore(g, body, j + 1) <==> StatefulBefore(g, body, j) || g[body[j]].op.stateful
  {
  }

  /** The nodes before j have been converted. */
  ghost predicate ConvertedBefore(g: Graph, nm: Naming, defs: seq<NodeDef>, j: nat)
    requires ValidGraph(g) && ValidNaming(g, nm) && j <= |nm.body|
  {
    |defs| == j && forall i :: 0 <= i < j ==>
      NodeReferable(g, nm, nm.body[i]) && NodeConverted(g, nm, nm.body[i], defs[i])
  }

  lemma ConvertedNext(g: Graph, nm: Naming, defs: seq<NodeDef>, j: nat, def: NodeDef)
    requires ValidGraph(g) && ValidNaming(g, nm) && j < |nm.body| && ConvertedBefore(g, nm, defs, j)
    requires NodeReferable(g, nm, nm.body[j]) && NodeConverted(g, nm, nm.body[j], def)
    ensures ConvertedBefore(g, nm, defs + [def], j + 1)
  {
    forall i | 0 <= i < j + 1
      ensures NodeReferable(g, nm, nm.body[i]) && NodeConverted(g, nm, nm.body[i], (defs + [def])[i])
    {
    }
  }

  /** Converts the body nodes in order, up to the first that cannot be converted. */
  method FillFunctionBody(g: Graph, ghost nm: Naming, body: seq<nat>, names: NodeNameMapping,
                          renaming: map<string, string>)
    returns (r: Result<seq<NodeDef>>, stateful: bool)
    requires ValidGraph(g) && ValidNaming(g, nm) && nm.body == body && |nm.nodeNames| == |body|
    requires names.Valid() && NodesMapped(g, nm, names.nameMapping) && TensorsRenamed(g, nm, renaming)
    ensures r.Ok? || r.error in {MissingInputEdge, InputNotAvailable, ControlSourceNotInBody}
    ensures r.Ok? <==> forall j :: 0 <= j < |body| ==> NodeReferable(g, nm, body[j])
    ensures r.Ok? ==> ConvertedBefore(g, nm, r.value, |body|)
    ensures r.Ok? ==> stateful == StatefulBefore(g, body, |body|)
  {
    var defs: seq<NodeDef> := [];
    stateful := false;
    for j := 0 to |body|
      invariant ConvertedBefore(g, nm, defs, j)
      invariant stateful == StatefulBefore(g, body, j)
    {
      IndexOfElement(nm.body, j);
      var def := ConvertNode(g, nm, body[j], names, renaming);
      if def.Err? {
        return Err(def.error), stateful;
      }
      StatefulNext(g, body, j);
      ConvertedNext(g, nm, defs, j, def.value);
      defs := defs + [def.value];
      if g[body[j]].op.stateful {
        stateful := true;
      }
    }
    r := Ok(defs);
  }

  /** Maps the output arguments to the references of the outputs. */
  method FillReturns(g: Graph, ghost nm: Naming, outputs: seq<Tensor>, args: seq<string>, renaming: map<string, string>)
    returns (r: Result<map<string, string>>)
    requires ValidGraph(g) && |args| == |outputs| && Distinct(args) && TensorsRenamed(g, nm, renaming)
    requires forall i :: 0 <= i < |outputs| ==> ValidTensor(g, outputs[i])
    ensures r.Ok? || r == Err(OutputNotAvailable)
    ensures r.Ok? <==> forall i :: 0 <= i < |outputs| ==> RefOf(g, nm, outputs[i]).Some?
    ensures r.Ok? ==> r.value.Keys == Elements(args)
    ensures r.Ok? ==> forall i :: 0 <= i < |outputs| ==> Returned(g, nm, outputs[i], args[i], r.value)
  {
    var ret: map<string, string> := map[];
    for i := 0 to |outputs|
      invariant ret.Keys == Elements(args[..i])
      invariant forall k :: 0 <= k < i ==> Returned(g, nm, outputs[k], args[k], ret)
    {
      assert Renamed(g, nm, renaming, outputs[i]);
      var original := Flat(g[outputs[i].node].name, outputs[i].index);
      if original !in renaming {
        return Err(OutputNotAvailable);
      }
      ElementsAppend(args[..i], args[i]);
      assert args[..i + 1] == args[..i] + [args[i]];
      ret := ret[args[i] := renaming[original]];
    }
    assert args[..|outputs|] == args;
    r := Ok(ret);
  }
}
