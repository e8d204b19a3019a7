/** The conversion as a whole, from the caller's arguments to the function definition. */
module GraphToFunction {
  import opened Wrappers
  import opened NodeNames
  import opened FunctionGraph
  import opened FunctionConversion

  // ----- when everything has a name

  lemma {:induction false} LastArgExists(inputs: seq<Tensor>, args: seq<string>, n: nat)
    requires |args| <= |inputs|
    ensures LastArg(inputs, args, n).Some? <==> HasInputBefore(inputs, |args|, n)
  {
    if args != [] {
      LastArgExists(inputs, args[..|args| - 1], n);
    }
  }

  /** Once all names are picked, a node can be converted if and only if what it needs is available. */
  lemma ReferableIffClosed(g: Graph, nm: Naming, n: nat)
    requires ValidGraph(g) && n < |g| && |nm.args| == |nm.inputs| && |nm.nodeNames| == |nm.body|
    ensures NodeReferable(g, nm, n) <==> Closed(nm.inputs, nm.body, g[n])
  {
    forall k | 0 <= k < g[n].op.numInputs
      ensures InputRef(g, nm, n, k).Some? <==> InputAvailable(nm.inputs, nm.body, g[n], k)
    {
    }
    forall c | 0 <= c < |Controls(g[n].inEdges)|
      ensures var m := Controls(g[n].inEdges)[c]; NameOf(nm, m).Some? <==> Known(nm.inputs, nm.body, m)
    {
      LastArgExists(nm.inputs, nm.args, Controls(g[n].inEdges)[c]);
    }
  }

  lemma {:induction false} OutputNamesDiffer(g: Graph, outputs: seq<Tensor>, given: seq<string>, names: seq<string>)
    requires |names| <= |outputs| && (given == [] || |given| == |outputs|)
    requires forall i :: 0 <= i < |outputs| ==> ValidTensor(g, outputs[i])
    requires PickedOutputs(g, outputs, given, names)
    ensures Distinct(names)
  {
    if names != [] {
      var before := names[..|names| - 1];
      OutputNamesDiffer(g, outputs, given, before);
      assert forall i :: 0 <= i < |before| ==> names[i] == before[i];
    }
  }

  // ----- the conversion

  ghost predicate BodyReferable(g: Graph, nm: Naming)
    requires ValidGraph(g) && ValidNaming(g, nm)
  {
    forall j :: 0 <= j < |nm.body| ==> NodeReferable(g, nm, nm.body[j])
  }

  predicate OutputsReferable(g: Graph, nm: Naming, outputs: seq<Tensor>)
    requires forall i :: 0 <= i < |outputs| ==> ValidTensor(g, outputs[i])
  {
    forall i :: 0 <= i < |outputs| ==> RefOf(g, nm, outputs[i]).Some?
  }

  lemma ReferableIffConvertible(g: Graph, nm: Naming, outputs: seq<Tensor>, given: seq<string>)
    requires ValidGraph(g) && ValidNaming(g, nm) && |nm.args| == |nm.inputs| && |nm.nodeNames| == |nm.body|
    requires forall i :: 0 <= i < |outputs| ==> ValidTensor(g, outputs[i])
    requires Distinct(given)
    ensures BodyReferable(g, nm) <==> BodyClosed(g, nm.inputs, nm.body)
    ensures BodyReferable(g, nm) && OutputsReferable(g, nm, outputs) <==>
      Convertible(g, nm.inputs, nm.body, outputs, given)
  {
    forall j | 0 <= j < |nm.body|
      ensures NodeReferable(g, nm, nm.body[j]) <==> Closed(nm.inputs, nm.body, g[nm.body[j]])
    {
      ReferableIffClosed(g, nm, nm.body[j]);
    }
    forall i | 0 <= i < |outputs|
      ensures RefOf(g, nm, outputs[i]).Some? <==> Available(nm.inputs, nm.body, outputs[i])
    {
    }
  }

  /** All names are picked: first those of the outputs, then those of the inputs, then those of the body. */
  ghost predicate AllPicked(g: Graph, nm: Naming, outputs: seq<Tensor>, given: seq<string>, outputArgs: seq<string>)
    requires ValidGraph(g) && ValidNaming(g, nm) && (given == [] || |given| == |outputs|)
    requires forall i :: 0 <= i < |outputs| ==> ValidTensor(g, outputs[i])
  {
    && |outputArgs| == |outputs| && |nm.args| == |nm.inputs| && |nm.nodeNames| == |nm.body|
    && PickedOutputs(g, outputs, given, outputArgs)
    && PickedInputs(g, nm.inputs, Elements(outputArgs), nm.args)
    && PickedNodes(g, nm.body, Elements(outputArgs) + Elements(nm.args), nm.nodeNames)
  }

  /** Picks the names of the inputs and the body. */
  method NameNodes(g: Graph, ghost nm0: Naming, inputs: seq<Tensor>, body: seq<nat>, outputs: seq<Tensor>,
                   given: seq<string>, outputArgs: seq<string>, names: NodeNameMapping)
    returns (inputArgs: seq<string>, renaming: map<string, string>, ghost nm: Naming)
    requires ValidGraph(g) && ValidNaming(g, nm0) && nm0 == Naming(inputs, [], body, [])
    requires given == [] || |given| == |outputs|
    requires forall i :: 0 <= i < |outputs| ==> ValidTensor(g, outputs[i])
    requires |outputArgs| == |outputs| && PickedOutputs(g, outputs, given, outputArgs)
    requires names.Valid() && names.nameMapping == map[] && names.usedNames == Elements(outputArgs)
    modifies names
    ensures names.Valid() && nm.inputs == inputs && nm.body == body && nm.args == inputArgs
    ensures ValidNaming(g, nm) && AllPicked(g, nm, outputs, given, outputArgs)
    ensures TensorsRenamed(g, nm, renaming) && NodesMapped(g, nm, names.nameMapping)
  {
    inputArgs, renaming := NameInputs(g, nm0, inputs, names);
    ghost var nodeNames;
    renaming, nodeNames := NameBody(g, nm0.(args := inputArgs), body, names, renaming);
    nm := nm0.(args := inputArgs, nodeNames := nodeNames);
  }

  /** Converts the body once all names are picked. */
  method FillFunction(g: Graph, ghost nm: Naming, name: string, body: seq<nat>, outputs: seq<Tensor>,
                      ghost given: seq<string>, inputArgs: seq<string>, outputArgs: seq<string>,
                      names: NodeNameMapping, renaming: map<string, string>)
    returns (r: Result<FunctionDef>)
    requires ValidGraph(g) && ValidNaming(g, nm) && nm.body == body && nm.args == inputArgs
    requires given == [] || |given| == |outputs|
    requires forall i :: 0 <= i < |outputs| ==> ValidTensor(g, outputs[i])
    requires AllPicked(g, nm, outputs, given, outputArgs) && Distinct(outputArgs)
    requires names.Valid() && TensorsRenamed(g, nm, renaming) && NodesMapped(g, nm, names.nameMapping)
    ensures r.Ok? || r == Err(OutputNotAvailable) ||
      r.error in {MissingInputEdge, InputNotAvailable, ControlSourceNotInBody}
    ensures r.Ok? <==> BodyReferable(g, nm) && OutputsReferable(g, nm, outputs)
    ensures r.Ok? ==> r.value.name == name && Converted(g, nm.inputs, body, outputs, given, r.value)
    ensures r.Err? ==> (r == Err(OutputNotAvailable) <==> BodyReferable(g, nm))
  {
    var defs, stateful := FillFunctionBody(g, nm, body, names, renaming);
    if defs.Err? {
      return Err(defs.error);
    }
    var ret := FillReturns(g, nm, outputs, outputArgs, renaming);
    if ret.Err? {
      return Err(ret.error);
    }
    var fdef := FunctionDef(name, inputArgs, outputArgs, defs.value, ret.value, stateful);
    FilledIsConverted(g, nm, outputs, given, fdef);
    r := Ok(fdef);
  }

  lemma FilledIsConverted(g: Graph, nm: Naming, outputs: seq<Tensor>, given: seq<string>, fdef: FunctionDef)
    requires ValidGraph(g) && ValidNaming(g, nm) && nm.args == fdef.inputArgs
    requires given == [] || |given| == |outputs|
    requires forall i :: 0 <= i < |outputs| ==> ValidTensor(g, outputs[i])
    requires AllPicked(g, nm, outputs, given, fdef.outputArgs)
    requires ConvertedBefore(g, nm, fdef.nodes, |nm.body|)
    requires fdef.stateful == StatefulBefore(g, nm.body, |nm.body|)
    requires fdef.ret.Keys == Elements(fdef.outputArgs)
    requires forall i :: 0 <= i < |outputs| ==> Returned(g, nm, outputs[i], fdef.outputArgs[i], fdef.ret)
    ensures Converted(g, nm.inputs, nm.body, outputs, given, fdef)
  {
    NamesOfDefs(g, nm, fdef);
  }

  /** Converts the body; succeeds if and only if it is closed and the given output names differ. */
  method GraphToFunctionDef(g: Graph, name: string, body: seq<nat>, inputs: seq<Tensor>, outputs: seq<Tensor>,
                            given: seq<string>)
    returns (r: Result<FunctionDef>)
    requires ValidGraph(g) && ValidNaming(g, Naming(inputs, [], body, []))
    requires given == [] || |given| == |outputs|
    requires forall i :: 0 <= i < |outputs| ==> ValidTensor(g, outputs[i])
    ensures r.Ok? <==> Convertible(g, inputs, body, outputs, given)
    ensures r.Ok? ==> r.value.name == name && Converted(g, inputs, body, outputs, given, r.value)
    ensures r == Err(DuplicateOutputName) <==> !Distinct(given)
    ensures r.Err? && Distinct(given) ==> (r == Err(OutputNotAvailable) <==> BodyClosed(g, inputs, body))
    ensures r.Ok? || r in {Err(DuplicateOutputName), Err(OutputNotAvailable)} ||
      r.error in {MissingInputEdge, InputNotAvailable, ControlSourceNotInBody}
  {
    var names := new NodeNameMapping();
    var outputArgs := NameOutputs(g, outputs, given, names);
    if outputArgs.Err? {
      return Err(outputArgs.error);
    }
    OutputNamesDiffer(g, outputs, given, outputArgs.value);
    var inputArgs, renaming;
    ghost var nm;
    inputArgs, renaming, nm := NameNodes(g, Naming(inputs, [], body, []), inputs, body, outputs, given,
      outputArgs.value, names);
    ReferableIffConvertible(g, nm, outputs, given);
    r := FillFunction(g, nm, name, body, outputs, given, inputArgs, outputArgs.value, names, renaming);
  }

  lemma NamesOfDefs(g: Graph, nm: Naming, fdef: FunctionDef)
    requires ValidGraph(g) && ValidNaming(g, nm) && nm.args == fdef.inputArgs && |nm.nodeNames| == |nm.body|
    requires ConvertedBefore(g, nm, fdef.nodes, |nm.body|)
    ensures NamingOf(nm.inputs, nm.body, fdef) == nm
  {
    forall j | 0 <= j < |nm.body|
      ensures fdef.nodes[j].name == nm.nodeNames[j]
    {
      assert NodeConverted(g, nm, nm.body[j], fdef.nodes[j]);
      IndexOfElement(nm.body, j);
    }
    assert NamingOf(nm.inputs, nm.body, fdef).nodeNames == nm.nodeNames;
  }

  // ----- the caller's arguments

  predicate ValidArgument(g: Graph, t: Tensor) {
    ValidTensor(g, t) && !IsRef(g, t)
  }

  /** The nodes that inputs belong to are the keys. */
  ghost predicate NodesOfInputs(inputs: seq<Tensor>, nodes: map<nat, seq<int>>) {
    forall n: nat :: n in nodes <==> HasInput(inputs, n)
  }

  predicate Recorded(nodes: map<nat, seq<int>>, t: Tensor) {
    t.node in nodes && t.index in nodes[t.node]
  }

  /** Records an input. Fails if it is there already. */
  method RecordInput(nodes: map<nat, seq<int>>, t: Tensor) returns (r: Option<map<nat, seq<int>>>)
    ensures r.None? <==> Recorded(nodes, t)
    ensures r.Some? ==> r.value.Keys == nodes.Keys + {t.node}
    ensures r.Some? ==> forall u: Tensor :: Recorded(r.value, u) <==> u == t || Recorded(nodes, u)
  {
    if t.node !in nodes {
      r := Some(nodes[t.node := [t.index]]);
    } else if t.index in nodes[t.node] {
      r := None;
    } else {
      r := Some(nodes[t.node := nodes[t.node] + [t.index]]);
    }
  }

  /** The first i inputs differ, and they are what is recorded. */
  ghost predicate InputsRecorded(inputs: seq<Tensor>, i: nat, nodes: map<nat, seq<int>>)
    requires i <= |inputs|
  {
    && (forall k :: 0 <= k < i ==> Index(inputs, inputs[k]) == k)
    && (forall u: Tensor :: Recorded(nodes, u) <==> Index(inputs, u) < i)
    && (forall n: nat :: n in nodes <==> HasInputBefore(inputs, i, n))
  }

  lemma InputRecordedNext(inputs: seq<Tensor>, i: nat, nodes: map<nat, seq<int>>, nodes': map<nat, seq<int>>)
    requires i < |inputs| && InputsRecorded(inputs, i, nodes) && !Recorded(nodes, inputs[i])
    requires nodes'.Keys == nodes.Keys + {inputs[i].node}
    requires forall u: Tensor :: Recorded(nodes', u) <==> u == inputs[i] || Recorded(nodes, u)
    ensures InputsRecorded(inputs, i + 1, nodes')
  {
    IndexIsFirst(inputs, i);
    assert Index(inputs, inputs[i]) == i;
    forall u: Tensor
      ensures Recorded(nodes', u) <==> Index(inputs, u) < i + 1
    {
      assert Recorded(nodes, u) <==> Index(inputs, u) < i;
    }
    NodesRecordedNext(inputs, i, nodes, nodes');
  }

  lemma NodesRecordedNext(inputs: seq<Tensor>, i: nat, nodes: map<nat, seq<int>>, nodes': map<nat, seq<int>>)
    requires i < |inputs| && forall n: nat :: n in nodes <==> HasInputBefore(inputs, i, n)
    requires nodes'.Keys == nodes.Keys + {inputs[i].node}
    ensures forall n: nat :: n in nodes' <==> HasInputBefore(inputs, i + 1, n)
  {
    forall n: nat
      ensures n in nodes' <==> HasInputBefore(inputs, i + 1, n)
    {
      NodeHasInputNext(inputs, i, n);
      assert n in nodes' <==> n in nodes'.Keys;
    }
  }

  lemma NodeHasInputNext(inputs: seq<Tensor>, i: nat, n: nat)
    requires i < |inputs|
    ensures HasInputBefore(inputs, i + 1, n) <==> HasInputBefore(inputs, i, n) || n == inputs[i].node
  {
  }

  lemma {:induction false} IndexIsFirst<T>(s: seq<T>, i: nat)
    requires i < |s|
    ensures Index(s, s[i]) <= i
  {
    if i > 0 && s[0] != s[i] {
      IndexIsFirst(s[1..], i - 1);
    }
  }

  lemma RecordedTwice(inputs: seq<Tensor>, i: nat, nodes: map<nat, seq<int>>)
    requires i < |inputs| && InputsRecorded(inputs, i, nodes) && Recorded(nodes, inputs[i])
    ensures !Distinct(inputs) && inputs[i] in inputs[..i]
  {
    assert Index(inputs, inputs[i]) < i;
    assert inputs[..i][Index(inputs, inputs[i])] == inputs[i];
  }

  lemma AllRecorded(inputs: seq<Tensor>, nodes: map<nat, seq<int>>)
    requires InputsRecorded(inputs, |inputs|, nodes)
    ensures Distinct(inputs) && NodesOfInputs(inputs, nodes)
  {
    forall n: nat
      ensures n in nodes <==> HasInput(inputs, n)
    {
      assert n in nodes <==> HasInputBefore(inputs, |inputs|, n);
    }
  }

  /** Why input i is the first to be refused: it does not exist, has a reference type, or is there already. */
  ghost predicate InputRefused(g: Graph, inputs: seq<Tensor>, i: nat, error: Error)
    requires i < |inputs| && inputs[i].node < |g|
  {
    (forall k :: 0 <= k < i ==> ValidArgument(g, inputs[k])) &&
    match error
    case InvalidInput => !ValidTensor(g, inputs[i])
    case RefInput => ValidTensor(g, inputs[i]) && IsRef(g, inputs[i])
    case DuplicateInput => ValidArgument(g, inputs[i]) && inputs[i] in inputs[..i]
    case _ => false
  }

  /** Checks the inputs and collects, for each node, which of its outputs are inputs. */
  method ProcessInputs(g: Graph, inputs: seq<Tensor>) returns (r: Result<map<nat, seq<int>>>)
    requires forall i :: 0 <= i < |inputs| ==> inputs[i].node < |g|
    ensures r.Ok? || r.error in {InvalidInput, RefInput, DuplicateInput}
    ensures r.Ok? <==> Distinct(inputs) && forall i :: 0 <= i < |inputs| ==> ValidArgument(g, inputs[i])
    ensures r.Ok? ==> NodesOfInputs(inputs, r.value)
    ensures r.Err? ==> exists i :: 0 <= i < |inputs| && InputRefused(g, inputs, i, r.error)
  {
    var nodes: map<nat, seq<int>> := map[];
    for i := 0 to |inputs|
      invariant InputsRecorded(inputs, i, nodes)
      invariant forall k :: 0 <= k < i ==> ValidArgument(g, inputs[k])
    {
      var t := inputs[i];
      if !(0 <= t.index < NumOutputs(g[t.node].op)) {
        assert InputRefused(g, inputs, i, InvalidInput);
        return Err(InvalidInput);
      }
      if IsRef(g, t) {
        assert InputRefused(g, inputs, i, RefInput);
        return Err(RefInput);
      }
      var more := RecordInput(nodes, t);
      if more.None? {
        RecordedTwice(inputs, i, nodes);
        assert InputRefused(g, inputs, i, DuplicateInput);
        return Err(DuplicateInput);
      }
      InputRecordedNext(inputs, i, nodes, more.value);
      nodes := more.value;
    }
    AllRecorded(inputs, nodes);
    r := Ok(nodes);
  }

  /** Output i is the first to be refused: it does not exist, or else has a reference type. */
  ghost predicate OutputRefused(g: Graph, outputs: seq<Tensor>, i: nat, error: Error)
    requires i < |outputs| && outputs[i].node < |g|
  {
    && (forall k :: 0 <= k < i ==> ValidArgument(g, outputs[k])) && !ValidArgument(g, outputs[i])
    && error == if ValidTensor(g, outputs[i]) then RefOutput else InvalidOutput
  }

  method ProcessOutputs(g: Graph, outputs: seq<Tensor>) returns (r: Result<()>)
    requires forall i :: 0 <= i < |outputs| ==> outputs[i].node < |g|
    ensures r.Ok? || r.error in {InvalidOutput, RefOutput}
    ensures r.Ok? <==> forall i :: 0 <= i < |outputs| ==> ValidArgument(g, outputs[i])
    ensures r.Err? ==> exists i :: 0 <= i < |outputs| && OutputRefused(g, outputs, i, r.error)
  {
    for i := 0 to |outputs|
      invariant forall k :: 0 <= k < i ==> ValidArgument(g, outputs[k])
    {
      var t := outputs[i];
      if !(0 <= t.index < NumOutputs(g[t.node].op)) {
        assert OutputRefused(g, outputs, i, InvalidOutput);
        return Err(InvalidOutput);
      }
      if IsRef(g, t) {
        assert OutputRefused(g, outputs, i, RefOutput);
        return Err(RefOutput);
      }
    }
    r := Ok(());
  }

  /** The operations before node n that no input belongs to. */
  function Rest(inputs: seq<Tensor>, n: nat): (r: seq<nat>)
    ensures forall j :: 0 <= j < |r| ==> r[j] < n
    ensures forall m: nat :: m in r <==> FIRST_OP <= m < n && !HasInput(inputs, m)
    ensures forall i, j :: 0 <= i < j < |r| ==> r[i] < r[j]
  {
    if n <= FIRST_OP then [] else
      Rest(inputs, n - 1) + if HasInput(inputs, n - 1) then [] else [n - 1]
  }

  /** The body: the given operations, or all that no input belongs to. */
  function BodyOf(g: Graph, opers: Option<seq<nat>>, inputs: seq<Tensor>): seq<nat> {
    if opers.Some? then opers.value else Rest(inputs, |g|)
  }

  /** If no operations are given, nodes with inputs of the function must have one output. */
  predicate InputNodesSimple(g: Graph, opers: Option<seq<nat>>, inputs: seq<Tensor>) {
    opers.None? ==> forall n: nat :: FIRST_OP <= n < |g| && HasInput(inputs, n) ==> NumOutputs(g[n].op) == 1
  }

  method ComputeBodyNodes(g: Graph, opers: Option<seq<nat>>, ghost inputs: seq<Tensor>, nodes: map<nat, seq<int>>)
    returns (r: Result<seq<nat>>)
    requires FIRST_OP <= |g| && NodesOfInputs(inputs, nodes)
    ensures r.Ok? || r == Err(InputNodeHasSeveralOutputs)
    ensures r.Ok? <==> InputNodesSimple(g, opers, inputs)
    ensures r.Ok? ==> r.value == BodyOf(g, opers, inputs)
  {
    if opers.Some? {
      return Ok(opers.value);
    }
    var body: seq<nat> := [];
    for n := FIRST_OP to |g|
      invariant body == Rest(inputs, n)
      invariant forall m: nat :: FIRST_OP <= m < n && HasInput(inputs, m) ==> NumOutputs(g[m].op) == 1
    {
      if n !in nodes {
        body := body + [n];
      } else if NumOutputs(g[n].op) != 1 {
        return Err(InputNodeHasSeveralOutputs);
      }
    }
    r := Ok(body);
  }

  /** All that a caller has to ensure for the conversion to succeed. */
  ghost predicate Acceptable(g: Graph, opers: Option<seq<nat>>, inputs: seq<Tensor>, outputs: seq<Tensor>,
                             given: seq<string>)
    requires FIRST_OP <= |g| && (opers.Some? ==> forall j :: 0 <= j < |opers.value| ==> opers.value[j] < |g|)
  {
    && Distinct(inputs)
    && (forall i :: 0 <= i < |inputs| ==> ValidArgument(g, inputs[i]))
    && (forall i :: 0 <= i < |outputs| ==> ValidArgument(g, outputs[i]))
    && InputNodesSimple(g, opers, inputs)
    && Convertible(g, inputs, BodyOf(g, opers, inputs), outputs, given)
  }

  ghost predicate GoodInputs(g: Graph, inputs: seq<Tensor>) {
    Distinct(inputs) && forall i :: 0 <= i < |inputs| ==> ValidArgument(g, inputs[i])
  }

  ghost predicate GoodOutputs(g: Graph, outputs: seq<Tensor>) {
    forall i :: 0 <= i < |outputs| ==> ValidArgument(g, outputs[i])
  }

  /** What is wrong with good inputs and outputs, by the error. */
  ghost predicate NotConvertible(g: Graph, opers: Option<seq<nat>>, inputs: seq<Tensor>, given: seq<string>,
                                 error: Error)
    requires FIRST_OP <= |g| && (opers.Some? ==> forall j :: 0 <= j < |opers.value| ==> opers.value[j] < |g|)
  {
    if error == InputNodeHasSeveralOutputs then !InputNodesSimple(g, opers, inputs)
    else
      InputNodesSimple(g, opers, inputs) &&
      if error == DuplicateOutputName then !Distinct(given)
      else
        Distinct(given) && (BodyClosed(g, inputs, BodyOf(g, opers, inputs)) <==> error == OutputNotAvailable)
  }

  /** What is wrong, by the error: the first of the checks that fails, in the order of the cases. */
  ghost predicate Refused(g: Graph, opers: Option<seq<nat>>, inputs: seq<Tensor>, outputs: seq<Tensor>,
                          given: seq<string>, error: Error)
    requires FIRST_OP <= |g| && (opers.Some? ==> forall j :: 0 <= j < |opers.value| ==> opers.value[j] < |g|)
  {
    match error
    case InvalidInput => !GoodInputs(g, inputs)
    case RefInput => !GoodInputs(g, inputs)
    case DuplicateInput => !GoodInputs(g, inputs)
    case InvalidOutput => GoodInputs(g, inputs) && !GoodOutputs(g, outputs)
    case RefOutput => GoodInputs(g, inputs) && !GoodOutputs(g, outputs)
    case _ =>
      GoodInputs(g, inputs) && GoodOutputs(g, outputs) && NotConvertible(g, opers, inputs, given, error)
  }

  /** What the caller gets: a conversion of the body exactly if the arguments are acceptable, else what is wrong. */
  ghost predicate Outcome(g: Graph, name: string, opers: Option<seq<nat>>, inputs: seq<Tensor>, outputs: seq<Tensor>,
                          given: seq<string>, r: Result<FunctionDef>)
    requires ValidGraph(g) && (opers.Some? ==> forall j :: 0 <= j < |opers.value| ==> opers.value[j] < |g|)
    requires given == [] || |given| == |outputs|
  {
    match r
    case Err(error) =>
      !Acceptable(g, opers, inputs, outputs, given) && Refused(g, opers, inputs, outputs, given, error)
    case Ok(fdef) =>
      && Acceptable(g, opers, inputs, outputs, given)
      && fdef.name == name && Converted(g, inputs, BodyOf(g, opers, inputs), outputs, given, fdef)
  }

  /** The part behind the checks of the inputs and outputs. */
  method ConvertChecked(g: Graph, name: string, opers: Option<seq<nat>>, inputs: seq<Tensor>,
                        outputs: seq<Tensor>, given: seq<string>, nodes: map<nat, seq<int>>)
    returns (r: Result<FunctionDef>)
    requires ValidGraph(g) && GoodInputs(g, inputs) && NodesOfInputs(inputs, nodes) && GoodOutputs(g, outputs)
    requires opers.Some? ==> Distinct(opers.value) && forall j :: 0 <= j < |opers.value| ==> opers.value[j] < |g|
    requires given == [] || |given| == |outputs|
    ensures Outcome(g, name, opers, inputs, outputs, given, r)
  {
    var body := ComputeBodyNodes(g, opers, inputs, nodes);
    if body.Err? {
      return Err(body.error);
    }
    r := GraphToFunctionDef(g, name, body.value, inputs, outputs, given);
  }

  lemma InputsRefuse(g: Graph, name: string, opers: Option<seq<nat>>, inputs: seq<Tensor>, outputs: seq<Tensor>,
                     given: seq<string>, error: Error)
    requires ValidGraph(g) && (opers.Some? ==> forall j :: 0 <= j < |opers.value| ==> opers.value[j] < |g|)
    requires given == [] || |given| == |outputs|
    requires !GoodInputs(g, inputs) && error in {InvalidInput, RefInput, DuplicateInput}
    ensures Outcome(g, name, opers, inputs, outputs, given, Err(error))
  {
  }

  lemma OutputsRefuse(g: Graph, name: string, opers: Option<seq<nat>>, inputs: seq<Tensor>, outputs: seq<Tensor>,
                      given: seq<string>, error: Error)
    requires ValidGraph(g) && (opers.Some? ==> forall j :: 0 <= j < |opers.value| ==> opers.value[j] < |g|)
    requires given == [] || |given| == |outputs|
    requires GoodInputs(g, inputs) && !GoodOutputs(g, outputs) && error in {InvalidOutput, RefOutput}
    ensures Outcome(g, name, opers, inputs, outputs, given, Err(error))
  {
  }

  method TFGraphToFunction(g: Graph, name: string, opers: Option<seq<nat>>, inputs: seq<Tensor>,
                           outputs: seq<Tensor>, outputNames: Option<seq<string>>)
    returns (r: Result<FunctionDef>)
    requires ValidGraph(g)
    requires forall i :: 0 <= i < |inputs| ==> inputs[i].node < |g|
    requires forall i :: 0 <= i < |outputs| ==> outputs[i].node < |g|
    requires opers.Some? ==> Distinct(opers.value) && forall j :: 0 <= j < |opers.value| ==> opers.value[j] < |g|
    requires outputNames.Some? ==> |outputNames.value| == |outputs|
    ensures Outcome(g, name, opers, inputs, outputs, if outputNames.Some? then outputNames.value else [], r)
  {
    var nodes := ProcessInputs(g, inputs);
    var given := if outputNames.Some? then outputNames.value else [];
    if nodes.Err? {
      InputsRefuse(g, name, opers, inputs, outputs, given, nodes.error);
      return Err(nodes.error);
    }
    var checked := ProcessOutputs(g, outputs);
    if checked.Err? {
      OutputsRefuse(g, name, opers, inputs, outputs, given, checked.error);
      return Err(checked.error);
    }
    r := ConvertChecked(g, name, opers, inputs, outputs, given, nodes.value);
  }
}
