/** What a function definition means, and that the conversion preserves the meaning of the graph. */
module FunctionMeaning {
  import opened Wrappers
  import opened NodeNames
  import opened FunctionGraph
  import opened FunctionConversion
  import opened GraphToFunction

  // ----- the index of all names that inputs can refer to

  /** The names that instantiating a function puts in its index, one constructor for each kind. */
  datatype Entry =
    | ArgWhole(i: nat)
    | ArgElement(i: nat)
    | NodeWithoutOutputs(j: nat)
    | OutputWhole(j: nat, a: nat)
    | OutputElement(j: nat, a: nat, offset: nat)

  predicate ValidEntry(fdef: FunctionDef, e: Entry) {
    match e
    case ArgWhole(i) => i < |fdef.inputArgs|
    case ArgElement(i) => i < |fdef.inputArgs|
    case NodeWithoutOutputs(j) => j < |fdef.nodes| && fdef.nodes[j].op.outputs == []
    case OutputWhole(j, a) => j < |fdef.nodes| && a < |fdef.nodes[j].op.outputs|
    case OutputElement(j, a, offset) =>
      j < |fdef.nodes| && a < |fdef.nodes[j].op.outputs| && offset < fdef.nodes[j].op.outputs[a].count
  }

  /** The name of the argument or node. */
  function Base(fdef: FunctionDef, e: Entry): string
    requires ValidEntry(fdef, e)
  {
    if e.ArgWhole? || e.ArgElement? then fdef.inputArgs[e.i] else fdef.nodes[e.j].name
  }

  function Suffix(fdef: FunctionDef, e: Entry): string
    requires ValidEntry(fdef, e)
  {
    match e
    case ArgWhole(i) => ""
    case ArgElement(i) => ":" + Decimal(0)
    case NodeWithoutOutputs(j) => ""
    case OutputWhole(j, a) => ":" + fdef.nodes[j].op.outputs[a].name
    case OutputElement(j, a, offset) => ":" + (fdef.nodes[j].op.outputs[a].name + ":" + Decimal(offset))
  }

  function Key(fdef: FunctionDef, e: Entry): string
    requires ValidEntry(fdef, e)
  {
    Base(fdef, e) + Suffix(fdef, e)
  }

  /** What an entry stands for: `count` outputs, from number idx on, of a node; arguments are the first nodes. */
  datatype Item = Item(nid: nat, idx: nat, count: nat)

  function ItemOf(fdef: FunctionDef, e: Entry): Item
    requires ValidEntry(fdef, e)
  {
    var args := |fdef.inputArgs|;
    match e
    case ArgWhole(i) => Item(i, 0, 1)
    case ArgElement(i) => Item(i, 0, 1)
    case NodeWithoutOutputs(j) => Item(args + j, 0, 0)
    case OutputWhole(j, a) => Item(args + j, Start(fdef.nodes[j].op.outputs, a), fdef.nodes[j].op.outputs[a].count)
    case OutputElement(j, a, offset) => Item(args + j, Start(fdef.nodes[j].op.outputs, a) + offset, 1)
  }

  ghost predicate IsNamed(fdef: FunctionDef, e: Entry, key: string) {
    ValidEntry(fdef, e) && Key(fdef, e) == key
  }

  /** What a reference stands for. */
  ghost function Resolve(fdef: FunctionDef, key: string): Option<Item> {
    if exists e :: IsNamed(fdef, e, key) then
      var e :| IsNamed(fdef, e, key);
      Some(ItemOf(fdef, e))
    else None
  }

  // ----- name hygiene

  /** Two entries of different arguments or nodes have different base names. */
  ghost predicate SameOwner(fdef: FunctionDef, e: Entry, e': Entry)
    requires ValidEntry(fdef, e) && ValidEntry(fdef, e')
  {
    Base(fdef, e) == Base(fdef, e') ==>
      if OfArg(e) then OfArg(e') && e.i == e'.i else !OfArg(e') && e.j == e'.j
  }

  predicate OfArg(e: Entry) { e.ArgWhole? || e.ArgElement? }

  ghost predicate GoodBase(fdef: FunctionDef, e: Entry)
    requires ValidEntry(fdef, e)
  {
    ':' !in Base(fdef, e) && (!OfArg(e) ==> ValidOutputs(fdef.nodes[e.j].op.outputs))
  }

  /** The names of arguments and nodes all differ, and none holds a colon. */
  ghost predicate Hygienic(fdef: FunctionDef) {
    && (forall e :: ValidEntry(fdef, e) ==> GoodBase(fdef, e))
    && (forall e, e' :: ValidEntry(fdef, e) && ValidEntry(fdef, e') ==> SameOwner(fdef, e, e'))
  }

  /** What stands before the first colon. */
  function Head(s: string): string {
    if s == [] || s[0] == ':' then [] else [s[0]] + Head(s[1..])
  }

  lemma {:induction false} HeadOfBase(a: string, x: string)
    requires ':' !in a && (x == "" || x[0] == ':')
    ensures Head(a + x) == a
  {
    if a == "" {
      assert a + x == x;
    } else {
      assert (a + x)[1..] == a[1..] + x;
      HeadOfBase(a[1..], x);
    }
  }

  lemma SplitBase(a: string, x: string, b: string, y: string)
    requires ':' !in a && ':' !in b && a + x == b + y
    requires x == "" || x[0] == ':'
    requires y == "" || y[0] == ':'
    ensures a == b && x == y
  {
    HeadOfBase(a, x);
    HeadOfBase(b, y);
    assert (a + x)[|a|..] == x && (b + y)[|b|..] == y;
  }

  lemma SuffixShape(fdef: FunctionDef, e: Entry)
    requires ValidEntry(fdef, e)
    ensures var x := Suffix(fdef, e); x == "" || x[0] == ':'
    ensures e.NodeWithoutOutputs? ==> Suffix(fdef, e) == ""
    ensures e.OutputWhole? || e.OutputElement? ==> Suffix(fdef, e) != ""
    ensures GoodBase(fdef, e) && e.OutputWhole? ==> ':' !in Suffix(fdef, e)[1..]
    ensures e.OutputElement? ==> ':' in Suffix(fdef, e)[1..]
  {
    if e.OutputElement? {
      var outputs := fdef.nodes[e.j].op.outputs;
      assert Suffix(fdef, e)[1..][|outputs[e.a].name|] == ':';
    }
  }

  /** Two entries of one node with the same name are the same. */
  lemma SuffixesDiffer(fdef: FunctionDef, e: Entry, e': Entry)
    requires ValidEntry(fdef, e) && ValidEntry(fdef, e') && !OfArg(e) && !OfArg(e')
    requires GoodBase(fdef, e) && GoodBase(fdef, e')
    requires e.j == e'.j && Suffix(fdef, e) == Suffix(fdef, e')
    ensures e == e'
  {
    var outputs := fdef.nodes[e.j].op.outputs;
    SuffixShape(fdef, e);
    SuffixShape(fdef, e');
    assert Suffix(fdef, e) != "" ==> Suffix(fdef, e)[1..] == Suffix(fdef, e')[1..];
    if e.OutputElement? && e'.OutputElement? {
      SplitAtColon(outputs[e.a].name, Decimal(e.offset), outputs[e'.a].name, Decimal(e'.offset));
      DecimalInjective(e.offset, e'.offset);
    }
  }

  /** No name is entered twice: a name stands for one thing. */
  lemma KeysDiffer(fdef: FunctionDef, e: Entry, e': Entry)
    requires Hygienic(fdef) && ValidEntry(fdef, e) && ValidEntry(fdef, e') && Key(fdef, e) == Key(fdef, e')
    ensures e == e'
  {
    SuffixShape(fdef, e);
    SuffixShape(fdef, e');
    assert GoodBase(fdef, e) && GoodBase(fdef, e');
    SplitBase(Base(fdef, e), Suffix(fdef, e), Base(fdef, e'), Suffix(fdef, e'));
    assert SameOwner(fdef, e, e');
    if !OfArg(e) {
      SuffixesDiffer(fdef, e, e');
    }
  }

  lemma ResolvesTo(fdef: FunctionDef, e: Entry)
    requires Hygienic(fdef) && ValidEntry(fdef, e)
    ensures Resolve(fdef, Key(fdef, e)) == Some(ItemOf(fdef, e))
  {
    var key := Key(fdef, e);
    assert IsNamed(fdef, e, key);
    forall e': Entry | IsNamed(fdef, e', key)
      ensures e' == e
    {
      KeysDiffer(fdef, e, e');
    }
  }

  lemma ArgNameHasNoColon(name: string)
    requires IsArgName(name)
    ensures ':' !in name
  {
  }

  lemma UniqueHasNoColon(used: set<string>, name: string, r: string)
    requires IsUniqueOf(used, name, r) && ':' !in name
    ensures ':' !in r
  {
    if name in used {
      var i: nat :| r == Candidate(name, i);
      assert ':' !in Decimal(i);
    }
  }

  lemma {:induction false} InputNamesFresh(g: Graph, inputs: seq<Tensor>, used: set<string>, args: seq<string>)
    requires |args| <= |inputs| && forall i :: 0 <= i < |inputs| ==> ValidTensor(g, inputs[i])
    requires PickedInputs(g, inputs, used, args)
    ensures Distinct(args) && forall i :: 0 <= i < |args| ==> args[i] !in used && IsArgName(args[i])
  {
    if args != [] {
      var n := |args| - 1;
      InputNamesFresh(g, inputs, used, args[..n]);
      assert forall i :: 0 <= i < n ==> args[i] == args[..n][i] && args[i] in Elements(args[..n]);
      var normal :| IsNormalOf(g[inputs[n].node].name, normal) &&
        IsUniqueOf(used + Elements(args[..n]), normal, args[n]);
    }
  }

  lemma {:induction false} NodeNamesFresh(g: Graph, body: seq<nat>, used: set<string>, names: seq<string>)
    requires ValidGraph(g) && |names| <= |body| && forall j :: 0 <= j < |body| ==> body[j] < |g|
    requires PickedNodes(g, body, used, names)
    ensures Distinct(names) && forall j :: 0 <= j < |names| ==> names[j] !in used && ':' !in names[j]
  {
    if names != [] {
      var n := |names| - 1;
      NodeNamesFresh(g, body, used, names[..n]);
      assert forall j :: 0 <= j < n ==> names[j] == names[..n][j] && names[j] in Elements(names[..n]);
      assert ValidNode(g, g[body[n]]);
      UniqueHasNoColon(used + Elements(names[..n]), g[body[n]].name, names[n]);
    }
  }

  /** All names in a converted function differ: those of the outputs, the inputs and the nodes. */
  lemma NamesAreFresh(g: Graph, inputs: seq<Tensor>, body: seq<nat>, outputs: seq<Tensor>, given: seq<string>,
                      fdef: FunctionDef)
    requires ValidGraph(g) && (given == [] || |given| == |outputs|)
    requires forall r :: 0 <= r < |outputs| ==> ValidTensor(g, outputs[r])
    requires Converted(g, inputs, body, outputs, given, fdef)
    ensures Distinct(fdef.outputArgs) && Distinct(fdef.inputArgs) && Distinct(NamingOf(inputs, body, fdef).nodeNames)
    ensures forall i :: 0 <= i < |inputs| ==> InputNameFresh(fdef, i)
    ensures forall j :: 0 <= j < |body| ==> NodeNameFresh(fdef, j)
  {
    var nm := NamingOf(inputs, body, fdef);
    var used := Elements(fdef.outputArgs);
    OutputNamesDiffer(g, outputs, given, fdef.outputArgs);
    InputNamesFresh(g, inputs, used, fdef.inputArgs);
    forall i | 0 <= i < |inputs|
      ensures InputNameFresh(fdef, i)
    {
      ArgNameHasNoColon(fdef.inputArgs[i]);
    }
    NodeNamesFresh(g, body, used + Elements(fdef.inputArgs), nm.nodeNames);
    forall j | 0 <= j < |body|
      ensures NodeNameFresh(fdef, j)
    {
      assert NodeConverted(g, nm, body[j], fdef.nodes[j]);
      NodeIsFresh(g, nm, body, fdef, j);
    }
  }

  lemma NamesAreHygienic(g: Graph, inputs: seq<Tensor>, body: seq<nat>, outputs: seq<Tensor>, given: seq<string>,
                         fdef: FunctionDef)
    requires ValidGraph(g) && (given == [] || |given| == |outputs|)
    requires forall r :: 0 <= r < |outputs| ==> ValidTensor(g, outputs[r])
    requires Converted(g, inputs, body, outputs, given, fdef)
    ensures Hygienic(fdef)
  {
    NamesAreFresh(g, inputs, body, outputs, given, fdef);
    FreshIsHygienic(fdef);
  }

  ghost predicate InputNameFresh(fdef: FunctionDef, i: nat)
    requires i < |fdef.inputArgs|
  {
    var name := fdef.inputArgs[i];
    IsArgName(name) && ':' !in name && name !in fdef.outputArgs
  }

  ghost predicate NodeNameFresh(fdef: FunctionDef, j: nat)
    requires j < |fdef.nodes|
  {
    var def := fdef.nodes[j];
    && ':' !in def.name && ValidOutputs(def.op.outputs)
    && def.name !in fdef.outputArgs && def.name !in fdef.inputArgs
  }

  lemma NodeIsFresh(g: Graph, nm: Naming, body: seq<nat>, fdef: FunctionDef, j: nat)
    requires ValidGraph(g) && |nm.args| <= |nm.inputs| && |body| == |fdef.nodes| == |nm.nodeNames|
    requires j < |body| && body[j] < |g| && NodeConverted(g, nm, body[j], fdef.nodes[j])
    requires fdef.nodes[j].name == nm.nodeNames[j]
    requires nm.nodeNames[j] !in Elements(fdef.outputArgs) + Elements(fdef.inputArgs) && ':' !in nm.nodeNames[j]
    ensures NodeNameFresh(fdef, j)
  {
    assert ValidNode(g, g[body[j]]);
  }

  lemma FreshIsHygienic(fdef: FunctionDef)
    requires Distinct(fdef.inputArgs) && forall i :: 0 <= i < |fdef.inputArgs| ==> InputNameFresh(fdef, i)
    requires forall j :: 0 <= j < |fdef.nodes| ==> NodeNameFresh(fdef, j)
    requires Distinct(seq(|fdef.nodes|, j requires 0 <= j < |fdef.nodes| => fdef.nodes[j].name))
    ensures Hygienic(fdef)
  {
    var names := seq(|fdef.nodes|, j requires 0 <= j < |fdef.nodes| => fdef.nodes[j].name);
    forall e | ValidEntry(fdef, e)
      ensures GoodBase(fdef, e)
    {
      assert if OfArg(e) then InputNameFresh(fdef, e.i) else NodeNameFresh(fdef, e.j);
    }
    forall e, e' | ValidEntry(fdef, e) && ValidEntry(fdef, e')
      ensures SameOwner(fdef, e, e')
    {
      if !OfArg(e) {
        assert NodeNameFresh(fdef, e.j) && names[e.j] == fdef.nodes[e.j].name;
      }
      if !OfArg(e') {
        assert NodeNameFresh(fdef, e'.j) && names[e'.j] == fdef.nodes[e'.j].name;
      }
    }
  }

  // ----- the meaning of a graph and of a function definition

  type Kernel<!V> = (Op, string, seq<V>, nat) -> V

  predicate AllSome<T>(s: seq<Option<T>>) {
    forall k :: 0 <= k < |s| ==> s[k].Some?
  }

  function Values<T>(s: seq<Option<T>>): seq<T>
    requires AllSome(s)
  {
    seq(|s|, k requires 0 <= k < |s| => s[k].value)
  }

  function Apply<V>(kernel: Kernel<V>, op: Op, attrs: string, ins: seq<Option<V>>, index: nat): Option<V> {
    if AllSome(ins) then Some(kernel(op, attrs, Values(ins), index)) else None
  }

  /** The value of a tensor when the inputs are given; `fuel` bounds how far back it may reach. */
  ghost function EvalTensor<V>(g: Graph, inputs: seq<Tensor>, values: seq<V>, kernel: Kernel<V>, fuel: nat,
                               t: Tensor): Option<V>
    requires ValidGraph(g) && ValidTensor(g, t) && |values| == |inputs|
    decreases fuel, 0
  {
    var i := Index(inputs, t);
    if i < |values| then Some(values[i])
    else if fuel == 0 then None
    else
      var ins := EvalInputs(g, inputs, values, kernel, fuel - 1, t.node);
      Apply(kernel, g[t.node].op, g[t.node].attrs, ins, t.index)
  }

  ghost function EvalInputs<V>(g: Graph, inputs: seq<Tensor>, values: seq<V>, kernel: Kernel<V>, fuel: nat, n: nat)
    : seq<Option<V>>
    requires ValidGraph(g) && n < |g| && |values| == |inputs|
    decreases fuel, 2
  {
    seq(g[n].op.numInputs, k requires 0 <= k < g[n].op.numInputs => EvalInput(g, inputs, values, kernel, fuel, n, k))
  }

  /** The value at input k of node n. */
  ghost function EvalInput<V>(g: Graph, inputs: seq<Tensor>, values: seq<V>, kernel: Kernel<V>, fuel: nat, n: nat,
                              k: nat): Option<V>
    requires ValidGraph(g) && n < |g| && |values| == |inputs|
    decreases fuel, 1
  {
    var e := DataEdge(g[n].inEdges, k);
    if e.None? then None
    else
      assert ValidNode(g, g[n]);
      assert ValidEdge(g, e.value);
      EvalTensor(g, inputs, values, kernel, fuel, TensorOf(e.value))
  }

  /** The value of a reference in a function definition. */
  ghost function EvalRef<V>(fdef: FunctionDef, values: seq<V>, kernel: Kernel<V>, fuel: nat, ref: string): Option<V>
    decreases fuel, 1
  {
    var item := Resolve(fdef, ref);
    if item.None? || item.value.count != 1 then None else EvalItem(fdef, values, kernel, fuel, item.value)
  }

  ghost function EvalItem<V>(fdef: FunctionDef, values: seq<V>, kernel: Kernel<V>, fuel: nat, item: Item): Option<V>
    decreases fuel, 0
  {
    var args := |fdef.inputArgs|;
    if item.nid < args then
      if item.nid < |values| then Some(values[item.nid]) else None
    else if fuel > 0 && item.nid - args < |fdef.nodes| then
      var def := fdef.nodes[item.nid - args];
      Apply(kernel, def.op, def.attrs, EvalDefInputs(fdef, values, kernel, fuel - 1, def), item.idx)
    else None
  }

  ghost function EvalDefInputs<V>(fdef: FunctionDef, values: seq<V>, kernel: Kernel<V>, fuel: nat, def: NodeDef)
    : seq<Option<V>>
    decreases fuel, 3
  {
    seq(def.op.numInputs, k requires 0 <= k < def.op.numInputs => EvalDefInput(fdef, values, kernel, fuel, def, k))
  }

  ghost function EvalDefInput<V>(fdef: FunctionDef, values: seq<V>, kernel: Kernel<V>, fuel: nat, def: NodeDef, k: nat)
    : Option<V>
    decreases fuel, 2
  {
    if k < |def.inputs| then EvalRef(fdef, values, kernel, fuel, def.inputs[k]) else None
  }

  /** The value of an output of a function. */
  ghost function EvalOutput<V>(fdef: FunctionDef, values: seq<V>, kernel: Kernel<V>, fuel: nat,
                               arg: string): Option<V> {
    if arg in fdef.ret then EvalRef(fdef, values, kernel, fuel, fdef.ret[arg]) else None
  }

  // ----- references stand for the tensors they were made from

  lemma Associative(a: string, b: string, c: string)
    ensures a + ":" + b + ":" + c == a + (":" + (b + ":" + c))
  {
  }

  /** The entry that a nested name is the key of. */
  function ElementEntry(j: nat, outputs: seq<OutputArg>, i: nat): Entry
    requires i < Start(outputs, |outputs|)
  {
    var (a, offset) := Local(outputs, |outputs|, i);
    OutputElement(j, a, offset)
  }

  lemma NestedIsKey(fdef: FunctionDef, j: nat, i: nat)
    requires j < |fdef.nodes| && i < NumOutputs(fdef.nodes[j].op)
    ensures var e := ElementEntry(j, fdef.nodes[j].op.outputs, i);
            && ValidEntry(fdef, e) && ItemOf(fdef, e) == Item(|fdef.inputArgs| + j, i, 1)
            && Key(fdef, e) == Nested(fdef.nodes[j].name, fdef.nodes[j].op.outputs, i)
  {
    var outputs := fdef.nodes[j].op.outputs;
    var (a, offset) := Local(outputs, |outputs|, i);
    Associative(fdef.nodes[j].name, outputs[a].name, Decimal(offset));
  }

  /** What a tensor is in the function: an argument, or an output of a body node. */
  function ItemOfTensor(inputs: seq<Tensor>, body: seq<nat>, t: Tensor): Item
    requires t.index >= 0
  {
    var i := Index(inputs, t);
    if i < |inputs| then Item(i, 0, 1) else Item(|inputs| + Index(body, t.node), t.index, 1)
  }

  ghost predicate SameOps(g: Graph, body: seq<nat>, fdef: FunctionDef) {
    |fdef.nodes| == |body| && forall j :: 0 <= j < |body| ==> body[j] < |g| && fdef.nodes[j].op == g[body[j]].op
  }

  /** The entry that a reference to a tensor is the key of. */
  function EntryOf(g: Graph, inputs: seq<Tensor>, body: seq<nat>, t: Tensor): Entry
    requires ValidTensor(g, t)
  {
    if t in inputs then ArgWhole(Index(inputs, t)) else ElementEntry(Index(body, t.node), g[t.node].op.outputs, t.index)
  }

  /** A reference is the key of the entry for the tensor that it was made for. */
  lemma RefIsKey(g: Graph, inputs: seq<Tensor>, body: seq<nat>, fdef: FunctionDef, t: Tensor)
    requires ValidTensor(g, t) && |fdef.inputArgs| == |inputs| && SameOps(g, body, fdef)
    requires RefOf(g, NamingOf(inputs, body, fdef), t).Some?
    ensures var e := EntryOf(g, inputs, body, t);
            && ValidEntry(fdef, e) && ItemOf(fdef, e) == ItemOfTensor(inputs, body, t)
            && Key(fdef, e) == RefOf(g, NamingOf(inputs, body, fdef), t).value
  {
    var nm := NamingOf(inputs, body, fdef);
    if t in inputs {
      var name := fdef.inputArgs[Index(inputs, t)];
      assert name + "" == name;
    } else {
      var j := Index(body, t.node);
      assert nm.nodeNames[j] == fdef.nodes[j].name && fdef.nodes[j].op == g[t.node].op;
      NestedIsKey(fdef, j, t.index);
    }
  }

  /** A reference resolves to the argument or to the output of the body node that it was made for. */
  lemma RefResolves(g: Graph, inputs: seq<Tensor>, body: seq<nat>, fdef: FunctionDef, t: Tensor)
    requires ValidTensor(g, t) && Hygienic(fdef) && |fdef.inputArgs| == |inputs| && SameOps(g, body, fdef)
    requires RefOf(g, NamingOf(inputs, body, fdef), t).Some?
    ensures Resolve(fdef, RefOf(g, NamingOf(inputs, body, fdef), t).value) == Some(ItemOfTensor(inputs, body, t))
  {
    RefIsKey(g, inputs, body, fdef, t);
    ResolvesTo(fdef, EntryOf(g, inputs, body, t));
  }

  /** The node definitions are the converted nodes of the body. */
  ghost predicate NodesConverted(g: Graph, inputs: seq<Tensor>, body: seq<nat>, fdef: FunctionDef) {
    && ValidGraph(g) && |fdef.inputArgs| == |inputs| && SameOps(g, body, fdef)
    && forall j :: 0 <= j < |body| ==> NodeConverted(g, NamingOf(inputs, body, fdef), body[j], fdef.nodes[j])
  }

  /** The reference stands for the tensor. */
  ghost predicate StandsFor(inputs: seq<Tensor>, body: seq<nat>, fdef: FunctionDef, ref: string, t: Tensor) {
    t.index >= 0 && Available(inputs, body, t) && Resolve(fdef, ref) == Some(ItemOfTensor(inputs, body, t))
  }

  /** Input k of definition j stands for the tensor at input k of its node. */
  ghost predicate InputStands(g: Graph, inputs: seq<Tensor>, body: seq<nat>, fdef: FunctionDef, j: nat, k: nat)
    requires j < |body| && j < |fdef.nodes| && body[j] < |g|
  {
    var e := DataEdge(g[body[j]].inEdges, k);
    && k < |fdef.nodes[j].inputs| && e.Some?
    && ValidTensor(g, TensorOf(e.value)) && StandsFor(inputs, body, fdef, fdef.nodes[j].inputs[k], TensorOf(e.value))
  }

  ghost predicate DefStands(g: Graph, inputs: seq<Tensor>, body: seq<nat>, fdef: FunctionDef, j: nat)
    requires j < |body| && j < |fdef.nodes| && body[j] < |g|
  {
    && fdef.nodes[j].op == g[body[j]].op && fdef.nodes[j].attrs == g[body[j]].attrs
    && forall k: nat :: k < g[body[j]].op.numInputs ==> InputStands(g, inputs, body, fdef, j, k)
  }

  /** All references in the body stand for the right tensors. */
  ghost predicate DefsStand(g: Graph, inputs: seq<Tensor>, body: seq<nat>, fdef: FunctionDef) {
    && |fdef.inputArgs| == |inputs| && |fdef.nodes| == |body|
    && forall j: nat :: j < |body| ==> body[j] < |g| && DefStands(g, inputs, body, fdef, j)
  }

  lemma ConvertedStands(g: Graph, inputs: seq<Tensor>, body: seq<nat>, fdef: FunctionDef)
    requires NodesConverted(g, inputs, body, fdef) && Hygienic(fdef)
    ensures DefsStand(g, inputs, body, fdef)
  {
    forall j: nat | j < |body|
      ensures DefStands(g, inputs, body, fdef, j)
    {
      assert NodeConverted(g, NamingOf(inputs, body, fdef), body[j], fdef.nodes[j]);
      forall k: nat | k < g[body[j]].op.numInputs
        ensures InputStands(g, inputs, body, fdef, j, k)
      {
        ConvertedInputStands(g, inputs, body, fdef, j, k);
      }
    }
  }

  lemma ConvertedInputStands(g: Graph, inputs: seq<Tensor>, body: seq<nat>, fdef: FunctionDef, j: nat, k: nat)
    requires ValidGraph(g) && Hygienic(fdef) && |fdef.inputArgs| == |inputs| && SameOps(g, body, fdef)
    requires j < |body| && k < |fdef.nodes[j].inputs|
    requires InputRef(g, NamingOf(inputs, body, fdef), body[j], k) == Some(fdef.nodes[j].inputs[k])
    ensures InputStands(g, inputs, body, fdef, j, k)
  {
    assert ValidNode(g, g[body[j]]);
    var e := DataEdge(g[body[j]].inEdges, k).value;
    assert ValidEdge(g, e);
    RefResolves(g, inputs, body, fdef, TensorOf(e));
  }

  /** A reference has the value of the tensor that it stands for, however far back that may reach. */
  lemma {:induction false} RefHasValue<V>(g: Graph, inputs: seq<Tensor>, body: seq<nat>, fdef: FunctionDef,
                                          values: seq<V>, kernel: Kernel<V>, fuel: nat, ref: string, t: Tensor)
    requires ValidGraph(g) && DefsStand(g, inputs, body, fdef) && |values| == |inputs|
    requires ValidTensor(g, t) && StandsFor(inputs, body, fdef, ref, t)
    ensures EvalRef(fdef, values, kernel, fuel, ref) == EvalTensor(g, inputs, values, kernel, fuel, t)
    decreases fuel, 0
  {
    if t !in inputs && fuel > 0 {
      var j := Index(body, t.node);
      IsBodyNode(inputs, body, fdef, ref, t);
      InputsHaveValues(g, inputs, body, fdef, values, kernel, fuel - 1, j);
      NodesHaveValue(g, inputs, body, fdef, values, kernel, fuel, ref, t, j);
    } else {
      InputRefHasValue(g, inputs, body, fdef, values, kernel, fuel, ref, t);
    }
  }

  /** A reference to an input of the function; at bound zero, no other reference has a value. */
  lemma InputRefHasValue<V>(g: Graph, inputs: seq<Tensor>, body: seq<nat>, fdef: FunctionDef,
                            values: seq<V>, kernel: Kernel<V>, fuel: nat, ref: string, t: Tensor)
    requires ValidGraph(g) && |fdef.inputArgs| == |inputs| == |values|
    requires ValidTensor(g, t) && StandsFor(inputs, body, fdef, ref, t) && (t in inputs || fuel == 0)
    ensures EvalRef(fdef, values, kernel, fuel, ref) == EvalTensor(g, inputs, values, kernel, fuel, t)
  {
  }

  lemma IsBodyNode(inputs: seq<Tensor>, body: seq<nat>, fdef: FunctionDef, ref: string, t: Tensor)
    requires StandsFor(inputs, body, fdef, ref, t) && t !in inputs
    ensures Index(body, t.node) < |body|
  {
  }

  /** A body node and its definition have the same value if their inputs have. */
  lemma NodesHaveValue<V>(g: Graph, inputs: seq<Tensor>, body: seq<nat>, fdef: FunctionDef,
                          values: seq<V>, kernel: Kernel<V>, fuel: nat, ref: string, t: Tensor, j: nat)
    requires ValidGraph(g) && DefsStand(g, inputs, body, fdef) && |values| == |inputs| && ValidTensor(g, t)
    requires StandsFor(inputs, body, fdef, ref, t) && t !in inputs && fuel > 0 && j == Index(body, t.node) < |body|
    requires EvalDefInputs(fdef, values, kernel, fuel - 1, fdef.nodes[j]) ==
      EvalInputs(g, inputs, values, kernel, fuel - 1, body[j])
    ensures EvalRef(fdef, values, kernel, fuel, ref) == EvalTensor(g, inputs, values, kernel, fuel, t)
  {
    assert DefStands(g, inputs, body, fdef, j);
    NodeRefValue(inputs, body, fdef, values, kernel, fuel, ref, t, j);
    NodeTensorValue(g, inputs, values, kernel, fuel, t);
  }

  /** A reference to a body node is evaluated by applying the kernel to the inputs of its definition. */
  lemma NodeRefValue<V>(inputs: seq<Tensor>, body: seq<nat>, fdef: FunctionDef, values: seq<V>, kernel: Kernel<V>,
                        fuel: nat, ref: string, t: Tensor, j: nat)
    requires |fdef.inputArgs| == |inputs| && |fdef.nodes| == |body| && fuel > 0
    requires StandsFor(inputs, body, fdef, ref, t) && t !in inputs && j == Index(body, t.node)
    ensures j < |fdef.nodes|
    ensures EvalRef(fdef, values, kernel, fuel, ref) ==
      Apply(kernel, fdef.nodes[j].op, fdef.nodes[j].attrs,
            EvalDefInputs(fdef, values, kernel, fuel - 1, fdef.nodes[j]), t.index)
  {
  }

  lemma NodeTensorValue<V>(g: Graph, inputs: seq<Tensor>, values: seq<V>, kernel: Kernel<V>, fuel: nat, t: Tensor)
    requires ValidGraph(g) && ValidTensor(g, t) && |values| == |inputs| && t !in inputs && fuel > 0
    ensures EvalTensor(g, inputs, values, kernel, fuel, t) ==
      Apply(kernel, g[t.node].op, g[t.node].attrs,
            EvalInputs(g, inputs, values, kernel, fuel - 1, t.node), t.index)
  {
  }

  lemma {:induction false} InputsHaveValues<V>(g: Graph, inputs: seq<Tensor>, body: seq<nat>, fdef: FunctionDef,
                                               values: seq<V>, kernel: Kernel<V>, fuel: nat, j: nat)
    requires ValidGraph(g) && DefsStand(g, inputs, body, fdef) && |values| == |inputs| && j < |body|
    ensures EvalDefInputs(fdef, values, kernel, fuel, fdef.nodes[j]) ==
      EvalInputs(g, inputs, values, kernel, fuel, body[j])
    decreases fuel, 2
  {
    assert DefStands(g, inputs, body, fdef, j);
    var a := EvalDefInputs(fdef, values, kernel, fuel, fdef.nodes[j]);
    var b := EvalInputs(g, inputs, values, kernel, fuel, body[j]);
    forall k | 0 <= k < |a|
      ensures a[k] == b[k]
    {
      InputHasValue(g, inputs, body, fdef, values, kernel, fuel, j, k);
    }
  }

  lemma {:induction false} InputHasValue<V>(g: Graph, inputs: seq<Tensor>, body: seq<nat>, fdef: FunctionDef,
                                            values: seq<V>, kernel: Kernel<V>, fuel: nat, j: nat, k: nat)
    requires ValidGraph(g) && DefsStand(g, inputs, body, fdef) && |values| == |inputs|
    requires j < |body| && k < g[body[j]].op.numInputs
    ensures EvalDefInput(fdef, values, kernel, fuel, fdef.nodes[j], k)
         == EvalInput(g, inputs, values, kernel, fuel, body[j], k)
    decreases fuel, 1
  {
    assert DefStands(g, inputs, body, fdef, j);
    assert InputStands(g, inputs, body, fdef, j, k);
    var e := DataEdge(g[body[j]].inEdges, k).value;
    RefHasValue(g, inputs, body, fdef, values, kernel, fuel, fdef.nodes[j].inputs[k], TensorOf(e));
  }

  /** A converted function computes what the graph computes when its inputs are overridden. */
  lemma ConversionPreservesMeaning<V>(g: Graph, inputs: seq<Tensor>, body: seq<nat>, outputs: seq<Tensor>,
                                      given: seq<string>, fdef: FunctionDef,
                                      values: seq<V>, kernel: Kernel<V>, fuel: nat, r: nat)
    requires ValidGraph(g) && (given == [] || |given| == |outputs|)
    requires forall r :: 0 <= r < |outputs| ==> ValidTensor(g, outputs[r])
    requires Converted(g, inputs, body, outputs, given, fdef)
    requires |values| == |inputs| && r < |outputs|
    ensures EvalOutput(fdef, values, kernel, fuel, fdef.outputArgs[r])
         == EvalTensor(g, inputs, values, kernel, fuel, outputs[r])
  {
    NamesAreHygienic(g, inputs, body, outputs, given, fdef);
    DefsAreConverted(g, inputs, body, outputs, given, fdef);
    ConvertedStands(g, inputs, body, fdef);
    assert Returned(g, NamingOf(inputs, body, fdef), outputs[r], fdef.outputArgs[r], fdef.ret);
    RefResolves(g, inputs, body, fdef, outputs[r]);
    RefHasValue(g, inputs, body, fdef, values, kernel, fuel, fdef.ret[fdef.outputArgs[r]], outputs[r]);
  }

  lemma DefsAreConverted(g: Graph, inputs: seq<Tensor>, body: seq<nat>, outputs: seq<Tensor>, given: seq<string>,
                         fdef: FunctionDef)
    requires ValidGraph(g) && (given == [] || |given| == |outputs|)
    requires forall r :: 0 <= r < |outputs| ==> ValidTensor(g, outputs[r])
    requires Converted(g, inputs, body, outputs, given, fdef)
    ensures NodesConverted(g, inputs, body, fdef)
  {
    var nm := NamingOf(inputs, body, fdef);
    forall j | 0 <= j < |body|
      ensures body[j] < |g| && fdef.nodes[j].op == g[body[j]].op
    {
      assert NodeConverted(g, nm, body[j], fdef.nodes[j]);
    }
  }

  // ----- values exist

  /** Data edges go from lower to higher ranks. */
  ghost predicate Ranked(g: Graph, rank: nat -> nat)
    requires ValidGraph(g)
  {
    forall n: nat, k: int :: n < |g| && DataEdge(g[n].inEdges, k).Some? ==>
      rank(DataEdge(g[n].inEdges, k).value.src) < rank(n)
  }

  /** In a closed body without cycles, every available tensor has a value. */
  lemma {:induction false} AvailableHasValue<V>(g: Graph, inputs: seq<Tensor>, body: seq<nat>, rank: nat -> nat,
                                                values: seq<V>, kernel: Kernel<V>, fuel: nat, t: Tensor)
    requires ValidGraph(g) && Ranked(g, rank) && |values| == |inputs| && ValidTensor(g, t)
    requires (forall j :: 0 <= j < |body| ==> body[j] < |g|) && BodyClosed(g, inputs, body)
    requires Available(inputs, body, t) && rank(t.node) < fuel
    ensures EvalTensor(g, inputs, values, kernel, fuel, t).Some?
    decreases fuel, 0
  {
    if t !in inputs {
      assert Closed(inputs, body, g[body[Index(body, t.node)]]);
      InputsHaveSomeValue(g, inputs, body, rank, values, kernel, fuel - 1, t.node);
    }
  }

  lemma {:induction false} InputsHaveSomeValue<V>(g: Graph, inputs: seq<Tensor>, body: seq<nat>, rank: nat -> nat,
                                                  values: seq<V>, kernel: Kernel<V>, fuel: nat, n: nat)
    requires ValidGraph(g) && Ranked(g, rank) && |values| == |inputs| && n < |g|
    requires (forall j :: 0 <= j < |body| ==> body[j] < |g|) && BodyClosed(g, inputs, body)
    requires Closed(inputs, body, g[n]) && rank(n) <= fuel
    ensures AllSome(EvalInputs(g, inputs, values, kernel, fuel, n))
    decreases fuel, 1
  {
    var ins := EvalInputs(g, inputs, values, kernel, fuel, n);
    forall k | 0 <= k < |ins|
      ensures ins[k].Some?
    {
      assert InputAvailable(inputs, body, g[n], k);
      assert ValidNode(g, g[n]);
      var e := DataEdge(g[n].inEdges, k).value;
      assert ValidEdge(g, e);
      AvailableHasValue(g, inputs, body, rank, values, kernel, fuel, TensorOf(e));
      assert ins[k] == EvalInput(g, inputs, values, kernel, fuel, n, k);
    }
  }

  // ----- instantiation

  /** What a control input refers to: any entry with the node's name, or of one of its outputs. */
  ghost predicate ControlTarget(fdef: FunctionDef, name: string, e: Entry) {
    ValidEntry(fdef, e) && (Key(fdef, e) == name || name + ":" <= Key(fdef, e))
  }

  /** All entries that a control input can refer to belong to the argument or node of that name. */
  lemma ControlTargetsAgree(fdef: FunctionDef, e: Entry, e': Entry)
    requires Hygienic(fdef) && ValidEntry(fdef, e) && ControlTarget(fdef, Base(fdef, e), e')
    ensures ItemOf(fdef, e').nid == ItemOf(fdef, e).nid
  {
    assert GoodBase(fdef, e) && GoodBase(fdef, e');
    SuffixShape(fdef, e');
    var name, key := Base(fdef, e), Key(fdef, e');
    var rest := key[|name|..];
    assert key == name + rest && (rest == "" || rest[0] == ':');
    SplitBase(name, rest, Base(fdef, e'), Suffix(fdef, e'));
    assert SameOwner(fdef, e, e');
  }

  /** There is one: every node and argument is in the index. */
  lemma ControlTargetExists(fdef: FunctionDef, e: Entry)
    requires ValidEntry(fdef, e)
    ensures ControlTarget(fdef, Base(fdef, e), e)
  {
    SuffixShape(fdef, e);
    var name, x := Base(fdef, e), Suffix(fdef, e);
    if x == "" {
      assert name + x == name;
    } else {
      assert x == ":" + x[1..];
      assert name + x == name + ":" + x[1..];
    }
  }

  /** Some entry of node definition j. */
  function SomeEntry(fdef: FunctionDef, j: nat): (e: Entry)
    requires j < |fdef.nodes|
    ensures ValidEntry(fdef, e) && Base(fdef, e) == fdef.nodes[j].name && ItemOf(fdef, e).nid == |fdef.inputArgs| + j
  {
    if fdef.nodes[j].op.outputs == [] then NodeWithoutOutputs(j) else OutputWhole(j, 0)
  }

  lemma {:induction false} LastArgIsArg(inputs: seq<Tensor>, args: seq<string>, n: nat) returns (i: nat)
    requires |args| <= |inputs| && LastArg(inputs, args, n).Some?
    ensures i < |args| && inputs[i].node == n && LastArg(inputs, args, n).value == args[i]
    ensures forall k :: i < k < |args| ==> inputs[k].node != n
  {
    i := |args| - 1;
    if inputs[i].node != n {
      i := LastArgIsArg(inputs, args[..i], n);
    }
  }

  /** A control input of a node definition refers to the source of the control edge that it was made for:
      to its node definition, or else to the last argument that stands for one of its outputs. */
  lemma ControlRefersToSource(g: Graph, inputs: seq<Tensor>, body: seq<nat>, fdef: FunctionDef, j: nat, c: nat)
    returns (e: Entry)
    requires NodesConverted(g, inputs, body, fdef) && Hygienic(fdef)
    requires j < |body| && c < |Controls(g[body[j]].inEdges)|
    ensures var n := Controls(g[body[j]].inEdges)[c];
            var def := fdef.nodes[j];
            && ValidEntry(fdef, e) && def.op.numInputs + c < |def.inputs|
            && def.inputs[def.op.numInputs + c] == "^" + Base(fdef, e)
            && ControlTarget(fdef, Base(fdef, e), e)
            && var nid := ItemOf(fdef, e).nid;
               if n in body then |inputs| <= nid < |inputs| + |body| && body[nid - |inputs|] == n
               else nid < |inputs| && inputs[nid].node == n && forall k :: nid < k < |inputs| ==> inputs[k].node != n
  {
    var nm := NamingOf(inputs, body, fdef);
    var n := Controls(g[body[j]].inEdges)[c];
    assert NodeConverted(g, nm, body[j], fdef.nodes[j]);
    assert ControlConverted(nm, n, fdef.nodes[j].inputs[fdef.nodes[j].op.numInputs + c]);
    e := EntryOfNode(inputs, body, fdef, n);
    ControlTargetExists(fdef, e);
  }

  /** The entry that the name of a node is the base of. */
  lemma EntryOfNode(inputs: seq<Tensor>, body: seq<nat>, fdef: FunctionDef, n: nat) returns (e: Entry)
    requires |fdef.inputArgs| == |inputs| && |fdef.nodes| == |body| && NameOf(NamingOf(inputs, body, fdef), n).Some?
    ensures ValidEntry(fdef, e) && Base(fdef, e) == NameOf(NamingOf(inputs, body, fdef), n).value
    ensures var nid := ItemOf(fdef, e).nid;
      if n in body then |inputs| <= nid < |inputs| + |body| && body[nid - |inputs|] == n
      else nid < |inputs| && inputs[nid].node == n && forall k :: nid < k < |inputs| ==> inputs[k].node != n
  {
    if n in body {
      e := SomeEntry(fdef, Index(body, n));
    } else {
      var i := LastArgIsArg(inputs, fdef.inputArgs, n);
      e := ArgWhole(i);
    }
  }
}
