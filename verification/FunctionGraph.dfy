/** The graphs that become functions, and when a function definition is a conversion of a graph. The definition is
    relative to a naming: the names that were chosen for the inputs and for the nodes of the body. */
module FunctionGraph {
  import opened Wrappers
  import opened NodeNames

  /** An output argument of an operation: it stands for `count` consecutive output tensors. */
  datatype OutputArg = OutputArg(name: string, count: nat, isRef: bool)

  datatype Op = Op(name: string, numInputs: nat, outputs: seq<OutputArg>, stateful: bool)

  /** A data edge, or a control edge if srcOutput is CONTROL_SLOT. */
  datatype Edge = Edge(src: nat, srcOutput: int, dstInput: int)

  datatype Node = Node(name: string, op: Op, attrs: string, device: string, assignedDevice: string,
                       inEdges: seq<Edge>)

  /** Nodes are known by their index; the first two are the source and the sink. */
  type Graph = seq<Node>

  datatype Tensor = Tensor(node: nat, index: int)

  const CONTROL_SLOT := -1
  const SOURCE: nat := 0
  const FIRST_OP: nat := 2

  predicate IsControl(e: Edge) { e.srcOutput == CONTROL_SLOT }

  function TensorOf(e: Edge): Tensor { Tensor(e.src, e.srcOutput) }

  // ----- output arguments and output tensors

  /** The number of output tensors before argument a. */
  function Start(outputs: seq<OutputArg>, a: nat): (n: nat)
    requires a <= |outputs|
  {
    if a == 0 then 0 else Start(outputs, a - 1) + outputs[a - 1].count
  }

  function NumOutputs(op: Op): nat { Start(op.outputs, |op.outputs|) }

  lemma {:induction false} StartMonotone(outputs: seq<OutputArg>, a: nat, b: nat)
    requires a <= b <= |outputs|
    ensures Start(outputs, a) <= Start(outputs, b)
  {
    if a < b {
      StartMonotone(outputs, a, b - 1);
    }
  }

  /** The argument to which output tensor i belongs and its place there. */
  function Local(outputs: seq<OutputArg>, n: nat, i: nat): (r: (nat, nat))
    requires n <= |outputs| && i < Start(outputs, n)
    ensures r.0 < n && r.1 < outputs[r.0].count && Start(outputs, r.0) + r.1 == i
  {
    if Start(outputs, n - 1) <= i then (n - 1, i - Start(outputs, n - 1)) else Local(outputs, n - 1, i)
  }

  lemma LocalUnique(outputs: seq<OutputArg>, i: nat, a: nat)
    requires a < |outputs| && Start(outputs, a) <= i < Start(outputs, a + 1)
    ensures i < Start(outputs, |outputs|)
    ensures Local(outputs, |outputs|, i) == (a, i - Start(outputs, a))
  {
    StartMonotone(outputs, a + 1, |outputs|);
    var b := Local(outputs, |outputs|, i).0;
    if a < b {
      StartMonotone(outputs, a + 1, b);
    } else if b < a {
      StartMonotone(outputs, b + 1, a);
    }
  }

  predicate ValidTensor(g: Graph, t: Tensor) {
    t.node < |g| && 0 <= t.index < NumOutputs(g[t.node].op)
  }

  /** Whether a valid tensor has a reference type. */
  predicate IsRef(g: Graph, t: Tensor)
    requires ValidTensor(g, t)
  {
    var outputs := g[t.node].op.outputs;
    outputs[Local(outputs, |outputs|, t.index).0].isRef
  }

  // ----- valid graphs

  predicate ValidOutputs(outputs: seq<OutputArg>) {
    && (forall a :: 0 <= a < |outputs| ==> ':' !in outputs[a].name)
    && (forall a, b :: 0 <= a < |outputs| && 0 <= b < |outputs| && outputs[a].name == outputs[b].name ==> a == b)
  }

  predicate ValidEdge(g: Graph, e: Edge) {
    e.src < |g| && (IsControl(e) || ValidTensor(g, TensorOf(e)))
  }

  predicate EndsAtInput(node: Node, e: Edge) {
    IsControl(e) || 0 <= e.dstInput < node.op.numInputs
  }

  predicate ValidNode(g: Graph, node: Node) {
    && node.name != "" && ':' !in node.name
    && ValidOutputs(node.op.outputs)
    && (forall i :: 0 <= i < |node.inEdges| ==> ValidEdge(g, node.inEdges[i]) && EndsAtInput(node, node.inEdges[i]))
  }

  predicate UniqueNames(g: Graph) {
    forall m, n :: 0 <= m < |g| && 0 <= n < |g| && g[m].name == g[n].name ==> m == n
  }

  predicate ValidGraph(g: Graph) {
    FIRST_OP <= |g| && UniqueNames(g) && forall n :: 0 <= n < |g| ==> ValidNode(g, g[n])
  }

  // ----- edges

  /** The edge brings data from an operation to input k. */
  predicate BringsData(e: Edge, k: int) { e.src != SOURCE && !IsControl(e) && e.dstInput == k }

  /** Edge number i is the last one that brings data to input k. */
  ghost predicate LastDataEdge(edges: seq<Edge>, k: int, i: int) {
    0 <= i < |edges| && BringsData(edges[i], k) && forall j :: i < j < |edges| ==> !BringsData(edges[j], k)
  }

  /** The edge that an input of a node gets its value from: the last one of those that bring data to it. */
  ghost function DataEdge(edges: seq<Edge>, k: int): (r: Option<Edge>)
    ensures r.Some? ==> r.value in edges && BringsData(r.value, k)
  {
    if exists i :: LastDataEdge(edges, k, i) then
      var i :| LastDataEdge(edges, k, i);
      Some(edges[i])
    else None
  }

  /** One more edge replaces those before it, at its own input. */
  lemma DataEdgeNext(edges: seq<Edge>, e: Edge, k: int)
    ensures DataEdge(edges + [e], k) == if BringsData(e, k) then Some(e) else DataEdge(edges, k)
  {
    var n := |edges|;
    assert forall j :: 0 <= j < n ==> (edges + [e])[j] == edges[j];
    if BringsData(e, k) {
      assert LastDataEdge(edges + [e], k, n);
    } else {
      forall i
        ensures LastDataEdge(edges + [e], k, i) <==> LastDataEdge(edges, k, i)
      {
      }
    }
  }

  lemma {:induction false} SomeLastEdge(edges: seq<Edge>, k: int)
    requires exists i :: 0 <= i < |edges| && BringsData(edges[i], k)
    ensures DataEdge(edges, k).Some?
  {
    var n := |edges| - 1;
    assert edges == edges[..n] + [edges[n]];
    DataEdgeNext(edges[..n], edges[n], k);
    if !BringsData(edges[n], k) {
      var i :| 0 <= i < |edges| && BringsData(edges[i], k);
      assert edges[..n][i] == edges[i];
      SomeLastEdge(edges[..n], k);
    }
  }

  /** An edge that is neither a control edge nor from the source node and ends at input k. */
  ghost predicate DataAt(e: Edge, k: int) { e.src != 0 && e.srcOutput != -1 && e.dstInput == k }

  /** The edge of input k is the last one that ends there; there is none exactly if no edge does. */
  ghost predicate IsDataInput(edges: seq<Edge>, k: int, edge: Option<Edge>) {
    if edge.None? then forall i :: 0 <= i < |edges| ==> !DataAt(edges[i], k)
    else exists i :: 0 <= i < |edges| && edges[i] == edge.value && IsLastAt(edges, k, i)
  }

  ghost predicate IsLastAt(edges: seq<Edge>, k: int, i: int)
    requires 0 <= i < |edges|
  {
    DataAt(edges[i], k) && forall j :: i < j < |edges| ==> !DataAt(edges[j], k)
  }

  lemma DataEdgeIsLast(edges: seq<Edge>, k: int, edge: Option<Edge>)
    ensures DataEdge(edges, k) == edge <==> IsDataInput(edges, k, edge)
  {
    if exists i :: 0 <= i < |edges| && BringsData(edges[i], k) {
      SomeLastEdge(edges, k);
    }
    forall e: Edge
      ensures BringsData(e, k) <==> DataAt(e, k)
    {
    }
    forall i
      ensures LastDataEdge(edges, k, i) <==> 0 <= i < |edges| && IsLastAt(edges, k, i)
    {
    }
    forall i, j | LastDataEdge(edges, k, i) && LastDataEdge(edges, k, j)
      ensures i == j
    {
    }
  }

  /** The sources of the control edges, in order. Edges from the source node do not count. */
  function Controls(edges: seq<Edge>): (r: seq<nat>)
  {
    if edges == [] then []
    else
      var e := edges[|edges| - 1];
      var before := Controls(edges[..|edges| - 1]);
      if e.src != SOURCE && IsControl(e) then before + [e.src] else before
  }

  /** A control edge that is not from the source node. */
  ghost predicate ControlAt(edges: seq<Edge>, i: int) {
    0 <= i < |edges| && edges[i].src != 0 && edges[i].srcOutput == -1
  }

  /** The indices are those of all such edges, in order, and the sources are theirs. */
  ghost predicate Selects(edges: seq<Edge>, indices: seq<int>, sources: seq<nat>) {
    && |indices| == |sources|
    && (forall i, j :: 0 <= i < j < |indices| ==> indices[i] < indices[j])
    && (forall i :: ControlAt(edges, i) <==> i in indices)
    && (forall i :: 0 <= i < |indices| ==> ControlAt(edges, indices[i]) && sources[i] == edges[indices[i]].src)
  }

  lemma SelectsNext(edges: seq<Edge>, e: Edge, indices: seq<int>, sources: seq<nat>)
    requires Selects(edges, indices, sources)
    ensures if e.src != 0 && e.srcOutput == -1 then Selects(edges + [e], indices + [|edges|], sources + [e.src])
      else Selects(edges + [e], indices, sources)
  {
    forall i
      ensures ControlAt(edges + [e], i) <==>
        ControlAt(edges, i) || (i == |edges| && e.src != 0 && e.srcOutput == -1)
    {
    }
    forall i | 0 <= i < |indices|
      ensures ControlAt(edges, indices[i])
    {
    }
  }

  lemma {:induction false} ControlsAreSelected(edges: seq<Edge>) returns (indices: seq<int>)
    ensures Selects(edges, indices, Controls(edges))
  {
    indices := [];
    if edges != [] {
      var n := |edges| - 1;
      indices := ControlsAreSelected(edges[..n]);
      SelectsNext(edges[..n], edges[n], indices, Controls(edges[..n]));
      assert edges == edges[..n] + [edges[n]];
      if edges[n].src != SOURCE && IsControl(edges[n]) {
        indices := indices + [n];
      }
    }
  }

  // ----- function definitions

  datatype NodeDef = NodeDef(name: string, op: Op, attrs: string, device: string, inputs: seq<string>)

  datatype FunctionDef = FunctionDef(name: string, inputArgs: seq<string>, outputArgs: seq<string>,
                                     nodes: seq<NodeDef>, ret: map<string, string>, stateful: bool)

  // ----- names in the function

  /** The position of x in s; |s| if there is none. */
  function Index<T(==)>(s: seq<T>, x: T): (i: nat)
    ensures i <= |s| && (i < |s| ==> s[i] == x) && (i < |s| <==> x in s)
  {
    if s == [] then 0 else if s[0] == x then 0 else 1 + Index(s[1..], x)
  }

  ghost predicate Distinct<T>(s: seq<T>) {
    forall i, j :: 0 <= i < |s| && 0 <= j < |s| && s[i] == s[j] ==> i == j
  }

  lemma IndexOfElement<T>(s: seq<T>, i: nat)
    requires Distinct(s) && i < |s|
    ensures Index(s, s[i]) == i
  {
  }

  /** The names picked so far: args for the first inputs and nodeNames for the first body nodes. */
  datatype Naming = Naming(inputs: seq<Tensor>, args: seq<string>, body: seq<nat>, nodeNames: seq<string>)

  ghost predicate ValidNaming(g: Graph, nm: Naming) {
    && |nm.args| <= |nm.inputs| && |nm.nodeNames| <= |nm.body| && Distinct(nm.inputs) && Distinct(nm.body)
    && (forall i :: 0 <= i < |nm.inputs| ==> ValidTensor(g, nm.inputs[i]))
    && (forall j :: 0 <= j < |nm.body| ==> nm.body[j] < |g|)
  }

  function Flat(name: string, index: nat): string {
    name + ":" + Decimal(index)
  }

  function Nested(name: string, outputs: seq<OutputArg>, i: nat): string
    requires i < Start(outputs, |outputs|)
  {
    var (a, offset) := Local(outputs, |outputs|, i);
    name + ":" + outputs[a].name + ":" + Decimal(offset)
  }

  /** How the function refers to a tensor: by the argument if it is an input, else by the body node. */
  function RefOf(g: Graph, nm: Naming, t: Tensor): Option<string>
    requires ValidTensor(g, t)
  {
    var i, j := Index(nm.inputs, t), Index(nm.body, t.node);
    if i < |nm.args| then Some(nm.args[i])
    else if j < |nm.nodeNames| then Some(Nested(nm.nodeNames[j], g[t.node].op.outputs, t.index))
    else None
  }

  /** The last argument that stands for a tensor of node n. */
  function LastArg(inputs: seq<Tensor>, args: seq<string>, n: nat): Option<string>
    requires |args| <= |inputs|
  {
    if args == [] then None
    else if inputs[|args| - 1].node == n then Some(args[|args| - 1])
    else LastArg(inputs, args[..|args| - 1], n)
  }

  /** How the function refers to a node: as body node if it is one, else by its last argument. */
  function NameOf(nm: Naming, n: nat): Option<string>
    requires |nm.args| <= |nm.inputs|
  {
    var j := Index(nm.body, n);
    if j < |nm.nodeNames| then Some(nm.nodeNames[j]) else LastArg(nm.inputs, nm.args, n)
  }

  // ----- the order in which names are picked

  ghost function Elements<T>(s: seq<T>): set<T> { set x | x in s }

  lemma ElementsAppend<T>(s: seq<T>, x: T)
    ensures Elements(s + [x]) == Elements(s) + {x}
  {
  }

  /** Output names: the given ones, which must differ, or the first free form of the node's normal name. */
  ghost predicate PickedOutputs(g: Graph, outputs: seq<Tensor>, given: seq<string>, names: seq<string>)
    requires |names| <= |outputs| && (given == [] || |given| == |outputs|)
    requires forall i :: 0 <= i < |outputs| ==> ValidTensor(g, outputs[i])
  {
    names == [] ||
    var n, r := |names| - 1, names[|names| - 1];
    && PickedOutputs(g, outputs, given, names[..n]) && r !in names[..n]
    && if given != [] then r == given[n] else PickedArg(g[outputs[n].node].name, Elements(names[..n]), r)
  }

  ghost predicate PickedArg(name: string, used: set<string>, r: string) {
    IsArgName(r) && exists normal :: IsNormalOf(name, normal) && IsUniqueOf(used, normal, r)
  }

  ghost predicate PickedInputs(g: Graph, inputs: seq<Tensor>, used: set<string>, args: seq<string>)
    requires |args| <= |inputs| && forall i :: 0 <= i < |inputs| ==> ValidTensor(g, inputs[i])
  {
    args == [] ||
    var n := |args| - 1;
    PickedInputs(g, inputs, used, args[..n]) && PickedArg(g[inputs[n].node].name, used + Elements(args[..n]), args[n])
  }

  ghost predicate PickedNodes(g: Graph, body: seq<nat>, used: set<string>, names: seq<string>)
    requires |names| <= |body| && forall j :: 0 <= j < |body| ==> body[j] < |g|
  {
    names == [] ||
    var n := |names| - 1;
    PickedNodes(g, body, used, names[..n]) && IsUniqueOf(used + Elements(names[..n]), g[body[n]].name, names[n])
  }

  // ----- what a successful conversion is

  predicate Available(inputs: seq<Tensor>, body: seq<nat>, t: Tensor) {
    t in inputs || t.node in body
  }

  predicate HasInputBefore(inputs: seq<Tensor>, i: nat, n: nat)
    requires i <= |inputs|
  {
    exists k :: 0 <= k < i && inputs[k].node == n
  }

  predicate HasInput(inputs: seq<Tensor>, n: nat) {
    HasInputBefore(inputs, |inputs|, n)
  }

  predicate Known(inputs: seq<Tensor>, body: seq<nat>, n: nat) {
    n in body || HasInput(inputs, n)
  }

  ghost predicate InputAvailable(inputs: seq<Tensor>, body: seq<nat>, node: Node, k: int) {
    var e := DataEdge(node.inEdges, k);
    e.Some? && Available(inputs, body, TensorOf(e.value))
  }

  /** All that the node needs is an input of the function or in its body. */
  ghost predicate Closed(inputs: seq<Tensor>, body: seq<nat>, node: Node) {
    && (forall k :: 0 <= k < node.op.numInputs ==> InputAvailable(inputs, body, node, k))
    && (forall c :: 0 <= c < |Controls(node.inEdges)| ==> Known(inputs, body, Controls(node.inEdges)[c]))
  }

  ghost predicate BodyClosed(g: Graph, inputs: seq<Tensor>, body: seq<nat>)
    requires forall j :: 0 <= j < |body| ==> body[j] < |g|
  {
    forall j :: 0 <= j < |body| ==> Closed(inputs, body, g[body[j]])
  }

  /** When the conversion succeeds. */
  ghost predicate Convertible(g: Graph, inputs: seq<Tensor>, body: seq<nat>, outputs: seq<Tensor>, given: seq<string>)
    requires forall j :: 0 <= j < |body| ==> body[j] < |g|
  {
    && Distinct(given)
    && BodyClosed(g, inputs, body)
    && (forall r :: 0 <= r < |outputs| ==> Available(inputs, body, outputs[r]))
  }

  /** How the function refers to the tensor at input k of node n. */
  ghost function InputRef(g: Graph, nm: Naming, n: nat, k: int): Option<string>
    requires ValidGraph(g) && n < |g|
  {
    var e := DataEdge(g[n].inEdges, k);
    if e.None? then None
    else
      assert ValidNode(g, g[n]);
      assert ValidEdge(g, e.value);
      RefOf(g, nm, TensorOf(e.value))
  }

  /** A node definition is the node with its references renamed, data inputs before control inputs. */
  ghost predicate NodeConverted(g: Graph, nm: Naming, n: nat, def: NodeDef)
    requires ValidGraph(g) && n < |g| && |nm.args| <= |nm.inputs|
  {
    var node := g[n];
    var controls := Controls(node.inEdges);
    && def.op == node.op && def.attrs == node.attrs
    && def.device == (if node.assignedDevice != "" then node.assignedDevice else node.device)
    && Some(def.name) == NameOf(nm, n)
    && |def.inputs| == node.op.numInputs + |controls|
    && (forall k :: 0 <= k < node.op.numInputs ==> InputRef(g, nm, n, k) == Some(def.inputs[k]))
    && (forall c :: 0 <= c < |controls| ==> ControlConverted(nm, controls[c], def.inputs[node.op.numInputs + c]))
  }

  ghost predicate ControlConverted(nm: Naming, n: nat, input: string)
    requires |nm.args| <= |nm.inputs|
  {
    NameOf(nm, n).Some? && input == "^" + NameOf(nm, n).value
  }

  /** The names that the inputs and the body nodes have in a function definition. */
  function NamingOf(inputs: seq<Tensor>, body: seq<nat>, fdef: FunctionDef): Naming {
    Naming(inputs, fdef.inputArgs, body, seq(|fdef.nodes|, j requires 0 <= j < |fdef.nodes| => fdef.nodes[j].name))
  }

  ghost predicate Returned(g: Graph, nm: Naming, t: Tensor, arg: string, ret: map<string, string>)
    requires ValidTensor(g, t)
  {
    arg in ret && Some(ret[arg]) == RefOf(g, nm, t)
  }

  /** The function definition is a conversion of the body with these inputs and outputs. */
  ghost predicate Converted(g: Graph, inputs: seq<Tensor>, body: seq<nat>, outputs: seq<Tensor>, given: seq<string>,
                            fdef: FunctionDef)
    requires ValidGraph(g) && (given == [] || |given| == |outputs|)
    requires forall r :: 0 <= r < |outputs| ==> ValidTensor(g, outputs[r])
  {
    var nm := NamingOf(inputs, body, fdef);
    && |fdef.inputArgs| == |inputs| && |fdef.outputArgs| == |outputs| && |fdef.nodes| == |body|
    && ValidNaming(g, nm)
    && PickedOutputs(g, outputs, given, fdef.outputArgs)
    && PickedInputs(g, inputs, Elements(fdef.outputArgs), fdef.inputArgs)
    && PickedNodes(g, body, Elements(fdef.outputArgs) + Elements(fdef.inputArgs), nm.nodeNames)
    && (forall j :: 0 <= j < |body| ==> NodeConverted(g, nm, body[j], fdef.nodes[j]))
    && (forall r :: 0 <= r < |outputs| ==> Returned(g, nm, outputs[r], fdef.outputArgs[r], fdef.ret))
    && fdef.ret.Keys == Elements(fdef.outputArgs)
    && (fdef.stateful <==> exists j :: 0 <= j < |body| && g[body[j]].op.stateful)
  }
}
