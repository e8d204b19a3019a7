/** The text of a function definition: how its nodes and outputs refer to tensors, character by character. */
module FunctionText {
  import opened Sequences
  import opened Wrappers
  import opened NodeNames
  import opened FunctionGraph
  import opened FunctionConversion

  // ----- output arguments

  function Counts(outputs: seq<OutputArg>): seq<nat> {
    seq(|outputs|, a requires 0 <= a < |outputs| => outputs[a].count)
  }

  /** Where an argument starts is how many tensors the arguments before it stand for. */
  lemma {:induction false} StartIsSum(outputs: seq<OutputArg>, a: nat)
    requires a <= |outputs|
    ensures Start(outputs, a) == Sum(Counts(outputs)[..a])
  {
    if a > 0 {
      StartIsSum(outputs, a - 1);
      assert Counts(outputs)[..a][..a - 1] == Counts(outputs)[..a - 1];
    }
  }

  /** Argument a stands for output tensor i, which is number `offset` of it. */
  ghost predicate StandsFor(outputs: seq<OutputArg>, a: int, i: int, offset: nat) {
    0 <= a < |outputs| && offset < outputs[a].count && Sum(Counts(outputs)[..a]) + offset == i
  }

  lemma StandsForIsLocal(outputs: seq<OutputArg>, a: nat, i: nat, offset: nat)
    requires i < Start(outputs, |outputs|)
    ensures StandsFor(outputs, a, i, offset) <==> Local(outputs, |outputs|, i) == (a, offset)
  {
    if a < |outputs| {
      StartIsSum(outputs, a);
      if StandsFor(outputs, a, i, offset) {
        LocalUnique(outputs, i, a);
      }
    }
  }

  /** A tensor has a reference type exactly if its argument has. */
  lemma RefByArgument(g: Graph, t: Tensor)
    requires ValidTensor(g, t)
    ensures var outputs := g[t.node].op.outputs;
      IsRef(g, t) <==> exists a: nat, offset: nat :: StandsFor(outputs, a, t.index, offset) && outputs[a].isRef
  {
    var outputs := g[t.node].op.outputs;
    var (a, offset) := Local(outputs, |outputs|, t.index);
    forall b: nat, o: nat
      ensures StandsFor(outputs, b, t.index, o) <==> b == a && o == offset
    {
      StandsForIsLocal(outputs, b, t.index, o);
    }
    assert StandsFor(outputs, a, t.index, offset);
  }

  // ----- references

  /** Body node b produces the tensor, and the reference is its name, its argument and the number in the argument. */
  ghost predicate IsNestedName(g: Graph, body: seq<nat>, fdef: FunctionDef, t: Tensor, b: nat, a: nat, offset: nat,
                               ref: string)
    requires ValidTensor(g, t)
  {
    var outputs := g[t.node].op.outputs;
    && b < |body| == |fdef.nodes| && body[b] == t.node && StandsFor(outputs, a, t.index, offset)
    && exists d :: IsDecimalOf(d, offset) && ref == fdef.nodes[b].name + ":" + outputs[a].name + ":" + d
  }

  /** The reference is the name of the argument for the tensor; or, if there is no argument for it, the nested name. */
  ghost predicate IsReference(g: Graph, inputs: seq<Tensor>, body: seq<nat>, fdef: FunctionDef, t: Tensor, ref: string)
    requires ValidTensor(g, t)
  {
    if t in inputs then exists i :: 0 <= i < |inputs| == |fdef.inputArgs| && inputs[i] == t && ref == fdef.inputArgs[i]
    else exists b: nat, a: nat, offset: nat :: IsNestedName(g, body, fdef, t, b, a, offset, ref)
  }

  lemma RefOfIsReference(g: Graph, inputs: seq<Tensor>, body: seq<nat>, fdef: FunctionDef, t: Tensor, ref: string)
    requires ValidTensor(g, t) && |fdef.inputArgs| == |inputs| && |fdef.nodes| == |body|
    requires RefOf(g, NamingOf(inputs, body, fdef), t) == Some(ref)
    ensures IsReference(g, inputs, body, fdef, t, ref)
  {
    if t !in inputs {
      var outputs := g[t.node].op.outputs;
      var b := Index(body, t.node);
      var (a, offset) := Local(outputs, |outputs|, t.index);
      StandsForIsLocal(outputs, a, t.index, offset);
      DecimalIsNumeral(Decimal(offset), offset);
      assert IsNestedName(g, body, fdef, t, b, a, offset, ref);
    }
  }

  /** In a converted function, data input k of a node refers to the tensor that the last edge into that input brings. */
  lemma InputText(g: Graph, inputs: seq<Tensor>, body: seq<nat>, outputs: seq<Tensor>, given: seq<string>,
                  fdef: FunctionDef, j: nat, k: nat) returns (e: Edge)
    requires ValidGraph(g) && (given == [] || |given| == |outputs|)
    requires forall r :: 0 <= r < |outputs| ==> ValidTensor(g, outputs[r])
    requires Converted(g, inputs, body, outputs, given, fdef)
    requires j < |body| && k < g[body[j]].op.numInputs
    ensures IsDataInput(g[body[j]].inEdges, k, Some(e)) && ValidTensor(g, TensorOf(e))
    ensures k < |fdef.nodes[j].inputs| && IsReference(g, inputs, body, fdef, TensorOf(e), fdef.nodes[j].inputs[k])
  {
    var nm := NamingOf(inputs, body, fdef);
    assert NodeConverted(g, nm, body[j], fdef.nodes[j]);
    assert InputRef(g, nm, body[j], k) == Some(fdef.nodes[j].inputs[k]);
    e := DataEdge(g[body[j]].inEdges, k).value;
    DataEdgeIsLast(g[body[j]].inEdges, k, Some(e));
    assert ValidNode(g, g[body[j]]);
    assert ValidEdge(g, e);
    RefOfIsReference(g, inputs, body, fdef, TensorOf(e), fdef.nodes[j].inputs[k]);
  }

  /** An output refers to its tensor. */
  lemma OutputText(g: Graph, inputs: seq<Tensor>, body: seq<nat>, outputs: seq<Tensor>, given: seq<string>,
                   fdef: FunctionDef, r: nat)
    requires ValidGraph(g) && (given == [] || |given| == |outputs|)
    requires forall r :: 0 <= r < |outputs| ==> ValidTensor(g, outputs[r])
    requires Converted(g, inputs, body, outputs, given, fdef) && r < |outputs|
    ensures fdef.outputArgs[r] in fdef.ret
    ensures IsReference(g, inputs, body, fdef, outputs[r], fdef.ret[fdef.outputArgs[r]])
  {
    assert Returned(g, NamingOf(inputs, body, fdef), outputs[r], fdef.outputArgs[r], fdef.ret);
    RefOfIsReference(g, inputs, body, fdef, outputs[r], fdef.ret[fdef.outputArgs[r]]);
  }
}
