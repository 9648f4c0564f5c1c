/** android_inference_benchmark/tools/rewrite_nnapi_split_model.py: every Split whose lengths are an
    initializer becomes one Slice per output. Graphs mean what evaluating their nodes in order gives;
    all other operators stay uninterpreted. */
module SplitRewriter {
  import opened Wrappers
  import opened Tensors
  import opened Names

  datatype Attribute = Attribute(name: string, i: int)

  datatype Node = Node(opType: string, name: string, inputs: seq<string>, outputs: seq<string>,
                       attributes: seq<Attribute>)

  datatype Initializer = Initializer(name: string, value: Tensor)

  type Env = map<string, Tensor>

  /** The uninterpreted operators: an output list, or failure, for a node and its (optional) inputs. */
  type Operators = (Node, seq<Option<Tensor>>) -> Option<seq<Tensor>>

  // ---------- what a graph means

  function Read(env: Env, name: string): Option<Tensor> {
    if name in env then Some(env[name]) else None
  }

  function Arguments(env: Env, inputs: seq<string>): (args: seq<Option<Tensor>>)
    ensures |args| == |inputs| && forall i :: 0 <= i < |inputs| ==> args[i] == Read(env, inputs[i])
  {
    seq(|inputs|, i requires 0 <= i < |inputs| => Read(env, inputs[i]))
  }

  /** `attribute.i` of the first attribute named axis, 0 without one. */
  function AxisAttribute(attributes: seq<Attribute>): int {
    if attributes == [] then 0
    else if attributes[0].name == "axis" then attributes[0].i
    else AxisAttribute(attributes[1..])
  }

  /** The one number of a one-element tensor. */
  function Single(t: Option<Tensor>): Option<int> {
    if t.Some? && |Elements(t.value.content)| == 1 then Some(Elements(t.value.content)[0]) else None
  }

  predicate IsSplit(node: Node) {
    node.opType == "Split" && |node.inputs| >= 2
  }

  function Apply(ops: Operators, node: Node, args: seq<Option<Tensor>>): Option<seq<Tensor>>
    requires |args| == |node.inputs|
  {
    if IsSplit(node) then
      if args[0].Some? && args[1].Some?
      then Split(args[0].value, Elements(args[1].value.content), AxisAttribute(node.attributes), |node.outputs|)
      else None
    else if node.opType == "Slice" && |args| == 5 && args[0].None? then None
    else if node.opType == "Slice" && |args| == 5 && Single(args[1]).Some? && Single(args[2]).Some?
            && Single(args[3]).Some? && Single(args[4]) == Some(1) then
      match Slice(args[0].value, Single(args[1]).value, Single(args[2]).value, Single(args[3]).value)
      case Some(t) => Some([t])
      case None => None
    else ops(node, args)
  }

  function Bind(env: Env, names: seq<string>, values: seq<Tensor>): Env
    requires |names| == |values|
    decreases |names|
  {
    if names == [] then env else Bind(env[names[0] := values[0]], names[1..], values[1..])
  }

  function EvalNode(ops: Operators, env: Env, node: Node): Option<Env> {
    match Apply(ops, node, Arguments(env, node.inputs))
    case Some(values) => if |values| == |node.outputs| then Some(Bind(env, node.outputs, values)) else None
    case None => None
  }

  function EvalNodes(ops: Operators, env: Env, nodes: seq<Node>): Option<Env>
    decreases |nodes|
  {
    if nodes == [] then Some(env)
    else
      match EvalNode(ops, env, nodes[0])
      case Some(next) => EvalNodes(ops, next, nodes[1..])
      case None => None
  }

  /** Initializer values by name; a later initializer of the same name wins. */
  function Values(initializers: seq<Initializer>): Env {
    if initializers == [] then map[]
    else
      var last := initializers[|initializers| - 1];
      Values(initializers[..|initializers| - 1])[last.name := last.value]
  }

  /** A graph evaluated on feeds, which override initializers of the same name. */
  function Eval(ops: Operators, nodes: seq<Node>, initializers: seq<Initializer>, feeds: Env): Option<Env> {
    EvalNodes(ops, Values(initializers) + feeds, nodes)
  }

  // ---------- the rewriter

  datatype Piece = Piece(nodes: seq<Node>, initializers: seq<Initializer>, replaced: nat)

  function Scalar(value: int): Tensor {
    Tensor([1], Rows([Element(value)]))
  }

  function SliceInputs(data: string, node: nat, output: nat): seq<string> {
    [data, GeneratedName(node, output, Starts), GeneratedName(node, output, Ends),
     GeneratedName(node, output, Axes), GeneratedName(node, output, Steps)]
  }

  function SliceNode(node: Node, index: nat, output: nat): Node
    requires IsSplit(node) && output < |node.outputs|
  {
    Node("Slice", node.name + "_slice_" + Decimal(output), SliceInputs(node.inputs[0], index, output),
         [node.outputs[output]], [])
  }

  function SliceInitializers(index: nat, output: nat, start: int, end: int, axis: int): seq<Initializer> {
    [Initializer(GeneratedName(index, output, Starts), Scalar(start)),
     Initializer(GeneratedName(index, output, Ends), Scalar(end)),
     Initializer(GeneratedName(index, output, Axes), Scalar(axis)),
     Initializer(GeneratedName(index, output, Steps), Scalar(1))]
  }

  predicate Positive(lengths: seq<int>) {
    forall i :: 0 <= i < |lengths| ==> lengths[i] > 0
  }

  /** The Slice nodes for the first `n` outputs of a Split. */
  function Slices(node: Node, index: nat, lengths: seq<nat>, n: nat): Piece
    requires IsSplit(node) && |lengths| == |node.outputs| && n <= |lengths|
  {
    if n == 0 then Piece([], [], 0)
    else
      var before, start := Slices(node, index, lengths, n - 1), StartOf(lengths, n - 1);
      Piece(before.nodes + [SliceNode(node, index, n - 1)],
            before.initializers
            + SliceInitializers(index, n - 1, start, start + lengths[n - 1], AxisAttribute(node.attributes)),
            n)
  }

  /** The lengths of a Split that are an initializer's value. */
  function StaticLengths(values: Env, node: Node): (lengths: Option<seq<int>>)
    ensures lengths.Some? ==> IsSplit(node) && node.inputs[1] in values
  {
    if IsSplit(node) && node.inputs[1] in values then Some(Elements(values[node.inputs[1]].content)) else None
  }

  function RewriteNode(values: Env, index: nat, node: Node): Result<Piece, string> {
    match StaticLengths(values, node)
    case None => Ok(Piece([node], [], 0))
    case Some(lengths) =>
      if |lengths| != |node.outputs| || !Positive(lengths) then Err(node.name)
      else Ok(Slices(node, index, lengths, |lengths|))
  }

  /** The rewriting of the first `n` nodes. */
  function RewriteNodes(values: Env, nodes: seq<Node>, n: nat): Result<Piece, string>
    requires n <= |nodes|
  {
    if n == 0 then Ok(Piece([], [], 0))
    else
      match RewriteNodes(values, nodes, n - 1)
      case Err(e) => Err(e)
      case Ok(before) =>
        match RewriteNode(values, n - 1, nodes[n - 1])
        case Err(e) => Err(e)
        case Ok(piece) =>
          Ok(Piece(before.nodes + piece.nodes, before.initializers + piece.initializers,
            before.replaced + piece.replaced))
  }

  class Graph {
    var nodes: seq<Node>
    var initializers: seq<Initializer>
  }

  /** Builds the four index tensors of one Slice and the inputs that name them. */
  method SliceTensors(data: string, index: nat, output: nat, start: int, end: int, axis: int)
    returns (inputs: seq<string>, generated: seq<Initializer>)
    ensures inputs == SliceInputs(data, index, output)
    ensures generated == SliceInitializers(index, output, start, end, axis)
  {
    hide GeneratedName;
    inputs, generated := [data], [];
    var suffixes := [(Starts, start), (Ends, end), (Axes, axis), (Steps, 1)];
    ghost var names, made := SliceInputs(data, index, output), SliceInitializers(index, output, start, end, axis);
    for s := 0 to 4
      invariant inputs == names[..s + 1] && generated == made[..s]
    {
      var (suffix, value) := suffixes[s];
      assert names[s + 1] == GeneratedName(index, output, suffix);
      assert made[s] == Initializer(names[s + 1], Scalar(value));
      generated := generated + [Initializer(GeneratedName(index, output, suffix), Scalar(value))];
      inputs := inputs + [GeneratedName(index, output, suffix)];
    }
  }

  /** Builds the Slice nodes of one Split, output by output. */
  method SliceOutputs(node: Node, index: nat, lengths: seq<nat>)
    returns (nodes: seq<Node>, generated: seq<Initializer>, replaced: nat)
    requires IsSplit(node) && |lengths| == |node.outputs|
    ensures Piece(nodes, generated, replaced) == Slices(node, index, lengths, |lengths|)
  {
    hide SliceInitializers, SliceInputs;
    nodes, generated, replaced := [], [], 0;
    var axis := AxisAttribute(node.attributes);
    var start := 0;
    for output := 0 to |lengths|
      invariant Piece(nodes, generated, replaced) == Slices(node, index, lengths, output)
      invariant start == StartOf(lengths, output)
    {
      StartWithin(lengths, output);
      var inputs, made := SliceTensors(node.inputs[0], index, output, start, start + lengths[output], axis);
      generated := generated + made;
      nodes := nodes + [Node("Slice", node.name + "_slice_" + Decimal(output), inputs, [node.outputs[output]], [])];
      start := start + lengths[output];
      replaced := replaced + 1;
    }
  }

  /** The rewriting pass, which replaces the graph's nodes in place and appends its new initializers. */
  method RewriteStaticSplits(graph: Graph) returns (r: Result<nat, string>)
    modifies graph
    ensures var nodes, initializers := old(graph.nodes), old(graph.initializers);
      match RewriteNodes(Values(initializers), nodes, |nodes|)
      case Ok(piece) =>
        && graph.nodes == piece.nodes
        && graph.initializers == initializers + piece.initializers
        && r == Ok(piece.replaced)
      case Err(e) => r == Err(e) && graph.nodes == nodes && graph.initializers == initializers
  {
    hide Slices, StaticLengths;
    var values := Values(graph.initializers);
    var rewritten: seq<Node>, generated: seq<Initializer>, replaced := [], [], 0;
    for index := 0 to |graph.nodes|
      invariant graph.nodes == old(graph.nodes) && graph.initializers == old(graph.initializers)
      invariant RewriteNodes(values, graph.nodes, index) == Ok(Piece(rewritten, generated, replaced))
    {
      var node := graph.nodes[index];
      var lengths := StaticLengths(values, node);
      if lengths.None? {
        rewritten := rewritten + [node];
        assert generated + [] == generated;
        continue;
      }
      if |lengths.value| != |node.outputs| || !Positive(lengths.value) {
        StaysRefused(values, graph.nodes, index, |graph.nodes|);
        return Err(node.name);
      }
      var nodes, made, count := SliceOutputs(node, index, lengths.value);
      rewritten, generated, replaced := rewritten + nodes, generated + made, replaced + count;
    }
    graph.nodes := rewritten;
    graph.initializers := graph.initializers + generated;
    r := Ok(replaced);
  }

  /** One refused Split refuses the graph, naming that node. */
  lemma {:induction false} StaysRefused(values: Env, nodes: seq<Node>, index: nat, n: nat)
    requires index < n <= |nodes|
    requires RewriteNodes(values, nodes, index).Ok? && RewriteNode(values, index, nodes[index]).Err?
    ensures RewriteNodes(values, nodes, n) == Err(nodes[index].name)
  {
    hide StaticLengths, Slices, Positive;
    if n > index + 1 { StaysRefused(values, nodes, index, n - 1); }
  }
}
