/** The rewritten graph means what the original means: on every feed, every original tensor name
    gets the same tensor, and the graph keeps its order and its single assignments. */
module SplitPreservation {
  import opened Wrappers
  import opened Tensors
  import opened Names
  import opened SplitRewriter

  // ---------- well-formed graphs

  ghost predicate PlainNames(names: seq<string>) {
    forall i :: 0 <= i < |names| ==> !IsGenerated(names[i])
  }

  /** No name of the graph or of its feeds has the generated form. */
  ghost predicate Fresh(nodes: seq<Node>, initializers: seq<Initializer>, feeds: Env) {
    && (forall i :: 0 <= i < |nodes| ==> PlainNames(nodes[i].inputs) && PlainNames(nodes[i].outputs))
    && (forall i :: 0 <= i < |initializers| ==> !IsGenerated(initializers[i].name))
    && (forall x <- feeds.Keys :: !IsGenerated(x))
  }

  /** Every output name is new: not defined from the start, and the output of no other place. */
  ghost predicate SingleAssignment(nodes: seq<Node>, defined: set<string>) {
    && (forall i, a :: 0 <= i < |nodes| && 0 <= a < |nodes[i].outputs| ==> nodes[i].outputs[a] !in defined)
    && (forall i, a, j, b ::
          (0 <= i < |nodes| && 0 <= a < |nodes[i].outputs| && 0 <= j < |nodes| && 0 <= b < |nodes[j].outputs|
           && nodes[i].outputs[a] == nodes[j].outputs[b])
          ==> (i == j && a == b))
  }

  /** No feed overrides the lengths of a static Split. */
  ghost predicate NotOverridden(nodes: seq<Node>, values: Env, feeds: Env) {
    forall i :: 0 <= i < |nodes| && StaticLengths(values, nodes[i]).Some? ==> nodes[i].inputs[1] !in feeds
  }

  ghost predicate Accepted(nodes: seq<Node>, initializers: seq<Initializer>) {
    RewriteNodes(Values(initializers), nodes, |nodes|).Ok?
  }

  // ---------- generated initializers

  /** The tensor the rewriter means by a generated name. */
  ghost function Meant(values: Env, nodes: seq<Node>, index: nat, output: nat, suffix: Suffix): Tensor
    requires index < |nodes|
  {
    match StaticLengths(values, nodes[index])
    case None => Scalar(0)
    case Some(lengths) =>
      if Positive(lengths) && output < |lengths| then
        match suffix
        case Starts => Scalar(StartOf(lengths, output))
        case Ends => Scalar(StartOf(lengths, output) + lengths[output])
        case Axes => Scalar(AxisAttribute(nodes[index].attributes))
        case Steps => Scalar(1)
      else Scalar(0)
  }

  ghost predicate Faithful(values: Env, nodes: seq<Node>, init: Initializer) {
    exists i, o, s ::
      0 <= i < |nodes| && 0 <= o && init == Initializer(GeneratedName(i, o, s), Meant(values, nodes, i, o, s))
  }

  ghost predicate AllFaithful(values: Env, nodes: seq<Node>, inits: seq<Initializer>) {
    forall k :: 0 <= k < |inits| ==> Faithful(values, nodes, inits[k])
  }

  lemma {:induction false} SlicesFaithful(values: Env, nodes: seq<Node>, index: nat, lengths: seq<nat>, n: nat)
    requires index < |nodes| && StaticLengths(values, nodes[index]) == Some(lengths) && Positive(lengths)
    requires |lengths| == |nodes[index].outputs| && n <= |lengths|
    ensures AllFaithful(values, nodes, Slices(nodes[index], index, lengths, n).initializers)
  {
    hide GeneratedName, SliceInitializers, Meant;
    if n > 0 {
      SlicesFaithful(values, nodes, index, lengths, n - 1);
      MadeFaithful(values, nodes, index, lengths, n - 1);
    }
  }

  /** The four index tensors of one Slice. */
  lemma MadeFaithful(values: Env, nodes: seq<Node>, index: nat, lengths: seq<nat>, o: nat)
    requires index < |nodes| && StaticLengths(values, nodes[index]) == Some(lengths) && Positive(lengths)
    requires |lengths| == |nodes[index].outputs| && o < |lengths|
    ensures var start := StartOf(lengths, o);
      AllFaithful(values, nodes,
        SliceInitializers(index, o, start, start + lengths[o], AxisAttribute(nodes[index].attributes)))
  {
    hide GeneratedName, StaticLengths, StartOf, Positive, Slices;
    var axis, start := AxisAttribute(nodes[index].attributes), StartOf(lengths, o);
    var made := SliceInitializers(index, o, start, start + lengths[o], axis);
    assert made[0] == Initializer(GeneratedName(index, o, Starts), Meant(values, nodes, index, o, Starts));
    assert made[1] == Initializer(GeneratedName(index, o, Ends), Meant(values, nodes, index, o, Ends));
    assert made[2] == Initializer(GeneratedName(index, o, Axes), Meant(values, nodes, index, o, Axes));
    assert made[3] == Initializer(GeneratedName(index, o, Steps), Meant(values, nodes, index, o, Steps));
  }

  lemma {:induction false} GeneratedFaithful(values: Env, nodes: seq<Node>, n: nat)
    requires n <= |nodes| && RewriteNodes(values, nodes, n).Ok?
    ensures AllFaithful(values, nodes, RewriteNodes(values, nodes, n).value.initializers)
  {
    hide Slices, Faithful;
    if n > 0 {
      GeneratedFaithful(values, nodes, n - 1);
      var lengths := StaticLengths(values, nodes[n - 1]);
      if lengths.Some? {
        SlicesFaithful(values, nodes, n - 1, lengths.value, |lengths.value|);
      }
    }
  }

  /** In a faithful list a generated name has its meant value, whatever the order. */
  lemma {:induction false} FaithfulValues(values: Env, nodes: seq<Node>, inits: seq<Initializer>)
    requires AllFaithful(values, nodes, inits)
    ensures forall i, o, s | 0 <= i < |nodes| && 0 <= o && GeneratedName(i, o, s) in Values(inits) ::
              Values(inits)[GeneratedName(i, o, s)] == Meant(values, nodes, i, o, s)
    ensures forall x <- Values(inits).Keys :: IsGenerated(x)
  {
    hide GeneratedName, IsGenerated, Meant;
    if inits != [] {
      var last := inits[|inits| - 1];
      FaithfulValues(values, nodes, inits[..|inits| - 1]);
      assert Faithful(values, nodes, last);
      var j: nat, q: nat, r :| 0 <= j < |nodes|
        && last == Initializer(GeneratedName(j, q, r), Meant(values, nodes, j, q, r));
      GeneratedForm(j, q, r);
      forall i, o, s | 0 <= i < |nodes| && 0 <= o && GeneratedName(i, o, s) in Values(inits)
        ensures Values(inits)[GeneratedName(i, o, s)] == Meant(values, nodes, i, o, s)
      {
        if GeneratedName(i, o, s) == last.name { GeneratedNamesDiffer(i, o, s, j, q, r); }
      }
    }
  }

  lemma GeneratedForm(i: nat, o: nat, s: Suffix)
    ensures IsGenerated(GeneratedName(i, o, s))
  {
  }

  lemma {:induction false} ValuesAppend(a: seq<Initializer>, b: seq<Initializer>)
    ensures Values(a + b) == Values(a) + Values(b)
  {
    if b == [] {
      assert a + b == a;
    } else {
      assert (a + b)[..|a + b| - 1] == a + b[..|b| - 1] && (a + b)[|a + b| - 1] == b[|b| - 1];
      ValuesAppend(a, b[..|b| - 1]);
    }
  }

  lemma {:induction false} ValuesHold(inits: seq<Initializer>, k: nat)
    requires k < |inits|
    ensures inits[k].name in Values(inits)
  {
    if k < |inits| - 1 { ValuesHold(inits[..|inits| - 1], k); }
  }

  /** All four index tensors of every Slice built from the first `n` outputs are in the list. */
  lemma {:induction false} SlicesName(node: Node, index: nat, lengths: seq<nat>, n: nat, o: nat, s: Suffix)
    requires IsSplit(node) && |lengths| == |node.outputs| && o < n <= |lengths|
    ensures exists k | 0 <= k < |Slices(node, index, lengths, n).initializers| ::
              Slices(node, index, lengths, n).initializers[k].name == GeneratedName(index, o, s)
  {
    hide GeneratedName;
    var before, after := Slices(node, index, lengths, n - 1).initializers, Slices(node, index, lengths, n).initializers;
    if o < n - 1 {
      SlicesName(node, index, lengths, n - 1, o, s);
      var k :| 0 <= k < |before| && before[k].name == GeneratedName(index, o, s);
      assert after[k] == before[k];
    } else {
      var offset := match s case Starts => 0 case Ends => 1 case Axes => 2 case Steps => 3;
      assert after[|before| + offset].name == GeneratedName(index, o, s);
    }
  }

  lemma {:induction false} GeneratedCover(values: Env, nodes: seq<Node>, n: nat, i: nat, o: nat, s: Suffix)
    requires i < n <= |nodes| && RewriteNodes(values, nodes, n).Ok?
    requires StaticLengths(values, nodes[i]).Some? && o < |nodes[i].outputs|
    ensures GeneratedName(i, o, s) in Values(RewriteNodes(values, nodes, n).value.initializers)
  {
    hide Slices, GeneratedName;
    var before, piece := RewriteNodes(values, nodes, n - 1).value.initializers,
      RewriteNode(values, n - 1, nodes[n - 1]).value.initializers;
    ValuesAppend(before, piece);
    if i < n - 1 {
      GeneratedCover(values, nodes, n - 1, i, o, s);
    } else {
      var lengths := StaticLengths(values, nodes[i]).value;
      SlicesName(nodes[i], i, lengths, |lengths|, o, s);
      var k :| 0 <= k < |piece| && piece[k].name == GeneratedName(i, o, s);
      ValuesHold(piece, k);
    }
  }

  // ---------- evaluation

  lemma {:induction false} EvalAppend(ops: Operators, env: Env, a: seq<Node>, b: seq<Node>)
    ensures EvalNodes(ops, env, a + b)
         == match EvalNodes(ops, env, a) case Some(next) => EvalNodes(ops, next, b) case None => None
    decreases |a|
  {
    hide EvalNode;
    if a == [] {
      assert a + b == b;
    } else {
      assert (a + b)[0] == a[0] && (a + b)[1..] == a[1..] + b;
      match EvalNode(ops, env, a[0])
      case Some(next) => EvalAppend(ops, next, a[1..], b);
      case None =>
    }
  }

  lemma EvalSnoc(ops: Operators, env: Env, a: seq<Node>, node: Node)
    ensures EvalNodes(ops, env, a + [node])
         == match EvalNodes(ops, env, a) case Some(next) => EvalNode(ops, next, node) case None => None
  {
    hide EvalNode;
    EvalAppend(ops, env, a, [node]);
    match EvalNodes(ops, env, a)
    case Some(next) =>
      assert EvalNodes(ops, next, [node]) == EvalNode(ops, next, node) by {
        assert [node][1..] == [];
      }
    case None =>
  }

  lemma {:induction false} BindFrame(env: Env, names: seq<string>, values: seq<Tensor>)
    requires |names| == |values|
    ensures forall x | x !in names :: Read(Bind(env, names, values), x) == Read(env, x)
    ensures Bind(env, names, values).Keys == env.Keys + (set x | x in names)
    decreases |names|
  {
    if names != [] {
      BindFrame(env[names[0] := values[0]], names[1..], values[1..]);
      assert names == [names[0]] + names[1..];
    }
  }

  lemma {:induction false} BindSnoc(env: Env, names: seq<string>, values: seq<Tensor>, n: nat)
    requires |names| == |values| && n < |names|
    ensures Bind(env, names[..n + 1], values[..n + 1]) == Bind(env, names[..n], values[..n])[names[n] := values[n]]
    decreases n
  {
    if n > 0 {
      BindSnoc(env[names[0] := values[0]], names[1..], values[1..], n - 1);
      assert names[..n + 1][1..] == names[1..][..n] && values[..n + 1][1..] == values[1..][..n];
      assert names[..n][1..] == names[1..][..n - 1] && values[..n][1..] == values[1..][..n - 1];
    }
  }

  lemma {:induction false} BindBeside(env: Env, extra: Env, names: seq<string>, values: seq<Tensor>)
    requires |names| == |values| && forall i :: 0 <= i < |names| ==> names[i] !in extra
    ensures Bind(env + extra, names, values) == Bind(env, names, values) + extra
    decreases |names|
  {
    if names != [] {
      assert (env + extra)[names[0] := values[0]] == env[names[0] := values[0]] + extra;
      BindBeside(env[names[0] := values[0]], extra, names[1..], values[1..]);
    }
  }

  /** Where the original run stands, and where the rewritten one does: the same, plus the generated tensors. */
  ghost predicate InStep(original: Option<Env>, rewritten: Option<Env>, extra: Env) {
    match original
    case Some(env) => rewritten == Some(env + extra)
    case None => rewritten.None?
  }

  /** A node that is kept does the same beside the generated tensors. */
  lemma KeptNode(ops: Operators, env: Env, extra: Env, node: Node)
    requires PlainNames(node.inputs) && PlainNames(node.outputs) && forall x <- extra.Keys :: IsGenerated(x)
    ensures InStep(EvalNode(ops, env, node), EvalNode(ops, env + extra, node), extra)
  {
    hide Apply;
    assert Arguments(env + extra, node.inputs) == Arguments(env, node.inputs);
    match Apply(ops, node, Arguments(env, node.inputs))
    case Some(values) => if |values| == |node.outputs| { BindBeside(env, extra, node.outputs, values); }
    case None =>
  }

  // ---------- one Split

  /** The environment holds the index tensors of all Slices that replace the node. */
  ghost predicate HoldsIndices(env: Env, node: Node, index: nat, lengths: seq<nat>) {
    forall o :: 0 <= o < |lengths| ==>
      && Read(env, GeneratedName(index, o, Starts)) == Some(Scalar(StartOf(lengths, o)))
      && Read(env, GeneratedName(index, o, Ends)) == Some(Scalar(StartOf(lengths, o) + lengths[o]))
      && Read(env, GeneratedName(index, o, Axes)) == Some(Scalar(AxisAttribute(node.attributes)))
      && Read(env, GeneratedName(index, o, Steps)) == Some(Scalar(1))
  }

  lemma SingleScalar(value: int)
    ensures Single(Some(Scalar(value))) == Some(value)
  {
    assert Elements(Rows([Element(value)])) == Elements(Element(value)) + RowElements([]) by {
      assert [Element(value)][1..] == [];
    }
  }

  function SliceOf(t: Tensor, node: Node, lengths: seq<nat>, o: nat): Option<Tensor>
    requires o < |lengths|
  {
    Slice(t, StartOf(lengths, o), StartOf(lengths, o) + lengths[o], AxisAttribute(node.attributes))
  }

  lemma BindOne(env: Env, name: string, value: Tensor)
    ensures Bind(env, [name], [value]) == env[name := value]
  {
    assert [name][1..] == [] && [value][1..] == [];
  }

  /** Evaluating one of the Slice nodes. */
  lemma SliceNodeEval(ops: Operators, env: Env, node: Node, index: nat, lengths: seq<nat>, o: nat)
    requires IsSplit(node) && |lengths| == |node.outputs| && o < |lengths| && HoldsIndices(env, node, index, lengths)
    ensures EvalNode(ops, env, SliceNode(node, index, o))
         == if node.inputs[0] in env && SliceOf(env[node.inputs[0]], node, lengths, o).Some?
            then Some(env[node.outputs[o] := SliceOf(env[node.inputs[0]], node, lengths, o).value])
            else None
  {
    hide GeneratedName, Slice, Single;
    var slice := SliceNode(node, index, o);
    var args := Arguments(env, slice.inputs);
    var start := StartOf(lengths, o);
    assert args == [Read(env, node.inputs[0]), Some(Scalar(start)), Some(Scalar(start + lengths[o])),
                    Some(Scalar(AxisAttribute(node.attributes))), Some(Scalar(1))];
    SingleScalar(start);
    SingleScalar(start + lengths[o]);
    SingleScalar(AxisAttribute(node.attributes));
    SingleScalar(1);
    if node.inputs[0] in env {
      match SliceOf(env[node.inputs[0]], node, lengths, o)
      case Some(value) =>
        assert Apply(ops, slice, args) == Some([value]);
        BindOne(env, node.outputs[o], value);
      case None =>
    }
  }

  /** The slices of one tensor that stand for the first `n` pieces. */
  ghost function SlicesOf(t: Tensor, node: Node, lengths: seq<nat>, n: nat): seq<Tensor>
    requires n <= |lengths| && AxisOf(AxisAttribute(node.attributes), |t.shape|).Some?
  {
    seq(n, o requires 0 <= o < n => SliceOf(t, node, lengths, o).value)
  }

  /** The Slice nodes bind the slices to the outputs of the Split, provided the data and its axis are there. */
  lemma {:induction false} SlicesEval(ops: Operators, env: Env, node: Node, index: nat, lengths: seq<nat>, n: nat)
    requires IsSplit(node) && |lengths| == |node.outputs| && n <= |lengths| && HoldsIndices(env, node, index, lengths)
    requires PlainNames(node.outputs) && node.inputs[0] !in node.outputs
    requires node.inputs[0] in env && AxisOf(AxisAttribute(node.attributes), |env[node.inputs[0]].shape|).Some?
    ensures EvalNodes(ops, env, Slices(node, index, lengths, n).nodes)
         == Some(Bind(env, node.outputs[..n], SlicesOf(env[node.inputs[0]], node, lengths, n)))
  {
    hide EvalNode, SliceOf, SliceNode, GeneratedName, HoldsIndices;
    var t, all := env[node.inputs[0]], SlicesOf(env[node.inputs[0]], node, lengths, |lengths|);
    assert SlicesOf(t, node, lengths, n) == all[..n];
    if n > 0 {
      SlicesEval(ops, env, node, index, lengths, n - 1);
      assert SlicesOf(t, node, lengths, n - 1) == all[..n - 1];
      var before := Bind(env, node.outputs[..n - 1], all[..n - 1]);
      EvalSnoc(ops, env, Slices(node, index, lengths, n - 1).nodes, SliceNode(node, index, n - 1));
      BindFrame(env, node.outputs[..n - 1], all[..n - 1]);
      IndicesSurvive(env, before, node, index, lengths, n - 1);
      assert Read(before, node.inputs[0]) == Read(env, node.inputs[0]);
      SliceNodeEval(ops, before, node, index, lengths, n - 1);
      SliceDefined(t, node, lengths, n - 1);
      BindSnoc(env, node.outputs, all, n - 1);
    }
  }

  lemma SliceDefined(t: Tensor, node: Node, lengths: seq<nat>, o: nat)
    requires o < |lengths|
    ensures SliceOf(t, node, lengths, o).Some? <==> AxisOf(AxisAttribute(node.attributes), |t.shape|).Some?
  {
  }

  lemma IndicesSurvive(env: Env, after: Env, node: Node, index: nat, lengths: seq<nat>, n: nat)
    requires HoldsIndices(env, node, index, lengths) && PlainNames(node.outputs) && n <= |node.outputs|
    requires forall x | x !in node.outputs[..n] :: Read(after, x) == Read(env, x)
    ensures HoldsIndices(after, node, index, lengths)
  {
    forall o, s ensures GeneratedName(o, index, s) !in node.outputs { GeneratedForm(o, index, s); }
    forall o: nat, s ensures GeneratedName(index, o, s) !in node.outputs[..n] { GeneratedForm(index, o, s); }
  }

  /** A Split by `fed` cuts the axis where the slices by `lengths` do: `fed` is a split of the axis, and
      each of its lengths is what the axis leaves of the slice. */
  ghost predicate CutsAlike(fed: seq<int>, lengths: seq<nat>, dim: nat) {
    && |fed| == |lengths| && NoneNegative(fed) && Total(fed) == dim
    && forall o :: 0 <= o < |lengths| ==>
        fed[o] == Clamp(StartOf(lengths, o) + lengths[o], dim) - Clamp(StartOf(lengths, o), dim)
  }

  lemma {:induction false} StartsAlike(fed: seq<nat>, lengths: seq<nat>, dim: nat, o: nat)
    requires CutsAlike(fed, lengths, dim) && o <= |lengths|
    ensures StartOf(fed, o) == Clamp(StartOf(lengths, o), dim)
  {
    if o == 0 {
      assert fed[..0] == [] && lengths[..0] == [];
    } else {
      StartsAlike(fed, lengths, dim, o - 1);
      StartWithin(fed, o - 1);
      StartWithin(lengths, o - 1);
    }
  }

  /** The slices are the pieces of a Split of the axis exactly when both cut alike. */
  lemma SlicesArePieces(t: Tensor, node: Node, k: nat, fed: seq<nat>, lengths: seq<nat>)
    requires AxisOf(AxisAttribute(node.attributes), |t.shape|) == Some(k) && Total(fed) == t.shape[k]
      && |fed| == |lengths|
    ensures SlicesOf(t, node, lengths, |lengths|) == Pieces(t, k, fed) <==> CutsAlike(fed, lengths, t.shape[k])
  {
    hide Pieces, SliceOf, Clamp, StartOf;
    var slices, pieces := SlicesOf(t, node, lengths, |lengths|), Pieces(t, k, fed);
    forall o | 0 <= o < |lengths| && (CutsAlike(fed, lengths, t.shape[k]) || slices[o] == pieces[o])
      ensures slices[o] == pieces[o]
      ensures fed[o] == Clamp(StartOf(lengths, o) + lengths[o], t.shape[k]) - Clamp(StartOf(lengths, o), t.shape[k])
    {
      if CutsAlike(fed, lengths, t.shape[k]) {
        SliceIsPiece(t, node, k, fed, lengths, o);
      } else {
        SliceDefined(t, node, lengths, o);
        SliceLength(t, node, k, fed, lengths, o);
      }
    }
  }

  lemma SliceIsPiece(t: Tensor, node: Node, k: nat, fed: seq<nat>, lengths: seq<nat>, o: nat)
    requires AxisOf(AxisAttribute(node.attributes), |t.shape|) == Some(k) && Total(fed) == t.shape[k] && o < |lengths|
    requires CutsAlike(fed, lengths, t.shape[k])
    ensures o < |Pieces(t, k, fed)| && SliceOf(t, node, lengths, o) == Some(Pieces(t, k, fed)[o])
  {
    hide Pieces, SliceContent, Shaped, StartOf;
    PieceIsSlice(t, k, fed, o);
    StartsAlike(fed, lengths, t.shape[k], o);
  }

  lemma SliceLength(t: Tensor, node: Node, k: nat, fed: seq<nat>, lengths: seq<nat>, o: nat)
    requires AxisOf(AxisAttribute(node.attributes), |t.shape|) == Some(k) && Total(fed) == t.shape[k]
      && |fed| == |lengths|
    requires o < |lengths| && SliceOf(t, node, lengths, o) == Some(Pieces(t, k, fed)[o])
    ensures fed[o] == Clamp(StartOf(lengths, o) + lengths[o], t.shape[k]) - Clamp(StartOf(lengths, o), t.shape[k])
  {
    hide Pieces, SliceContent, Shaped, StartOf;
    PieceIsSlice(t, k, fed, o);
    assert Pieces(t, k, fed)[o].shape[k] == fed[o];
  }

  ghost predicate DistinctNames(names: seq<string>) {
    forall i, j :: 0 <= i < j < |names| ==> names[i] != names[j]
  }

  lemma {:induction false} BindReads(env: Env, names: seq<string>, values: seq<Tensor>, i: nat)
    requires |names| == |values| && i < |names| && DistinctNames(names)
    ensures Read(Bind(env, names, values), names[i]) == Some(values[i])
    decreases |names|
  {
    var next := env[names[0] := values[0]];
    if i == 0 {
      BindFrame(next, names[1..], values[1..]);
    } else {
      BindReads(next, names[1..], values[1..], i - 1);
    }
  }

  /** Distinct names tell which tensors were bound to them. */
  lemma BindInjective(env: Env, names: seq<string>, a: seq<Tensor>, b: seq<Tensor>)
    requires |names| == |a| == |b| && DistinctNames(names)
    ensures Bind(env, names, a) == Bind(env, names, b) <==> a == b
  {
    hide Bind;
    if Bind(env, names, a) == Bind(env, names, b) {
      forall i | 0 <= i < |names| ensures a[i] == b[i] {
        BindReads(env, names, a, i);
        BindReads(env, names, b, i);
      }
    }
  }

  /** The lengths that arrive, initializer or feed, cut the data as the slices do; with the data or the
      axis missing both graphs stop, unless there is no output and hence no Slice to notice. */
  ghost predicate Fits(env: Env, node: Node, lengths: seq<nat>)
    requires IsSplit(node)
  {
    if node.inputs[0] in env && AxisOf(AxisAttribute(node.attributes), |env[node.inputs[0]].shape|).Some?
    then
      var t := env[node.inputs[0]];
      node.inputs[1] in env
      && CutsAlike(Elements(env[node.inputs[1]].content), lengths,
        t.shape[AxisOf(AxisAttribute(node.attributes), |t.shape|).value])
    else lengths != []
  }

  /** One static Split and its Slices stay in step exactly when the arriving lengths fit. */
  lemma SplitInStepIff(ops: Operators, env: Env, extra: Env, node: Node, index: nat, lengths: seq<nat>)
    requires IsSplit(node) && |lengths| == |node.outputs|
    requires PlainNames(node.inputs) && PlainNames(node.outputs) && DistinctNames(node.outputs)
    requires node.inputs[0] in env ==> node.inputs[0] !in node.outputs
    requires forall x <- extra.Keys :: IsGenerated(x)
    requires HoldsIndices(env + extra, node, index, lengths)
    ensures InStep(EvalNode(ops, env, node),
      EvalNodes(ops, env + extra, Slices(node, index, lengths, |lengths|).nodes), extra)
       <==> Fits(env, node, lengths)
  {
    hide HoldsIndices, SliceOf, Slices, Split, Elements, CutsAlike, Bind;
    var x, axis := node.inputs[0], AxisAttribute(node.attributes);
    assert !IsGenerated(x);
    assert Read(env + extra, x) == Read(env, x);
    if x in env && AxisOf(axis, |env[x].shape|).Some? {
      SlicesEval(ops, env + extra, node, index, lengths, |lengths|);
      assert node.outputs[..|lengths|] == node.outputs;
      DataInStepIff(ops, env, extra, node, lengths);
    } else {
      SplitNeedsData(ops, env, node);
      if lengths != [] {
        FirstSliceFails(ops, env + extra, node, index, lengths, |lengths|);
      } else {
        NoSlices(node, index, lengths);
      }
    }
  }

  lemma SplitNeedsData(ops: Operators, env: Env, node: Node)
    requires IsSplit(node)
    requires node.inputs[0] in env ==> AxisOf(AxisAttribute(node.attributes), |env[node.inputs[0]].shape|).None?
    ensures EvalNode(ops, env, node).None?
  {
    hide Elements;
  }

  /** The case in which the data and its axis are there. */
  lemma DataInStepIff(ops: Operators, env: Env, extra: Env, node: Node, lengths: seq<nat>)
    requires IsSplit(node) && |lengths| == |node.outputs| && PlainNames(node.outputs) && DistinctNames(node.outputs)
    requires node.inputs[0] in env && AxisOf(AxisAttribute(node.attributes), |env[node.inputs[0]].shape|).Some?
    requires forall x <- extra.Keys :: IsGenerated(x)
    ensures InStep(EvalNode(ops, env, node),
                   Some(Bind(env + extra, node.outputs, SlicesOf(env[node.inputs[0]], node, lengths, |lengths|))),
                   extra)
       <==> Fits(env, node, lengths)
  {
    hide SliceOf, Elements, Bind, Pieces, CutsAlike;
    var t := env[node.inputs[0]];
    var k := AxisOf(AxisAttribute(node.attributes), |t.shape|).value;
    if node.inputs[1] in env {
      var fed := Elements(env[node.inputs[1]].content);
      AlikeSplits(fed, lengths, t.shape[k]);
      if |fed| == |lengths| && NoneNegative(fed) && Total(fed) == t.shape[k] {
        var pieces, slices := Pieces(t, k, fed), SlicesOf(t, node, lengths, |lengths|);
        assert |slices| == |lengths|;
        BindBeside(env, extra, node.outputs, pieces);
        BindInjective(env + extra, node.outputs, slices, pieces);
        SlicesArePieces(t, node, k, fed, lengths);
      }
    }
  }

  lemma AlikeSplits(fed: seq<int>, lengths: seq<nat>, dim: nat)
    ensures CutsAlike(fed, lengths, dim) ==> |fed| == |lengths| && NoneNegative(fed) && Total(fed) == dim
  {
  }

  /** Lengths that nobody overrides cut alike exactly when they fill the axis. */
  lemma SameLengthsFit(lengths: seq<nat>, dim: nat)
    ensures CutsAlike(lengths, lengths, dim) <==> Total(lengths) == dim
  {
    if Total(lengths) == dim {
      forall o | 0 <= o < |lengths|
        ensures lengths[o] == Clamp(StartOf(lengths, o) + lengths[o], dim) - Clamp(StartOf(lengths, o), dim)
      {
        StartWithin(lengths, o);
      }
    }
  }

  /** For lengths that nobody overrides: in step exactly when they fill the axis, or when the data or
      the axis is missing and there is a Slice to notice. */
  lemma UnfedSplitInStepIff(ops: Operators, env: Env, extra: Env, node: Node, index: nat, lengths: seq<nat>)
    requires IsSplit(node) && |lengths| == |node.outputs|
    requires PlainNames(node.inputs) && PlainNames(node.outputs) && DistinctNames(node.outputs)
    requires node.inputs[0] in env ==> node.inputs[0] !in node.outputs
    requires forall x <- extra.Keys :: IsGenerated(x)
    requires HoldsIndices(env + extra, node, index, lengths)
    requires node.inputs[1] in env && Elements(env[node.inputs[1]].content) == lengths
    ensures InStep(EvalNode(ops, env, node),
      EvalNodes(ops, env + extra, Slices(node, index, lengths, |lengths|).nodes), extra)
       <==> if node.inputs[0] in env && AxisOf(AxisAttribute(node.attributes), |env[node.inputs[0]].shape|).Some?
            then Total(lengths)
              == env[node.inputs[0]].shape[AxisOf(AxisAttribute(node.attributes), |env[node.inputs[0]].shape|).value]
            else lengths != []
  {
    hide HoldsIndices, Slices, EvalNode, EvalNodes, CutsAlike, Elements;
    SplitInStepIff(ops, env, extra, node, index, lengths);
    if node.inputs[0] in env && AxisOf(AxisAttribute(node.attributes), |env[node.inputs[0]].shape|).Some? {
      var t := env[node.inputs[0]];
      SameLengthsFit(lengths, t.shape[AxisOf(AxisAttribute(node.attributes), |t.shape|).value]);
    }
  }

  lemma NoSlices(node: Node, index: nat, lengths: seq<nat>)
    requires IsSplit(node) && |lengths| == |node.outputs| == 0
    ensures Slices(node, index, lengths, |lengths|) == Piece([], [], 0)
  {
  }

  lemma {:induction false} FirstSliceFails(ops: Operators, env: Env, node: Node, index: nat, lengths: seq<nat>, n: nat)
    requires IsSplit(node) && |lengths| == |node.outputs| && 0 < n <= |lengths|
      && HoldsIndices(env, node, index, lengths)
    requires node.inputs[0] in env ==> AxisOf(AxisAttribute(node.attributes), |env[node.inputs[0]].shape|).None?
    ensures EvalNodes(ops, env, Slices(node, index, lengths, n).nodes).None?
  {
    hide EvalNode, SliceOf, SliceNode, HoldsIndices;
    EvalSnoc(ops, env, Slices(node, index, lengths, n - 1).nodes, SliceNode(node, index, n - 1));
    if n > 1 {
      FirstSliceFails(ops, env, node, index, lengths, n - 1);
    } else {
      SliceNodeEval(ops, env, node, index, lengths, 0);
      if node.inputs[0] in env { SliceDefined(env[node.inputs[0]], node, lengths, 0); }
    }
  }

  // ---------- the whole graph

  /** Every static Split that the original run reaches meets lengths that fit. */
  ghost predicate SplitsFit(ops: Operators, env: Env, values: Env, nodes: seq<Node>) {
    forall n | 0 <= n < |nodes| && StaticLengths(values, nodes[n]).Some? :: ReachedFits(ops, env, values, nodes, n)
  }

  ghost predicate ReachedFits(ops: Operators, env: Env, values: Env, nodes: seq<Node>, n: nat)
    requires n < |nodes| && StaticLengths(values, nodes[n]).Some?
  {
    match EvalNodes(ops, env, nodes[..n])
    case Some(next) => FitsStatic(values, next, nodes[n])
    case None => true
  }

  ghost predicate FitsStatic(values: Env, env: Env, node: Node)
    requires StaticLengths(values, node).Some?
  {
    NoneNegative(StaticLengths(values, node).value) && Fits(env, node, StaticLengths(values, node).value)
  }

  ghost function Extra(values: Env, nodes: seq<Node>): Env
    requires RewriteNodes(values, nodes, |nodes|).Ok?
  {
    Values(RewriteNodes(values, nodes, |nodes|).value.initializers)
  }

  lemma {:induction false} PrefixAccepted(values: Env, nodes: seq<Node>, n: nat, m: nat)
    requires n <= m <= |nodes| && RewriteNodes(values, nodes, m).Ok?
    ensures RewriteNodes(values, nodes, n).Ok?
  {
    hide RewriteNode;
    if n < m { PrefixAccepted(values, nodes, n, m - 1); }
  }

  /** The names the original run has defined after `n` nodes, and its untouched initial names. */
  lemma {:induction false} RunFrame(ops: Operators, env: Env, nodes: seq<Node>, n: nat)
    requires n <= |nodes| && SingleAssignment(nodes, env.Keys) && EvalNodes(ops, env, nodes[..n]).Some?
    ensures var next := EvalNodes(ops, env, nodes[..n]).value;
      && (forall x <- env.Keys :: Read(next, x) == Some(env[x]))
      && (forall x <- next.Keys :: x in env || DefinedBefore(nodes, n, x))
  {
    hide Apply;
    if n == 0 {
      assert nodes[..0] == [];
    } else {
      assert nodes[..n] == nodes[..n - 1] + [nodes[n - 1]];
      EvalSnoc(ops, env, nodes[..n - 1], nodes[n - 1]);
      RunFrame(ops, env, nodes, n - 1);
      var before, node := EvalNodes(ops, env, nodes[..n - 1]).value, nodes[n - 1];
      var values := Apply(ops, node, Arguments(before, node.inputs)).value;
      BindFrame(before, node.outputs, values);
      var next := Bind(before, node.outputs, values);
      forall x | x in env.Keys ensures Read(next, x) == Some(env[x]) {
        assert x !in node.outputs;
      }
      forall x | x in next.Keys ensures x in env || DefinedBefore(nodes, n, x) {
        if x in node.outputs {
          var a :| 0 <= a < |node.outputs| && node.outputs[a] == x;
        }
      }
    }
  }

  ghost predicate DefinedBefore(nodes: seq<Node>, n: nat, x: string)
    requires n <= |nodes|
  {
    exists j :: 0 <= j < n && x in nodes[j].outputs
  }

  /** A name that a node reads is not among its own outputs. */
  lemma ReadsEarlier(ops: Operators, env: Env, nodes: seq<Node>, n: nat, x: string)
    requires n < |nodes| && SingleAssignment(nodes, env.Keys)
    requires EvalNodes(ops, env, nodes[..n]).Some? && x in EvalNodes(ops, env, nodes[..n]).value
    ensures x !in nodes[n].outputs
  {
    RunFrame(ops, env, nodes, n);
  }

  /** The generated tensors hold the positions the rewriter meant for node `n`. */
  lemma ExtraHoldsIndices(values: Env, nodes: seq<Node>, env: Env, n: nat)
    requires RewriteNodes(values, nodes, |nodes|).Ok? && n < |nodes| && StaticLengths(values, nodes[n]).Some?
    ensures var lengths := StaticLengths(values, nodes[n]).value;
      && |lengths| == |nodes[n].outputs| && Positive(lengths)
      && HoldsIndices(env + Extra(values, nodes), nodes[n], n, lengths)
  {
    hide GeneratedName, Slices, RewriteNodes, Elements, Values, StartOf, AllFaithful;
    PrefixNodeAccepted(values, nodes, n);
    var inits := RewriteNodes(values, nodes, |nodes|).value.initializers;
    GeneratedFaithful(values, nodes, |nodes|);
    FaithfulValues(values, nodes, inits);
    forall o: nat, s | o < |nodes[n].outputs|
      ensures Read(env + Extra(values, nodes), GeneratedName(n, o, s)) == Some(Meant(values, nodes, n, o, s))
    {
      GeneratedCover(values, nodes, |nodes|, n, o, s);
    }
  }

  lemma PrefixNodeAccepted(values: Env, nodes: seq<Node>, n: nat)
    requires RewriteNodes(values, nodes, |nodes|).Ok? && n < |nodes| && StaticLengths(values, nodes[n]).Some?
    ensures var lengths := StaticLengths(values, nodes[n]).value;
      |lengths| == |nodes[n].outputs| && Positive(lengths)
  {
    hide Slices, Elements;
    PrefixAccepted(values, nodes, n + 1, |nodes|);
    PrefixAccepted(values, nodes, n, |nodes|);
  }

  ghost predicate Rewritable(nodes: seq<Node>, initializers: seq<Initializer>, feeds: Env) {
    && Accepted(nodes, initializers)
    && Fresh(nodes, initializers, feeds)
    && SingleAssignment(nodes, (Values(initializers) + feeds).Keys)
  }

  /** One node of the original graph and what replaces it stay in step, a static Split exactly when
      the lengths that arrive fit. */
  lemma NodeInStepIff(ops: Operators, nodes: seq<Node>, initializers: seq<Initializer>, feeds: Env, n: nat)
    requires Rewritable(nodes, initializers, feeds) && n < |nodes|
    requires EvalNodes(ops, Values(initializers) + feeds, nodes[..n]).Some?
    ensures var values := Values(initializers);
      var env := EvalNodes(ops, values + feeds, nodes[..n]).value;
      && RewriteNode(values, n, nodes[n]).Ok?
      && (InStep(EvalNode(ops, env, nodes[n]),
                 EvalNodes(ops, env + Extra(values, nodes), RewriteNode(values, n, nodes[n]).value.nodes),
                 Extra(values, nodes))
          <==> (StaticLengths(values, nodes[n]).Some? ==> FitsStatic(values, env, nodes[n])))
  {
    hide EvalNode, GeneratedName, HoldsIndices, Fits, Slices, SingleAssignment, InStep;
    var values, node := Values(initializers), nodes[n];
    var env, extra := EvalNodes(ops, values + feeds, nodes[..n]).value, Extra(values, nodes);
    ExtraIsGenerated(values, nodes);
    var lengths := StaticLengths(values, node);
    if lengths.Some? {
      ExtraHoldsIndices(values, nodes, env, n);
      if node.inputs[0] in env { ReadsEarlier(ops, values + feeds, nodes, n, node.inputs[0]); }
      NamesDistinct(nodes, (values + feeds).Keys, n);
      SplitInStepIff(ops, env, extra, node, n, lengths.value);
    } else {
      KeptNode(ops, env, extra, node);
      EvalOne(ops, env + extra, node);
    }
  }

  lemma ExtraIsGenerated(values: Env, nodes: seq<Node>)
    requires RewriteNodes(values, nodes, |nodes|).Ok?
    ensures forall x <- Extra(values, nodes).Keys :: IsGenerated(x)
  {
    hide RewriteNodes, IsGenerated, AllFaithful, Values;
    GeneratedFaithful(values, nodes, |nodes|);
    FaithfulValues(values, nodes, RewriteNodes(values, nodes, |nodes|).value.initializers);
  }

  lemma NamesDistinct(nodes: seq<Node>, defined: set<string>, n: nat)
    requires n < |nodes| && SingleAssignment(nodes, defined)
    ensures DistinctNames(nodes[n].outputs)
  {
  }

  lemma EvalOne(ops: Operators, env: Env, node: Node)
    ensures EvalNodes(ops, env, [node]) == EvalNode(ops, env, node)
  {
    hide EvalNode;
    assert [node][1..] == [];
  }

  /** After the first `n` nodes, and what replaces them, the two runs stand alike. */
  ghost predicate InStepAt(ops: Operators, nodes: seq<Node>, initializers: seq<Initializer>, feeds: Env, n: nat)
    requires Accepted(nodes, initializers) && n <= |nodes| && RewriteNodes(Values(initializers), nodes, n).Ok?
  {
    var values := Values(initializers);
    InStep(EvalNodes(ops, values + feeds, nodes[..n]),
           EvalNodes(ops, values + feeds + Extra(values, nodes), RewriteNodes(values, nodes, n).value.nodes),
           Extra(values, nodes))
  }

  lemma NoNodesInStep(ops: Operators, nodes: seq<Node>, initializers: seq<Initializer>, feeds: Env)
    requires Accepted(nodes, initializers)
    ensures RewriteNodes(Values(initializers), nodes, 0).Ok? && InStepAt(ops, nodes, initializers, feeds, 0)
  {
    hide Values;
    assert nodes[..0] == [];
  }

  /** From one node to the next. */
  lemma NextInStep(ops: Operators, nodes: seq<Node>, initializers: seq<Initializer>, feeds: Env, n: nat)
    requires Rewritable(nodes, initializers, feeds) && n < |nodes|
    requires RewriteNodes(Values(initializers), nodes, n).Ok? && RewriteNodes(Values(initializers), nodes, n + 1).Ok?
    requires InStepAt(ops, nodes, initializers, feeds, n)
    ensures InStepAt(ops, nodes, initializers, feeds, n + 1)
      <==> (StaticLengths(Values(initializers), nodes[n]).Some?
            ==> ReachedFits(ops, Values(initializers) + feeds, Values(initializers), nodes, n))
  {
    hide EvalNode, RewriteNode, Values, Rewritable, FitsStatic, Extra;
    var values := Values(initializers);
    Unpack(nodes, initializers, feeds);
    assert nodes[..n + 1] == nodes[..n] + [nodes[n]];
    EvalSnoc(ops, values + feeds, nodes[..n], nodes[n]);
    var before := RewriteNodes(values, nodes, n).value;
    EvalAppend(ops, values + feeds + Extra(values, nodes), before.nodes, RewriteNode(values, n, nodes[n]).value.nodes);
    if EvalNodes(ops, values + feeds, nodes[..n]).Some? {
      NodeInStepIff(ops, nodes, initializers, feeds, n);
    }
  }

  lemma {:induction false} RunsInStep(ops: Operators, nodes: seq<Node>, initializers: seq<Initializer>, feeds: Env,
                                      n: nat)
    requires Rewritable(nodes, initializers, feeds) && n <= |nodes|
    requires SplitsFit(ops, Values(initializers) + feeds, Values(initializers), nodes)
    ensures RewriteNodes(Values(initializers), nodes, n).Ok? && InStepAt(ops, nodes, initializers, feeds, n)
  {
    hide Values, Rewritable, ReachedFits, RewriteNodes, InStepAt;
    Unpack(nodes, initializers, feeds);
    PrefixAccepted(Values(initializers), nodes, n, |nodes|);
    if n == 0 {
      NoNodesInStep(ops, nodes, initializers, feeds);
    } else {
      RunsInStep(ops, nodes, initializers, feeds, n - 1);
      NextInStep(ops, nodes, initializers, feeds, n - 1);
    }
  }

  /** Original and rewritten graph stand alike after every node exactly when every static Split that is
      reached meets lengths that fit, be they the initializer's or a feed's. */
  lemma InStepExactly(ops: Operators, nodes: seq<Node>, initializers: seq<Initializer>, feeds: Env)
    requires Rewritable(nodes, initializers, feeds)
    ensures forall n :: 0 <= n <= |nodes| ==> RewriteNodes(Values(initializers), nodes, n).Ok?
    ensures (forall n :: 0 <= n <= |nodes| ==> InStepAt(ops, nodes, initializers, feeds, n))
      <==> SplitsFit(ops, Values(initializers) + feeds, Values(initializers), nodes)
  {
    hide Values, Rewritable, ReachedFits, RewriteNodes, InStepAt;
    var values := Values(initializers);
    Unpack(nodes, initializers, feeds);
    forall n | 0 <= n <= |nodes| ensures RewriteNodes(values, nodes, n).Ok? {
      PrefixAccepted(values, nodes, n, |nodes|);
    }
    if SplitsFit(ops, values + feeds, values, nodes) {
      forall n | 0 <= n <= |nodes| ensures InStepAt(ops, nodes, initializers, feeds, n) {
        RunsInStep(ops, nodes, initializers, feeds, n);
      }
    }
    if forall n :: 0 <= n <= |nodes| ==> InStepAt(ops, nodes, initializers, feeds, n) {
      forall n | 0 <= n < |nodes| && StaticLengths(values, nodes[n]).Some?
        ensures ReachedFits(ops, values + feeds, values, nodes, n)
      {
        assert InStepAt(ops, nodes, initializers, feeds, n + 1);
        NextInStep(ops, nodes, initializers, feeds, n);
      }
    }
  }

  lemma Unpack(nodes: seq<Node>, initializers: seq<Initializer>, feeds: Env)
    requires Rewritable(nodes, initializers, feeds)
    ensures RewriteNodes(Values(initializers), nodes, |nodes|).Ok?
  {
  }

  /** A run that succeeds, and overrides no lengths, has met only Splits that fit. */
  lemma SuccessFits(ops: Operators, nodes: seq<Node>, initializers: seq<Initializer>, feeds: Env)
    requires Rewritable(nodes, initializers, feeds) && NotOverridden(nodes, Values(initializers), feeds)
    requires EvalNodes(ops, Values(initializers) + feeds, nodes).Some?
    ensures SplitsFit(ops, Values(initializers) + feeds, Values(initializers), nodes)
  {
    var values := Values(initializers);
    forall n | 0 <= n < |nodes| && StaticLengths(values, nodes[n]).Some?
      ensures ReachedFits(ops, values + feeds, values, nodes, n)
    {
      ReachedSucceeds(ops, values + feeds, nodes, n);
      RunFrame(ops, values + feeds, nodes, n);
      SucceededFits(ops, EvalNodes(ops, values + feeds, nodes[..n]).value, values, nodes[n]);
    }
  }

  lemma ReachedSucceeds(ops: Operators, env: Env, nodes: seq<Node>, n: nat)
    requires n < |nodes| && EvalNodes(ops, env, nodes).Some?
    ensures EvalNodes(ops, env, nodes[..n]).Some?
      && EvalNode(ops, EvalNodes(ops, env, nodes[..n]).value, nodes[n]).Some?
  {
    hide EvalNode;
    assert nodes == nodes[..n] + nodes[n..] && nodes[n..][0] == nodes[n];
    EvalAppend(ops, env, nodes[..n], nodes[n..]);
  }

  lemma SucceededFits(ops: Operators, env: Env, values: Env, node: Node)
    requires StaticLengths(values, node).Some? && EvalNode(ops, env, node).Some?
    requires Read(env, node.inputs[1]) == Some(values[node.inputs[1]])
    ensures FitsStatic(values, env, node)
  {
    hide Elements, CutsAlike;
    var lengths := StaticLengths(values, node).value;
    if NoneNegative(lengths) && node.inputs[0] in env
      && AxisOf(AxisAttribute(node.attributes), |env[node.inputs[0]].shape|).Some? {
      var t := env[node.inputs[0]];
      SameLengthsFit(lengths, t.shape[AxisOf(AxisAttribute(node.attributes), |t.shape|).value]);
    }
  }

  lemma StartsBeside(nodes: seq<Node>, initializers: seq<Initializer>, feeds: Env)
    requires Rewritable(nodes, initializers, feeds)
    ensures var values, out := Values(initializers), RewriteNodes(Values(initializers), nodes, |nodes|).value;
      && Values(initializers + out.initializers) + feeds == values + feeds + Extra(values, nodes)
      && forall x <- Extra(values, nodes).Keys :: IsGenerated(x)
  {
    hide RewriteNodes, IsGenerated, Values, SingleAssignment, AllFaithful;
    var values := Values(initializers);
    var out := RewriteNodes(values, nodes, |nodes|).value;
    GeneratedFaithful(values, nodes, |nodes|);
    FaithfulValues(values, nodes, out.initializers);
    ValuesAppend(initializers, out.initializers);
    PlusSwaps(values, Extra(values, nodes), feeds);
  }

  lemma PlusSwaps(a: Env, b: Env, c: Env)
    requires b.Keys !! c.Keys
    ensures a + b + c == a + c + b
  {
  }

  /** When every static Split that is reached meets lengths that fit, both graphs succeed or both fail,
      and every name of the original graph keeps its tensor. A successful run that overrides no
      lengths meets only such Splits. */
  lemma RewritePreservesMeaning(ops: Operators, nodes: seq<Node>, initializers: seq<Initializer>, feeds: Env)
    requires Rewritable(nodes, initializers, feeds)
    ensures var values := Values(initializers);
      var out := RewriteNodes(values, nodes, |nodes|).value;
      var before, after :=
        Eval(ops, nodes, initializers, feeds), Eval(ops, out.nodes, initializers + out.initializers, feeds);
      && (SplitsFit(ops, values + feeds, values, nodes) ==>
          && (before.Some? <==> after.Some?)
          && (before.Some? ==> forall x | !IsGenerated(x) :: Read(after.value, x) == Read(before.value, x)))
      && (before.Some? && NotOverridden(nodes, values, feeds) ==> SplitsFit(ops, values + feeds, values, nodes))
  {
    hide EvalNodes, RewriteNodes, IsGenerated, SplitsFit, Extra, Rewritable, Values, NotOverridden;
    var values := Values(initializers);
    Unpack(nodes, initializers, feeds);
    StartsBeside(nodes, initializers, feeds);
    assert nodes[..|nodes|] == nodes;
    if Eval(ops, nodes, initializers, feeds).Some? && NotOverridden(nodes, values, feeds) {
      SuccessFits(ops, nodes, initializers, feeds);
    }
    if SplitsFit(ops, values + feeds, values, nodes) { RunsInStep(ops, nodes, initializers, feeds, |nodes|); }
  }

  // ---------- order, single assignment, and a second pass

  function OutputsOf(nodes: seq<Node>): seq<string> {
    if nodes == [] then [] else OutputsOf(nodes[..|nodes| - 1]) + nodes[|nodes| - 1].outputs
  }

  lemma {:induction false} OutputsAppend(a: seq<Node>, b: seq<Node>)
    ensures OutputsOf(a + b) == OutputsOf(a) + OutputsOf(b)
  {
    if b == [] {
      assert a + b == a;
    } else {
      assert (a + b)[..|a + b| - 1] == a + b[..|b| - 1];
      OutputsAppend(a, b[..|b| - 1]);
    }
  }

  lemma NoNodes()
    ensures OutputsOf([]) == []
  {
  }

  lemma OutputsOfOneMore(nodes: seq<Node>, last: Node)
    ensures OutputsOf(nodes + [last]) == OutputsOf(nodes) + last.outputs
  {
    assert (nodes + [last])[..|nodes + [last]| - 1] == nodes;
  }

  lemma {:induction false} SliceOutputsInOrder(node: Node, index: nat, lengths: seq<nat>, n: nat)
    requires IsSplit(node) && |lengths| == |node.outputs| && n <= |lengths|
    ensures OutputsOf(Slices(node, index, lengths, n).nodes) == node.outputs[..n]
  {
    hide SliceInitializers, SliceInputs, OutputsOf;
    if n == 0 {
      assert OutputsOf([]) == [] by { NoNodes(); }
    } else {
      SliceOutputsInOrder(node, index, lengths, n - 1);
      var before, after := Slices(node, index, lengths, n - 1).nodes, Slices(node, index, lengths, n).nodes;
      assert after == before + [SliceNode(node, index, n - 1)];
      OutputsOfOneMore(before, SliceNode(node, index, n - 1));
      assert node.outputs[..n] == node.outputs[..n - 1] + [node.outputs[n - 1]];
    }
  }

  lemma NodeOutputsInOrder(values: Env, index: nat, node: Node)
    requires RewriteNode(values, index, node).Ok?
    ensures OutputsOf(RewriteNode(values, index, node).value.nodes) == node.outputs
  {
    hide Slices, Elements;
    var lengths := StaticLengths(values, node);
    if lengths.Some? {
      SliceOutputsInOrder(node, index, lengths.value, |lengths.value|);
      assert node.outputs[..|lengths.value|] == node.outputs;
    } else {
      assert [node][..0] == [];
    }
  }

  /** The rewritten nodes assign exactly the original names in the original order, hence each once. */
  lemma {:induction false} OutputsInOrder(values: Env, nodes: seq<Node>, n: nat)
    requires n <= |nodes| && RewriteNodes(values, nodes, n).Ok?
    ensures OutputsOf(RewriteNodes(values, nodes, n).value.nodes) == OutputsOf(nodes[..n])
  {
    hide RewriteNode;
    if n > 0 {
      OutputsInOrder(values, nodes, n - 1);
      assert nodes[..n][..n - 1] == nodes[..n - 1];
      OutputsAppend(RewriteNodes(values, nodes, n - 1).value.nodes,
        RewriteNode(values, n - 1, nodes[n - 1]).value.nodes);
      NodeOutputsInOrder(values, n - 1, nodes[n - 1]);
    }
  }

  ghost predicate NothingStatic(values: Env, nodes: seq<Node>) {
    forall i :: 0 <= i < |nodes| ==> StaticLengths(values, nodes[i]).None?
  }

  lemma {:induction false} NothingToRewrite(values: Env, nodes: seq<Node>, n: nat)
    requires n <= |nodes| && NothingStatic(values, nodes)
    ensures RewriteNodes(values, nodes, n) == Ok(Piece(nodes[..n], [], 0))
  {
    if n > 0 {
      NothingToRewrite(values, nodes, n - 1);
      assert nodes[..n] == nodes[..n - 1] + [nodes[n - 1]];
      var none: seq<Initializer> := [];
      assert none + none == none;
    }
  }

  lemma {:induction false} OnlySlicesAdded(values: Env, node: Node, index: nat, lengths: seq<nat>, n: nat)
    requires IsSplit(node) && |lengths| == |node.outputs| && n <= |lengths|
    ensures NothingStatic(values, Slices(node, index, lengths, n).nodes)
  {
    if n > 0 { OnlySlicesAdded(values, node, index, lengths, n - 1); }
  }

  lemma {:induction false} StaticSplitsGone(values: Env, extra: Env, nodes: seq<Node>, n: nat)
    requires n <= |nodes| && RewriteNodes(values, nodes, n).Ok?
    requires forall i :: 0 <= i < |nodes| ==> PlainNames(nodes[i].inputs)
    requires forall x <- extra.Keys :: IsGenerated(x)
    ensures NothingStatic(values + extra, RewriteNodes(values, nodes, n).value.nodes)
  {
    hide Slices, IsGenerated, Elements;
    if n > 0 {
      StaticSplitsGone(values, extra, nodes, n - 1);
      var lengths := StaticLengths(values, nodes[n - 1]);
      if lengths.Some? {
        OnlySlicesAdded(values + extra, nodes[n - 1], n - 1, lengths.value, |lengths.value|);
      }
    }
  }

  /** No Split with initializer lengths is left: a second pass changes nothing. */
  lemma SecondPassIsIdle(nodes: seq<Node>, initializers: seq<Initializer>)
    requires Accepted(nodes, initializers) && Fresh(nodes, initializers, map[])
    ensures var out := RewriteNodes(Values(initializers), nodes, |nodes|).value;
      RewriteNodes(Values(initializers + out.initializers), out.nodes, |out.nodes|) == Ok(Piece(out.nodes, [], 0))
  {
    hide RewriteNodes;
    var values := Values(initializers);
    var out := RewriteNodes(values, nodes, |nodes|).value;
    GeneratedFaithful(values, nodes, |nodes|);
    FaithfulValues(values, nodes, out.initializers);
    ValuesAppend(initializers, out.initializers);
    StaticSplitsGone(values, Values(out.initializers), nodes, |nodes|);
    NothingToRewrite(values + Values(out.initializers), out.nodes, |out.nodes|);
    assert out.nodes[..|out.nodes|] == out.nodes;
  }
}
