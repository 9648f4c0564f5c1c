/**
  The rewritten graph spelled out: which Splits are traded, for which Slices, with which numbers in
  their index tensors, and when the pass refuses. Nothing here is said by the functions that build it.
 */
module SplitForm {
  import opened Wrappers
  import opened Tensors
  import opened Names
  import opened SplitRewriter
  import opened SplitPreservation
  import opened SplitExamples

  // ---------- the axis

  predicate FirstNamedAxis(attributes: seq<Attribute>, k: nat) {
    && k < |attributes| && attributes[k].name == "axis"
    && forall j | 0 <= j < k :: attributes[j].name != "axis"
  }

  /** `axis` is the number of the first attribute called axis, and 0 when none is called so. */
  ghost predicate IsAxis(attributes: seq<Attribute>, axis: int) {
    && (forall k: nat | FirstNamedAxis(attributes, k) :: axis == attributes[k].i)
    && ((forall k | 0 <= k < |attributes| :: attributes[k].name != "axis") ==> axis == 0)
  }

  lemma {:induction false} AxisExactly(attributes: seq<Attribute>)
    ensures IsAxis(attributes, AxisAttribute(attributes))
  {
    if attributes != [] && attributes[0].name != "axis" {
      var rest := attributes[1..];
      AxisExactly(rest);
      forall k: nat | FirstNamedAxis(attributes, k) ensures AxisAttribute(attributes) == attributes[k].i {
        assert k > 0 && attributes[k] == rest[k - 1];
        assert forall j | 0 <= j < k - 1 :: rest[j] == attributes[j + 1];
        assert FirstNamedAxis(rest, k - 1);
      }
      if forall k | 0 <= k < |attributes| :: attributes[k].name != "axis" {
        assert forall k | 0 <= k < |rest| :: rest[k] == attributes[k + 1];
      }
    }
  }

  /** Exactly one number is the axis. */
  lemma {:induction false} AxisUnique(attributes: seq<Attribute>, a: int, b: int)
    requires IsAxis(attributes, a) && IsAxis(attributes, b)
    ensures a == b
  {
    if k: nat :| k < |attributes| && attributes[k].name == "axis" {
      FirstNamedExists(attributes, k);
    }
  }

  lemma {:induction false} FirstNamedExists(attributes: seq<Attribute>, k: nat)
    requires k < |attributes| && attributes[k].name == "axis"
    ensures exists f: nat :: FirstNamedAxis(attributes, f)
  {
    if j: nat :| j < k && attributes[j].name == "axis" {
      FirstNamedExists(attributes, j);
    } else {
      assert FirstNamedAxis(attributes, k);
    }
  }

  /** An axis of the tensor, counted from the front or from the back. */
  lemma AxisOfExactly(axis: int, rank: nat, k: int)
    ensures AxisOf(axis, rank) == Some(k) <==> 0 <= k < rank && (axis == k || axis == k - rank)
  {
  }

  // ---------- the lengths

  predicate LastNamed(initializers: seq<Initializer>, name: string, k: nat) {
    && k < |initializers| && initializers[k].name == name
    && forall j | k < j < |initializers| :: initializers[j].name != name
  }

  /** A name has the value of the last initializer called so, and no value when none is. */
  lemma {:induction false} ValuesExactly(initializers: seq<Initializer>, name: string, value: Tensor)
    ensures Read(Values(initializers), name) == Some(value)
       <==> exists k: nat :: LastNamed(initializers, name, k) && initializers[k].value == value
  {
    if initializers != [] {
      var last := |initializers| - 1;
      var before := initializers[..last];
      ValuesExactly(before, name, value);
      if initializers[last].name == name {
        assert LastNamed(initializers, name, last);
        assert forall k: nat | LastNamed(initializers, name, k) :: k == last;
      } else {
        assert forall k: nat :: LastNamed(initializers, name, k) <==> LastNamed(before, name, k);
      }
    }
  }

  /** Static are exactly the Splits of two inputs or more whose second is an initializer. */
  lemma StaticExactly(initializers: seq<Initializer>, node: Node, lengths: seq<int>)
    ensures StaticLengths(Values(initializers), node) == Some(lengths)
       <==> && node.opType == "Split" && |node.inputs| >= 2
            && exists k: nat :: LastNamed(initializers, node.inputs[1], k)
                        && Elements(initializers[k].value.content) == lengths
  {
    hide Values, Elements;
    if node.opType == "Split" && |node.inputs| >= 2 {
      var name, values := node.inputs[1], Values(initializers);
      if name in values {
        ValuesExactly(initializers, name, values[name]);
      }
      forall k: nat | LastNamed(initializers, name, k) ensures Read(values, name) == Some(initializers[k].value) {
        ValuesExactly(initializers, name, initializers[k].value);
      }
    }
  }

  /** The one element at a position, row by row. */
  function ElementAt(c: Content, position: seq<nat>): int {
    match c
    case Element(v) => v
    case Rows(items) =>
      if position != [] && position[0] < |items| then ElementAt(items[position[0]], position[1..]) else 0
  }

  function Size(shape: seq<nat>): nat {
    if shape == [] then 1 else shape[0] * Size(shape[1..])
  }

  /** The place of a position in the row-major listing. */
  function Offset(shape: seq<nat>, position: seq<nat>): nat
    requires |position| == |shape|
  {
    if shape == [] then 0 else position[0] * Size(shape[1..]) + Offset(shape[1..], position[1..])
  }

  predicate Inside(shape: seq<nat>, position: seq<nat>) {
    |position| == |shape| && forall k | 0 <= k < |shape| :: position[k] < shape[k]
  }

  /** The flattened tensor lists every element at its row-major place. */
  lemma {:induction false} ElementsRowMajor(c: Content, shape: seq<nat>, position: seq<nat>)
    requires Shaped(c, shape) && Inside(shape, position)
    ensures |Elements(c)| == Size(shape)
    ensures Offset(shape, position) < Size(shape)
    ensures Elements(c)[Offset(shape, position)] == ElementAt(c, position)
    decreases |shape|
  {
    if shape != [] {
      var rest, p := shape[1..], position[0];
      ElementsRowMajor(c.items[p], rest, position[1..]);
      forall i | 0 <= i < |c.items| ensures |Elements(c.items[i])| == Size(rest) {
        ElementsCount(c.items[i], rest);
      }
      RowPlace(c.items, Size(rest), p, Offset(rest, position[1..]));
    }
  }

  lemma {:induction false} ElementsCount(c: Content, shape: seq<nat>)
    requires Shaped(c, shape)
    ensures |Elements(c)| == Size(shape)
    decreases |shape|
  {
    if shape != [] {
      forall i | 0 <= i < |c.items| ensures |Elements(c.items[i])| == Size(shape[1..]) {
        ElementsCount(c.items[i], shape[1..]);
      }
      RowCount(c.items, Size(shape[1..]));
    }
  }

  lemma {:induction false} RowCount(items: seq<Content>, size: nat)
    requires forall i | 0 <= i < |items| :: |Elements(items[i])| == size
    ensures |RowElements(items)| == |items| * size
  {
    if items != [] { RowCount(items[1..], size); }
  }

  lemma OneRowMore(p: nat, n: nat, size: nat, offset: nat)
    requires p < n && offset < size
    ensures (p + 1) * size + offset == size + (p * size + offset)
    ensures p * size + offset < n * size
  {
    assert (p + 1) * size <= n * size;
  }

  lemma {:induction false} RowPlace(items: seq<Content>, size: nat, p: nat, offset: nat)
    requires forall i | 0 <= i < |items| :: |Elements(items[i])| == size
    requires p < |items| && offset < size
    ensures |RowElements(items)| == |items| * size
    ensures p * size + offset < |items| * size
    ensures RowElements(items)[p * size + offset] == Elements(items[p])[offset]
  {
    hide Elements;
    RowCount(items, size);
    OneRowMore(p, |items|, size, offset);
    if p > 0 {
      RowPlace(items[1..], size, p - 1, offset);
      OneRowMore(p - 1, |items|, size, offset);
    }
  }

  /** A slice holds the elements whose position along the axis lies from `from` on, moved to the front. */
  lemma {:induction false} SliceElement(c: Content, shape: seq<nat>, k: nat, from: nat, to: nat, position: seq<nat>)
    requires Shaped(c, shape) && k < |shape| && from <= to <= shape[k]
    requires Inside(shape[k := to - from], position)
    ensures ElementAt(SliceContent(c, k, from, to), position) == ElementAt(c, position[k := position[k] + from])
    decreases k
  {
    var moved := position[k := position[k] + from];
    assert position[k] < shape[k := to - from][k];
    if k > 0 {
      assert position[0] < shape[k := to - from][0];
      assert shape[k := to - from][1..] == shape[1..][k - 1 := to - from];
      assert moved[1..] == position[1..][k - 1 := position[1..][k - 1] + from];
      SliceElement(c.items[position[0]], shape[1..], k - 1, from, to, position[1..]);
    } else {
      assert moved[1..] == position[1..];
    }
  }

  /** A bound of a Slice counts from the back when negative, and lands on the nearest end when outside. */
  lemma ClampExactly(position: int, dim: nat)
    ensures 0 <= position <= dim ==> Clamp(position, dim) == position
    ensures 0 <= position + dim < dim ==> Clamp(position, dim) == position + dim
    ensures position > dim ==> Clamp(position, dim) == dim
    ensures position + dim < 0 ==> Clamp(position, dim) == 0
  {
  }

  // ---------- refusal

  /** A static Split with as many lengths as outputs and only positive ones is traded; any other is refused. */
  ghost predicate Refused(values: Env, node: Node) {
    match StaticLengths(values, node)
    case None => false
    case Some(lengths) => |lengths| != |node.outputs| || exists i :: 0 <= i < |lengths| && lengths[i] <= 0
  }

  ghost predicate FirstRefused(values: Env, nodes: seq<Node>, n: nat, k: nat) {
    && k < n <= |nodes| && Refused(values, nodes[k])
    && forall j | 0 <= j < k :: !Refused(values, nodes[j])
  }

  /** The pass fails with the name of the first refused Split, and only then. */
  lemma {:induction false} RefusesExactly(values: Env, nodes: seq<Node>, n: nat, name: string)
    requires n <= |nodes|
    ensures RewriteNodes(values, nodes, n) == Err(name)
       <==> exists k: nat :: FirstRefused(values, nodes, n, k) && nodes[k].name == name
  {
    hide Slices, StaticLengths;
    if n > 0 {
      var last := n - 1;
      RefusesExactly(values, nodes, last, name);
      forall k: nat | FirstRefused(values, nodes, n, k)
        ensures FirstRefused(values, nodes, last, k) || (k == last && RewriteNodes(values, nodes, last).Ok?)
      {
        if k == last && RewriteNodes(values, nodes, last).Err? {
          var e := RewriteNodes(values, nodes, last).error;
          RefusesExactly(values, nodes, last, e);
        }
      }
      if RewriteNodes(values, nodes, last).Ok? && Refused(values, nodes[last]) {
        NoneRefused(values, nodes, last);
        assert FirstRefused(values, nodes, n, last);
      }
    }
  }

  lemma {:induction false} NoneRefused(values: Env, nodes: seq<Node>, n: nat)
    requires n <= |nodes| && RewriteNodes(values, nodes, n).Ok?
    ensures forall k | 0 <= k < n :: !Refused(values, nodes[k])
  {
    hide Slices, StaticLengths;
    if n > 0 { NoneRefused(values, nodes, n - 1); }
  }

  // ---------- the result

  /** Every output of a static Split has its four index tensors: the start is the sum of the lengths
      before it, the end one length further, the axis the Split's own, and the step 1. */
  lemma IndexTensors(values: Env, nodes: seq<Node>, i: nat, o: nat)
    requires RewriteNodes(values, nodes, |nodes|).Ok?
    requires i < |nodes| && StaticLengths(values, nodes[i]).Some? && o < |nodes[i].outputs|
    ensures var lengths := StaticLengths(values, nodes[i]).value;
      var made := Extra(values, nodes);
      && |lengths| == |nodes[i].outputs| && Positive(lengths)
      && Read(made, GeneratedName(i, o, Starts)) == Some(Scalar(StartOf(lengths, o)))
      && Read(made, GeneratedName(i, o, Ends)) == Some(Scalar(StartOf(lengths, o + 1)))
      && Read(made, GeneratedName(i, o, Steps)) == Some(Scalar(1))
      && exists axis :: IsAxis(nodes[i].attributes, axis)
                     && Read(made, GeneratedName(i, o, Axes)) == Some(Scalar(axis))
  {
    hide GeneratedName, RewriteNodes, StaticLengths, Values, StartOf, AxisAttribute, IsAxis, HoldsIndices, Scalar, Read,
         Total;
    AxisExactly(nodes[i].attributes);
    var made := Extra(values, nodes);
    ExtraHoldsIndices(values, nodes, map[], i);
    assert map[] + made == made;
    var lengths: seq<nat> := StaticLengths(values, nodes[i]).value;
    StartWithin(lengths, o);
    ReadIndices(made, nodes[i], i, lengths, o);
  }

  lemma ReadIndices(env: Env, node: Node, i: nat, lengths: seq<nat>, o: nat)
    requires HoldsIndices(env, node, i, lengths) && o < |lengths|
    ensures Read(env, GeneratedName(i, o, Starts)) == Some(Scalar(StartOf(lengths, o)))
    ensures Read(env, GeneratedName(i, o, Ends)) == Some(Scalar(StartOf(lengths, o) + lengths[o]))
    ensures Read(env, GeneratedName(i, o, Axes)) == Some(Scalar(AxisAttribute(node.attributes)))
    ensures Read(env, GeneratedName(i, o, Steps)) == Some(Scalar(1))
  {
    hide GeneratedName, Scalar, Read, StartOf, AxisAttribute;
  }

  /** The Slice an output is traded for, and no other. */
  ghost predicate IsTrade(slice: Node, node: Node, i: nat, o: nat)
    requires |node.inputs| > 0 && o < |node.outputs|
  {
    && slice.opType == "Slice" && slice.name == node.name + "_slice_" + Decimal(o)
    && slice.inputs == [node.inputs[0], GeneratedName(i, o, Starts), GeneratedName(i, o, Ends),
                        GeneratedName(i, o, Axes), GeneratedName(i, o, Steps)]
    && slice.outputs == [node.outputs[o]] && slice.attributes == []
  }

  /** Where the nodes made from node `i` begin in the result: nodes that are no static Split stay one node. */
  ghost function Place(values: Env, nodes: seq<Node>, i: nat): nat
    requires i <= |nodes|
  {
    if i == 0 then 0
    else if StaticLengths(values, nodes[i - 1]).Some? then
      Place(values, nodes, i - 1) + |nodes[i - 1].outputs|
    else Place(values, nodes, i - 1) + 1
  }

  ghost predicate Placed(values: Env, nodes: seq<Node>, out: seq<Node>, i: nat)
    requires i < |nodes|
  {
    var place := Place(values, nodes, i);
    if StaticLengths(values, nodes[i]).Some? then
      && place + |nodes[i].outputs| <= |out|
      && forall p | place <= p < place + |nodes[i].outputs| :: IsTrade(out[p], nodes[i], i, p - place)
    else place < |out| && out[place] == nodes[i]
  }

  lemma {:induction false} SlicesAreTrades(node: Node, index: nat, lengths: seq<nat>, n: nat)
    requires IsSplit(node) && |lengths| == |node.outputs| && n <= |lengths|
    ensures var piece := Slices(node, index, lengths, n);
      && |piece.nodes| == n && |piece.initializers| == 4 * n && piece.replaced == n
      && forall o | 0 <= o < n :: IsTrade(piece.nodes[o], node, index, o)
  {
    hide GeneratedName, Decimal;
    if n > 0 { SlicesAreTrades(node, index, lengths, n - 1); }
  }

  /** The result node by node: untouched nodes stay, every static Split leaves one Slice per output in
      the place it had, and four index tensors come with each Slice. */
  lemma {:induction false} ResultExactly(values: Env, nodes: seq<Node>, n: nat)
    requires n <= |nodes| && RewriteNodes(values, nodes, n).Ok?
    ensures var piece := RewriteNodes(values, nodes, n).value;
      && |piece.nodes| == Place(values, nodes, n)
      && |piece.initializers| == 4 * piece.replaced
      && forall i | 0 <= i < n :: Placed(values, nodes, piece.nodes, i)
  {
    hide Slices, IsTrade, StaticLengths;
    if n > 0 {
      ResultExactly(values, nodes, n - 1);
      var before, piece := RewriteNodes(values, nodes, n - 1).value, RewriteNodes(values, nodes, n).value;
      var made := RewriteNode(values, n - 1, nodes[n - 1]).value;
      if StaticLengths(values, nodes[n - 1]).Some? {
        SlicesAreTrades(nodes[n - 1], n - 1, StaticLengths(values, nodes[n - 1]).value, |nodes[n - 1].outputs|);
      }
      forall i | 0 <= i < n - 1 ensures Placed(values, nodes, piece.nodes, i) {
        assert before.nodes <= piece.nodes;
        PlacedStays(values, nodes, before.nodes, piece.nodes, i);
      }
      assert forall p | |before.nodes| <= p < |piece.nodes| :: piece.nodes[p] == made.nodes[p - |before.nodes|];
      assert Placed(values, nodes, piece.nodes, n - 1);
    }
  }

  lemma PlacedStays(values: Env, nodes: seq<Node>, a: seq<Node>, b: seq<Node>, i: nat)
    requires i < |nodes| && Placed(values, nodes, a, i) && a <= b
    ensures Placed(values, nodes, b, i)
  {
    hide IsTrade, StaticLengths, Place;
  }

  /** The channel split of an example, and what the graph file has in its place. */
  const CHANNEL_SPLIT: Node := Node("Split", "s", ["x", "n"], ["a", "b"], [Attribute("group", 7), Attribute("axis", 1)])

  const CHANNEL_SLICES: seq<Node> := [
    Node("Slice", "s_slice_0",
         ["x", "visionforge_nnapi_split_0_0_starts", "visionforge_nnapi_split_0_0_ends",
          "visionforge_nnapi_split_0_0_axes", "visionforge_nnapi_split_0_0_steps"], ["a"], []),
    Node("Slice", "s_slice_1",
         ["x", "visionforge_nnapi_split_0_1_starts", "visionforge_nnapi_split_0_1_ends",
          "visionforge_nnapi_split_0_1_axes", "visionforge_nnapi_split_0_1_steps"], ["b"], [])]

  function One(name: string, value: int): Initializer { Initializer(name, Tensor([1], Rows([Element(value)]))) }

  const CHANNEL_TENSORS: seq<Initializer> := [
    One("visionforge_nnapi_split_0_0_starts", 0), One("visionforge_nnapi_split_0_0_ends", 2),
    One("visionforge_nnapi_split_0_0_axes", 1), One("visionforge_nnapi_split_0_0_steps", 1),
    One("visionforge_nnapi_split_0_1_starts", 2), One("visionforge_nnapi_split_0_1_ends", 5),
    One("visionforge_nnapi_split_0_1_axes", 1), One("visionforge_nnapi_split_0_1_steps", 1)]

  lemma AxisOneWritten()
    ensures RewriteNodes(Values(Lengths(2, 3)), [CHANNEL_SPLIT], 1) == Ok(Piece(CHANNEL_SLICES, CHANNEL_TENSORS, 2))
  {
    LengthsValues(2, 3);
    ElementsOfTwo(2, 3);
    SlicesWritten();
    hide Slices, Elements, RewriteNodes, CHANNEL_SLICES, CHANNEL_TENSORS;
    PassOverOne(Values(Lengths(2, 3)), CHANNEL_SPLIT, Slices(CHANNEL_SPLIT, 0, [2, 3], 2));
  }

  lemma SlicesWritten()
    ensures Slices(CHANNEL_SPLIT, 0, [2, 3], 2) == Piece(CHANNEL_SLICES, CHANNEL_TENSORS, 2)
  {
    AxisExactly(CHANNEL_SPLIT.attributes);
    assert FirstNamedAxis(CHANNEL_SPLIT.attributes, 1);
    TwoSlices(CHANNEL_SPLIT);
    NodesWritten();
    TensorsWritten();
    hide AxisAttribute, SliceInitializers, SliceNode, Slices;
  }

  lemma NodesWritten()
    ensures [SliceNode(CHANNEL_SPLIT, 0, 0), SliceNode(CHANNEL_SPLIT, 0, 1)] == CHANNEL_SLICES
  {
    NamesWritten();
    hide GeneratedName, Decimal;
    assert SliceNode(CHANNEL_SPLIT, 0, 0) == CHANNEL_SLICES[0];
    assert SliceNode(CHANNEL_SPLIT, 0, 1) == CHANNEL_SLICES[1];
  }

  lemma TensorsWritten()
    ensures SliceInitializers(0, 0, 0, 2, 1) + SliceInitializers(0, 1, 2, 5, 1) == CHANNEL_TENSORS
  {
    NamesWritten();
    hide GeneratedName, Decimal;
  }

  lemma NamesWritten()
    ensures Decimal(0) == "0" && Decimal(1) == "1"
    ensures GeneratedName(0, 0, Starts) == "visionforge_nnapi_split_0_0_starts"
    ensures GeneratedName(0, 0, Ends) == "visionforge_nnapi_split_0_0_ends"
    ensures GeneratedName(0, 0, Axes) == "visionforge_nnapi_split_0_0_axes"
    ensures GeneratedName(0, 0, Steps) == "visionforge_nnapi_split_0_0_steps"
    ensures GeneratedName(0, 1, Starts) == "visionforge_nnapi_split_0_1_starts"
    ensures GeneratedName(0, 1, Ends) == "visionforge_nnapi_split_0_1_ends"
    ensures GeneratedName(0, 1, Axes) == "visionforge_nnapi_split_0_1_axes"
    ensures GeneratedName(0, 1, Steps) == "visionforge_nnapi_split_0_1_steps"
  {
  }

  lemma PassOverOne(values: Env, node: Node, piece: Piece)
    requires RewriteNode(values, 0, node) == Ok(piece)
    ensures RewriteNodes(values, [node], 1) == Ok(piece)
  {
    hide RewriteNode;
    assert [] + piece.nodes == piece.nodes && [] + piece.initializers == piece.initializers;
  }

  /** The two Slices for lengths 2 and 3. */
  lemma TwoSlices(split: Node)
    requires IsSplit(split) && |split.outputs| == 2
    ensures Slices(split, 0, [2, 3], 2)
         == Piece([SliceNode(split, 0, 0), SliceNode(split, 0, 1)],
                  SliceInitializers(0, 0, 0, 2, AxisAttribute(split.attributes))
                  + SliceInitializers(0, 1, 2, 5, AxisAttribute(split.attributes)), 2)
  {
    TwoStarts();
    hide SliceInitializers, SliceNode, StartOf;
    assert Slices(split, 0, [2, 3], 0) == Piece([], [], 0);
    assert Slices(split, 0, [2, 3], 1)
        == Piece([SliceNode(split, 0, 0)], SliceInitializers(0, 0, 0, 2, AxisAttribute(split.attributes)), 1);
  }

  lemma TwoStarts()
    ensures StartOf([2, 3], 0) == 0 && StartOf([2, 3], 1) == 2
  {
    StartWithin([2, 3], 0);
    assert [2, 3][..0] == [];
  }
}
