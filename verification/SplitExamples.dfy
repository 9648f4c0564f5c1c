/** Concrete graphs on which the conditions of `RewritePreservesMeaning` are needed. */
module SplitExamples {
  import opened Wrappers
  import opened Tensors
  import opened Names
  import opened SplitRewriter
  import opened SplitPreservation

  const EXAMPLE: Node := Node("Split", "split", ["x", "n"], ["a", "b"], [])

  function Vector2(a: int, b: int): Tensor { Tensor([2], Rows([Element(a), Element(b)])) }

  function Vector3(a: int, b: int, c: int): Tensor { Tensor([3], Rows([Element(a), Element(b), Element(c)])) }

  function Lengths(a: int, b: int): seq<Initializer> { [Initializer("n", Vector2(a, b))] }

  lemma ElementsOfTwo(a: int, b: int)
    ensures Elements(Vector2(a, b).content) == [a, b]
  {
    var items := [Element(a), Element(b)];
    assert items[1..] == [Element(b)] && items[1..][1..] == [];
    assert RowElements(items) == Elements(items[0]) + (Elements(items[1..][0]) + RowElements(items[1..][1..]));
  }

  lemma TotalOfTwo(a: nat, b: nat)
    ensures Total([a, b]) == a + b
  {
    var one: seq<nat> := [b];
    assert [a, b][1..] == one && one[1..] == [];
    assert Total(one) == b + Total(one[1..]);
    assert Total([a, b]) == a + Total([a, b][1..]);
  }

  lemma LengthsValues(a: int, b: int)
    ensures Values(Lengths(a, b)) == map["n" := Vector2(a, b)]
  {
    assert Lengths(a, b)[..0] == [];
  }

  lemma ExamplePass(a: nat, b: nat)
    requires a > 0 && b > 0
    ensures var values := Values(Lengths(a, b));
      && StaticLengths(values, EXAMPLE) == Some([a, b])
      && RewriteNodes(values, [EXAMPLE], 1) == Ok(Slices(EXAMPLE, 0, [a, b], 2))
  {
    hide Slices, Elements;
    var values := Values(Lengths(a, b));
    LengthsValues(a, b);
    ElementsOfTwo(a, b);
    assert RewriteNode(values, 0, EXAMPLE) == Ok(Slices(EXAMPLE, 0, [a, b], 2));
    SlicesReplace(2, [a, b]);
    var piece := Slices(EXAMPLE, 0, [a, b], 2);
    assert [] + piece.nodes == piece.nodes && [] + piece.initializers == piece.initializers;
  }

  lemma {:induction false} SlicesReplace(n: nat, lengths: seq<nat>)
    requires |lengths| == 2 && n <= 2
    ensures Slices(EXAMPLE, 0, lengths, n).replaced == n
  {
  }

  /** The original graph on an axis of three follows the lengths it sees, if they add up to three. */
  lemma ExampleOriginal(ops: Operators, env: Env, a: nat, b: nat)
    requires Read(env, "x") == Some(Vector3(5, 6, 7)) && Read(env, "n") == Some(Vector2(a, b))
    ensures EvalNodes(ops, env, [EXAMPLE])
         == if Total([a, b]) == 3 then Some(Bind(env, ["a", "b"], Pieces(Vector3(5, 6, 7), 0, [a, b]))) else None
  {
    hide Elements, Pieces, Total;
    ElementsOfTwo(a, b);
    EvalOne(ops, env, EXAMPLE);
    assert Arguments(env, EXAMPLE.inputs) == [Some(Vector3(5, 6, 7)), Some(Vector2(a, b))];
  }

  /** The rewritten graph follows the initializer. */
  lemma ExampleRewritten(ops: Operators, a: nat, b: nat, feeds: Env)
    requires a > 0 && b > 0 && feeds.Keys <= {"x", "n"} && Read(feeds, "x") == Some(Vector3(5, 6, 7))
    ensures var values, piece := Values(Lengths(a, b)), Slices(EXAMPLE, 0, [a, b], 2);
      Eval(ops, piece.nodes, Lengths(a, b) + piece.initializers, feeds)
      == Some(Bind(values + feeds + Values(piece.initializers), ["a", "b"],
        SlicesOf(Vector3(5, 6, 7), EXAMPLE, [a, b], 2)))
  {
    hide EvalNodes, SliceOf, GeneratedName, Slices, Elements, RewriteNodes, IsGenerated, Values, AllFaithful,
         HoldsIndices;
    var values, piece := Values(Lengths(a, b)), Slices(EXAMPLE, 0, [a, b], 2);
    ExamplePass(a, b);
    LengthsValues(a, b);
    PlainNamesHere();
    var env := values + feeds + Values(piece.initializers);
    assert Extra(values, [EXAMPLE]) == Values(piece.initializers);
    ExtraHoldsIndices(values, [EXAMPLE], values + feeds, 0);
    GeneratedFaithful(values, [EXAMPLE], 1);
    FaithfulValues(values, [EXAMPLE], piece.initializers);
    ValuesAppend(Lengths(a, b), piece.initializers);
    PlusSwaps(values, Values(piece.initializers), feeds);
    assert "x" !in Values(piece.initializers);
    SlicesEval(ops, env, EXAMPLE, 0, [a, b], 2);
    assert EXAMPLE.outputs[..2] == ["a", "b"];
  }

  lemma PlainNamesHere()
    ensures !IsGenerated("x") && !IsGenerated("n") && !IsGenerated("a") && !IsGenerated("b")
  {
  }

  /** Lengths 1 and 1 on an axis of three: the original graph is refused, the rewritten one loses an element. */
  lemma UnfitLengthsGoUnnoticed(ops: Operators)
    ensures var piece, feeds := Slices(EXAMPLE, 0, [1, 1], 2), map["x" := Vector3(5, 6, 7)];
      && RewriteNodes(Values(Lengths(1, 1)), [EXAMPLE], 1) == Ok(piece)
      && Eval(ops, [EXAMPLE], Lengths(1, 1), feeds).None?
      && Eval(ops, piece.nodes, Lengths(1, 1) + piece.initializers, feeds).Some?
  {
    hide EvalNodes, Slices;
    var feeds := map["x" := Vector3(5, 6, 7)];
    ExamplePass(1, 1);
    LengthsValues(1, 1);
    TotalOfTwo(1, 1);
    ExampleOriginal(ops, Values(Lengths(1, 1)) + feeds, 1, 1);
    ExampleRewritten(ops, 1, 1, feeds);
  }

  /** Lengths 1, 2 overridden by a feed of 2, 1: the original graph follows the feed, the rewritten one does not. */
  lemma OverriddenLengthsDiffer(ops: Operators)
    ensures var piece, feeds := Slices(EXAMPLE, 0, [1, 2], 2), map["x" := Vector3(5, 6, 7), "n" := Vector2(2, 1)];
      var before, after :=
        Eval(ops, [EXAMPLE], Lengths(1, 2), feeds), Eval(ops, piece.nodes, Lengths(1, 2) + piece.initializers, feeds);
      && RewriteNodes(Values(Lengths(1, 2)), [EXAMPLE], 1) == Ok(piece)
      && before.Some? && after.Some? && Read(after.value, "a") != Read(before.value, "a")
  {
    hide EvalNodes, Slices, Pieces, Values, Bind, SliceContent;
    var t, feeds := Vector3(5, 6, 7), map["x" := Vector3(5, 6, 7), "n" := Vector2(2, 1)];
    var piece, values := Slices(EXAMPLE, 0, [1, 2], 2), Values(Lengths(1, 2));
    ExamplePass(1, 2);
    TotalOfTwo(2, 1);
    ExampleOriginal(ops, values + feeds, 2, 1);
    ExampleRewritten(ops, 1, 2, feeds);
    PieceIsSlice(t, 0, [2, 1], 0);
    FirstBound(values + feeds, Pieces(t, 0, [2, 1]));
    FirstBound(values + feeds + Values(piece.initializers), SlicesOf(t, EXAMPLE, [1, 2], 2));
    assert [1, 2][..0] == [];
  }

  lemma FirstBound(env: Env, values: seq<Tensor>)
    requires |values| == 2
    ensures Read(Bind(env, ["a", "b"], values), "a") == Some(values[0])
  {
    BindFrame(env["a" := values[0]], ["b"], values[1..]);
    assert ["a", "b"][1..] == ["b"];
  }
}
