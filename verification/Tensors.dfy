/** Tensors and the two ONNX operators the rewriter trades: Split (operator set 13) and Slice (operator set 13). */
module Tensors {
  import opened Wrappers

  /** Nested rows down to single elements; the element type plays no part, so elements are integers. */
  datatype Content = Element(value: int) | Rows(items: seq<Content>)

  datatype RawTensor = Tensor(shape: seq<nat>, content: Content)

  /** A tensor's rows have the lengths its shape says. */
  type Tensor = t: RawTensor | Shaped(t.content, t.shape) witness Tensor([], Element(0))

  ghost predicate Shaped(c: Content, shape: seq<nat>)
    decreases |shape|
  {
    if shape == [] then c.Element?
    else c.Rows? && |c.items| == shape[0] && forall i | 0 <= i < |c.items| :: Shaped(c.items[i], shape[1..])
  }

  /** The elements in row-major order, as `reshape(-1)` lists them. */
  function Elements(c: Content): seq<int> {
    match c
    case Element(v) => [v]
    case Rows(items) => RowElements(items)
  }

  function RowElements(items: seq<Content>): seq<int> {
    if items == [] then [] else Elements(items[0]) + RowElements(items[1..])
  }

  // ---------- one axis

  /** Positions `from` up to `to` along axis `k`. */
  function SliceContent(c: Content, k: nat, from: nat, to: nat): Content
    decreases k
  {
    if c.Element? then c
    else if k == 0 then (if from <= to <= |c.items| then Rows(c.items[from..to]) else c)
    else Rows(seq(|c.items|, i requires 0 <= i < |c.items| => SliceContent(c.items[i], k - 1, from, to)))
  }

  /** The first `n` positions along axis `k`, and what is left after them. */
  function TakeContent(c: Content, k: nat, n: nat): Content
    decreases k
  {
    if c.Element? then c
    else if k == 0 then (if n <= |c.items| then Rows(c.items[..n]) else c)
    else Rows(seq(|c.items|, i requires 0 <= i < |c.items| => TakeContent(c.items[i], k - 1, n)))
  }

  function DropContent(c: Content, k: nat, n: nat): Content
    decreases k
  {
    if c.Element? then c
    else if k == 0 then (if n <= |c.items| then Rows(c.items[n..]) else c)
    else Rows(seq(|c.items|, i requires 0 <= i < |c.items| => DropContent(c.items[i], k - 1, n)))
  }

  /** Two contents put together along axis `k`. */
  function JoinContent(a: Content, b: Content, k: nat): Content
    decreases k
  {
    if a.Element? || b.Element? then a
    else if k == 0 then Rows(a.items + b.items)
    else if |a.items| != |b.items| then a
    else Rows(seq(|a.items|, i requires 0 <= i < |a.items| => JoinContent(a.items[i], b.items[i], k - 1)))
  }

  // ---------- shapes

  lemma {:induction false} SliceShaped(c: Content, shape: seq<nat>, k: nat, from: nat, to: nat)
    requires Shaped(c, shape) && k < |shape| && from <= to <= shape[k]
    ensures Shaped(SliceContent(c, k, from, to), shape[k := to - from])
    decreases k
  {
    if k > 0 {
      assert shape[k := to - from][1..] == shape[1..][k - 1 := to - from];
      forall i | 0 <= i < |c.items|
        ensures Shaped(SliceContent(c.items[i], k - 1, from, to), shape[k := to - from][1..])
      {
        SliceShaped(c.items[i], shape[1..], k - 1, from, to);
      }
    } else {
      assert shape[k := to - from][1..] == shape[1..];
    }
  }

  lemma {:induction false} TakeIsSlice(c: Content, shape: seq<nat>, k: nat, n: nat)
    requires Shaped(c, shape) && k < |shape| && n <= shape[k]
    ensures TakeContent(c, k, n) == SliceContent(c, k, 0, n)
    decreases k
  {
    if k > 0 {
      forall i | 0 <= i < |c.items| ensures TakeContent(c.items[i], k - 1, n) == SliceContent(c.items[i], k - 1, 0, n) {
        TakeIsSlice(c.items[i], shape[1..], k - 1, n);
      }
      assert TakeContent(c, k, n).items == SliceContent(c, k, 0, n).items;
    }
  }

  lemma {:induction false} DropIsSlice(c: Content, shape: seq<nat>, k: nat, n: nat)
    requires Shaped(c, shape) && k < |shape| && n <= shape[k]
    ensures DropContent(c, k, n) == SliceContent(c, k, n, shape[k])
    decreases k
  {
    if k > 0 {
      forall i | 0 <= i < |c.items|
        ensures DropContent(c.items[i], k - 1, n) == SliceContent(c.items[i], k - 1, n, shape[k])
      {
        DropIsSlice(c.items[i], shape[1..], k - 1, n);
      }
      assert DropContent(c, k, n).items == SliceContent(c, k, n, shape[k]).items;
    }
  }

  lemma CutShaped(c: Content, shape: seq<nat>, k: nat, n: nat)
    requires Shaped(c, shape) && k < |shape| && n <= shape[k]
    ensures Shaped(TakeContent(c, k, n), shape[k := n])
    ensures Shaped(DropContent(c, k, n), shape[k := shape[k] - n])
  {
    TakeIsSlice(c, shape, k, n);
    SliceShaped(c, shape, k, 0, n);
    DropIsSlice(c, shape, k, n);
    SliceShaped(c, shape, k, n, shape[k]);
  }

  // ---------- the operators

  function Total(lengths: seq<nat>): nat {
    if lengths == [] then 0 else lengths[0] + Total(lengths[1..])
  }

  /** The axis counted from the back when negative; `None` when the tensor has no such axis. */
  function AxisOf(axis: int, rank: nat): Option<nat> {
    if 0 <= axis < rank then Some(axis)
    else if axis < 0 && axis + rank >= 0 then Some(axis + rank)
    else None
  }

  /** Split cuts the pieces off one after the other. */
  function Pieces(t: Tensor, k: nat, lengths: seq<nat>): (pieces: seq<Tensor>)
    requires k < |t.shape| && Total(lengths) <= t.shape[k]
    ensures |pieces| == |lengths|
    decreases |lengths|
  {
    if lengths == [] then []
    else
      var n := lengths[0];
      CutShaped(t.content, t.shape, k, n);
      [Tensor(t.shape[k := n], TakeContent(t.content, k, n))]
      + Pieces(Tensor(t.shape[k := t.shape[k] - n], DropContent(t.content, k, n)), k, lengths[1..])
  }

  predicate NoneNegative(lengths: seq<int>) {
    forall i :: 0 <= i < |lengths| ==> lengths[i] >= 0
  }

  /** Split: one output per length, the lengths together exactly as long as the axis. */
  function Split(t: Tensor, lengths: seq<int>, axis: int, outputs: nat): Option<seq<Tensor>> {
    match AxisOf(axis, |t.shape|)
    case None => None
    case Some(k) =>
      if |lengths| == outputs && NoneNegative(lengths) && Total(lengths) == t.shape[k]
      then Some(Pieces(t, k, lengths))
      else None
  }

  /** A start or end position: negative ones count from the back, and all are cut to the axis. */
  function Clamp(position: int, dim: nat): nat {
    var p := if position < 0 then position + dim else position;
    if p < 0 then 0 else if p > dim then dim else p
  }

  /** Slice along one axis with step 1. */
  function Slice(t: Tensor, start: int, end: int, axis: int): Option<Tensor> {
    match AxisOf(axis, |t.shape|)
    case None => None
    case Some(k) =>
      var from, to := Clamp(start, t.shape[k]), Clamp(end, t.shape[k]);
      var last := if to < from then from else to;
      SliceShaped(t.content, t.shape, k, from, last);
      Some(Tensor(t.shape[k := last - from], SliceContent(t.content, k, from, last)))
  }

  // ---------- laws

  lemma {:induction false} SliceOfSlice(c: Content, shape: seq<nat>, k: nat, from: nat, to: nat, a: nat, b: nat)
    requires Shaped(c, shape) && k < |shape| && from <= to <= shape[k] && a <= b <= to - from
    ensures SliceContent(SliceContent(c, k, from, to), k, a, b) == SliceContent(c, k, from + a, from + b)
    decreases k
  {
    var inner := SliceContent(c, k, from, to);
    if k > 0 {
      forall i | 0 <= i < |c.items|
        ensures SliceContent(inner.items[i], k - 1, a, b) == SliceContent(c.items[i], k - 1, from + a, from + b)
      {
        SliceOfSlice(c.items[i], shape[1..], k - 1, from, to, a, b);
      }
      assert SliceContent(inner, k, a, b).items == SliceContent(c, k, from + a, from + b).items;
    } else {
      assert c.items[from..to][a..b] == c.items[from + a..from + b];
    }
  }

  /** Where piece `i` starts. */
  function StartOf(lengths: seq<nat>, i: nat): nat
    requires i <= |lengths|
  {
    Total(lengths[..i])
  }

  lemma {:induction false} StartWithin(lengths: seq<nat>, i: nat)
    requires i < |lengths|
    ensures StartOf(lengths, i + 1) == StartOf(lengths, i) + lengths[i] <= Total(lengths)
    ensures i > 0 ==> StartOf(lengths, i) == lengths[0] + StartOf(lengths[1..], i - 1)
  {
    assert lengths[..i + 1][1..] == lengths[1..][..i];
    if i > 0 {
      assert lengths[..i][1..] == lengths[1..][..i - 1];
      StartWithin(lengths[1..], i - 1);
    }
  }

  /** Piece `i` of a Split is the slice from the lengths before it, `lengths[i]` long. */
  lemma {:induction false} PieceIsSlice(t: Tensor, k: nat, lengths: seq<nat>, i: nat)
    requires k < |t.shape| && i < |lengths|
    requires Total(lengths) <= t.shape[k]
    ensures StartOf(lengths, i) + lengths[i] <= t.shape[k]
    ensures Pieces(t, k, lengths)[i]
         == Tensor(t.shape[k := lengths[i]],
           SliceContent(t.content, k, StartOf(lengths, i), StartOf(lengths, i) + lengths[i]))
    decreases |lengths|
  {
    StartWithin(lengths, i);
    var n := lengths[0];
    if i == 0 {
      TakeIsSlice(t.content, t.shape, k, n);
      assert lengths[..0] == [];
    } else {
      CutShaped(t.content, t.shape, k, n);
      var rest := Tensor(t.shape[k := t.shape[k] - n], DropContent(t.content, k, n));
      DropIsSlice(t.content, t.shape, k, n);
      PieceIsSlice(rest, k, lengths[1..], i - 1);
      var a := StartOf(lengths[1..], i - 1);
      SliceOfSlice(t.content, t.shape, k, n, t.shape[k], a, a + lengths[i]);
      assert rest.shape[k := lengths[i]] == t.shape[k := lengths[i]];
    }
  }

  lemma {:induction false} JoinTakeDrop(c: Content, shape: seq<nat>, k: nat, n: nat)
    requires Shaped(c, shape) && k < |shape| && n <= shape[k]
    ensures JoinContent(TakeContent(c, k, n), DropContent(c, k, n), k) == c
    decreases k
  {
    var a, b := TakeContent(c, k, n), DropContent(c, k, n);
    if k > 0 {
      forall i | 0 <= i < |c.items| ensures JoinContent(a.items[i], b.items[i], k - 1) == c.items[i] {
        JoinTakeDrop(c.items[i], shape[1..], k - 1, n);
      }
      assert JoinContent(a, b, k).items == c.items;
    } else {
      assert c.items[..n] + c.items[n..] == c.items;
    }
  }

  /** The pieces put together again along the axis. */
  function JoinAll(pieces: seq<Tensor>, k: nat): Content
    requires pieces != []
  {
    if |pieces| == 1 then pieces[0].content
    else JoinContent(pieces[0].content, JoinAll(pieces[1..], k), k)
  }

  lemma {:induction false} TakeAll(c: Content, shape: seq<nat>, k: nat)
    requires Shaped(c, shape) && k < |shape|
    ensures TakeContent(c, k, shape[k]) == c
    decreases k
  {
    if k > 0 {
      forall i | 0 <= i < |c.items| ensures TakeContent(c.items[i], k - 1, shape[k]) == c.items[i] {
        TakeAll(c.items[i], shape[1..], k - 1);
      }
      assert TakeContent(c, k, shape[k]).items == c.items;
    }
  }

  /** The pieces of a Split tile its axis: joined in order they give the input back. */
  lemma {:induction false} PiecesTile(t: Tensor, k: nat, lengths: seq<nat>)
    requires k < |t.shape| && lengths != []
    requires Total(lengths) == t.shape[k]
    ensures Pieces(t, k, lengths) != [] && JoinAll(Pieces(t, k, lengths), k) == t.content
    decreases |lengths|
  {
    var n := lengths[0];
    if |lengths| == 1 {
      assert lengths[1..] == [];
      TakeAll(t.content, t.shape, k);
    } else {
      CutShaped(t.content, t.shape, k, n);
      var rest := Tensor(t.shape[k := t.shape[k] - n], DropContent(t.content, k, n));
      PiecesTile(rest, k, lengths[1..]);
      assert Pieces(t, k, lengths)[1..] == Pieces(rest, k, lengths[1..]);
      JoinTakeDrop(t.content, t.shape, k, n);
    }
  }
}
