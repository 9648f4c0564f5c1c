/** Fitting a picture into the model's square input and handing it to the phone as bytes,
    android_inference_benchmark/tools. Scaling a picture is a function left open. */
module Letterbox {
  import opened Wrappers
  import Geometry
  import Rounding

  type Byte = x: int | 0 <= x < 256

  datatype Pixel = Pixel(blue: Byte, green: Byte, red: Byte)

  const GREY := Pixel(114, 114, 114)

  /** Where the scaled picture goes on the canvas. */
  datatype Placement = Placement(width: int, height: int, left: int, top: int)

  function AtLeastOne(n: int): int {
    if n < 1 then 1 else n
  }

  function Ratio(size: nat, side: nat): real
    requires side > 0
  {
    size as real / side as real
  }

  function ScaledSide(side: nat, scale: real): int {
    AtLeastOne(Rounding.RoundHalfEven(side as real * scale))
  }

  /** The sizes and offsets of `letterbox_rgb_nchw`. */
  function Place(size: nat, width: nat, height: nat): Placement
    requires size > 0 && width > 0 && height > 0
  {
    var scale := Geometry.Min(Ratio(size, width), Ratio(size, height));
    var w, h := ScaledSide(width, scale), ScaledSide(height, scale);
    Placement(w, h, (size - w) / 2, (size - h) / 2)
  }

  lemma RoundWithin(y: real, n: int)
    requires 0.0 <= y <= n as real
    ensures 0 <= Rounding.RoundHalfEven(y) <= n
    ensures y == n as real ==> Rounding.RoundHalfEven(y) == n
  {
  }

  lemma Scaled(size: nat, side: nat, scale: real)
    requires size > 0 && side > 0 && 0.0 < scale <= Ratio(size, side)
    ensures 0.0 <= side as real * scale <= size as real
    ensures scale == Ratio(size, side) ==> side as real * scale == size as real
  {
    var s, q := side as real, Ratio(size, side);
    assert s * q == size as real;
    assert s * scale <= s * q;
    assert 0.0 < s * scale;
  }

  lemma PositiveRatio(size: nat, side: nat)
    requires size > 0 && side > 0
    ensures Ratio(size, side) > 0.0
  {
  }

  lemma SideFits(size: nat, side: nat, scale: real)
    requires size > 0 && side > 0 && 0.0 < scale <= Ratio(size, side)
    ensures 1 <= ScaledSide(side, scale) <= size
    ensures scale == Ratio(size, side) ==> ScaledSide(side, scale) == size
  {
    hide Ratio, Rounding.RoundHalfEven;
    var y := side as real * scale;
    Scaled(size, side, scale);
    assert scale == Ratio(size, side) ==> y == size as real;
    RoundWithin(y, size);
  }

  /** The picture lies inside the canvas and is centred to within one pixel, and one of its sides
      fills the canvas, however extreme its shape. */
  lemma PlacedInside(size: nat, width: nat, height: nat)
    requires size > 0 && width > 0 && height > 0
    ensures var p := Place(size, width, height);
      && 1 <= p.width && 1 <= p.height && 0 <= p.left && 0 <= p.top
      && p.left + p.width <= size && p.top + p.height <= size
      && 0 <= size - p.width - 2 * p.left <= 1 && 0 <= size - p.height - 2 * p.top <= 1
      && (p.width == size || p.height == size)
  {
    hide Ratio, ScaledSide;
    var scale := Geometry.Min(Ratio(size, width), Ratio(size, height));
    PositiveRatio(size, width);
    PositiveRatio(size, height);
    SideFits(size, width, scale);
    SideFits(size, height, scale);
  }

  // ---------- the canvas

  /** The pixel of the canvas in row `y` and column `x`. */
  function CanvasAt(p: Placement, scaled: (int, int) -> Pixel, y: int, x: int): Pixel {
    if p.top <= y < p.top + p.height && p.left <= x < p.left + p.width then scaled(y - p.top, x - p.left) else GREY
  }

  /** Fills the canvas with grey and overwrites the rectangle in place. */
  method Paint(canvas: array2<Pixel>, p: Placement, scaled: (int, int) -> Pixel)
    requires 0 <= p.left && 0 <= p.top && 0 <= p.width && 0 <= p.height
    requires p.left + p.width <= canvas.Length1 && p.top + p.height <= canvas.Length0
    modifies canvas
    ensures forall y, x :: 0 <= y < canvas.Length0 && 0 <= x < canvas.Length1 ==>
      canvas[y, x] == CanvasAt(p, scaled, y, x)
  {
    forall y, x | 0 <= y < canvas.Length0 && 0 <= x < canvas.Length1 {
      canvas[y, x] := GREY;
    }
    for row := 0 to p.height
      invariant forall y, x :: 0 <= y < canvas.Length0 && 0 <= x < canvas.Length1 ==>
        canvas[y, x] == if y < p.top + row then CanvasAt(p, scaled, y, x) else GREY
    {
      for x := 0 to p.width
        invariant forall y, k :: 0 <= y < canvas.Length0 && 0 <= k < canvas.Length1 ==>
          canvas[y, k] ==
          if y < p.top + row || (y == p.top + row && k < p.left + x) then CanvasAt(p, scaled, y, k) else GREY
      {
        canvas[p.top + row, p.left + x] := scaled(row, x);
      }
    }
  }

  // ---------- the two layouts

  function Channel(pixel: Pixel, c: int): Byte {
    if c == 0 then pixel.red else if c == 1 then pixel.green else pixel.blue
  }

  lemma Ordered(a: int, b: int, n: nat)
    requires a <= b
    ensures a * n <= b * n
  {
  }

  /** A number is put together from quotient and remainder in one way. */
  lemma Undo(a: nat, b: nat, n: nat)
    requires b < n
    ensures (a * n + b) / n == a && (a * n + b) % n == b
  {
    var k := a * n + b;
    var q := k / n;
    assert k == q * n + k % n;
    if q < a { Ordered(q + 1, a, n); }
    if q > a { Ordered(a + 1, q, n); }
  }

  /** Row by row and column by column, one channel after the other. */
  function Planes(size: nat, canvas: (int, int) -> Pixel): (values: seq<real>)
    requires size > 0
  {
    seq(3 * size * size, i requires 0 <= i =>
      Channel(canvas(i / size % size, i % size), i / size / size) as real / 255.0)
  }

  /** Where channel `c` of row `y` and column `x` stands among the planes. */
  function PlaneIndex(size: nat, c: nat, y: nat, x: nat): nat {
    (c * size + y) * size + x
  }

  /** Where it stands when the channels of a pixel come together. */
  function PixelIndex(size: nat, c: nat, y: nat, x: nat): nat {
    (y * size + x) * 3 + c
  }

  lemma IndexWithin(size: nat, c: nat, y: nat, x: nat)
    requires c < 3 && y < size && x < size
    ensures PlaneIndex(size, c, y, x) < 3 * size * size && PixelIndex(size, c, y, x) < 3 * size * size
  {
    PlaneWithin(size, c, y, x);
    RowWithin(size, y, x, size);
    assert PixelIndex(size, c, y, x) == 3 * (y * size + x) + c;
    assert 3 * size * size == 3 * (size * size);
  }

  lemma RowWithin(size: nat, y: nat, x: nat, rows: nat)
    requires y < rows && x < size
    ensures y * size + x < rows * size
  {
    Ordered(y + 1, rows, size);
  }

  lemma PlaneWithin(size: nat, c: nat, y: nat, x: nat)
    requires c < 3 && y < size && x < size
    ensures PlaneIndex(size, c, y, x) < 3 * size * size
  {
    RowWithin(size, c, y, 3);
    RowWithin(size, c * size + y, x, 3 * size);
  }

  lemma PlaneHolds(size: nat, canvas: (int, int) -> Pixel, c: nat, y: nat, x: nat)
    requires c < 3 && y < size && x < size
    ensures PlaneIndex(size, c, y, x) < |Planes(size, canvas)|
    ensures Planes(size, canvas)[PlaneIndex(size, c, y, x)] == Channel(canvas(y, x), c) as real / 255.0
  {
    IndexWithin(size, c, y, x);
    Undo(c * size + y, x, size);
    Undo(c, y, size);
  }

  // ---------- the phone's bytes

  const SIDE: nat := 320

  /** `load_normalized_nchw` and the conversion in `main`: channels together, scaled back to bytes. */
  function RuntimeInput(values: seq<real>): (r: Result<seq<int>, string>) {
    if |values| != 3 * SIDE * SIDE then Err("unexpected number of values")
    else if exists i | 0 <= i < |values| :: values[i] < 0.0 || values[i] > 1.0 then
      Err("values outside the unit interval")
    else
      Ok(seq(3 * SIDE * SIDE, i requires 0 <= i < 3 * SIDE * SIDE =>
        Rounding.RoundHalfEven(ByteAt(values, i) * 255.0)))
  }

  /** The value for byte `i`: channel `i % 3` of pixel `i / 3`. */
  function ByteAt(values: seq<real>, i: int): real
    requires 0 <= i < 3 * SIDE * SIDE == |values|
  {
    Transposed(i);
    values[PlaneIndex(SIDE, i % 3, i / 3 / SIDE, i / 3 % SIDE)]
  }

  lemma Transposed(i: int)
    requires 0 <= i < 3 * SIDE * SIDE
    ensures i % 3 < 3 && 0 <= i / 3 / SIDE < SIDE
      && PlaneIndex(SIDE, i % 3, i / 3 / SIDE, i / 3 % SIDE) < 3 * SIDE * SIDE
  {
    IndexWithin(SIDE, i % 3, i / 3 / SIDE, i / 3 % SIDE);
  }

  lemma ByteBack(b: Byte)
    ensures 0.0 <= b as real / 255.0 <= 1.0
    ensures Rounding.RoundHalfEven(b as real / 255.0 * 255.0) == b
  {
    assert b as real / 255.0 * 255.0 == b as real;
  }

  lemma PlanesInUnit(size: nat, canvas: (int, int) -> Pixel)
    requires size > 0
    ensures forall i :: 0 <= i < |Planes(size, canvas)| ==> 0.0 <= Planes(size, canvas)[i] <= 1.0
  {
    var values := Planes(size, canvas);
    forall i | 0 <= i < |values| ensures 0.0 <= values[i] <= 1.0 {
      ByteBack(Channel(canvas(i / size % size, i % size), i / size / size));
    }
  }

  lemma ByteOf(values: seq<real>, c: nat, y: nat, x: nat)
    requires |values| == 3 * SIDE * SIDE && c < 3 && y < SIDE && x < SIDE
    ensures PixelIndex(SIDE, c, y, x) < 3 * SIDE * SIDE && PlaneIndex(SIDE, c, y, x) < |values|
    ensures ByteAt(values, PixelIndex(SIDE, c, y, x)) == values[PlaneIndex(SIDE, c, y, x)]
  {
    IndexWithin(SIDE, c, y, x);
    Undo(y * SIDE + x, c, 3);
    Undo(y, x, SIDE);
  }

  /** From canvas to phone: the float planes are accepted, and byte for byte the phone gets the
      canvas's own channels, red first, nothing lost to scaling and back. */
  lemma BytesArrive(canvas: (int, int) -> Pixel, c: nat, y: nat, x: nat)
    requires c < 3 && y < SIDE && x < SIDE
    ensures var r := RuntimeInput(Planes(SIDE, canvas));
      r.Ok? && |r.value| == 3 * SIDE * SIDE && PixelIndex(SIDE, c, y, x) < |r.value|
      && r.value[PixelIndex(SIDE, c, y, x)] == Channel(canvas(y, x), c)
  {
    hide Rounding.RoundHalfEven;
    var values := Planes(SIDE, canvas);
    PlanesInUnit(SIDE, canvas);
    ByteOf(values, c, y, x);
    PlaneHolds(SIDE, canvas, c, y, x);
    ByteBack(Channel(canvas(y, x), c));
  }

  // ---------- the same in numbers

  /** `side` at the scale that makes the longer side `size`: the nearest whole number, and at least 1. */
  ghost predicate InProportion(size: nat, side: nat, longer: nat, scaled: int)
    requires longer > 0
  {
    NearestFromOne(side as real * (size as real / longer as real), scaled)
  }

  ghost predicate NearestFromOne(exact: real, n: int) {
    if exact < 1.5 then n == 1 else Rounding.NearestEven(exact, n)
  }

  lemma RoundedFromOne(y: real)
    ensures NearestFromOne(y, AtLeastOne(Rounding.RoundHalfEven(y)))
  {
    Rounding.NearestUnique(y, Rounding.RoundHalfEven(y), Rounding.RoundHalfEven(y));
  }

  /** The longer side fills the canvas, and the shorter one keeps its proportion to it. */
  lemma PlacedInProportion(size: nat, width: nat, height: nat)
    requires size > 0 && width > 0 && height > 0
    ensures var p := Place(size, width, height);
      && (width >= height ==> p.width == size && InProportion(size, height, width, p.height))
      && (height >= width ==> p.height == size && InProportion(size, width, height, p.width))
  {
    hide Rounding.RoundHalfEven, Rounding.NearestEven, ScaledSide;
    RatiosOrdered(size, width, height);
    PositiveRatio(size, width);
    PositiveRatio(size, height);
    if width >= height {
      SideFits(size, width, Ratio(size, width));
      ScaledInProportion(size, height, width);
    }
    if height >= width {
      SideFits(size, height, Ratio(size, height));
      ScaledInProportion(size, width, height);
    }
  }

  lemma RatiosOrdered(size: nat, width: nat, height: nat)
    requires size > 0 && width > 0 && height > 0
    ensures var scale := Geometry.Min(Ratio(size, width), Ratio(size, height));
      (width >= height ==> scale == Ratio(size, width)) && (height >= width ==> scale == Ratio(size, height))
  {
    if width >= height { LargerDivisor(size, width, height); }
    if height >= width { LargerDivisor(size, height, width); }
  }

  lemma LargerDivisor(size: nat, larger: nat, smaller: nat)
    requires size > 0 && larger >= smaller > 0
    ensures Ratio(size, larger) <= Ratio(size, smaller)
    ensures larger == smaller ==> Ratio(size, larger) == Ratio(size, smaller)
  {
    var s, a, b := size as real, larger as real, smaller as real;
    var p, q := s / a, s / b;
    assert p * a == s && q * b == s;
    if p > q {
      Geometry.PositiveProduct(p - q, a);
      Geometry.ProductMonotone(q, b, q, a);
    }
  }

  lemma ScaledInProportion(size: nat, side: nat, longer: nat)
    requires longer > 0
    ensures InProportion(size, side, longer, ScaledSide(side, Ratio(size, longer)))
  {
    RoundedFromOne(side as real * Ratio(size, longer));
    hide NearestFromOne, AtLeastOne, Rounding.RoundHalfEven;
  }

  /** Outside the placed picture the canvas is the grey of 114. */
  lemma CanvasSpelled(p: Placement, scaled: (int, int) -> Pixel, y: int, x: int)
    ensures var inside := p.top <= y < p.top + p.height && p.left <= x < p.left + p.width;
      CanvasAt(p, scaled, y, x) == if inside then scaled(y - p.top, x - p.left) else Pixel(114, 114, 114)
  {
  }

  /** The phone gets 3 * 320 * 320 bytes: red, green and blue of each pixel, row by row. */
  lemma BytesSpelled(canvas: (int, int) -> Pixel, y: nat, x: nat)
    requires y < 320 && x < 320
    ensures var r := RuntimeInput(Planes(320, canvas));
      && r.Ok? && |r.value| == 307200 && (y * 320 + x) * 3 + 2 < 307200
      && r.value[(y * 320 + x) * 3] == canvas(y, x).red
      && r.value[(y * 320 + x) * 3 + 1] == canvas(y, x).green
      && r.value[(y * 320 + x) * 3 + 2] == canvas(y, x).blue
  {
    hide RuntimeInput, Planes;
    BytesArrive(canvas, 0, y, x);
    BytesArrive(canvas, 1, y, x);
    BytesArrive(canvas, 2, y, x);
  }
}
