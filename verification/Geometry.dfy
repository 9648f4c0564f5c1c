/** Boxes and their overlap, tools/evaluate_yolo_detection_accuracy.py. */
module Geometry {

  datatype Box = Box(sampleId: string, classId: int, confidence: real,
                     x1: real, y1: real, x2: real, y2: real)
  {
    /** The filter both readers apply; `math.isfinite` is the type `real`. */
    predicate Valid() {
      classId >= 0 && x2 > x1 && y2 > y1
    }
  }

  function Max(a: real, b: real): real { if a >= b then a else b }

  function Min(a: real, b: real): real { if a <= b then a else b }

  function Area(b: Box): real {
    Max(0.0, b.x2 - b.x1) * Max(0.0, b.y2 - b.y1)
  }

  function Intersection(a: Box, b: Box): real {
    Max(0.0, Min(a.x2, b.x2) - Max(a.x1, b.x1)) * Max(0.0, Min(a.y2, b.y2) - Max(a.y1, b.y1))
  }

  function IntersectionOverUnion(left: Box, right: Box): real {
    var intersection := Intersection(left, right);
    var union := Area(left) + Area(right) - intersection;
    if union > 0.0 then intersection / union else 0.0
  }

  lemma ProductMonotone(a: real, b: real, c: real, d: real)
    requires 0.0 <= a <= c && 0.0 <= b <= d
    ensures 0.0 <= a * b <= c * d
  {
    assert a * b <= a * d;
    assert a * d <= c * d;
  }

  /** Along one axis the shared stretch is no longer than either side. */
  lemma SharedSide(a1: real, a2: real, b1: real, b2: real)
    ensures 0.0 <= Max(0.0, Min(a2, b2) - Max(a1, b1)) <= Max(0.0, a2 - a1)
    ensures Max(0.0, Min(a2, b2) - Max(a1, b1)) == Max(0.0, Min(b2, a2) - Max(b1, a1))
  {
  }

  lemma IntersectionWithin(a: Box, b: Box)
    ensures 0.0 <= Intersection(a, b) <= Area(a)
    ensures Intersection(a, b) == Intersection(b, a)
  {
    SharedSide(a.x1, a.x2, b.x1, b.x2);
    SharedSide(a.y1, a.y2, b.y1, b.y2);
    hide Max, Min;
    ProductMonotone(Max(0.0, Min(a.x2, b.x2) - Max(a.x1, b.x1)), Max(0.0, Min(a.y2, b.y2) - Max(a.y1, b.y1)),
                    Max(0.0, a.x2 - a.x1), Max(0.0, a.y2 - a.y1));
  }

  /** The overlap lies between 0 and 1 and does not depend on the order of the boxes, degenerate boxes included. */
  lemma OverlapBounds(a: Box, b: Box)
    ensures 0.0 <= IntersectionOverUnion(a, b) <= 1.0
    ensures IntersectionOverUnion(a, b) == IntersectionOverUnion(b, a)
  {
    IntersectionWithin(a, b);
    IntersectionWithin(b, a);
    var i := Intersection(a, b);
    var u := Area(a) + Area(b) - i;
    if u > 0.0 {
      Ratio(i, u);
    }
  }

  lemma Ratio(i: real, u: real)
    requires 0.0 <= i <= u && 0.0 < u
    ensures 0.0 <= i / u <= 1.0
  {
  }

  /** Full overlap of two valid boxes means the same rectangle. */
  lemma FullOverlap(a: Box, b: Box)
    requires a.Valid() && b.Valid()
    ensures IntersectionOverUnion(a, b) == 1.0 <==> (a.x1, a.y1, a.x2, a.y2) == (b.x1, b.y1, b.x2, b.y2)
  {
    IntersectionWithin(a, b);
    IntersectionWithin(b, a);
    PositiveArea(a);
    PositiveArea(b);
    var i, u := Intersection(a, b), Area(a) + Area(b) - Intersection(a, b);
    assert u > 0.0;
    QuotientOne(i, u);
    if i == u {
      assert i == Area(a) && i == Area(b);
      TightFactors(a, b);
      TightFactors(b, a);
    }
  }

  lemma PositiveArea(b: Box)
    requires b.Valid()
    ensures Area(b) == (b.x2 - b.x1) * (b.y2 - b.y1) > 0.0
  {
  }

  lemma QuotientOne(i: real, u: real)
    requires u > 0.0
    ensures i / u == 1.0 <==> i == u
  {
    assert i / u * u == i;
  }

  /** A box whose whole area is shared lies inside the other box. */
  lemma TightFactors(a: Box, b: Box)
    requires a.Valid() && Intersection(a, b) == Area(a)
    ensures b.x1 <= a.x1 && a.x2 <= b.x2 && b.y1 <= a.y1 && a.y2 <= b.y2
  {
    var w, h := Max(0.0, Min(a.x2, b.x2) - Max(a.x1, b.x1)), Max(0.0, Min(a.y2, b.y2) - Max(a.y1, b.y1));
    EqualProducts(w, h, a.x2 - a.x1, a.y2 - a.y1);
  }

  lemma EqualProducts(a: real, b: real, c: real, d: real)
    requires 0.0 <= a <= c && 0.0 <= b <= d && 0.0 < c && 0.0 < d && a * b == c * d
    ensures a == c && b == d
  {
    if a < c { StrictProduct(a, b, c, d); }
    if b < d { StrictProduct(b, a, d, c); }
  }

  lemma StrictProduct(a: real, b: real, c: real, d: real)
    requires 0.0 <= a < c && 0.0 <= b <= d && 0.0 < d
    ensures a * b < c * d
  {
    ProductMonotone(a, b, a, d);
    PositiveProduct(c - a, d);
    assert (c - a) * d == c * d - a * d;
  }

  lemma PositiveProduct(a: real, b: real)
    requires 0.0 < a && 0.0 < b
    ensures 0.0 < a * b
  {
  }
}
