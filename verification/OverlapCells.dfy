/**
  What the overlap ratio measures, counted in unit cells: of the cells lying in either box, the share
  that lies in both. Scaling and shifting both boxes leaves the ratio alone, which carries the count
  over to rational corners.
 */
module OverlapCells {
  import opened Geometry

  datatype Corners = Corners(x1: int, y1: int, x2: int, y2: int)

  /** The cell (x, y) is the unit square from (x, y) to (x + 1, y + 1). */
  ghost function Cells(c: Corners): set<(int, int)> {
    set x, y | c.x1 <= x < c.x2 && c.y1 <= y < c.y2 :: (x, y)
  }

  predicate At(b: Box, c: Corners) {
    b.x1 == c.x1 as real && b.y1 == c.y1 as real && b.x2 == c.x2 as real && b.y2 == c.y2 as real
  }

  /** The box `b` magnified `k` times and moved by (dx, dy). */
  function Moved(b: Box, k: real, dx: real, dy: real): Box {
    b.(x1 := Coordinate(b.x1, k, dx), y1 := Coordinate(b.y1, k, dy),
       x2 := Coordinate(b.x2, k, dx), y2 := Coordinate(b.y2, k, dy))
  }

  function Times(x: real, y: real): real { x * y }

  function Coordinate(x: real, k: real, d: real): real { k * x + d }

  function Width(from: int, to: int): int { if to > from then to - from else 0 }

  /** `ratio` times the number of cells in the whole is the number in the part; it is 0 of an empty whole. */
  ghost predicate IsShare<T>(ratio: real, part: set<T>, whole: set<T>) {
    && ratio * |whole| as real == |part| as real
    && (whole == {} ==> ratio == 0.0)
  }

  /** The overlap times the cells in either box is the number of cells in both. */
  lemma OverlapCountsCells(a: Box, b: Box, c: Corners, d: Corners)
    requires At(a, c) && At(b, d)
    ensures IsShare(IntersectionOverUnion(a, b), Cells(c) * Cells(d), Cells(c) + Cells(d))
  {
    OverlapCounted(a, b, c, d);
    hide *;
    CountedShare(Cells(c) * Cells(d), Cells(c) + Cells(d));
  }

  lemma OverlapCounted(a: Box, b: Box, c: Corners, d: Corners)
    requires At(a, c) && At(b, d)
    ensures IntersectionOverUnion(a, b) == Share(|Cells(c) * Cells(d)| as real, |Cells(c) + Cells(d)| as real)
  {
    AreaCounts(a, c);
    AreaCounts(b, d);
    IntersectionCounts(a, b, c, d);
    OverlapIsShare(a, b);
    UnionCount(Cells(c), Cells(d));
    hide *;
  }

  lemma UnionCount<T>(s: set<T>, t: set<T>)
    ensures |s + t| == |s| + |t| - |s * t|
    ensures |s + t| == 0 ==> |s * t| == 0
  {
  }

  function Share(part: real, whole: real): real {
    if whole > 0.0 then part / whole else 0.0
  }

  lemma OverlapIsShare(a: Box, b: Box)
    ensures IntersectionOverUnion(a, b) == Share(Intersection(a, b), Area(a) + Area(b) - Intersection(a, b))
  {
    hide Area, Intersection;
  }

  lemma CountedShare<T>(part: set<T>, whole: set<T>)
    requires part <= whole
    ensures IsShare(Share(|part| as real, |whole| as real), part, whole)
  {
    QuotientTimes(|part| as real, |whole| as real);
  }

  lemma QuotientTimes(i: real, u: real)
    ensures u > 0.0 ==> i / u * u == i
  {
  }

  /** The same for corners on the grid of a fixed fraction, and for any common origin: every pair of rational boxes. */
  lemma OverlapCountsFineCells(a: Box, b: Box, c: Corners, d: Corners, fine: real, dx: real, dy: real)
    requires fine > 0.0
    requires At(Moved(a, fine, dx, dy), c) && At(Moved(b, fine, dx, dy), d)
    ensures IsShare(IntersectionOverUnion(a, b), Cells(c) * Cells(d), Cells(c) + Cells(d))
  {
    OverlapMoves(a, b, fine, dx, dy);
    hide *;
    OverlapCountsCells(Moved(a, fine, dx, dy), Moved(b, fine, dx, dy), c, d);
  }

  /** Magnifying and moving both boxes alike keeps their overlap. */
  lemma OverlapMoves(a: Box, b: Box, k: real, dx: real, dy: real)
    requires k > 0.0
    ensures IntersectionOverUnion(Moved(a, k, dx, dy), Moved(b, k, dx, dy)) == IntersectionOverUnion(a, b)
  {
    var a', b' := Moved(a, k, dx, dy), Moved(b, k, dx, dy);
    AreaMoves(a, k, dx, dy);
    AreaMoves(b, k, dx, dy);
    IntersectionMoves(a, b, k, dx, dy);
    OverlapIsShare(a, b);
    OverlapIsShare(a', b');
    PositiveTimes(k, k);
    hide *;
    ShareMoves(Times(k, k), Intersection(a, b), Area(a), Area(b));
  }

  lemma ShareMoves(q: real, i: real, m: real, n: real)
    requires q > 0.0
    ensures Share(Times(q, i), Times(q, m) + Times(q, n) - Times(q, i)) == Share(i, m + n - i)
  {
    var u := m + n - i;
    assert Times(q, m) + Times(q, n) - Times(q, i) == Times(q, u);
    if u > 0.0 {
      PositiveProduct(q, u);
      CancelFactor(q, i, u);
    } else {
      NoPositive(q, -u);
    }
  }

  lemma PositiveTimes(x: real, y: real)
    requires x > 0.0 && y > 0.0
    ensures Times(x, y) > 0.0
  {
  }

  lemma NoPositive(q: real, u: real)
    requires q > 0.0 && u >= 0.0
    ensures q * -u <= 0.0
  {
  }

  lemma CancelFactor(q: real, i: real, u: real)
    requires q > 0.0 && u > 0.0 && q * u > 0.0
    ensures (q * i) / (q * u) == i / u
  {
    var r := i / u;
    assert r * u == i;
    assert q * i == r * (q * u);
  }

  /** The part of an axis that two stretches share. */
  function Stretch(a1: real, a2: real, b1: real, b2: real): real {
    Max(0.0, Min(a2, b2) - Max(a1, b1))
  }

  lemma SidesMultiply(a: Box, b: Box)
    ensures Intersection(a, b) == Times(Stretch(a.x1, a.x2, b.x1, b.x2), Stretch(a.y1, a.y2, b.y1, b.y2))
    ensures Area(a) == Times(Stretch(a.x1, a.x2, a.x1, a.x2), Stretch(a.y1, a.y2, a.y1, a.y2))
  {
  }

  lemma IntersectionMoves(a: Box, b: Box, k: real, dx: real, dy: real)
    requires k > 0.0
    ensures Intersection(Moved(a, k, dx, dy), Moved(b, k, dx, dy)) == Times(Times(k, k), Intersection(a, b))
  {
    StretchMoves(a.x1, a.x2, b.x1, b.x2, k, dx);
    StretchMoves(a.y1, a.y2, b.y1, b.y2, k, dy);
    SidesMultiply(a, b);
    SidesMultiply(Moved(a, k, dx, dy), Moved(b, k, dx, dy));
    Rearrange(k, Stretch(a.x1, a.x2, b.x1, b.x2), Stretch(a.y1, a.y2, b.y1, b.y2));
    hide Intersection, Area, Stretch, Coordinate, Times;
  }

  lemma AreaMoves(b: Box, k: real, dx: real, dy: real)
    requires k > 0.0
    ensures Area(Moved(b, k, dx, dy)) == Times(Times(k, k), Area(b))
  {
    StretchMoves(b.x1, b.x2, b.x1, b.x2, k, dx);
    StretchMoves(b.y1, b.y2, b.y1, b.y2, k, dy);
    SidesMultiply(b, b);
    SidesMultiply(Moved(b, k, dx, dy), Moved(b, k, dx, dy));
    Rearrange(k, Stretch(b.x1, b.x2, b.x1, b.x2), Stretch(b.y1, b.y2, b.y1, b.y2));
    hide Intersection, Area, Stretch, Coordinate, Times;
  }

  lemma Rearrange(k: real, w: real, h: real)
    ensures Times(Times(k, w), Times(k, h)) == Times(Times(k, k), Times(w, h))
  {
  }

  lemma StretchMoves(a1: real, a2: real, b1: real, b2: real, k: real, d: real)
    requires k > 0.0
    ensures Stretch(Coordinate(a1, k, d), Coordinate(a2, k, d), Coordinate(b1, k, d), Coordinate(b2, k, d))
         == Times(k, Stretch(a1, a2, b1, b2))
  {
    OrderMoves(a2, b2, k, d);
    OrderMoves(a1, b1, k, d);
    var s, t := Min(a2, b2), Max(a1, b1);
    OrderMoves(s, t, k, d);
    assert k * s - k * t == k * (s - t);
  }

  lemma OrderMoves(a: real, b: real, k: real, d: real)
    requires k > 0.0
    ensures Coordinate(a, k, d) <= Coordinate(b, k, d) <==> a <= b
    ensures Coordinate(a, k, d) >= Coordinate(b, k, d) <==> a >= b
  {
    if a < b { PositiveProduct(k, b - a); assert k * (b - a) == k * b - k * a; }
    if b < a { PositiveProduct(k, a - b); assert k * (a - b) == k * a - k * b; }
  }

  function Shared(c: Corners, d: Corners): Corners {
    Corners(if c.x1 >= d.x1 then c.x1 else d.x1, if c.y1 >= d.y1 then c.y1 else d.y1,
            if c.x2 <= d.x2 then c.x2 else d.x2, if c.y2 <= d.y2 then c.y2 else d.y2)
  }

  lemma CellArea(c: Corners)
    ensures |Cells(c)| as real == Times(Width(c.x1, c.x2) as real, Width(c.y1, c.y2) as real)
  {
    CellCount(c);
  }

  lemma AreaCounts(b: Box, c: Corners)
    requires At(b, c)
    ensures Area(b) == |Cells(c)| as real
  {
    SidesMultiply(b, b);
    CellArea(c);
    hide Cells, Times, Area, Intersection;
  }

  lemma IntersectionCounts(a: Box, b: Box, c: Corners, d: Corners)
    requires At(a, c) && At(b, d)
    ensures Intersection(a, b) == |Cells(c) * Cells(d)| as real
  {
    SharedCells(c, d);
    SharedStretches(a, b, c, d);
    CellArea(Shared(c, d));
    SidesMultiply(a, b);
    hide *;
  }

  lemma SharedCells(c: Corners, d: Corners)
    ensures Cells(c) * Cells(d) == Cells(Shared(c, d))
  {
  }

  lemma SharedStretches(a: Box, b: Box, c: Corners, d: Corners)
    requires At(a, c) && At(b, d)
    ensures var s := Shared(c, d);
      && Stretch(a.x1, a.x2, b.x1, b.x2) == Width(s.x1, s.x2) as real
      && Stretch(a.y1, a.y2, b.y1, b.y2) == Width(s.y1, s.y2) as real
  {
  }

  /** A box holds width times height cells; columns are counted one at a time, the last first. */
  lemma {:induction false} CellCount(c: Corners)
    ensures |Cells(c)| == Width(c.x1, c.x2) * Width(c.y1, c.y2)
    decreases c.x2 - c.x1
  {
    if c.x1 < c.x2 {
      var less := c.(x2 := c.x2 - 1);
      var last := c.(x1 := c.x2 - 1);
      CellCount(less);
      ColumnCount(last);
      assert Cells(c) == Cells(less) + Cells(last);
      assert Cells(less) * Cells(last) == {};
      assert |Cells(c)| == |Cells(less)| + |Cells(last)|;
      hide Cells;
      OneMore(Width(less.x1, less.x2), Width(c.y1, c.y2));
    } else {
      assert Cells(c) == {};
    }
  }

  lemma OneMore(w: int, h: int)
    ensures w * h + h == (w + 1) * h
  {
  }

  lemma {:induction false} ColumnCount(c: Corners)
    requires c.x2 == c.x1 + 1
    ensures |Cells(c)| == Width(c.y1, c.y2)
    decreases c.y2 - c.y1
  {
    if c.y1 < c.y2 {
      ColumnCount(c.(y2 := c.y2 - 1));
      assert Cells(c) == Cells(c.(y2 := c.y2 - 1)) + {(c.x1, c.y2 - 1)};
    } else {
      assert Cells(c) == {};
    }
  }
}
