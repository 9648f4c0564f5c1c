/** The precision/recall sweep and its 101-point interpolated average,
    tools/evaluate_yolo_detection_accuracy.py. */
module AveragePrecision {
  import opened Wrappers
  import opened Geometry
  import opened Rounding
  import opened StableSorting
  import opened GreedyMatching
  import opened MatchingBounds

  datatype Point = Point(recall: real, precision: real)

  function Fraction(part: nat, whole: nat): real
    requires whole > 0
  {
    part as real / whole as real
  }

  function PointOf(st: State, groundTruthCount: nat): Point
    requires groundTruthCount > 0 && st.tp + st.fp > 0
  {
    Point(Fraction(st.tp, groundTruthCount), Fraction(st.tp, st.tp + st.fp))
  }

  /** One point after each prediction. */
  function Points(truths: Truths, threshold: real, ps: seq<Box>): (points: seq<Point>)
    requires |Slots(truths)| > 0
    ensures |points| == |ps|
  {
    if ps == [] then []
    else
      Counting(truths, threshold, ps);
      Points(truths, threshold, ps[..|ps| - 1]) + [PointOf(Run(truths, threshold, ps), |Slots(truths)|)]
  }

  /** The largest precision at recall `level` or more, 0 when no point reaches it. */
  function PrecisionAt(points: seq<Point>, level: real): real {
    if points == [] then 0.0
    else
      var before, last := PrecisionAt(points[..|points| - 1], level), points[|points| - 1];
      if last.recall >= level && last.precision > before then last.precision else before
  }

  ghost predicate Reaches(p: Point, level: real) {
    p.recall >= level
  }

  lemma {:induction false} PrecisionAtIsMaximum(points: seq<Point>, level: real)
    ensures PrecisionAt(points, level) >= 0.0
    ensures forall p | p in points && Reaches(p, level) :: p.precision <= PrecisionAt(points, level)
    ensures PrecisionAt(points, level) == 0.0
         || exists p :: p in points && Reaches(p, level) && p.precision == PrecisionAt(points, level)
  {
    if points != [] {
      PrecisionAtIsMaximum(points[..|points| - 1], level);
      assert points == points[..|points| - 1] + [points[|points| - 1]];
    }
  }

  /** The sum over the first `n` recall levels 0, 1/100, 2/100, ... */
  function LevelSum(points: seq<Point>, n: nat): real {
    if n == 0 then 0.0 else LevelSum(points, n - 1) + PrecisionAt(points, (n - 1) as real / 100.0)
  }

  function ApOf(points: seq<Point>): real {
    Round6(LevelSum(points, 101) / 101.0)
  }

  function ClassAp(predictions: seq<Box>, groundTruth: Truths, c: int, threshold: real): Option<real> {
    var truths := FilterTruths(groundTruth, Some(c));
    if |Slots(truths)| == 0 then None
    else Some(ApOf(Points(truths, threshold, Sorted(predictions, Some(c)))))
  }

  // ---------- the tool

  /** The inner loop of the sweep, which relies on both sides holding one class. */
  method FindBestOfClass(p: Box, boxes: seq<Box>, taken: seq<bool>) returns (best: Option<nat>, bestIou: real)
    requires |taken| == |boxes| && forall b <- boxes :: b.classId == p.classId
    ensures best == Best(p, boxes, taken)
    ensures bestIou == OverlapAt(p, boxes, best)
  {
    best, bestIou := None, 0.0;
    for index := 0 to |boxes|
      invariant best == Best(p, boxes[..index], taken[..index])
      invariant bestIou == OverlapAt(p, boxes[..index], best)
    {
      assert boxes[..index + 1][..index] == boxes[..index] && taken[..index + 1][..index] == taken[..index];
      assert boxes[index] in boxes;
      if taken[index] {
        continue;
      }
      var iou := IntersectionOverUnion(p, boxes[index]);
      if iou > bestIou {
        best, bestIou := Some(index), iou;
      }
    }
    assert boxes[..|boxes|] == boxes && taken[..|boxes|] == taken;
  }

  /** One turn of the sweep over the sorted predictions. */
  method SettleOfClass(truths: Truths, threshold: real, st: State, p: Box) returns (next: State)
    requires Fits(truths, st.taken)
    requires forall s | s in truths :: forall b <- truths[s] :: b.classId == p.classId
    ensures next == Step(truths, threshold, st, p)
  {
    hide IntersectionOverUnion, Best;
    var best, bestIou := FindBestOfClass(p, At(truths, p.sampleId), At(st.taken, p.sampleId));
    next := st;
    if best.Some? && bestIou >= threshold {
      next := next.(taken := next.taken[p.sampleId := next.taken[p.sampleId][best.value := true]]);
      next := next.(tp := next.tp + 1, iouSum := next.iouSum + bestIou);
    } else {
      next := next.(fp := next.fp + 1);
    }
  }

  method Sweep(truths: Truths, threshold: real, sorted: seq<Box>, c: int) returns (points: seq<Point>)
    requires |Slots(truths)| > 0
    requires forall s | s in truths :: forall b <- truths[s] :: b.classId == c
    requires forall p <- sorted :: p.classId == c
    ensures points == Points(truths, threshold, sorted)
  {
    hide Fraction, Step;
    var groundTruthCount := |Slots(truths)|;
    var st := State(NoneTaken(truths), 0, 0, 0.0);
    points := [];
    for k := 0 to |sorted|
      invariant st == Run(truths, threshold, sorted[..k])
      invariant points == Points(truths, threshold, sorted[..k])
    {
      RunSnoc(truths, threshold, sorted, k);
      st := SettleOfClass(truths, threshold, st, sorted[k]);
      PointsSnoc(truths, threshold, sorted, k, st);
      points := points + [Point(Fraction(st.tp, groundTruthCount), Fraction(st.tp, st.tp + st.fp))];
    }
    assert sorted[..|sorted|] == sorted;
  }

  method BestPrecision(points: seq<Point>, level: real) returns (best: real)
    ensures best == PrecisionAt(points, level)
  {
    best := 0.0;
    for k := 0 to |points|
      invariant best == PrecisionAt(points[..k], level)
    {
      assert points[..k + 1][..k] == points[..k];
      if points[k].recall >= level && points[k].precision > best {
        best := points[k].precision;
      }
    }
    assert points[..|points|] == points;
  }

  method InterpolatedMean(points: seq<Point>) returns (ap: real)
    ensures ap == ApOf(points)
  {
    var total := 0.0;
    for level := 0 to 101
      invariant total == LevelSum(points, level)
    {
      var best := BestPrecision(points, level as real / 100.0);
      total := total + best;
    }
    ap := Round6(total / 101.0);
  }

  method AveragePrecisionOf(predictions: seq<Box>, groundTruth: Truths, c: int, threshold: real)
    returns (ap: Option<real>)
    ensures ap == ClassAp(predictions, groundTruth, c, threshold)
  {
    var truths := FilterTruths(groundTruth, Some(c));
    if |Slots(truths)| == 0 {
      return None;
    }
    var sorted := Sorted(predictions, Some(c));
    SortedOfClass(predictions, c);
    forall s | s in truths ensures forall b: Box :: b in truths[s] ==> b.classId == c {
      FilterMembers(groundTruth[s], KeepClass(Some(c)));
    }
    var points := Sweep(truths, threshold, sorted, c);
    var value := InterpolatedMean(points);
    ap := Some(value);
  }

  lemma SortedOfClass(predictions: seq<Box>, c: int)
    ensures forall p <- Sorted(predictions, Some(c)) :: p.classId == c
  {
    ByConfidenceOrders();
    var kept := Filter(predictions, KeepClass(Some(c)));
    StableSortSorts(kept, StableSort(kept, ByConfidence), ByConfidence);
    FilterMembers(predictions, KeepClass(Some(c)));
    forall p | p in Sorted(predictions, Some(c)) ensures p.classId == c {
      StableSortMembers(kept, Sorted(predictions, Some(c)), ByConfidence, p);
      assert KeepClass(Some(c))(p);
    }
  }

  lemma ByConfidenceOrders()
    ensures TotalPreorder(ByConfidence)
  {
  }

  lemma PointsSnoc(truths: Truths, threshold: real, ps: seq<Box>, k: nat, st: State)
    requires |Slots(truths)| > 0 && k < |ps| && st == Run(truths, threshold, ps[..k + 1])
    ensures st.tp + st.fp == k + 1
    ensures Points(truths, threshold, ps[..k + 1])
         == Points(truths, threshold, ps[..k]) + [PointOf(st, |Slots(truths)|)]
  {
    assert ps[..k + 1][..k] == ps[..k];
    Counting(truths, threshold, ps[..k + 1]);
  }

  // ---------- how the average moves with the threshold

  ghost predicate Dominates(a: seq<Point>, b: seq<Point>) {
    |a| == |b| && forall k :: 0 <= k < |a| ==> a[k].recall >= b[k].recall && a[k].precision >= b[k].precision
  }

  lemma {:induction false} PrecisionDominates(a: seq<Point>, b: seq<Point>, level: real)
    requires Dominates(a, b)
    ensures PrecisionAt(a, level) >= PrecisionAt(b, level)
  {
    if a != [] {
      PrecisionDominates(a[..|a| - 1], b[..|b| - 1], level);
      PrecisionAtIsMaximum(a, level);
      assert a[|a| - 1] in a && b[|b| - 1].recall >= level ==> Reaches(a[|a| - 1], level);
    }
  }

  lemma {:induction false} LevelSumDominates(a: seq<Point>, b: seq<Point>, n: nat)
    requires Dominates(a, b)
    ensures LevelSum(a, n) >= LevelSum(b, n)
  {
    if n > 0 {
      PrecisionDominates(a, b, (n - 1) as real / 100.0);
      LevelSumDominates(a, b, n - 1);
    }
  }

  lemma FractionGrows(a: nat, b: nat, n: nat)
    requires a <= b && n > 0
    ensures Fraction(a, n) <= Fraction(b, n)
  {
  }

  lemma {:induction false} LowerThresholdDominates(truths: Truths, low: real, high: real, ps: seq<Box>)
    requires low <= high && |Slots(truths)| > 0
    ensures Dominates(Points(truths, low, ps), Points(truths, high, ps))
  {
    hide Fraction, Run;
    if ps != [] {
      LowerThresholdDominates(truths, low, high, ps[..|ps| - 1]);
      LastPointDominates(truths, low, high, ps);
    }
  }

  lemma LastPointDominates(truths: Truths, low: real, high: real, ps: seq<Box>)
    requires low <= high && |Slots(truths)| > 0 && ps != []
    ensures var l, h := Run(truths, low, ps), Run(truths, high, ps);
      && l.tp + l.fp == h.tp + h.fp == |ps|
      && PointOf(l, |Slots(truths)|).recall >= PointOf(h, |Slots(truths)|).recall
      && PointOf(l, |Slots(truths)|).precision >= PointOf(h, |Slots(truths)|).precision
  {
    hide Fraction, Run;
    LowerThresholdTakesMore(truths, low, high, ps);
    Counting(truths, low, ps);
    Counting(truths, high, ps);
    var l, h := Run(truths, low, ps), Run(truths, high, ps);
    FractionGrows(h.tp, l.tp, |Slots(truths)|);
    FractionGrows(h.tp, l.tp, |ps|);
  }

  /** Average precision never rises when the overlap threshold rises, rounding included. */
  lemma ApFallsWithThreshold(predictions: seq<Box>, groundTruth: Truths, c: int, low: real, high: real)
    requires low <= high
    ensures var a, b := ClassAp(predictions, groundTruth, c, low), ClassAp(predictions, groundTruth, c, high);
      a.Some? == b.Some? && (a.Some? ==> b.value <= a.value)
  {
    var truths, ps := FilterTruths(groundTruth, Some(c)), Sorted(predictions, Some(c));
    if |Slots(truths)| > 0 {
      var a, b := Points(truths, low, ps), Points(truths, high, ps);
      LowerThresholdDominates(truths, low, high, ps);
      ApDominates(a, b);
    }
  }

  lemma ApDominates(a: seq<Point>, b: seq<Point>)
    requires Dominates(a, b)
    ensures ApOf(b) <= ApOf(a)
  {
    LevelSumDominates(a, b, 101);
    MeansOrdered(a, b, LevelSum(b, 101), LevelSum(a, 101));
  }

  lemma MeansOrdered(a: seq<Point>, b: seq<Point>, x: real, y: real)
    requires x == LevelSum(b, 101) && y == LevelSum(a, 101) && x <= y
    ensures ApOf(b) <= ApOf(a)
  {
    Round6Monotone(x / 101.0, y / 101.0);
  }

  /** Average precision lies between 0 and 1. */
  lemma ApUnit(predictions: seq<Box>, groundTruth: Truths, c: int, threshold: real)
    ensures var ap := ClassAp(predictions, groundTruth, c, threshold);
      ap.Some? ==> 0.0 <= ap.value <= 1.0 && Round6(ap.value) == ap.value
  {
    var truths, ps := FilterTruths(groundTruth, Some(c)), Sorted(predictions, Some(c));
    if |Slots(truths)| > 0 {
      var points := Points(truths, threshold, ps);
      PointsUnit(truths, threshold, ps);
      LevelSumBound(points, 101);
      Round6Unit(LevelSum(points, 101) / 101.0);
      Round6Idempotent(LevelSum(points, 101) / 101.0);
    }
  }

  lemma {:induction false} PointsUnit(truths: Truths, threshold: real, ps: seq<Box>)
    requires |Slots(truths)| > 0
    ensures forall p <- Points(truths, threshold, ps) :: 0.0 <= p.precision <= 1.0 && 0.0 <= p.recall <= 1.0
  {
    hide Fraction;
    if ps != [] {
      PointsUnit(truths, threshold, ps[..|ps| - 1]);
      Counting(truths, threshold, ps);
      FreePlusTaken(truths, Run(truths, threshold, ps).taken);
      FractionUnit(Run(truths, threshold, ps).tp, |ps|);
      FractionUnit(Run(truths, threshold, ps).tp, |Slots(truths)|);
    }
  }

  lemma FractionUnit(a: nat, n: nat)
    requires a <= n && n > 0
    ensures 0.0 <= Fraction(a, n) <= 1.0
  {
  }

  lemma {:induction false} LevelSumBound(points: seq<Point>, n: nat)
    requires forall p <- points :: 0.0 <= p.precision <= 1.0
    ensures 0.0 <= LevelSum(points, n) <= n as real
  {
    if n > 0 {
      LevelSumBound(points, n - 1);
      PrecisionAtIsMaximum(points, (n - 1) as real / 100.0);
    }
  }

  // ---------- the confidence cut is a point of the sweep

  function KeepConfident(minimum: real): (keep: Box -> bool)
    ensures forall box :: keep(box) <==> minimum <= box.confidence
  {
    (box: Box) => box.confidence >= minimum
  }

  /** Dropping the predictions below a confidence keeps a prefix of the sorted sweep. */
  lemma ConfidenceCutIsPrefix(predictions: seq<Box>, classId: Option<int>, minimum: real)
    ensures Sorted(Filter(predictions, KeepConfident(minimum)), classId) <= Sorted(predictions, classId)
  {
    ByConfidenceOrders();
    var own := Filter(predictions, KeepClass(classId));
    FilterFilter(predictions, KeepConfident(minimum), KeepClass(classId));
    FilterSortCommute(own, KeepConfident(minimum), ByConfidence);
    StableSortSorts(own, StableSort(own, ByConfidence), ByConfidence);
    var sorted := StableSort(own, ByConfidence);
    forall i, j | 0 <= i < j < |sorted| && KeepConfident(minimum)(sorted[j])
      ensures KeepConfident(minimum)(sorted[i])
    {
      assert ByConfidence(sorted[i], sorted[j]);
    }
    FilterPrefix(sorted, KeepConfident(minimum));
  }

  lemma {:induction false} PointsAt(truths: Truths, threshold: real, ps: seq<Box>, k: nat)
    requires |Slots(truths)| > 0 && k < |ps|
    ensures var st := Run(truths, threshold, ps[..k + 1]);
      && st.tp + st.fp == k + 1
      && Points(truths, threshold, ps)[k] == PointOf(st, |Slots(truths)|)
  {
    if k == |ps| - 1 {
      assert ps[..k + 1] == ps;
      Counting(truths, threshold, ps);
    } else {
      assert ps[..|ps| - 1][..k + 1] == ps[..k + 1];
      PointsAt(truths, threshold, ps[..|ps| - 1], k);
    }
  }

  /** The score at a minimum confidence is the sweep's point after the predictions it keeps. */
  lemma ScoreIsSweepPoint(predictions: seq<Box>, groundTruth: Truths, c: int, minimum: real, threshold: real)
    requires |Slots(FilterTruths(groundTruth, Some(c)))| > 0
    ensures var truths := FilterTruths(groundTruth, Some(c));
      var kept := Sorted(Filter(predictions, KeepConfident(minimum)), Some(c));
      var st := Run(truths, threshold, kept);
      var score := ScoreOf(st.tp, st.fp, |Free(truths, st.taken)|, st.iouSum);
      var points := Points(truths, threshold, Sorted(predictions, Some(c)));
      && |kept| <= |points|
      && score.recall == (if kept == [] then 0.0 else Round6(points[|kept| - 1].recall))
      && score.precision == (if kept == [] then 0.0 else Round6(points[|kept| - 1].precision))
  {
    ConfidenceCutIsPrefix(predictions, Some(c), minimum);
    PrefixScore(FilterTruths(groundTruth, Some(c)), threshold, Sorted(predictions, Some(c)),
                Sorted(Filter(predictions, KeepConfident(minimum)), Some(c)));
  }

  lemma PrefixScore(truths: Truths, threshold: real, all: seq<Box>, kept: seq<Box>)
    requires |Slots(truths)| > 0 && kept <= all
    ensures var st := Run(truths, threshold, kept);
      var score := ScoreOf(st.tp, st.fp, |Free(truths, st.taken)|, st.iouSum);
      var points := Points(truths, threshold, all);
      && score.recall == (if kept == [] then 0.0 else Round6(points[|kept| - 1].recall))
      && score.precision == (if kept == [] then 0.0 else Round6(points[|kept| - 1].precision))
  {
    hide Fraction, ScoreOf, Round6, Run, Points, Free, Slots, Taken, PrecisionAt;
    var st := Run(truths, threshold, kept);
    Counting(truths, threshold, kept);
    FreePlusTaken(truths, st.taken);
    var free := |Free(truths, st.taken)|;
    ScoreRatios(st.tp, st.fp, free, st.iouSum, |Slots(truths)|);
    if kept != [] {
      assert all[..|kept|] == kept;
      PointAfter(truths, threshold, all, |kept|);
    }
  }

  lemma PointAfter(truths: Truths, threshold: real, all: seq<Box>, n: nat)
    requires |Slots(truths)| > 0 && 0 < n <= |all|
    ensures var st, point := Run(truths, threshold, all[..n]), Points(truths, threshold, all)[n - 1];
      && st.tp + st.fp == n
      && point.recall == Fraction(st.tp, |Slots(truths)|)
      && point.precision == Fraction(st.tp, st.tp + st.fp)
  {
    hide Fraction, ScoreOf, Run, Points, Free, Slots, Taken, PrecisionAt;
    PointsAt(truths, threshold, all, n - 1);
  }

  lemma ScoreRatios(tp: nat, fp: nat, fn: nat, iouSum: real, count: nat)
    requires tp + fn == count > 0
    ensures var score := ScoreOf(tp, fp, fn, iouSum);
      && score.recall == Round6(Fraction(tp, count))
      && score.precision == (if tp + fp == 0 then 0.0 else Round6(Fraction(tp, tp + fp)))
      && (tp == 0 ==> score.recall == 0.0)
  {
    RoundZero();
  }

  lemma RoundZero()
    ensures Round6(0.0) == 0.0
  {
  }
}
