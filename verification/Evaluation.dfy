/** The report of tools/evaluate_yolo_detection_accuracy.py: one overall score, one row per class,
    the two means, and the release gates. */
module Evaluation {
  import opened Wrappers
  import opened Geometry
  import opened Rounding
  import opened StableSorting
  import opened GreedyMatching
  import opened ClassDecomposition
  import opened AveragePrecision

  datatype Inputs = Inputs(groundTruth: Truths, predictions: seq<Box>, seenSamples: set<string>)

  /** The release minimums; `None` switches a gate off. */
  datatype Minimums = Minimums(precision: Option<real>, recall: Option<real>, map50: Option<real>,
                               map5095: Option<real>)

  datatype Issue =
    | NoGroundTruth
    | MissingSamples(count: nat)
    | UnknownSamples(count: nat)
    | BelowMinimum(metric: string, actual: Option<real>, minimum: real)

  datatype ClassRow = ClassRow(classId: int, groundTruth: nat, predictions: nat, score: Score,
                               ap50: Option<real>, map5095: Option<real>)

  datatype Summary = Summary(ok: bool, issues: seq<Issue>, overall: Score,
                             map50: Option<real>, map5095: Option<real>, perClass: seq<ClassRow>)

  const MAP_THRESHOLDS: seq<real> := [0.50, 0.55, 0.60, 0.65, 0.70, 0.75, 0.80, 0.85, 0.90, 0.95]

  // ---------- means

  function Sum(values: seq<real>): real {
    if values == [] then 0.0 else Sum(values[..|values| - 1]) + values[|values| - 1]
  }

  function Mean(values: seq<real>): Option<real> {
    if values == [] then None else Some(Round6(Sum(values) / |values| as real))
  }

  /** Both absent, or both present and in this order. */
  predicate AtMost(a: Option<real>, b: Option<real>) {
    a.Some? == b.Some? && (a.Some? ==> a.value <= b.value)
  }

  lemma {:induction false} SumGrows(xs: seq<real>, ys: seq<real>)
    requires |xs| == |ys| && forall k :: 0 <= k < |xs| ==> xs[k] <= ys[k]
    ensures Sum(xs) <= Sum(ys)
  {
    if xs != [] { SumGrows(xs[..|xs| - 1], ys[..|ys| - 1]); }
  }

  lemma MeanGrows(xs: seq<real>, ys: seq<real>)
    requires |xs| == |ys| && forall k :: 0 <= k < |xs| ==> xs[k] <= ys[k]
    ensures AtMost(Mean(xs), Mean(ys))
  {
    if xs != [] {
      SumGrows(xs, ys);
      QuotientsOrdered(Sum(xs), Sum(ys), |xs| as real);
      Round6Monotone(Sum(xs) / |xs| as real, Sum(ys) / |ys| as real);
    }
  }

  lemma QuotientsOrdered(x: real, y: real, n: real)
    requires x <= y && n > 0.0
    ensures x / n <= y / n
  {
  }

  /** A mean of values that do not exceed a rounded bound does not exceed it either. */
  lemma MeanBelow(xs: seq<real>, bound: real)
    requires xs != [] && Round6(bound) == bound && forall i :: 0 <= i < |xs| ==> xs[i] <= bound
    ensures Mean(xs).value <= bound
  {
    SumBelow(xs, bound);
    MeanQuotient(Sum(xs), |xs|, bound);
    Round6Monotone(Sum(xs) / |xs| as real, bound);
  }

  lemma {:induction false} SumBelow(xs: seq<real>, bound: real)
    requires forall i :: 0 <= i < |xs| ==> xs[i] <= bound
    ensures Sum(xs) <= |xs| as real * bound
  {
    if xs != [] {
      SumBelow(xs[..|xs| - 1], bound);
      var n := |xs| as real;
      assert (n - 1.0) * bound + bound == n * bound;
    }
  }

  lemma MeanQuotient(sum: real, n: nat, bound: real)
    requires n > 0 && sum <= n as real * bound
    ensures sum / n as real <= bound
  {
    QuotientsOrdered(sum, n as real * bound, n as real);
  }

  // ---------- one class over all thresholds

  /** The average precisions at the first `n` thresholds, absent ones dropped. */
  function ThresholdAps(predictions: seq<Box>, groundTruth: Truths, c: int, n: nat): seq<real>
    requires n <= |MAP_THRESHOLDS|
  {
    if n == 0 then []
    else
      var rest := ThresholdAps(predictions, groundTruth, c, n - 1);
      match ClassAp(predictions, groundTruth, c, MAP_THRESHOLDS[n - 1])
      case Some(value) => rest + [value]
      case None => rest
  }

  function ClassMap(predictions: seq<Box>, groundTruth: Truths, c: int): Option<real> {
    Mean(ThresholdAps(predictions, groundTruth, c, |MAP_THRESHOLDS|))
  }

  lemma {:induction false} ThresholdApsBelow(predictions: seq<Box>, groundTruth: Truths, c: int, n: nat)
    requires n <= |MAP_THRESHOLDS|
    ensures var ap50 := ClassAp(predictions, groundTruth, c, 0.50);
      var aps := ThresholdAps(predictions, groundTruth, c, n);
      if ap50.Some? then |aps| == n && forall i :: 0 <= i < n ==> aps[i] <= ap50.value else aps == []
  {
    hide ClassAp;
    if n > 0 {
      ThresholdApsBelow(predictions, groundTruth, c, n - 1);
      ApFallsWithThreshold(predictions, groundTruth, c, 0.50, MAP_THRESHOLDS[n - 1]);
    }
  }

  /** For every class, mAP50-95 is at most AP50, rounding included, and both are absent together. */
  lemma ClassMapBelowAp50(predictions: seq<Box>, groundTruth: Truths, c: int)
    ensures AtMost(ClassMap(predictions, groundTruth, c), ClassAp(predictions, groundTruth, c, 0.50))
  {
    hide ClassAp;
    var ap50 := ClassAp(predictions, groundTruth, c, 0.50);
    ThresholdApsBelow(predictions, groundTruth, c, |MAP_THRESHOLDS|);
    if ap50.Some? {
      ApUnit(predictions, groundTruth, c, 0.50);
      MeanBelow(ThresholdAps(predictions, groundTruth, c, |MAP_THRESHOLDS|), ap50.value);
    }
  }

  method ScoreThresholds(predictions: seq<Box>, groundTruth: Truths, c: int) returns (map5095: Option<real>)
    ensures map5095 == ClassMap(predictions, groundTruth, c)
  {
    hide ClassAp;
    var values: seq<real> := [];
    for k := 0 to |MAP_THRESHOLDS|
      invariant values == ThresholdAps(predictions, groundTruth, c, k)
    {
      var ap := AveragePrecisionOf(predictions, groundTruth, c, MAP_THRESHOLDS[k]);
      if ap.Some? { values := values + [ap.value]; }
    }
    map5095 := Mean(values);
  }

  // ---------- the class list

  ghost predicate Increasing(ids: seq<int>) {
    forall i, j :: 0 <= i < j < |ids| ==> ids[i] < ids[j]
  }

  ghost predicate HasClass(groundTruth: Truths, predictions: seq<Box>, c: int) {
    || (exists s, b :: s in groundTruth && b in groundTruth[s] && b.classId == c)
    || (exists p :: p in predictions && p.classId == c)
  }

  lemma {:induction false} Minimum(s: set<int>, a: int) returns (m: int)
    requires a in s
    ensures m in s && forall x :: x in s ==> m <= x
  {
    m := a;
    var rest := s - {a};
    assert forall x :: x in s ==> x == a || x in rest;
    if b :| b in rest {
      var least := Minimum(rest, b);
      m := if a < least then a else least;
    }
  }

  method CollectClassIds(groundTruth: Truths, predictions: seq<Box>) returns (ids: seq<int>)
    ensures Increasing(ids)
    ensures forall c :: c in ids <==> HasClass(groundTruth, predictions, c)
  {
    var all := (set s, b | s in groundTruth.Keys && b in groundTruth[s] :: b.classId)
             + (set p | p in predictions :: p.classId);
    assert forall c :: c in all <==> HasClass(groundTruth, predictions, c);
    var left := all;
    ids := [];
    while left != {}
      invariant Increasing(ids) && left <= all
      invariant forall i, x :: 0 <= i < |ids| && x in left ==> ids[i] < x
      invariant forall c :: c in all <==> c in left || c in ids
      decreases left
    {
      ghost var some :| some in left;
      ghost var least := Minimum(left, some);
      var m :| m in left && forall x :: x in left ==> m <= x;
      left := left - {m};
      ids := ids + [m];
    }
  }

  // ---------- the gates

  /** `minimum is None`, or there is a value and it is large enough. */
  predicate Passes(actual: Option<real>, minimum: Option<real>) {
    minimum.None? || (actual.Some? && actual.value >= minimum.value)
  }

  method AppendMinimumIssue(issues: seq<Issue>, metric: string, actual: Option<real>, minimum: Option<real>)
    returns (r: seq<Issue>)
    ensures r == issues + if Passes(actual, minimum) then [] else [BelowMinimum(metric, actual, minimum.value)]
  {
    r := issues;
    if minimum.None? {
      return;
    }
    if actual.None? || actual.value < minimum.value {
      r := r + [BelowMinimum(metric, actual, minimum.value)];
    }
  }

  method CollectIssues(requireComplete: bool, missing: set<string>, unknown: set<string>, groundTruthBoxes: nat,
                       metrics: Score, map50: Option<real>, map5095: Option<real>, minimums: Minimums)
    returns (issues: seq<Issue>)
    ensures issues == [] <==>
      && groundTruthBoxes > 0
      && (requireComplete ==> missing == {} && unknown == {})
      && Passes(Some(metrics.precision), minimums.precision)
      && Passes(Some(metrics.recall), minimums.recall)
      && Passes(map50, minimums.map50)
      && Passes(map5095, minimums.map5095)
  {
    issues := [];
    if groundTruthBoxes <= 0 { issues := issues + [NoGroundTruth]; }
    if requireComplete && missing != {} { issues := issues + [MissingSamples(|missing|)]; }
    if requireComplete && unknown != {} { issues := issues + [UnknownSamples(|unknown|)]; }
    issues := AppendMinimumIssue(issues, "precision", Some(metrics.precision), minimums.precision);
    issues := AppendMinimumIssue(issues, "recall", Some(metrics.recall), minimums.recall);
    issues := AppendMinimumIssue(issues, "mAP@0.50", map50, minimums.map50);
    issues := AppendMinimumIssue(issues, "mAP50-95", map5095, minimums.map5095);
  }

  // ---------- the report

  datatype Counts = Counts(tp: int, fp: int, fn: int)

  function CountsOf(score: Score): Counts { Counts(score.tp, score.fp, score.fn) }

  function SumCounts(rows: seq<ClassRow>): Counts {
    if rows == [] then Counts(0, 0, 0)
    else
      var rest, last := SumCounts(rows[..|rows| - 1]), rows[|rows| - 1].score;
      Counts(rest.tp + last.tp, rest.fp + last.fp, rest.fn + last.fn)
  }

  function AllOrder(predictions: seq<Box>): seq<Box> { Sorted(predictions, None) }

  /** The row's score is that of its class's own run inside the whole run. */
  lemma RowRun(predictions: seq<Box>, groundTruth: Truths, c: int, threshold: real)
    ensures Run(FilterTruths(groundTruth, Some(c)), threshold, Sorted(predictions, Some(c)))
         == ClassRun(groundTruth, threshold, AllOrder(predictions), c)
  {
    ByConfidenceOrders();
    FilterAll(predictions, KeepClass(None));
    FilterSortCommute(predictions, KeepClass(Some(c)), ByConfidence);
  }

  lemma WholeTruths(groundTruth: Truths)
    ensures FilterTruths(groundTruth, None) == groundTruth
  {
    forall s | s in groundTruth ensures Filter(groundTruth[s], KeepClass(None)) == groundTruth[s] {
      FilterAll(groundTruth[s], KeepClass(None));
    }
  }

  lemma AllOrderMembers(predictions: seq<Box>)
    ensures forall p :: p in AllOrder(predictions) <==> p in predictions
  {
    ByConfidenceOrders();
    FilterAll(predictions, KeepClass(None));
    StableSortSorts(predictions, StableSort(predictions, ByConfidence), ByConfidence);
    forall p ensures p in AllOrder(predictions) <==> p in predictions {
      StableSortMembers(predictions, AllOrder(predictions), ByConfidence, p);
    }
  }

  /** The overall counts are the sums of the rows. */
  lemma OverallIsSum(predictions: seq<Box>, groundTruth: Truths, threshold: real, classes: seq<int>)
    requires Increasing(classes) && forall c :: HasClass(groundTruth, predictions, c) ==> c in classes
    ensures var st := Run(FilterTruths(groundTruth, None), threshold, AllOrder(predictions));
      var sums := SumTotals(groundTruth, threshold, AllOrder(predictions), classes);
      && (st.tp, st.fp, st.iouSum) == (sums.tp, sums.fp, sums.iouSum)
      && |Free(FilterTruths(groundTruth, None), st.taken)|
        == SumFn(groundTruth, threshold, AllOrder(predictions), classes)
  {
    WholeTruths(groundTruth);
    AllOrderMembers(predictions);
    forall p | p in AllOrder(predictions) ensures p.classId in classes {
      assert HasClass(groundTruth, predictions, p.classId);
    }
    forall slot | slot in Slots(groundTruth) ensures groundTruth[slot.0][slot.1].classId in classes {
      assert HasClass(groundTruth, predictions, groundTruth[slot.0][slot.1].classId);
    }
    WholeRunIsSum(groundTruth, threshold, AllOrder(predictions), classes);
    WholeFnIsSum(groundTruth, threshold, AllOrder(predictions), classes);
  }

  /** The score of one run: its counts, and the four ratios made of them. */
  ghost function ScoreFor(groundTruth: Truths, predictions: seq<Box>, classId: Option<int>, threshold: real): Score {
    var truths := FilterTruths(groundTruth, classId);
    var st := Run(truths, threshold, Sorted(predictions, classId));
    ScoreOf(st.tp, st.fp, |Free(truths, st.taken)|, st.iouSum)
  }

  /** A row of the report; `predictions` are those of enough confidence. */
  ghost predicate IsRow(inputs: Inputs, predictions: seq<Box>, matchIou: real, row: ClassRow) {
    && row.score == ScoreFor(inputs.groundTruth, predictions, Some(row.classId), matchIou)
    && row.ap50 == ClassAp(inputs.predictions, inputs.groundTruth, row.classId, 0.50)
    && row.map5095 == ClassMap(inputs.predictions, inputs.groundTruth, row.classId)
    && AtMost(row.map5095, row.ap50)
    && row.score.tp + row.score.fn == row.groundTruth
    && row.score.tp + row.score.fp == row.predictions
  }

  /** The average precisions at 0.50 of the rows that have one. */
  function RowAps(rows: seq<ClassRow>): seq<real> {
    if rows == [] then []
    else
      var last := rows[|rows| - 1].ap50;
      RowAps(rows[..|rows| - 1]) + if last.Some? then [last.value] else []
  }

  /** The means over the thresholds of the rows that have one. */
  function RowMaps(rows: seq<ClassRow>): seq<real> {
    if rows == [] then []
    else
      var last := rows[|rows| - 1].map5095;
      RowMaps(rows[..|rows| - 1]) + if last.Some? then [last.value] else []
  }

  method ScoreClass(inputs: Inputs, predictions: seq<Box>, c: int, matchIou: real) returns (row: ClassRow)
    ensures row.classId == c && IsRow(inputs, predictions, matchIou, row)
    ensures var st := ClassRun(inputs.groundTruth, matchIou, AllOrder(predictions), c);
      CountsOf(row.score) == Counts(st.tp, st.fp, |Free(FilterTruths(inputs.groundTruth, Some(c)), st.taken)|)
  {
    hide ClassAp, FilterTruths, ScoreOf;
    var score := ScoreAtThreshold(predictions, inputs.groundTruth, Some(c), matchIou);
    RowRun(predictions, inputs.groundTruth, c, matchIou);
    ByConfidenceOrders();
    StableSortLength(Filter(predictions, KeepClass(Some(c))), ByConfidence);
    var ap50 := AveragePrecisionOf(inputs.predictions, inputs.groundTruth, c, 0.50);
    var map5095 := ScoreThresholds(inputs.predictions, inputs.groundTruth, c);
    ClassMapBelowAp50(inputs.predictions, inputs.groundTruth, c);
    row := ClassRow(c, |Slots(FilterTruths(inputs.groundTruth, Some(c)))|,
                    |Filter(predictions, KeepClass(Some(c)))|, score, ap50, map5095);
  }

  /** The loop over the classes: their rows, and the two lists the means are taken of. */
  method ScoreClasses(inputs: Inputs, predictions: seq<Box>, classes: seq<int>, matchIou: real)
    returns (rows: seq<ClassRow>, map50: Option<real>, map5095: Option<real>)
    ensures |rows| == |classes| && forall i :: 0 <= i < |rows| ==>
      rows[i].classId == classes[i] && IsRow(inputs, predictions, matchIou, rows[i])
    ensures map50 == Mean(RowAps(rows)) && map5095 == Mean(RowMaps(rows))
    ensures AtMost(map5095, map50)
    ensures var sums := SumTotals(inputs.groundTruth, matchIou, AllOrder(predictions), classes);
      SumCounts(rows) == Counts(sums.tp, sums.fp, SumFn(inputs.groundTruth, matchIou, AllOrder(predictions), classes))
  {
    hide IsRow, FilterTruths, ClassRun, AllOrder;
    var ap50s: seq<real>, maps: seq<real> := [], [];
    rows := [];
    ghost var order := AllOrder(predictions);
    for k := 0 to |classes|
      invariant |rows| == k && forall i :: 0 <= i < k ==>
        rows[i].classId == classes[i] && IsRow(inputs, predictions, matchIou, rows[i])
      invariant ap50s == RowAps(rows) && maps == RowMaps(rows)
      invariant |maps| == |ap50s| && forall i :: 0 <= i < |maps| ==> maps[i] <= ap50s[i]
      invariant var sums := SumTotals(inputs.groundTruth, matchIou, order, classes[..k]);
        SumCounts(rows) == Counts(sums.tp, sums.fp, SumFn(inputs.groundTruth, matchIou, order, classes[..k]))
    {
      var row := ScoreClass(inputs, predictions, classes[k], matchIou);
      assert classes[..k + 1][..k] == classes[..k];
      RowOrder(inputs, predictions, matchIou, row);
      if row.ap50.Some? { ap50s := ap50s + [row.ap50.value]; }
      if row.map5095.Some? { maps := maps + [row.map5095.value]; }
      assert (rows + [row])[..k] == rows;
      rows := rows + [row];
    }
    assert classes[..|classes|] == classes;
    MeanGrows(maps, ap50s);
    map50, map5095 := Mean(ap50s), Mean(maps);
  }

  lemma RowOrder(inputs: Inputs, predictions: seq<Box>, matchIou: real, row: ClassRow)
    requires IsRow(inputs, predictions, matchIou, row)
    ensures AtMost(row.map5095, row.ap50)
  {
  }

  method EvaluateInputs(inputs: Inputs, minimumConfidence: real, matchIou: real, requireComplete: bool,
                        minimums: Minimums)
    returns (summary: Summary)
    ensures var predictions := Filter(inputs.predictions, KeepConfident(minimumConfidence));
      && summary.overall == ScoreFor(inputs.groundTruth, predictions, None, matchIou)
      && forall row <- summary.perClass :: IsRow(inputs, predictions, matchIou, row)
    ensures CountsOf(summary.overall) == SumCounts(summary.perClass)
    ensures Increasing(seq(|summary.perClass|, i requires 0 <= i < |summary.perClass| => summary.perClass[i].classId))
    ensures forall c :: HasClass(inputs.groundTruth, inputs.predictions, c)
                        <==> exists row <- summary.perClass :: row.classId == c
    ensures summary.map50 == Mean(RowAps(summary.perClass)) && summary.map5095 == Mean(RowMaps(summary.perClass))
    ensures AtMost(summary.map5095, summary.map50)
    ensures summary.ok <==>
      && Slots(inputs.groundTruth) != {}
      && (requireComplete ==> inputs.groundTruth.Keys == inputs.seenSamples)
      && Passes(summary.map50, minimums.map50) && Passes(summary.map5095, minimums.map5095)
      && Passes(Some(summary.overall.precision), minimums.precision)
      && Passes(Some(summary.overall.recall), minimums.recall)
  {
    hide FilterTruths, ScoreOf, IsRow, SumCounts, Sorted, Passes, Mean;
    var groundTruth := inputs.groundTruth;
    var missing := groundTruth.Keys - inputs.seenSamples;
    var unknown := inputs.seenSamples - groundTruth.Keys;
    var predictions := Filter(inputs.predictions, KeepConfident(minimumConfidence));
    var classes := CollectClassIds(groundTruth, inputs.predictions);
    var overall := ScoreAtThreshold(predictions, groundTruth, None, matchIou);
    var rows, map50, map5095 := ScoreClasses(inputs, predictions, classes, matchIou);
    FewerClasses(groundTruth, inputs.predictions, minimumConfidence);
    OverallIsSum(predictions, groundTruth, matchIou, classes);
    forall c | c in classes ensures exists row <- rows :: row.classId == c {
      var i :| 0 <= i < |classes| && classes[i] == c;
      assert rows[i] in rows;
    }
    var issues :=
      CollectIssues(requireComplete, missing, unknown, |Slots(groundTruth)|, overall, map50, map5095, minimums);
    summary := Summary(issues == [], issues, overall, map50, map5095, rows);
  }

  lemma FewerClasses(groundTruth: Truths, predictions: seq<Box>, minimum: real)
    ensures forall c :: HasClass(groundTruth, Filter(predictions, KeepConfident(minimum)), c) ==>
      HasClass(groundTruth, predictions, c)
  {
    FilterMembers(predictions, KeepConfident(minimum));
  }
}
