/**
  The accuracy measures said outright: which truth every prediction takes, what the four ratios are
  fractions of, and which heights the interpolated average adds up.
 */
module Measures {
  import opened Wrappers
  import opened Geometry
  import opened Rounding
  import opened GreedyMatching
  import opened AveragePrecision
  import opened StableSorting
  import opened Picking
  import Evaluation

  function Total(xs: seq<real>): real {
    if xs == [] then 0.0 else xs[0] + Total(xs[1..])
  }

  lemma {:induction false} TotalSnoc(xs: seq<real>, last: real)
    ensures Total(xs + [last]) == Total(xs) + last
  {
    if xs == [] {
      assert Total([last]) == last + Total([last][1..]);
    } else {
      assert (xs + [last])[1..] == xs[1..] + [last];
      TotalSnoc(xs[1..], last);
    }
  }

  // ---------- who takes what

  /** Truth `i` of the prediction's picture is of its class, overlaps it, and no earlier prediction took it. */
  ghost predicate Open(truths: Truths, ps: seq<Box>, claims: seq<Option<int>>, k: int, i: int)
    requires 0 <= k < |ps| && |claims| == |ps|
  {
    && ps[k].sampleId in truths && 0 <= i < |truths[ps[k].sampleId]|
    && truths[ps[k].sampleId][i].classId == ps[k].classId
    && Overlap(truths, ps, k, i) > 0.0
    && forall m | 0 <= m < k && ps[m].sampleId == ps[k].sampleId :: claims[m] != Some(i)
  }

  function Overlap(truths: Truths, ps: seq<Box>, k: int, i: int): real
    requires 0 <= k < |ps| && ps[k].sampleId in truths && 0 <= i < |truths[ps[k].sampleId]|
  {
    IntersectionOverUnion(ps[k], truths[ps[k].sampleId][i])
  }

  /** A prediction takes the first of the open truths it overlaps most, if that reaches the threshold. */
  ghost predicate TakesRight(truths: Truths, threshold: real, ps: seq<Box>, claims: seq<Option<int>>, k: int)
    requires 0 <= k < |ps| && |claims| == |ps|
  {
    match claims[k]
    case None => forall i | Open(truths, ps, claims, k, i) :: Overlap(truths, ps, k, i) < threshold
    case Some(i) =>
      && Open(truths, ps, claims, k, i) && Overlap(truths, ps, k, i) >= threshold
      && forall j | Open(truths, ps, claims, k, j) ::
           Overlap(truths, ps, k, j) < Overlap(truths, ps, k, i)
           || (Overlap(truths, ps, k, j) == Overlap(truths, ps, k, i) && i <= j)
  }

  ghost predicate Greedy(truths: Truths, threshold: real, ps: seq<Box>, claims: seq<Option<int>>) {
    |claims| == |ps| && forall k | 0 <= k < |ps| :: TakesRight(truths, threshold, ps, claims, k)
  }

  /** The overlaps of the predictions that took a truth, 0 for the others. */
  ghost function Overlaps(truths: Truths, ps: seq<Box>, claims: seq<Option<int>>): seq<real>
    requires |claims| == |ps|
    requires forall k | 0 <= k < |ps| && claims[k].Some? ::
      ps[k].sampleId in truths && 0 <= claims[k].value < |truths[ps[k].sampleId]|
  {
    seq(|ps|, k requires 0 <= k < |ps| =>
      if claims[k].Some? then Overlap(truths, ps, k, claims[k].value) else 0.0)
  }

  ghost predicate TookBefore(ps: seq<Box>, claims: seq<Option<int>>, n: int, sampleId: string, i: int)
    requires |claims| == |ps|
  {
    exists k :: 0 <= k < n && k < |ps| && ps[k].sampleId == sampleId && claims[k] == Some(i)
  }

  ghost predicate Tracks(truths: Truths, ps: seq<Box>, claims: seq<Option<int>>, taken: Flags)
    requires |claims| == |ps| && Fits(truths, taken)
  {
    forall s, i | s in truths && 0 <= i < |truths[s]| :: taken[s][i] <==> TookBefore(ps, claims, |ps|, s, i)
  }

  lemma OpenIsEligible(truths: Truths, ps: seq<Box>, claims: seq<Option<int>>, taken: Flags, i: int)
    requires ps != [] && |claims| == |ps| && Fits(truths, taken)
    requires Tracks(truths, ps[..|ps| - 1], claims[..|ps| - 1], taken)
    requires ps[|ps| - 1].sampleId in truths
    ensures var p := ps[|ps| - 1];
      Open(truths, ps, claims, |ps| - 1, i) <==> Eligible(p, truths[p.sampleId], taken[p.sampleId], i)
  {
    hide IntersectionOverUnion;
    var last := |ps| - 1;
    var s := ps[last].sampleId;
    if 0 <= i < |truths[s]| {
      assert taken[s][i] <==> TookBefore(ps[..last], claims[..last], last, s, i);
      if TookBefore(ps[..last], claims[..last], last, s, i) {
        var k :| 0 <= k < last && ps[..last][k].sampleId == s && claims[..last][k] == Some(i);
        assert ps[k].sampleId == s && claims[k] == Some(i);
      } else {
        forall m | 0 <= m < last && ps[m].sampleId == s ensures claims[m] != Some(i) {
          assert ps[..last][m].sampleId == s;
        }
      }
    }
  }

  /** With the flags of the earlier predictions, the scan claims what the description says. */
  lemma ClaimExactly(truths: Truths, threshold: real, ps: seq<Box>, claims: seq<Option<int>>, taken: Flags)
    requires ps != [] && |claims| == |ps| && Fits(truths, taken)
    requires Tracks(truths, ps[..|ps| - 1], claims[..|ps| - 1], taken)
    ensures TakesRight(truths, threshold, ps, claims, |ps| - 1)
       <==> claims[|ps| - 1] == Claim(truths, threshold, taken, ps[|ps| - 1])
  {
    hide IntersectionOverUnion, Best, Tracks;
    var last := |ps| - 1;
    var p := ps[last];
    if p.sampleId in truths {
      var boxes := truths[p.sampleId];
      BestIsFirstMaximum(p, boxes, taken[p.sampleId]);
      forall i ensures Open(truths, ps, claims, last, i) <==> Eligible(p, boxes, taken[p.sampleId], i) {
        OpenIsEligible(truths, ps, claims, taken, i);
      }
    } else {
      BestIsFirstMaximum(p, [], []);
    }
  }

  /** How many predictions took a truth. */
  function Count(claims: seq<Option<int>>): nat {
    |set k | 0 <= k < |claims| && claims[k].Some?|
  }

  lemma CountOne(claims: seq<Option<int>>)
    requires claims != []
    ensures Count(claims) == Count(claims[..|claims| - 1]) + if claims[|claims| - 1].Some? then 1 else 0
  {
    var last := |claims| - 1;
    var all := set k | 0 <= k < |claims| && claims[k].Some?;
    var before := set k | 0 <= k < last && claims[..last][k].Some?;
    if claims[last].Some? { assert all == before + {last}; } else { assert all == before; }
  }

  lemma GreedyPrefix(truths: Truths, threshold: real, ps: seq<Box>, claims: seq<Option<int>>)
    requires ps != [] && Greedy(truths, threshold, ps, claims)
    ensures Greedy(truths, threshold, ps[..|ps| - 1], claims[..|ps| - 1])
  {
    hide IntersectionOverUnion;
    var last := |ps| - 1;
    var qs, ds := ps[..last], claims[..last];
    forall k | 0 <= k < last ensures TakesRight(truths, threshold, qs, ds, k) {
      assert TakesRight(truths, threshold, ps, claims, k);
      forall i ensures Open(truths, ps, claims, k, i) <==> Open(truths, qs, ds, k, i) {
        assert forall m | 0 <= m < k :: qs[m] == ps[m] && ds[m] == claims[m];
      }
    }
  }

  lemma ClaimsInside(truths: Truths, threshold: real, ps: seq<Box>, claims: seq<Option<int>>)
    requires Greedy(truths, threshold, ps, claims)
    ensures forall k | 0 <= k < |ps| && claims[k].Some? ::
              ps[k].sampleId in truths && 0 <= claims[k].value < |truths[ps[k].sampleId]|
  {
    hide IntersectionOverUnion;
    forall k | 0 <= k < |ps| && claims[k].Some?
      ensures ps[k].sampleId in truths && 0 <= claims[k].value < |truths[ps[k].sampleId]|
    {
      assert TakesRight(truths, threshold, ps, claims, k);
    }
  }

  /** The run counts what so taken truths amount to: who took which, how many, and with what overlap. */
  lemma {:induction false} RunExactly(truths: Truths, threshold: real, ps: seq<Box>, claims: seq<Option<int>>)
    requires Greedy(truths, threshold, ps, claims)
    ensures forall k | 0 <= k < |ps| && claims[k].Some? ::
              ps[k].sampleId in truths && 0 <= claims[k].value < |truths[ps[k].sampleId]|
    ensures var st := Run(truths, threshold, ps);
      && Tracks(truths, ps, claims, st.taken)
      && st.tp == Count(claims) && st.fp == |ps| - Count(claims)
      && st.iouSum == Total(Overlaps(truths, ps, claims))
  {
    ClaimsInside(truths, threshold, ps, claims);
    hide IntersectionOverUnion, Best, TakesRight, Count;
    if ps == [] {
      NothingCounted(claims);
    } else {
      var last := |ps| - 1;
      GreedyPrefix(truths, threshold, ps, claims);
      RunExactly(truths, threshold, ps[..last], claims[..last]);
      var st := Run(truths, threshold, ps[..last]);
      ClaimExactly(truths, threshold, ps, claims, st.taken);
      CountOne(claims);
      TracksStep(truths, threshold, ps, claims, st);
      OverlapsStep(truths, threshold, ps, claims);
    }
  }

  lemma NothingCounted(claims: seq<Option<int>>)
    requires claims == []
    ensures Count(claims) == 0
  {
    assert (set k | 0 <= k < |claims| && claims[k].Some?) == {};
  }

  lemma TracksStep(truths: Truths, threshold: real, ps: seq<Box>, claims: seq<Option<int>>, st: State)
    requires ps != [] && |claims| == |ps| && Fits(truths, st.taken)
    requires Tracks(truths, ps[..|ps| - 1], claims[..|ps| - 1], st.taken)
    requires claims[|ps| - 1] == Claim(truths, threshold, st.taken, ps[|ps| - 1])
    ensures Tracks(truths, ps, claims, Step(truths, threshold, st, ps[|ps| - 1]).taken)
  {
    hide IntersectionOverUnion, Claim;
    var last := |ps| - 1;
    var next := Step(truths, threshold, st, ps[last]).taken;
    forall s, i | s in truths && 0 <= i < |truths[s]|
      ensures next[s][i] <==> TookBefore(ps, claims, |ps|, s, i)
    {
      TookStep(ps, claims, s, i);
      assert st.taken[s][i] <==> TookBefore(ps[..last], claims[..last], last, s, i);
    }
  }

  lemma TookStep(ps: seq<Box>, claims: seq<Option<int>>, s: string, i: int)
    requires ps != [] && |claims| == |ps|
    ensures var last := |ps| - 1;
      TookBefore(ps, claims, |ps|, s, i)
      <==> TookBefore(ps[..last], claims[..last], last, s, i) || (ps[last].sampleId == s && claims[last] == Some(i))
  {
    var last := |ps| - 1;
    if TookBefore(ps[..last], claims[..last], last, s, i) {
      var k :| 0 <= k < last && ps[..last][k].sampleId == s && claims[..last][k] == Some(i);
      assert ps[k].sampleId == s && claims[k] == Some(i);
    }
    if TookBefore(ps, claims, |ps|, s, i) {
      var k :| 0 <= k < |ps| && ps[k].sampleId == s && claims[k] == Some(i);
      if k < last { assert ps[..last][k].sampleId == s && claims[..last][k] == Some(i); }
    }
  }

  lemma OverlapsStep(truths: Truths, threshold: real, ps: seq<Box>, claims: seq<Option<int>>)
    requires ps != [] && |claims| == |ps|
    requires forall k | 0 <= k < |ps| && claims[k].Some? ::
               ps[k].sampleId in truths && 0 <= claims[k].value < |truths[ps[k].sampleId]|
    ensures var last := |ps| - 1;
      Total(Overlaps(truths, ps, claims))
      == Total(Overlaps(truths, ps[..last], claims[..last]))
         + if claims[last].Some? then Overlap(truths, ps, last, claims[last].value) else 0.0
  {
    hide IntersectionOverUnion;
    var last := |ps| - 1;
    var before, all := Overlaps(truths, ps[..last], claims[..last]), Overlaps(truths, ps, claims);
    TotalSnoc(before, all[last]);
    assert all == before + [all[last]];
  }

  /** There is such a list of claims for every input. */
  lemma {:induction false} GreedyExists(truths: Truths, threshold: real, ps: seq<Box>)
    returns (claims: seq<Option<int>>)
    ensures Greedy(truths, threshold, ps, claims)
  {
    hide IntersectionOverUnion, TakesRight, Claim, Tracks;
    claims := [];
    if ps != [] {
      var last := |ps| - 1;
      var before := GreedyExists(truths, threshold, ps[..last]);
      RunExactly(truths, threshold, ps[..last], before);
      var taken := Run(truths, threshold, ps[..last]).taken;
      claims := before + [Claim(truths, threshold, taken, ps[last])];
      assert claims[..last] == before;
      ClaimExactly(truths, threshold, ps, claims, taken);
      forall k | 0 <= k < |ps| ensures TakesRight(truths, threshold, ps, claims, k) {
        if k < last { TakesInLonger(truths, threshold, ps, claims, k); }
      }
    }
  }

  lemma TakesInLonger(truths: Truths, threshold: real, ps: seq<Box>, claims: seq<Option<int>>, k: int)
    requires ps != [] && |claims| == |ps| && 0 <= k < |ps| - 1
    requires TakesRight(truths, threshold, ps[..|ps| - 1], claims[..|ps| - 1], k)
    ensures TakesRight(truths, threshold, ps, claims, k)
  {
    hide IntersectionOverUnion;
    var last := |ps| - 1;
    var qs, ds := ps[..last], claims[..last];
    forall i ensures Open(truths, ps, claims, k, i) <==> Open(truths, qs, ds, k, i) {
      assert forall m | 0 <= m < k :: qs[m] == ps[m] && ds[m] == claims[m];
    }
  }

  function WithConfidence(confidence: real): Box -> bool {
    (box: Box) => box.confidence == confidence
  }

  /** The predictions are taken by falling confidence, equal ones in the order they came in. */
  lemma SortedExactly(predictions: seq<Box>, classId: Option<int>)
    ensures var sorted, kept := Sorted(predictions, classId), Filter(predictions, KeepClass(classId));
      && (forall i, j | 0 <= i < j < |sorted| :: sorted[i].confidence >= sorted[j].confidence)
      && forall z: Box :: Filter(sorted, WithConfidence(z.confidence)) == Filter(kept, WithConfidence(z.confidence))
  {
    ByConfidenceOrders();
    var sorted, kept := Sorted(predictions, classId), Filter(predictions, KeepClass(classId));
    StableSortSorts(kept, StableSort(kept, ByConfidence), ByConfidence);
    forall i, j | 0 <= i < j < |sorted| ensures sorted[i].confidence >= sorted[j].confidence {
      assert ByConfidence(sorted[i], sorted[j]);
    }
    forall z: Box
      ensures Filter(sorted, WithConfidence(z.confidence)) == Filter(kept, WithConfidence(z.confidence))
    {
      FilterAlike(sorted, Equivalent(ByConfidence, z), WithConfidence(z.confidence));
      FilterAlike(kept, Equivalent(ByConfidence, z), WithConfidence(z.confidence));
    }
  }

  // ---------- the four ratios

  /** `part` of `whole`, rounded to six digits; 0 of nothing. */
  ghost predicate IsShare(rounded: real, part: real, whole: real) {
    if whole == 0.0 then rounded == 0.0 else rounded == Round6(part / whole)
  }

  /** Precision is the share of true positives among the predictions, recall among the truths, F1 twice
      the true positives among both, and the mean overlap is theirs alone. */
  lemma ScoreExactly(tp: nat, fp: nat, fn: nat, iouSum: real)
    ensures var score := ScoreOf(tp, fp, fn, iouSum);
      && (score.tp, score.fp, score.fn) == (tp, fp, fn)
      && IsShare(score.precision, tp as real, (tp + fp) as real)
      && IsShare(score.recall, tp as real, (tp + fn) as real)
      && IsShare(score.f1, (2 * tp) as real, (2 * tp + fp + fn) as real)
      && IsShare(score.matchedMeanIou, iouSum, tp as real)
  {
    HarmonicMean(tp, fp, fn);
    hide Round6, SafeRatio, IsShare, Harmonic;
    RatioIsShare(tp as real, (tp + fp) as real);
    RatioIsShare(tp as real, (tp + fn) as real);
    RatioIsShare((2 * tp) as real, (2 * tp + fp + fn) as real);
    RatioIsShare(iouSum, tp as real);
  }

  lemma RatioIsShare(part: real, whole: real)
    ensures IsShare(Round6(SafeRatio(part, whole)), part, whole)
  {
    RoundZero();
  }

  /** The harmonic mean of precision and recall. */
  lemma HarmonicMean(tp: nat, fp: nat, fn: nat)
    ensures var p, r := SafeRatio(tp as real, (tp + fp) as real), SafeRatio(tp as real, (tp + fn) as real);
      Harmonic(p, r) == SafeRatio((2 * tp) as real, (2 * tp + fp + fn) as real)
  {
    if tp > 0 {
      HarmonicQuotient(tp as real, (tp + fp) as real, (tp + fn) as real);
    }
  }

  lemma HarmonicQuotient(t: real, a: real, b: real)
    requires 0.0 < t <= a && t <= b
    ensures t / a + t / b > 0.0
    ensures 2.0 * (t / a) * (t / b) / (t / a + t / b) == 2.0 * t / (a + b)
  {
    var p, r := t / a, t / b;
    assert p * a == t && r * b == t;
    PositiveQuotient(t, a);
    PositiveQuotient(t, b);
    var q := 2.0 * t / (a + b);
    assert q * (a + b) == 2.0 * t;
    CrossMultiply(p, r, a, b, t, q);
    QuotientIs(2.0 * p * r, p + r, q);
  }

  lemma PositiveQuotient(x: real, y: real)
    requires x > 0.0 && y > 0.0
    ensures x / y > 0.0
  {
  }

  lemma QuotientIs(x: real, y: real, q: real)
    requires y > 0.0 && q * y == x
    ensures x / y == q
  {
  }

  lemma CrossMultiply(p: real, r: real, a: real, b: real, t: real, q: real)
    requires p * a == t && r * b == t && t > 0.0 && q * (a + b) == 2.0 * t
    ensures q * (p + r) == 2.0 * p * r
  {
    Regroup(p, r, a, b, t);
    assert q * ((a + b) * (p * r)) == (q * (a + b)) * (p * r);
    assert q * (t * (p + r)) == t * (q * (p + r));
    assert 2.0 * t * (p * r) == t * (2.0 * p * r);
    SameFactor(t, q * (p + r), 2.0 * p * r);
  }

  lemma Regroup(p: real, r: real, a: real, b: real, t: real)
    requires p * a == t && r * b == t
    ensures (a + b) * (p * r) == t * (p + r)
  {
    assert (a + b) * (p * r) == (p * a) * r + (r * b) * p;
  }

  lemma SameFactor(t: real, x: real, y: real)
    requires t > 0.0 && t * x == t * y
    ensures x == y
  {
    assert t * (x - y) == 0.0;
  }

  // ---------- the sweep and its average

  /** After prediction `k` the sweep stands at the truths taken so far, among all truths and among the
      predictions so far. */
  lemma SweepExactly(truths: Truths, threshold: real, ps: seq<Box>, claims: seq<Option<int>>, k: nat)
    requires |Slots(truths)| > 0 && k < |ps| && Greedy(truths, threshold, ps, claims)
    ensures var taken, point := Count(claims[..k + 1]) as real, Points(truths, threshold, ps)[k];
      point.recall == taken / |Slots(truths)| as real && point.precision == taken / (k + 1) as real
  {
    assert |claims| == |ps|;
    hide IntersectionOverUnion, Run, Greedy, Count, Points;
    PointsAt(truths, threshold, ps, k);
    GreedyPrefixes(truths, threshold, ps, claims, k + 1);
    RunExactly(truths, threshold, ps[..k + 1], claims[..k + 1]);
  }

  lemma {:induction false} GreedyPrefixes(truths: Truths, threshold: real, ps: seq<Box>, claims: seq<Option<int>>,
                                          n: nat)
    requires Greedy(truths, threshold, ps, claims) && n <= |ps|
    ensures Greedy(truths, threshold, ps[..n], claims[..n])
  {
    hide IntersectionOverUnion, TakesRight;
    if n < |ps| {
      var last := |ps| - 1;
      GreedyPrefix(truths, threshold, ps, claims);
      GreedyPrefixes(truths, threshold, ps[..last], claims[..last], n);
      assert ps[..last][..n] == ps[..n] && claims[..last][..n] == claims[..n];
    } else {
      assert ps[..n] == ps && claims[..n] == claims;
    }
  }

  /** The largest precision of a point whose recall is at least `level`; 0 when there is none. */
  ghost predicate IsPeak(points: seq<Point>, level: real, height: real) {
    && height >= 0.0
    && (forall p | p in points && p.recall >= level :: p.precision <= height)
    && (height == 0.0 || exists p :: p in points && p.recall >= level && p.precision == height)
  }

  lemma PeakExactly(points: seq<Point>, level: real, height: real)
    ensures PrecisionAt(points, level) == height <==> IsPeak(points, level, height)
  {
    PrecisionAtIsMaximum(points, level);
    hide PrecisionAt;
    forall p | p in points ensures Reaches(p, level) <==> p.recall >= level {}
    if IsPeak(points, level, height) && height != 0.0 {
      var p :| p in points && p.recall >= level && p.precision == height;
      assert Reaches(p, level);
    }
  }

  /** One height for each of the recalls 0, 0.01, 0.02, up to 1. */
  ghost predicate Heights(points: seq<Point>, heights: seq<real>) {
    |heights| == 101 && forall t | 0 <= t < 101 :: IsPeak(points, t as real / 100.0, heights[t])
  }

  /** The average precision is the mean of the 101 heights, rounded. */
  lemma ApExactly(points: seq<Point>, heights: seq<real>)
    requires Heights(points, heights)
    ensures ApOf(points) == Round6(Total(heights) / 101.0)
  {
    hide IsPeak, Round6;
    LevelsAdd(points, heights, 101);
    assert heights[..101] == heights;
  }

  lemma {:induction false} LevelsAdd(points: seq<Point>, heights: seq<real>, n: nat)
    requires Heights(points, heights) && n <= 101
    ensures LevelSum(points, n) == Total(heights[..n])
  {
    hide IsPeak, PrecisionAt;
    if n > 0 {
      LevelsAdd(points, heights, n - 1);
      PeakExactly(points, (n - 1) as real / 100.0, heights[n - 1]);
      TotalSnoc(heights[..n - 1], heights[n - 1]);
      assert heights[..n] == heights[..n - 1] + [heights[n - 1]];
    }
  }

  lemma HeightsExist(points: seq<Point>) returns (heights: seq<real>)
    ensures Heights(points, heights)
  {
    hide IsPeak;
    heights := seq(101, t requires 0 <= t < 101 => PrecisionAt(points, t as real / 100.0));
    forall t | 0 <= t < 101 ensures IsPeak(points, t as real / 100.0, heights[t]) {
      PeakExactly(points, t as real / 100.0, heights[t]);
    }
  }

  // ---------- the means of the report

  lemma {:induction false} SumIsTotal(values: seq<real>)
    ensures Evaluation.Sum(values) == Total(values)
  {
    if values != [] {
      var last := |values| - 1;
      SumIsTotal(values[..last]);
      TotalSnoc(values[..last], values[last]);
      assert values == values[..last] + [values[last]];
    }
  }

  lemma MeanExactly(values: seq<real>)
    ensures Evaluation.Mean(values) == if values == [] then None else Some(Round6(Total(values) / |values| as real))
  {
    SumIsTotal(values);
  }

  lemma MeanOfTen(values: seq<real>)
    requires |values| == 10
    ensures Evaluation.Mean(values) == Some(Round6(Total(values) / 10.0))
  {
    MeanExactly(values);
    hide Evaluation.Mean;
    var n := |values| as real;
    assert n == 10.0;
    assert Total(values) / n == Total(values) / 10.0;
  }

  /** The ten thresholds run from 0.50 to 0.95 in steps of 0.05. */
  lemma Thresholds()
    ensures |Evaluation.MAP_THRESHOLDS| == 10
    ensures forall k | 0 <= k < 10 :: Evaluation.MAP_THRESHOLDS[k] == 0.5 + 0.05 * k as real
  {
  }

  /** mAP50-95 of a class is the mean over the ten thresholds; there is none without truths of the class. */
  lemma ClassMapExactly(predictions: seq<Box>, groundTruth: Truths, c: int, aps: seq<real>)
    requires |aps| == 10
    requires forall k | 0 <= k < 10 :: ClassAp(predictions, groundTruth, c, 0.5 + 0.05 * k as real) == Some(aps[k])
    ensures Evaluation.ClassMap(predictions, groundTruth, c) == Some(Round6(Total(aps) / 10.0))
  {
    hide ClassAp, Round6;
    Thresholds();
    ThresholdApsAre(predictions, groundTruth, c, aps, 10);
    assert aps[..10] == aps;
    assert Evaluation.ThresholdAps(predictions, groundTruth, c, |Evaluation.MAP_THRESHOLDS|) == aps;
    hide Evaluation.ThresholdAps, Evaluation.Mean;
    MeanOfTen(aps);
  }

  lemma {:induction false} ThresholdApsAre(predictions: seq<Box>, groundTruth: Truths, c: int, aps: seq<real>, n: nat)
    requires |aps| == 10 && n <= 10 == |Evaluation.MAP_THRESHOLDS|
    requires forall k | 0 <= k < 10 :: ClassAp(predictions, groundTruth, c, 0.5 + 0.05 * k as real) == Some(aps[k])
    ensures Evaluation.ThresholdAps(predictions, groundTruth, c, n) == aps[..n]
  {
    hide ClassAp;
    Thresholds();
    if n > 0 {
      ThresholdApsAre(predictions, groundTruth, c, aps, n - 1);
      assert aps[..n] == aps[..n - 1] + [aps[n - 1]];
    }
  }

  lemma NoTruthsNoMeasure(predictions: seq<Box>, groundTruth: Truths, c: int, threshold: real)
    ensures ClassAp(predictions, groundTruth, c, threshold).Some?
       <==> exists s, b :: s in groundTruth && b in groundTruth[s] && b.classId == c
  {
    hide ApOf, Points, Sorted;
    var truths := FilterTruths(groundTruth, Some(c));
    if slot :| slot in Slots(truths) {
      FilterMembers(groundTruth[slot.0], KeepClass(Some(c)));
      assert truths[slot.0][slot.1] in groundTruth[slot.0];
    }
    if s, b :| s in groundTruth && b in groundTruth[s] && b.classId == c {
      FilterMembers(groundTruth[s], KeepClass(Some(c)));
      var i :| 0 <= i < |truths[s]| && truths[s][i] == b;
      assert (s, i) in Slots(truths);
    }
  }

  /** The column of a report's rows, and a list of those of its values that are there. */
  ghost predicate Present(column: seq<Option<real>>, values: seq<real>) {
    Picked(column, Wrapped(values), IsThere)
  }

  predicate IsThere(value: Option<real>) {
    value.Some?
  }

  /** The means of the report are taken over the rows that have a value, in their order. */
  lemma ColumnsExactly(rows: seq<Evaluation.ClassRow>)
    ensures Present(seq(|rows|, i requires 0 <= i < |rows| => rows[i].ap50), Evaluation.RowAps(rows))
    ensures Present(seq(|rows|, i requires 0 <= i < |rows| => rows[i].map5095), Evaluation.RowMaps(rows))
  {
    hide Picked;
    var aps := seq(|rows|, i requires 0 <= i < |rows| => rows[i].ap50);
    var maps := seq(|rows|, i requires 0 <= i < |rows| => rows[i].map5095);
    ApsFiltered(rows, aps);
    MapsFiltered(rows, maps);
    FilterPicks(aps, Filter(aps, IsThere), IsThere);
    FilterPicks(maps, Filter(maps, IsThere), IsThere);
  }

  function Wrapped(values: seq<real>): seq<Option<real>> {
    seq(|values|, k requires 0 <= k < |values| => Some(values[k]))
  }

  lemma {:induction false} ApsFiltered(rows: seq<Evaluation.ClassRow>, aps: seq<Option<real>>)
    requires |aps| == |rows| && forall i | 0 <= i < |rows| :: aps[i] == rows[i].ap50
    ensures Wrapped(Evaluation.RowAps(rows)) == Filter(aps, IsThere)
  {
    if rows != [] {
      var last := |rows| - 1;
      ApsFiltered(rows[..last], aps[..last]);
      var before := Evaluation.RowAps(rows[..last]);
      if rows[last].ap50.Some? { assert Wrapped(before + [rows[last].ap50.value]) == Wrapped(before) + [aps[last]]; }
    }
  }

  lemma {:induction false} MapsFiltered(rows: seq<Evaluation.ClassRow>, maps: seq<Option<real>>)
    requires |maps| == |rows| && forall i | 0 <= i < |rows| :: maps[i] == rows[i].map5095
    ensures Wrapped(Evaluation.RowMaps(rows)) == Filter(maps, IsThere)
  {
    if rows != [] {
      var last := |rows| - 1;
      MapsFiltered(rows[..last], maps[..last]);
      var before := Evaluation.RowMaps(rows[..last]);
      if rows[last].map5095.Some? {
        assert Wrapped(before + [rows[last].map5095.value]) == Wrapped(before) + [maps[last]];
      }
    }
  }

  /** The truths that count for a class: every picture keeps its own of that class, in their order. */
  lemma TruthsOfClass(truths: Truths, classId: Option<int>, s: string)
    ensures FilterTruths(truths, classId).Keys == truths.Keys
    ensures s in truths ==> Picked(truths[s], FilterTruths(truths, classId)[s], KeepClass(classId))
  {
    hide Picked;
    if s in truths { FilterPicks(truths[s], FilterTruths(truths, classId)[s], KeepClass(classId)); }
  }
}
