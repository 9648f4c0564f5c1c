/** One-to-one matching of predictions with ground truth, tools/evaluate_yolo_detection_accuracy.py.
    Predictions are taken by falling confidence; each one claims the free truth it overlaps most. */
module GreedyMatching {
  import opened Wrappers
  import opened Geometry
  import opened Rounding
  import opened StableSorting

  type Truths = map<string, seq<Box>>
  type Flags = map<string, seq<bool>>

  datatype State = State(taken: Flags, tp: nat, fp: nat, iouSum: real)

  datatype Score = Score(tp: nat, fp: nat, fn: nat,
                         precision: real, recall: real, f1: real, matchedMeanIou: real)

  /** The sort order of `key=confidence, reverse=True`. */
  predicate ByConfidence(a: Box, b: Box) {
    a.confidence >= b.confidence
  }

  /** `class_id is None or box.class_id == class_id`. */
  function KeepClass(classId: Option<int>): (keep: Box -> bool)
    ensures forall box :: keep(box) <==> classId in {None, Some(box.classId)}
  {
    (box: Box) => classId.None? || box.classId == classId.value
  }

  function FilterTruths(truths: Truths, classId: Option<int>): Truths {
    map s | s in truths :: Filter(truths[s], KeepClass(classId))
  }

  ghost predicate Fits(truths: Truths, taken: Flags) {
    && taken.Keys == truths.Keys
    && forall s | s in truths :: |taken[s]| == |truths[s]|
  }

  function NoneTaken(truths: Truths): (taken: Flags)
    ensures Fits(truths, taken)
  {
    map s | s in truths :: seq(|truths[s]|, _ => false)
  }

  /** `ground_truth.get(sample_id, ())`, and the flags beside it. */
  function At<T>(m: map<string, seq<T>>, sampleId: string): seq<T> {
    if sampleId in m then m[sampleId] else []
  }

  predicate Eligible(p: Box, boxes: seq<Box>, taken: seq<bool>, i: int)
    requires |taken| == |boxes|
  {
    0 <= i < |boxes| && !taken[i] && p.classId == boxes[i].classId && IntersectionOverUnion(p, boxes[i]) > 0.0
  }

  /** The scan over one sample, box by box: `best_index` and `best_iou` as one value. */
  function Best(p: Box, boxes: seq<Box>, taken: seq<bool>): (best: Option<nat>)
    requires |taken| == |boxes|
    ensures best.Some? ==> best.value < |boxes|
  {
    if boxes == [] then None
    else
      var last := |boxes| - 1;
      var before := Best(p, boxes[..last], taken[..last]);
      if !taken[last] && p.classId == boxes[last].classId
         && IntersectionOverUnion(p, boxes[last]) > OverlapAt(p, boxes, before)
      then Some(last)
      else before
  }

  /** The scan finds the first of the free truths with the largest positive overlap, if there is one. */
  lemma {:induction false} BestIsFirstMaximum(p: Box, boxes: seq<Box>, taken: seq<bool>)
    requires |taken| == |boxes|
    ensures var best := Best(p, boxes, taken);
      match best
      case Some(i) =>
        && Eligible(p, boxes, taken, i)
        && (forall j | Eligible(p, boxes, taken, j) ::
             IntersectionOverUnion(p, boxes[j]) <= IntersectionOverUnion(p, boxes[i]))
        && (forall j | Eligible(p, boxes, taken, j) && j < i ::
             IntersectionOverUnion(p, boxes[j]) < IntersectionOverUnion(p, boxes[i]))
      case None => forall j :: !Eligible(p, boxes, taken, j)
  {
    hide IntersectionOverUnion;
    if boxes != [] {
      var last := |boxes| - 1;
      BestIsFirstMaximum(p, boxes[..last], taken[..last]);
      assert forall j | 0 <= j < last ::
        Eligible(p, boxes, taken, j) == Eligible(p, boxes[..last], taken[..last], j);
    }
  }

  /** `best_iou`, which starts at 0. */
  function OverlapAt(p: Box, boxes: seq<Box>, best: Option<nat>): real
    requires best.Some? ==> best.value < |boxes|
  {
    if best.Some? then IntersectionOverUnion(p, boxes[best.value]) else 0.0
  }

  /** The truth a prediction claims, if its best overlap reaches the threshold. */
  function Claim(truths: Truths, threshold: real, taken: Flags, p: Box): (claim: Option<nat>)
    requires Fits(truths, taken)
    ensures claim.Some? ==> p.sampleId in truths && claim.value < |truths[p.sampleId]|
  {
    var boxes := At(truths, p.sampleId);
    var best := Best(p, boxes, At(taken, p.sampleId));
    if best.Some? && OverlapAt(p, boxes, best) >= threshold then best else None
  }

  /** A claimed truth is free, of the prediction's class, and overlaps it by a positive amount not below
      the threshold. */
  lemma ClaimIsFair(truths: Truths, threshold: real, taken: Flags, p: Box)
    requires Fits(truths, taken)
    ensures var claim := Claim(truths, threshold, taken, p);
      claim.Some? ==>
        && Eligible(p, truths[p.sampleId], taken[p.sampleId], claim.value)
        && IntersectionOverUnion(p, truths[p.sampleId][claim.value]) >= threshold
  {
    BestIsFirstMaximum(p, At(truths, p.sampleId), At(taken, p.sampleId));
  }

  function Step(truths: Truths, threshold: real, st: State, p: Box): (next: State)
    requires Fits(truths, st.taken)
    ensures Fits(truths, next.taken)
  {
    match Claim(truths, threshold, st.taken, p)
    case Some(i) =>
      State(st.taken[p.sampleId := st.taken[p.sampleId][i := true]], st.tp + 1, st.fp,
            st.iouSum + IntersectionOverUnion(p, truths[p.sampleId][i]))
    case None => st.(fp := st.fp + 1)
  }

  function Run(truths: Truths, threshold: real, ps: seq<Box>): (st: State)
    ensures Fits(truths, st.taken)
  {
    if ps == [] then State(NoneTaken(truths), 0, 0, 0.0)
    else Step(truths, threshold, Run(truths, threshold, ps[..|ps| - 1]), ps[|ps| - 1])
  }

  // ---------- what the tool computes

  function Slots(truths: Truths): set<(string, int)> {
    set s, i | s in truths.Keys && 0 <= i < |truths[s]| :: (s, i)
  }

  ghost function Taken(truths: Truths, taken: Flags): set<(string, int)>
    requires Fits(truths, taken)
  {
    set slot | slot in Slots(truths) && taken[slot.0][slot.1]
  }

  /** The unmatched truths that `false_negative` counts. */
  function Free(truths: Truths, taken: Flags): set<(string, int)>
    requires Fits(truths, taken)
  {
    set s, i | s in truths.Keys && 0 <= i < |truths[s]| && !taken[s][i] :: (s, i)
  }

  function SafeRatio(numerator: real, denominator: real): real {
    if denominator != 0.0 then numerator / denominator else 0.0
  }

  function Harmonic(precision: real, recall: real): real {
    SafeRatio(2.0 * precision * recall, precision + recall)
  }

  function ScoreOf(tp: nat, fp: nat, fn: nat, iouSum: real): (score: Score)
    ensures (score.tp, score.fp, score.fn) == (tp, fp, fn)
  {
    var precision := SafeRatio(tp as real, (tp + fp) as real);
    var recall := SafeRatio(tp as real, (tp + fn) as real);
    var f1 := Harmonic(precision, recall);
    Score(tp, fp, fn, Round6(precision), Round6(recall), Round6(f1), Round6(SafeRatio(iouSum, tp as real)))
  }

  function Sorted(predictions: seq<Box>, classId: Option<int>): seq<Box> {
    StableSort(Filter(predictions, KeepClass(classId)), ByConfidence)
  }

  /** The inner loop of both evaluators. */
  method FindBest(p: Box, boxes: seq<Box>, taken: seq<bool>) returns (best: Option<nat>, bestIou: real)
    requires |taken| == |boxes|
    ensures best == Best(p, boxes, taken)
    ensures bestIou == OverlapAt(p, boxes, best)
  {
    best, bestIou := None, 0.0;
    for index := 0 to |boxes|
      invariant best == Best(p, boxes[..index], taken[..index])
      invariant bestIou == OverlapAt(p, boxes[..index], best)
    {
      assert boxes[..index + 1][..index] == boxes[..index] && taken[..index + 1][..index] == taken[..index];
      if taken[index] || p.classId != boxes[index].classId {
        continue;
      }
      var iou := IntersectionOverUnion(p, boxes[index]);
      if iou > bestIou {
        best, bestIou := Some(index), iou;
      }
    }
    assert boxes[..|boxes|] == boxes && taken[..|boxes|] == taken;
  }

  /** One turn of the loop over predictions; `State` holds its `matched` and its three running totals. */
  method Settle(truths: Truths, threshold: real, st: State, p: Box) returns (next: State)
    requires Fits(truths, st.taken)
    ensures next == Step(truths, threshold, st, p)
  {
    hide IntersectionOverUnion, Best;
    var best, bestIou := FindBest(p, At(truths, p.sampleId), At(st.taken, p.sampleId));
    next := st;
    if best.Some? && bestIou >= threshold {
      next := next.(taken := next.taken[p.sampleId := next.taken[p.sampleId][best.value := true]]);
      next := next.(tp := next.tp + 1, iouSum := next.iouSum + bestIou);
    } else {
      next := next.(fp := next.fp + 1);
    }
  }

  method ScoreAtThreshold(predictions: seq<Box>, groundTruth: Truths, classId: Option<int>, threshold: real)
    returns (score: Score)
    ensures var truths := FilterTruths(groundTruth, classId);
      var st := Run(truths, threshold, Sorted(predictions, classId));
      && score.tp + score.fp == |Sorted(predictions, classId)|
      && score.tp + score.fn == |Slots(truths)|
      && score == ScoreOf(st.tp, st.fp, |Free(truths, st.taken)|, st.iouSum)
  {
    hide ScoreOf, Step;
    var truths := FilterTruths(groundTruth, classId);
    var sorted := Sorted(predictions, classId);
    var st := State(NoneTaken(truths), 0, 0, 0.0);
    for k := 0 to |sorted|
      invariant st == Run(truths, threshold, sorted[..k])
    {
      RunSnoc(truths, threshold, sorted, k);
      st := Settle(truths, threshold, st, sorted[k]);
    }
    assert sorted[..|sorted|] == sorted;
    Counting(truths, threshold, sorted);
    FreePlusTaken(truths, st.taken);
    score := ScoreOf(st.tp, st.fp, |Free(truths, st.taken)|, st.iouSum);
  }

  // ---------- counting

  lemma StepTakes(truths: Truths, threshold: real, st: State, p: Box)
    requires Fits(truths, st.taken)
    ensures var claim := Claim(truths, threshold, st.taken, p);
      var next := Step(truths, threshold, st, p);
      && (claim.Some? ==> (p.sampleId, claim.value) in Slots(truths) - Taken(truths, st.taken))
      && Taken(truths, next.taken)
         == Taken(truths, st.taken) + (if claim.Some? then {(p.sampleId, claim.value)} else {})
  {
    hide IntersectionOverUnion, Best;
    ClaimIsFair(truths, threshold, st.taken, p);
  }

  /** Every prediction is counted once, and every true positive is one claimed truth. */
  lemma {:induction false} Counting(truths: Truths, threshold: real, ps: seq<Box>)
    ensures var st := Run(truths, threshold, ps);
      && st.tp + st.fp == |ps|
      && |Taken(truths, st.taken)| == st.tp
  {
    var st := Run(truths, threshold, ps);
    if ps == [] {
      assert Taken(truths, st.taken) == {};
    } else {
      var before, p := Run(truths, threshold, ps[..|ps| - 1]), ps[|ps| - 1];
      Counting(truths, threshold, ps[..|ps| - 1]);
      StepTakes(truths, threshold, before, p);
      var claim := Claim(truths, threshold, before.taken, p);
      if claim.Some? {
        GrowByOne(Taken(truths, before.taken), (p.sampleId, claim.value));
      } else {
        assert Taken(truths, st.taken) == Taken(truths, before.taken);
      }
    }
  }

  lemma GrowByOne<T>(s: set<T>, x: T)
    requires x !in s
    ensures |s + {x}| == |s| + 1
  {
  }

  /** True positives and false negatives share out the ground truth. */
  lemma FreePlusTaken(truths: Truths, taken: Flags)
    requires Fits(truths, taken)
    ensures |Slots(truths) - Taken(truths, taken)| == |Slots(truths)| - |Taken(truths, taken)|
    ensures Free(truths, taken) == Slots(truths) - Taken(truths, taken)
  {
    assert Taken(truths, taken) <= Slots(truths);
  }

  lemma RunSnoc(truths: Truths, threshold: real, ps: seq<Box>, k: nat)
    requires k < |ps|
    ensures Run(truths, threshold, ps[..k + 1]) == Step(truths, threshold, Run(truths, threshold, ps[..k]), ps[k])
  {
    assert ps[..k + 1][..k] == ps[..k];
  }

  /** A claimed truth stays claimed. */
  lemma {:induction false} TakenGrows(truths: Truths, threshold: real, ps: seq<Box>, k: nat)
    requires k <= |ps|
    ensures Taken(truths, Run(truths, threshold, ps[..k]).taken) <= Taken(truths, Run(truths, threshold, ps).taken)
  {
    if k < |ps| {
      var init := ps[..|ps| - 1];
      assert ps[..k] == init[..k];
      TakenGrows(truths, threshold, init, k);
      StepTakes(truths, threshold, Run(truths, threshold, init), ps[|ps| - 1]);
    } else {
      assert ps[..k] == ps;
    }
  }
}
