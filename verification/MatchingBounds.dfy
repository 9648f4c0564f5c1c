/** What greedy matching guarantees, for every input: it is one-to-one and maximal, reaches at least
    half of any other matching, and never claims fewer truths when the overlap threshold falls. */
module MatchingBounds {
  import opened Wrappers
  import opened Geometry
  import opened GreedyMatching

  type Slot = (string, int)

  /** Prediction number `prediction` matched with one truth. */
  datatype Pair = Pair(prediction: int, slot: Slot)

  ghost predicate Admissible(truths: Truths, threshold: real, ps: seq<Box>, pair: Pair) {
    && 0 <= pair.prediction < |ps|
    && pair.slot in Slots(truths)
    && var p, truth := ps[pair.prediction], truths[pair.slot.0][pair.slot.1];
    && p.sampleId == pair.slot.0
    && p.classId == truth.classId
    && IntersectionOverUnion(p, truth) > 0.0
    && IntersectionOverUnion(p, truth) >= threshold
  }

  ghost predicate OneToOne(pairs: set<Pair>) {
    forall a, b :: a in pairs && b in pairs && (a.prediction == b.prediction || a.slot == b.slot) ==> a == b
  }

  ghost predicate Matching(truths: Truths, threshold: real, ps: seq<Box>, pairs: set<Pair>) {
    && (forall a <- pairs :: Admissible(truths, threshold, ps, a))
    && OneToOne(pairs)
  }

  /** The pair the last prediction forms. */
  ghost function LastPair(truths: Truths, threshold: real, ps: seq<Box>): Option<Pair>
    requires ps != []
  {
    var init, p := ps[..|ps| - 1], ps[|ps| - 1];
    var claim := Claim(truths, threshold, Run(truths, threshold, init).taken, p);
    if claim.Some? then Some(Pair(|init|, (p.sampleId, claim.value))) else None
  }

  /** The pairs the run forms. */
  ghost function Pairs(truths: Truths, threshold: real, ps: seq<Box>): (pairs: set<Pair>)
    ensures forall a <- pairs :: 0 <= a.prediction < |ps|
  {
    if ps == [] then {}
    else
      var pair := LastPair(truths, threshold, ps);
      Pairs(truths, threshold, ps[..|ps| - 1]) + if pair.Some? then {pair.value} else {}
  }

  ghost function SlotsOf(pairs: set<Pair>): set<Slot> {
    set a <- pairs :: a.slot
  }

  ghost function PredictionsOf(pairs: set<Pair>): set<int> {
    set a <- pairs :: a.prediction
  }

  /** One more prediction: its pair, if any, uses a free truth and counts once. */
  lemma LastPairTakes(truths: Truths, threshold: real, ps: seq<Box>)
    requires ps != []
    ensures var before, after := Run(truths, threshold, ps[..|ps| - 1]), Run(truths, threshold, ps);
      match LastPair(truths, threshold, ps)
      case Some(pair) =>
        && after.tp == before.tp + 1
        && pair.slot !in Taken(truths, before.taken)
        && Taken(truths, after.taken) == Taken(truths, before.taken) + {pair.slot}
      case None =>
        && after.tp == before.tp
        && Taken(truths, after.taken) == Taken(truths, before.taken)
  {
    StepTakes(truths, threshold, Run(truths, threshold, ps[..|ps| - 1]), ps[|ps| - 1]);
  }

  lemma {:induction false} PairsTrack(truths: Truths, threshold: real, ps: seq<Box>)
    ensures |Pairs(truths, threshold, ps)| == Run(truths, threshold, ps).tp
    ensures SlotsOf(Pairs(truths, threshold, ps)) == Taken(truths, Run(truths, threshold, ps).taken)
  {
    if ps == [] {
      assert Taken(truths, Run(truths, threshold, ps).taken) == {};
    } else {
      PairsTrack(truths, threshold, ps[..|ps| - 1]);
      LastPairTakes(truths, threshold, ps);
      var before, pair := Pairs(truths, threshold, ps[..|ps| - 1]), LastPair(truths, threshold, ps);
      if pair.Some? {
        assert pair.value !in before;
        SlotsGrow(before, pair.value);
      }
    }
  }

  lemma SlotsGrow(pairs: set<Pair>, pair: Pair)
    ensures SlotsOf(pairs + {pair}) == SlotsOf(pairs) + {pair.slot}
  {
  }

  /** The run pairs predictions and truths one to one. */
  lemma {:induction false} GreedyIsMatching(truths: Truths, threshold: real, ps: seq<Box>)
    ensures Matching(truths, threshold, ps, Pairs(truths, threshold, ps))
    ensures |Pairs(truths, threshold, ps)| == Run(truths, threshold, ps).tp
  {
    hide IntersectionOverUnion, Best;
    PairsTrack(truths, threshold, ps);
    if ps != [] {
      var init := ps[..|ps| - 1];
      GreedyIsMatching(truths, threshold, init);
      PairsTrack(truths, threshold, init);
      var before, pair := Pairs(truths, threshold, init), LastPair(truths, threshold, ps);
      forall a | a in before ensures Admissible(truths, threshold, ps, a) {
        assert Admissible(truths, threshold, init, a) && ps[a.prediction] == init[a.prediction];
      }
      if pair.Some? {
        LastPairTakes(truths, threshold, ps);
        LastPairAdmissible(truths, threshold, ps);
        OneToOneGrows(before, pair.value);
      }
    }
  }

  lemma LastPairAdmissible(truths: Truths, threshold: real, ps: seq<Box>)
    requires ps != [] && LastPair(truths, threshold, ps).Some?
    ensures Admissible(truths, threshold, ps, LastPair(truths, threshold, ps).value)
  {
    hide IntersectionOverUnion, Best;
    ClaimIsFair(truths, threshold, Run(truths, threshold, ps[..|ps| - 1]).taken, ps[|ps| - 1]);
  }

  lemma OneToOneGrows(pairs: set<Pair>, pair: Pair)
    requires OneToOne(pairs) && pair.slot !in SlotsOf(pairs)
    requires forall a <- pairs :: a.prediction != pair.prediction
    ensures OneToOne(pairs + {pair})
  {
    assert forall a <- pairs :: a.slot in SlotsOf(pairs);
  }

  /** Whatever may be matched is blocked at the end: its prediction or its truth is already paired. */
  lemma {:induction false} GreedyIsMaximal(truths: Truths, threshold: real, ps: seq<Box>, pair: Pair)
    requires Admissible(truths, threshold, ps, pair)
    ensures || pair.slot in Taken(truths, Run(truths, threshold, ps).taken)
            || pair.prediction in PredictionsOf(Pairs(truths, threshold, ps))
  {
    hide IntersectionOverUnion, Best;
    var init, p := ps[..|ps| - 1], ps[|ps| - 1];
    var before := Run(truths, threshold, init);
    StepTakes(truths, threshold, before, p);
    if pair.prediction < |init| {
      assert ps[pair.prediction] == init[pair.prediction];
      GreedyIsMaximal(truths, threshold, init, pair);
      assert PredictionsOf(Pairs(truths, threshold, init)) <= PredictionsOf(Pairs(truths, threshold, ps));
    } else if pair.slot !in Taken(truths, before.taken) {
      BestIsFirstMaximum(p, truths[p.sampleId], before.taken[p.sampleId]);
      assert Eligible(p, truths[p.sampleId], before.taken[p.sampleId], pair.slot.1);
      assert LastPair(truths, threshold, ps).Some?;
      assert LastPair(truths, threshold, ps).value in Pairs(truths, threshold, ps);
    }
  }

  /** Any one-to-one matching at the same threshold has at most twice as many pairs. */
  lemma HalfOptimal(truths: Truths, threshold: real, ps: seq<Box>, other: set<Pair>)
    requires Matching(truths, threshold, ps, other)
    ensures |other| <= 2 * Run(truths, threshold, ps).tp
  {
    var greedy, taken := Pairs(truths, threshold, ps), Taken(truths, Run(truths, threshold, ps).taken);
    PairsTrack(truths, threshold, ps);
    Counting(truths, threshold, ps);
    forall a | a in other ensures a.slot in taken || a.prediction in PredictionsOf(greedy) {
      GreedyIsMaximal(truths, threshold, ps, a);
    }
    CoverSize(other, taken, PredictionsOf(greedy));
    PredictionsSize(greedy);
  }

  lemma CoverSize(pairs: set<Pair>, slots: set<Slot>, predictions: set<int>)
    requires OneToOne(pairs)
    requires forall a <- pairs :: a.slot in slots || a.prediction in predictions
    ensures |pairs| <= |slots| + |predictions|
  {
    var bySlot := set a <- pairs | a.slot in slots;
    var byPrediction := pairs - bySlot;
    InjectionSize(bySlot, slots, (a: Pair) => a.slot);
    InjectionSize(byPrediction, predictions, (a: Pair) => a.prediction);
    assert pairs == bySlot + byPrediction;
  }

  lemma {:induction false} PredictionsSize(pairs: set<Pair>)
    ensures |PredictionsOf(pairs)| <= |pairs|
  {
    if pairs != {} {
      var a :| a in pairs;
      PredictionsSize(pairs - {a});
      assert PredictionsOf(pairs) <= PredictionsOf(pairs - {a}) + {a.prediction};
      SubsetSize(PredictionsOf(pairs), PredictionsOf(pairs - {a}) + {a.prediction});
    }
  }

  lemma {:induction false} InjectionSize<A, B>(s: set<A>, t: set<B>, f: A -> B)
    requires forall a <- s :: f(a) in t
    requires forall a, b :: a in s && b in s && f(a) == f(b) ==> a == b
    ensures |s| <= |t|
  {
    if s != {} {
      var a :| a in s;
      InjectionSize(s - {a}, t - {f(a)}, f);
    }
  }

  /** `n` overlaps that sum to `sum` average at least `low` and at most 1. */
  ghost predicate AverageWithin(n: nat, low: real, sum: real) {
    n as real * low <= sum <= n as real
  }

  /** The matched overlap averages at least the threshold over the true positives, and at most 1. */
  lemma {:induction false} MatchedOverlap(truths: Truths, threshold: real, ps: seq<Box>)
    ensures AverageWithin(Run(truths, threshold, ps).tp, threshold, Run(truths, threshold, ps).iouSum)
  {
    hide IntersectionOverUnion, Claim, AverageWithin;
    if ps == [] {
      NothingMatched(threshold);
    } else {
      var before, p := Run(truths, threshold, ps[..|ps| - 1]), ps[|ps| - 1];
      MatchedOverlap(truths, threshold, ps[..|ps| - 1]);
      var claim := Claim(truths, threshold, before.taken, p);
      ClaimIsFair(truths, threshold, before.taken, p);
      if claim.Some? {
        OverlapBounds(p, truths[p.sampleId][claim.value]);
        Accumulate(before.tp, threshold, before.iouSum, IntersectionOverUnion(p, truths[p.sampleId][claim.value]));
      }
    }
  }

  lemma NothingMatched(low: real)
    ensures AverageWithin(0, low, 0.0)
  {
  }

  lemma Accumulate(n: nat, low: real, sum: real, x: real)
    requires AverageWithin(n, low, sum) && low <= x <= 1.0
    ensures AverageWithin(n + 1, low, sum + x)
  {
    var k := n as real;
    assert (k + 1.0) * low == k * low + low;
  }

  // ---------- falling thresholds

  /** The best free truth stays the best one when it survives in a smaller set of free truths. */
  lemma BestSurvives(p: Box, boxes: seq<Box>, more: seq<bool>, fewer: seq<bool>)
    requires |more| == |fewer| == |boxes|
    requires forall i :: 0 <= i < |boxes| && fewer[i] ==> more[i]
    requires Best(p, boxes, fewer).Some? && !more[Best(p, boxes, fewer).value]
    ensures Best(p, boxes, more) == Best(p, boxes, fewer)
  {
    hide IntersectionOverUnion;
    BestIsFirstMaximum(p, boxes, fewer);
    BestIsFirstMaximum(p, boxes, more);
    var i := Best(p, boxes, fewer).value;
    assert Eligible(p, boxes, more, i);
    var j := Best(p, boxes, more).value;
    assert Eligible(p, boxes, fewer, j);
  }

  /** After the same predictions, the lower threshold has claimed every truth the higher one has. */
  lemma {:induction false} LowerThresholdTakesMore(truths: Truths, low: real, high: real, ps: seq<Box>)
    requires low <= high
    ensures Taken(truths, Run(truths, high, ps).taken) <= Taken(truths, Run(truths, low, ps).taken)
    ensures Run(truths, high, ps).tp <= Run(truths, low, ps).tp
  {
    if ps != [] {
      var init, p := ps[..|ps| - 1], ps[|ps| - 1];
      LowerThresholdTakesMore(truths, low, high, init);
      var l, h := Run(truths, low, init), Run(truths, high, init);
      StepTakes(truths, low, l, p);
      StepTakes(truths, high, h, p);
      StepKeepsOrder(truths, low, high, l.taken, h.taken, p);
    }
    Counting(truths, low, ps);
    Counting(truths, high, ps);
    SubsetSize(Taken(truths, Run(truths, high, ps).taken), Taken(truths, Run(truths, low, ps).taken));
  }

  lemma StepKeepsOrder(truths: Truths, low: real, high: real, more: Flags, fewer: Flags, p: Box)
    requires low <= high && Fits(truths, more) && Fits(truths, fewer)
    requires Taken(truths, fewer) <= Taken(truths, more)
    ensures var claim := Claim(truths, high, fewer, p);
      claim.Some? ==>
        || (p.sampleId, claim.value) in Taken(truths, more)
        || Claim(truths, low, more, p) == claim
  {
    var claim := Claim(truths, high, fewer, p);
    if claim.Some? && (p.sampleId, claim.value) !in Taken(truths, more) {
      var boxes, m, f := truths[p.sampleId], more[p.sampleId], fewer[p.sampleId];
      assert (p.sampleId, claim.value) in Slots(truths);
      forall i | 0 <= i < |boxes| && f[i] ensures m[i] {
        assert (p.sampleId, i) in Taken(truths, fewer);
      }
      BestSurvives(p, boxes, m, f);
    }
  }

  lemma SubsetSize<T>(s: set<T>, t: set<T>)
    requires s <= t
    ensures |s| <= |t|
  {
    InjectionSize(s, t, (x: T) => x);
  }
}
