/** The run over all classes at once is the independent per-class runs interleaved:
    its totals are their sums, tools/evaluate_yolo_detection_accuracy.py. */
module ClassDecomposition {
  import opened Wrappers
  import opened Geometry
  import opened StableSorting
  import opened GreedyMatching
  import opened MatchingBounds

  /** The flags of the truths that the class filter keeps. */
  function FilterFlags(boxes: seq<Box>, taken: seq<bool>, c: int): (kept: seq<bool>)
    requires |taken| == |boxes|
    ensures |kept| == |Filter(boxes, KeepClass(Some(c)))|
  {
    if boxes == [] then []
    else
      var last := |boxes| - 1;
      var rest := FilterFlags(boxes[..last], taken[..last], c);
      if boxes[last].classId == c then rest + [taken[last]] else rest
  }

  /** Where the truth at index `i` stands after the class filter. */
  function Rank(boxes: seq<Box>, c: int, i: nat): nat
    requires i <= |boxes|
  {
    |Filter(boxes[..i], KeepClass(Some(c)))|
  }

  lemma {:induction false} RankPlaces(boxes: seq<Box>, taken: seq<bool>, c: int, i: nat)
    requires |taken| == |boxes| && i < |boxes| && boxes[i].classId == c
    ensures Rank(boxes, c, i) < |Filter(boxes, KeepClass(Some(c)))|
    ensures Filter(boxes, KeepClass(Some(c)))[Rank(boxes, c, i)] == boxes[i]
    ensures FilterFlags(boxes, taken, c)[Rank(boxes, c, i)] == taken[i]
  {
    var last := |boxes| - 1;
    if i < last {
      assert boxes[..last][..i] == boxes[..i];
      RankPlaces(boxes[..last], taken[..last], c, i);
    }
  }

  /** The last truth of the class is the last kept one. */
  lemma KeptLast(boxes: seq<Box>, taken: seq<bool>, c: int)
    requires |taken| == |boxes| && boxes != []
    ensures var kept, flags := Filter(boxes, KeepClass(Some(c))), FilterFlags(boxes, taken, c);
      var kept', flags' :=
        Filter(boxes[..|boxes| - 1], KeepClass(Some(c))), FilterFlags(boxes[..|boxes| - 1], taken[..|boxes| - 1], c);
      if boxes[|boxes| - 1].classId == c
      then kept == kept' + [boxes[|boxes| - 1]] && flags == flags' + [taken[|boxes| - 1]]
           && kept[..|kept| - 1] == kept' && flags[..|kept| - 1] == flags'
      else kept == kept' && flags == flags'
  {
  }

  /** The scan finds the same truth with and without the class filter, first-of-equals included. */
  lemma {:induction false} BestFiltered(p: Box, boxes: seq<Box>, taken: seq<bool>)
    requires |taken| == |boxes|
    ensures var c := p.classId;
      var all := Best(p, boxes, taken);
      (all.Some? ==> boxes[all.value].classId == c)
      && Best(p, Filter(boxes, KeepClass(Some(c))), FilterFlags(boxes, taken, c))
         == if all.Some? then Some(Rank(boxes, c, all.value)) else None
  {
    hide IntersectionOverUnion, Filter, FilterFlags;
    if boxes != [] {
      var c, last := p.classId, |boxes| - 1;
      var before := Best(p, boxes[..last], taken[..last]);
      BestFiltered(p, boxes[..last], taken[..last]);
      KeptLast(boxes, taken, c);
      if before.Some? {
        RankPlaces(boxes[..last], taken[..last], c, before.value);
        assert boxes[..last][..before.value] == boxes[..before.value];
      }
    } else {
      NothingKept(boxes, taken, p.classId);
    }
  }

  lemma NothingKept(boxes: seq<Box>, taken: seq<bool>, c: int)
    requires |taken| == |boxes| == 0
    ensures Filter(boxes, KeepClass(Some(c))) == [] && FilterFlags(boxes, taken, c) == []
  {
  }

  lemma {:induction false} FlagsAfterClaim(boxes: seq<Box>, taken: seq<bool>, c: int, i: nat)
    requires |taken| == |boxes| && i < |boxes|
    ensures boxes[i].classId != c ==> FilterFlags(boxes, taken[i := true], c) == FilterFlags(boxes, taken, c)
    ensures boxes[i].classId == c ==>
      && Rank(boxes, c, i) < |FilterFlags(boxes, taken, c)|
      && FilterFlags(boxes, taken[i := true], c) == FilterFlags(boxes, taken, c)[Rank(boxes, c, i) := true]
  {
    var last := |boxes| - 1;
    if boxes[i].classId == c { RankPlaces(boxes, taken, c, i); }
    if i < last {
      assert boxes[..last][..i] == boxes[..i];
      assert taken[i := true][..last] == taken[..last][i := true];
      FlagsAfterClaim(boxes[..last], taken[..last], c, i);
    } else {
      assert taken[i := true][..last] == taken[..last];
    }
  }

  function ClassFlags(truths: Truths, taken: Flags, c: int): (flags: Flags)
    requires Fits(truths, taken)
    ensures Fits(FilterTruths(truths, Some(c)), flags)
  {
    map s | s in truths :: FilterFlags(truths[s], taken[s], c)
  }

  datatype Totals = Totals(tp: nat, fp: nat, iouSum: real) {
    function Plus(other: Totals): Totals {
      Totals(tp + other.tp, fp + other.fp, iouSum + other.iouSum)
    }
  }

  function TotalsOf(st: State): Totals { Totals(st.tp, st.fp, st.iouSum) }

  /** What one prediction adds to the totals. */
  function Gain(truths: Truths, threshold: real, taken: Flags, p: Box): Totals
    requires Fits(truths, taken)
  {
    match Claim(truths, threshold, taken, p)
    case Some(i) => Totals(1, 0, IntersectionOverUnion(p, truths[p.sampleId][i]))
    case None => Totals(0, 1, 0.0)
  }

  lemma StepGains(truths: Truths, threshold: real, st: State, p: Box)
    requires Fits(truths, st.taken)
    ensures TotalsOf(Step(truths, threshold, st, p)) == TotalsOf(st).Plus(Gain(truths, threshold, st.taken, p))
  {
  }

  lemma ClaimFiltered(truths: Truths, threshold: real, taken: Flags, p: Box)
    requires Fits(truths, taken)
    ensures var c, claim := p.classId, Claim(truths, threshold, taken, p);
      Claim(FilterTruths(truths, Some(c)), threshold, ClassFlags(truths, taken, c), p)
      == if claim.Some? then Some(Rank(truths[p.sampleId], c, claim.value)) else None
  {
    if p.sampleId in truths {
      var boxes, flags := truths[p.sampleId], taken[p.sampleId];
      BestFiltered(p, boxes, flags);
      var best := Best(p, boxes, flags);
      if best.Some? { RankPlaces(boxes, flags, p.classId, best.value); }
    }
  }

  /** A prediction of class `c` acts on the class-`c` run as on the whole run. */
  lemma StepOfClass(truths: Truths, threshold: real, st: State, own: State, p: Box)
    requires Fits(truths, st.taken) && own.taken == ClassFlags(truths, st.taken, p.classId)
    ensures Step(FilterTruths(truths, Some(p.classId)), threshold, own, p).taken
         == ClassFlags(truths, Step(truths, threshold, st, p).taken, p.classId)
  {
    hide IntersectionOverUnion, Best;
    ClaimFiltered(truths, threshold, st.taken, p);
    ClaimIsFair(truths, threshold, st.taken, p);
    var claim := Claim(truths, threshold, st.taken, p);
    if claim.Some? {
      FlagsAfterClaim(truths[p.sampleId], st.taken[p.sampleId], p.classId, claim.value);
    }
  }

  lemma GainOfClass(truths: Truths, threshold: real, taken: Flags, p: Box)
    requires Fits(truths, taken)
    ensures Gain(FilterTruths(truths, Some(p.classId)), threshold, ClassFlags(truths, taken, p.classId), p)
         == Gain(truths, threshold, taken, p)
  {
    hide IntersectionOverUnion, Best;
    ClaimFiltered(truths, threshold, taken, p);
    var claim := Claim(truths, threshold, taken, p);
    if claim.Some? {
      ClaimIsFair(truths, threshold, taken, p);
      RankPlaces(truths[p.sampleId], taken[p.sampleId], p.classId, claim.value);
    }
  }

  lemma StepOfOtherClass(truths: Truths, threshold: real, st: State, p: Box, c: int)
    requires Fits(truths, st.taken) && c != p.classId
    ensures ClassFlags(truths, Step(truths, threshold, st, p).taken, c) == ClassFlags(truths, st.taken, c)
  {
    hide IntersectionOverUnion, Best;
    ClaimIsFair(truths, threshold, st.taken, p);
    var claim := Claim(truths, threshold, st.taken, p);
    if claim.Some? {
      FlagsAfterClaim(truths[p.sampleId], st.taken[p.sampleId], c, claim.value);
    }
  }

  function ClassRun(truths: Truths, threshold: real, ps: seq<Box>, c: int): State {
    Run(FilterTruths(truths, Some(c)), threshold, Filter(ps, KeepClass(Some(c))))
  }

  lemma {:induction false} NoFlags(boxes: seq<Box>, c: int)
    ensures FilterFlags(boxes, seq(|boxes|, _ => false), c) == seq(|Filter(boxes, KeepClass(Some(c)))|, _ => false)
  {
    if boxes != [] {
      var last := |boxes| - 1;
      assert seq(|boxes|, _ => false)[..last] == seq(last, _ => false);
      NoFlags(boxes[..last], c);
    }
  }

  /** At every point of the whole run, its state restricted to one class is that class's own state. */
  lemma {:induction false} ClassRunFollows(truths: Truths, threshold: real, ps: seq<Box>, c: int)
    ensures ClassRun(truths, threshold, ps, c).taken == ClassFlags(truths, Run(truths, threshold, ps).taken, c)
  {
    if ps == [] {
      forall s | s in truths ensures
        ClassFlags(truths, NoneTaken(truths), c)[s] == NoneTaken(FilterTruths(truths, Some(c)))[s]
      {
        NoFlags(truths[s], c);
      }
    } else {
      var init, p := ps[..|ps| - 1], ps[|ps| - 1];
      ClassRunFollows(truths, threshold, init, c);
      if p.classId == c {
        ClassRunSnoc(truths, threshold, ps);
        StepOfClass(truths, threshold, Run(truths, threshold, init), ClassRun(truths, threshold, init, c), p);
      } else {
        StepOfOtherClass(truths, threshold, Run(truths, threshold, init), p, c);
      }
    }
  }

  lemma ClassRunSnoc(truths: Truths, threshold: real, ps: seq<Box>)
    requires ps != []
    ensures var init, p := ps[..|ps| - 1], ps[|ps| - 1];
      ClassRun(truths, threshold, ps, p.classId)
      == Step(FilterTruths(truths, Some(p.classId)), threshold, ClassRun(truths, threshold, init, p.classId), p)
  {
    var init, p := ps[..|ps| - 1], ps[|ps| - 1];
    var kept := Filter(ps, KeepClass(Some(p.classId)));
    assert kept == Filter(init, KeepClass(Some(p.classId))) + [p];
    assert kept[..|kept| - 1] == Filter(init, KeepClass(Some(p.classId)));
  }

  // ---------- sums over the classes

  ghost predicate Distinct(classes: seq<int>) {
    forall i, j :: 0 <= i < j < |classes| ==> classes[i] != classes[j]
  }

  function SumTotals(truths: Truths, threshold: real, ps: seq<Box>, classes: seq<int>): Totals {
    if classes == [] then Totals(0, 0, 0.0)
    else
      SumTotals(truths, threshold, ps, classes[..|classes| - 1])
        .Plus(TotalsOf(ClassRun(truths, threshold, ps, classes[|classes| - 1])))
  }

  /** One more prediction changes the totals of its own class only, and by what it adds to the whole run. */
  lemma ClassTotalsStep(truths: Truths, threshold: real, ps: seq<Box>, c: int)
    requires ps != []
    ensures var init, p := ps[..|ps| - 1], ps[|ps| - 1];
      TotalsOf(ClassRun(truths, threshold, ps, c))
      == if p.classId == c
         then TotalsOf(ClassRun(truths, threshold, init, c))
              .Plus(Gain(truths, threshold, Run(truths, threshold, init).taken, p))
         else TotalsOf(ClassRun(truths, threshold, init, c))
  {
    var init, p := ps[..|ps| - 1], ps[|ps| - 1];
    if p.classId == c {
      ClassRunFollows(truths, threshold, init, c);
      ClassRunSnoc(truths, threshold, ps);
      StepGains(FilterTruths(truths, Some(c)), threshold, ClassRun(truths, threshold, init, c), p);
      GainOfClass(truths, threshold, Run(truths, threshold, init).taken, p);
    }
  }

  lemma {:induction false} SumAbsorbs(truths: Truths, threshold: real, ps: seq<Box>, classes: seq<int>)
    requires ps != [] && Distinct(classes)
    ensures var init, p := ps[..|ps| - 1], ps[|ps| - 1];
      SumTotals(truths, threshold, ps, classes)
      == if p.classId in classes
         then SumTotals(truths, threshold, init, classes)
              .Plus(Gain(truths, threshold, Run(truths, threshold, init).taken, p))
         else SumTotals(truths, threshold, init, classes)
  {
    if classes != [] {
      var c, rest := classes[|classes| - 1], classes[..|classes| - 1];
      SumAbsorbs(truths, threshold, ps, rest);
      ClassTotalsStep(truths, threshold, ps, c);
      DistinctLast(classes);
      var init, p := ps[..|ps| - 1], ps[|ps| - 1];
      PlusSwaps(SumTotals(truths, threshold, init, rest), TotalsOf(ClassRun(truths, threshold, init, c)),
                Gain(truths, threshold, Run(truths, threshold, init).taken, p));
    }
  }

  lemma PlusSwaps(a: Totals, b: Totals, g: Totals)
    ensures a.Plus(g).Plus(b) == a.Plus(b).Plus(g) == a.Plus(b.Plus(g))
  {
  }

  lemma DistinctLast(classes: seq<int>)
    requires classes != [] && Distinct(classes)
    ensures var c, rest := classes[|classes| - 1], classes[..|classes| - 1];
      Distinct(rest) && c !in rest && forall d :: d in classes <==> d in rest || d == c
  {
    assert classes == classes[..|classes| - 1] + [classes[|classes| - 1]];
  }

  /** True positives, false positives and matched overlap of the whole run are the sums over the classes. */
  lemma {:induction false} WholeRunIsSum(truths: Truths, threshold: real, ps: seq<Box>, classes: seq<int>)
    requires Distinct(classes) && forall p <- ps :: p.classId in classes
    ensures TotalsOf(Run(truths, threshold, ps)) == SumTotals(truths, threshold, ps, classes)
  {
    if ps == [] {
      EmptySums(truths, threshold, classes);
    } else {
      WholeRunIsSum(truths, threshold, ps[..|ps| - 1], classes);
      SumAbsorbs(truths, threshold, ps, classes);
      StepGains(truths, threshold, Run(truths, threshold, ps[..|ps| - 1]), ps[|ps| - 1]);
      assert ps[|ps| - 1] in ps;
    }
  }

  lemma {:induction false} EmptySums(truths: Truths, threshold: real, classes: seq<int>)
    ensures SumTotals(truths, threshold, [], classes) == Totals(0, 0, 0.0)
  {
    if classes != [] { EmptySums(truths, threshold, classes[..|classes| - 1]); }
  }

  // ---------- ground truth by class

  ghost function ClassSlots(truths: Truths, c: int): set<(string, int)> {
    set slot | slot in Slots(truths) && truths[slot.0][slot.1].classId == c
  }

  function SumFn(truths: Truths, threshold: real, ps: seq<Box>, classes: seq<int>): int {
    if classes == [] then 0
    else
      SumFn(truths, threshold, ps, classes[..|classes| - 1])
      + |Free(FilterTruths(truths, Some(classes[|classes| - 1])),
        ClassRun(truths, threshold, ps, classes[|classes| - 1]).taken)|
  }

  ghost function InClasses(truths: Truths, classes: seq<int>): set<(string, int)> {
    set slot | slot in Slots(truths) && truths[slot.0][slot.1].classId in classes
  }

  /** The class filter keeps exactly the truths of its class. */
  lemma FilteredSlots(truths: Truths, c: int)
    ensures |Slots(FilterTruths(truths, Some(c)))| == |ClassSlots(truths, c)|
  {
    var kept, own := Slots(FilterTruths(truths, Some(c))), ClassSlots(truths, c);
    var rank := (slot: (string, int)) =>
      if slot in own then (slot.0, Rank(truths[slot.0], c, slot.1)) else slot;
    forall slot | slot in own ensures rank(slot) in kept {
      RankPlaces(truths[slot.0], seq(|truths[slot.0]|, _ => false), c, slot.1);
    }
    forall a, b | a in own && b in own && rank(a) == rank(b) ensures a == b {
      if a.1 < b.1 { RankGrows(truths[a.0], c, a.1, b.1); }
      if b.1 < a.1 { RankGrows(truths[a.0], c, b.1, a.1); }
    }
    InjectionSize(own, kept, rank);
    var find := (slot: (string, int)) =>
      if slot in kept then (slot.0, Unrank(truths[slot.0], c, slot.1) as int) else slot;
    forall slot | slot in kept ensures find(slot) in own {
      assert truths[slot.0][find(slot).1].classId == c;
    }
    InjectionSize(kept, own, find);
  }

  lemma RankGrows(boxes: seq<Box>, c: int, i: nat, j: nat)
    requires i < j <= |boxes| && boxes[i].classId == c
    ensures Rank(boxes, c, i) < Rank(boxes, c, j)
  {
    RankPlaces(boxes[..j], seq(j, _ => false), c, i);
    assert boxes[..j][..i] == boxes[..i];
  }

  /** The index of the `k`-th kept truth. */
  function Unrank(boxes: seq<Box>, c: int, k: nat): (i: nat)
    requires k < |Filter(boxes, KeepClass(Some(c)))|
    ensures i < |boxes| && boxes[i].classId == c && Rank(boxes, c, i) == k
  {
    var last := |boxes| - 1;
    if k < Rank(boxes, c, last) then
      var i := Unrank(boxes[..last], c, k);
      assert boxes[..last][..i] == boxes[..i];
      i
    else last
  }

  /** Unmatched truths of the whole run, class by class. */
  lemma {:induction false} FreeIsSum(truths: Truths, threshold: real, ps: seq<Box>, classes: seq<int>)
    requires Distinct(classes)
    ensures SumFn(truths, threshold, ps, classes)
      + SumTotals(truths, threshold, ps, classes).tp == |InClasses(truths, classes)|
  {
    if classes == [] {
      assert InClasses(truths, classes) == {};
    } else {
      var c, rest := classes[|classes| - 1], classes[..|classes| - 1];
      DistinctLast(classes);
      FreeIsSum(truths, threshold, ps, rest);
      ClassFree(truths, threshold, ps, c);
      InClassesSplit(truths, classes);
    }
  }

  lemma ClassFree(truths: Truths, threshold: real, ps: seq<Box>, c: int)
    ensures var own, st := FilterTruths(truths, Some(c)), ClassRun(truths, threshold, ps, c);
      |Free(own, st.taken)| + st.tp == |ClassSlots(truths, c)|
  {
    FilteredSlots(truths, c);
    Counting(FilterTruths(truths, Some(c)), threshold, Filter(ps, KeepClass(Some(c))));
    FreePlusTaken(FilterTruths(truths, Some(c)), ClassRun(truths, threshold, ps, c).taken);
  }

  lemma InClassesSplit(truths: Truths, classes: seq<int>)
    requires classes != [] && Distinct(classes)
    ensures |InClasses(truths, classes)|
         == |InClasses(truths, classes[..|classes| - 1])| + |ClassSlots(truths, classes[|classes| - 1])|
  {
    DistinctLast(classes);
    var c, rest := classes[|classes| - 1], classes[..|classes| - 1];
    assert InClasses(truths, classes) == InClasses(truths, rest) + ClassSlots(truths, c);
    assert InClasses(truths, rest) !! ClassSlots(truths, c);
  }

  /** False negatives of the whole run are the sum over the classes. */
  lemma WholeFnIsSum(truths: Truths, threshold: real, ps: seq<Box>, classes: seq<int>)
    requires Distinct(classes) && forall p <- ps :: p.classId in classes
    requires forall slot <- Slots(truths) :: truths[slot.0][slot.1].classId in classes
    ensures |Free(truths, Run(truths, threshold, ps).taken)| == SumFn(truths, threshold, ps, classes)
  {
    FreeIsSum(truths, threshold, ps, classes);
    WholeRunIsSum(truths, threshold, ps, classes);
    Counting(truths, threshold, ps);
    FreePlusTaken(truths, Run(truths, threshold, ps).taken);
    assert InClasses(truths, classes) == Slots(truths);
  }
}
