/** What picking the elements that pass a test means, said by their places alone. */
module Picking {
  import opened StableSorting

  predicate Increasing(places: seq<nat>) {
    forall i, j :: 0 <= i < j < |places| ==> places[i] < places[j]
  }

  /** `ys` lists the elements at these places, which are exactly the places of the elements that pass. */
  ghost predicate PickedAt<T>(xs: seq<T>, ys: seq<T>, keep: T -> bool, places: seq<nat>) {
    && Increasing(places) && |places| == |ys|
    && (forall k | 0 <= k < |places| :: places[k] < |xs| && ys[k] == xs[places[k]])
    && (forall i: nat | i < |xs| :: keep(xs[i]) <==> i in places)
  }

  /** The elements that pass, in their order, each as often as it is there. */
  ghost predicate Picked<T>(xs: seq<T>, ys: seq<T>, keep: T -> bool) {
    exists places :: PickedAt(xs, ys, keep, places)
  }

  /** `Filter` picks, and nothing else is a picking. */
  lemma FilterPicks<T>(xs: seq<T>, ys: seq<T>, keep: T -> bool)
    ensures Picked(xs, ys, keep) <==> ys == Filter(xs, keep)
  {
    hide PickedAt, Filter;
    FilterPlaces(xs, keep);
    if Picked(xs, ys, keep) {
      var places :| PickedAt(xs, ys, keep, places);
      PickedIsFilter(xs, ys, keep, places);
    }
  }

  lemma {:induction false} FilterPlaces<T>(xs: seq<T>, keep: T -> bool)
    ensures Picked(xs, Filter(xs, keep), keep)
  {
    hide PickedAt;
    if xs == [] {
      assert PickedAt(xs, [], keep, []) by { NothingPicked(xs, keep); }
    } else {
      var last := |xs| - 1;
      FilterPlaces(xs[..last], keep);
      var places :| PickedAt(xs[..last], Filter(xs[..last], keep), keep, places);
      OnePickedMore(xs, Filter(xs[..last], keep), keep, places);
    }
  }

  lemma NothingPicked<T>(xs: seq<T>, keep: T -> bool)
    requires xs == []
    ensures PickedAt(xs, [], keep, [])
  {
  }

  lemma OnePickedMore<T>(xs: seq<T>, ys: seq<T>, keep: T -> bool, places: seq<nat>)
    requires xs != [] && PickedAt(xs[..|xs| - 1], ys, keep, places)
    ensures var last := |xs| - 1;
      if keep(xs[last]) then PickedAt(xs, ys + [xs[last]], keep, places + [last]) else PickedAt(xs, ys, keep, places)
  {
    var last := |xs| - 1;
    assert forall k | 0 <= k < |places| :: xs[..last][places[k]] == xs[places[k]];
    assert forall i: nat | i < last :: xs[..last][i] == xs[i];
    if keep(xs[last]) {
      var more := places + [last];
      assert forall i :: i in more <==> i in places || i == last;
    }
  }

  lemma {:induction false} PickedIsFilter<T>(xs: seq<T>, ys: seq<T>, keep: T -> bool, places: seq<nat>)
    requires PickedAt(xs, ys, keep, places)
    ensures ys == Filter(xs, keep)
  {
    hide PickedAt;
    if xs != [] {
      OnePickedLess(xs, ys, keep, places);
      var last := |xs| - 1;
      if keep(xs[last]) {
        var k := |places| - 1;
        PickedIsFilter(xs[..last], ys[..k], keep, places[..k]);
      } else {
        PickedIsFilter(xs[..last], ys, keep, places);
      }
    } else {
      NoPlaces(xs, ys, keep, places);
    }
  }

  lemma NoPlaces<T>(xs: seq<T>, ys: seq<T>, keep: T -> bool, places: seq<nat>)
    requires PickedAt(xs, ys, keep, places)
    ensures ys != [] ==> xs != []
  {
    if ys != [] { assert places[0] < |xs|; }
  }

  lemma OnePickedLess<T>(xs: seq<T>, ys: seq<T>, keep: T -> bool, places: seq<nat>)
    requires xs != [] && PickedAt(xs, ys, keep, places)
    ensures var last, k := |xs| - 1, |places| - 1;
      if keep(xs[last]) then
        k >= 0 && |ys| == k + 1 && ys == ys[..k] + [xs[last]] && PickedAt(xs[..last], ys[..k], keep, places[..k])
      else PickedAt(xs[..last], ys, keep, places)
  {
    if keep(xs[|xs| - 1]) { LastPickedLess(xs, ys, keep, places); } else { LastUnpicked(xs, ys, keep, places); }
  }

  lemma LastPickedLess<T>(xs: seq<T>, ys: seq<T>, keep: T -> bool, places: seq<nat>)
    requires xs != [] && keep(xs[|xs| - 1]) && PickedAt(xs, ys, keep, places)
    ensures var last, k := |xs| - 1, |places| - 1;
      k >= 0 && |ys| == k + 1 && ys == ys[..k] + [xs[last]] && PickedAt(xs[..last], ys[..k], keep, places[..k])
  {
    var last := |xs| - 1;
    var k :| 0 <= k < |places| && places[k] == last;
    LastPlace(xs, ys, keep, places, k);
    FewerPlaces(places, k);
    hide Increasing;
    assert forall i: nat | i < last :: xs[..last][i] == xs[i];
    assert ys == ys[..k] + [xs[last]];
  }

  /** Without the last place the places before it are left. */
  lemma FewerPlaces(places: seq<nat>, k: nat)
    requires Increasing(places) && k == |places| - 1
    ensures Increasing(places[..k])
    ensures forall i: nat :: i in places[..k] <==> i in places && i < places[k]
  {
    forall i: nat | i in places && i < places[k] ensures i in places[..k] {
      var j :| 0 <= j < |places| && places[j] == i;
      assert j < k;
      assert places[..k][j] == i;
    }
    forall i: nat | i in places[..k] ensures i in places && i < places[k] {
      var j :| 0 <= j < k && places[..k][j] == i;
      assert places[j] == i;
    }
  }

  lemma LastUnpicked<T>(xs: seq<T>, ys: seq<T>, keep: T -> bool, places: seq<nat>)
    requires xs != [] && !keep(xs[|xs| - 1]) && PickedAt(xs, ys, keep, places)
    ensures PickedAt(xs[..|xs| - 1], ys, keep, places)
  {
    var last := |xs| - 1;
    assert forall i: nat | i < last :: xs[..last][i] == xs[i];
    assert forall k | 0 <= k < |places| :: places[k] != last;
  }

  lemma LastPlace<T>(xs: seq<T>, ys: seq<T>, keep: T -> bool, places: seq<nat>, k: int)
    requires PickedAt(xs, ys, keep, places) && 0 <= k < |places| && places[k] == |xs| - 1
    ensures k == |places| - 1
  {
    assert places[|places| - 1] < |xs|;
  }

  lemma {:induction false} FilterAlike<T>(xs: seq<T>, p: T -> bool, q: T -> bool)
    requires forall x :: p(x) == q(x)
    ensures Filter(xs, p) == Filter(xs, q)
  {
    if xs != [] { FilterAlike(xs[..|xs| - 1], p, q); }
  }
}
