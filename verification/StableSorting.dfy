/** Python's `sorted`: an ordered rearrangement that keeps the input order of equivalent elements.
    `StableSort` is a reference implementation; `StableSortUnique` shows that no other result
    could meet the same description, so nothing below depends on how `sorted` works. */
module StableSorting {

  ghost predicate TotalPreorder<T(!new)>(le: (T, T) -> bool) {
    && (forall x, y :: le(x, y) || le(y, x))
    && (forall x, y, z :: le(x, y) && le(y, z) ==> le(x, z))
  }

  ghost predicate Ordered<T>(xs: seq<T>, le: (T, T) -> bool) {
    forall i, j :: 0 <= i < j < |xs| ==> le(xs[i], xs[j])
  }

  function Filter<T>(xs: seq<T>, keep: T -> bool): (ys: seq<T>)
    ensures |ys| <= |xs|
  {
    if xs == [] then []
    else
      var rest := Filter(xs[..|xs| - 1], keep);
      if keep(xs[|xs| - 1]) then rest + [xs[|xs| - 1]] else rest
  }

  function Equivalent<T>(le: (T, T) -> bool, z: T): T -> bool {
    x => le(x, z) && le(z, x)
  }

  /** `ys` is ordered and holds, for every key, exactly the elements of `xs` with that key in their order there. */
  ghost predicate IsStableSort<T(!new)>(xs: seq<T>, ys: seq<T>, le: (T, T) -> bool) {
    && Ordered(ys, le)
    && forall z :: Filter(ys, Equivalent(le, z)) == Filter(xs, Equivalent(le, z))
  }

  /** Puts `x` behind every element that may precede it. */
  function Insert<T>(ys: seq<T>, x: T, le: (T, T) -> bool): seq<T> {
    if ys == [] || le(ys[|ys| - 1], x) then ys + [x]
    else Insert(ys[..|ys| - 1], x, le) + [ys[|ys| - 1]]
  }

  function StableSort<T>(xs: seq<T>, le: (T, T) -> bool): seq<T> {
    if xs == [] then [] else Insert(StableSort(xs[..|xs| - 1], le), xs[|xs| - 1], le)
  }

  lemma {:induction false} FilterMembers<T>(xs: seq<T>, keep: T -> bool)
    ensures forall y | y in Filter(xs, keep) :: y in xs && keep(y)
    ensures forall y | y in xs && keep(y) :: y in Filter(xs, keep)
  {
    if xs != [] {
      FilterMembers(xs[..|xs| - 1], keep);
      assert xs == xs[..|xs| - 1] + [xs[|xs| - 1]];
    }
  }

  lemma {:induction false} FilterAppend<T>(xs: seq<T>, ys: seq<T>, keep: T -> bool)
    ensures Filter(xs + ys, keep) == Filter(xs, keep) + Filter(ys, keep)
  {
    if ys == [] {
      assert xs + ys == xs;
    } else {
      assert (xs + ys)[..|xs + ys| - 1] == xs + ys[..|ys| - 1];
      FilterAppend(xs, ys[..|ys| - 1], keep);
    }
  }

  lemma {:induction false} FilterFilter<T>(xs: seq<T>, p: T -> bool, q: T -> bool)
    ensures Filter(Filter(xs, p), q) == Filter(Filter(xs, q), p)
  {
    if xs != [] {
      var init, last := xs[..|xs| - 1], xs[|xs| - 1];
      FilterFilter(init, p, q);
      FilterAppend(Filter(init, p), [last], q);
      FilterAppend(Filter(init, q), [last], p);
    }
  }

  lemma {:induction false} FilterAll<T>(xs: seq<T>, keep: T -> bool)
    requires forall x <- xs :: keep(x)
    ensures Filter(xs, keep) == xs
  {
    if xs != [] { FilterAll(xs[..|xs| - 1], keep); }
  }

  lemma {:induction false} FilterOrdered<T>(xs: seq<T>, keep: T -> bool, le: (T, T) -> bool)
    requires Ordered(xs, le)
    ensures Ordered(Filter(xs, keep), le)
  {
    if xs != [] {
      var init := xs[..|xs| - 1];
      FilterOrdered(init, keep, le);
      FilterMembers(init, keep);
      forall y | y in Filter(init, keep) ensures le(y, xs[|xs| - 1]) {
        assert y in init;
        var i :| 0 <= i < |init| && init[i] == y;
        assert le(xs[i], xs[|xs| - 1]);
      }
      assert forall i | 0 <= i < |Filter(init, keep)| :: Filter(init, keep)[i] in Filter(init, keep);
    }
  }

  lemma {:induction false} InsertOrdered<T(!new)>(ys: seq<T>, x: T, le: (T, T) -> bool)
    requires TotalPreorder(le) && Ordered(ys, le)
    ensures Ordered(Insert(ys, x, le), le)
    ensures forall y :: y in Insert(ys, x, le) <==> y in ys || y == x
  {
    if ys != [] {
      var init, last := ys[..|ys| - 1], ys[|ys| - 1];
      assert ys == init + [last];
      if !le(last, x) {
        InsertOrdered(init, x, le);
        assert forall y <- Insert(init, x, le) :: le(y, last);
      } else {
        assert forall y <- ys :: le(y, x);
      }
    }
  }

  lemma {:induction false} InsertKeepsKeys<T(!new)>(ys: seq<T>, x: T, le: (T, T) -> bool, z: T)
    requires TotalPreorder(le) && Ordered(ys, le)
    ensures Filter(Insert(ys, x, le), Equivalent(le, z)) == Filter(ys + [x], Equivalent(le, z))
  {
    if ys != [] && !le(ys[|ys| - 1], x) {
      var init, last, keep := ys[..|ys| - 1], ys[|ys| - 1], Equivalent(le, z);
      assert ys == init + [last];
      InsertKeepsKeys(init, x, le, z);
      FilterAppend(Insert(init, x, le), [last], keep);
      FilterAppend(init, [x], keep);
      FilterAppend(init, [last], keep);
      FilterAppend(ys, [x], keep);
    }
  }

  lemma {:induction false} StableSortOrdered<T(!new)>(xs: seq<T>, le: (T, T) -> bool)
    requires TotalPreorder(le)
    ensures Ordered(StableSort(xs, le), le)
  {
    if xs != [] {
      StableSortOrdered(xs[..|xs| - 1], le);
      InsertOrdered(StableSort(xs[..|xs| - 1], le), xs[|xs| - 1], le);
    }
  }

  lemma {:induction false} StableSortKeepsKeys<T(!new)>(xs: seq<T>, le: (T, T) -> bool, z: T)
    requires TotalPreorder(le)
    ensures Filter(StableSort(xs, le), Equivalent(le, z)) == Filter(xs, Equivalent(le, z))
  {
    if xs != [] {
      var init, last := xs[..|xs| - 1], xs[|xs| - 1];
      StableSortKeepsKeys(init, le, z);
      var ys := StableSort(init, le);
      StableSortOrdered(init, le);
      InsertKeepsKeys(ys, last, le, z);
      FilterAppend(ys, [last], Equivalent(le, z));
    }
  }

  lemma {:induction false} StableSortLength<T>(xs: seq<T>, le: (T, T) -> bool)
    ensures |StableSort(xs, le)| == |xs|
  {
    if xs != [] {
      StableSortLength(xs[..|xs| - 1], le);
      InsertLength(StableSort(xs[..|xs| - 1], le), xs[|xs| - 1], le);
    }
  }

  /** The reference implementation is a stable sort. */
  lemma StableSortSorts<T(!new)>(xs: seq<T>, ys: seq<T>, le: (T, T) -> bool)
    requires TotalPreorder(le) && ys == StableSort(xs, le)
    ensures IsStableSort(xs, ys, le)
  {
    StableSortOrdered(xs, le);
    forall z ensures Filter(ys, Equivalent(le, z)) == Filter(xs, Equivalent(le, z)) {
      StableSortKeepsKeys(xs, le, z);
    }
  }

  lemma {:induction false} InsertLength<T>(ys: seq<T>, x: T, le: (T, T) -> bool)
    ensures |Insert(ys, x, le)| == |ys| + 1
  {
    if ys != [] { InsertLength(ys[..|ys| - 1], x, le); }
  }

  /** The members of a stable sort are those of its input. */
  lemma StableSortMembers<T(!new)>(xs: seq<T>, ys: seq<T>, le: (T, T) -> bool, x: T)
    requires TotalPreorder(le) && IsStableSort(xs, ys, le)
    ensures x in xs <==> x in ys
  {
    var keep := Equivalent(le, x);
    assert le(x, x) && Filter(ys, keep) == Filter(xs, keep);
    FilterMembers(xs, keep);
    FilterMembers(ys, keep);
  }

  /** The description determines the result: two stable sorts of one input are equal. */
  lemma StableSortUnique<T(!new)>(xs: seq<T>, ys: seq<T>, zs: seq<T>, le: (T, T) -> bool)
    requires TotalPreorder(le)
    requires IsStableSort(xs, ys, le) && IsStableSort(xs, zs, le)
    ensures ys == zs
  {
    SameKeysSameOrder(ys, zs, le);
  }

  ghost predicate SameKeys<T(!new)>(ys: seq<T>, zs: seq<T>, le: (T, T) -> bool) {
    forall z :: Filter(ys, Equivalent(le, z)) == Filter(zs, Equivalent(le, z))
  }

  lemma {:induction false} SameKeysSameOrder<T(!new)>(ys: seq<T>, zs: seq<T>, le: (T, T) -> bool)
    requires TotalPreorder(le) && Ordered(ys, le) && Ordered(zs, le) && SameKeys(ys, zs, le)
    ensures ys == zs
    decreases |ys|
  {
    if ys == [] {
      if zs != [] {
        FirstKept(zs, le);
      }
    } else {
      LastEquivalent(ys, zs, le);
      var ys', zs', y := ys[..|ys| - 1], zs[..|zs| - 1], ys[|ys| - 1];
      var keep := Equivalent(le, y);
      assert Filter(ys, keep) == Filter(ys', keep) + [y];
      assert Filter(zs, keep) == Filter(zs', keep) + [zs[|zs| - 1]];
      assert Filter(ys, keep)[|Filter(ys, keep)| - 1] == Filter(zs, keep)[|Filter(zs, keep)| - 1];
      assert zs[|zs| - 1] == y;
      InitsAgree(ys, zs, le);
      SameKeysSameOrder(ys', zs', le);
    }
  }

  lemma FirstKept<T(!new)>(zs: seq<T>, le: (T, T) -> bool)
    requires TotalPreorder(le) && zs != []
    ensures Filter(zs, Equivalent(le, zs[0])) != []
  {
    FilterMembers(zs, Equivalent(le, zs[0]));
    assert zs[0] in zs && Equivalent(le, zs[0])(zs[0]);
  }

  lemma InitsAgree<T(!new)>(ys: seq<T>, zs: seq<T>, le: (T, T) -> bool)
    requires ys != [] && zs != [] && ys[|ys| - 1] == zs[|zs| - 1] && SameKeys(ys, zs, le)
    ensures SameKeys(ys[..|ys| - 1], zs[..|zs| - 1], le)
  {
    var ys', zs', y := ys[..|ys| - 1], zs[..|zs| - 1], ys[|ys| - 1];
    forall z ensures Filter(ys', Equivalent(le, z)) == Filter(zs', Equivalent(le, z)) {
      var keep := Equivalent(le, z);
      assert Filter(ys, keep) == Filter(zs, keep);
      if keep(y) {
        var fy, fz := Filter(ys', keep), Filter(zs', keep);
        assert fy + [y] == fz + [y];
        assert fy == (fy + [y])[..|fy|] && fz == (fz + [y])[..|fz|];
      }
    }
  }

  lemma LastEquivalent<T(!new)>(ys: seq<T>, zs: seq<T>, le: (T, T) -> bool)
    requires TotalPreorder(le)
    requires Ordered(ys, le) && Ordered(zs, le) && ys != [] && SameKeys(ys, zs, le)
    ensures zs != [] && Equivalent(le, ys[|ys| - 1])(zs[|zs| - 1])
  {
    var y := ys[|ys| - 1];
    assert le(y, y) && Filter(ys, Equivalent(le, y)) == Filter(zs, Equivalent(le, y));
    FilterMembers(ys, Equivalent(le, y));
    FilterMembers(zs, Equivalent(le, y));
    assert y in zs;
    var z := zs[|zs| - 1];
    assert le(z, z) && Filter(ys, Equivalent(le, z)) == Filter(zs, Equivalent(le, z));
    FilterMembers(ys, Equivalent(le, z));
    FilterMembers(zs, Equivalent(le, z));
    assert z in ys;
    assert le(y, z) by { var i :| 0 <= i < |zs| && zs[i] == y; }
    assert le(z, y) by { var i :| 0 <= i < |ys| && ys[i] == z; }
  }

  /** Filtering before sorting and filtering after sorting give the same sequence. */
  lemma FilterSortCommute<T(!new)>(xs: seq<T>, keep: T -> bool, le: (T, T) -> bool)
    requires TotalPreorder(le)
    ensures StableSort(Filter(xs, keep), le) == Filter(StableSort(xs, le), keep)
  {
    var ys, zs := StableSort(Filter(xs, keep), le), Filter(StableSort(xs, le), keep);
    StableSortSorts(xs, StableSort(xs, le), le);
    StableSortSorts(Filter(xs, keep), StableSort(Filter(xs, keep), le), le);
    FilterOrdered(StableSort(xs, le), keep, le);
    forall z ensures Filter(ys, Equivalent(le, z)) == Filter(zs, Equivalent(le, z)) {
      FilterFilter(StableSort(xs, le), keep, Equivalent(le, z));
      FilterFilter(xs, keep, Equivalent(le, z));
      assert Filter(StableSort(xs, le), Equivalent(le, z)) == Filter(xs, Equivalent(le, z));
    }
    SameKeysSameOrder(ys, zs, le);
  }

  /** A condition that only the front of the order can meet keeps a prefix. */
  lemma {:induction false} FilterPrefix<T>(xs: seq<T>, keep: T -> bool)
    requires forall i, j :: 0 <= i < j < |xs| && keep(xs[j]) ==> keep(xs[i])
    ensures Filter(xs, keep) <= xs
  {
    if xs != [] {
      var init, last := xs[..|xs| - 1], xs[|xs| - 1];
      FilterPrefix(init, keep);
      if keep(last) { FilterAll(init, keep); }
    }
  }

  /** Distinct keys leave one possible order, so rearranging the input does not change the result. */
  lemma SortIgnoresOrder<T(!new)>(xs: seq<T>, ys: seq<T>, le: (T, T) -> bool)
    requires TotalPreorder(le) && multiset(xs) == multiset(ys)
    requires forall x, y :: x in xs && y in xs && le(x, y) && le(y, x) ==> x == y
    ensures StableSort(xs, le) == StableSort(ys, le)
  {
    StableSortSorts(xs, StableSort(xs, le), le);
    StableSortSorts(ys, StableSort(ys, le), le);
    forall z ensures Filter(xs, Equivalent(le, z)) == Filter(ys, Equivalent(le, z)) {
      SameKeySame(xs, ys, z, le);
    }
    SameKeysSameOrder(StableSort(xs, le), StableSort(ys, le), le);
  }

  lemma SameKeySame<T(!new)>(xs: seq<T>, ys: seq<T>, z: T, le: (T, T) -> bool)
    requires TotalPreorder(le) && multiset(xs) == multiset(ys)
    requires forall x, y :: x in xs && y in xs && le(x, y) && le(y, x) ==> x == y
    ensures Filter(xs, Equivalent(le, z)) == Filter(ys, Equivalent(le, z))
  {
    FilterCount(xs, Equivalent(le, z));
    FilterCount(ys, Equivalent(le, z));
    OneKeyOneValue(xs, z, le);
    OneValueOneOrder(Filter(xs, Equivalent(le, z)), Filter(ys, Equivalent(le, z)));
  }

  ghost predicate OneValue<T>(xs: seq<T>) {
    forall i, j :: 0 <= i < |xs| && 0 <= j < |xs| ==> xs[i] == xs[j]
  }

  lemma OneKeyOneValue<T(!new)>(xs: seq<T>, z: T, le: (T, T) -> bool)
    requires TotalPreorder(le)
    requires forall x, y :: x in xs && y in xs && le(x, y) && le(y, x) ==> x == y
    ensures OneValue(Filter(xs, Equivalent(le, z)))
  {
    var fx := Filter(xs, Equivalent(le, z));
    FilterMembers(xs, Equivalent(le, z));
    forall i, j | 0 <= i < |fx| && 0 <= j < |fx| ensures fx[i] == fx[j] {
      var x, y := fx[i], fx[j];
      assert Equivalent(le, z)(x) && x in xs;
      assert Equivalent(le, z)(y) && y in xs;
      assert le(x, y) && le(y, x);
    }
  }

  lemma OneValueOneOrder<T>(xs: seq<T>, ys: seq<T>)
    requires multiset(xs) == multiset(ys)
    requires OneValue(xs)
    ensures xs == ys
  {
    assert |xs| == |multiset(xs)| == |multiset(ys)| == |ys|;
    forall i | 0 <= i < |xs| ensures xs[i] == ys[i] {
      assert ys[i] in multiset(ys);
      assert ys[i] in multiset(xs);
    }
  }

  lemma {:induction false} FilterCount<T>(xs: seq<T>, keep: T -> bool)
    ensures forall x :: multiset(Filter(xs, keep))[x] == if keep(x) then multiset(xs)[x] else 0
  {
    if xs != [] {
      FilterCount(xs[..|xs| - 1], keep);
      assert xs == xs[..|xs| - 1] + [xs[|xs| - 1]];
    }
  }
}
