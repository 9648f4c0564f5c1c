/** Splitting text at a separator and putting it together again; relative paths as lists of parts. */
module Paths {

  /** Python's `text.split(sep)` for a one-character separator. */
  function Split(text: string, sep: char): (parts: seq<string>)
    ensures parts != []
    decreases |text|
  {
    if text == [] then [""]
    else
      var init, last := text[..|text| - 1], text[|text| - 1];
      var parts := Split(init, sep);
      if last == sep then parts + [""]
      else AppendToLast(parts, [last])
  }

  function AppendToLast(parts: seq<string>, more: string): (longer: seq<string>)
    requires parts != []
    ensures |longer| == |parts|
  {
    parts[..|parts| - 1] + [parts[|parts| - 1] + more]
  }

  lemma AppendNothing(parts: seq<string>)
    requires parts != []
    ensures AppendToLast(parts, "") == parts
  {
    assert parts[|parts| - 1] + "" == parts[|parts| - 1];
    assert parts == parts[..|parts| - 1] + [parts[|parts| - 1]];
  }

  lemma AppendTwice(parts: seq<string>, a: string, b: string)
    requires parts != []
    ensures AppendToLast(AppendToLast(parts, a), b) == AppendToLast(parts, a + b)
  {
    var once := AppendToLast(parts, a);
    assert once[..|once| - 1] == parts[..|parts| - 1];
    assert parts[|parts| - 1] + a + b == parts[|parts| - 1] + (a + b);
  }

  /** Python's `sep.join(parts)`. */
  function Join(parts: seq<string>, sep: char): string {
    if parts == [] then ""
    else if |parts| == 1 then parts[0]
    else Join(parts[..|parts| - 1], sep) + [sep] + parts[|parts| - 1]
  }

  ghost predicate Without(parts: seq<string>, sep: char) {
    forall i :: 0 <= i < |parts| ==> sep !in parts[i]
  }

  /** Joining the split text gives it back, and no part contains the separator. */
  lemma {:induction false} JoinSplit(text: string, sep: char)
    ensures Join(Split(text, sep), sep) == text
    ensures Without(Split(text, sep), sep)
  {
    hide Split, Join, Without, AppendToLast;
    if text == "" {
      NothingSplit(sep);
    } else {
      var init, last := text[..|text| - 1], text[|text| - 1];
      JoinSplit(init, sep);
      SplitStep(text, sep);
      if last == sep {
        JoinNewPart(Split(init, sep), sep);
      } else {
        JoinLonger(Split(init, sep), last, sep);
      }
      assert text == init + [last];
    }
  }

  lemma NothingSplit(sep: char)
    ensures Split("", sep) == [""] && Join([""], sep) == "" && Without([""], sep)
  {
  }

  lemma SplitStep(text: string, sep: char)
    requires text != ""
    ensures var before, last := Split(text[..|text| - 1], sep), text[|text| - 1];
      Split(text, sep) == if last == sep then before + [""] else AppendToLast(before, [last])
  {
  }

  lemma JoinNewPart(parts: seq<string>, sep: char)
    requires parts != []
    ensures Join(parts + [""], sep) == Join(parts, sep) + [sep]
    ensures Without(parts, sep) ==> Without(parts + [""], sep)
  {
    assert (parts + [""])[..|parts + [""]| - 1] == parts;
  }

  lemma JoinLonger(parts: seq<string>, last: char, sep: char)
    requires parts != [] && last != sep
    ensures Join(AppendToLast(parts, [last]), sep) == Join(parts, sep) + [last]
    ensures Without(parts, sep) ==> Without(AppendToLast(parts, [last]), sep)
  {
    var longer := AppendToLast(parts, [last]);
    assert longer[..|longer| - 1] == parts[..|parts| - 1];
    assert longer[|longer| - 1] == parts[|parts| - 1] + [last];
  }

  /** Splitting joined parts gives them back. */
  lemma {:induction false} SplitJoin(parts: seq<string>, sep: char)
    requires parts != [] && Without(parts, sep)
    ensures Split(Join(parts, sep), sep) == parts
  {
    var rest, last := parts[..|parts| - 1], parts[|parts| - 1];
    assert parts == rest + [last];
    if rest == [] {
      SplitExtend("", last, sep);
      assert "" + last == last;
    } else {
      SplitJoin(rest, sep);
      var text := Join(rest, sep) + [sep];
      assert text[..|text| - 1] == Join(rest, sep);
      SplitExtend(text, last, sep);
      assert (rest + [""])[..|rest|] == rest && "" + last == last;
    }
  }

  /** Text without a separator lengthens the last part. */
  lemma {:induction false} SplitExtend(text: string, more: string, sep: char)
    requires sep !in more
    ensures Split(text + more, sep) == AppendToLast(Split(text, sep), more)
  {
    if more == [] {
      assert text + more == text;
      AppendNothing(Split(text, sep));
    } else {
      var init, last := more[..|more| - 1], more[|more| - 1];
      SplitExtend(text, init, sep);
      assert (text + more)[..|text + more| - 1] == text + init;
      AppendTwice(Split(text, sep), init, [last]);
      assert more == init + [last];
    }
  }

  predicate IsPrefix<T(==)>(a: seq<T>, b: seq<T>) {
    |a| <= |b| && b[..|a|] == a
  }

  // ---------- where the parts lie

  /** Where part `i` begins, every part before it being followed by one separator. */
  function PlaceOf(parts: seq<string>, i: nat): nat
    requires i <= |parts|
  {
    if i == 0 then 0 else PlaceOf(parts, i - 1) + |parts[i - 1]| + 1
  }

  /** Part `i` lies at its place in the text, with a separator before it unless it is the first. */
  predicate LiesAt(text: string, sep: char, parts: seq<string>, i: nat)
    requires i < |parts|
  {
    var place := PlaceOf(parts, i);
    && place + |parts[i]| <= |text| && text[place..place + |parts[i]|] == parts[i]
    && (i > 0 ==> text[place - 1] == sep)
  }

  /** The parts, none with a separator in it, lie in the text one after the other and fill it. */
  ghost predicate CutInto(text: string, sep: char, parts: seq<string>) {
    && parts != [] && Without(parts, sep)
    && |text| + 1 == PlaceOf(parts, |parts|)
    && forall i | 0 <= i < |parts| :: LiesAt(text, sep, parts, i)
  }

  /** Splitting gives exactly the parts that lie between the separators. */
  lemma SplitExactly(text: string, sep: char, parts: seq<string>)
    ensures Split(text, sep) == parts <==> CutInto(text, sep, parts)
  {
    hide Split, Join, Without, LiesAt, PlaceOf;
    JoinSplit(text, sep);
    if Split(text, sep) == parts {
      PartsLieInJoin(parts, sep);
    }
    if CutInto(text, sep, parts) {
      JoinsToPrefix(text, sep, parts, |parts|);
      assert parts[..|parts|] == parts && text[..|text|] == text;
      SplitJoin(parts, sep);
    }
  }

  lemma {:induction false} PartsLieInJoin(parts: seq<string>, sep: char)
    requires parts != []
    ensures |Join(parts, sep)| + 1 == PlaceOf(parts, |parts|)
    ensures forall i | 0 <= i < |parts| :: LiesAt(Join(parts, sep), sep, parts, i)
  {
    var last := |parts| - 1;
    var text, init := Join(parts, sep), parts[..last];
    if last > 0 {
      PartsLieInJoin(init, sep);
      PlaceInPrefix(parts, last, last);
      forall i | 0 <= i < last ensures LiesAt(text, sep, parts, i) {
        PlaceInPrefix(parts, last, i);
        assert LiesAt(Join(init, sep), sep, init, i);
        LiesInLonger(Join(init, sep), text, sep, init, parts, i);
      }
    }
  }

  lemma LiesInLonger(a: string, b: string, sep: char, init: seq<string>, parts: seq<string>, i: nat)
    requires i < |init| <= |parts| && init[i] == parts[i] && PlaceOf(init, i) == PlaceOf(parts, i)
    requires a <= b && LiesAt(a, sep, init, i)
    ensures LiesAt(b, sep, parts, i)
  {
    var place := PlaceOf(parts, i);
    assert b[place..place + |parts[i]|] == a[place..place + |parts[i]|];
  }

  lemma {:induction false} PlaceInPrefix(parts: seq<string>, n: nat, i: nat)
    requires i <= n <= |parts|
    ensures PlaceOf(parts[..n], i) == PlaceOf(parts, i)
  {
    if i > 0 { PlaceInPrefix(parts, n, i - 1); }
  }

  lemma {:induction false} JoinsToPrefix(text: string, sep: char, parts: seq<string>, n: nat)
    requires 0 < n <= |parts| && forall i | 0 <= i < n :: LiesAt(text, sep, parts, i)
    ensures PlaceOf(parts, n) <= |text| + 1 && PlaceOf(parts, n) > 0
    ensures Join(parts[..n], sep) == text[..PlaceOf(parts, n) - 1]
  {
    assert LiesAt(text, sep, parts, n - 1);
    var place := PlaceOf(parts, n - 1);
    if n > 1 {
      JoinsToPrefix(text, sep, parts, n - 1);
      assert parts[..n][..n - 1] == parts[..n - 1];
      assert text[..place - 1] + [sep] + parts[n - 1] == text[..place + |parts[n - 1]|];
    }
  }
}
