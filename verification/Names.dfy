/** Decimal numerals and the tensor names the Split rewriter generates from them. */
module Names {

  function Digit(d: nat): char
    requires d < 10
  {
    ['0', '1', '2', '3', '4', '5', '6', '7', '8', '9'][d]
  }

  predicate IsDigit(c: char) {
    '0' <= c <= '9'
  }

  /** Python's `str(n)`. */
  function Decimal(n: nat): (s: string) {
    if n < 10 then [Digit(n)] else Decimal(n / 10) + [Digit(n % 10)]
  }

  function DigitValue(c: char): nat
    requires IsDigit(c)
  {
    (c - '0') as int
  }

  predicate AllDigits(s: string) {
    forall i :: 0 <= i < |s| ==> IsDigit(s[i])
  }

  /** Python's `int(s)` on digits. */
  function DecimalValue(s: string): nat
    requires AllDigits(s)
  {
    if s == [] then 0 else DecimalValue(s[..|s| - 1]) * 10 + DigitValue(s[|s| - 1])
  }

  /** Reading a printed number gives it back; only zero starts with the digit 0. */
  lemma {:induction false} DecimalRoundTrip(n: nat)
    ensures AllDigits(Decimal(n)) && DecimalValue(Decimal(n)) == n
    ensures Decimal(n) != [] && (Decimal(n)[0] == '0' <==> n == 0)
  {
    if n >= 10 {
      DecimalRoundTrip(n / 10);
      assert Decimal(n)[..|Decimal(n)| - 1] == Decimal(n / 10);
    } else {
      assert Decimal(n)[..0] == [];
    }
  }

  lemma DecimalStep(n: nat, d: nat)
    requires n > 0 && d < 10
    ensures Decimal(n * 10 + d) == Decimal(n) + [Digit(d)]
  {
    assert (n * 10 + d) / 10 == n && (n * 10 + d) % 10 == d;
  }

  lemma OneDigit(s: string)
    requires |s| == 1 && AllDigits(s)
    ensures Decimal(DecimalValue(s)) == s
  {
    var d := DigitValue(s[0]);
    assert s[..0] == [] && DecimalValue(s) == d;
    assert Digit(d) == s[0];
  }

  /** Every run of digits without a leading zero is the printed form of its value. */
  lemma {:induction false} DecimalOnto(s: string)
    requires s != [] && AllDigits(s) && (s[0] == '0' ==> s == "0")
    ensures Decimal(DecimalValue(s)) == s
  {
    hide Decimal;
    if |s| == 1 {
      OneDigit(s);
    } else {
      var init, d := s[..|s| - 1], DigitValue(s[|s| - 1]);
      assert Digit(d) == s[|s| - 1];
      DecimalOnto(init);
      LeadingDigit(init);
      DecimalStep(DecimalValue(init), d);
      assert s == init + [s[|s| - 1]];
    }
  }

  lemma {:induction false} LeadingDigit(s: string)
    requires s != [] && AllDigits(s) && s[0] != '0'
    ensures DecimalValue(s) > 0
  {
    if |s| > 1 { LeadingDigit(s[..|s| - 1]); }
  }

  function PowerOfTen(n: nat): nat {
    if n == 0 then 1 else 10 * PowerOfTen(n - 1)
  }

  /** Every digit counts by its place: the digit itself at the end, ten times as much one place before. */
  lemma {:induction false} DecimalPlaces(front: string, back: string)
    requires AllDigits(front + back)
    ensures AllDigits(front) && AllDigits(back)
    ensures DecimalValue(front + back) == DecimalValue(front) * PowerOfTen(|back|) + DecimalValue(back)
    ensures |back| == 1 ==> DecimalValue(back) == back[0] as int - '0' as int
    decreases |back|
  {
    var all := front + back;
    assert (forall i | 0 <= i < |front| :: front[i] == all[i])
        && (forall i | 0 <= i < |back| :: back[i] == all[|front| + i]);
    if back == "" {
      assert all == front;
    } else {
      var init, last := back[..|back| - 1], |back| - 1;
      assert all[..|all| - 1] == front + init;
      DecimalPlaces(front, init);
      TenTimes(DecimalValue(front), PowerOfTen(last), DecimalValue(init), DigitValue(back[last]));
    }
  }

  lemma TenTimes(front: nat, power: nat, rest: nat, digit: nat)
    ensures (front * power + rest) * 10 + digit == front * (10 * power) + (rest * 10 + digit)
  {
  }

  /** A text with its first separator marked is read in one way only. */
  lemma {:induction false} SplitAtFirst(a: string, x: string, b: string, y: string, sep: char)
    requires sep !in a && sep !in b && a + [sep] + x == b + [sep] + y
    ensures a == b && x == y
  {
    var s := a + [sep] + x;
    assert s[|a|] == sep && s[|b|] == sep;
    assert (forall i | 0 <= i < |a| :: s[i] == a[i]) && (forall i | 0 <= i < |b| :: s[i] == b[i]);
    assert s[..|a|] == a && s[..|b|] == b;
    assert s[|a| + 1..] == x && s[|b| + 1..] == y;
  }

  // ---------- generated names

  datatype Suffix = Starts | Ends | Axes | Steps

  function SuffixText(s: Suffix): string {
    match s
    case Starts => "starts"
    case Ends => "ends"
    case Axes => "axes"
    case Steps => "steps"
  }

  const PREFIX := "visionforge_nnapi_split_"

  /** `visionforge_nnapi_split_{node}_{output}_{suffix}`. */
  function GeneratedName(node: nat, output: nat, suffix: Suffix): string {
    PREFIX + (Decimal(node) + ['_'] + (Decimal(output) + ['_'] + SuffixText(suffix)))
  }

  predicate IsGenerated(name: string) {
    PREFIX <= name
  }

  /** No two generated tensors share a name. */
  lemma GeneratedNamesDiffer(n1: nat, o1: nat, s1: Suffix, n2: nat, o2: nat, s2: Suffix)
    requires GeneratedName(n1, o1, s1) == GeneratedName(n2, o2, s2)
    ensures (n1, o1, s1) == (n2, o2, s2)
  {
    var r1, r2 := Decimal(o1) + ['_'] + SuffixText(s1), Decimal(o2) + ['_'] + SuffixText(s2);
    NoSeparator(n1);
    NoSeparator(n2);
    NoSeparator(o1);
    NoSeparator(o2);
    assert GeneratedName(n1, o1, s1)[|PREFIX|..] == Decimal(n1) + ['_'] + r1;
    assert GeneratedName(n2, o2, s2)[|PREFIX|..] == Decimal(n2) + ['_'] + r2;
    SplitAtFirst(Decimal(n1), r1, Decimal(n2), r2, '_');
    SplitAtFirst(Decimal(o1), SuffixText(s1), Decimal(o2), SuffixText(s2), '_');
    SuffixTextsDiffer(s1, s2);
    DecimalRoundTrip(n1);
    DecimalRoundTrip(n2);
    DecimalRoundTrip(o1);
    DecimalRoundTrip(o2);
  }

  lemma NoSeparator(n: nat)
    ensures '_' !in Decimal(n)
  {
    DecimalRoundTrip(n);
  }

  lemma SuffixTextsDiffer(a: Suffix, b: Suffix)
    requires SuffixText(a) == SuffixText(b)
    ensures a == b
  {
    assert SuffixText(a)[0] == SuffixText(b)[0];
    assert |SuffixText(a)| == |SuffixText(b)|;
    assert SuffixText(a)[1] == SuffixText(b)[1];
  }
}
