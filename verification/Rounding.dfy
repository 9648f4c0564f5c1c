/** Python's `round(x, 6)` on exact reals: nearest multiple of 10^-6, ties to the even one. */
module Rounding {

  const SCALE: real := 1000000.0

  function RoundHalfEven(y: real): int {
    var below := y.Floor;
    var part := y - below as real;
    if part < 0.5 || (part == 0.5 && below % 2 == 0) then below else below + 1
  }

  function Round6(x: real): real {
    RoundHalfEven(x * SCALE) as real / SCALE
  }

  /** Rounding never inverts an order, keeps the bounds 0 and 1, and leaves a rounded number alone. */
  lemma Round6Monotone(x: real, y: real)
    requires x <= y
    ensures Round6(x) <= Round6(y)
  {
    var a, b := x * SCALE, y * SCALE;
    assert a <= b;
    assert a.Floor <= b.Floor;
    assert RoundHalfEven(a) <= RoundHalfEven(b);
  }

  lemma Round6Idempotent(x: real)
    ensures Round6(Round6(x)) == Round6(x)
  {
    var n := RoundHalfEven(x * SCALE);
    assert Round6(x) * SCALE == n as real;
  }

  lemma Round6Unit(x: real)
    requires 0.0 <= x <= 1.0
    ensures 0.0 <= Round6(x) <= 1.0
  {
    Round6Monotone(0.0, x);
    Round6Monotone(x, 1.0);
  }

  /** Rounding moves a number by at most half a unit of the sixth decimal. */
  lemma Round6Near(x: real)
    ensures -0.5 / SCALE <= Round6(x) - x <= 0.5 / SCALE
  {
    var y := x * SCALE;
    assert -0.5 <= RoundHalfEven(y) as real - y <= 0.5;
    assert x == y / SCALE;
  }

  /** `n` is the whole number nearest to `y`; of two equally near ones, the even one. */
  ghost predicate NearestEven(y: real, n: int) {
    || -0.5 < y - n as real < 0.5
    || ((y - n as real == 0.5 || y - n as real == -0.5) && n % 2 == 0)
  }

  /** Rounding to six digits gives the nearest millionth, and only that. */
  lemma Round6Exactly(x: real, n: int)
    ensures Round6(x) == n as real / 1000000.0 <==> NearestEven(x * 1000000.0, n)
  {
    var y, r := x * 1000000.0, RoundHalfEven(x * 1000000.0);
    assert Round6(x) == r as real / 1000000.0;
    assert r as real / 1000000.0 == n as real / 1000000.0 <==> r == n;
    NearestUnique(y, r, n);
  }

  lemma NearestUnique(y: real, r: int, n: int)
    requires r == RoundHalfEven(y)
    ensures NearestEven(y, r) && (NearestEven(y, n) ==> n == r)
  {
    var part := y - y.Floor as real;
    assert 0.0 <= part < 1.0;
    if NearestEven(y, n) { assert n == y.Floor || n == y.Floor + 1; }
  }
}
