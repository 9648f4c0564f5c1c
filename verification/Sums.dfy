/** The sum of a list of numbers. */
module Sums {

  function Sum(numbers: seq<int>): int {
    if numbers == [] then 0 else numbers[0] + Sum(numbers[1..])
  }

  lemma {:induction false} SumSplits(numbers: seq<int>, last: int)
    ensures Sum(numbers + [last]) == Sum(numbers) + last
  {
    if numbers == [] {
      assert Sum([last]) == last + Sum([last][1..]);
    } else {
      assert (numbers + [last])[1..] == numbers[1..] + [last];
      SumSplits(numbers[1..], last);
    }
  }

  lemma {:induction false} SumNotNegative(numbers: seq<int>)
    requires forall i | 0 <= i < |numbers| :: numbers[i] >= 0
    ensures Sum(numbers) >= 0
  {
    if numbers != [] { SumNotNegative(numbers[1..]); }
  }
}
