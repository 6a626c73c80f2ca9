// Decimal digit sums of integers: the quantity the ant's built-in
// admissibility rule limits.

module Digits {
  import opened Cells

  /** Sum of the decimal digits of a non-negative number: never more than
      the number, and zero only for zero. */
  function DigitSum(n: nat): (r: nat)
    ensures r <= n
    ensures r == 0 <==> n == 0
  {
    if n == 0 then 0 else n % 10 + DigitSum(n / 10)
  }

  /** The number written by a decimal digit string, least significant digit first. */
  function FromDecimal(ds: seq<nat>): nat
  {
    if ds == [] then 0 else ds[0] + 10 * FromDecimal(ds[1..])
  }

  function Sum(ds: seq<nat>): nat
  {
    if ds == [] then 0 else ds[0] + Sum(ds[1..])
  }

  ghost predicate IsDecimal(ds: seq<nat>)
  {
    forall i :: 0 <= i < |ds| ==> ds[i] < 10
  }

  /** DigitSum sums the digits of any decimal representation of a number
      (leading zeros included): it is the digit sum in the usual sense. */
  lemma {:induction false} DigitSumOfDecimal(ds: seq<nat>)
    requires IsDecimal(ds)
    ensures DigitSum(FromDecimal(ds)) == Sum(ds)
  {
    if ds != [] {
      var m := FromDecimal(ds[1..]);
      assert IsDecimal(ds[1..]);
      DigitSumOfDecimal(ds[1..]);
      DigitStep(ds[0], m);
    }
  }

  /** Appending a low-order digit d to m adds d to the digit sum. */
  lemma DigitStep(d: nat, m: nat)
    requires d < 10
    ensures DigitSum(d + 10 * m) == d + DigitSum(m)
  {
  }

  /** `_sum_digits`: the digit sum of |number|, computed by repeatedly
      taking off the last decimal digit. */
  method SumDigits(number: int) returns (s: nat)
    ensures s == DigitSum(Abs(number))
  {
    var n: nat := Abs(number);
    s := 0;
    while n != 0
      invariant s + DigitSum(n) == DigitSum(Abs(number))
      decreases n
    {
      s := s + n % 10;
      n := n / 10;
    }
  }

  /** The sign of a number does not change its digit sum. */
  lemma DigitSumIgnoresSign(n: int)
    ensures DigitSum(Abs(-n)) == DigitSum(Abs(n))
  {
  }

  /** The number written with k nines, 10^k - 1. */
  function Nines(k: nat): nat
  {
    if k == 0 then 0 else 9 + 10 * Nines(k - 1)
  }

  /** k nines exceed k and have digit sum 9k: numbers with large digit sums
      exist beyond any given magnitude. */
  lemma {:induction false} NinesDigitSum(k: nat)
    ensures Nines(k) >= k
    ensures DigitSum(Nines(k)) == 9 * k
  {
    if k > 0 {
      NinesDigitSum(k - 1);
      DigitStep(9, Nines(k - 1));
    }
  }
}
