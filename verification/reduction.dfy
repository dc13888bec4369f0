/**
 * Digit reduction: the value is replaced by the sum of its decimal digits
 * until it is at most 9 or is one of the master numbers 11, 22 and 33, which
 * stop the reduction even though they have two digits.
 */
module Reduction {
  import opened Decimal

  /** The master numbers, exempt from further reduction. */
  predicate IsMaster(n: int) {
    n == 11 || n == 22 || n == 33
  }

  /** The numbers a reduction of a positive value can produce. */
  predicate IsReducedValue(n: int) {
    1 <= n <= 9 || IsMaster(n)
  }

  /** The values at which the reduction loop stops. */
  predicate IsTerminal(n: int) {
    n <= 9 || IsMaster(n)
  }

  /**
   * The reduction as a recursive function, the specification of the loop in
   * ReduceNumber. Negative values are already terminal and come back as
   * they are, as the loop guard `n > 9` makes them.
   */
  function Reduce(n: int): (r: int)
    ensures IsTerminal(r)
    ensures n >= 0 ==> r >= 0
    ensures n >= 0 ==> (r == 0 <==> n == 0)
    decreases if n < 0 then 0 else n
  {
    if IsTerminal(n) then n else Reduce(DigitSum(n))
  }

  /**
   * The loop itself: while the value is above 9 and not a master number,
   * replace it by the sum of the digits of its decimal string.
   */
  method ReduceNumber(n0: int) returns (n: int)
    ensures n == Reduce(n0)
    ensures IsTerminal(n)
  {
    n := n0;
    while n > 9 && n !in [11, 22, 33]
      invariant Reduce(n) == Reduce(n0)
      decreases n
    {
      DigitTotalOfDecimal(n);
      n := DigitTotal(DecimalString(n));
    }
  }

  /** The reduction is the identity exactly on the values where it stops. */
  lemma {:induction false} ReduceFixedPoints(n: int)
    ensures Reduce(n) == n <==> IsTerminal(n)
  {
    if !IsTerminal(n) {
      assert Reduce(n) == Reduce(DigitSum(n));
    }
  }

  /** Reducing an already reduced value changes nothing. */
  lemma ReduceIdempotent(n: int)
    ensures Reduce(Reduce(n)) == Reduce(n)
  {
    ReduceFixedPoints(Reduce(n));
  }

  /** The result is congruent to the input modulo 9. */
  lemma {:induction false} ReduceMod9(n: nat)
    ensures Reduce(n) % 9 == n % 9
    decreases n
  {
    if !IsTerminal(n) {
      var s := DigitSum(n);
      ReduceMod9(s);
      NinesCastOut(n);
      assert Reduce(n) == Reduce(s);
      AddNines(s, CastOut(n));
    }
  }

  /** Adding a multiple of 9 does not change the residue modulo 9. */
  lemma AddNines(a: int, k: int)
    ensures (a + 9 * k) % 9 == a % 9
  {
  }

  /**
   * For a positive input the result is either the digital root
   * `1 + (n - 1) % 9` or a master number with the same residue modulo 9.
   */
  lemma DigitalRootOrMaster(n: nat)
    requires n > 0
    ensures IsReducedValue(Reduce(n))
    ensures Reduce(n) <= 9 ==> Reduce(n) == 1 + (n - 1) % 9
    ensures Reduce(n) % 9 == n % 9
  {
    ReduceMod9(n);
    var r := Reduce(n);
    if r <= 9 {
      SingleDigitResidue(r, n);
    }
  }

  /** A digit 1..9 is determined by its residue modulo 9. */
  lemma SingleDigitResidue(r: int, n: int)
    requires n > 0 && 1 <= r <= 9 && r % 9 == n % 9
    ensures r == 1 + (n - 1) % 9
  {
    var q, m := n / 9, n % 9;
    if m == 0 {
      assert n - 1 == 9 * (q - 1) + 8;
    } else {
      assert n - 1 == 9 * q + (m - 1);
    }
  }

  /** Example: 29 and 38 stop at the master number 11, 49 goes on to 4. */
  lemma ReduceExamples()
    ensures Reduce(0) == 0 && Reduce(9) == 9 && Reduce(10) == 1
    ensures Reduce(29) == 11 && Reduce(38) == 11 && Reduce(49) == 4 && Reduce(30) == 3
  {
  }
}
