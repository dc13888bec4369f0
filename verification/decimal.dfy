/**
 * Decimal notation of natural numbers: the digit characters '0'..'9', the
 * string `str(n)` of a number, the value `int(d)` of one digit, and the two
 * digit sums the calculator relies on (an arithmetic one on numbers and a
 * textual one that skips every character that is not a digit).
 */
module Decimal {

  /** A decimal digit character (ASCII '0'..'9'). */
  predicate IsDigit(c: char) {
    '0' <= c <= '9'
  }

  /** `int(d)` for a single digit character `d`. */
  function DigitValue(c: char): (v: nat)
    requires IsDigit(c)
    ensures v <= 9
  {
    c as int - '0' as int
  }

  /** The digit character that stands for `d`. */
  function DigitChar(d: nat): (c: char)
    requires d <= 9
    ensures IsDigit(c) && DigitValue(c) == d
  {
    ('0' as int + d) as char
  }

  /** Sum of the base-10 digits of `n`. */
  function DigitSum(n: nat): (r: nat)
    ensures r <= n
    ensures n > 9 ==> r < n
    ensures n > 0 ==> r > 0
  {
    if n < 10 then n else n % 10 + DigitSum(n / 10)
  }

  /** Every character of `s` is a decimal digit. */
  predicate AllDigits(s: string) {
    forall i :: 0 <= i < |s| ==> IsDigit(s[i])
  }

  /** `str(n)`: the canonical decimal representation, without leading zeros. */
  function DecimalString(n: nat): (s: string)
    ensures |s| >= 1
    ensures AllDigits(s)
    ensures s[0] == '0' <==> n == 0
  {
    if n < 10 then [DigitChar(n)] else DecimalString(n / 10) + [DigitChar(n % 10)]
  }

  /** `int(s)` for a string made of digits only. */
  function DecimalValue(s: string): nat
    requires AllDigits(s)
  {
    if s == [] then 0 else 10 * DecimalValue(s[..|s| - 1]) + DigitValue(s[|s| - 1])
  }

  /** Reading back the printed form of a number gives the number. */
  lemma {:induction false} DecimalRoundTrip(n: nat)
    ensures DecimalValue(DecimalString(n)) == n
  {
    var s := DecimalString(n);
    if n >= 10 {
      DecimalRoundTrip(n / 10);
      assert s[..|s| - 1] == DecimalString(n / 10);
    }
  }

  /** 10 to the power `k`. */
  function Pow10(k: nat): (p: nat)
    ensures p >= 1
  {
    if k == 0 then 1 else 10 * Pow10(k - 1)
  }

  /** A number below 10^k is written with at most k digits. */
  lemma {:induction false} DecimalStringLength(n: nat, k: nat)
    requires 1 <= k && n < Pow10(k)
    ensures |DecimalString(n)| <= k
  {
    if n >= 10 {
      assert k >= 2;
      assert n / 10 < Pow10(k - 1);
      DecimalStringLength(n / 10, k - 1);
    }
  }

  /**
   * Sum of the values of the digit characters of `s`; every other character
   * contributes nothing.
   */
  function DigitTotal(s: string): (t: nat)
    ensures t <= 9 * |s|
  {
    if s == [] then 0
    else (if IsDigit(s[0]) then DigitValue(s[0]) else 0) + DigitTotal(s[1..])
  }

  lemma {:induction false} DigitTotalAppend(a: string, b: string)
    ensures DigitTotal(a + b) == DigitTotal(a) + DigitTotal(b)
  {
    if a != [] {
      assert (a + b)[1..] == a[1..] + b;
      DigitTotalAppend(a[1..], b);
    } else {
      assert a + b == b;
    }
  }

  /** Summing the characters of `str(n)` is the arithmetic digit sum. */
  lemma {:induction false} DigitTotalOfDecimal(n: nat)
    ensures DigitTotal(DecimalString(n)) == DigitSum(n)
  {
    if n >= 10 {
      DigitTotalOfDecimal(n / 10);
      DigitTotalAppend(DecimalString(n / 10), [DigitChar(n % 10)]);
    }
  }

  /** `s` left-padded with '0' up to `width` characters. */
  function ZeroPad(s: string, width: nat): (r: string)
    ensures |r| == if |s| >= width then |s| else width
    ensures r[|r| - |s|..] == s
    ensures forall i :: 0 <= i < |r| - |s| ==> r[i] == '0'
  {
    if |s| >= width then s else seq(width - |s|, _ => '0') + s
  }

  /** Padding zeros add nothing to the digit total. */
  lemma ZeroPadDigitTotal(s: string, width: nat)
    ensures DigitTotal(ZeroPad(s, width)) == DigitTotal(s)
  {
    if |s| < width {
      var zeros := seq(width - |s|, _ => '0');
      DigitTotalAppend(zeros, s);
      ZerosDigitTotal(zeros);
    }
  }

  lemma {:induction false} ZerosDigitTotal(z: string)
    requires forall i :: 0 <= i < |z| ==> z[i] == '0'
    ensures DigitTotal(z) == 0
  {
    if z != [] {
      ZerosDigitTotal(z[1..]);
    }
  }

  /**
   * Each digit-sum step keeps the residue modulo 9 (casting out nines):
   * `n - DigitSum(n)` is a multiple of 9.
   */
  lemma DigitSumMod9(n: nat)
    ensures (n - DigitSum(n)) % 9 == 0
  {
    NinesCastOut(n);
  }

  /** How many nines one digit-sum step removes from `n`. */
  function CastOut(n: nat): nat {
    if n < 10 then 0 else n / 10 + CastOut(n / 10)
  }

  lemma {:induction false} NinesCastOut(n: nat)
    ensures n - DigitSum(n) == 9 * CastOut(n)
  {
    if n >= 10 {
      var q := n / 10;
      NinesCastOut(q);
      assert n == 10 * q + n % 10;
    }
  }

  /** Example: the fields of 1990-05-15 have digit sums 19, 5 and 6. */
  lemma DigitSumExamples()
    ensures DigitSum(1990) == 19 && DigitSum(5) == 5 && DigitSum(15) == 6
  {
  }
}
