/**
 * The four derived numbers: life path (all digits of the birth date), birth
 * day (the day of month), expression (every letter of the name) and soul
 * urge (the vowels of the name), each put through the digit reduction.
 */
module Numbers {
  import opened Decimal
  import opened Reduction
  import opened Cipher

  // ---------------------------------------------------------------------
  // Dates and their `YYYY-MM-DD` text
  // ---------------------------------------------------------------------

  datatype Date = Date(year: nat, month: nat, day: nat)

  predicate IsLeapYear(y: nat) {
    y % 4 == 0 && (y % 100 != 0 || y % 400 == 0)
  }

  function DaysInMonth(y: nat, m: nat): (days: nat)
    requires 1 <= m <= 12
    ensures 28 <= days <= 31
  {
    if m == 2 then (if IsLeapYear(y) then 29 else 28)
    else if m == 4 || m == 6 || m == 9 || m == 11 then 30
    else 31
  }

  /** A day of the proleptic Gregorian calendar. */
  predicate IsCalendarDate(d: Date) {
    1 <= d.year && 1 <= d.month <= 12 && 1 <= d.day <= DaysInMonth(d.year, d.month)
  }

  /** The dates the birth-date picker offers: 1925-01-01 to 2025-12-31. */
  predicate InPickerRange(d: Date) {
    IsCalendarDate(d) && 1925 <= d.year <= 2025
  }

  /**
   * The date as `%Y-%m-%d`: four-digit year, two-digit month and day. Its
   * digits add up to the digit sums of the three fields.
   */
  function FormatDate(d: Date): (s: string)
    ensures DigitTotal(s) == DigitSum(d.year) + DigitSum(d.month) + DigitSum(d.day)
  {
    var y, m, dd := ZeroPad(DecimalString(d.year), 4),
                    ZeroPad(DecimalString(d.month), 2),
                    ZeroPad(DecimalString(d.day), 2);
    JoinDigitTotal(y, m, dd);
    PaddedDigitTotal(d.year, 4);
    PaddedDigitTotal(d.month, 2);
    PaddedDigitTotal(d.day, 2);
    y + "-" + m + "-" + dd
  }

  /** A formatted date has the shape `YYYY-MM-DD`. */
  lemma FormatDateShape(d: Date)
    requires d.year < 10000 && d.month < 100 && d.day < 100
    ensures var s := FormatDate(d);
      |s| == 10 && s[4] == '-' && s[7] == '-' &&
      forall i :: 0 <= i < 10 && i != 4 && i != 7 ==> IsDigit(s[i])
  {
    PaddedField(d.year, 4);
    PaddedField(d.month, 2);
    PaddedField(d.day, 2);
    JoinShape(ZeroPad(DecimalString(d.year), 4),
              ZeroPad(DecimalString(d.month), 2),
              ZeroPad(DecimalString(d.day), 2));
  }

  /** Joining a 4-digit, a 2-digit and a 2-digit field with dashes. */
  lemma JoinShape(y: string, m: string, dd: string)
    requires |y| == 4 && |m| == 2 && |dd| == 2
    requires AllDigits(y) && AllDigits(m) && AllDigits(dd)
    ensures var s := y + "-" + m + "-" + dd;
      |s| == 10 && s[4] == '-' && s[7] == '-' &&
      forall i :: 0 <= i < 10 && i != 4 && i != 7 ==> IsDigit(s[i])
  {
    var s := y + "-" + m + "-" + dd;
    forall i | 0 <= i < 10 && i != 4 && i != 7 ensures IsDigit(s[i]) {
      if i < 4 {
        assert s[i] == y[i];
      } else if i < 7 {
        assert s[i] == m[i - 5];
      } else {
        assert s[i] == dd[i - 8];
      }
    }
  }

  /** A number below 10^width, zero-padded to `width`, is `width` digits. */
  lemma PaddedField(n: nat, width: nat)
    requires width == 2 || width == 4
    requires n < Pow10(width)
    ensures |ZeroPad(DecimalString(n), width)| == width
    ensures AllDigits(ZeroPad(DecimalString(n), width))
  {
    assert Pow10(4) == 10000 && Pow10(2) == 100;
    DecimalStringLength(n, width);
    var t := DecimalString(n);
    var r := ZeroPad(t, width);
    forall i | 0 <= i < width ensures IsDigit(r[i]) {
      if i >= width - |t| {
        assert r[i] == r[width - |t|..][i - (width - |t|)];
      }
    }
  }

  // ---------------------------------------------------------------------
  // Life path and birth day
  // ---------------------------------------------------------------------

  /** `s` with every occurrence of `c` removed (`s.replace(c, '')`). */
  function Without(s: string, c: char): (r: string)
    ensures c !in r
    ensures |r| <= |s|
  {
    if s == [] then []
    else (if s[0] == c then [] else [s[0]]) + Without(s[1..], c)
  }

  /** Every other character is kept, as often as it occurs. */
  lemma {:induction false} WithoutContents(s: string, c: char)
    ensures multiset(Without(s, c)) == multiset(s)[c := 0]
  {
    if s != [] {
      WithoutContents(s[1..], c);
      assert s == [s[0]] + s[1..];
    }
  }

  /** Removing a character that is not a digit leaves the digit total alone. */
  lemma {:induction false} WithoutKeepsDigitTotal(s: string, c: char)
    requires !IsDigit(c)
    ensures DigitTotal(Without(s, c)) == DigitTotal(s)
  {
    if s != [] {
      WithoutKeepsDigitTotal(s[1..], c);
      DigitTotalAppend(if s[0] == c then [] else [s[0]], Without(s[1..], c));
    }
  }

  /**
   * The life path number of a birth date written as text: a stopping value,
   * 0 only when the text has no nonzero digit, and congruent modulo 9 to the
   * sum of its digits.
   */
  function LifePathNumber(birthdate: string): (lp: int)
    ensures IsTerminal(lp) && lp >= 0
    ensures lp == 0 <==> DigitTotal(birthdate) == 0
    ensures lp % 9 == DigitTotal(birthdate) % 9
  {
    WithoutKeepsDigitTotal(birthdate, '-');
    ReduceMod9(DigitTotal(birthdate));
    Reduce(DigitTotal(Without(birthdate, '-')))
  }

  /**
   * The birth day number of a day of month: a stopping value which, for a
   * natural number, is 0 only for 0 and congruent to the day modulo 9.
   */
  function BirthDayNumber(day: int): (b: int)
    ensures IsTerminal(b)
    ensures day >= 0 ==> b >= 0 && (b == 0 <==> day == 0) && b % 9 == day % 9
    ensures day < 0 ==> b == day
  {
    ReduceMod9(if day < 0 then 0 else day);
    Reduce(day)
  }

  /**
   * The life path of a formatted date is the reduction of the digit sums of
   * year, month and day together; padding zeros and dashes add nothing.
   */
  lemma LifePathOfDate(d: Date)
    ensures LifePathNumber(FormatDate(d)) ==
            Reduce(DigitSum(d.year) + DigitSum(d.month) + DigitSum(d.day))
  {
    var s := FormatDate(d);
    WithoutKeepsDigitTotal(s, '-');
    assert LifePathNumber(s) == Reduce(DigitTotal(Without(s, '-')));
  }

  /** The dashes between the fields add nothing to the digit total. */
  lemma JoinDigitTotal(y: string, m: string, dd: string)
    ensures DigitTotal(y + "-" + m + "-" + dd) == DigitTotal(y) + DigitTotal(m) + DigitTotal(dd)
  {
    DigitTotalAppend(y + "-" + m + "-", dd);
    DigitTotalAppend(y + "-" + m, "-");
    DigitTotalAppend(y + "-", m);
    DigitTotalAppend(y, "-");
  }

  /** A zero-padded field contributes the digit sum of its number. */
  lemma PaddedDigitTotal(n: nat, width: nat)
    ensures DigitTotal(ZeroPad(DecimalString(n), width)) == DigitSum(n)
  {
    ZeroPadDigitTotal(DecimalString(n), width);
    DigitTotalOfDecimal(n);
  }

  /** Every date the picker offers has a nonzero life path in {1..9, 11, 22, 33}. */
  lemma LifePathRange(d: Date)
    requires InPickerRange(d)
    ensures var lp := LifePathNumber(FormatDate(d)); IsReducedValue(lp)
  {
    LifePathOfDate(d);
    var total := DigitSum(d.year) + DigitSum(d.month) + DigitSum(d.day);
    assert DigitSum(d.year) > 0;
    assert Reduce(total) != 0 && Reduce(total) >= 0;
  }

  /** A day of month reduces to 1..9, 11 or 22; 33 cannot occur. */
  lemma BirthDayRange(day: int)
    requires 1 <= day <= 31
    ensures var b := BirthDayNumber(day); 1 <= b <= 9 || b == 11 || b == 22
  {
    if !IsTerminal(day) {
      assert DigitSum(day / 10) == day / 10;
      var s := DigitSum(day);
      assert s <= 11;
      assert Reduce(day) == Reduce(s);
      if s == 10 {
        assert DigitSum(10) == 1;
        assert Reduce(s) == 1;
      }
    }
  }

  // ---------------------------------------------------------------------
  // Expression and soul urge
  // ---------------------------------------------------------------------

  /**
   * Sum of the cipher values of the letters of `name`: at most 9 per
   * character, and 0 exactly when the name has no letter.
   */
  function LetterTotal(name: string): (t: nat)
    ensures t <= 9 * |name|
    ensures t == 0 <==> UpperLetters(name) == []
  {
    if name == [] then 0
    else (if IsLetter(name[0]) then CharToNum(name[0]) else 0) + LetterTotal(name[1..])
  }

  /**
   * The expression number of a name: a stopping value congruent to the
   * letter total modulo 9, and 0 exactly when the name has no letter.
   */
  function ExpressionNumber(name: string): (e: int)
    ensures IsTerminal(e) && e >= 0
    ensures e % 9 == LetterTotal(name) % 9
    ensures e == 0 <==> UpperLetters(name) == []
  {
    ReduceMod9(LetterTotal(name));
    Reduce(LetterTotal(name))
  }

  /** The vowels, tested on the upper-case form of a character. */
  const Vowels: string := "AEIOU"

  predicate IsVowel(c: char) {
    Upper(c) in Vowels
  }

  /** No character of `name` is a vowel, in either case. */
  predicate NoVowels(name: string) {
    forall i :: 0 <= i < |name| ==> !IsVowel(name[i])
  }

  /** A vowel is a letter, so it is worth 1..9. */
  lemma VowelIsLetter(c: char)
    requires IsVowel(c)
    ensures IsLetter(c) && CharToNum(c) > 0
  {
    assert Upper(c) == 'A' || Upper(c) == 'E' || Upper(c) == 'I' || Upper(c) == 'O' || Upper(c) == 'U';
  }

  /**
   * Sum of the cipher values of the vowels of `name`: never above the letter
   * total, and 0 exactly when the name has no vowel.
   */
  function VowelTotal(name: string): (v: nat)
    ensures v <= LetterTotal(name)
    ensures v == 0 <==> NoVowels(name)
  {
    if name == [] then 0
    else
      var rest := VowelTotal(name[1..]);
      if IsVowel(name[0]) then
        VowelIsLetter(name[0]);
        CharToNum(name[0]) + rest
      else
        assert forall i :: 1 <= i < |name| ==> name[i] == name[1..][i - 1];
        rest
  }

  /**
   * The soul urge number of a name: a stopping value congruent to the vowel
   * total modulo 9, and 0 exactly when the name has no vowel.
   */
  function SoulUrgeNumber(name: string): (u: int)
    ensures IsTerminal(u) && u >= 0
    ensures u % 9 == VowelTotal(name) % 9
    ensures u == 0 <==> NoVowels(name)
  {
    ReduceMod9(VowelTotal(name));
    Reduce(VowelTotal(name))
  }

  /** The upper-case letters of `name`, in order; everything else dropped. */
  function UpperLetters(name: string): (r: string)
    ensures forall i :: 0 <= i < |r| ==> IsUpperLetter(r[i])
    ensures |r| <= |name|
  {
    if name == [] then []
    else (if IsLetter(name[0]) then [Upper(name[0])] else []) + UpperLetters(name[1..])
  }

  /** Sum of the cipher values of every character of `s`. */
  function CipherSum(s: string): nat {
    if s == [] then 0 else CharToNum(s[0]) + CipherSum(s[1..])
  }

  lemma {:induction false} LetterTotalIsCipherSum(name: string)
    ensures LetterTotal(name) == CipherSum(UpperLetters(name))
  {
    if name != [] {
      LetterTotalIsCipherSum(name[1..]);
      var head := if IsLetter(name[0]) then [Upper(name[0])] else [];
      assert UpperLetters(name) == head + UpperLetters(name[1..]);
      if IsLetter(name[0]) {
        assert (head + UpperLetters(name[1..]))[1..] == UpperLetters(name[1..]);
      } else {
        assert head + UpperLetters(name[1..]) == UpperLetters(name[1..]);
      }
    }
  }

  /**
   * The expression number depends only on the letters of the name, read in
   * upper case: spacing, punctuation and case do not matter.
   */
  lemma ExpressionDependsOnlyOnLetters(a: string, b: string)
    requires UpperLetters(a) == UpperLetters(b)
    ensures ExpressionNumber(a) == ExpressionNumber(b)
  {
    LetterTotalIsCipherSum(a);
    LetterTotalIsCipherSum(b);
  }

  lemma {:induction false} UpperLettersAppend(a: string, b: string)
    ensures UpperLetters(a + b) == UpperLetters(a) + UpperLetters(b)
  {
    if a == [] {
      assert a + b == b;
    } else {
      assert (a + b)[1..] == a[1..] + b;
      UpperLettersAppend(a[1..], b);
    }
  }

  /** Inserting a character that is not a letter leaves the expression number alone. */
  lemma ExpressionIgnoresNonLetter(a: string, c: char, b: string)
    requires !IsLetter(c)
    ensures ExpressionNumber(a + [c] + b) == ExpressionNumber(a + b)
  {
    UpperLettersAppend(a + [c], b);
    UpperLettersAppend(a, [c]);
    UpperLettersAppend(a, b);
    ExpressionDependsOnlyOnLetters(a + [c] + b, a + b);
  }

  /** `s.upper()`, character by character. */
  function UpperCase(s: string): (r: string)
    ensures |r| == |s|
    ensures forall i :: 0 <= i < |s| ==> r[i] == Upper(s[i])
  {
    if s == [] then [] else [Upper(s[0])] + UpperCase(s[1..])
  }

  lemma {:induction false} UpperLettersOfUpperCase(s: string)
    ensures UpperLetters(UpperCase(s)) == UpperLetters(s)
  {
    if s != [] {
      UpperLettersOfUpperCase(s[1..]);
      assert UpperCase(s)[1..] == UpperCase(s[1..]);
    }
  }

  /** Changing the case of the name leaves the expression number alone. */
  lemma ExpressionIgnoresCase(name: string)
    ensures ExpressionNumber(UpperCase(name)) == ExpressionNumber(name)
  {
    UpperLettersOfUpperCase(name);
    ExpressionDependsOnlyOnLetters(UpperCase(name), name);
  }

  /** Number of characters of `s` whose upper-case form is `v`. */
  function CountUpper(s: string, v: char): (n: nat)
    ensures n <= |s|
  {
    if s == [] then 0 else (if Upper(s[0]) == v then 1 else 0) + CountUpper(s[1..], v)
  }

  /**
   * Every letter of the name appears upper-cased in `UpperLetters`: each
   * upper-case letter as often as it occurs in the name in either case.
   */
  lemma {:induction false} UpperLettersContents(name: string, v: char)
    requires IsUpperLetter(v)
    ensures multiset(UpperLetters(name))[v] == CountUpper(name, v)
  {
    if name != [] {
      UpperLettersContents(name[1..], v);
    }
  }

  /**
   * The soul urge total counts each vowel with its cipher value:
   * 1 for A, 5 for E, 9 for I, 6 for O and 3 for U.
   */
  lemma {:induction false} VowelTotalByCounts(name: string)
    ensures VowelTotal(name) ==
      1 * CountUpper(name, 'A') + 5 * CountUpper(name, 'E') + 9 * CountUpper(name, 'I') +
      6 * CountUpper(name, 'O') + 3 * CountUpper(name, 'U')
  {
    if name != [] {
      var c, rest := name[0], name[1..];
      VowelTotalByCounts(rest);
      VowelValue(c);
      assert VowelTotal(name) == (if IsVowel(c) then CharToNum(c) else 0) + VowelTotal(rest);
      assert CountUpper(name, 'A') == (if Upper(c) == 'A' then 1 else 0) + CountUpper(rest, 'A');
      assert CountUpper(name, 'E') == (if Upper(c) == 'E' then 1 else 0) + CountUpper(rest, 'E');
      assert CountUpper(name, 'I') == (if Upper(c) == 'I' then 1 else 0) + CountUpper(rest, 'I');
      assert CountUpper(name, 'O') == (if Upper(c) == 'O' then 1 else 0) + CountUpper(rest, 'O');
      assert CountUpper(name, 'U') == (if Upper(c) == 'U' then 1 else 0) + CountUpper(rest, 'U');
    }
  }

  /** The value a single character adds to the soul urge total. */
  lemma VowelValue(c: char)
    ensures (if IsVowel(c) then CharToNum(c) else 0) ==
      (if Upper(c) == 'A' then 1 else 0) + (if Upper(c) == 'E' then 5 else 0) +
      (if Upper(c) == 'I' then 9 else 0) + (if Upper(c) == 'O' then 6 else 0) +
      (if Upper(c) == 'U' then 3 else 0)
  {
    if IsVowel(c) {
      assert Upper(c) == 'A' || Upper(c) == 'E' || Upper(c) == 'I' || Upper(c) == 'O' || Upper(c) == 'U';
    }
  }

  /** Example: 1990-05-15 has life path 3 (1+9+9+0+0+5+1+5 = 30, reduced to 3). */
  lemma LifePathExample(d: Date)
    requires d == Date(1990, 5, 15)
    ensures LifePathNumber(FormatDate(d)) == 3
  {
    LifePathOfDate(d);
    DigitSumExamples();
    ReduceExamples();
  }

  /** Example: "ABC" has expression 6 (A, B, C are worth 1, 2, 3) and soul urge 1 (only A is a vowel). */
  lemma NameExamples(name: string)
    requires name == "ABC"
    ensures ExpressionNumber(name) == 6 && SoulUrgeNumber(name) == 1
  {
    assert name[1..] == "BC" && name[1..][1..] == "C";
    assert LetterTotal("C") == 3;
    assert LetterTotal(name) == 6;
    assert VowelTotal("C") == 0;
    assert VowelTotal(name) == 1;
  }

  /** Example: "a-b c" and "ABC" have the same letters, so the same expression number. */
  lemma SpacingExample(a: string, b: string)
    requires a == "a-b c" && b == "ABC"
    ensures ExpressionNumber(a) == ExpressionNumber(b)
  {
    assert UpperLetters(a[4..]) == "C";
    assert UpperLetters(a[3..]) == "C" by { assert a[3..][1..] == a[4..]; }
    assert UpperLetters(a[2..]) == "BC" by { assert a[2..][1..] == a[3..]; }
    assert UpperLetters(a[1..]) == "BC" by { assert a[1..][1..] == a[2..]; }
    assert UpperLetters(a) == "ABC";
    assert UpperLetters(b[2..]) == "C";
    assert UpperLetters(b[1..]) == "BC" by { assert b[1..][1..] == b[2..]; }
    assert UpperLetters(b) == "ABC";
    ExpressionDependsOnlyOnLetters(a, b);
  }
}
