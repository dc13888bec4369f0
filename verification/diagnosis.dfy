/**
 * One submission of the form: an empty name is refused with a warning;
 * otherwise the four numbers, the life path interpretation and the repeated
 * values are produced.
 */
module Diagnosis {
  import opened Reduction
  import opened Numbers
  import opened Meanings
  import opened Repetition

  /** What a successful submission shows. */
  datatype Reading = Reading(
    lifePath: int,
    birthDay: int,
    expression: int,
    soulUrge: int,
    lifePathMeaning: string,
    repeated: seq<int>)

  /** The outcome of pressing the submit button. */
  datatype Outcome = NameMissing | Diagnosed(reading: Reading)

  /** The four numbers in the order they are shown and counted. */
  function FourNumbers(r: Reading): seq<int> {
    [r.lifePath, r.birthDay, r.expression, r.soulUrge]
  }

  /**
   * Runs the calculation for a name and a birth date. Only the empty name is
   * refused; the four numbers are taken from the formatted date, its day and
   * the name, and the repetitions are counted among those four.
   */
  function Diagnose(name: string, birthdate: Date): (o: Outcome)
    ensures o.NameMissing? <==> name == []
    ensures o.Diagnosed? ==>
      && o.reading.lifePath == LifePathNumber(FormatDate(birthdate))
      && o.reading.birthDay == BirthDayNumber(birthdate.day)
      && o.reading.expression == ExpressionNumber(name)
      && o.reading.soulUrge == SoulUrgeNumber(name)
      && o.reading.lifePathMeaning == GetNumberMeaning("life_path", o.reading.lifePath)
    ensures o.Diagnosed? ==>
      (forall x :: x in o.reading.repeated <==> Count(FourNumbers(o.reading), x) >= 2) &&
      NoDuplicates(o.reading.repeated) &&
      InFirstOccurrenceOrder(o.reading.repeated, FourNumbers(o.reading))
    ensures o.Diagnosed? ==> o.reading.repeated == Repeated(FourNumbers(o.reading))
  {
    if name == [] then NameMissing
    else
      var lifePath := LifePathNumber(FormatDate(birthdate));
      var birthDay := BirthDayNumber(birthdate.day);
      var expression := ExpressionNumber(name);
      var soul := SoulUrgeNumber(name);
      Diagnosed(Reading(
        lifePath, birthDay, expression, soul,
        GetNumberMeaning("life_path", lifePath),
        Repeated([lifePath, birthDay, expression, soul])))
  }

  /**
   * For any non-empty name and any date the picker offers: the life path is
   * in {1..9, 11, 22, 33} and so always has an interpretation, the birth day
   * is in {1..9, 11, 22}, and the two name numbers are terminal values that
   * are 0 exactly when the name (or its vowels) contribute nothing.
   */
  lemma DiagnosisOfPickerDate(name: string, d: Date)
    requires name != [] && InPickerRange(d)
    ensures Diagnose(name, d).Diagnosed?
    ensures var r := Diagnose(name, d).reading;
      && IsReducedValue(r.lifePath)
      && r.lifePathMeaning != Placeholder
      && (1 <= r.birthDay <= 9 || r.birthDay == 11 || r.birthDay == 22)
      && 0 <= r.expression && IsTerminal(r.expression)
      && 0 <= r.soulUrge && IsTerminal(r.soulUrge)
      && (r.expression == 0 <==> UpperLetters(name) == [])
      && (r.soulUrge == 0 <==> NoVowels(name))
  {
    LifePathRange(d);
    BirthDayRange(d.day);
  }

  /** A repetition notice appears exactly when two of the four numbers coincide. */
  lemma NoticeIffTwoEqual(name: string, d: Date)
    requires name != []
    ensures var r := Diagnose(name, d).reading;
      r.repeated != [] <==>
        exists i, j :: 0 <= i < j < 4 && FourNumbers(r)[i] == FourNumbers(r)[j]
  {
    NoticeOfReading(Diagnose(name, d).reading);
  }

  /** A reading whose repeated list is computed from its own four numbers. */
  lemma NoticeOfReading(r: Reading)
    requires r.repeated == Repeated(FourNumbers(r))
    ensures r.repeated != [] <==>
      exists i, j :: 0 <= i < j < 4 && FourNumbers(r)[i] == FourNumbers(r)[j]
  {
    RepeatedNonEmptyIffPair(FourNumbers(r));
  }
}
