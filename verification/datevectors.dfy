/**
 * The dates of the validators' own test suite: written with a four-digit
 * year and a two-digit month and day, in each of the three layouts.
 */
module DateVectors {
  import opened Wrappers
  import opened Text
  import opened JsNumber
  import opened Calendar
  import opened Dates
  import opened Vectors

  // ---------------------------------------------------------------------
  // Fixed-width numerals
  // ---------------------------------------------------------------------

  /** A decimal numeral gains one digit on the right by multiplying its value by ten. */
  lemma NumeralStep(s: string, k: nat)
    requires k < |s| && forall i | 0 <= i < |s| :: IsAsciiDigit(s[i])
    ensures AllRadixDigits(s[..k], 10) && AllRadixDigits(s[..k + 1], 10)
    ensures DigitsValue(s[..k + 1], 10) == DigitsValue(s[..k], 10) * 10 + DigitValue(s[k])
  {
    DecimalDigitsAreRadixDigits(s[..k + 1]);
    DecimalDigitsAreRadixDigits(s[..k]);
    assert s[..k + 1][..k] == s[..k];
  }

  lemma TwoDigitNumeral(s: string)
    requires |s| == 2 && TwoDigits(s, 0)
    ensures IsNumeral(s) && NumeralValue(s) == TwoDigitValue(s, 0)
  {
    NumeralStep(s, 0);
    NumeralStep(s, 1);
    assert s[..2] == s;
  }

  lemma FourDigitNumeral(s: string)
    requires |s| == 4 && FourDigits(s, 0)
    ensures IsNumeral(s) && NumeralValue(s) == FourDigitValue(s, 0)
  {
    NumeralStep(s, 0);
    NumeralStep(s, 1);
    NumeralStep(s, 2);
    NumeralStep(s, 3);
    assert s[..4] == s;
  }

  predicate TwoDigits(s: string, i: nat)
    requires i + 2 <= |s|
  {
    IsAsciiDigit(s[i]) && IsAsciiDigit(s[i + 1])
  }

  predicate FourDigits(s: string, i: nat)
    requires i + 4 <= |s|
  {
    TwoDigits(s, i) && TwoDigits(s, i + 2)
  }

  function TwoDigitValue(s: string, i: nat): int
    requires i + 2 <= |s| && TwoDigits(s, i)
  {
    10 * DigitValue(s[i]) + DigitValue(s[i + 1])
  }

  function FourDigitValue(s: string, i: nat): int
    requires i + 4 <= |s| && FourDigits(s, i)
  {
    100 * TwoDigitValue(s, i) + TwoDigitValue(s, i + 2)
  }

  // ---------------------------------------------------------------------
  // Ten-character dates
  // ---------------------------------------------------------------------

  /** Where the year, the month and the day begin in a ten-character date of layout `f`. */
  function YearAt(f: DateFormat): nat {
    if f == YearMonthDay then 0 else 6
  }

  function MonthAt(f: DateFormat): nat {
    match f
    case YearMonthDay => 5
    case DayMonthYear => 3
    case MonthDayYear => 0
  }

  function DayAt(f: DateFormat): nat {
    match f
    case YearMonthDay => 8
    case DayMonthYear => 0
    case MonthDayYear => 3
  }

  /** `s` is a date of layout `f` with a four-digit year and a two-digit month and day. */
  predicate Written(s: string, f: DateFormat) {
    var sep := Separator(f)[0];
    |s| == 10
    && FourDigits(s, YearAt(f)) && TwoDigits(s, MonthAt(f)) && TwoDigits(s, DayAt(f))
    && (if f == YearMonthDay then s[4] == sep && s[7] == sep else s[2] == sep && s[5] == sep)
  }

  /** The year, month and day the digits of a written date spell. */
  function WrittenDate(s: string, f: DateFormat): CivilDate
    requires Written(s, f)
  {
    CivilDate(FourDigitValue(s, YearAt(f)), TwoDigitValue(s, MonthAt(f)), TwoDigitValue(s, DayAt(f)))
  }

  /** The year, month and day of a written date are numerals worth what its digits spell. */
  lemma WrittenFields(s: string, f: DateFormat)
    requires Written(s, f)
    ensures var y, m, d := s[YearAt(f)..YearAt(f) + 4], s[MonthAt(f)..MonthAt(f) + 2], s[DayAt(f)..DayAt(f) + 2];
            && IsNumeral(y) && IsNumeral(m) && IsNumeral(d)
            && WrittenDate(s, f) == CivilDate(NumeralValue(y), NumeralValue(m), NumeralValue(d))
  {
    var y, m, d := s[YearAt(f)..YearAt(f) + 4], s[MonthAt(f)..MonthAt(f) + 2], s[DayAt(f)..DayAt(f) + 2];
    FourDigitNumeral(y);
    TwoDigitNumeral(m);
    TwoDigitNumeral(d);
  }

  /** A written date is its three numerals laid out with the separator of `f`. */
  lemma WrittenLayout(s: string, f: DateFormat)
    requires Written(s, f)
    ensures s == Layout(f, s[YearAt(f)..YearAt(f) + 4], s[MonthAt(f)..MonthAt(f) + 2], s[DayAt(f)..DayAt(f) + 2])
  {
    var sep := Separator(f);
    assert sep == [Separator(f)[0]];
    match f
    case YearMonthDay =>
      assert s == s[..4] + sep + s[5..7] + sep + s[8..10];
    case DayMonthYear =>
      assert s == s[..2] + sep + s[3..5] + sep + s[6..10];
    case MonthDayYear =>
      assert s == s[..2] + sep + s[3..5] + sep + s[6..10];
  }

  /**
   * A written date is read as the date its digits spell, and accepted
   * exactly when that date is acceptable.
   */
  lemma WrittenRoundTrip(s: string, f: DateFormat)
    requires Written(s, f)
    ensures FormatDate(s, f) == if Acceptable(WrittenDate(s, f)) then Some(WrittenDate(s, f)) else None
  {
    var y, m, d := s[YearAt(f)..YearAt(f) + 4], s[MonthAt(f)..MonthAt(f) + 2], s[DayAt(f)..DayAt(f) + 2];
    WrittenFields(s, f);
    WrittenLayout(s, f);
    LayoutRoundTrip(f, y, m, d);
  }

  // ---------------------------------------------------------------------
  // validateDate
  // ---------------------------------------------------------------------

  lemma LeapDayIso(s: string)
    requires Matches(s, "2020-02-29")
    ensures ValidateDate(s, YearMonthDay)
  {
    assert Written(s, YearMonthDay) && WrittenDate(s, YearMonthDay) == CivilDate(2020, 2, 29);
    WrittenRoundTrip(s, YearMonthDay);
  }

  lemma LeapDayDayFirst(s: string)
    requires Matches(s, "29/02/2020")
    ensures ValidateDate(s, DayMonthYear)
  {
    assert Written(s, DayMonthYear) && WrittenDate(s, DayMonthYear) == CivilDate(2020, 2, 29);
    WrittenRoundTrip(s, DayMonthYear);
  }

  lemma LeapDayMonthFirst(s: string)
    requires Matches(s, "02-29-2020")
    ensures ValidateDate(s, MonthDayYear)
  {
    assert Written(s, MonthDayYear) && WrittenDate(s, MonthDayYear) == CivilDate(2020, 2, 29);
    WrittenRoundTrip(s, MonthDayYear);
  }

  lemma FebruaryThirtiethIso(s: string)
    requires Matches(s, "2020-02-30")
    ensures !ValidateDate(s, YearMonthDay)
  {
    assert Written(s, YearMonthDay) && WrittenDate(s, YearMonthDay) == CivilDate(2020, 2, 30);
    WrittenRoundTrip(s, YearMonthDay);
  }

  lemma FebruaryThirtiethDayFirst(s: string)
    requires Matches(s, "30/02/2020")
    ensures !ValidateDate(s, DayMonthYear)
  {
    assert Written(s, DayMonthYear) && WrittenDate(s, DayMonthYear) == CivilDate(2020, 2, 30);
    WrittenRoundTrip(s, DayMonthYear);
  }

  lemma FebruaryThirtiethMonthFirst(s: string)
    requires Matches(s, "02-30-2020")
    ensures !ValidateDate(s, MonthDayYear)
  {
    assert Written(s, MonthDayYear) && WrittenDate(s, MonthDayYear) == CivilDate(2020, 2, 30);
    WrittenRoundTrip(s, MonthDayYear);
  }

  /** Text written with slashes has no hyphen, so the default layout finds one field only. */
  lemma SlashesInDefaultLayout(s: string, t: string)
    requires Matches(s, t) && '-' !in t
    ensures !ValidateDate(s, YearMonthDay)
  {
    assert '-' !in s by {
      forall i | 0 <= i < |s|
        ensures s[i] != '-'
      {
        assert s[i] == t[i];
      }
    }
    NoSeparatorRejected(s, YearMonthDay);
  }

  /** 2020-02-29, 29/02/2020 and 02-29-2020 are accepted in their layouts. */
  lemma LeapDayVectors()
    ensures ValidateDate("2020-02-29", YearMonthDay)
    ensures ValidateDate("29/02/2020", DayMonthYear)
    ensures ValidateDate("02-29-2020", MonthDayYear)
  {
    LeapDayIso("2020-02-29");
    LeapDayDayFirst("29/02/2020");
    LeapDayMonthFirst("02-29-2020");
  }

  /** The 30th of February is refused in each layout. */
  lemma FebruaryThirtiethVectors()
    ensures !ValidateDate("2020-02-30", YearMonthDay)
    ensures !ValidateDate("30/02/2020", DayMonthYear)
    ensures !ValidateDate("02-30-2020", MonthDayYear)
  {
    FebruaryThirtiethIso("2020-02-30");
    FebruaryThirtiethDayFirst("30/02/2020");
    FebruaryThirtiethMonthFirst("02-30-2020");
  }

  /** 2020/02/29 in the default layout and the empty string are refused. */
  lemma MalformedDateVectors()
    ensures !ValidateDate("2020/02/29", YearMonthDay)
    ensures !ValidateDate("", YearMonthDay)
  {
    SlashesInDefaultLayout("2020/02/29", "2020/02/29");
    NoSeparatorRejected("", YearMonthDay);
  }

  // ---------------------------------------------------------------------
  // validateBirthDate
  // ---------------------------------------------------------------------

  /**
   * The days on which the suite's birth-date verdicts hold: from
   * 2024-01-01, when someone born on 2014-01-01 turns ten, up to the day
   * before 2028-01-01, when someone born on 2010-01-01 turns eighteen.
   */
  predicate SuiteDay(today: CivilDate) {
    OnOrBefore(CivilDate(2024, 1, 1), today) && Precedes(today, CivilDate(2028, 1, 1))
  }

  /** A written, acceptable birth date passes exactly when its `minAge`-th anniversary is not after `today`. */
  lemma WrittenBirthDate(s: string, minAge: int, f: DateFormat, today: CivilDate)
    requires Written(s, f) && Acceptable(WrittenDate(s, f))
    ensures var b := WrittenDate(s, f);
            ValidateBirthDate(s, minAge, f, today) <==> OnOrBefore(CivilDate(b.year + minAge, b.month, b.day), today)
  {
    WrittenRoundTrip(s, f);
    BirthDateIff(s, minAge, f, today);
  }

  lemma EighteenSince2018(s: string, today: CivilDate)
    requires Matches(s, "2000-01-01") && SuiteDay(today)
    ensures ValidateBirthDate(s, 18, YearMonthDay, today)
  {
    assert Written(s, YearMonthDay) && WrittenDate(s, YearMonthDay) == CivilDate(2000, 1, 1);
    WrittenBirthDate(s, 18, YearMonthDay, today);
  }

  lemma BornInThePast(s: string, today: CivilDate)
    requires Matches(s, "2020-01-01") && SuiteDay(today)
    ensures ValidateBirthDate(s, 0, YearMonthDay, today)
  {
    assert Written(s, YearMonthDay) && WrittenDate(s, YearMonthDay) == CivilDate(2020, 1, 1);
    WrittenBirthDate(s, 0, YearMonthDay, today);
  }

  lemma EighteenDayFirst(s: string, today: CivilDate)
    requires Matches(s, "01/01/2000") && SuiteDay(today)
    ensures ValidateBirthDate(s, 18, DayMonthYear, today)
  {
    assert Written(s, DayMonthYear) && WrittenDate(s, DayMonthYear) == CivilDate(2000, 1, 1);
    WrittenBirthDate(s, 18, DayMonthYear, today);
  }

  lemma NotYetEighteenMonthFirst(s: string, today: CivilDate)
    requires Matches(s, "01-01-2010") && SuiteDay(today)
    ensures !ValidateBirthDate(s, 18, MonthDayYear, today)
  {
    assert Written(s, MonthDayYear) && WrittenDate(s, MonthDayYear) == CivilDate(2010, 1, 1);
    WrittenBirthDate(s, 18, MonthDayYear, today);
  }

  lemma SixteenMonthFirst(s: string, today: CivilDate)
    requires Matches(s, "01-01-2000") && SuiteDay(today)
    ensures ValidateBirthDate(s, 16, MonthDayYear, today)
  {
    assert Written(s, MonthDayYear) && WrittenDate(s, MonthDayYear) == CivilDate(2000, 1, 1);
    WrittenBirthDate(s, 16, MonthDayYear, today);
  }

  lemma TenSince2024(s: string, today: CivilDate)
    requires Matches(s, "2014-01-01") && SuiteDay(today)
    ensures ValidateBirthDate(s, 10, YearMonthDay, today)
  {
    assert Written(s, YearMonthDay) && WrittenDate(s, YearMonthDay) == CivilDate(2014, 1, 1);
    WrittenBirthDate(s, 10, YearMonthDay, today);
  }

  lemma NotYetEighteen(s: string, today: CivilDate)
    requires Matches(s, "2010-01-01") && SuiteDay(today)
    ensures !ValidateBirthDate(s, 18, YearMonthDay, today)
  {
    assert Written(s, YearMonthDay) && WrittenDate(s, YearMonthDay) == CivilDate(2010, 1, 1);
    WrittenBirthDate(s, 18, YearMonthDay, today);
  }

  /** Born 2000-01-01, 2020-01-01 or 2014-01-01: old enough for 18, 0 and 10 years, in the layouts the suite uses. */
  lemma OldEnoughVectors(today: CivilDate)
    requires SuiteDay(today)
    ensures ValidateBirthDate("2000-01-01", 18, YearMonthDay, today)
    ensures ValidateBirthDate("2020-01-01", 0, YearMonthDay, today)
    ensures ValidateBirthDate("01/01/2000", 18, DayMonthYear, today)
    ensures ValidateBirthDate("01-01-2000", 16, MonthDayYear, today)
    ensures ValidateBirthDate("2014-01-01", 10, YearMonthDay, today)
  {
    EighteenSince2018("2000-01-01", today);
    BornInThePast("2020-01-01", today);
    EighteenDayFirst("01/01/2000", today);
    SixteenMonthFirst("01-01-2000", today);
    TenSince2024("2014-01-01", today);
  }

  /** Born 2010-01-01: not yet eighteen, in either layout the suite uses. */
  lemma TooYoungVectors(today: CivilDate)
    requires SuiteDay(today)
    ensures !ValidateBirthDate("01-01-2010", 18, MonthDayYear, today)
    ensures !ValidateBirthDate("2010-01-01", 18, YearMonthDay, today)
  {
    NotYetEighteenMonthFirst("01-01-2010", today);
    NotYetEighteen("2010-01-01", today);
  }

  /** A text `validateDate` refuses is refused as a birth date. */
  lemma UnreadableBirthDate(s: string, minAge: int, f: DateFormat, today: CivilDate)
    requires !ValidateDate(s, f)
    ensures !ValidateBirthDate(s, minAge, f, today)
  {
  }

  lemma ImpossibleBirthDate(s: string, today: CivilDate)
    requires Matches(s, "2020-02-30")
    ensures !ValidateBirthDate(s, 18, YearMonthDay, today)
  {
    FebruaryThirtiethIso(s);
    UnreadableBirthDate(s, 18, YearMonthDay, today);
  }

  lemma BirthDateInWrongLayout(s: string, today: CivilDate)
    requires Matches(s, "01/01/2000")
    ensures !ValidateBirthDate(s, 18, YearMonthDay, today)
  {
    SlashesInDefaultLayout(s, "01/01/2000");
    UnreadableBirthDate(s, 18, YearMonthDay, today);
  }

  lemma EmptyBirthDate(s: string, today: CivilDate)
    requires s == []
    ensures !ValidateBirthDate(s, 18, YearMonthDay, today)
  {
    NoSeparatorRejected(s, YearMonthDay);
    UnreadableBirthDate(s, 18, YearMonthDay, today);
  }

  /** An impossible date, a date in the wrong layout and the empty string are refused whatever the day. */
  lemma UnreadableBirthDateVectors(today: CivilDate)
    ensures !ValidateBirthDate("2020-02-30", 18, YearMonthDay, today)
    ensures !ValidateBirthDate("01/01/2000", 18, YearMonthDay, today)
    ensures !ValidateBirthDate("", 18, YearMonthDay, today)
  {
    ImpossibleBirthDate("2020-02-30", today);
    BirthDateInWrongLayout("01/01/2000", today);
    EmptyBirthDate("", today);
  }
}
