/**
 * `formatDate`, `validateDate` and `validateBirthDate`: a date written as
 * text in one of three layouts is split into its fields, each field goes
 * through `Number`, and the result is kept only when `new Date(year,
 * month - 1, day)` reads back the same year, month and day.
 */
module Dates {
  import opened Wrappers
  import opened Text
  import opened JsNumber
  import opened Calendar

  /** The layouts a `DateType` names: "YYYY-MM-DD", "DD/MM/YYYY" and "MM-DD-YYYY". */
  datatype DateFormat = YearMonthDay | DayMonthYear | MonthDayYear

  function Separator(f: DateFormat): (sep: string)
    ensures |sep| == 1
  {
    if f == DayMonthYear then "/" else "-"
  }

  /** The numbers read for the year, the month and the day. */
  datatype Fields = Fields(year: Num, month: Num, day: Num)

  /** The `k`-th piece of a split as a number; a piece the split did not produce is as falsy as NaN. */
  function Component(parts: seq<string>, k: nat): Num {
    if k < |parts| then ToNumber(parts[k]) else NaN
  }

  /** Splits `s` at the layout's separator and reads the fields in the layout's order; extra pieces are ignored. */
  function ReadFields(s: string, f: DateFormat): Fields {
    var parts := Split(s, Separator(f));
    match f
    case YearMonthDay => Fields(Component(parts, 0), Component(parts, 1), Component(parts, 2))
    case DayMonthYear => Fields(Component(parts, 2), Component(parts, 1), Component(parts, 0))
    case MonthDayYear => Fields(Component(parts, 2), Component(parts, 0), Component(parts, 1))
  }

  /**
   * `new Date(year, month - 1, day)` followed by the read-back check. The
   * getters reproduce the fields only for integers (the constructor truncates
   * the others, and turns infinities into an invalid date), outside 0..99
   * (those years are taken as 1900 + year), naming an existing day (any other
   * day or month rolls over into a different date) and inside the time-value
   * range (beyond it every getter returns NaN).
   */
  function ConstructDate(fields: Fields): Option<CivilDate> {
    if fields.year.Finite? && fields.month.Finite? && fields.day.Finite?
       && IsInteger(fields.year.value) && IsInteger(fields.month.value) && IsInteger(fields.day.value)
    then
      var d := CivilDate(fields.year.value.Floor, fields.month.value.Floor, fields.day.value.Floor);
      if 0 <= d.year <= 99 then None
      else if !IsCalendarDate(d) then None
      else if !TimeValueInRange(d) then None
      else Some(d)
    else None
  }

  /** The fields a `Date` for `d` reports. */
  function FieldsOf(d: CivilDate): Fields {
    Fields(Finite(d.year as real), Finite(d.month as real), Finite(d.day as real))
  }

  /** A date `formatDate` can return: an existing day, a year outside 0..99, inside the range of `Date`. */
  predicate Acceptable(d: CivilDate) {
    IsCalendarDate(d) && !(0 <= d.year <= 99) && WithinTimeRange(d)
  }

  /** The date kept from the fields read: None when a field is zero or NaN, or when the `Date` built does not read them back. */
  function DateOfFields(fields: Fields): (r: Option<CivilDate>)
    ensures r.Some? ==> Acceptable(r.value) && fields == FieldsOf(r.value)
  {
    if !Truthy(fields.day) || !Truthy(fields.month) || !Truthy(fields.year) then None
    else match ConstructDate(fields)
      case None => None
      case Some(d) =>
        TimeValueInRangeIffWithin(d);
        Some(d)
  }

  /**
   * `formatDate`: the date the text denotes in layout `f`, or None when a
   * field is missing, zero or NaN, or when the `Date` built from the fields
   * does not read back the same year, month and day.
   */
  function FormatDate(s: string, f: DateFormat): (r: Option<CivilDate>)
    ensures r.Some? ==> Acceptable(r.value)
    ensures r.Some? ==> ReadFields(s, f) == FieldsOf(r.value)
  {
    DateOfFields(ReadFields(s, f))
  }

  /** `validateDate`: the text denotes a date in layout `f` (the default layout is `YearMonthDay`). */
  predicate ValidateDate(s: string, f: DateFormat) {
    FormatDate(s, f).Some?
  }

  /**
   * `validateBirthDate`: a valid date on which someone born is at least
   * `minAge` years old on `today` (by default `minAge` is 0, so a date
   * after `today` is refused).
   */
  predicate ValidateBirthDate(s: string, minAge: int, f: DateFormat, today: CivilDate) {
    if !ValidateDate(s, f) then false
    else match FormatDate(s, f)
      case None => false
      case Some(birth) => Age(birth, today) >= minAge
  }

  // ---------------------------------------------------------------------
  // What formatDate accepts
  // ---------------------------------------------------------------------

  /** The fields of an acceptable date give that date back. */
  lemma DateOfFieldsComplete(d: CivilDate)
    requires Acceptable(d)
    ensures DateOfFields(FieldsOf(d)) == Some(d)
  {
    TimeValueInRangeIffWithin(d);
    assert d.year != 0;
    assert (d.year as real).Floor == d.year;
    assert (d.month as real).Floor == d.month;
    assert (d.day as real).Floor == d.day;
  }

  /** Whenever the fields read are those of an acceptable date, that date is returned. */
  lemma FormatDateComplete(s: string, f: DateFormat, d: CivilDate)
    requires Acceptable(d) && ReadFields(s, f) == FieldsOf(d)
    ensures FormatDate(s, f) == Some(d)
  {
    DateOfFieldsComplete(d);
  }

  /** `validateDate` holds exactly when the fields read are those of some acceptable date. */
  lemma ValidateDateIff(s: string, f: DateFormat)
    ensures ValidateDate(s, f) <==> exists d :: Acceptable(d) && ReadFields(s, f) == FieldsOf(d)
  {
    if d :| Acceptable(d) && ReadFields(s, f) == FieldsOf(d) {
      FormatDateComplete(s, f, d);
    }
  }

  // ---------------------------------------------------------------------
  // Dates written out
  // ---------------------------------------------------------------------

  /** The text of a date in layout `f`, from the numerals of its year, month and day. */
  function Layout(f: DateFormat, year: string, month: string, day: string): string {
    var sep := Separator(f);
    match f
    case YearMonthDay => year + sep + month + sep + day
    case DayMonthYear => day + sep + month + sep + year
    case MonthDayYear => month + sep + day + sep + year
  }

  /** A numeral contains neither separator. */
  lemma NumeralHasNoSeparator(s: string)
    requires IsNumeral(s)
    ensures '/' !in s && '-' !in s
  {
  }

  /** Splitting text written from three numerals with the same separator gives the numerals back. */
  lemma SplitThree(a: string, b: string, c: string, sep: char)
    requires IsNumeral(a) && IsNumeral(b) && IsNumeral(c)
    requires sep == '/' || sep == '-'
    ensures Split(a + [sep] + b + [sep] + c, [sep]) == [a, b, c]
  {
    NumeralHasNoSeparator(a);
    NumeralHasNoSeparator(b);
    NumeralHasNoSeparator(c);
    assert Join([c], [sep]) == c;
    assert Join([b, c], [sep]) == b + [sep] + c;
    assert Join([a, b, c], [sep]) == a + [sep] + (b + [sep] + c);
    assert a + [sep] + b + [sep] + c == a + [sep] + (b + [sep] + c);
    JoinSplit([a, b, c], sep);
  }

  /** The fields read from a layout are the numerals' values, in the layout's order. */
  lemma ReadLayout(f: DateFormat, year: string, month: string, day: string)
    requires IsNumeral(year) && IsNumeral(month) && IsNumeral(day)
    ensures ReadFields(Layout(f, year, month, day), f)
            == Fields(Finite(NumeralValue(year) as real), Finite(NumeralValue(month) as real),
                      Finite(NumeralValue(day) as real))
  {
    NumeralNumber(year);
    NumeralNumber(month);
    NumeralNumber(day);
    var sep := Separator(f)[0];
    assert Separator(f) == [sep];
    match f
    case YearMonthDay => SplitThree(year, month, day, sep);
    case DayMonthYear => SplitThree(day, month, year, sep);
    case MonthDayYear => SplitThree(month, day, year, sep);
  }

  /**
   * A date written with numerals in layout `f` is accepted exactly when the
   * numbers form an acceptable date, and then that date is returned; leading
   * zeros make no difference.
   */
  lemma LayoutRoundTrip(f: DateFormat, year: string, month: string, day: string)
    requires IsNumeral(year) && IsNumeral(month) && IsNumeral(day)
    ensures var d := CivilDate(NumeralValue(year), NumeralValue(month), NumeralValue(day));
            FormatDate(Layout(f, year, month, day), f) == if Acceptable(d) then Some(d) else None
  {
    var d := CivilDate(NumeralValue(year), NumeralValue(month), NumeralValue(day));
    ReadLayout(f, year, month, day);
    assert ReadFields(Layout(f, year, month, day), f) == FieldsOf(d);
    if Acceptable(d) {
      FormatDateComplete(Layout(f, year, month, day), f, d);
    }
  }

  /** `d` written in layout `f` without leading zeros. */
  function RenderDate(d: CivilDate, f: DateFormat): string
    requires d.year >= 0 && d.month >= 0 && d.day >= 0
  {
    Layout(f, DecimalString(d.year), DecimalString(d.month), DecimalString(d.day))
  }

  /** Every acceptable date with a non-negative year survives being written out and read back. */
  lemma RenderRoundTrip(d: CivilDate, f: DateFormat)
    requires Acceptable(d) && d.year >= 0
    ensures FormatDate(RenderDate(d, f), f) == Some(d)
  {
    DecimalStringValue(d.year);
    DecimalStringValue(d.month);
    DecimalStringValue(d.day);
    LayoutRoundTrip(f, DecimalString(d.year), DecimalString(d.month), DecimalString(d.day));
  }

  /** Text with no separator of the layout is a single piece: month and day are missing. */
  lemma NoSeparatorRejected(s: string, f: DateFormat)
    requires Separator(f)[0] !in s
    ensures FormatDate(s, f) == None
  {
    IndexOfCharAbsent(s, Separator(f)[0]);
    assert Split(s, Separator(f)) == [s];
  }

  /** Text written in a layout holds only digits and that layout's separator. */
  lemma LayoutCharacters(f: DateFormat, year: string, month: string, day: string, c: char)
    requires IsNumeral(year) && IsNumeral(month) && IsNumeral(day)
    requires c in Layout(f, year, month, day)
    ensures IsAsciiDigit(c) || c == Separator(f)[0]
  {
  }

  /** Slash text has no hyphen and hyphen text no slash, so the other layout finds a single piece. */
  lemma SeparatorMismatch(f: DateFormat, g: DateFormat, year: string, month: string, day: string)
    requires IsNumeral(year) && IsNumeral(month) && IsNumeral(day)
    requires Separator(f) != Separator(g)
    ensures FormatDate(Layout(f, year, month, day), g) == None
  {
    var s := Layout(f, year, month, day);
    if Separator(g)[0] in s {
      LayoutCharacters(f, year, month, day, Separator(g)[0]);
    }
    NoSeparatorRejected(s, g);
  }

  /** Year-first text read month-first puts the year, at least 100, on the month. */
  lemma YearFirstReadMonthFirst(year: string, month: string, day: string)
    requires IsNumeral(year) && IsNumeral(month) && IsNumeral(day)
    requires NumeralValue(year) >= 100
    ensures FormatDate(Layout(YearMonthDay, year, month, day), MonthDayYear) == None
  {
    assert Layout(MonthDayYear, day, year, month) == Layout(YearMonthDay, year, month, day);
    ReadLayout(MonthDayYear, day, year, month);
  }

  /** Month-first text read year-first puts a month, at most 12, on the year. */
  lemma MonthFirstReadYearFirst(year: string, month: string, day: string)
    requires IsNumeral(year) && IsNumeral(month) && IsNumeral(day)
    requires NumeralValue(month) <= 12
    ensures FormatDate(Layout(MonthDayYear, year, month, day), YearMonthDay) == None
  {
    assert Layout(YearMonthDay, month, day, year) == Layout(MonthDayYear, year, month, day);
    ReadLayout(YearMonthDay, month, day, year);
  }

  /**
   * A date written with numerals and accepted in one layout is refused in
   * every other: the slash layout and the hyphen layouts do not share a
   * separator, and between the two hyphen layouts the year would land on the
   * month, or a month on the year.
   */
  lemma LayoutsExclusive(f: DateFormat, g: DateFormat, year: string, month: string, day: string)
    requires IsNumeral(year) && IsNumeral(month) && IsNumeral(day)
    requires f != g
    requires ValidateDate(Layout(f, year, month, day), f)
    ensures !ValidateDate(Layout(f, year, month, day), g)
  {
    LayoutRoundTrip(f, year, month, day);
    if Separator(f) != Separator(g) {
      SeparatorMismatch(f, g, year, month, day);
    } else if f == YearMonthDay {
      YearFirstReadMonthFirst(year, month, day);
    } else {
      MonthFirstReadYearFirst(year, month, day);
    }
  }

  // ---------------------------------------------------------------------
  // Birth dates
  // ---------------------------------------------------------------------

  /**
   * `validateBirthDate` holds exactly when the text is a valid date whose
   * `minAge`-th anniversary (as a year, month and day) is not after `today`.
   */
  lemma BirthDateIff(s: string, minAge: int, f: DateFormat, today: CivilDate)
    ensures ValidateBirthDate(s, minAge, f, today)
            <==> FormatDate(s, f).Some?
                 && var b := FormatDate(s, f).value;
                    OnOrBefore(CivilDate(b.year + minAge, b.month, b.day), today)
  {
    if FormatDate(s, f).Some? {
      var b := FormatDate(s, f).value;
      AgeReached(b, today, minAge);
    }
  }

  /** Lowering the minimum age never turns an accepted birth date down. */
  lemma MinAgeMonotone(s: string, lower: int, minAge: int, f: DateFormat, today: CivilDate)
    requires lower <= minAge
    requires ValidateBirthDate(s, minAge, f, today)
    ensures ValidateBirthDate(s, lower, f, today)
  {
  }

  /** With the default minimum age a date after `today` is refused, and `today` itself is accepted. */
  lemma DefaultMinAge(s: string, f: DateFormat, today: CivilDate)
    requires ValidateDate(s, f)
    ensures ValidateBirthDate(s, 0, f, today) <==> OnOrBefore(FormatDate(s, f).value, today)
  {
    BirthDateIff(s, 0, f, today);
    var b := FormatDate(s, f).value;
    assert CivilDate(b.year + 0, b.month, b.day) == b;
  }
}
