/**
 * Calendar dates at day granularity, as Carbon and MySQL `DATE` columns use
 * them: the `Y-m-d` text form the date simulator accepts and stores, and a day
 * number (days since 0000-01-01 in the proleptic Gregorian calendar) so that
 * "days overdue" is a subtraction.
 */
module Calendar {
  import opened Wrappers
  import opened Text

  datatype Ymd = Ymd(year: nat, month: nat, day: nat)

  predicate IsLeapYear(y: nat) {
    y % 4 == 0 && (y % 100 != 0 || y % 400 == 0)
  }

  function DaysInMonth(y: nat, m: nat): (n: nat)
    requires 1 <= m <= 12
    ensures 28 <= n <= 31
  {
    if m == 2 then (if IsLeapYear(y) then 29 else 28)
    else if m == 4 || m == 6 || m == 9 || m == 11 then 30
    else 31
  }

  /** A real calendar date with a four-digit year. */
  predicate IsValidDate(d: Ymd) {
    d.year <= 9999 && 1 <= d.month <= 12 && 1 <= d.day <= DaysInMonth(d.year, d.month)
  }

  type CalendarDate = d: Ymd | IsValidDate(d) witness Ymd(1970, 1, 1)

  function DaysInYear(y: nat): nat {
    if IsLeapYear(y) then 366 else 365
  }

  function DaysBeforeYear(y: nat): nat {
    if y == 0 then 0 else DaysBeforeYear(y - 1) + DaysInYear(y - 1)
  }

  function DaysBeforeMonth(y: nat, m: nat): nat
    requires 1 <= m <= 12
  {
    var common :=
      if m == 1 then 0 else if m == 2 then 31 else if m == 3 then 59
      else if m == 4 then 90 else if m == 5 then 120 else if m == 6 then 151
      else if m == 7 then 181 else if m == 8 then 212 else if m == 9 then 243
      else if m == 10 then 273 else if m == 11 then 304 else 334;
    common + (if m > 2 && IsLeapYear(y) then 1 else 0)
  }

  /** Days from 0000-01-01 to `d`. */
  function DayNumber(d: CalendarDate): int {
    DaysBeforeYear(d.year) + DaysBeforeMonth(d.year, d.month) + d.day - 1
  }

  /** Calendar order: year, then month, then day. */
  predicate Before(a: Ymd, b: Ymd) {
    a.year < b.year
    || (a.year == b.year && a.month < b.month)
    || (a.year == b.year && a.month == b.month && a.day < b.day)
  }

  lemma DayOfYearBound(d: CalendarDate)
    ensures DaysBeforeMonth(d.year, d.month) + d.day <= DaysInYear(d.year)
  {
  }

  lemma MonthOrder(y: nat, m1: nat, m2: nat)
    requires 1 <= m1 < m2 <= 12
    ensures DaysBeforeMonth(y, m1) + DaysInMonth(y, m1) <= DaysBeforeMonth(y, m2)
  {
  }

  lemma {:induction false} YearOrder(y1: nat, y2: nat)
    requires y1 < y2
    ensures DaysBeforeYear(y1) + DaysInYear(y1) <= DaysBeforeYear(y2)
  {
    if y1 + 1 < y2 {
      YearOrder(y1, y2 - 1);
    }
  }

  /** Day numbers follow calendar order, so comparing day numbers compares dates. */
  lemma {:induction false} DayNumberFollowsCalendar(a: CalendarDate, b: CalendarDate)
    requires Before(a, b)
    ensures DayNumber(a) < DayNumber(b)
  {
    if a.year < b.year {
      DayOfYearBound(a);
      YearOrder(a.year, b.year);
    } else if a.month < b.month {
      MonthOrder(a.year, a.month, b.month);
    }
  }

  /** The following calendar day; None only after 9999-12-31, the last four-digit date. */
  function NextDay(d: CalendarDate): (n: Option<CalendarDate>)
    ensures n.None? <==> d == Ymd(9999, 12, 31)
    ensures n.Some? ==> Before(d, n.value)
  {
    if d.day < DaysInMonth(d.year, d.month) then Some(Ymd(d.year, d.month, d.day + 1))
    else if d.month < 12 then Some(Ymd(d.year, d.month + 1, 1))
    else if d.year < 9999 then Some(Ymd(d.year + 1, 1, 1))
    else None
  }

  /** Consecutive calendar days have consecutive day numbers, so adding 14 is two weeks later. */
  lemma NextDayNumber(d: CalendarDate)
    requires NextDay(d).Some?
    ensures DayNumber(NextDay(d).value) == DayNumber(d) + 1
  {
    if d.day == DaysInMonth(d.year, d.month) && d.month == 12 {
      assert DaysBeforeYear(d.year + 1) == DaysBeforeYear(d.year) + DaysInYear(d.year);
    }
  }

  // ---------------------------------------------------------------------------
  // The Y-m-d text form

  /**
   * The date written as `Y-m-d`: a four-digit year, a two-digit month and a
   * two-digit day, zero-padded and separated by dashes.
   */
  function FormatYmd(d: CalendarDate): (s: string)
    ensures |s| == 10 && s[4] == '-' && s[7] == '-'
  {
    FixedDigits(d.year, 4) + "-" + FixedDigits(d.month, 2) + "-" + FixedDigits(d.day, 2)
  }

  /**
   * Laravel's `date_format:Y-m-d` rule followed by Carbon's
   * `createFromFormat('Y-m-d', s)`: the text is accepted exactly when parsing it
   * and formatting the date again gives the same text, which rejects missing
   * padding, month 00 or 13, day 00 and days past the end of the month.
   */
  function ParseYmd(s: string): Option<CalendarDate> {
    if |s| == 10 && s[4] == '-' && s[7] == '-'
       && AllDigits(s[..4]) && AllDigits(s[5..7]) && AllDigits(s[8..])
    then
      var d := Ymd(DigitsValue(s[..4]), DigitsValue(s[5..7]), DigitsValue(s[8..]));
      if IsValidDate(d) then Some(d) else None
    else None
  }

  lemma Pow10Small()
    ensures Pow10(2) == 100 && Pow10(4) == 10000
  {
    assert Pow10(1) == 10;
    assert Pow10(3) == 1000;
  }

  /** Every date reads back from its own text. */
  lemma FormatThenParse(d: CalendarDate)
    ensures ParseYmd(FormatYmd(d)) == Some(d)
  {
    var s := FormatYmd(d);
    assert s[..4] == FixedDigits(d.year, 4);
    assert s[5..7] == FixedDigits(d.month, 2);
    assert s[8..] == FixedDigits(d.day, 2);
    Pow10Small();
    FixedDigitsValue(d.year, 4);
    FixedDigitsValue(d.month, 2);
    FixedDigitsValue(d.day, 2);
  }

  /** Accepted text is exactly the text of the date it denotes. */
  lemma ParseThenFormat(s: string)
    requires ParseYmd(s).Some?
    ensures FormatYmd(ParseYmd(s).value) == s
  {
    var d := ParseYmd(s).value;
    FixedDigitsOfValue(s[..4]);
    FixedDigitsOfValue(s[5..7]);
    FixedDigitsOfValue(s[8..]);
    assert s == s[..4] + "-" + s[5..7] + "-" + s[8..];
  }

  /** Accepted text starts with a digit, so it is never blank. */
  lemma ParsedTextIsNotBlank(s: string)
    requires ParseYmd(s).Some?
    ensures Trim(s) != []
  {
    assert s[..4][0] == s[0];
    assert !IsTrimmable(s[0]);
  }

  lemma BlankTextIsNotParsed(s: string)
    requires Trim(s) == []
    ensures ParseYmd(s).None?
  {
    if |s| == 10 {
      assert IsTrimmable(s[0]) && s[..4][0] == s[0];
      assert !AllDigits(s[..4]);
    }
  }
}
