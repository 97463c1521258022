/** Civil date to Julian Day, as `toJD` in www/js/prayer.js does it, and the
    proleptic Gregorian calendar the formula is checked against. */
module Calendar {

  /** The Julian Day at which the given civil date begins (midnight), as the
      source computes it. The source takes `Math.floor` of a non-negative or
      negative quotient by 12, 4 or 9; Dafny's `/` on `int` with a positive
      divisor rounds down too, so it is the same operation. The result is
      always a whole number plus one half. */
  function ToJD(year: int, month: int, day: int): (jd: real)
    ensures jd.Floor as real + 0.5 == jd
  {
    var days := 367 * year - (7 * (year + (month + 9) / 12)) / 4 + (275 * month) / 9 + day;
    assert (days as real + 1721013.5).Floor == days + 1721013;
    days as real + 1721013.5
  }

  /** A civil date. */
  datatype Date = Date(year: int, month: int, day: int)

  /** The Gregorian leap-year rule, with the 100 and 400 year exceptions. */
  predicate IsLeapYear(year: int) {
    year % 4 == 0 && (year % 100 != 0 || year % 400 == 0)
  }

  function DaysInMonth(year: int, month: int): (n: int)
    requires 1 <= month <= 12
    ensures 28 <= n <= 31
    ensures n == 29 <==> month == 2 && IsLeapYear(year)
  {
    if month == 2 then (if IsLeapYear(year) then 29 else 28)
    else if month == 4 || month == 6 || month == 9 || month == 11 then 30
    else 31
  }

  predicate ValidDate(dt: Date) {
    1 <= dt.month <= 12 && 1 <= dt.day <= DaysInMonth(dt.year, dt.month)
  }

  /** The day after `dt` in the Gregorian calendar: the reference that `ToJD`
      is compared with. */
  function NextDay(dt: Date): (next: Date)
    requires ValidDate(dt)
    ensures ValidDate(next)
    ensures next.year == dt.year || (next.year == dt.year + 1 && next.month == 1 && next.day == 1)
    ensures next.day == 1 || (next.year == dt.year && next.month == dt.month && next.day == dt.day + 1)
  {
    if dt.day < DaysInMonth(dt.year, dt.month) then Date(dt.year, dt.month, dt.day + 1)
    else if dt.month < 12 then Date(dt.year, dt.month + 1, 1)
    else Date(dt.year + 1, 1, 1)
  }

  function JulianDay(dt: Date): real {
    ToJD(dt.year, dt.month, dt.day)
  }

  /** The year term of the formula grows by 1 across a year divisible by 4
      and by 2 across any other year. */
  lemma {:induction false} YearTermStep(y: int)
    ensures (7 * (y + 1)) / 4 - (7 * y) / 4 == (if y % 4 == 0 then 1 else 2)
  {
    var k := y / 4;
    var r := y % 4;
    assert y == 4 * k + r;
    assert 7 * y == 4 * (7 * k) + 7 * r;
    assert 7 * (y + 1) == 4 * (7 * k) + 7 * r + 7;
    if r == 0 {
      assert (7 * y) / 4 == 7 * k;
      assert (7 * (y + 1)) / 4 == 7 * k + 1;
    } else if r == 1 {
      assert (7 * y) / 4 == 7 * k + 1;
      assert (7 * (y + 1)) / 4 == 7 * k + 3;
    } else if r == 2 {
      assert (7 * y) / 4 == 7 * k + 3;
      assert (7 * (y + 1)) / 4 == 7 * k + 5;
    } else {
      assert (7 * y) / 4 == 7 * k + 5;
      assert (7 * (y + 1)) / 4 == 7 * k + 7;
    }
  }

  /** The month term of the formula grows by the length of the month, for
      every month but February and December. */
  lemma {:induction false} MonthTermStep(year: int, month: int)
    requires 1 <= month <= 11 && month != 2
    ensures (275 * (month + 1)) / 9 - (275 * month) / 9 == DaysInMonth(year, month)
    ensures (month + 9) / 12 == (month + 10) / 12
  {
    if month == 1 {
    } else if month == 3 {
    } else if month == 4 {
    } else if month == 5 {
    } else if month == 6 {
    } else if month == 7 {
    } else if month == 8 {
    } else if month == 9 {
    } else if month == 10 {
    } else {
    }
  }

  /** From the last day of a month other than February or December to the
      first of the next. */
  lemma {:induction false} MonthEndStep(year: int, month: int)
    requires 1 <= month <= 11 && month != 2
    ensures ToJD(year, month + 1, 1) == ToJD(year, month, DaysInMonth(year, month)) + 1.0
  {
    MonthTermStep(year, month);
  }

  /** From the last day of February to 1 March: 29 February exists exactly in
      the years the formula treats as leap years, which between 1901 and 2099
      are the Gregorian ones. */
  lemma {:induction false} FebruaryEndStep(year: int)
    requires 1901 <= year <= 2099
    ensures ToJD(year, 3, 1) == ToJD(year, 2, DaysInMonth(year, 2)) + 1.0
  {
    YearTermStep(year);
    assert IsLeapYear(year) <==> year % 4 == 0;
  }

  /** From 31 December to 1 January of the next year. */
  lemma {:induction false} YearEndStep(year: int)
    ensures ToJD(year + 1, 1, 1) == ToJD(year, 12, 31) + 1.0
  {
    assert (12 + 9) / 12 == 1 && (1 + 9) / 12 == 0;
  }

  /** Between 1901 and 2099 the formula counts days exactly: the Julian Day of
      the Gregorian successor of any valid date is one more, across month and
      year ends and leap days alike. Together with `ToJDEpoch` this pins the
      formula to the calendar over that range. */
  lemma {:induction false} ToJDCountsDays(dt: Date)
    requires ValidDate(dt)
    requires 1901 <= dt.year <= 2099
    ensures JulianDay(NextDay(dt)) == JulianDay(dt) + 1.0
  {
    var y, m := dt.year, dt.month;
    if dt.day < DaysInMonth(y, m) {
      ToJDDayStep(y, m, dt.day);
    } else if m == 2 {
      FebruaryEndStep(y);
    } else if m == 12 {
      YearEndStep(y);
    } else {
      MonthEndStep(y, m);
    }
  }

  /** The reference date: 1 January 2000 begins at Julian Day 2451544.5. */
  lemma ToJDEpoch()
    ensures ToJD(2000, 1, 1) == 2451544.5
  {
  }

  /** Advancing the day of the month by one, with year and month fixed, adds
      exactly one day, for any integers. */
  lemma ToJDDayStep(year: int, month: int, day: int)
    ensures ToJD(year, month, day + 1) == ToJD(year, month, day) + 1.0
  {
  }

  /** The formula applies the Julian leap rule: in 2100, which the Gregorian
      calendar does not make a leap year, it puts two days between 28 February
      and 1 March. */
  lemma ToJDMissesCenturyRule()
    ensures NextDay(Date(2100, 2, 28)) == Date(2100, 3, 1)
    ensures ToJD(2100, 3, 1) == ToJD(2100, 2, 28) + 2.0
  {
  }
}
