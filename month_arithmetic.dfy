/**
 * Month and year arithmetic of ILocalDate
 * (core/src/main/java/com/maddy/calendar/core/ILocalDate.kt): `plusMonths`,
 * `minusMonths`, `plusYears` and `minusYear`.
 *
 * `plusMonths` does not clamp the day to the target month as its doc-comment
 * says: an overflowing day is carried into the month after (or, going back,
 * before) the target, without a year carry, so `Month.of` raises for month 0
 * or 13. `PlusMonths` is the code as written; `PlusMonthsClamped` is the
 * documented behaviour.
 */
module MonthArithmetic {
  import opened Outcomes
  import opened Months
  import opened Dates
  import KotlinMath

  /** `year * 12 + (monthValue - 1)`: the months from January of year 0 to the date's month. */
  function MonthCount(d: Date): int
  {
    d.year * 12 + d.month.Ordinal()
  }

  /** A month count fixes the year and the month. */
  lemma MonthCountInjective(a: Date, b: Date)
    requires MonthCount(a) == MonthCount(b)
    ensures a.year == b.year && a.month == b.month
  {
    var oa, ob := a.month.Ordinal(), b.month.Ordinal();
    assert (a.year - b.year) * 12 == ob - oa;
  }

  /** The smaller of two day numbers: Kotlin's `coerceAtMost`. */
  function Min(a: int, b: int): (r: int)
    ensures r <= a && r <= b && (r == a || r == b)
  {
    if a <= b then a else b
  }

  /** `checkValidMonth`: the month with that value, and JANUARY_BAISHAK for a value outside 1..12. */
  function CheckValidMonth(month: int): (m: Month)
    ensures 1 <= month <= 12 ==> m.Value() == month
    ensures !(1 <= month <= 12) ==> m == JanuaryBaishak
  {
    if month < JanuaryBaishak.Value() || month > DecemberChaitra.Value() then JanuaryBaishak
    else (month - 1) as Month
  }

  /**
   * `plusMonths(monthsToAdd)` as written. Zero returns the date. Otherwise the
   * target year is `Math.floorDiv` of the month count (narrowed to Int) and the
   * target month `floorMod(...).toInt() + 1`. A day that fits the target month
   * is kept; a larger one becomes `day - newMaxDays` in the month one further
   * in the direction of travel, with no year carry, and `of` rejects month 0
   * and month 13.
   */
  function PlusMonths(d: Date, monthsToAdd: int): Result<Date>
  {
    if monthsToAdd == 0 then Ok(d)
    else
      var isNegative := monthsToAdd < 0;
      var calcMonths := MonthCount(d) + monthsToAdd;
      var newYear := KotlinMath.FloorDiv(calcMonths, 12);
      var newMonth := KotlinMath.ToInt(KotlinMath.FloorMod(calcMonths, 12)) + 1;
      var newMaxDays := LengthOfMonth(newYear, CheckValidMonth(newMonth), d.kind);
      if d.day > newMaxDays then
        Dates.Of(newYear, if isNegative then newMonth - 1 else newMonth + 1, d.day - newMaxDays, d.kind)
      else
        Dates.Of(newYear, newMonth, d.day, d.kind)
  }

  /**
   * What the doc-comment of `plusMonths` promises: move to the month
   * `monthsToAdd` months away and clamp the day to the last day of that month.
   */
  function PlusMonthsClamped(d: Date, monthsToAdd: int): (r: Date)
    ensures r.kind == d.kind && MonthCount(r) == MonthCount(d) + monthsToAdd
    ensures r.day == Min(d.day, LengthOfMonth(r.year, r.month, r.kind))
    ensures Valid(d) ==> Valid(r)
  {
    var c := MonthCount(d) + monthsToAdd;
    var year, month := c / 12, (c % 12) as Month;
    Date(d.kind, year, month, Min(d.day, LengthOfMonth(year, month, d.kind)))
  }

  /** The month count after adding `n` months has a floor quotient that fits in an Int. */
  predicate InRange(d: Date, n: int)
  {
    KotlinMath.IsInt((MonthCount(d) + n) / 12)
  }

  /** In range, the year and month the code computes are those of the month count. */
  lemma TargetMonth(d: Date, n: int)
    requires InRange(d, n)
    ensures var c := MonthCount(d) + n;
      KotlinMath.FloorDiv(c, 12) == c / 12
      && KotlinMath.ToInt(KotlinMath.FloorMod(c, 12)) + 1 == c % 12 + 1
      && CheckValidMonth(c % 12 + 1) == (c % 12) as Month
  {
  }

  /**
   * When the day fits the target month (always for a day up to 28) the code
   * agrees with the documented behaviour.
   */
  lemma PlusMonthsFits(d: Date, n: int)
    ensures var t := PlusMonthsClamped(d, n);
      InRange(d, n) && d.day <= LengthOfMonth(t.year, t.month, t.kind) ==> PlusMonths(d, n) == Ok(t)
  {
    var t := PlusMonthsClamped(d, n);
    if InRange(d, n) && d.day <= LengthOfMonth(t.year, t.month, t.kind) {
      TargetMonth(d, n);
      if n == 0 {
        MonthCountInjective(d, t);
      }
    }
  }

  /**
   * When the day does not fit, the code carries the excess into the next month
   * in the direction of travel: month 0 and month 13 raise, any other month
   * gives a date one month beyond the target at day `day - newMaxDays`.
   */
  lemma PlusMonthsOverflows(d: Date, n: int)
    requires InRange(d, n) && n != 0
    requires var t := PlusMonthsClamped(d, n); d.day > LengthOfMonth(t.year, t.month, t.kind)
    ensures var t := PlusMonthsClamped(d, n);
      var len := LengthOfMonth(t.year, t.month, t.kind);
      var step := if n < 0 then -1 else 1;
      var value := t.month.Value() + step;
      && (value == 0 ==> PlusMonths(d, n) == Err(InvalidMonthOfYear(0)))
      && (value == 13 ==> PlusMonths(d, n) == Err(InvalidMonthOfYear(13)))
      && (1 <= value <= 12 ==>
            && PlusMonths(d, n).Ok?
            && MonthCount(PlusMonths(d, n).value) == MonthCount(d) + n + step
            && PlusMonths(d, n).value.day == d.day - len)
  {
    TargetMonth(d, n);
  }

  /** `minusMonths(monthsToSubtract)` = plusMonths(-monthsToSubtract). */
  function MinusMonths(d: Date, monthsToSubtract: int): (r: Result<Date>)
    ensures var t := PlusMonthsClamped(d, -monthsToSubtract);
      InRange(d, -monthsToSubtract) && d.day <= LengthOfMonth(t.year, t.month, t.kind) ==> r == Ok(t)
  {
    PlusMonthsFits(d, -monthsToSubtract);
    PlusMonths(d, -monthsToSubtract)
  }

  /** The documented behaviour undoes itself whenever the day fits the target month. */
  lemma ClampedRoundTrip(d: Date, n: int)
    requires Valid(d)
    requires var t := PlusMonthsClamped(d, n); d.day <= LengthOfMonth(t.year, t.month, t.kind)
    ensures PlusMonthsClamped(PlusMonthsClamped(d, n), -n) == d
  {
    var t := PlusMonthsClamped(d, n);
    var u := PlusMonthsClamped(t, -n);
    MonthCountInjective(u, d);
  }

  /**
   * The test's round trip: for a valid date with day-of-month up to 28,
   * plusMonths(n) then plusMonths(-n) gives the date back.
   */
  lemma PlusMonthsRoundTrip(d: Date, n: int)
    requires Valid(d) && d.day <= 28 && KotlinMath.IsInt(d.year) && InRange(d, n)
    ensures PlusMonths(d, n).Ok? && PlusMonths(PlusMonths(d, n).value, -n) == Ok(d)
  {
    var t := PlusMonthsClamped(d, n);
    PlusMonthsFits(d, n);
    assert MonthCount(t) + -n == MonthCount(d);
    assert InRange(t, -n);
    PlusMonthsFits(t, -n);
    ClampedRoundTrip(d, n);
  }

  /** 03-31 plus one month is 05-01, where the doc-comment promises 04-30. */
  lemma PlusMonthsDoesNotClamp(year: int)
    requires KotlinMath.IsInt(year)
    ensures PlusMonths(Date(AD, year, MarchAsadh, 31), 1) == Ok(Date(AD, year, MayBhadra, 1))
    ensures PlusMonthsClamped(Date(AD, year, MarchAsadh, 31), 1) == Date(AD, year, AprilShrwan, 30)
  {
    var d := Date(AD, year, MarchAsadh, 31);
    MonthCountInjective(PlusMonthsClamped(d, 1), Date(AD, year, AprilShrwan, 1));
    PlusMonthsOverflows(d, 1);
    MonthCountInjective(PlusMonths(d, 1).value, Date(AD, year, MayBhadra, 1));
  }

  /** 03-31 minus one month is 01-03 (01-02 in a leap year), where the doc-comment promises the end of February. */
  lemma MinusMonthsDoesNotClamp(year: int)
    requires KotlinMath.IsInt(year)
    ensures MinusMonths(Date(AD, year, MarchAsadh, 31), 1)
         == Ok(Date(AD, year, JanuaryBaishak, if IsLeapYear(year, AD) then 2 else 3))
    ensures PlusMonthsClamped(Date(AD, year, MarchAsadh, 31), -1)
         == Date(AD, year, FebruaryJestha, if IsLeapYear(year, AD) then 29 else 28)
  {
    var d := Date(AD, year, MarchAsadh, 31);
    MonthCountInjective(PlusMonthsClamped(d, -1), Date(AD, year, FebruaryJestha, 1));
    PlusMonthsOverflows(d, -1);
    MonthCountInjective(PlusMonths(d, -1).value, Date(AD, year, JanuaryBaishak, 1));
  }

  /** Going back from February with a day past the end of January asks `Month.of` for month 0. */
  lemma OverflowBeforeJanuary(d: Date)
    requires KotlinMath.IsInt(d.year) && d.month == FebruaryJestha
    requires d.day > LengthOfMonth(d.year, JanuaryBaishak, d.kind)
    ensures PlusMonths(d, -1) == Err(InvalidMonthOfYear(0))
  {
    var t := PlusMonthsClamped(d, -1);
    MonthCountInjective(t, Date(d.kind, d.year, JanuaryBaishak, 1));
    PlusMonthsOverflows(d, -1);
  }

  /** Landing on December of the same year with a day past its end asks `Month.of` for month 13. */
  lemma OverflowAfterDecember(d: Date, n: int)
    requires KotlinMath.IsInt(d.year) && n > 0 && d.month.Ordinal() + n == 11
    requires d.day > LengthOfMonth(d.year, DecemberChaitra, d.kind)
    ensures PlusMonths(d, n) == Err(InvalidMonthOfYear(13))
  {
    var t := PlusMonthsClamped(d, n);
    MonthCountInjective(t, Date(d.kind, d.year, DecemberChaitra, 1));
    PlusMonthsOverflows(d, n);
  }

  /** BS 2000-02-32 minus one month and BS 2001-05-31 plus seven months raise. */
  lemma PlusMonthsRaises()
    ensures PlusMonths(Date(BS, 2000, FebruaryJestha, 32), -1) == Err(InvalidMonthOfYear(0))
    ensures PlusMonths(Date(BS, 2001, MayBhadra, 31), 7) == Err(InvalidMonthOfYear(13))
  {
    BsCalendar.Row2000();
    BsCalendar.Row2001();
    OverflowBeforeJanuary(Date(BS, 2000, FebruaryJestha, 32));
    OverflowAfterDecember(Date(BS, 2001, MayBhadra, 31), 7);
  }

  /**
   * `plusYears(yearsToAdd)`: zero returns the date; otherwise the year moves by
   * `yearsToAdd.toInt()` and the day is clamped to the length of the same month
   * in the new year.
   */
  function PlusYears(d: Date, yearsToAdd: int): (r: Date)
    ensures r.kind == d.kind && r.month == d.month
    ensures KotlinMath.IsInt(yearsToAdd) ==> r.year == d.year + yearsToAdd
    ensures Valid(d) ==> Valid(r) && r.day == Min(d.day, LengthOfMonth(r.year, r.month, r.kind))
  {
    if yearsToAdd == 0 then d
    else
      var newYear := d.year + KotlinMath.ToInt(yearsToAdd);
      Date(d.kind, newYear, d.month, Min(d.day, LengthOfMonth(newYear, d.month, d.kind)))
  }

  /** Adding years is adding twelve times as many months, with the documented clamp. */
  lemma PlusYearsIsTwelveMonths(d: Date, n: int)
    requires Valid(d) && KotlinMath.IsInt(n)
    ensures PlusYears(d, n) == PlusMonthsClamped(d, 12 * n)
  {
    var t := PlusMonthsClamped(d, 12 * n);
    assert MonthCount(PlusYears(d, n)) == MonthCount(t);
    MonthCountInjective(PlusYears(d, n), t);
  }

  /** `minusYear(yearsToSubtract)` = plusYears(-yearsToSubtract). */
  function MinusYear(d: Date, yearsToSubtract: int): (r: Date)
    ensures r.kind == d.kind && r.month == d.month
    ensures KotlinMath.IsInt(-yearsToSubtract) ==> r.year == d.year - yearsToSubtract
    ensures Valid(d) ==> Valid(r) && r.day == Min(d.day, LengthOfMonth(r.year, r.month, r.kind))
  {
    PlusYears(d, -yearsToSubtract)
  }

  /** A leap day moves to February 28 in a common year. */
  lemma PlusYearsFromLeapDay()
    ensures PlusYears(Date(AD, 2008, FebruaryJestha, 29), 1) == Date(AD, 2009, FebruaryJestha, 28)
    ensures MinusYear(Date(AD, 2008, FebruaryJestha, 29), 1) == Date(AD, 2007, FebruaryJestha, 28)
  {
    assert IsLeapYear(2008, AD) && !IsLeapYear(2009, AD) && !IsLeapYear(2007, AD);
  }

  /** For a day up to 28 adding and then subtracting years gives the date back. */
  lemma PlusYearsRoundTrip(d: Date, n: int)
    requires Valid(d) && d.day <= 28 && KotlinMath.IsInt(n) && KotlinMath.IsInt(-n)
    ensures PlusYears(PlusYears(d, n), -n) == d
  {
  }
}
