/**
 * One cell of the month grid (ui/src/main/java/com/maddy/calendar/ui/model/CalendarDay.kt):
 * a date together with the month page that owns it. Out-dates of the previous
 * or next month share their date with an in-date of another page, so equality
 * includes the owner and cells are never ordered directly.
 */
module CalendarDays {
  import opened Outcomes
  import opened Months
  import opened Dates
  import MonthArithmetic
  import Conversion
  import KotlinMath

  /** Which month the cell belongs to, relative to the page it is drawn on. */
  datatype DayOwner = ThisMonth | PreviousMonth | NextMonth

  /** `CalendarDay(date, owner)`; `day` is the copy of the day-of-month taken at construction. */
  datatype CalendarDay = CalendarDay(date: Date, owner: DayOwner, day: int)

  /** The constructor: `day` mirrors the date's day-of-month. */
  function New(date: Date, owner: DayOwner): (c: CalendarDay)
    ensures c.date == date && c.owner == owner
    ensures c.day == date.day
  {
    CalendarDay(date, owner, date.day)
  }

  /** The months `positionYearMonth` moves by: none, back one (`previous`), forward one (`next`). */
  function Offset(owner: DayOwner): (n: int)
    ensures -1 <= n <= 1
    ensures n == 0 <==> owner == ThisMonth
  {
    match owner
    case ThisMonth => 0
    case PreviousMonth => -1
    case NextMonth => 1
  }

  /**
   * `positionYearMonth`: the date itself for THIS_MONTH, `minusMonths(1)` for
   * PREVIOUS_MONTH and `plusMonths(1)` for NEXT_MONTH. It inherits
   * `plusMonths`' behaviour, so it agrees with the documented clamped month
   * step only when the day fits the target month.
   */
  function PositionYearMonth(c: CalendarDay): (r: Result<Date>)
    ensures c.owner == ThisMonth ==> r == Ok(c.date)
    ensures var n := Offset(c.owner);
      var t := MonthArithmetic.PlusMonthsClamped(c.date, n);
      (c.owner != ThisMonth && MonthArithmetic.InRange(c.date, n)
       && c.date.day <= LengthOfMonth(t.year, t.month, t.kind)) ==> r == Ok(t)
  {
    MonthArithmetic.PlusMonthsFits(c.date, 1);
    match c.owner
    case ThisMonth => Ok(c.date)
    case PreviousMonth => MonthArithmetic.MinusMonths(c.date, 1)
    case NextMonth => MonthArithmetic.PlusMonths(c.date, 1)
  }

  /**
   * A cell whose day is at most 28 is positioned in the month its owner names:
   * the month count moves by the owner's offset, and day and calendar are kept.
   */
  lemma PositionMonth(c: CalendarDay)
    requires MonthArithmetic.InRange(c.date, Offset(c.owner))
    requires 1 <= c.date.day <= 28
    ensures PositionYearMonth(c).Ok?
    ensures var p := PositionYearMonth(c).value;
      && MonthArithmetic.MonthCount(p) == MonthArithmetic.MonthCount(c.date) + Offset(c.owner)
      && p.day == c.date.day && p.kind == c.date.kind
  {
    var t := MonthArithmetic.PlusMonthsClamped(c.date, Offset(c.owner));
    assert c.date.day <= LengthOfMonth(t.year, t.month, t.kind);
  }

  /**
   * The position of a NEXT_MONTH cell, seen as a PREVIOUS_MONTH cell, is
   * positioned back at the original date (for a day of at most 28).
   */
  lemma NextThenPrevious(date: Date)
    requires Valid(date) && date.day <= 28 && KotlinMath.IsInt(date.year)
    requires MonthArithmetic.InRange(date, 1)
    ensures PositionYearMonth(New(date, NextMonth)).Ok?
    ensures PositionYearMonth(New(PositionYearMonth(New(date, NextMonth)).value, PreviousMonth)) == Ok(date)
  {
    MonthArithmetic.PlusMonthsRoundTrip(date, 1);
  }

  /**
   * A PREVIOUS_MONTH cell on an AD 31 March is not positioned in February: the
   * overflowing day is carried into January.
   */
  lemma PreviousOfMarch31(year: int)
    requires KotlinMath.IsInt(year)
    ensures PositionYearMonth(New(Date(AD, year, MarchAsadh, 31), PreviousMonth))
         == Ok(Date(AD, year, JanuaryBaishak, if IsLeapYear(year, AD) then 2 else 3))
  {
    MonthArithmetic.MinusMonthsDoesNotClamp(year);
  }

  /**
   * `equals`: the dates are equal as ILocalDate values (`compareTo` gives zero)
   * and the owners are the same.
   */
  function Equals(a: CalendarDay, b: CalendarDay): (r: bool)
    ensures r ==> a.owner == b.owner && SameFields(a.date, b.date)
    ensures a.date.kind == b.date.kind ==> (r <==> a.date == b.date && a.owner == b.owner)
  {
    Conversion.Equals(a.date, b.date) && a.owner == b.owner
  }

  /** Every cell equals itself, and cells for one date with different owners are distinct. */
  lemma EqualsOwner(date: Date, o1: DayOwner, o2: DayOwner)
    ensures Equals(New(date, o1), New(date, o2)) <==> o1 == o2
  {
  }

  /** `compareTo` always raises UnsupportedOperationException. */
  function CompareTo(a: CalendarDay, b: CalendarDay): (r: Result<int>)
    ensures r.Err? && r.error == UnsupportedOperation
  {
    Err(UnsupportedOperation)
  }
}
