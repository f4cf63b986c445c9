/**
 * One page of the calendar view (ui/src/main/java/com/maddy/calendar/ui/model/CalendarMonth.kt):
 * a year-month, the grid of weeks drawn on it, and its position among the
 * pages that show the same year-month. Pages are ordered by year-month and then
 * by that position; two pages are equal when their year-months are equal and
 * the grids start and end on equal cells.
 */
module CalendarMonths {
  import opened Outcomes
  import opened Months
  import opened Dates
  import MonthArithmetic
  import Conversion
  import KotlinMath
  import CalendarDays

  /**
   * `CalendarMonth(yearMonth, weekDays, indexInSameMonth, numberOfSameMonth)`;
   * `year` and `month` are the copies taken at construction.
   */
  datatype CalendarMonth = CalendarMonth(
    yearMonth: Date,
    weekDays: seq<seq<CalendarDays.CalendarDay>>,
    indexInSameMonth: int,
    numberOfSameMonth: int,
    year: int,
    month: int)

  /** The constructor: `year` is the year-month's year and `month` its month value. */
  function New(yearMonth: Date, weekDays: seq<seq<CalendarDays.CalendarDay>>,
               indexInSameMonth: int, numberOfSameMonth: int): (p: CalendarMonth)
    ensures p.yearMonth == yearMonth && p.weekDays == weekDays
    ensures p.indexInSameMonth == indexInSameMonth && p.numberOfSameMonth == numberOfSameMonth
    ensures p.year == yearMonth.year && 1 <= p.month <= 12 && Months.Of(p.month) == Ok(yearMonth.month)
  {
    CalendarMonth(yearMonth, weekDays, indexInSameMonth, numberOfSameMonth,
                  yearMonth.year, yearMonth.month.Value())
  }

  /** A grid whose first and last weeks are non-empty: `first().first()` and `last().last()` exist. */
  predicate Bounded(weeks: seq<seq<CalendarDays.CalendarDay>>)
  {
    |weeks| > 0 && |weeks[0]| > 0 && |weeks[|weeks| - 1]| > 0
  }

  /** `weekDays.first().first()`: NoSuchElementException on an empty list. */
  function FirstDay(weeks: seq<seq<CalendarDays.CalendarDay>>): (r: Result<CalendarDays.CalendarDay>)
    ensures r.Ok? <==> |weeks| > 0 && |weeks[0]| > 0
    ensures r.Ok? ==> r.value == weeks[0][0]
    ensures r.Err? ==> r.error == NoSuchElement
  {
    if |weeks| == 0 || |weeks[0]| == 0 then Err(NoSuchElement) else Ok(weeks[0][0])
  }

  /** `weekDays.last().last()`: NoSuchElementException on an empty list. */
  function LastDay(weeks: seq<seq<CalendarDays.CalendarDay>>): (r: Result<CalendarDays.CalendarDay>)
    ensures r.Ok? <==> |weeks| > 0 && |weeks[|weeks| - 1]| > 0
    ensures r.Ok? ==> var last := weeks[|weeks| - 1]; r.value == last[|last| - 1]
    ensures r.Err? ==> r.error == NoSuchElement
  {
    if |weeks| == 0 then Err(NoSuchElement)
    else
      var last := weeks[|weeks| - 1];
      if |last| == 0 then Err(NoSuchElement) else Ok(last[|last| - 1])
  }

  /** The cell both grids must agree on at one end, evaluated left before right. */
  function SameCell(a: Result<CalendarDays.CalendarDay>, b: Result<CalendarDays.CalendarDay>): (r: Result<bool>)
    ensures r.Err? <==> a.Err? || b.Err?
    ensures r.Err? ==> r.error == (if a.Err? then a.error else b.error)
    ensures r.Ok? ==> (r.value <==> CalendarDays.Equals(a.value, b.value))
  {
    if a.Err? then Err(a.error)
    else if b.Err? then Err(b.error)
    else Ok(CalendarDays.Equals(a.value, b.value))
  }

  /**
   * `equals`: the short-circuit conjunction of equal year-months, equal first
   * cells and equal last cells. An empty grid raises as soon as its first or
   * last cell is asked for; interior cells are never looked at.
   */
  function Equals(a: CalendarMonth, b: CalendarMonth): (r: Result<bool>)
    ensures r == Ok(true) <==>
      && Conversion.Equals(a.yearMonth, b.yearMonth)
      && Bounded(a.weekDays) && Bounded(b.weekDays)
      && CalendarDays.Equals(a.weekDays[0][0], b.weekDays[0][0])
      && CalendarDays.Equals(Last(a.weekDays), Last(b.weekDays))
    ensures r.Err? ==> r.error == NoSuchElement
    ensures Bounded(a.weekDays) && Bounded(b.weekDays) ==> r.Ok?
    ensures !Conversion.Equals(a.yearMonth, b.yearMonth) ==> r == Ok(false)
  {
    if !Conversion.Equals(a.yearMonth, b.yearMonth) then Ok(false)
    else
      var first := SameCell(FirstDay(a.weekDays), FirstDay(b.weekDays));
      if first != Ok(true) then first
      else SameCell(LastDay(a.weekDays), LastDay(b.weekDays))
  }

  /** The last cell of a grid whose last week is non-empty. */
  function Last(weeks: seq<seq<CalendarDays.CalendarDay>>): CalendarDays.CalendarDay
    requires |weeks| > 0 && |weeks[|weeks| - 1]| > 0
  {
    var last := weeks[|weeks| - 1];
    last[|last| - 1]
  }

  /** Pages found equal show the same year and month. */
  lemma EqualPagesShareYearMonth(a: CalendarMonth, b: CalendarMonth)
    requires a == New(a.yearMonth, a.weekDays, a.indexInSameMonth, a.numberOfSameMonth)
    requires b == New(b.yearMonth, b.weekDays, b.indexInSameMonth, b.numberOfSameMonth)
    requires Equals(a, b) == Ok(true)
    ensures a.year == b.year && a.month == b.month
  {
    assert SameFields(a.yearMonth, b.yearMonth);
  }

  /**
   * Equality ignores the page index and every interior cell: a page equals any
   * page of the same year-month (same calendar) whose grid starts and ends on
   * the same cells.
   */
  lemma EqualsIgnoresInterior(a: CalendarMonth, b: CalendarMonth)
    requires Bounded(a.weekDays) && Bounded(b.weekDays)
    requires a.yearMonth == b.yearMonth
    requires a.weekDays[0][0] == b.weekDays[0][0] && Last(a.weekDays) == Last(b.weekDays)
    ensures Equals(a, b) == Ok(true)
  {
    var d := a.yearMonth;
    assert SameFields(d, d);
    assert Conversion.Equals(d, d);
    var f, l := a.weekDays[0][0], Last(a.weekDays);
    assert SameFields(f.date, f.date) && SameFields(l.date, l.date);
  }

  /** A page with an empty grid cannot be compared for equality. */
  lemma EmptyGridRaises(a: CalendarMonth, b: CalendarMonth)
    requires a.yearMonth == b.yearMonth && a.weekDays == []
    ensures Equals(a, b) == Err(NoSuchElement)
  {
    var d := a.yearMonth;
    assert SameFields(d, d);
  }

  /**
   * `compareToYearMonth`: the difference of the years in 32-bit Int
   * arithmetic, or the difference of the month values when the years are
   * equal. Day and calendar play no part. When the year difference fits in an
   * Int the sign orders the months by their month count.
   */
  function CompareToYearMonth(a: Date, b: Date): (r: int)
    ensures KotlinMath.IsInt(a.year) && KotlinMath.IsInt(b.year) ==>
      (r == 0 <==> a.year == b.year && a.month == b.month)
    ensures KotlinMath.IsInt(a.year - b.year) ==>
      && (r < 0 <==> MonthArithmetic.MonthCount(a) < MonthArithmetic.MonthCount(b))
      && (r > 0 <==> MonthArithmetic.MonthCount(a) > MonthArithmetic.MonthCount(b))
  {
    var cmp := KotlinMath.ToInt(a.year - b.year);
    if KotlinMath.IsInt(a.year) && KotlinMath.IsInt(b.year) then
      YearDifference(a.year, b.year);
      if cmp == 0 then a.month.Value() - b.month.Value() else cmp
    else
    if cmp == 0 then a.month.Value() - b.month.Value() else cmp
  }

  /** Between two Int years the wrapped difference is zero only for equal years. */
  lemma YearDifference(x: int, y: int)
    requires KotlinMath.IsInt(x) && KotlinMath.IsInt(y)
    ensures KotlinMath.ToInt(x - y) == 0 <==> x == y
  {
    var m, v := 0x1_0000_0000, x - y - KotlinMath.MinInt;
    if v >= m {
      KotlinMath.ModShift(v - m, 1, m);
      KotlinMath.SmallMod(v - m, m);
    } else if v < 0 {
      KotlinMath.ModShift(v + m, -1, m);
      KotlinMath.SmallMod(v + m, m);
    } else {
      KotlinMath.SmallMod(v, m);
    }
  }

  /** Swapping the arguments negates the sign of `compareToYearMonth`. */
  lemma CompareToYearMonthAntisymmetric(a: Date, b: Date)
    requires KotlinMath.IsInt(a.year - b.year) && KotlinMath.IsInt(b.year - a.year)
    ensures CompareToYearMonth(a, b) < 0 <==> CompareToYearMonth(b, a) > 0
  {
  }

  /** `Int.compareTo`: -1, 0 or 1. */
  function IntCompare(x: int, y: int): (r: int)
    ensures -1 <= r <= 1
    ensures r < 0 <==> x < y
    ensures r == 0 <==> x == y
  {
    if x < y then -1 else if x == y then 0 else 1
  }

  /**
   * `compareTo`: by year-month, and within the same year-month by
   * `indexInSameMonth`.
   */
  function CompareTo(a: CalendarMonth, b: CalendarMonth): (r: int)
    ensures KotlinMath.IsInt(a.yearMonth.year - b.yearMonth.year) ==>
      (r < 0 <==> LexLess(Key(a), Key(b))) && (r == 0 <==> Key(a) == Key(b))
  {
    var monthResult := CompareToYearMonth(a.yearMonth, b.yearMonth);
    if monthResult == 0 then IntCompare(a.indexInSameMonth, b.indexInSameMonth)
    else monthResult
  }

  /** The sort key of a page: its month count and its index within that month. */
  function Key(p: CalendarMonth): (int, int)
  {
    (MonthArithmetic.MonthCount(p.yearMonth), p.indexInSameMonth)
  }

  /** Lexicographic order on pairs. */
  predicate LexLess(x: (int, int), y: (int, int))
  {
    x.0 < y.0 || (x.0 == y.0 && x.1 < y.1)
  }

  /** The order is transitive on pages whose years are Int-sized apart. */
  lemma CompareToTransitive(a: CalendarMonth, b: CalendarMonth, c: CalendarMonth)
    requires KotlinMath.IsInt(a.yearMonth.year - b.yearMonth.year)
    requires KotlinMath.IsInt(b.yearMonth.year - c.yearMonth.year)
    requires KotlinMath.IsInt(a.yearMonth.year - c.yearMonth.year)
    requires CompareTo(a, b) < 0 && CompareTo(b, c) < 0
    ensures CompareTo(a, c) < 0
  {
  }

  /** Two pages of the same year-month are ordered by their index alone, whatever their grids. */
  lemma SameMonthByIndex(a: CalendarMonth, b: CalendarMonth)
    requires a.yearMonth.year == b.yearMonth.year && a.yearMonth.month == b.yearMonth.month
    ensures CompareTo(a, b) == IntCompare(a.indexInSameMonth, b.indexInSameMonth)
  {
  }
}
