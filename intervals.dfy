/**
 * The calendar-independent core of `Period` (core/src/main/java/com/maddy/calendar/core/Helpers.kt)
 * for two dates of one calendar: the ordering step of `startEndType` and the
 * day count of `daysBetween` once the dates are in order.
 */
module Intervals {
  import opened Months
  import opened Dates
  import opened DayNumbers

  /** What `startEndType` returns: the sign, then the earlier and the later date. */
  datatype Span = Span(sign: int, early: Date, later: Date)

  /**
   * The ordering step of `startEndType` once both dates are in one calendar:
   * sign 1 with the dates as given when `start == end` or `start < end`,
   * sign -1 with the dates swapped otherwise.
   */
  function Order(start: Date, end: Date): (r: Span)
    ensures r.sign == 1 <==> !Before(end, start)
    ensures r.sign == 1 || r.sign == -1
    ensures r.sign == 1 ==> r.early == start && r.later == end
    ensures r.sign == -1 ==> r.early == end && r.later == start
    ensures !Before(r.later, r.early)
  {
    BeforeIsStrictOrder(start, end, end);
    var cmp := CompareFields(start, end);
    if cmp == 0 then Span(1, start, end)
    else if cmp < 0 then Span(1, start, end)
    else Span(-1, end, start)
  }

  /** Swapping the arguments swaps the sign, unless the fields agree. */
  lemma OrderSwaps(a: Date, b: Date)
    requires !SameFields(a, b)
    ensures Order(b, a).sign == -Order(a, b).sign
    ensures Order(b, a).early == Order(a, b).early && Order(b, a).later == Order(a, b).later
  {
    BeforeIsStrictOrder(a, b, b);
  }

  /** The lengths of the years from `first` up to, not including, `last`: the `for` loop of `daysBetween`. */
  function YearsLength(kind: Kind, first: int, last: int): int
    decreases last - first
  {
    if last <= first then 0 else YearsLength(kind, first, last - 1) + LengthOfYear(last - 1, kind)
  }

  /** Consecutive years add up to the gap between their first days. */
  lemma {:induction false} YearsLengthIsYearStartGap(kind: Kind, first: int, last: int)
    requires first <= last
    ensures YearsLength(kind, first, last) == YearStart(kind, last) - YearStart(kind, first)
    decreases last - first
  {
    if first < last {
      YearsLengthIsYearStartGap(kind, first, last - 1);
      YearStartStep(kind, last - 1);
    }
  }

  /**
   * The number of days `daysBetween` counts from the earlier to the later date
   * before it applies a sign: the day-of-year difference within one year, else
   * the rest of the first year, the years in between and the days of the last.
   */
  function Distance(s: Span): int
  {
    var e, l := s.early, s.later;
    if e.year == l.year then DayOfYear(l) - DayOfYear(e)
    else YearsLength(e.kind, e.year + 1, l.year) + LengthOfYear(e.year, e.kind) - DayOfYear(e) + DayOfYear(l)
  }

  /** On ordered valid dates of one calendar the distance is the gap between the day numbers. */
  lemma DistanceIsDayNumberGap(s: Span)
    requires Valid(s.early) && Valid(s.later) && s.early.kind == s.later.kind
    requires !Before(s.later, s.early)
    ensures Distance(s) == DayNumber(s.later) - DayNumber(s.early)
    ensures Distance(s) >= 0
  {
    DistanceOfYears(s);
    BeforeIsDayNumberOrder(s.later, s.early);
  }

  /** The distance is the day-number gap whenever the later date's year is not the earlier one's. */
  lemma DistanceOfYears(s: Span)
    requires s.early.kind == s.later.kind && s.early.year <= s.later.year
    ensures Distance(s) == DayNumber(s.later) - DayNumber(s.early)
  {
    var e, l := s.early, s.later;
    DayNumberIs(e);
    DayNumberIs(l);
    if e.year != l.year {
      YearsLengthIsYearStartGap(e.kind, e.year + 1, l.year);
      YearStartStep(e.kind, e.year);
    }
  }

  /** `daysBetween` after `startEndType`, as written: the same-year branch returns the distance unsigned. */
  function DaysOfSpanAsWritten(s: Span): int
  {
    if s.early.year == s.later.year then Distance(s) else Distance(s) * s.sign
  }

  /** `daysBetween` after `startEndType` with the sign applied in both branches. */
  function DaysOfSpan(s: Span): int
  {
    Distance(s) * s.sign
  }

  /**
   * `Period.daysBetween` on two dates of one calendar, as written: zero for
   * equal dates (`==` is `compareTo`, which compares the fields), otherwise the
   * distance of the ordered pair, signed only when the years differ.
   */
  function SameCalendarDaysBetweenAsWritten(start: Date, end: Date): int
  {
    if SameFields(start, end) then 0 else DaysOfSpanAsWritten(Order(start, end))
  }

  /** `Period.daysBetween` on two dates of one calendar, with the sign applied in the same-year branch too. */
  function SameCalendarDaysBetween(start: Date, end: Date): int
  {
    if SameFields(start, end) then 0 else DaysOfSpan(Order(start, end))
  }

  /** On valid dates of one calendar, `daysBetween` is the signed gap between the day numbers. */
  lemma SameCalendarDaysBetweenIsGap(start: Date, end: Date)
    requires Valid(start) && Valid(end) && start.kind == end.kind
    ensures SameCalendarDaysBetween(start, end) == DayNumber(end) - DayNumber(start)
  {
    var s := Order(start, end);
    DistanceIsDayNumberGap(s);
    if SameFields(start, end) {
      assert start == end;
    }
  }

  /** Swapping the dates negates the corrected count. */
  lemma SameCalendarDaysBetweenAntisymmetric(start: Date, end: Date)
    requires Valid(start) && Valid(end) && start.kind == end.kind
    ensures SameCalendarDaysBetween(end, start) == -SameCalendarDaysBetween(start, end)
  {
    SameCalendarDaysBetweenIsGap(start, end);
    SameCalendarDaysBetweenIsGap(end, start);
  }

  /**
   * The code as written agrees with the corrected count except when `end` lies
   * before `start` in the same year, where it returns the count unsigned.
   */
  lemma SameCalendarDaysBetweenAgreement(start: Date, end: Date)
    requires Valid(start) && Valid(end) && start.kind == end.kind
    ensures SameCalendarDaysBetweenAsWritten(start, end) == SameCalendarDaysBetween(start, end)
      <==> !(start.year == end.year && Before(end, start))
  {
    var s := Order(start, end);
    DistanceIsDayNumberGap(s);
    BeforeIsDayNumberOrder(end, start);
    BeforeIsStrictOrder(start, end, end);
  }

  /** Even as written, the count is 0 only between dates with the same fields. */
  lemma SameCalendarDaysBetweenZero(start: Date, end: Date)
    requires Valid(start) && Valid(end) && start.kind == end.kind
    ensures SameCalendarDaysBetweenAsWritten(start, end) == 0 <==> start == end
  {
    if !SameFields(start, end) {
      var s := Order(start, end);
      DistanceIsDayNumberGap(s);
      if Distance(s) == 0 {
        DayNumberInjective(s.early, s.later);
      }
    }
  }

  /**
   * AD 2002-04-14 (the AD reference date) to the day before: the code returns
   * 1 where the count is -1.
   */
  lemma SameYearSignDropped()
    ensures SameCalendarDaysBetweenAsWritten(Date(AD, 2002, AprilShrwan, 14), Date(AD, 2002, AprilShrwan, 13)) == 1
    ensures SameCalendarDaysBetween(Date(AD, 2002, AprilShrwan, 14), Date(AD, 2002, AprilShrwan, 13)) == -1
  {
  }
}
