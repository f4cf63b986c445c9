/**
 * An absolute day count for each calendar: the number of days from the first
 * day of year 0 of that calendar. It is the measure behind the day arithmetic
 * of ILocalDate (core/src/main/java/com/maddy/calendar/core/ILocalDate.kt): a
 * single-day step moves it by one, and distinct valid dates have distinct
 * numbers, so `plusDays` is characterised by what it does to the count.
 */
module DayNumbers {
  import opened Months
  import opened Dates
  import opened DayArithmetic

  /** Days from the first day of year 0 to the first day of `year`, in the given calendar. */
  function YearStart(kind: Kind, year: int): int
    decreases if year < 0 then -year else year
  {
    if year == 0 then 0
    else if year > 0 then YearStart(kind, year - 1) + LengthOfYear(year - 1, kind)
    else YearStart(kind, year + 1) - LengthOfYear(year, kind)
  }

  lemma YearStartStep(kind: Kind, year: int)
    ensures YearStart(kind, year + 1) == YearStart(kind, year) + LengthOfYear(year, kind)
  {
  }

  /** Later years start later. */
  lemma {:induction false} YearStartMonotone(kind: Kind, y1: int, y2: int)
    requires y1 <= y2
    ensures YearStart(kind, y1) + 336 * (y2 - y1) <= YearStart(kind, y2)
    decreases y2 - y1
  {
    if y1 < y2 {
      YearStartMonotone(kind, y1, y2 - 1);
      YearStartStep(kind, y2 - 1);
      LengthOfYearBounds(y2 - 1, kind);
    }
  }

  /** The absolute day number of a date in its own calendar (see `DayNumberIs`). */
  function DayNumber(d: Date): int
  {
    Count(d, 1)
  }

  /**
   * The day number, reached through `hops` calls: the lemmas that relate day
   * numbers to one another then do not unfold the calendar arithmetic behind
   * them, which only `DayNumberIs` exposes.
   */
  function Count(d: Date, hops: nat): int
  {
    if hops == 0 then YearStart(d.kind, d.year) + DayOfYear(d) - 1 else Count(d, 0)
  }

  /** The day number counts the whole years before the date's year, then the day of the year. */
  lemma DayNumberIs(d: Date)
    ensures DayNumber(d) == YearStart(d.kind, d.year) + DayOfYear(d) - 1
  {
    assert Count(d, 1) == Count(d, 0);
  }

  /** Changing only the day of the month moves the day number by the difference. */
  lemma SameMonthDayNumber(d: Date, day: int)
    ensures DayNumber(d.(day := day)) == DayNumber(d) + day - d.day
  {
    DayNumberIs(d);
    DayNumberIs(d.(day := day));
  }

  /** `addSingleDay` moves the day number up by one. */
  lemma NextDayNumber(d: Date)
    requires Valid(d)
    ensures DayNumber(Next(d)) == DayNumber(d) + 1
  {
    if d.day == LengthOfMonth(d.year, d.month, d.kind) {
      if d.month.Ordinal() < 11 {
        NextMonthDayNumber(d);
      } else {
        NextYearDayNumber(d);
      }
    } else {
      SameMonthDayNumber(d, d.day + 1);
    }
  }

  lemma NextMonthDayNumber(d: Date)
    requires d.day == LengthOfMonth(d.year, d.month, d.kind) && d.month.Ordinal() < 11
    ensures DayNumber(Next(d)) == DayNumber(d) + 1
  {
    var i := d.month.Ordinal();
    var m := d.month.Plus(1);
    assert Next(d) == Date(d.kind, d.year, m, 1) by {
      WrapsAtYearEnd(d.month);
    }
    assert m == (i + 1) as Month;
    FirstDayStep(d.year, d.kind, i);
    DayNumberIs(d);
    DayNumberIs(Next(d));
  }

  lemma NextYearDayNumber(d: Date)
    requires d.day == LengthOfMonth(d.year, d.month, d.kind) && d.month.Ordinal() == 11
    ensures DayNumber(Next(d)) == DayNumber(d) + 1
  {
    assert Next(d) == Date(d.kind, d.year + 1, JanuaryBaishak, 1) by {
      WrapsAtYearEnd(d.month);
    }
    YearEndDayNumber(d);
    DayNumberIs(Next(d));
  }

  /** The last day of a year is the day before the next year starts. */
  lemma YearEndDayNumber(d: Date)
    requires d.day == LengthOfMonth(d.year, d.month, d.kind) && d.month == DecemberChaitra
    ensures DayNumber(d) + 1 == YearStart(d.kind, d.year + 1)
  {
    DayNumberIs(d);
    YearLengthClosesSum(d.year, d.kind);
    YearStartStep(d.kind, d.year);
  }

  /** `subtractSingleDay` moves the day number down by one. */
  lemma PrevDayNumber(d: Date)
    requires Valid(d)
    ensures DayNumber(Prev(d)) == DayNumber(d) - 1
  {
    PrevStep(d);
    NextDayNumber(Prev(d));
  }

  /** `k` forward steps keep a date valid and in its calendar. */
  lemma {:induction false} ForwardValid(d: Date, k: nat)
    requires Valid(d)
    ensures Valid(Forward(d, k)) && Forward(d, k).kind == d.kind
  {
    if k > 0 {
      ForwardValid(d, k - 1);
      NextStep(Forward(d, k - 1));
    }
  }

  /** `k` forward steps add k to the day number. */
  lemma {:induction false} ForwardDayNumber(d: Date, k: nat)
    requires Valid(d)
    ensures DayNumber(Forward(d, k)) == DayNumber(d) + k
    decreases k
  {
    if k > 0 {
      var j: nat := k - 1;
      ForwardDayNumber(d, j);
      ForwardStep(d, j + 1);
    }
  }

  /** One more step moves the day number once more. */
  lemma ForwardStep(d: Date, k: nat)
    requires k > 0 && Valid(d)
    ensures DayNumber(Forward(d, k)) == DayNumber(Forward(d, k - 1)) + 1
  {
    var p := Forward(d, k - 1);
    assert Valid(p) by {
      ForwardValid(d, k - 1);
    }
    NextDayNumber(p);
  }


  /** `k` backward steps keep a date valid and in its calendar. */
  lemma {:induction false} BackwardValid(d: Date, k: nat)
    requires Valid(d)
    ensures Valid(Backward(d, k)) && Backward(d, k).kind == d.kind
  {
    if k > 0 {
      BackwardValid(d, k - 1);
      PrevStep(Backward(d, k - 1));
    }
  }

  /** `k` backward steps subtract k from the day number. */
  lemma {:induction false} BackwardDayNumber(d: Date, k: nat)
    requires Valid(d)
    ensures DayNumber(Backward(d, k)) == DayNumber(d) - k
    decreases k
  {
    if k > 0 {
      var j: nat := k - 1;
      BackwardDayNumber(d, j);
      BackwardStep(d, j + 1);
    }
  }

  /** One more step moves the day number once more. */
  lemma BackwardStep(d: Date, k: nat)
    requires k > 0 && Valid(d)
    ensures DayNumber(Backward(d, k)) == DayNumber(Backward(d, k - 1)) - 1
  {
    var p := Backward(d, k - 1);
    assert Valid(p) by {
      BackwardValid(d, k - 1);
    }
    PrevDayNumber(p);
  }


  /** Moving by n single-day steps keeps a date valid and in its calendar. */
  lemma ShiftValid(d: Date, n: int)
    requires Valid(d)
    ensures Valid(Shift(d, n)) && Shift(d, n).kind == d.kind
  {
    if n >= 0 {
      ForwardValid(d, n);
    } else {
      BackwardValid(d, -n);
    }
  }

  /** Moving by n single-day steps adds n to the day number. */
  lemma ShiftDayNumber(d: Date, n: int)
    requires Valid(d)
    ensures DayNumber(Shift(d, n)) == DayNumber(d) + n
  {
    if n >= 0 {
      ForwardDayNumber(d, n);
    } else {
      BackwardDayNumber(d, -n);
    }
  }

  /** On valid dates of one calendar, `before` is the order of the day numbers. */
  lemma BeforeIsDayNumberOrder(a: Date, b: Date)
    requires Valid(a) && Valid(b) && a.kind == b.kind
    ensures Before(a, b) <==> DayNumber(a) < DayNumber(b)
  {
    if Before(a, b) {
      BeforeMovesDayNumber(a, b);
    } else {
      BeforeIsStrictOrder(a, b, b);
      if Before(b, a) {
        BeforeMovesDayNumber(b, a);
      }
    }
  }

  lemma BeforeMovesDayNumber(a: Date, b: Date)
    requires Valid(a) && Valid(b) && a.kind == b.kind && Before(a, b)
    ensures DayNumber(a) < DayNumber(b)
  {
    if a.year < b.year {
      EarlierYear(a, b);
    } else if a.month.Ordinal() < b.month.Ordinal() {
      EarlierMonth(a, b);
    } else {
      SameMonthDayNumber(a, b.day);
    }
  }

  lemma EarlierYear(a: Date, b: Date)
    requires Valid(a) && Valid(b) && a.kind == b.kind && a.year < b.year
    ensures DayNumber(a) < DayNumber(b)
  {
    DayOfYearBounds(a);
    DayOfYearBounds(b);
    YearStartStep(a.kind, a.year);
    YearStartMonotone(a.kind, a.year + 1, b.year);
    DayNumberIs(a);
    DayNumberIs(b);
  }

  lemma EarlierMonth(a: Date, b: Date)
    requires Valid(a) && Valid(b) && a.kind == b.kind && a.year == b.year
    requires a.month.Ordinal() < b.month.Ordinal()
    ensures DayNumber(a) < DayNumber(b)
  {
    var i, j := a.month.Ordinal(), b.month.Ordinal();
    assert i as Month == a.month && j as Month == b.month;
    MonthsInOrder(a.year, a.kind, i, j);
    DayNumberIs(a);
    DayNumberIs(b);
  }

  /** Distinct valid dates of one calendar have distinct day numbers. */
  lemma DayNumberInjective(a: Date, b: Date)
    requires Valid(a) && Valid(b) && a.kind == b.kind
    requires DayNumber(a) == DayNumber(b)
    ensures a == b
  {
    BeforeIsDayNumberOrder(a, b);
    BeforeIsDayNumberOrder(b, a);
    BeforeIsStrictOrder(a, b, b);
  }

  /** Moving back undoes moving forward. */
  lemma ShiftInverse(d: Date, n: int)
    requires Valid(d)
    ensures Shift(Shift(d, n), -n) == d
  {
    var e := Shift(d, n);
    ShiftValid(d, n);
    ShiftValid(e, -n);
    ShiftDayNumber(d, n);
    ShiftDayNumber(e, -n);
    DayNumberInjective(Shift(e, -n), d);
  }

  /** The following month begins the day after the last day of the month. */
  lemma FollowingMonthIsNextOfEnd(d: Date)
    ensures FollowingMonth(d) == Next(AtEndOfMonth(d))
  {
    WrapsAtYearEnd(d.month);
  }

  /** The date `n` days after `d` is the one valid date of its calendar with day number DayNumber(d) + n. */
  lemma ShiftIsUnique(d: Date, n: int, e: Date)
    requires Valid(d) && Valid(e) && e.kind == d.kind
    requires DayNumber(e) == DayNumber(d) + n
    ensures e == Shift(d, n)
  {
    ShiftValid(d, n);
    ShiftDayNumber(d, n);
    DayNumberInjective(e, Shift(d, n));
  }

  /** The corrected `plusDays` moves a valid date by exactly n days. */
  lemma PlusDaysCheckedIsShift(d: Date, n: int)
    requires Valid(d)
    ensures PlusDaysChecked(d, n) == Shift(d, n)
  {
    var dom := d.day + n;
    var len := LengthOfMonth(d.year, d.month, d.kind);
    if n != 0 && 0 < dom <= 59 && !FastPathOverflows(d, n) {
      if dom <= len {
        SameMonthDayNumber(d, dom);
        ShiftIsUnique(d, n, d.(day := dom));
      } else {
        IntoFollowingMonth(d, n);
      }
    }
  }

  /** The fast path's carry into the following month lands n days later. */
  lemma IntoFollowingMonth(d: Date, n: int)
    requires Valid(d)
    requires LengthOfMonth(d.year, d.month, d.kind) < d.day + n
    requires !FastPathOverflows(d, n) && d.day + n <= 59
    ensures PlusDaysChecked(d, n) == Shift(d, n)
  {
    var len := LengthOfMonth(d.year, d.month, d.kind);
    var e := AtEndOfMonth(d);
    var f := FollowingMonth(d);
    assert DayNumber(f) == DayNumber(d) + len - d.day + 1 by {
      FollowingMonthIsNextOfEnd(d);
      NextDayNumber(e);
      SameMonthDayNumber(d, len);
    }
    var r := f.(day := d.day + n - len);
    SameMonthDayNumber(f, d.day + n - len);
    assert Valid(r) by {
      FollowingMonthIsNextOfEnd(d);
      NextStep(e);
    }
    ShiftIsUnique(d, n, r);
  }

  /** The as-written `plusDays` moves a valid date by n days exactly when its fast path does not overflow. */
  lemma PlusDaysIsShiftUnlessOverflow(d: Date, n: int)
    requires Valid(d)
    ensures PlusDays(d, n) == Shift(d, n) <==> !FastPathOverflows(d, n)
  {
    PlusDaysCheckedIsShift(d, n);
    if FastPathOverflows(d, n) {
      ShiftValid(d, n);
      assert !Valid(PlusDays(d, n));
    }
  }

  /**
   * The round trip of the test suite, plusDays(n) then plusDays(-n), holds for
   * valid dates whenever |n| >= 59, where both calls step one day at a time.
   */
  lemma PlusDaysRoundTrip(d: Date, n: int)
    requires Valid(d) && (n >= 59 || n <= -59)
    ensures PlusDays(PlusDays(d, n), -n) == d
  {
    PlusDaysIsShiftUnlessOverflow(d, n);
    ShiftValid(d, n);
    PlusDaysIsShiftUnlessOverflow(Shift(d, n), -n);
    ShiftInverse(d, n);
  }

  /** The corrected `plusDays` round-trips for every n. */
  lemma PlusDaysCheckedRoundTrip(d: Date, n: int)
    requires Valid(d)
    ensures PlusDaysChecked(PlusDaysChecked(d, n), -n) == d
  {
    PlusDaysCheckedIsShift(d, n);
    ShiftValid(d, n);
    PlusDaysCheckedIsShift(Shift(d, n), -n);
    ShiftInverse(d, n);
  }

  /** From the first of a month before December, the first of the next month is the month's length later. */
  lemma MonthStartStep(d: Date)
    requires d.day == 1 && d.month.Ordinal() < 11
    ensures DayNumber(Date(d.kind, d.year, d.month.Plus(1), 1)) == DayNumber(d) + LengthOfMonth(d.year, d.month, d.kind)
  {
    var len := LengthOfMonth(d.year, d.month, d.kind);
    var last := d.(day := len);
    SameMonthDayNumber(d, len);
    NextMonthDayNumber(last);
    assert Next(last) == Date(d.kind, d.year, d.month.Plus(1), 1);
  }

  /**
   * BS 1999 has two 29-day months in a row (Paush and Magh), so 58 days after
   * 1999-09-01 the fast path lands on the invalid 1999-10-30, where the
   * corrected `plusDays` reaches 1999-11-01.
   */
  lemma FastPathCounterexample()
    ensures var d := Date(BS, 1999, SeptemberPaush, 1);
      PlusDays(d, 58) == Date(BS, 1999, OctoberMagh, 30) && !Valid(PlusDays(d, 58))
      && PlusDaysChecked(d, 58) == Date(BS, 1999, NovemberFalgun, 1)
  {
    var d := Date(BS, 1999, SeptemberPaush, 1);
    var m := Date(BS, 1999, OctoberMagh, 1);
    var e := Date(BS, 1999, NovemberFalgun, 1);
    BsCalendar.Row1999();
    assert LengthOfMonth(1999, SeptemberPaush, BS) == 29 && LengthOfMonth(1999, OctoberMagh, BS) == 29;
    MonthStartStep(d);
    MonthStartStep(m);
    PlusDaysCheckedIsShift(d, 58);
    ShiftIsUnique(d, 58, e);
  }
}
