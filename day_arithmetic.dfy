/**
 * Day arithmetic on ILocalDate (core/src/main/java/com/maddy/calendar/core/ILocalDate.kt):
 * the single-day steps `addSingleDay` / `subtractSingleDay` as functions on
 * date values, their iteration, and `plusDays` with its fast path.
 */
module DayArithmetic {
  import opened Months
  import opened Dates

  /** What `addSingleDay` makes of a date: the next day, carrying into the next month and year. */
  function Next(d: Date): Date
  {
    var day := d.day + 1;
    if day > LengthOfMonth(d.year, d.month, d.kind) then
      var month := d.month.Plus(1);
      Date(d.kind, if month == JanuaryBaishak then d.year + 1 else d.year, month, 1)
    else
      d.(day := day)
  }

  /**
   * What `subtractSingleDay` makes of a date: the previous day, borrowing from
   * the previous month, whose length is taken after the year has been adjusted.
   */
  function Prev(d: Date): Date
  {
    var day := d.day - 1;
    if day < 1 then
      var month := d.month.Minus(1);
      var year := if month == DecemberChaitra then d.year - 1 else d.year;
      Date(d.kind, year, month, LengthOfMonth(year, month, d.kind))
    else
      d.(day := day)
  }

  /** The day after a valid date is valid; it changes the year exactly when leaving the last day of the year. */
  lemma NextStep(d: Date)
    requires Valid(d)
    ensures Valid(Next(d)) && Next(d).kind == d.kind
    ensures Next(d).year != d.year <==> d.month == DecemberChaitra && d.day == LengthOfMonth(d.year, d.month, d.kind)
    ensures Next(d).year == d.year || Next(d).year == d.year + 1
    ensures Prev(Next(d)) == d
  {
    if d.day == LengthOfMonth(d.year, d.month, d.kind) {
      var m := d.month.Plus(1);
      var y := if m == JanuaryBaishak then d.year + 1 else d.year;
      assert Next(d) == Date(d.kind, y, m, 1);
      MinusPlus(d.month, 1);
      WrapsAtYearEnd(d.month);
      var y' := if m.Minus(1) == DecemberChaitra then y - 1 else y;
      assert y' == d.year;
      assert Prev(Next(d)) == Date(d.kind, y', d.month, LengthOfMonth(y', d.month, d.kind));
    }
  }

  /** The day after a valid date is a valid date of the same calendar. */
  lemma NextValid(d: Date)
    requires Valid(d)
    ensures Valid(Next(d)) && Next(d).kind == d.kind
  {
    NextStep(d);
  }

  /** The day before a valid date is a valid date of the same calendar. */
  lemma PrevValid(d: Date)
    requires Valid(d)
    ensures Valid(Prev(d)) && Prev(d).kind == d.kind
  {
    PrevStep(d);
  }

  /** The day before a valid date is valid; it changes the year exactly when leaving the first day of the year. */
  lemma PrevStep(d: Date)
    requires Valid(d)
    ensures Valid(Prev(d)) && Prev(d).kind == d.kind
    ensures Prev(d).year != d.year <==> d.month == JanuaryBaishak && d.day == 1
    ensures Prev(d).year == d.year || Prev(d).year == d.year - 1
    ensures Next(Prev(d)) == d
  {
    if d.day == 1 {
      var m := d.month.Minus(1);
      var y := if m == DecemberChaitra then d.year - 1 else d.year;
      assert Prev(d) == Date(d.kind, y, m, LengthOfMonth(y, m, d.kind));
      PlusMinus(d.month, 1);
      WrapsAtYearEnd(m);
      var y' := if m.Plus(1) == JanuaryBaishak then y + 1 else y;
      assert y' == d.year;
      assert Next(Prev(d)) == Date(d.kind, y', d.month, 1);
    }
  }

  /** Stepping a month forward wraps to JANUARY_BAISHAK exactly from DECEMBER_CHAITRA. */
  lemma WrapsAtYearEnd(m: Month)
    ensures m.Plus(1) == JanuaryBaishak <==> m == DecemberChaitra
    ensures m.Plus(1).Minus(1) == m
  {
    MinusPlus(m, 1);
  }

  /** `k` calls of `addSingleDay`. */
  function Forward(d: Date, k: nat): Date
  {
    if k == 0 then d else Next(Forward(d, k - 1))
  }

  /** `k` calls of `subtractSingleDay`. */
  function Backward(d: Date, k: nat): Date
  {
    if k == 0 then d else Prev(Backward(d, k - 1))
  }

  /** Moving by a signed number of single-day steps. */
  function Shift(d: Date, n: int): Date
  {
    if n >= 0 then Forward(d, n) else Backward(d, -n)
  }

  /** The month after `d`'s month, as a date at day 1, moving to January of the next year after December. */
  function FollowingMonth(d: Date): Date
  {
    if d.month.Ordinal() < DecemberChaitra.Ordinal() then Date(d.kind, d.year, d.month.Plus(1), 1)
    else Date(d.kind, d.year + 1, JanuaryBaishak, 1)
  }

  /**
   * `plusDays(daysToAdd)` as written. Zero returns the date. A day-of-month
   * up to 28 stays in the month; up to 59 it stays or moves once into the
   * following month without checking that month's length; anything else
   * steps one day at a time from a copy (forward for a positive target day,
   * backward otherwise, and only while the remaining count has that sign).
   */
  function PlusDays(d: Date, daysToAdd: int): Date
  {
    if daysToAdd == 0 then d
    else
      var dom := d.day + daysToAdd;
      if dom > 0 then
        if dom <= 28 then d.(day := dom)
        else if dom <= 59 then
          var monthLen := LengthOfMonth(d.year, d.month, d.kind);
          if dom <= monthLen then d.(day := dom)
          else FollowingMonth(d).(day := dom - monthLen)
        else if daysToAdd > 0 then Forward(d, daysToAdd)
        else d
      else if daysToAdd < 0 then Backward(d, -daysToAdd)
      else d
  }

  /** `minusDays(daysToSubtract)` = plusDays(-daysToSubtract). */
  function MinusDays(d: Date, daysToSubtract: int): Date
  {
    PlusDays(d, -daysToSubtract)
  }

  /**
   * The fast path of `plusDays` moves into the following month with a day
   * beyond that month's length.
   */
  predicate FastPathOverflows(d: Date, daysToAdd: int)
  {
    var dom := d.day + daysToAdd;
    var monthLen := LengthOfMonth(d.year, d.month, d.kind);
    var next := FollowingMonth(d);
    daysToAdd != 0 && 28 < dom <= 59 && dom > monthLen
    && dom - monthLen > LengthOfMonth(next.year, next.month, next.kind)
  }

  /**
   * `plusDays` as intended: the fast path only when its result lies in the
   * following month, single-day steps otherwise.
   */
  function PlusDaysChecked(d: Date, daysToAdd: int): Date
  {
    if FastPathOverflows(d, daysToAdd) && daysToAdd > 0 then Forward(d, daysToAdd)
    else PlusDays(d, daysToAdd)
  }

  /**
   * The fast path can only overflow in Bikram Sambat, from a 29-day month into
   * another 29-day month, at day-of-month exactly 59.
   */
  lemma FastPathOverflowCharacterised(d: Date, daysToAdd: int)
    ensures FastPathOverflows(d, daysToAdd) <==>
      (daysToAdd != 0 && d.kind == BS && d.day + daysToAdd == 59
       && LengthOfMonth(d.year, d.month, d.kind) == 29
       && LengthOfMonth(FollowingMonth(d).year, FollowingMonth(d).month, d.kind) == 29)
  {
    var next := FollowingMonth(d);
    LengthOfMonthCases(d.year, d.month, d.kind);
    LengthOfMonthCases(next.year, next.month, next.kind);
    if d.kind == AD && d.month.Ordinal() < 11 {
      var m := d.month.Plus(1);
      assert m.Ordinal() == d.month.Ordinal() + 1;
      if d.month == FebruaryJestha {
      } else if m == FebruaryJestha {
      }
    }
  }
}
