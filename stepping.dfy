/**
 * The mutating side of ILocalDate (core/src/main/java/com/maddy/calendar/core/ILocalDate.kt):
 * a scratch copy whose `year`, `month` and `day` fields `addSingleDay` and
 * `subtractSingleDay` update in place, the loops of `plusDays` that step such
 * a copy, and the step-counting `Utils.daysDifference`.
 */
module Stepping {
  import opened Months
  import opened Dates
  import opened DayArithmetic
  import opened DayNumbers

  /** An ILocalDate object: a calendar fixed at construction and three mutable fields. */
  class MutableDate {
    const kind: Kind
    var year: int
    var month: Month
    var day: int

    /** The date the fields currently hold. */
    function Value(): Date
      reads this
    {
      Date(kind, year, month, day)
    }

    /** `copy()`: a fresh object holding the same date. */
    constructor Copy(d: Date)
      ensures Value() == d
    {
      kind, year, month, day := d.kind, d.year, d.month, d.day;
    }

    /** `addSingleDay()`: the next day, carrying into the next month and, after December, the next year. */
    method AddSingleDay()
      modifies this
      ensures Value() == Next(old(Value()))
      ensures Valid(old(Value())) ==> Valid(Value())
    {
      ghost var d := Value();
      day := day + 1;
      if day > LengthOfMonth(year, month, kind) {
        day := 1;
        var newMonth := month.Plus(1);
        if newMonth == JanuaryBaishak {
          year := year + 1;
        }
        month := newMonth;
      }
      if Valid(d) {
        NextValid(d);
      }
    }

    /** `subtractSingleDay()`: the previous day, taking the length of the month it borrows from. */
    method SubtractSingleDay()
      modifies this
      ensures Value() == Prev(old(Value()))
      ensures Valid(old(Value())) ==> Valid(Value())
    {
      ghost var d := Value();
      day := day - 1;
      if day < 1 {
        var newMonth := month.Minus(1);
        if newMonth == DecemberChaitra {
          year := year - 1;
        }
        month := newMonth;
        day := LengthOfMonth(year, month, kind);
      }
      if Valid(d) {
        PrevValid(d);
      }
    }
  }

  /**
   * `plusDays(daysToAdd)`: the fast path returns a new value; otherwise a copy
   * of the date is stepped one day at a time while the remaining count keeps
   * its sign. The receiver, a value here, is never changed.
   */
  method PlusDays(d: Date, daysToAdd: int) returns (r: Date)
    ensures r == DayArithmetic.PlusDays(d, daysToAdd)
  {
    if daysToAdd == 0 {
      return d;
    }
    var dom := d.day + daysToAdd;
    if dom > 0 {
      if dom <= 28 {
        return d.(day := dom);
      }
      if dom <= 59 {
        var monthLen := LengthOfMonth(d.year, d.month, d.kind);
        if dom <= monthLen {
          return d.(day := dom);
        }
        if d.month.Ordinal() < DecemberChaitra.Ordinal() {
          return Date(d.kind, d.year, d.month.Plus(1), dom - monthLen);
        }
        return Date(d.kind, d.year + 1, JanuaryBaishak, dom - monthLen);
      }
      r := StepForward(d, daysToAdd);
    } else {
      r := StepBackward(d, daysToAdd);
    }
  }

  /** The forward loop of `plusDays`: `addSingleDay` on a copy while the count stays positive. */
  method StepForward(d: Date, daysToAdd: int) returns (r: Date)
    ensures r == if daysToAdd > 0 then Forward(d, daysToAdd) else d
  {
    var dayDelta := daysToAdd;
    var finalDate := new MutableDate.Copy(d);
    while dayDelta > 0
      invariant daysToAdd > 0 ==> 0 <= dayDelta <= daysToAdd && finalDate.Value() == Forward(d, daysToAdd - dayDelta)
      invariant daysToAdd <= 0 ==> dayDelta == daysToAdd && finalDate.Value() == d
    {
      dayDelta := dayDelta - 1;
      finalDate.AddSingleDay();
    }
    r := finalDate.Value();
  }

  /** The backward loop of `plusDays`: `subtractSingleDay` on a copy while the count stays negative. */
  method StepBackward(d: Date, daysToAdd: int) returns (r: Date)
    ensures r == if daysToAdd < 0 then Backward(d, -daysToAdd) else d
  {
    var dayDelta := daysToAdd;
    var finalDate := new MutableDate.Copy(d);
    while dayDelta < 0
      invariant daysToAdd < 0 ==> daysToAdd <= dayDelta <= 0 && finalDate.Value() == Backward(d, dayDelta - daysToAdd)
      invariant daysToAdd >= 0 ==> dayDelta == daysToAdd && finalDate.Value() == d
    {
      dayDelta := dayDelta + 1;
      finalDate.SubtractSingleDay();
    }
    r := finalDate.Value();
  }

  /** `minusDays(daysToSubtract)` = plusDays(-daysToSubtract). */
  method MinusDays(d: Date, daysToSubtract: int) returns (r: Date)
    ensures r == DayArithmetic.MinusDays(d, daysToSubtract)
  {
    r := PlusDays(d, -daysToSubtract);
  }

  /**
   * The loop of `Utils.daysDifference`: `addSingleDay` on the given object
   * until it is no longer before `later`, counting the calls. The object is
   * stepped in place and ends holding `later`.
   */
  method StepUntil(fromDate: MutableDate, later: Date) returns (daysCount: int)
    requires Valid(fromDate.Value()) && Valid(later) && fromDate.kind == later.kind
    requires !Before(later, fromDate.Value())
    modifies fromDate
    ensures daysCount == DayNumber(later) - DayNumber(old(fromDate.Value()))
    ensures fromDate.Value() == later
  {
    ghost var early := fromDate.Value();
    BeforeIsDayNumberOrder(later, early);
    daysCount := 0;
    while Before(fromDate.Value(), later)
      invariant Valid(fromDate.Value()) && fromDate.kind == later.kind
      invariant DayNumber(fromDate.Value()) == DayNumber(early) + daysCount
      invariant DayNumber(fromDate.Value()) <= DayNumber(later)
      decreases DayNumber(later) - DayNumber(fromDate.Value())
    {
      ghost var p := fromDate.Value();
      BeforeIsDayNumberOrder(p, later);
      fromDate.AddSingleDay();
      NextDayNumber(p);
      daysCount := daysCount + 1;
    }
    BeforeIsDayNumberOrder(fromDate.Value(), later);
    BeforeIsDayNumberOrder(later, fromDate.Value());
    DayNumberInjective(fromDate.Value(), later);
  }

  /**
   * The loop of `daysDifference` on the object `startEndType` hands it: a
   * shared object that already holds `early` when `shared`, a fresh copy of
   * `early` otherwise, with the sign applied to the count. Only a shared
   * object is left moved.
   */
  method StepShared(reference: MutableDate, shared: bool, early: Date, later: Date, sign: int) returns (r: int)
    requires Valid(early) && Valid(later) && early.kind == later.kind && !Before(later, early)
    requires shared ==> reference.Value() == early
    modifies reference
    ensures r == sign * (DayNumber(later) - DayNumber(early))
    ensures shared ==> reference.Value() == later
    ensures !shared ==> reference.Value() == old(reference.Value())
  {
    var fromDate := reference;
    if !shared {
      fromDate := new MutableDate.Copy(early);
    }
    var daysCount := StepUntil(fromDate, later);
    r := daysCount * sign;
  }

  /**
   * `Utils.daysDifference(from, to)` for two dates of one calendar, already
   * ordered by `startEndType`, with the loop run on a fresh copy of the
   * earlier date: count the `addSingleDay` calls that bring it up to the
   * later one, then apply the sign. The count is the difference of the day
   * numbers.
   */
  method CountSteps(early: Date, later: Date, sign: int) returns (r: int)
    requires Valid(early) && Valid(later) && early.kind == later.kind
    requires !Before(later, early)
    ensures r == sign * (DayNumber(later) - DayNumber(early))
  {
    var fromDate := new MutableDate.Copy(early);
    var daysCount := StepUntil(fromDate, later);
    r := daysCount * sign;
  }
}
