/**
 * The value part of ILocalDate (core/src/main/java/com/maddy/calendar/core/ILocalDate.kt):
 * a year, month and day-of-month tagged with the calendar (AD, the Gregorian
 * calendar, or BS, Bikram Sambat), the month-length rules of both calendars,
 * the day-of-year, the field-wise ordering, and the day, month and year
 * arithmetic that does not step through the calendar.
 */
module Dates {
  import opened Outcomes
  import opened Months
  import BsCalendar
  import KotlinMath

  /** `ILocalDate.Type`. */
  datatype Kind = AD | BS

  /**
   * An ILocalDate. Nothing forces the day into its month: `of` checks only the
   * month, so `Valid` is a separate predicate.
   */
  datatype Date = Date(kind: Kind, year: int, month: Month, day: int)

  /** The other calendar, the target of `reverse`. */
  function Other(kind: Kind): Kind
  {
    if kind == BS then AD else BS
  }

  /**
   * `Utils.isLeapYear`: never for BS; for AD divisible by 4, except centuries
   * not divisible by 400. A JVM remainder is zero exactly when the Euclidean
   * one is, so the tests are written with `%` here.
   */
  predicate IsLeapYear(year: int, kind: Kind)
  {
    if kind == BS then false
    else if year % 4 == 0 then
      if year % 100 == 0 then year % 400 == 0 else true
    else false
  }

  /** The tests agree with the Kotlin code's JVM remainders, and BS never has a leap year. */
  lemma LeapYearRule(year: int)
    ensures IsLeapYear(year, AD) <==>
      KotlinMath.Rem(year, 4) == 0 && (KotlinMath.Rem(year, 100) != 0 || KotlinMath.Rem(year, 400) == 0)
    ensures !IsLeapYear(year, BS)
  {
    KotlinMath.RemZero(year, 4);
    KotlinMath.RemZero(year, 100);
    KotlinMath.RemZero(year, 400);
  }

  /** `ADLocalDate.monthDays`: the common-year month lengths. */
  const AdMonthDays: seq<int> := [31, 28, 31, 30, 31, 30, 31, 31, 30, 31, 30, 31]

  /** `Utils.monthDaysBS` / `monthDaysAD`: the twelve month lengths before the leap day. */
  function MonthDays(year: int, kind: Kind): (r: seq<int>)
    ensures |r| == 12
    ensures forall i :: 0 <= i < 12 ==> 28 <= r[i] <= 32
  {
    if kind == BS then BsCalendar.MonthDays(year) else AdMonthDays
  }

  /** `Utils.lengthOfMonth`: 29 for a leap February, otherwise the table entry. */
  function LengthOfMonth(year: int, month: Month, kind: Kind): (n: int)
    ensures 28 <= n <= 32
    ensures kind == AD ==> n <= 31
    ensures kind == BS ==> 29 <= n
  {
    if IsLeapYear(year, kind) && month == FebruaryJestha then 29
    else MonthDays(year, kind)[month.Value() - 1]
  }

  /** The month lengths of both calendars, entry by entry. */
  lemma LengthOfMonthCases(year: int, month: Month, kind: Kind)
    ensures kind == BS ==> LengthOfMonth(year, month, kind) == BsCalendar.MonthDays(year)[month.Ordinal()]
    ensures kind == AD && month == FebruaryJestha ==>
      LengthOfMonth(year, month, kind) == if IsLeapYear(year, AD) then 29 else 28
    ensures kind == AD && month != FebruaryJestha ==>
      LengthOfMonth(year, month, kind) == (if month in {AprilShrwan, JuneAshwin, SeptemberPaush, NovemberFalgun} then 30 else 31)
  {
  }

  /** `IntArray.sum()`, adding from the front as the loop does. */
  function Sum(s: seq<int>): int
  {
    if |s| == 0 then 0 else Sum(s[..|s| - 1]) + s[|s| - 1]
  }

  /** `Utils.lengthOfYear`: the row sum plus the leap day. */
  function LengthOfYear(year: int, kind: Kind): (n: int)
    ensures kind == AD ==> n == if IsLeapYear(year, AD) then 366 else 365
  {
    AdYearSum();
    Sum(MonthDays(year, kind)) + (if IsLeapYear(year, kind) then 1 else 0)
  }

  lemma AdYearSum()
    ensures Sum(AdMonthDays) == 365
  {
    var s := AdMonthDays;
    SumSnoc(s, 1); SumSnoc(s, 2); SumSnoc(s, 3); SumSnoc(s, 4);
    SumSnoc(s, 5); SumSnoc(s, 6); SumSnoc(s, 7); SumSnoc(s, 8);
    SumSnoc(s, 9); SumSnoc(s, 10); SumSnoc(s, 11); SumSnoc(s, 12);
    assert s[..12] == s;
  }

  /** `BSLocalDate.daysSum`: day-of-year of the first of `month`, built from the previous month. */
  function DaysSum(year: int, month: Month): int
    decreases month.Ordinal()
  {
    if month == JanuaryBaishak then 1
    else DaysSum(year, month.Minus(1)) + BsCalendar.MonthDays(year)[month.Value() - 2]
  }

  /** `firstDayOfYear()`: a hard-coded cumulative table for AD, `daysSum` for BS. */
  function FirstDayOfYear(year: int, month: Month, kind: Kind): int
  {
    if kind == BS then DaysSum(year, month)
    else
      var leap := if IsLeapYear(year, kind) then 1 else 0;
      if month == JanuaryBaishak then 1
      else if month == FebruaryJestha then 32
      else if month == MarchAsadh then 60 + leap
      else if month == AprilShrwan then 91 + leap
      else if month == MayBhadra then 121 + leap
      else if month == JuneAshwin then 152 + leap
      else if month == JulyKartik then 182 + leap
      else if month == AugustMangsir then 213 + leap
      else if month == SeptemberPaush then 244 + leap
      else if month == OctoberMagh then 274 + leap
      else if month == NovemberFalgun then 305 + leap
      else 335 + leap
  }

  /** `dayOfYear`. */
  function DayOfYear(d: Date): int
  {
    FirstDayOfYear(d.year, d.month, d.kind) + d.day - 1
  }

  /** The twelve month lengths of a year, leap day included. */
  function MonthLengths(year: int, kind: Kind): (r: seq<int>)
    ensures |r| == 12
  {
    seq(12, i requires 0 <= i < 12 => LengthOfMonth(year, i as Month, kind))
  }

  lemma BsDaysSumStep(year: int, i: int)
    requires 0 <= i < 11
    ensures DaysSum(year, (i + 1) as Month) == DaysSum(year, i as Month) + BsCalendar.MonthDays(year)[i]
  {
    var m := (i + 1) as Month;
    assert m.Minus(1) == i as Month by {
      assert (i + 1 - 1) % 12 == i;
    }
    assert DaysSum(year, m) == DaysSum(year, m.Minus(1)) + BsCalendar.MonthDays(year)[m.Value() - 2];
  }

  /** Each month starts where the previous one ends, in both calendars. */
  lemma FirstDayStep(year: int, kind: Kind, i: int)
    requires 0 <= i < 11
    ensures FirstDayOfYear(year, (i + 1) as Month, kind)
         == FirstDayOfYear(year, i as Month, kind) + LengthOfMonth(year, i as Month, kind)
  {
    if kind == BS {
      BsDaysSumStep(year, i);
    }
  }

  lemma {:induction false} BsDaysSumIsPrefixSum(year: int, i: int)
    requires 0 <= i < 12
    ensures DaysSum(year, i as Month) == 1 + Sum(BsCalendar.MonthDays(year)[..i])
  {
    var row := BsCalendar.MonthDays(year);
    if i > 0 {
      BsDaysSumIsPrefixSum(year, i - 1);
      BsDaysSumStep(year, i - 1);
      SumSnoc(row, i);
    }
  }

  /** Extending a prefix by one element adds that element to the sum. */
  lemma SumSnoc(s: seq<int>, i: int)
    requires 0 < i <= |s|
    ensures Sum(s[..i]) == Sum(s[..i - 1]) + s[i - 1]
  {
    assert s[..i][..i - 1] == s[..i - 1];
  }

  /** The year ends where the last month ends. */
  lemma YearLengthClosesSum(year: int, kind: Kind)
    ensures LengthOfYear(year, kind)
         == FirstDayOfYear(year, DecemberChaitra, kind) + LengthOfMonth(year, DecemberChaitra, kind) - 1
  {
    if kind == BS {
      var row := BsCalendar.MonthDays(year);
      BsDaysSumIsPrefixSum(year, 11);
      assert row[..12] == row;
    }
  }

  /**
   * The first day of every month is one plus the lengths of the earlier months
   * of the year: the AD table and the BS recursion both agree with running sums.
   */
  lemma {:induction false} FirstDayOfYearIsRunningSum(year: int, kind: Kind, i: int)
    requires 0 <= i < 12
    ensures FirstDayOfYear(year, i as Month, kind) == 1 + Sum(MonthLengths(year, kind)[..i])
  {
    var ls := MonthLengths(year, kind);
    if i > 0 {
      FirstDayOfYearIsRunningSum(year, kind, i - 1);
      FirstDayStep(year, kind, i - 1);
      SumSnoc(ls, i);
    }
  }

  /** The length of the year is the sum of its twelve month lengths. */
  lemma LengthOfYearIsSumOfMonths(year: int, kind: Kind)
    ensures LengthOfYear(year, kind) == Sum(MonthLengths(year, kind))
  {
    var ls := MonthLengths(year, kind);
    FirstDayOfYearIsRunningSum(year, kind, 11);
    YearLengthClosesSum(year, kind);
    assert ls[..12] == ls;
  }

  /** A date whose day lies inside its month; every date the calendar itself produces is one. */
  predicate Valid(d: Date)
  {
    1 <= d.day <= LengthOfMonth(d.year, d.month, d.kind)
  }

  /**
   * `ILocalDate.of(year, month, dayOfMonth, type)` (and `ofAD` / `ofBS` with the
   * calendar fixed): `Month.of` rejects the month, and the day is taken as given.
   */
  function Of(year: int, month: int := 1, dayOfMonth: int := 1, kind: Kind := BS): (r: Result<Date>)
    ensures r.Ok? <==> 1 <= month <= 12
    ensures r.Ok? ==> (r.value.kind == kind && r.value.year == year &&
                       r.value.month.Value() == month && r.value.day == dayOfMonth)
    ensures r.Err? ==> r.error == InvalidMonthOfYear(month)
  {
    match Months.Of(month)
    case Ok(m) => Ok(Date(kind, year, m, dayOfMonth))
    case Err(e) => Err(e)
  }

  /** `of` accepts any day, even one outside the month. */
  lemma OfSkipsDayCheck()
    ensures Of(2020, 2, 30, AD).Ok? && !Valid(Of(2020, 2, 30, AD).value)
    ensures Of(2020, 13, 1, AD) == Err(InvalidMonthOfYear(13))
  {
    var r := Of(2020, 2, 30, AD);
    assert r.value.month == FebruaryJestha by {
    }
  }

  // ---------------------------------------------------------------------------
  // Ordering

  /** The three fields agree; the calendars may differ. */
  predicate SameFields(a: Date, b: Date)
  {
    a.year == b.year && a.month == b.month && a.day == b.day
  }

  /** `before`: strictly earlier in (year, month, day), ignoring the calendars. */
  predicate Before(a: Date, b: Date)
  {
    a.year < b.year ||
    (a.year <= b.year &&
     (a.month.Ordinal() < b.month.Ordinal() ||
      (a.month.Ordinal() <= b.month.Ordinal() && a.day < b.day)))
  }

  /** `after`: strictly later in (year, month, day), ignoring the calendars. */
  predicate After(a: Date, b: Date)
  {
    a.year > b.year ||
    (a.year >= b.year &&
     (a.month.Ordinal() > b.month.Ordinal() ||
      (a.month.Ordinal() >= b.month.Ordinal() && a.day > b.day)))
  }

  /**
   * `before` is a strict total order on the fields: irreflexive, asymmetric,
   * transitive, and any two dates are ordered unless their fields agree;
   * `after` is its converse, so the two never hold together.
   */
  lemma BeforeIsStrictOrder(a: Date, b: Date, c: Date)
    ensures !Before(a, a)
    ensures Before(a, b) ==> !Before(b, a)
    ensures Before(a, b) && Before(b, c) ==> Before(a, c)
    ensures Before(a, b) || Before(b, a) || SameFields(a, b)
    ensures After(a, b) <==> Before(b, a)
    ensures !(Before(a, b) && After(a, b))
  {
  }

  /**
   * The field comparison at the heart of `compareTo`: the year difference, else
   * the month difference, else the day difference. Its sign is the order.
   */
  function CompareFields(a: Date, b: Date): (c: int)
    ensures c < 0 <==> Before(a, b)
    ensures c > 0 <==> After(a, b)
    ensures c == 0 <==> SameFields(a, b)
  {
    var byYear := a.year - b.year;
    if byYear != 0 then byYear
    else
      var byMonth := a.month.Value() - b.month.Value();
      if byMonth != 0 then byMonth
      else a.day - b.day
  }

  // ---------------------------------------------------------------------------
  // Moving within the month and the year

  /** `atDay(dayOfMonth)`: the same month at another day, rejected outside 1..lengthOfMonth. */
  function AtDay(d: Date, dayOfMonth: int): (r: Result<Date>)
    ensures r.Ok? <==> 1 <= dayOfMonth <= LengthOfMonth(d.year, d.month, d.kind)
    ensures r.Ok? ==> Valid(r.value) && SameMonth(r.value, d) && r.value.day == dayOfMonth
    ensures r.Err? ==> r.error == InvalidDayOfMonth(dayOfMonth)
  {
    if dayOfMonth < 1 || dayOfMonth > LengthOfMonth(d.year, d.month, d.kind) then
      Err(InvalidDayOfMonth(dayOfMonth))
    else
      Ok(d.(day := dayOfMonth))
  }

  /** Same calendar, year and month. */
  predicate SameMonth(a: Date, b: Date)
  {
    a.kind == b.kind && a.year == b.year && a.month == b.month
  }

  /** `atStartOfMonth()`. */
  function AtStartOfMonth(d: Date): (r: Date)
    ensures Valid(r) && SameMonth(r, d)
  {
    d.(day := 1)
  }

  /** `atEndOfMonth()`. */
  function AtEndOfMonth(d: Date): (r: Date)
    ensures Valid(r) && SameMonth(r, d)
  {
    d.(day := LengthOfMonth(d.year, d.month, d.kind))
  }

  /** `atStartOfYear()`. */
  function AtStartOfYear(d: Date): (r: Date)
    ensures Valid(r) && r.kind == d.kind && r.year == d.year
  {
    Date(d.kind, d.year, JanuaryBaishak, 1)
  }

  /**
   * The start and the end of the month bracket every valid date of that month,
   * and the start of the year comes no later than any valid date of that year.
   */
  lemma MonthAndYearBounds(d: Date, e: Date)
    requires Valid(e)
    ensures SameMonth(e, d) ==> !Before(e, AtStartOfMonth(d)) && !Before(AtEndOfMonth(d), e)
    ensures e.kind == d.kind && e.year == d.year ==> !Before(e, AtStartOfYear(d))
  {
  }

  /** The first day of the year is day 1 of the year, and the month's last day is its length. */
  lemma BoundsDayOfYear(d: Date)
    ensures DayOfYear(AtStartOfYear(d)) == 1
    ensures DayOfYear(AtEndOfMonth(d)) + 1 == FirstDayOfYear(d.year, d.month, d.kind) + LengthOfMonth(d.year, d.month, d.kind)
  {
  }

  /** Every month starts at least 28 and at most 32 days after the previous one. */
  lemma {:induction false} FirstDayBounds(year: int, kind: Kind, i: int)
    requires 0 <= i < 12
    ensures 1 + 28 * i <= FirstDayOfYear(year, i as Month, kind) <= 1 + 32 * i
  {
    if i == 0 {
      assert FirstDayOfYear(year, JanuaryBaishak, kind) == 1;
    } else {
      FirstDayBounds(year, kind, i - 1);
      FirstDayStep(year, kind, i - 1);
    }
  }

  /** A year has between 336 and 384 days. */
  lemma LengthOfYearBounds(year: int, kind: Kind)
    ensures 336 <= LengthOfYear(year, kind) <= 384
  {
    YearLengthClosesSum(year, kind);
    FirstDayBounds(year, kind, 11);
  }

  /** A later month of the same year starts after an earlier one ends. */
  lemma {:induction false} MonthsInOrder(year: int, kind: Kind, i: int, j: int)
    requires 0 <= i < j < 12
    ensures FirstDayOfYear(year, i as Month, kind) + LengthOfMonth(year, i as Month, kind)
         <= FirstDayOfYear(year, j as Month, kind)
  {
    var prev := (j - 1) as Month;
    var start, length := FirstDayOfYear(year, prev, kind), LengthOfMonth(year, prev, kind);
    assert start + length == FirstDayOfYear(year, j as Month, kind) by {
      FirstDayStep(year, kind, j - 1);
    }
    if i < j - 1 {
      assert FirstDayOfYear(year, i as Month, kind) + LengthOfMonth(year, i as Month, kind) <= start by {
        MonthsInOrder(year, kind, i, j - 1);
      }
    }
  }

  /** Every month ends within the year. */
  lemma MonthEndsWithinYear(year: int, kind: Kind, month: Month)
    ensures FirstDayOfYear(year, month, kind) + LengthOfMonth(year, month, kind) - 1 <= LengthOfYear(year, kind)
  {
    YearLengthClosesSum(year, kind);
    var i := month.Ordinal();
    if i < 11 {
      MonthsInOrder(year, kind, i, 11);
    }
  }

  /** The day-of-year of a valid date lies between 1 and the length of the year. */
  lemma DayOfYearBounds(d: Date)
    requires Valid(d)
    ensures 1 <= DayOfYear(d) <= LengthOfYear(d.year, d.kind)
  {
    FirstDayBounds(d.year, d.kind, d.month.Ordinal());
    MonthEndsWithinYear(d.year, d.kind, d.month);
  }
}
