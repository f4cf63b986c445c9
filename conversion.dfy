/**
 * Cross-calendar behaviour of ILocalDate (core/src/main/java/com/maddy/calendar/core/ILocalDate.kt):
 * the reference dates BS 2059-01-01 and AD 2002-04-14 that name the same day,
 * the day count from a date's own reference date, the weekday derived from
 * that count, `convert` / `reverse`, and `compareTo` / `equals`.
 */
module Conversion {
  import opened Months
  import opened Dates
  import opened DayArithmetic
  import opened DayNumbers
  import opened Intervals
  import opened Outcomes
  import Weekdays
  import KotlinMath

  /** `REFERENCE_DATE` of each calendar: AD 2002-04-14 and BS 2059-01-01, one and the same day. */
  function Reference(kind: Kind): (r: Date)
    ensures Valid(r) && r.kind == kind
  {
    if kind == AD then Date(AD, 2002, AprilShrwan, 14) else Date(BS, 2059, JanuaryBaishak, 1)
  }

  // ---------------------------------------------------------------------------
  // The day count from the reference date

  /** `daysSinceReferenceDate` = daysBetween(referenceDate(), this), with the same-year sign restored. */
  function DaysSinceReference(d: Date): int
  {
    SameCalendarDaysBetween(Reference(d.kind), d)
  }

  /** `daysSinceReferenceDate` as written, through the same-year branch that drops the sign. */
  function DaysSinceReferenceAsWritten(d: Date): int
  {
    SameCalendarDaysBetweenAsWritten(Reference(d.kind), d)
  }

  /**
   * The AD dates of 2002 before April 14: in the year of the AD reference date
   * and before it, the only dates whose count the code reads with the wrong sign.
   */
  predicate CountMisread(d: Date)
  {
    d.kind == AD && d.year == 2002 && Before(d, Reference(AD))
  }

  /** The count from the reference date is the gap between the day numbers. */
  lemma DaysSinceReferenceIsGap(d: Date)
    requires Valid(d)
    ensures DaysSinceReference(d) == DayNumber(d) - DayNumber(Reference(d.kind))
  {
    SameCalendarDaysBetweenIsGap(Reference(d.kind), d);
  }

  /**
   * As written, the count is wrong exactly for the AD dates of 2002 before
   * April 14, the only dates in the year of a reference date and before it.
   */
  lemma DaysSinceReferenceAgreement(d: Date)
    requires Valid(d)
    ensures DaysSinceReferenceAsWritten(d) == DaysSinceReference(d) <==> !CountMisread(d)
  {
    SameCalendarDaysBetweenAgreement(Reference(d.kind), d);
  }

  // ---------------------------------------------------------------------------
  // The day of the week

  /**
   * The weekday of a date `n` days after a reference date: both reference
   * dates are Sundays, so it is SUNDAY moved `n` places.
   */
  function WeekdayOfCount(n: int): (r: Weekdays.DayOfWeek)
  {
    Weekdays.Sunday.Plus(n)
  }

  /**
   * The index into ENUMS that the `dayOfWeek` getter computes from the count
   * `n`: one expression with JVM remainders for a positive count, another for
   * the rest, both shifted by SUNDAY.value - 1.
   */
  function WeekdayIndexAsWritten(n: int): int
  {
    var weekOfMonthValue := Weekdays.Sunday.Value() - 1;
    if n > 0 then KotlinMath.Rem(KotlinMath.Rem(n, 7) + weekOfMonthValue, 7)
    else KotlinMath.Rem(KotlinMath.Rem(7 - KotlinMath.Rem(n * -1, 7), 7) + weekOfMonthValue, 7)
  }

  /** Both branches of the `dayOfWeek` expression pick an existing day, and it is `WeekdayOfCount`. */
  lemma WeekdayIndexIsCount(n: int)
    ensures Weekdays.Of(WeekdayIndexAsWritten(n) + 1) == Ok(WeekdayOfCount(n))
  {
    if n > 0 {
      PositiveResidue(n);
    } else {
      NonPositiveResidue(n);
    }
  }

  /** The expression for a positive count is the residue of n + 6. */
  lemma PositiveResidue(n: int)
    requires n > 0
    ensures KotlinMath.Rem(KotlinMath.Rem(n, 7) + 6, 7) == (n + 6) % 7
  {
    KotlinMath.RemNonNegative(n, 7);
    KotlinMath.RemNonNegative(n % 7 + 6, 7);
    KotlinMath.ModAddMod(n, 6, 7);
  }

  /** So is the expression for the rest, which works on the count's absolute value. */
  lemma NonPositiveResidue(n: int)
    requires n <= 0
    ensures KotlinMath.Rem(KotlinMath.Rem(7 - KotlinMath.Rem(n * -1, 7), 7) + 6, 7) == (n + 6) % 7
  {
    var m := n * -1;
    var u := 7 - m % 7;
    KotlinMath.RemNonNegative(m, 7);
    KotlinMath.RemNonNegative(u, 7);
    KotlinMath.RemNonNegative(u % 7 + 6, 7);
    assert (u % 7 + 6) % 7 == (n + 6) % 7 by {
      var q := m / 7;
      assert u + 6 == n + 6 + (q + 1) * 7;
      KotlinMath.ModAddMod(u, 6, 7);
      KotlinMath.ModShift(n + 6, q + 1, 7);
    }
  }

  /** The `dayOfWeek` getter, with the corrected day count. */
  function DayOfWeekOf(d: Date): Weekdays.DayOfWeek
  {
    WeekdayOfCount(DaysSinceReference(d))
  }

  /** The `dayOfWeek` getter as written. */
  function DayOfWeekOfAsWritten(d: Date): Weekdays.DayOfWeek
  {
    WeekdayOfCount(DaysSinceReferenceAsWritten(d))
  }

  /** Both reference dates are Sundays. */
  lemma ReferencesAreSundays(kind: Kind)
    ensures DayOfWeekOf(Reference(kind)) == Weekdays.Sunday
  {
    assert DaysSinceReference(Reference(kind)) == 0;
  }

  /** n days later the weekday has moved n places; in particular it advances by one per day. */
  lemma DayOfWeekShift(d: Date, n: int)
    requires Valid(d)
    ensures DayOfWeekOf(Shift(d, n)) == DayOfWeekOf(d).Plus(n)
  {
    var e := Shift(d, n);
    var c := DaysSinceReference(d);
    assert DaysSinceReference(e) == c + n by {
      ShiftValid(d, n);
      ShiftDayNumber(d, n);
      DaysSinceReferenceIsGap(d);
      DaysSinceReferenceIsGap(e);
    }
    assert DayOfWeekOf(e) == WeekdayOfCount(c + n) && DayOfWeekOf(d) == WeekdayOfCount(c);
    WeekdayOfCountShift(c, n);
  }

  /** Adding n to the count moves the weekday n places. */
  lemma WeekdayOfCountShift(c: int, n: int)
    ensures WeekdayOfCount(c + n) == WeekdayOfCount(c).Plus(n)
  {
    Weekdays.PlusPlus(Weekdays.Sunday, c, n);
  }

  /** The day after a date falls on the next weekday. */
  lemma DayOfWeekNext(d: Date)
    requires Valid(d)
    ensures DayOfWeekOf(Next(d)) == DayOfWeekOf(d).Plus(1)
  {
    assert Forward(d, 0) == d;
    assert Shift(d, 1) == Next(d);
    DayOfWeekShift(d, 1);
  }

  /** AD 2002-04-13, the day before the AD reference date, is one day after it as written. */
  lemma CountBeforeReference()
    ensures DaysSinceReferenceAsWritten(Date(AD, 2002, AprilShrwan, 13)) == 1
    ensures DaysSinceReference(Date(AD, 2002, AprilShrwan, 13)) == -1
  {
    SameYearSignDropped();
  }

  /**
   * So that Saturday comes out as a Monday: the unsigned count 1 stands
   * for -1.
   */
  lemma DayOfWeekBeforeReference()
    ensures DayOfWeekOfAsWritten(Date(AD, 2002, AprilShrwan, 13)) == Weekdays.Monday
    ensures DayOfWeekOf(Date(AD, 2002, AprilShrwan, 13)) == Weekdays.Saturday
  {
    CountBeforeReference();
  }

  /** The `dayOfWeek` getter as written is right for every valid date outside AD 2002-01-01..04-13. */
  lemma DayOfWeekAgreement(d: Date)
    requires Valid(d) && !CountMisread(d)
    ensures DayOfWeekOfAsWritten(d) == DayOfWeekOf(d)
  {
    DaysSinceReferenceAgreement(d);
  }

  // ---------------------------------------------------------------------------
  // Conversion

  /**
   * `convert(date, type)`: the date itself in its own calendar; otherwise the
   * target calendar's reference date moved by the date's count from its own
   * reference date, with the `plusDays` that checks the month it carries into.
   */
  function Convert(d: Date, kind: Kind): Date
  {
    ConvertIn(d, kind, 1)
  }

  /**
   * The conversion, reached through `hops` calls. `hops` has no counterpart in
   * the Kotlin code and does not change the result: it only keeps the
   * verifier from unfolding the day count and `plusDays` behind a conversion
   * in proofs that merely compare dates with their conversions. `ConvertIs`
   * states what the conversion computes.
   */
  function ConvertIn(d: Date, kind: Kind, hops: nat): Date
  {
    if hops > 0 then ConvertIn(d, kind, 0)
    else if d.kind == kind then d
    else PlusDaysChecked(Reference(kind), DaysSinceReference(d))
  }

  /** What `convert` computes. */
  lemma ConvertIs(d: Date, kind: Kind)
    ensures Convert(d, kind) == if d.kind == kind then d else PlusDaysChecked(Reference(kind), DaysSinceReference(d))
  {
    assert ConvertIn(d, kind, 1) == ConvertIn(d, kind, 0);
  }

  /** `convert` as written: the count that drops the sign, and the unchecked `plusDays`. */
  function ConvertAsWritten(d: Date, kind: Kind): Date
  {
    if d.kind == kind then d else PlusDays(Reference(kind), DaysSinceReferenceAsWritten(d))
  }

  /** `reverse()`: conversion into the other calendar. */
  function Reverse(d: Date): Date
  {
    Convert(d, Other(d.kind))
  }

  /** `reverse()` as written: `convert` as written into the other calendar. */
  function ReverseAsWritten(d: Date): Date
  {
    ConvertAsWritten(d, Other(d.kind))
  }

  /**
   * Whether `convert(d, kind)` returns the target calendar's `REFERENCE_DATE`
   * object itself rather than a new date: it does when the count is 0, since
   * `plusDays(0)` returns `this`.
   */
  predicate ConvertSharesReference(d: Date, kind: Kind)
  {
    d.kind != kind && DaysSinceReferenceAsWritten(d) == 0
  }

  /** Among valid dates, only the other calendar's reference date converts to the shared object. */
  lemma ConvertSharesReferenceExactly(d: Date, kind: Kind)
    requires Valid(d)
    ensures ConvertSharesReference(d, kind) <==> d.kind != kind && d == Reference(d.kind)
  {
    SameCalendarDaysBetweenZero(Reference(d.kind), d);
  }

  /** `reverse()` as written is right for every valid date outside AD 2002-01-01..04-13. */
  lemma ReverseAgreement(d: Date)
    requires Valid(d) && !CountMisread(d)
    ensures ReverseAsWritten(d) == Reverse(d)
  {
    ConvertAgreement(d, Other(d.kind));
  }

  /** A valid date converts to the valid date of the target calendar at the same distance from its reference date. */
  lemma ConvertKeepsCount(d: Date, kind: Kind)
    requires Valid(d)
    ensures Valid(Convert(d, kind)) && Convert(d, kind).kind == kind
    ensures DaysSinceReference(Convert(d, kind)) == DaysSinceReference(d)
  {
    ConvertIs(d, kind);
    if d.kind != kind {
      var n := DaysSinceReference(d);
      var r := Reference(kind);
      PlusDaysCheckedIsShift(r, n);
      ShiftValid(r, n);
      ShiftDayNumber(r, n);
      DaysSinceReferenceIsGap(Shift(r, n));
    }
  }

  /** A date is the reference date moved by its count. */
  lemma FromReference(d: Date)
    requires Valid(d)
    ensures d == Shift(Reference(d.kind), DaysSinceReference(d))
  {
    DaysSinceReferenceIsGap(d);
    ShiftIsUnique(Reference(d.kind), DaysSinceReference(d), d);
  }

  /** `reverse().reverse()` gives back the date. */
  lemma ReverseReverse(d: Date)
    requires Valid(d)
    ensures Reverse(d).kind == Other(d.kind)
    ensures Reverse(Reverse(d)) == d
  {
    var e := Reverse(d);
    ConvertKeepsCount(d, Other(d.kind));
    assert Other(e.kind) == d.kind;
    ConvertIs(e, d.kind);
    PlusDaysCheckedIsShift(Reference(d.kind), DaysSinceReference(e));
    FromReference(d);
  }

  /** Conversion keeps the day of the week. */
  lemma ConvertKeepsDayOfWeek(d: Date, kind: Kind)
    requires Valid(d)
    ensures DayOfWeekOf(Convert(d, kind)) == DayOfWeekOf(d)
  {
    ConvertKeepsCount(d, kind);
  }

  /** Each reference date converts to the other. */
  lemma ReferencesCorrespond()
    ensures Reverse(Reference(AD)) == Reference(BS)
    ensures Reverse(Reference(BS)) == Reference(AD)
  {
    ConvertIs(Reference(AD), BS);
    ConvertIs(Reference(BS), AD);
  }

  /**
   * The unchecked `plusDays` is harmless from the reference dates: neither
   * AD April 2002 (30 days, then 31) nor BS Baishak 2059 (31 days, then 31)
   * lets the fast path overflow.
   */
  lemma ReferenceFastPathSafe(kind: Kind, n: int)
    ensures PlusDays(Reference(kind), n) == PlusDaysChecked(Reference(kind), n)
  {
    var r := Reference(kind);
    FastPathOverflowCharacterised(r, n);
    if kind == BS {
      assert LengthOfMonth(2059, JanuaryBaishak, BS) == 31 by {
        BsCalendar.Row2059();
        LengthOfMonthCases(2059, JanuaryBaishak, BS);
      }
    }
  }

  /** `convert` as written goes wrong only through the day count, for AD dates of 2002 before April 14. */
  lemma ConvertAgreement(d: Date, kind: Kind)
    requires Valid(d)
    requires !CountMisread(d)
    ensures ConvertAsWritten(d, kind) == Convert(d, kind)
  {
    DaysSinceReferenceAgreement(d);
    ConvertIs(d, kind);
    ReferenceFastPathSafe(kind, DaysSinceReference(d));
  }

  /**
   * AD 2002-04-13 converts as written to BS 2059-01-02, the day after the BS
   * reference date, instead of BS 2058-12-31, the day before it.
   */
  lemma ConvertBeforeReference()
    ensures ConvertAsWritten(Date(AD, 2002, AprilShrwan, 13), BS) == Date(BS, 2059, JanuaryBaishak, 2)
    ensures Convert(Date(AD, 2002, AprilShrwan, 13), BS) == Date(BS, 2058, DecemberChaitra, 31)
  {
    var d := Date(AD, 2002, AprilShrwan, 13);
    var r := Reference(BS);
    CountBeforeReference();
    assert ConvertAsWritten(d, BS) == PlusDays(r, 1);
    assert PlusDays(r, 1) == r.(day := 2);
    ConvertIs(d, BS);
    assert Convert(d, BS) == PlusDaysChecked(r, -1);
    assert PlusDaysChecked(r, -1) == Prev(r) by {
      assert Backward(r, 0) == r;
    }
    assert LengthOfMonth(2058, DecemberChaitra, BS) == 31 by {
      BsCalendar.Row2058();
      LengthOfMonthCases(2058, DecemberChaitra, BS);
    }
  }

  // ---------------------------------------------------------------------------
  // Comparison

  /**
   * `compareTo(other)`: for another calendar, first the fields against
   * `other.reverse()`; when those agree, or in one calendar, the fields
   * against `other` as it is.
   */
  function Compare(a: Date, b: Date): (c: int)
    ensures a.kind == b.kind ==> (c < 0 <==> Before(a, b)) && (c > 0 <==> After(a, b))
    ensures c == 0 <==> SameFields(a, b) && (a.kind == b.kind || SameFields(a, Reverse(b)))
  {
    var cmp := if a.kind == b.kind then 0 else CompareFields(a, Reverse(b));
    if cmp == 0 then CompareFields(a, b) else cmp
  }

  /**
   * `compareTo(other)` as written: the same comparison against the
   * as-written `other.reverse()`. It differs from `Compare` only when `other`
   * is an AD date of 2002 before April 14 and the calendars differ.
   */
  function CompareAsWritten(a: Date, b: Date): (c: int)
    ensures a.kind == b.kind ==> (c < 0 <==> Before(a, b)) && (c > 0 <==> After(a, b))
    ensures c == 0 <==> SameFields(a, b) && (a.kind == b.kind || SameFields(a, ReverseAsWritten(b)))
    ensures Valid(b) && !CountMisread(b) ==> c == Compare(a, b)
  {
    var cmp := if a.kind == b.kind then 0 else CompareFields(a, ReverseAsWritten(b));
    var c := if cmp == 0 then CompareFields(a, b) else cmp;
    if Valid(b) && !CountMisread(b) then ReverseAgreement(b); c else c
  }

  /**
   * BS 2059-01-01 (the BS reference date) comes after AD 2002-04-13 by the
   * corrected comparison, but before it as written, which reverses the AD date
   * to BS 2059-01-02.
   */
  lemma CompareBeforeReference()
    ensures CompareAsWritten(Reference(BS), Date(AD, 2002, AprilShrwan, 13)) < 0
    ensures Compare(Reference(BS), Date(AD, 2002, AprilShrwan, 13)) > 0
  {
    ConvertBeforeReference();
  }

  /** `equals`: `compareTo` gives zero. */
  predicate Equals(a: Date, b: Date)
  {
    Compare(a, b) == 0
  }

  /** Across calendars `compareTo` orders by the day itself, and only a tie falls back on the raw fields. */
  lemma CompareAcrossCalendars(a: Date, b: Date)
    requires Valid(a) && Valid(b) && a.kind != b.kind
    ensures Compare(a, b) < 0 <==>
      DaysSinceReference(a) < DaysSinceReference(b) || (DaysSinceReference(a) == DaysSinceReference(b) && Before(a, b))
  {
    var rb := Reverse(b);
    ConvertKeepsCount(b, a.kind);
    assert Other(b.kind) == a.kind;
    BeforeIsDayNumberOrder(a, rb);
    DaysSinceReferenceIsGap(a);
    DaysSinceReferenceIsGap(rb);
    if DaysSinceReference(a) == DaysSinceReference(rb) {
      DayNumberInjective(a, rb);
    } else {
      BeforeIsDayNumberOrder(rb, a);
      BeforeIsStrictOrder(a, rb, rb);
    }
  }

  /** A valid date equals its conversion only if the conversion has the very same fields. */
  lemma EqualsOwnConversion(d: Date)
    requires Valid(d)
    ensures Equals(d, Reverse(d)) <==> SameFields(d, Reverse(d))
  {
    ReverseReverse(d);
  }

  /** The two reference dates name the same day, yet they do not compare equal. */
  lemma ReferencesNotEqual()
    ensures Reverse(Reference(AD)) == Reference(BS)
    ensures !Equals(Reference(AD), Reference(BS))
  {
    ReferencesCorrespond();
  }
}
