/**
 * `Period` (core/src/main/java/com/maddy/calendar/core/Helpers.kt): the
 * ordering of two dates of any calendars by `startEndType`, and the day,
 * month and week counts between them; with the step-counting
 * `Utils.daysDifference` of ILocalDate.kt that the tests use as an oracle.
 */
module Period {
  import opened Months
  import opened Dates
  import opened DayArithmetic
  import opened DayNumbers
  import opened Intervals
  import opened Conversion
  import Weekdays
  import KotlinMath
  import Stepping

  // ---------------------------------------------------------------------------
  // startEndType

  /** The end date as `startEndType` compares it: reversed into the start's calendar when the calendars differ. */
  function Target(start: Date, end: Date): Date
  {
    if start.kind != end.kind then Reverse(end) else end
  }

  /**
   * `startEndType(start, end)`: the earlier and the later of `start` and the
   * end in the start's calendar, with sign 1 when `start` comes first or the
   * two are equal, -1 otherwise.
   */
  function StartEndType(start: Date, end: Date): Span
  {
    Order(start, Target(start, end))
  }

  /**
   * On valid dates the pair is ordered, lies in the start's calendar, and its
   * sign says whether `start` is no later than `end` as a day; sign times the
   * gap between the pair is the gap between the dates' counts from the
   * reference dates.
   */
  lemma StartEndTypeOrders(start: Date, end: Date)
    requires Valid(start) && Valid(end)
    ensures var s := StartEndType(start, end);
      Valid(s.early) && Valid(s.later) && s.early.kind == start.kind && s.later.kind == start.kind
      && !Before(s.later, s.early)
      && (s.sign == 1 <==> DaysSinceReference(start) <= DaysSinceReference(end))
      && s.sign * (DayNumber(s.later) - DayNumber(s.early)) == DaysSinceReference(end) - DaysSinceReference(start)
      && DaysOfSpan(s) == DaysSinceReference(end) - DaysSinceReference(start)
  {
    var t := Target(start, end);
    TargetKeepsCount(start, end);
    BeforeIsDayNumberOrder(t, start);
    DaysSinceReferenceIsGap(start);
    DaysSinceReferenceIsGap(t);
    DistanceIsDayNumberGap(StartEndType(start, end));
  }

  /** The reversed end date is a valid date of the start's calendar at the same count. */
  lemma TargetKeepsCount(start: Date, end: Date)
    requires Valid(end)
    ensures Valid(Target(start, end)) && DaysSinceReference(Target(start, end)) == DaysSinceReference(end)
    ensures start.kind == end.kind || Target(start, end).kind == start.kind
  {
    if start.kind != end.kind {
      ConvertKeepsCount(end, Other(end.kind));
    }
  }

  // ---------------------------------------------------------------------------
  // daysBetween

  /**
   * `daysBetween(start, end)` with the sign applied in the same-year branch:
   * zero for equal dates, otherwise the signed distance of the ordered pair.
   */
  function DaysBetween(start: Date, end: Date): int
  {
    if Equals(start, end) then 0 else DaysOfSpan(StartEndType(start, end))
  }

  /** `daysBetween(start, end)` as written: the same-year branch returns the distance unsigned. */
  function DaysBetweenAsWritten(start: Date, end: Date): int
  {
    if Equals(start, end) then 0 else DaysOfSpanAsWritten(StartEndType(start, end))
  }

  /**
   * `daysBetween` step by step: the `for` loop adds up the years strictly
   * between the two, then the rest of the first year and the days of the last.
   */
  method ComputeDaysBetween(start: Date, end: Date) returns (r: int)
    ensures r == DaysBetweenAsWritten(start, end)
  {
    if Equals(start, end) {
      return 0;
    }
    r := ComputeDaysOfSpan(StartEndType(start, end));
  }

  /** The body of `daysBetween` after `startEndType` has ordered the pair. */
  method ComputeDaysOfSpan(s: Span) returns (r: int)
    ensures r == DaysOfSpanAsWritten(s)
  {
    var earlyDate, laterDate := s.early, s.later;
    if earlyDate.year == laterDate.year {
      return DayOfYear(laterDate) - DayOfYear(earlyDate);
    }
    // `(earlyDate.year + 1) until laterDate.year` is empty when the bounds cross
    var dom := 0;
    var year := earlyDate.year + 1;
    while year < laterDate.year
      invariant year == earlyDate.year + 1 || earlyDate.year + 1 < year <= laterDate.year
      invariant dom == YearsLength(earlyDate.kind, earlyDate.year + 1, year)
    {
      dom := dom + LengthOfYear(year, earlyDate.kind);
      year := year + 1;
    }
    dom := dom + LengthOfYear(earlyDate.year, earlyDate.kind) - DayOfYear(earlyDate);
    dom := dom + DayOfYear(laterDate);
    r := dom * s.sign;
  }

  /** In one calendar `daysBetween` is the same-calendar count: the knot that `daysSinceReferenceDate` ties. */
  lemma DaysBetweenSameCalendar(start: Date, end: Date)
    requires start.kind == end.kind
    ensures DaysBetween(start, end) == SameCalendarDaysBetween(start, end)
    ensures DaysBetweenAsWritten(start, end) == SameCalendarDaysBetweenAsWritten(start, end)
  {
  }

  /** So `daysSinceReferenceDate` is `daysBetween` from the date's own reference date. */
  lemma DaysSinceReferenceIsDaysBetween(d: Date)
    ensures DaysSinceReference(d) == DaysBetween(Reference(d.kind), d)
    ensures DaysSinceReferenceAsWritten(d) == DaysBetweenAsWritten(Reference(d.kind), d)
  {
    DaysBetweenSameCalendar(Reference(d.kind), d);
  }

  /**
   * On valid dates of any calendars, `daysBetween` is the difference of the
   * dates' counts from their reference dates: the number of days from one
   * day to the other.
   */
  lemma DaysBetweenIsCountGap(start: Date, end: Date)
    requires Valid(start) && Valid(end)
    ensures DaysBetween(start, end) == DaysSinceReference(end) - DaysSinceReference(start)
  {
    if Equals(start, end) {
      EqualsSameCount(start, end);
    } else {
      StartEndTypeOrders(start, end);
    }
  }

  /** Dates that compare equal are the same day: their counts agree. */
  lemma EqualsSameCount(start: Date, end: Date)
    requires Valid(start) && Valid(end) && Equals(start, end)
    ensures DaysSinceReference(start) == DaysSinceReference(end)
  {
    TargetKeepsCount(start, end);
    if start.kind == end.kind {
      assert start == end;
    } else {
      assert start == Target(start, end);
    }
  }

  /** Swapping the dates negates the count, for dates of any calendars. */
  lemma DaysBetweenAntisymmetric(start: Date, end: Date)
    requires Valid(start) && Valid(end)
    ensures DaysBetween(end, start) == -DaysBetween(start, end)
  {
    DaysBetweenIsCountGap(start, end);
    DaysBetweenIsCountGap(end, start);
  }

  /** Converting either date changes nothing: the count is about days, not about calendars. */
  lemma DaysBetweenIgnoresCalendar(start: Date, end: Date, kind: Kind)
    requires Valid(start) && Valid(end)
    ensures DaysBetween(Convert(start, kind), Convert(end, kind)) == DaysBetween(start, end)
  {
    ConvertKeepsCount(start, kind);
    ConvertKeepsCount(end, kind);
    DaysBetweenIsCountGap(start, end);
    DaysBetweenIsCountGap(Convert(start, kind), Convert(end, kind));
  }

  /** The test's pair: 3766 days from AD 2010-10-01 to AD 2021-01-22, and back. */
  lemma DaysBetweenTestValues()
    ensures DaysBetween(Date(AD, 2010, OctoberMagh, 1), Date(AD, 2021, JanuaryBaishak, 22)) == 3766
    ensures DaysBetween(Date(AD, 2021, JanuaryBaishak, 22), Date(AD, 2010, OctoberMagh, 1)) == -3766
  {
    var a, b := Date(AD, 2010, OctoberMagh, 1), Date(AD, 2021, JanuaryBaishak, 22);
    TestYearsLength();
    assert DaysBetween(a, b) == Distance(Span(1, a, b));
    assert DaysBetween(b, a) == -Distance(Span(1, a, b));
  }

  /** The ten whole Gregorian years the test's pair spans: 2011 to 2020, three of them leap years. */
  lemma TestYearsLength()
    ensures YearsLength(AD, 2011, 2021) == 3653
  {
    TestYearsLengthFirst();
    assert YearsLength(AD, 2011, 2019) == 2922;
  }

  /** The first four of them, with the leap year 2012. */
  lemma TestYearsLengthFirst()
    ensures YearsLength(AD, 2011, 2015) == 1461
  {
    assert YearsLength(AD, 2011, 2013) == 731;
  }

  /**
   * `Utils.daysDifference(from, to)` with the loop on a copy of the earlier
   * date: order the dates with `startEndType`, then count single-day steps
   * from the earlier to the later. It agrees with `daysBetween`, and changes
   * no existing object (`DaysDifferenceAsWritten` is the code as written).
   */
  method DaysDifference(from: Date, to: Date) returns (r: int)
    requires Valid(from) && Valid(to)
    ensures r == DaysBetween(from, to)
  {
    var s := StartEndType(from, to);
    DaysBetweenOfSpan(from, to);
    r := Stepping.CountSteps(s.early, s.later, s.sign);
  }

  /**
   * Whether `daysDifference(start, end)` steps a shared `REFERENCE_DATE`
   * object: the end is the reference date of the other calendar and the start
   * is a later day. `StepsSharedReferenceIsSourceCase` shows that this is the
   * case the code reaches.
   */
  predicate StepsSharedReference(start: Date, end: Date)
  {
    start.kind != end.kind && end == Reference(end.kind) && Before(Reference(start.kind), start)
  }

  /**
   * The loop runs on the earlier date that `startEndType` returns. When
   * `start` comes later (sign -1) that is `toS` itself rather than a copy,
   * and across calendars `toS` is `end.reverse()`, which is the shared object
   * exactly when `convert` hands it back.
   */
  lemma StepsSharedReferenceIsSourceCase(start: Date, end: Date)
    requires Valid(start) && Valid(end)
    ensures StepsSharedReference(start, end)
        <==> ConvertSharesReference(end, start.kind) && StartEndType(start, end).sign == -1
  {
    ConvertSharesReferenceExactly(end, start.kind);
    StartEndTypeOrders(start, end);
    DaysSinceReferenceIsGap(end);
    DaysSinceReferenceIsGap(start);
    BeforeIsDayNumberOrder(Reference(start.kind), start);
  }

  /** In that case the loop starts on the start calendar's reference date and ends on `start`. */
  lemma SharedReferenceSpan(start: Date, end: Date)
    ensures StepsSharedReference(start, end) ==>
      StartEndType(start, end).early == Reference(start.kind) && StartEndType(start, end).later == start
  {
    ReferencesCorrespond();
  }

  /**
   * `Utils.daysDifference(from, to)` as written, with `reference` the
   * `REFERENCE_DATE` object of the start's calendar, still holding its date.
   * The count is that of `DaysDifference`, but where `StepsSharedReference`
   * holds the loop steps `reference` itself up to `from`, and every later
   * `convert` into that calendar starts from the moved date.
   */
  method DaysDifferenceAsWritten(from: Date, to: Date, reference: Stepping.MutableDate) returns (r: int)
    requires Valid(from) && Valid(to)
    requires reference.Value() == Reference(from.kind)
    modifies reference
    ensures r == DaysBetween(from, to)
    ensures StepsSharedReference(from, to) ==> reference.Value() == from
    ensures !StepsSharedReference(from, to) ==> reference.Value() == old(reference.Value())
  {
    var s := StartEndType(from, to);
    DaysBetweenOfSpan(from, to);
    SharedReferenceSpan(from, to);
    var shared := StepsSharedReference(from, to);
    r := Stepping.StepShared(reference, shared, s.early, s.later, s.sign);
  }

  /**
   * Two inputs that move a reference date: BS 2060-01-01 to AD 2002-04-14
   * steps the BS `REFERENCE_DATE`, and AD 2003-01-01 to BS 2059-01-01 the AD
   * one. After the first, `reverse()` of AD 2002-04-14 adds its count 0 to the
   * moved object and gives BS 2060-01-01 where the conversion is BS 2059-01-01.
   */
  lemma DaysDifferenceMovesReference()
    ensures StepsSharedReference(Date(BS, 2060, JanuaryBaishak, 1), Reference(AD))
    ensures StepsSharedReference(Date(AD, 2003, JanuaryBaishak, 1), Reference(BS))
    ensures ConvertSharesReference(Reference(AD), BS)
    ensures PlusDays(Date(BS, 2060, JanuaryBaishak, 1), DaysSinceReferenceAsWritten(Reference(AD)))
         == Date(BS, 2060, JanuaryBaishak, 1)
    ensures Reverse(Reference(AD)) == Date(BS, 2059, JanuaryBaishak, 1)
  {
    ConvertSharesReferenceExactly(Reference(AD), BS);
    ReferencesCorrespond();
  }

  /**
   * Across calendars the model orders against the corrected reverse: from
   * BS 2059-01-01 to AD 2002-04-13 it counts -1, while `reverse()` as written
   * turns the end into BS 2059-01-02, one day after the start.
   */
  lemma DaysBetweenAcrossBeforeReference()
    ensures DaysBetween(Reference(BS), Date(AD, 2002, AprilShrwan, 13)) == -1
    ensures ReverseAsWritten(Date(AD, 2002, AprilShrwan, 13)) == Date(BS, 2059, JanuaryBaishak, 2)
  {
    var e := Date(AD, 2002, AprilShrwan, 13);
    ConvertBeforeReference();
    DaysBetweenIsCountGap(Reference(BS), e);
    CountBeforeReference();
  }

  /** The ordered pair fits the step count, and its signed day-number gap is `daysBetween`. */
  lemma DaysBetweenOfSpan(start: Date, end: Date)
    requires Valid(start) && Valid(end)
    ensures var s := StartEndType(start, end);
      Valid(s.early) && Valid(s.later) && s.early.kind == s.later.kind && !Before(s.later, s.early)
      && DaysBetween(start, end) == s.sign * (DayNumber(s.later) - DayNumber(s.early))
  {
    StartEndTypeOrders(start, end);
    DaysBetweenIsCountGap(start, end);
  }

  // ---------------------------------------------------------------------------
  // monthsBetween

  /** The position of a date's month on a running month count. */
  function MonthIndex(d: Date): int
  {
    d.year * 12 + d.month.Ordinal()
  }

  /**
   * The unsigned count of `monthsBetween` for an ordered pair: twelve months per
   * year between the two years, the months from the earlier date's month to
   * December by Month subtraction, and the later month's value.
   */
  function SpanMonths(early: Date, later: Date): int
  {
    var yearDifference := later.year - early.year - 1;
    yearDifference * DecemberChaitra.Value() + DecemberChaitra.MinusMonth(early.month).Value() + later.month.Value()
  }

  /** `monthsBetween(start, end)` as written: zero for equal dates, otherwise the signed count of the ordered pair. */
  function MonthsBetween(start: Date, end: Date): int
  {
    if Equals(start, end) then 0
    else
      var s := StartEndType(start, end);
      SpanMonths(s.early, s.later) * s.sign
  }

  /** `monthsBetween` as intended: the signed difference of the running month counts of the ordered pair. */
  function MonthsBetweenCorrected(start: Date, end: Date): int
  {
    if Equals(start, end) then 0
    else
      var s := StartEndType(start, end);
      (MonthIndex(s.later) - MonthIndex(s.early)) * s.sign
  }

  /** The count of an ordered pair as written is the gap of the running month counts, plus a year from December. */
  lemma SpanMonthsIsGap(early: Date, later: Date)
    ensures SpanMonths(early, later)
      == MonthIndex(later) - MonthIndex(early) + (if early.month == DecemberChaitra then 12 else 0)
  {
    DecemberMinus(early.month);
    var years := later.year - early.year - 1;
    assert years * DecemberChaitra.Value() == years * 12;
  }

  /** The code over-counts by a year exactly when the earlier date lies in DECEMBER_CHAITRA. */
  lemma MonthsBetweenAgreement(start: Date, end: Date)
    ensures var s := StartEndType(start, end);
      MonthsBetween(start, end) == MonthsBetweenCorrected(start, end)
        + (if !Equals(start, end) && s.early.month == DecemberChaitra then 12 * s.sign else 0)
  {
    var s := StartEndType(start, end);
    SpanMonthsIsGap(s.early, s.later);
    var gap := MonthIndex(s.later) - MonthIndex(s.early);
    var c := if s.early.month == DecemberChaitra then 12 else 0;
    if s.sign == 1 {
      assert SpanMonths(s.early, s.later) * s.sign == gap + c && gap * s.sign == gap;
    } else {
      assert SpanMonths(s.early, s.later) * s.sign == -gap - c && gap * s.sign == -gap;
    }
  }

  /** In one calendar the corrected count is the difference of the month counts. */
  lemma MonthsBetweenCorrectedIsIndexGap(start: Date, end: Date)
    requires start.kind == end.kind
    ensures MonthsBetweenCorrected(start, end) == MonthIndex(end) - MonthIndex(start)
  {
  }

  /** In one calendar, swapping the dates negates the count as written. */
  lemma MonthsBetweenAntisymmetric(start: Date, end: Date)
    requires start.kind == end.kind
    ensures MonthsBetween(end, start) == -MonthsBetween(start, end)
  {
    if !SameFields(start, end) {
      OrderSwaps(start, end);
      var s, t := StartEndType(start, end), StartEndType(end, start);
      assert t.early == s.early && t.later == s.later && t.sign == -s.sign;
      var dom := SpanMonths(s.early, s.later);
      assert MonthsBetween(start, end) == dom * s.sign;
      assert MonthsBetween(end, start) == dom * t.sign;
      if s.sign == 1 {
        assert t.sign == -1;
      } else {
        assert t.sign == 1;
      }
    }
  }

  /** The test's pair: 43 months from AD 2018-09-01 to AD 2022-04-01, and -43 back. */
  lemma MonthsBetweenTestValues()
    ensures MonthsBetween(Date(AD, 2018, SeptemberPaush, 1), Date(AD, 2022, AprilShrwan, 1)) == 43
    ensures MonthsBetween(Date(AD, 2022, AprilShrwan, 1), Date(AD, 2018, SeptemberPaush, 1)) == -43
  {
    DecemberMinus(SeptemberPaush);
  }

  /** From AD 2018-12-01 to AD 2019-01-01 is one month, but the code counts 13. */
  lemma MonthsBetweenFromDecember()
    ensures MonthsBetween(Date(AD, 2018, DecemberChaitra, 1), Date(AD, 2019, JanuaryBaishak, 1)) == 13
    ensures MonthsBetweenCorrected(Date(AD, 2018, DecemberChaitra, 1), Date(AD, 2019, JanuaryBaishak, 1)) == 1
  {
    var a, b := Date(AD, 2018, DecemberChaitra, 1), Date(AD, 2019, JanuaryBaishak, 1);
    assert !Equals(a, b) && StartEndType(a, b) == Span(1, a, b);
    SpanMonthsIsGap(a, b);
    assert SpanMonths(a, b) == 13;
  }

  // ---------------------------------------------------------------------------
  // weeksBetween

  /**
   * How many of the days 1..i after a first day of weekday `startDay` begin a
   * new week, that is fall on `firstDayOfWeek`: the index of day i's week.
   */
  function WeekIndex(startDay: Weekdays.DayOfWeek, firstDayOfWeek: Weekdays.DayOfWeek, i: nat): nat
  {
    if i == 0 then 0
    else WeekIndex(startDay, firstDayOfWeek, i - 1) + (if startDay.Plus(i) == firstDayOfWeek then 1 else 0)
  }

  /**
   * What `weeksBetween` promises: 1 for a range of at most one day; otherwise
   * the sign of the pair times the number of weeks, each starting on
   * `firstDayOfWeek`, that the days from the earlier to the later date meet.
   */
  ghost function WeekCount(start: Date, end: Date, firstDayOfWeek: Weekdays.DayOfWeek): int
  {
    var s := StartEndType(start, end);
    WeeksMet(s.sign, DaysBetween(s.early, s.later), DayOfWeekOf(s.early), firstDayOfWeek)
  }

  /**
   * 1 for a range of at most one day; otherwise `sign` times the number of
   * weeks met by the days 0..days after a first day of weekday `startDay`.
   */
  function WeeksMet(sign: int, days: int, startDay: Weekdays.DayOfWeek, firstDayOfWeek: Weekdays.DayOfWeek): int
  {
    if days <= 0 then 1 else sign * (WeekIndex(startDay, firstDayOfWeek, days) + 1)
  }

  /**
   * The same count as the code takes it: the day count of the ordered pair by
   * `daysBetween` as written, and the first day's weekday by the `dayOfWeek`
   * getter as written.
   */
  ghost function WeekCountAsWritten(start: Date, end: Date, firstDayOfWeek: Weekdays.DayOfWeek): int
  {
    var s := StartEndType(start, end);
    WeeksMet(s.sign, DaysBetweenAsWritten(s.early, s.later), DayOfWeekOfAsWritten(s.early), firstDayOfWeek)
  }

  /**
   * `weeksBetween(start, end, firstDayOfWeek)`: count the first, possibly
   * partial, week up to the next `firstDayOfWeek`, then the full weeks and a
   * last partial week of what remains, with JVM division and remainder (the
   * remainder is negative when the range ends inside the first week). It
   * counts the weeks the range meets, starting from the weekday the getter
   * gives for the earlier date.
   */
  method WeeksBetween(start: Date, end: Date, firstDayOfWeek: Weekdays.DayOfWeek) returns (r: int)
    ensures r == WeekCountAsWritten(start, end, firstDayOfWeek)
  {
    var s := StartEndType(start, end);
    var earlyDate, laterDate := s.early, s.later;
    var totalDays := DaysBetweenAsWritten(earlyDate, laterDate) + 1;
    var startDayOfWeek := DayOfWeekOfAsWritten(earlyDate);
    WeekCountAsWrittenIs(start, end, firstDayOfWeek);
    if totalDays <= 1 {
      return 1;
    }
    var dom := firstDayOfWeek.MinusDay(startDayOfWeek).Value();
    ghost var t := totalDays;
    var count := 0;
    if dom > 0 {
      count := count + 1;
      totalDays := totalDays - dom;
    }
    var fullWeeks := KotlinMath.Quot(totalDays, 7);
    var remDays := KotlinMath.Rem(totalDays, 7);
    count := count + fullWeeks;
    if remDays > 0 {
      count := count + 1;
    }
    CountIsWeeksMet(t, count, s.sign, startDayOfWeek, firstDayOfWeek);
    r := count * s.sign;
  }

  /** The week count as written, in terms of the ordered pair. */
  lemma WeekCountAsWrittenIs(start: Date, end: Date, firstDayOfWeek: Weekdays.DayOfWeek)
    ensures var s := StartEndType(start, end);
      (s.sign == 1 || s.sign == -1)
      && WeekCountAsWritten(start, end, firstDayOfWeek)
         == WeeksMet(s.sign, DaysBetweenAsWritten(s.early, s.later), DayOfWeekOfAsWritten(s.early), firstDayOfWeek)
  {
  }

  /**
   * The code's count for a range of `t` >= 2 days starting on `startDay`,
   * signed, is the number of weeks the range meets.
   */
  lemma CountIsWeeksMet(t: int, count: int, sign: int, startDay: Weekdays.DayOfWeek, firstDayOfWeek: Weekdays.DayOfWeek)
    requires t >= 2 && (sign == 1 || sign == -1)
    requires var dom := firstDayOfWeek.MinusDay(startDay).Value();
      count == (if dom > 0 then 1 else 0) + KotlinMath.Quot(t - (if dom > 0 then dom else 0), 7)
             + (if KotlinMath.Rem(t - (if dom > 0 then dom else 0), 7) > 0 then 1 else 0)
    ensures count * sign == WeeksMet(sign, t - 1, startDay, firstDayOfWeek)
  {
    var dom := firstDayOfWeek.MinusDay(startDay).Value();
    WeekIndexClosedForm(startDay, firstDayOfWeek, t - 1);
    WeeksSigned(t, dom, count, sign);
    FormulaOfIndex(t - 1, dom, sign, WeekIndex(startDay, firstDayOfWeek, t - 1));
  }

  /**
   * On valid dates whose earlier date is not an AD date of 2002 before April
   * 14, the code counts the weeks the range meets.
   */
  lemma WeekCountAgreement(start: Date, end: Date, firstDayOfWeek: Weekdays.DayOfWeek)
    requires Valid(start) && Valid(end) && !CountMisread(StartEndType(start, end).early)
    ensures WeekCountAsWritten(start, end, firstDayOfWeek) == WeekCount(start, end, firstDayOfWeek)
  {
    var s := StartEndType(start, end);
    StartEndTypeOrders(start, end);
    OrderedPairCount(s.early, s.later);
    DayOfWeekAgreement(s.early);
    assert WeekCount(start, end, firstDayOfWeek)
        == WeeksMet(s.sign, DaysBetween(s.early, s.later), DayOfWeekOf(s.early), firstDayOfWeek);
    assert WeekCountAsWritten(start, end, firstDayOfWeek)
        == WeeksMet(s.sign, DaysBetweenAsWritten(s.early, s.later), DayOfWeekOfAsWritten(s.early), firstDayOfWeek);
  }

  /**
   * AD 2002-04-13 to AD 2002-04-14 with weeks from SUNDAY: the Saturday and
   * the Sunday lie in two weeks, but the code takes the Saturday for a Monday
   * and counts one.
   */
  lemma WeeksBetweenBeforeReference()
    ensures WeekCountAsWritten(Date(AD, 2002, AprilShrwan, 13), Date(AD, 2002, AprilShrwan, 14), Weekdays.Sunday) == 1
    ensures WeekCount(Date(AD, 2002, AprilShrwan, 13), Date(AD, 2002, AprilShrwan, 14), Weekdays.Sunday) == 2
  {
    var a, b := Date(AD, 2002, AprilShrwan, 13), Date(AD, 2002, AprilShrwan, 14);
    DayOfWeekBeforeReference();
    assert StartEndType(a, b) == Span(1, a, b);
    assert DaysBetween(a, b) == 1 && DaysBetweenAsWritten(a, b) == 1;
    assert WeekCount(a, b, Weekdays.Sunday) == WeeksMet(1, 1, Weekdays.Saturday, Weekdays.Sunday);
    assert WeekCountAsWritten(a, b, Weekdays.Sunday) == WeeksMet(1, 1, Weekdays.Monday, Weekdays.Sunday);
    assert WeekIndex(Weekdays.Monday, Weekdays.Sunday, 1) == 0;
    assert WeekIndex(Weekdays.Saturday, Weekdays.Sunday, 1) == 1;
  }

  /** The week count of a range of `t` days whose first week has `dom` days, with the direction's sign. */
  function WeeksFormula(t: int, dom: int, sign: int): int
  {
    if t <= 1 then 1 else sign * ((t - 1 + 7 - dom) / 7 + 1)
  }

  /** The count the method reaches for a range of `t` > 1 days, signed, is the closed form of the week count. */
  lemma WeeksSigned(t: int, dom: int, count: int, sign: int)
    requires t >= 2 && 1 <= dom <= 7 && (sign == 1 || sign == -1)
    requires count == 1 + KotlinMath.Quot(t - dom, 7) + (if KotlinMath.Rem(t - dom, 7) > 0 then 1 else 0)
    ensures count * sign == WeeksFormula(t, dom, sign)
  {
    WeeksArithmetic(t, dom);
    var weeks := (t - 1 + 7 - dom) / 7 + 1;
    assert count == weeks;
    if sign == 1 {
      assert count * sign == weeks;
    } else {
      assert count * sign == -weeks;
    }
  }

  /** The closed form of the week index, signed, is `WeeksFormula` of the range's length. */
  lemma FormulaOfIndex(days: int, dom: int, sign: int, index: int)
    requires days > 0 && index == (days + 7 - dom) / 7
    ensures sign * (index + 1) == WeeksFormula(days + 1, dom, sign)
  {
    assert days + 1 - 1 + 7 - dom == days + 7 - dom;
  }

  /** On an ordered pair of one calendar the code as written counts correctly, and the count is not negative. */
  lemma OrderedPairCount(early: Date, later: Date)
    requires Valid(early) && Valid(later) && early.kind == later.kind && !Before(later, early)
    ensures DaysBetweenAsWritten(early, later) == DaysBetween(early, later) >= 0
  {
    DaysBetweenSameCalendar(early, later);
    SameCalendarDaysBetweenAgreement(early, later);
    SameCalendarDaysBetweenIsGap(early, later);
    BeforeIsDayNumberOrder(later, early);
  }

  /** The first-week length `dom` lies in 1..7, and the week index grows every seven days from it. */
  lemma {:induction false} WeekIndexClosedForm(startDay: Weekdays.DayOfWeek, firstDayOfWeek: Weekdays.DayOfWeek, i: nat)
    ensures 1 <= firstDayOfWeek.MinusDay(startDay).Value() <= 7
    ensures WeekIndex(startDay, firstDayOfWeek, i) == (i + 7 - firstDayOfWeek.MinusDay(startDay).Value()) / 7
  {
    var dom := firstDayOfWeek.MinusDay(startDay).Value();
    if i > 0 {
      WeekIndexClosedForm(startDay, firstDayOfWeek, i - 1);
      WeekStart(startDay, firstDayOfWeek, i);
      QuotientStep(i + 7 - dom);
    }
  }

  /** Day i begins a week exactly when i + 7 - dom is a multiple of 7. */
  lemma WeekStart(startDay: Weekdays.DayOfWeek, firstDayOfWeek: Weekdays.DayOfWeek, i: int)
    ensures var dom := firstDayOfWeek.MinusDay(startDay).Value();
      1 <= dom <= 7 && ((i + 7 - dom) % 7 == 0 <==> startDay.Plus(i) == firstDayOfWeek)
  {
    var os, of := startDay.Ordinal(), firstDayOfWeek.Ordinal();
    WeekStartArith(os, of, i);
  }

  /** The arithmetic of `WeekStart` on the ordinals. */
  lemma WeekStartArith(os: int, of: int, i: int)
    requires 0 <= os < 7 && 0 <= of < 7
    ensures 1 <= (of - os - 1) % 7 + 1 <= 7
    ensures (i + 6 - (of - os - 1) % 7) % 7 == 0 <==> (os + i) % 7 == of
  {
    var k := (of - os - 1) % 7;
    var m := (of - os - 1) / 7;
    assert of - os - 1 == 7 * m + k;
    assert i + 6 - k == (os + i - of) + (m + 1) * 7;
    KotlinMath.ModShift(os + i - of, m + 1, 7);
    KotlinMath.ModAddMod(os + i, -of, 7);
    var x := (os + i) % 7;
    assert (x - of) % 7 == 0 <==> x == of by {
      if x >= of {
        KotlinMath.SmallMod(x - of, 7);
      } else {
        KotlinMath.ModShift(x - of, 1, 7);
        KotlinMath.SmallMod(x - of + 7, 7);
      }
    }
  }

  /** The quotient by 7 grows by one exactly at a multiple of 7. */
  lemma QuotientStep(y: int)
    requires y >= 1
    ensures y / 7 == (y - 1) / 7 + (if y % 7 == 0 then 1 else 0)
  {
    var q, r := (y - 1) / 7, (y - 1) % 7;
    if r == 6 {
      KotlinMath.FloorUnique(y, 7, q + 1);
    } else {
      KotlinMath.FloorUnique(y, 7, q);
    }
  }

  /**
   * The code's count for `t` >= 2 days and a first week of `dom` days: one
   * for the first week, the truncated quotient, one more for a positive
   * remainder.
   */
  lemma WeeksArithmetic(t: int, dom: int)
    requires t >= 2 && 1 <= dom <= 7
    ensures 1 + KotlinMath.Quot(t - dom, 7) + (if KotlinMath.Rem(t - dom, 7) > 0 then 1 else 0)
      == (t - 1 + 7 - dom) / 7 + 1
  {
    var x := t - dom;
    if x >= 0 {
      var q, r := x / 7, x % 7;
      assert KotlinMath.Quot(x, 7) == q;
      assert KotlinMath.Rem(x, 7) == r;
      if r == 0 {
        KotlinMath.FloorUnique(x + 6, 7, q);
      } else {
        KotlinMath.FloorUnique(x + 6, 7, q + 1);
      }
    } else {
      assert KotlinMath.Quot(x, 7) == 0;
      assert KotlinMath.Rem(x, 7) == x;
    }
  }
}
