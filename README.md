# Nepali calendar core in Dafny

A model of the date core of the Android library *nepali-calendar*, with proofs.
The library handles two calendars through one date type, `ILocalDate`:

- AD, the Gregorian calendar;
- BS, Bikram Sambat, whose month lengths come from a 101-row table.

The model covers:

- the `Month` and `DayOfWeek` enums with their wrap-around arithmetic;
- the month-length rules of both calendars, the day-of-year, and the field-wise ordering;
- day, month and year arithmetic, including the mutable single-day steps and the `plusDays` loop;
- the conversion between the calendars through the two reference dates (BS 2059-01-01 = AD 2002-04-14), `dayOfWeek`, `compareTo` and `equals`;
- `Period.daysBetween`, `monthsBetween` and `weeksBetween`, and the deprecated `Utils.daysDifference`;
- the JVM arithmetic helpers `Math.floorDiv`, `floorMod` and `addExact`;
- `Formatter.format` and its name and digit tables;
- the two UI value classes `CalendarDay` and `CalendarMonth`.

The central proof device is an absolute day number (`DayNumbers.DayNumber`). A single-day step moves it by one. On valid dates of one calendar it is injective. Every day count in the library is proved equal to a difference of day numbers.

Where the Kotlin code departs from what it evidently intends, the model keeps the code as written, proves the departure on a concrete input, and adds a corrected member (see "## Findings"). Integer widths are written out where the code depends on them: `toInt()` truncation in `floorDiv`, the Int wrap in `CalendarMonth.compareToYearMonth`, and the Long overflow check of `addExact`.

Paths below are relative to the repository root. Abbreviations used in the table:

- `ILocalDate.kt` is `core/src/main/java/com/maddy/calendar/core/ILocalDate.kt`.
- The other core files sit in the same directory.

## Model

| member | source | states |
|---|---|---|
| KotlinMath.Quot | core/src/main/java/com/maddy/calendar/core/Helpers.kt:5 | JVM `/` on Long: the quotient rounds toward zero (product between 0 and x, remainder smaller than the divisor) |
| KotlinMath.Rem | core/src/main/java/com/maddy/calendar/core/Month.kt:136-137 | JVM `%`: x = quot·y + r, abs(r) < abs(y), and a non-zero r has the sign of x |
| KotlinMath.ToInt | core/src/main/java/com/maddy/calendar/core/Helpers.kt:10 | `toInt()` keeps the value modulo 2^32 in the Int range, and is the identity on Ints |
| KotlinMath.WrapLong | core/src/main/java/com/maddy/calendar/core/Helpers.kt:18 | Long addition wraps modulo 2^64 into the Long range, and is the identity on Longs |
| KotlinMath.FloorDiv | core/src/main/java/com/maddy/calendar/core/Helpers.kt:4-11 | `Math.floorDiv` is the floor quotient narrowed by `toInt()`; when the floor quotient is an Int it is returned unchanged |
| KotlinMath.FloorOfTruncated | core/src/main/java/com/maddy/calendar/core/Helpers.kt:5-9 | decrementing the truncated quotient when the signs differ and the division is inexact gives the floor quotient |
| KotlinMath.FloorMod | core/src/main/java/com/maddy/calendar/core/Helpers.kt:13-15 | `x - floorDiv(x, y) * y` is the Euclidean remainder in [0, y) for a positive y, whenever the quotient fits in an Int |
| KotlinMath.FloorDivNarrows | core/src/main/java/com/maddy/calendar/core/Helpers.kt:4-15 | a quotient beyond the Int range wraps: floorDiv(12·2^31, 12) is MIN_VALUE, and floorMod is then off by 2^32·12 |
| KotlinMath.AddExact | core/src/main/java/com/maddy/calendar/core/Helpers.kt:17-24 | the sign test on `x xor r` and `y xor r` raises exactly when the true sum leaves the Long range; otherwise it returns the sum |
| Months.Month.Ordinal | core/src/main/java/com/maddy/calendar/core/Month.kt:118-119 | the ordinal lies in 0..11 (value = ordinal + 1) |
| Months.Month.Plus | core/src/main/java/com/maddy/calendar/core/Month.kt:135-138 | adding months moves the ordinal by that amount modulo 12 |
| Months.PlusAsWritten | core/src/main/java/com/maddy/calendar/core/Month.kt:135-138 | the code's `(ordinal + (months % 12 + 12)) % 12` with JVM `%` is the Euclidean rotation of `Plus`, for every Int, negative included |
| Months.Month.PlusMonth | core/src/main/java/com/maddy/calendar/core/Month.kt:140-142 | adding a Month adds its value |
| Months.Month.Minus | core/src/main/java/com/maddy/calendar/core/Month.kt:157-159 | subtracting is adding the negation; the ordinal moves down modulo 12 |
| Months.MinusAsWritten | core/src/main/java/com/maddy/calendar/core/Month.kt:157-159 | `plus(-(months % 12))` with JVM `%` is `Minus` |
| Months.Month.MinusMonth | core/src/main/java/com/maddy/calendar/core/Month.kt:161-163 | subtracting a Month gives the value (a - b - 1) mod 12 + 1, in 1..12 |
| Months.Of | core/src/main/java/com/maddy/calendar/core/Month.kt:101-106 | `Month.of` succeeds exactly on 1..12 with that value, and raises InvalidMonthOfYear otherwise |
| Months.OfValue | core/src/main/java/com/maddy/calendar/core/Month.kt:101-106 | `of(m.value) == m` |
| Months.PlusPlus | core/src/main/java/com/maddy/calendar/core/Month.kt:135-138 | adding twice is adding the sum |
| Months.MinusPlus | core/src/main/java/com/maddy/calendar/core/Month.kt:135-159 | subtracting undoes adding |
| Months.PlusMinus | core/src/main/java/com/maddy/calendar/core/Month.kt:135-159 | adding undoes subtracting |
| Months.PlusYear | core/src/main/java/com/maddy/calendar/core/Month.kt:135-138 | adding 12 months is the identity |
| Months.PlusMonthYearAndOne | core/src/main/java/com/maddy/calendar/core/Month.kt:140-142 | `plus(DECEMBER_CHAITRA)` is the identity and `plus(JANUARY_BAISHAK)` moves one month |
| Months.MinusMonthIsDistance | core/src/main/java/com/maddy/calendar/core/Month.kt:161-163 | b plus the value of (a - b) is a |
| Months.MinusMonthSelf | core/src/main/java/com/maddy/calendar/core/Month.kt:161-163 | a - b has value 12 exactly when a == b |
| Months.DecemberMinus | core/src/main/java/com/maddy/calendar/core/Month.kt:161-163 | DECEMBER_CHAITRA - m is 12 for December and 11 - ordinal otherwise (the term `monthsBetween` adds) |
| Weekdays.DayOfWeek.Ordinal | core/src/main/java/com/maddy/calendar/core/DayOfWeek.kt:94-95 | the ordinal lies in 0..6 (value = ordinal + 1, MONDAY first) |
| Weekdays.DayOfWeek.Plus | core/src/main/java/com/maddy/calendar/core/DayOfWeek.kt:111-114 | adding days moves the ordinal by that amount modulo 7 |
| Weekdays.PlusAsWritten | core/src/main/java/com/maddy/calendar/core/DayOfWeek.kt:111-114 | the code's `(ordinal + (days % 7 + 7)) % 7` is the Euclidean rotation of `Plus` |
| Weekdays.DayOfWeek.PlusDay | core/src/main/java/com/maddy/calendar/core/DayOfWeek.kt:129-132 | adding a DayOfWeek adds its value |
| Weekdays.DayOfWeek.Minus | core/src/main/java/com/maddy/calendar/core/DayOfWeek.kt:147-149 | subtracting is adding the negation |
| Weekdays.MinusAsWritten | core/src/main/java/com/maddy/calendar/core/DayOfWeek.kt:147-149 | `plus(-(days % 7))` with JVM `%` is `Minus` |
| Weekdays.DayOfWeek.MinusDay | core/src/main/java/com/maddy/calendar/core/DayOfWeek.kt:164-166 | subtracting a DayOfWeek moves the ordinal down by its value modulo 7 |
| Weekdays.Of | core/src/main/java/com/maddy/calendar/core/DayOfWeek.kt:65-70 | `DayOfWeek.of` succeeds exactly on 1..7 with that value, and raises InvalidDayOfWeek otherwise |
| Weekdays.OfValue | core/src/main/java/com/maddy/calendar/core/DayOfWeek.kt:65-70 | `of(d.value) == d` |
| Weekdays.PlusPlus | core/src/main/java/com/maddy/calendar/core/DayOfWeek.kt:111-114 | adding twice is adding the sum |
| Weekdays.MinusPlus | core/src/main/java/com/maddy/calendar/core/DayOfWeek.kt:111-149 | subtracting undoes adding |
| Weekdays.PlusWeek | core/src/main/java/com/maddy/calendar/core/DayOfWeek.kt:111-166 | adding 7 days is the identity, and so are plus and minus SUNDAY |
| Weekdays.WeekDays | core/src/main/java/com/maddy/calendar/core/DayOfWeek.kt:72-82 | `weekDays(first)` has seven entries, the i-th being first + i |
| Weekdays.Rotation | core/src/main/java/com/maddy/calendar/core/DayOfWeek.kt:76-80 | the slices `rhs + lhs` put the (k + i) mod 7-th day at index i |
| Weekdays.WeekDaysSteps | core/src/main/java/com/maddy/calendar/core/DayOfWeek.kt:72-82 | the week starts at `first` and each entry is the day after the previous |
| Weekdays.WeekDaysCovers | core/src/main/java/com/maddy/calendar/core/DayOfWeek.kt:72-82 | every day of the week appears |
| Weekdays.WeekDaysDistinct | core/src/main/java/com/maddy/calendar/core/DayOfWeek.kt:72-82 | no day appears twice |
| BsCalendar.YearIndex | core/src/main/java/com/maddy/calendar/core/ILocalDate.kt:870-873 | `yearIndex` lies in 0..99, so the 101st table row is never read |
| BsCalendar.YearIndexIsAbsRem | core/src/main/java/com/maddy/calendar/core/ILocalDate.kt:870-873 | the index is abs((year - 1999) rem 100) with the JVM remainder |
| BsCalendar.MonthDaysRow | core/src/main/java/com/maddy/calendar/core/ILocalDate.kt:868 | `monthDays(year)` is the table row at `yearIndex(year)` |
| BsCalendar.LastRowUnreachable | core/src/main/java/com/maddy/calendar/core/ILocalDate.kt:759-861 | the table has 101 rows while every index is below 100 |
| BsCalendar.YearIndexInCentury | core/src/main/java/com/maddy/calendar/core/ILocalDate.kt:870-873 | for BS 1999..2098 the index is year - 1999 |
| BsCalendar.YearIndexPeriodic | core/src/main/java/com/maddy/calendar/core/ILocalDate.kt:870-873 | from 1999 on, the table repeats every 100 years |
| BsCalendar.YearIndexMirrors | core/src/main/java/com/maddy/calendar/core/ILocalDate.kt:870-873 | below 1999 the table is read backwards: 1999 - k uses the row of 1999 + k |
| BsCalendar.YearIndexNotPeriodicBelow | core/src/main/java/com/maddy/calendar/core/ILocalDate.kt:870-873 | 1998 reads row 1 while 2098 reads row 99 |
| BsCalendar.Row1999 | core/src/main/java/com/maddy/calendar/core/ILocalDate.kt:760 | the month lengths of BS 1999 |
| BsCalendar.Row2000 | core/src/main/java/com/maddy/calendar/core/ILocalDate.kt:761 | the month lengths of BS 2000 |
| BsCalendar.Row2001 | core/src/main/java/com/maddy/calendar/core/ILocalDate.kt:762 | the month lengths of BS 2001 |
| BsCalendar.Row2058 | core/src/main/java/com/maddy/calendar/core/ILocalDate.kt:819 | the month lengths of BS 2058 |
| BsCalendar.Row2059 | core/src/main/java/com/maddy/calendar/core/ILocalDate.kt:820 | the month lengths of BS 2059, the year of the BS reference date |
| Dates.LeapYearRule | core/src/main/java/com/maddy/calendar/core/ILocalDate.kt:624-636 | AD leap years follow the JVM-remainder tests for 4, 100 and 400; BS has none |
| Dates.MonthDays | core/src/main/java/com/maddy/calendar/core/ILocalDate.kt:638-644 | twelve month lengths, each between 28 and 32 |
| Dates.LengthOfMonth | core/src/main/java/com/maddy/calendar/core/ILocalDate.kt:652-659 | a month has 28..32 days, AD at most 31, BS at least 29 |
| Dates.LengthOfMonthCases | core/src/main/java/com/maddy/calendar/core/ILocalDate.kt:652-659 | BS reads the table row; an AD February has 29 days in a leap year and 28 otherwise; other AD months read `monthDays` |
| Dates.LengthOfYear | core/src/main/java/com/maddy/calendar/core/ILocalDate.kt:646-650 | an AD year has 366 days when leap and 365 otherwise |
| Dates.AdYearSum | core/src/main/java/com/maddy/calendar/core/ILocalDate.kt:925 | the AD month table sums to 365 |
| Dates.LengthOfYearIsSumOfMonths | core/src/main/java/com/maddy/calendar/core/ILocalDate.kt:646-659 | `lengthOfYear` is the sum of the twelve `lengthOfMonth`s, leap day included |
| Dates.FirstDayStep | core/src/main/java/com/maddy/calendar/core/ILocalDate.kt:733-753 | each month starts the day after the previous month ends, in both calendars |
| Dates.BsDaysSumIsPrefixSum | core/src/main/java/com/maddy/calendar/core/ILocalDate.kt:737-753 | the recursive `daysSum` is 1 + the sum of the earlier months' lengths |
| Dates.FirstDayOfYearIsRunningSum | core/src/main/java/com/maddy/calendar/core/ILocalDate.kt:893-909 | the hard-coded AD table of `firstDayOfYear` is 1 + the running sum of the month lengths, leap day included |
| Dates.YearLengthClosesSum | core/src/main/java/com/maddy/calendar/core/ILocalDate.kt:646-650 | the year ends where December ends |
| Dates.Of | core/src/main/java/com/maddy/calendar/core/ILocalDate.kt:568-579 | `of` succeeds exactly for a month in 1..12, with the given fields, and raises InvalidMonthOfYear otherwise |
| Dates.OfSkipsDayCheck | core/src/main/java/com/maddy/calendar/core/ILocalDate.kt:568-579 | `of` accepts AD 2020-02-30, which is not a valid date |
| Dates.BeforeIsStrictOrder | core/src/main/java/com/maddy/calendar/core/ILocalDate.kt:390-420 | `before` is irreflexive, asymmetric, transitive and total up to equal fields; `after` is its converse |
| Dates.CompareFields | core/src/main/java/com/maddy/calendar/core/ILocalDate.kt:436-445 | the field comparison is negative for `before`, positive for `after` and zero for equal fields |
| Dates.AtDay | core/src/main/java/com/maddy/calendar/core/ILocalDate.kt:356-361 | `atDay` succeeds exactly for a day in 1..lengthOfMonth, giving a valid date in the same month, and raises otherwise |
| Dates.AtStartOfMonth | core/src/main/java/com/maddy/calendar/core/ILocalDate.kt:363 | a valid date of the same month |
| Dates.AtEndOfMonth | core/src/main/java/com/maddy/calendar/core/ILocalDate.kt:367 | a valid date of the same month |
| Dates.AtStartOfYear | core/src/main/java/com/maddy/calendar/core/ILocalDate.kt:365 | a valid date of the same calendar and year |
| Dates.MonthAndYearBounds | core/src/main/java/com/maddy/calendar/core/ILocalDate.kt:363-367 | every valid date of the month lies between `atStartOfMonth` and `atEndOfMonth`, and no date of the year lies before `atStartOfYear` |
| Dates.BoundsDayOfYear | core/src/main/java/com/maddy/calendar/core/ILocalDate.kt:64-65 | `atStartOfYear` is day 1 of the year, and `atEndOfMonth` is the day before the next month starts |
| Dates.FirstDayBounds | core/src/main/java/com/maddy/calendar/core/ILocalDate.kt:733-753 | month i of the year starts between day 1 + 28i and day 1 + 32i |
| Dates.LengthOfYearBounds | core/src/main/java/com/maddy/calendar/core/ILocalDate.kt:646-650 | a year has 336..384 days |
| Dates.MonthsInOrder | core/src/main/java/com/maddy/calendar/core/ILocalDate.kt:733-753 | a later month of the year starts after an earlier one ends |
| Dates.MonthEndsWithinYear | core/src/main/java/com/maddy/calendar/core/ILocalDate.kt:646-659 | every month ends within the year |
| Dates.DayOfYearBounds | core/src/main/java/com/maddy/calendar/core/ILocalDate.kt:64-65 | the day-of-year of a valid date lies in 1..lengthOfYear |
| DayArithmetic.NextStep | core/src/main/java/com/maddy/calendar/core/ILocalDate.kt:501-511 | `addSingleDay` keeps a date valid, changes the year exactly on the last day of the year, and `subtractSingleDay` undoes it |
| DayArithmetic.PrevStep | core/src/main/java/com/maddy/calendar/core/ILocalDate.kt:513-523 | `subtractSingleDay` keeps a date valid, changes the year exactly on the first day of the year, and `addSingleDay` undoes it |
| DayArithmetic.WrapsAtYearEnd | core/src/main/java/com/maddy/calendar/core/ILocalDate.kt:505-507 | the next month is JANUARY_BAISHAK exactly from DECEMBER_CHAITRA |
| DayArithmetic.FastPathOverflowCharacterised | core/src/main/java/com/maddy/calendar/core/ILocalDate.kt:177-192 | the `plusDays` fast path yields an invalid day exactly for a BS target day 59 from a 29-day month into another 29-day month |
| DayNumbers.YearStartStep | core/src/main/java/com/maddy/calendar/core/ILocalDate.kt:646-650 | consecutive years start `lengthOfYear` days apart |
| DayNumbers.YearStartMonotone | core/src/main/java/com/maddy/calendar/core/ILocalDate.kt:646-650 | later years start at least 336 days per year later |
| DayNumbers.DayNumberIs | core/src/main/java/com/maddy/calendar/core/ILocalDate.kt:64-65 | the day number is the start of the year plus `dayOfYear - 1` |
| DayNumbers.NextDayNumber | core/src/main/java/com/maddy/calendar/core/ILocalDate.kt:501-511 | `addSingleDay` adds one to the day number |
| DayNumbers.PrevDayNumber | core/src/main/java/com/maddy/calendar/core/ILocalDate.kt:513-523 | `subtractSingleDay` subtracts one from the day number |
| DayNumbers.ForwardDayNumber | core/src/main/java/com/maddy/calendar/core/ILocalDate.kt:194-200 | k forward steps add k to the day number |
| DayNumbers.BackwardDayNumber | core/src/main/java/com/maddy/calendar/core/ILocalDate.kt:203-209 | k backward steps subtract k from the day number |
| DayNumbers.ShiftValid | core/src/main/java/com/maddy/calendar/core/ILocalDate.kt:194-209 | stepping keeps a date valid and in its calendar |
| DayNumbers.ShiftDayNumber | core/src/main/java/com/maddy/calendar/core/ILocalDate.kt:194-209 | stepping n days adds n to the day number |
| DayNumbers.BeforeIsDayNumberOrder | core/src/main/java/com/maddy/calendar/core/ILocalDate.kt:390-395 | on valid dates of one calendar, `before` is the order of the day numbers |
| DayNumbers.DayNumberInjective | core/src/main/java/com/maddy/calendar/core/ILocalDate.kt:64-65 | distinct valid dates of one calendar have distinct day numbers |
| DayNumbers.ShiftInverse | core/src/main/java/com/maddy/calendar/core/ILocalDate.kt:194-209 | stepping back n days undoes stepping forward n days |
| DayNumbers.ShiftIsUnique | core/src/main/java/com/maddy/calendar/core/ILocalDate.kt:194-209 | the date n days on is the only valid date of its calendar with that day number |
| DayNumbers.FollowingMonthIsNextOfEnd | core/src/main/java/com/maddy/calendar/core/ILocalDate.kt:183-191 | the fast path's next month is the day after `atEndOfMonth` |
| DayNumbers.PlusDaysCheckedIsShift | core/src/main/java/com/maddy/calendar/core/ILocalDate.kt:164-211 | the corrected `plusDays` moves a valid date by exactly n days |
| DayNumbers.PlusDaysIsShiftUnlessOverflow | core/src/main/java/com/maddy/calendar/core/ILocalDate.kt:164-211 | `plusDays` as written moves a valid date by exactly n days if and only if its fast path does not overflow |
| DayNumbers.PlusDaysRoundTrip | core/src/main/java/com/maddy/calendar/core/ILocalDate.kt:164-229 | outside the fast-path range, `minusDays(n)` undoes `plusDays(n)` as written |
| DayNumbers.PlusDaysCheckedRoundTrip | core/src/main/java/com/maddy/calendar/core/ILocalDate.kt:164-229 | for every n, the corrected `minusDays(n)` undoes the corrected `plusDays(n)` |
| DayNumbers.FastPathCounterexample | core/src/main/java/com/maddy/calendar/core/ILocalDate.kt:177-185 | BS 1999-09-01 plus 58 days gives the invalid 1999-10-30 as written, and 1999-11-01 when corrected |
| Stepping.MutableDate.Copy | core/src/main/java/com/maddy/calendar/core/ILocalDate.kt:492-494 | `copy()` holds the same date |
| Stepping.MutableDate.AddSingleDay | core/src/main/java/com/maddy/calendar/core/ILocalDate.kt:501-511 | updates the fields in place to the next day and keeps a valid date valid |
| Stepping.MutableDate.SubtractSingleDay | core/src/main/java/com/maddy/calendar/core/ILocalDate.kt:513-523 | updates the fields in place to the previous day and keeps a valid date valid |
| Stepping.PlusDays | core/src/main/java/com/maddy/calendar/core/ILocalDate.kt:164-211 | the fast path and the two stepping loops return `DayArithmetic.PlusDays` |
| Stepping.StepForward | core/src/main/java/com/maddy/calendar/core/ILocalDate.kt:194-200 | the forward loop returns `daysToAdd` single-day steps forward |
| Stepping.StepBackward | core/src/main/java/com/maddy/calendar/core/ILocalDate.kt:203-209 | the backward loop returns `-daysToAdd` single-day steps back |
| Stepping.MinusDays | core/src/main/java/com/maddy/calendar/core/ILocalDate.kt:227-229 | `minusDays(n)` is `plusDays(-n)` |
| Stepping.StepUntil | core/src/main/java/com/maddy/calendar/core/ILocalDate.kt:666-670 | the `addSingleDay` loop steps the object it is given in place, ends on the later date, and counts the day-number gap |
| Stepping.StepShared | core/src/main/java/com/maddy/calendar/core/ILocalDate.kt:663-672 | the loop on the object `startEndType` returns: a shared object holding the earlier date ends moved to the later one, while a fresh copy leaves the shared object as it was; the result is the signed day-number gap |
| Stepping.CountSteps | core/src/main/java/com/maddy/calendar/core/ILocalDate.kt:662-673 | run on a fresh copy of the earlier date, the counting loop of `daysDifference` returns the sign times the gap between the day numbers |
| MonthArithmetic.MonthCountInjective | core/src/main/java/com/maddy/calendar/core/ILocalDate.kt:255 | `year * 12 + (monthValue - 1)` determines the year and the month |
| MonthArithmetic.CheckValidMonth | core/src/main/java/com/maddy/calendar/core/ILocalDate.kt:532-535 | `checkValidMonth` gives the month with that value, or JANUARY_BAISHAK outside 1..12 |
| MonthArithmetic.PlusMonthsClamped | core/src/main/java/com/maddy/calendar/core/ILocalDate.kt:231-249 | the documented `plusMonths`: the month count moves by n, the day is clamped to the target month, and a valid date stays valid |
| MonthArithmetic.TargetMonth | core/src/main/java/com/maddy/calendar/core/ILocalDate.kt:255-266 | when the year fits in an Int, floorDiv and floorMod give the year and month of the month count |
| MonthArithmetic.PlusMonthsFits | core/src/main/java/com/maddy/calendar/core/ILocalDate.kt:250-274 | when the day fits the target month, `plusMonths` as written equals the documented result |
| MonthArithmetic.PlusMonthsOverflows | core/src/main/java/com/maddy/calendar/core/ILocalDate.kt:266-273 | when the day does not fit, month 0 and month 13 raise, and otherwise the excess lands one month further at day `day - newMaxDays` |
| MonthArithmetic.MinusMonths | core/src/main/java/com/maddy/calendar/core/ILocalDate.kt:295-297 | `minusMonths` equals the documented result whenever the day fits the target month |
| MonthArithmetic.ClampedRoundTrip | core/src/main/java/com/maddy/calendar/core/ILocalDate.kt:231-249 | the documented behaviour undoes itself when the day fits |
| MonthArithmetic.PlusMonthsRoundTrip | core/src/main/java/com/maddy/calendar/core/ILocalDate.kt:250-297 | for a day up to 28, `minusMonths(n)` undoes `plusMonths(n)` as written |
| MonthArithmetic.PlusMonthsDoesNotClamp | core/src/main/java/com/maddy/calendar/core/ILocalDate.kt:241-243 | AD March 31 plus one month is May 1 as written, against the documented April 30 |
| MonthArithmetic.MinusMonthsDoesNotClamp | core/src/main/java/com/maddy/calendar/core/ILocalDate.kt:286-288 | AD March 31 minus one month lands in January, against the documented end of February |
| MonthArithmetic.OverflowBeforeJanuary | core/src/main/java/com/maddy/calendar/core/ILocalDate.kt:269-273 | an overflowing day one month back from February raises for month 0 |
| MonthArithmetic.OverflowAfterDecember | core/src/main/java/com/maddy/calendar/core/ILocalDate.kt:269-273 | an overflowing day forward into December raises for month 13 |
| MonthArithmetic.PlusMonthsRaises | core/src/main/java/com/maddy/calendar/core/ILocalDate.kt:269-273 | BS 2000-02-32 minus one month and BS 2001-05-31 plus seven months both raise |
| MonthArithmetic.PlusYears | core/src/main/java/com/maddy/calendar/core/ILocalDate.kt:318-327 | `plusYears` keeps calendar and month, moves the year by an Int amount, and clamps the day to the month's length |
| MonthArithmetic.PlusYearsIsTwelveMonths | core/src/main/java/com/maddy/calendar/core/ILocalDate.kt:299-327 | adding years is the documented addition of 12 times as many months |
| MonthArithmetic.MinusYear | core/src/main/java/com/maddy/calendar/core/ILocalDate.kt:348-350 | `minusYear` keeps calendar and month, moves the year back by the amount, and clamps the day to the month's length |
| MonthArithmetic.PlusYearsFromLeapDay | core/src/main/java/com/maddy/calendar/core/ILocalDate.kt:309-311 | AD 2008-02-29 plus one year is 2009-02-28, and minus one year is 2007-02-28 |
| MonthArithmetic.PlusYearsRoundTrip | core/src/main/java/com/maddy/calendar/core/ILocalDate.kt:318-350 | for a day up to 28, `minusYear(n)` undoes `plusYears(n)` |
| Intervals.Order | core/src/main/java/com/maddy/calendar/core/Helpers.kt:118-134 | the pair is (start, end) with sign 1 when end is not before start, else (end, start) with sign -1; the later never lies before the earlier |
| Intervals.OrderSwaps | core/src/main/java/com/maddy/calendar/core/Helpers.kt:118-134 | swapping two dates with different fields negates the sign and keeps the pair |
| Intervals.YearsLengthIsYearStartGap | core/src/main/java/com/maddy/calendar/core/Helpers.kt:98-100 | the `for` loop over the years in between adds up to the gap between their starts |
| Intervals.DistanceIsDayNumberGap | core/src/main/java/com/maddy/calendar/core/Helpers.kt:93-103 | for an ordered pair of valid dates of one calendar, both branches give the gap between the day numbers |
| Intervals.DistanceOfYears | core/src/main/java/com/maddy/calendar/core/Helpers.kt:96-103 | for an earlier year no later than the later one in one calendar, the distance (the difference of days-of-year, or the three-part sum across years) is the gap between the day numbers, valid dates or not |
| Intervals.SameCalendarDaysBetweenIsGap | core/src/main/java/com/maddy/calendar/core/Helpers.kt:85-105 | the corrected `daysBetween` in one calendar is the signed difference of the day numbers |
| Intervals.SameCalendarDaysBetweenZero | core/src/main/java/com/maddy/calendar/core/Helpers.kt:85-105 | even as written, the one-calendar count is 0 exactly between equal valid dates |
| Intervals.SameCalendarDaysBetweenAntisymmetric | core/src/main/java/com/maddy/calendar/core/Helpers.kt:85-105 | swapping the dates negates the corrected count |
| Intervals.SameCalendarDaysBetweenAgreement | core/src/main/java/com/maddy/calendar/core/Helpers.kt:93-95 | the code as written agrees with the corrected count if and only if end is not before start in the same year |
| Intervals.SameYearSignDropped | core/src/main/java/com/maddy/calendar/core/Helpers.kt:93-95 | AD 2002-04-14 to 2002-04-13 gives 1 as written and -1 corrected |
| Conversion.Reference | core/src/main/java/com/maddy/calendar/core/ILocalDate.kt:863 | the reference dates (BS 2059-01-01, AD 2002-04-14) are valid |
| Conversion.DaysSinceReferenceIsGap | core/src/main/java/com/maddy/calendar/core/ILocalDate.kt:525-526 | the corrected count from the reference date is the day-number gap |
| Conversion.DaysSinceReferenceAgreement | core/src/main/java/com/maddy/calendar/core/ILocalDate.kt:525-526 | the count as written is right exactly outside AD 2002 before April 14 |
| Conversion.WeekdayIndexIsCount | core/src/main/java/com/maddy/calendar/core/ILocalDate.kt:128-135 | the two-branch JVM-remainder formula of `dayOfWeek` names the day (count + 6) mod 7, on both sides of zero |
| Conversion.ReferencesAreSundays | core/src/main/java/com/maddy/calendar/core/ILocalDate.kt:124-136 | both reference dates are Sundays |
| Conversion.DayOfWeekShift | core/src/main/java/com/maddy/calendar/core/ILocalDate.kt:124-136 | n days later the weekday has moved by n |
| Conversion.DayOfWeekNext | core/src/main/java/com/maddy/calendar/core/ILocalDate.kt:124-136 | the day after has the next weekday |
| Conversion.CountBeforeReference | core/src/main/java/com/maddy/calendar/core/ILocalDate.kt:525-526 | AD 2002-04-13 is counted as 1 day after the reference as written, and -1 corrected |
| Conversion.DayOfWeekBeforeReference | core/src/main/java/com/maddy/calendar/core/ILocalDate.kt:124-136 | `dayOfWeek` of AD 2002-04-13 is MONDAY as written, where the date is a Saturday |
| Conversion.DayOfWeekAgreement | core/src/main/java/com/maddy/calendar/core/ILocalDate.kt:124-136 | outside AD 2002 before April 14, `dayOfWeek` as written is the corrected weekday |
| Conversion.ConvertIs | core/src/main/java/com/maddy/calendar/core/ILocalDate.kt:605-615 | `convert` returns the date itself in its own calendar, otherwise the target reference plus the date's count |
| Conversion.ConvertSharesReferenceExactly | core/src/main/java/com/maddy/calendar/core/ILocalDate.kt:605-615 | `convert` hands back the target's `REFERENCE_DATE` object itself (`plusDays(0)` returns `this`) exactly for the other calendar's reference date |
| Conversion.ReverseAgreement | core/src/main/java/com/maddy/calendar/core/ILocalDate.kt:352-354 | outside AD 2002 before April 14, `reverse` as written is the corrected reverse |
| Conversion.ConvertKeepsCount | core/src/main/java/com/maddy/calendar/core/ILocalDate.kt:605-615 | the corrected conversion gives a valid date of the target calendar at the same count from its reference |
| Conversion.FromReference | core/src/main/java/com/maddy/calendar/core/ILocalDate.kt:605-615 | every valid date is its reference date moved by its count |
| Conversion.ReverseReverse | core/src/main/java/com/maddy/calendar/core/ILocalDate.kt:352-354 | reversing lands in the other calendar, and reversing twice is the identity |
| Conversion.ConvertKeepsDayOfWeek | core/src/main/java/com/maddy/calendar/core/ILocalDate.kt:124-136 | conversion keeps the weekday |
| Conversion.ReferencesCorrespond | core/src/main/java/com/maddy/calendar/core/ILocalDate.kt:863 | the reference dates reverse into each other |
| Conversion.ReferenceFastPathSafe | core/src/main/java/com/maddy/calendar/core/ILocalDate.kt:613-614 | adding days to a reference date never hits the `plusDays` overflow |
| Conversion.ConvertAgreement | core/src/main/java/com/maddy/calendar/core/ILocalDate.kt:605-615 | outside AD 2002 before April 14, `convert` as written is the corrected conversion |
| Conversion.ConvertBeforeReference | core/src/main/java/com/maddy/calendar/core/ILocalDate.kt:605-615 | AD 2002-04-13 converts to BS 2059-01-02 as written, and to BS 2058-12-31 corrected |
| Conversion.Compare | core/src/main/java/com/maddy/calendar/core/ILocalDate.kt:434-446 | in one calendar the sign is `before`/`after`; zero means equal fields, and across calendars also equal fields with the reversed date |
| Conversion.CompareAsWritten | core/src/main/java/com/maddy/calendar/core/ILocalDate.kt:434-446 | the same with `reverse` as written, and equal to `Compare` unless the other date is AD 2002 before April 14 |
| Conversion.CompareBeforeReference | core/src/main/java/com/maddy/calendar/core/ILocalDate.kt:434-446 | BS 2059-01-01 compares below AD 2002-04-13 as written, and above it corrected |
| Conversion.CompareAcrossCalendars | core/src/main/java/com/maddy/calendar/core/ILocalDate.kt:434-446 | across calendars the sign orders the reversed date, then the raw fields on a tie |
| Conversion.EqualsOwnConversion | core/src/main/java/com/maddy/calendar/core/ILocalDate.kt:458-467 | a date equals its own conversion only when the two happen to share their fields |
| Conversion.ReferencesNotEqual | core/src/main/java/com/maddy/calendar/core/ILocalDate.kt:458-467 | the two reference dates are the same day but not `equals` |
| Period.StartEndTypeOrders | core/src/main/java/com/maddy/calendar/core/Helpers.kt:107-136 | the pair is ordered and in the start's calendar, its sign says whether start comes first, and sign times the gap is the difference of the counts |
| Period.TargetKeepsCount | core/src/main/java/com/maddy/calendar/core/Helpers.kt:111-113 | the reversed end is valid at the same count and in the start's calendar |
| Period.ComputeDaysBetween | core/src/main/java/com/maddy/calendar/core/Helpers.kt:85-105 | the `daysBetween` loop returns `DaysBetweenAsWritten` |
| Period.ComputeDaysOfSpan | core/src/main/java/com/maddy/calendar/core/Helpers.kt:93-104 | on any ordered pair, including one whose years cross so that the `until` range is empty, the loop returns `DaysOfSpanAsWritten` |
| Period.DaysBetweenSameCalendar | core/src/main/java/com/maddy/calendar/core/Helpers.kt:85-105 | in one calendar `daysBetween` is the one-calendar count, as written and corrected |
| Period.DaysSinceReferenceIsDaysBetween | core/src/main/java/com/maddy/calendar/core/ILocalDate.kt:525-526 | `daysSinceReferenceDate` is `daysBetween(referenceDate(), this)` |
| Period.DaysBetweenIsCountGap | core/src/main/java/com/maddy/calendar/core/Helpers.kt:85-105 | the corrected `daysBetween` is the difference of the counts from the reference dates, across calendars too |
| Period.EqualsSameCount | core/src/main/java/com/maddy/calendar/core/Helpers.kt:86-88 | `equals` dates have the same count |
| Period.DaysBetweenAntisymmetric | core/src/main/java/com/maddy/calendar/core/Helpers.kt:85-105 | swapping the dates negates the corrected count |
| Period.DaysBetweenIgnoresCalendar | core/src/main/java/com/maddy/calendar/core/Helpers.kt:85-105 | converting both dates leaves the corrected count unchanged |
| Period.DaysBetweenTestValues | core/src/test/java/com/maddy/calendar/core/ILocalDateTest.kt:30-52 | AD 2010-10-01 to 2021-01-22 is 3766 days, and -3766 the other way |
| Period.DaysDifference | core/src/main/java/com/maddy/calendar/core/ILocalDate.kt:661-673 | the deprecated step-counting `daysDifference`, stepping a copy and so touching no shared object, equals the corrected `daysBetween` |
| Period.StepsSharedReferenceIsSourceCase | core/src/main/java/com/maddy/calendar/core/Helpers.kt:107-136 | `startEndType` hands the loop the shared object (`convert` returned it and the sign is -1) exactly when the end is the other calendar's reference date and the start is a later day |
| Period.SharedReferenceSpan | core/src/main/java/com/maddy/calendar/core/Helpers.kt:129-131 | in that case the loop starts on the start calendar's reference date and ends on the start |
| Period.DaysDifferenceAsWritten | core/src/main/java/com/maddy/calendar/core/ILocalDate.kt:661-673 | `daysDifference` as written returns the same count, and steps the shared `REFERENCE_DATE` up to the start exactly in that case, leaving it alone otherwise |
| Period.DaysDifferenceMovesReference | core/src/main/java/com/maddy/calendar/core/ILocalDate.kt:863 | BS 2060-01-01 to AD 2002-04-14 and AD 2003-01-01 to BS 2059-01-01 move a reference date; afterwards `reverse()` of AD 2002-04-14 gives BS 2060-01-01 |
| Period.DaysBetweenAcrossBeforeReference | core/src/main/java/com/maddy/calendar/core/Helpers.kt:85-136 | from BS 2059-01-01 to AD 2002-04-13 the model counts -1, while `reverse()` as written maps the end to BS 2059-01-02 |
| Period.DaysBetweenOfSpan | core/src/main/java/com/maddy/calendar/core/Helpers.kt:85-136 | `daysBetween` is the sign times the day-number gap of the ordered pair |
| Period.SpanMonthsIsGap | core/src/main/java/com/maddy/calendar/core/Helpers.kt:79-81 | the unsigned `monthsBetween` count is the running-month gap, plus 12 when the earlier month is December |
| Period.MonthsBetweenAgreement | core/src/main/java/com/maddy/calendar/core/Helpers.kt:71-83 | as written, `monthsBetween` exceeds the corrected count by 12 times the sign exactly when the earlier date is in DECEMBER_CHAITRA |
| Period.MonthsBetweenCorrectedIsIndexGap | core/src/main/java/com/maddy/calendar/core/Helpers.kt:71-83 | in one calendar the corrected count is the difference of the month counts |
| Period.MonthsBetweenAntisymmetric | core/src/main/java/com/maddy/calendar/core/Helpers.kt:71-83 | swapping the dates negates `monthsBetween` |
| Period.MonthsBetweenTestValues | core/src/test/java/com/maddy/calendar/core/ILocalDateTest.kt:14-24 | AD 2018-09-01 to 2022-04-01 is 43 months, and -43 the other way |
| Period.MonthsBetweenFromDecember | core/src/main/java/com/maddy/calendar/core/Helpers.kt:79-81 | AD 2018-12-01 to 2019-01-01 is 13 months as written, and 1 corrected |
| Period.WeeksBetween | core/src/main/java/com/maddy/calendar/core/Helpers.kt:29-57 | the code's arithmetic returns 1 for a range of at most one day, and otherwise the sign times the number of weeks (each starting on `firstDayOfWeek`) that the days from the earlier to the later date meet, with the weekday and the day count as written |
| Period.WeekCountAgreement | core/src/main/java/com/maddy/calendar/core/Helpers.kt:29-57 | unless the earlier date is AD 2002 before April 14, that count equals the one with the corrected weekday and day count |
| Period.WeeksBetweenBeforeReference | core/src/main/java/com/maddy/calendar/core/Helpers.kt:43-44 | AD 2002-04-13 to 2002-04-14 with SUNDAY gives 1 week as written, and 2 with the true weekday |
| Period.WeekIndexClosedForm | core/src/main/java/com/maddy/calendar/core/Helpers.kt:44-56 | the week of the i-th day, counted by stepping, is (i + 7 - dom) / 7 |
| Formatter.DigitChar | core/src/main/java/com/maddy/calendar/core/Formatter.kt:99 | the decimal digit character of 0..9 |
| Formatter.DecimalString | core/src/main/java/com/maddy/calendar/core/Formatter.kt:99-105 | `toString()` of an Int: a minus sign before the digits of a negative number |
| Formatter.DigitsRoundTrip | core/src/main/java/com/maddy/calendar/core/Formatter.kt:99-105 | reading back the digits gives the number |
| Formatter.TransliterateChar | core/src/main/java/com/maddy/calendar/core/Formatter.kt:7-18 | digits map to the Devanagari digit of `npNumberChars`, other characters are kept |
| Formatter.Transliterate | core/src/main/java/com/maddy/calendar/core/Formatter.kt:7-18 | transliteration keeps the length |
| Formatter.TransliterateAt | core/src/main/java/com/maddy/calendar/core/Formatter.kt:7-18 | each character is transliterated on its own |
| Formatter.TransliterateConcat | core/src/main/java/com/maddy/calendar/core/Formatter.kt:7-18 | transliteration distributes over concatenation |
| Formatter.GetNpCharacterIsTransliteration | core/src/main/java/com/maddy/calendar/core/Formatter.kt:91-96 | the recursive `getNpCharacter` of a non-negative number is its transliterated decimal digits, then the prefix |
| Formatter.GetNpCharacterOfNegative | core/src/main/java/com/maddy/calendar/core/Formatter.kt:91-96 | for a negative number the map lookup fails and the result is "null" before the prefix |
| Formatter.NpCharacterOf | core/src/main/java/com/maddy/calendar/core/Formatter.kt:91-96 | `getNpCharacter(n)` is the Devanagari digits of n, or "null" for a negative n |
| Formatter.PadStart | core/src/main/java/com/maddy/calendar/core/Formatter.kt:99-100 | `padStart` keeps a long enough string and otherwise pads on the left with the pad character to the length |
| Formatter.TransliteratePad | core/src/main/java/com/maddy/calendar/core/Formatter.kt:98-101 | padding then transliterating is transliterating then padding with the Devanagari zero |
| Formatter.DayName | core/src/main/java/com/maddy/calendar/core/Formatter.kt:98-101 | `dayName` has at least two characters |
| Formatter.DayNameTransliterated | core/src/main/java/com/maddy/calendar/core/Formatter.kt:98-101 | the BS day name is the transliterated AD one |
| Formatter.DayNameValue | core/src/main/java/com/maddy/calendar/core/Formatter.kt:98-101 | the AD day name reads back as the day, with exactly two characters up to 99 |
| Formatter.YearNameDigits | core/src/main/java/com/maddy/calendar/core/Formatter.kt:103-106 | the BS year name is the transliterated AD one, or "null" for a negative year |
| Formatter.MonthCharacter | core/src/main/java/com/maddy/calendar/core/Formatter.kt:71-77 | `monthCharacter` has two characters |
| Formatter.MonthCharacterDigits | core/src/main/java/com/maddy/calendar/core/Formatter.kt:71-77 | the BS form is the transliterated AD form, which reads back as the month value |
| Formatter.MonthName | core/src/main/java/com/maddy/calendar/core/Formatter.kt:61-69 | BS gives the Nepali name; AD gives the English name, or its first three letters when short |
| Formatter.MonthNamesDistinct | core/src/main/java/com/maddy/calendar/core/Formatter.kt:21-49 | different months have different names in every form |
| Formatter.WeekDayName | core/src/main/java/com/maddy/calendar/core/Formatter.kt:79-89 | BS gives the Nepali name, AD the capitalised English name; short takes the first three characters |
| Formatter.WeekDayNamesDistinct | core/src/main/java/com/maddy/calendar/core/Formatter.kt:51-59 | different days have different full names |
| Formatter.Run | core/src/main/java/com/maddy/calendar/core/Formatter.kt:111 | the run of equal leading characters, up to a cap |
| Formatter.MatchLength | core/src/main/java/com/maddy/calendar/core/Formatter.kt:111 | the token length the regex matches at the head of the text is at most 4 and is a run of one character |
| Formatter.RunPrefix | core/src/main/java/com/maddy/calendar/core/Formatter.kt:111 | a repeated-letter alternative is a prefix of the text exactly when the run is long enough |
| Formatter.MatchLengthIsAlternation | core/src/main/java/com/maddy/calendar/core/Formatter.kt:111 | the run-length rule picks the same match as the first matching alternative of `yyyy\|MMMM\|MMM\|MM\|EEEE\|EEE\|dd\|d\|hh\|HH\|mm\|ss\|a` |
| Formatter.ReplacementsOf | core/src/main/java/com/maddy/calendar/core/Formatter.kt:113-124 | the replacement of each token: year, month names, month digits, day, and the weekday names of `dayOfWeek` as written |
| Formatter.ScanLiteralText | core/src/main/java/com/maddy/calendar/core/Formatter.kt:110-125 | text without token letters is copied unchanged |
| Formatter.FormatLiteral | core/src/main/java/com/maddy/calendar/core/Formatter.kt:109-126 | a pattern without token letters formats to itself |
| Formatter.ScanToken | core/src/main/java/com/maddy/calendar/core/Formatter.kt:110-125 | a matched token is replaced and scanning continues after it |
| Formatter.SingleAndDoubleDay | core/src/main/java/com/maddy/calendar/core/Formatter.kt:121-122 | `d` and `dd` both give the padded day |
| Formatter.TimeTokenVanishes | core/src/main/java/com/maddy/calendar/core/Formatter.kt:123 | `hh`, `HH`, `mm` and `ss` are replaced by nothing |
| Formatter.MarkerVanishes | core/src/main/java/com/maddy/calendar/core/Formatter.kt:123 | `a` is replaced by nothing |
| Formatter.ScanSecondsAndMarker | core/src/main/java/com/maddy/calendar/core/Formatter.kt:111-123 | "ss a" formats to a single space |
| Formatter.MonthNameProperty | core/src/main/java/com/maddy/calendar/core/ILocalDate.kt:89-90 | the `monthName` property, `format(this, "MM")`, is the two-digit month in the date's calendar |
| Formatter.MonthTitle | core/src/main/java/com/maddy/calendar/core/Formatter.kt:109-126 | "MMM yyyy" formats to the short month name, a space and the year name |
| Formatter.ScanWeekDay | core/src/main/java/com/maddy/calendar/core/Formatter.kt:119 | "EEEE" is replaced by the full weekday name |
| Formatter.FormatWeekDay | core/src/main/java/com/maddy/calendar/core/Formatter.kt:119 | "EEEE" names the weekday as written, which is the true weekday outside AD 2002 before April 14 |
| Formatter.FormatWeekDayBeforeReference | core/src/main/java/com/maddy/calendar/core/Formatter.kt:119 | AD 2002-04-13, a Saturday, formats as "Monday" |
| CalendarDays.New | ui/src/main/java/com/maddy/calendar/ui/model/CalendarDay.kt:8-11 | the cell keeps date and owner, and `day` is the date's day of month |
| CalendarDays.Offset | ui/src/main/java/com/maddy/calendar/ui/model/CalendarDay.kt:14-19 | the owner's month offset is -1, 0 or 1, and 0 exactly for THIS_MONTH |
| CalendarDays.PositionYearMonth | ui/src/main/java/com/maddy/calendar/ui/model/CalendarDay.kt:14-19 | THIS_MONTH gives the date; the other owners give the documented month step whenever the day fits the target month |
| CalendarDays.PositionMonth | ui/src/main/java/com/maddy/calendar/ui/utils/Extensions.kt:24-28 | for a day up to 28, the position's month count moves by the owner's offset, keeping day and calendar |
| CalendarDays.NextThenPrevious | ui/src/main/java/com/maddy/calendar/ui/utils/Extensions.kt:24-28 | `previous` of `next` is the date again, for a day up to 28 |
| CalendarDays.PreviousOfMarch31 | ui/src/main/java/com/maddy/calendar/ui/utils/Extensions.kt:27-28 | a PREVIOUS_MONTH cell on AD March 31 is positioned in January, not February |
| CalendarDays.Equals | ui/src/main/java/com/maddy/calendar/ui/model/CalendarDay.kt:32-38 | equal cells have equal owners and fields; in one calendar, equality is equal date and owner |
| CalendarDays.EqualsOwner | ui/src/main/java/com/maddy/calendar/ui/model/CalendarDay.kt:32-38 | two cells for one date are equal exactly when their owners are |
| CalendarDays.CompareTo | ui/src/main/java/com/maddy/calendar/ui/model/CalendarDay.kt:25-30 | `compareTo` always raises UnsupportedOperationException |
| CalendarMonths.New | ui/src/main/java/com/maddy/calendar/ui/model/CalendarMonth.kt:5-13 | the page keeps its fields, and `year`/`month` are the year-month's year and month value |
| CalendarMonths.FirstDay | ui/src/main/java/com/maddy/calendar/ui/model/CalendarMonth.kt:27 | `first().first()` is the first cell, or raises NoSuchElement on an empty list |
| CalendarMonths.LastDay | ui/src/main/java/com/maddy/calendar/ui/model/CalendarMonth.kt:28 | `last().last()` is the last cell, or raises NoSuchElement on an empty list |
| CalendarMonths.Equals | ui/src/main/java/com/maddy/calendar/ui/model/CalendarMonth.kt:21-29 | true exactly for equal year-months with equal first and last cells; raises only for an empty grid, and is false for different year-months |
| CalendarMonths.EqualPagesShareYearMonth | ui/src/main/java/com/maddy/calendar/ui/model/CalendarMonth.kt:12-29 | equal pages show the same year and month |
| CalendarMonths.EqualsIgnoresInterior | ui/src/main/java/com/maddy/calendar/ui/model/CalendarMonth.kt:26-28 | equality looks only at the year-month and the two end cells |
| CalendarMonths.EmptyGridRaises | ui/src/main/java/com/maddy/calendar/ui/model/CalendarMonth.kt:27 | an empty grid raises NoSuchElement |
| CalendarMonths.CompareToYearMonth | ui/src/main/java/com/maddy/calendar/ui/model/CalendarMonth.kt:47-53 | with the Int-wrapped year difference, zero exactly for the same year and month, and the sign of the month counts when the difference fits |
| CalendarMonths.YearDifference | ui/src/main/java/com/maddy/calendar/ui/model/CalendarMonth.kt:48 | between Int years the wrapped difference is zero only for equal years |
| CalendarMonths.CompareToYearMonthAntisymmetric | ui/src/main/java/com/maddy/calendar/ui/model/CalendarMonth.kt:47-53 | swapping the year-months swaps the sign |
| CalendarMonths.IntCompare | ui/src/main/java/com/maddy/calendar/ui/model/CalendarMonth.kt:34 | `Int.compareTo` is -1, 0 or 1 by the order |
| CalendarMonths.CompareTo | ui/src/main/java/com/maddy/calendar/ui/model/CalendarMonth.kt:31-37 | pages are ordered lexicographically by month count, then by `indexInSameMonth` |
| CalendarMonths.CompareToTransitive | ui/src/main/java/com/maddy/calendar/ui/model/CalendarMonth.kt:31-37 | the order is transitive |
| CalendarMonths.SameMonthByIndex | ui/src/main/java/com/maddy/calendar/ui/model/CalendarMonth.kt:33-35 | two pages of one year-month are ordered by their index alone |

## Left out

- The clock: `now`, `nowAD`, `nowBS`, and the `of` overloads that read a `java.util.Date`, `Calendar` or `LocalDate`. The model has no source of time.
- `hashCode` and `toString` of every class.
- `Utils.countWeek` and `Utils.weekOfMonth`: they are deprecated and unused by the rest of the core.
- `checkValidYear` and the `minYear`/`maxYear` hooks: the first is the identity and the others are never called, so years are unbounded in the model.
- The AD weekday names are the English names with the first letter upper-case. The Kotlin code capitalises with `titlecase(Locale.getDefault())`, which the model does not take as a parameter.
- The regular expression engine behind `format` is replaced by a run-length rule. `Formatter.MatchLengthIsAlternation` proves the rule picks the same match as the pattern's alternation.
- Every token replacement is computed in advance rather than inside the lambda. Nothing in the replacements has a side effect, so the result is the same.
- `this === other` identity shortcuts in `equals` are not modelled: values have no identity here. So `CalendarMonths.Equals(a, a)` on a page with an empty grid is an error, where the Kotlin code returns true before reading the grid.
- Period.DaysDifferenceAsWritten models one call while the reference object still holds its date. The calls after a move, which read the moved `REFERENCE_DATE` in `convert`, `reverse`, `dayOfWeek`, cross-calendar `compareTo` and `daysBetween`, are not modelled: `Conversion` always reads the constant reference date. `Period.DaysDifferenceMovesReference` shows the first wrong `reverse()`.
- Stepping.CountSteps and Period.DaysDifference require valid dates of the calendar. `ILocalDate.of` accepts any day (`Dates.OfSkipsDayCheck`); from an invalid date the counting loop of `daysDifference` may not reach the later date.
- Dates.CompareFields does not model the 32-bit wrap of `year - other.year` in `compareTo`: years are unbounded, so years more than 2^31 apart compare by their true order.
- Period.SpanMonths and Period.MonthsBetween do not model the Int wrap of `yearDifference * 12`.
- MonthArithmetic.PlusMonths does not model the Long wrap of `monthCount + monthsToAdd`. The narrowing of the year by `floorDiv` is modelled.
- MonthArithmetic.PlusYears and MonthArithmetic.MinusYear do not model the Int wrap of `year + yearsToAdd.toInt()`, nor the Long wrap of `-yearsToSubtract` in `minusYears`. The truncation of `yearsToAdd` itself is modelled.
- Period.StartEndType reverses the end date with the corrected `Conversion.Reverse`, not with `reverse()` as written. For a valid date the two differ only for an AD date of 2002 before April 14 (`Conversion.ReverseAgreement`).
- Period.DaysBetweenAsWritten, Period.ComputeDaysBetween, Period.MonthsBetween and Period.WeeksBetween inherit that substitution when the two dates are in different calendars and the end date is AD 2002 before April 14.
- Period.DaysDifference inherits it too: from BS 2059-01-01 to AD 2002-04-13 the Kotlin code counts 1, because `reverse()` as written turns the end into BS 2059-01-02, while the model returns -1 (`Period.DaysBetweenAcrossBeforeReference`).
- Conversion.Compare and Conversion.Equals use the corrected reverse. `Conversion.CompareAsWritten` is `compareTo` as written, and for valid dates is proved equal to `Compare` except when the second date is AD 2002 before April 14 (`Conversion.CompareBeforeReference` shows the difference).
- CalendarDays.Equals and CalendarMonths.Equals build on `Conversion.Equals`, so they inherit the same substitution.

## Findings

| source | as written | input that shows it | evidently intended | confidence | as-written member | corrected member |
|---|---|---|---|---|---|---|
| core/src/main/java/com/maddy/calendar/core/ILocalDate.kt:177-185 | the `plusDays` fast path moves into the following month without checking that month's length | BS 1999-09-01 plus 58 days gives the invalid 1999-10-30 | 1999-11-01, the date 58 days later | not executed | DayNumbers.FastPathCounterexample | DayNumbers.PlusDaysCheckedIsShift |
| core/src/main/java/com/maddy/calendar/core/Helpers.kt:93-95 | the same-year branch of `daysBetween` returns the count without the sign | AD 2002-04-14 to AD 2002-04-13 gives 1 | -1 | not executed | Intervals.SameYearSignDropped | Intervals.SameCalendarDaysBetweenIsGap |
| core/src/main/java/com/maddy/calendar/core/ILocalDate.kt:266-273 | `plusMonths` carries an overflowing day into the next month instead of clamping it, as its comment promises, and raises for month 0 or 13 | AD 2021-03-31 plus one month gives 2021-05-01; BS 2001-05-31 plus 7 months raises | the last day of the target month (AD 2021-04-30) | not executed | MonthArithmetic.PlusMonthsDoesNotClamp | MonthArithmetic.PlusMonthsClamped |
| core/src/main/java/com/maddy/calendar/core/Helpers.kt:79-81 | `monthsBetween` adds 12 months when the earlier date is in December, because `DECEMBER_CHAITRA - DECEMBER_CHAITRA` has value 12 | AD 2018-12-01 to AD 2019-01-01 gives 13 | 1 | not executed | Period.MonthsBetweenFromDecember | Period.MonthsBetweenCorrectedIsIndexGap |
| core/src/main/java/com/maddy/calendar/core/ILocalDate.kt:124-136 | `dayOfWeek`, `convert` and `reverse` read `daysSinceReferenceDate`, which inherits the unsigned same-year count | AD 2002-04-13 has `dayOfWeek` MONDAY and converts to BS 2059-01-02 | SATURDAY and BS 2058-12-31 | not executed | Conversion.DayOfWeekBeforeReference | Conversion.DayOfWeekShift |
| core/src/main/java/com/maddy/calendar/core/ILocalDate.kt:661-673 | `daysDifference` runs `addSingleDay` on the earlier date from `startEndType`, which is `end.reverse()` itself when the start is later, and `reverse()` of a reference date is the other calendar's shared `REFERENCE_DATE` object | BS 2060-01-01 to AD 2002-04-14 steps the BS reference date to BS 2060-01-01, so `reverse()` of AD 2002-04-14 then gives BS 2060-01-01 | the count without touching any shared object, by stepping a copy | not executed | Period.DaysDifferenceMovesReference | Period.DaysDifference |
