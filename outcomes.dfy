/** The exceptions the calendar core raises, as values. */
module Outcomes {

  /** One constructor per exception the core throws. */
  datatype Error =
    | InvalidMonthOfYear(month: int)   // Month.of outside 1..12
    | InvalidDayOfWeek(dayOfWeek: int) // DayOfWeek.of outside 1..7
    | InvalidDayOfMonth(day: int)      // ILocalDate.atDay outside the month
    | LongOverflow                     // addExact
    | NoSuchElement                    // first()/last() of an empty list
    | UnsupportedOperation             // CalendarDay.compareTo

  /** A value, or the exception that replaced it. */
  datatype Result<+T> = Ok(value: T) | Err(error: Error)
}
