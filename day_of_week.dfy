/**
 * The day of the week (core/src/main/java/com/maddy/calendar/core/DayOfWeek.kt):
 * seven constants from MONDAY to SUNDAY with wrap-around arithmetic, and the
 * week laid out from a chosen first day.
 *
 * An enum constant is determined by its ordinal, so a day of the week is
 * represented by it: `ENUMS[i]` is the day whose ordinal is `i`.
 */
module Weekdays {
  import opened Outcomes
  import KotlinMath

  newtype DayOfWeek = i: int | 0 <= i < 7
  {
    /** The position in declaration order, 0 for MONDAY and 6 for SUNDAY. */
    function Ordinal(): (i: int)
      ensures 0 <= i < 7
    {
      this as int
    }

    /** `value`: the ISO day-of-week, ordinal + 1. */
    function Value(): int
    {
      this as int + 1
    }

    /**
     * `plus(days: Long)`: ENUMS at `(ordinal + (days % 7 + 7)) % 7`. The JVM
     * remainder is shifted to be non-negative before the outer remainder, so the
     * index is the Euclidean remainder of `ordinal + days` (`PlusAsWritten`).
     */
    function Plus(days: int): (r: DayOfWeek)
      ensures r.Ordinal() == (Ordinal() + days) % 7
    {
      ((this as int + days) % 7) as DayOfWeek
    }

    /** `plus(days: DayOfWeek)`: adds the other day's value taken modulo 7, so SUNDAY adds nothing. */
    function PlusDay(days: DayOfWeek): (r: DayOfWeek)
      ensures r == Plus(days.Value())
    {
      var amount := (days as int + 1) % 7;
      KotlinMath.ReducedIndex(this as int, days as int + 1, 7);
      ((this as int + (amount + 7)) % 7) as DayOfWeek
    }

    /** `minus(days: Long)` = plus(-(days % 7)), the same as adding `-days` (`MinusAsWritten`). */
    function Minus(days: int): (r: DayOfWeek)
      ensures r == Plus(-days)
      ensures r.Ordinal() == (Ordinal() - days) % 7
    {
      ((this as int - days) % 7) as DayOfWeek
    }

    /** `minus(days: DayOfWeek)` = plus(-(days.value % 7)): subtracting SUNDAY is the identity. */
    function MinusDay(days: DayOfWeek): (r: DayOfWeek)
      ensures r == Plus(-(days.Value() % 7))
      ensures r.Ordinal() == (Ordinal() - days.Value()) % 7
    {
      KotlinMath.ReducedOffset(this as int, days as int + 1, 7);
      ((this as int - (days as int + 1)) % 7) as DayOfWeek
    }
  }

  const Monday: DayOfWeek := 0
  const Tuesday: DayOfWeek := 1
  const Wednesday: DayOfWeek := 2
  const Thursday: DayOfWeek := 3
  const Friday: DayOfWeek := 4
  const Saturday: DayOfWeek := 5
  const Sunday: DayOfWeek := 6

  /** `ENUMS = values()`: the constants in declaration order. */
  const Enums: seq<DayOfWeek> := [Monday, Tuesday, Wednesday, Thursday, Friday, Saturday, Sunday]

  /** The JVM expression of `plus(days: Long)` picks the day `Plus` does, for every signed amount. */
  lemma PlusAsWritten(d: DayOfWeek, days: int)
    ensures (d.Ordinal() + (KotlinMath.Rem(days, 7) + 7)) % 7 == d.Plus(days).Ordinal()
  {
    KotlinMath.ModShift(d.Ordinal() + days, 1 - KotlinMath.Quot(days, 7), 7);
  }

  /** `plus(-(days % 7))` with the JVM remainder is `Minus`. */
  lemma MinusAsWritten(d: DayOfWeek, days: int)
    ensures d.Plus(-KotlinMath.Rem(days, 7)) == d.Minus(days)
  {
    KotlinMath.ModShift(d.Ordinal() - days, KotlinMath.Quot(days, 7), 7);
  }

  /** `DayOfWeek.of(dayOfWeek)`: the day with that value, or an exception outside 1..7. */
  function Of(dayOfWeek: int): (r: Result<DayOfWeek>)
    ensures r.Ok? <==> 1 <= dayOfWeek <= 7
    ensures r.Ok? ==> r.value.Value() == dayOfWeek
    ensures r.Err? ==> r.error == InvalidDayOfWeek(dayOfWeek)
  {
    if dayOfWeek < 1 || dayOfWeek > 7 then Err(InvalidDayOfWeek(dayOfWeek))
    else Ok((dayOfWeek - 1) as DayOfWeek)
  }

  /** Of inverts Value. */
  lemma OfValue(d: DayOfWeek)
    ensures Of(d.Value()) == Ok(d)
  {
  }

  /** Adding twice is adding the sum, for any signed amounts. */
  lemma PlusPlus(d: DayOfWeek, a: int, b: int)
    ensures d.Plus(a).Plus(b) == d.Plus(a + b)
  {
    KotlinMath.ModAddMod(d.Ordinal() + a, b, 7);
  }

  /** `(d + n) - n == d`: subtracting undoes adding. */
  lemma MinusPlus(d: DayOfWeek, n: int)
    ensures d.Plus(n).Minus(n) == d
  {
    var o := d.Ordinal();
    KotlinMath.ModAddMod(o + n, -n, 7);
    assert (o + n - n) % 7 == o;
  }

  /** Adding a whole week is the identity; in particular adding SUNDAY changes nothing. */
  lemma PlusWeek(d: DayOfWeek)
    ensures d.Plus(7) == d
    ensures d.PlusDay(Sunday) == d && d.MinusDay(Sunday) == d
  {
    var o := d.Ordinal();
    KotlinMath.ModShift(o, 1, 7);
    KotlinMath.ModShift(o, -1, 7);
  }

  lemma Rotation(k: int, i: int)
    requires 0 <= k < 7 && 0 <= i < 7
    ensures (Enums[k..] + Enums[..k])[i] == Enums[(k + i) % 7]
  {
    var front, back := Enums[k..], Enums[..k];
    if i < 7 - k {
      assert (front + back)[i] == front[i] == Enums[k + i];
      KotlinMath.SmallMod(k + i, 7);
    } else {
      assert (front + back)[i] == back[i - (7 - k)] == Enums[k + i - 7];
      KotlinMath.ModShift(k + i, -1, 7);
      KotlinMath.SmallMod(k + i - 7, 7);
    }
  }

  /**
   * `weekDays(firstDayOfWeek)`: the seven days in order starting at the given
   * one, i.e. ENUMS rotated so that it comes first (MONDAY needs no rotation).
   */
  function WeekDays(first: DayOfWeek): (r: seq<DayOfWeek>)
    ensures |r| == 7
    ensures forall i :: 0 <= i < 7 ==> r[i] == first.Plus(i)
  {
    var k := first.Ordinal();
    var r := if first != Monday then Enums[k..] + Enums[..k] else Enums;
    forall i | 0 <= i < 7
      ensures r[i] == first.Plus(i)
    {
      Rotation(k, i);
    }
    r
  }

  lemma DistinctOffsets(k: int, i: int, j: int)
    requires 0 <= k < 7 && 0 <= i < j < 7
    ensures (k + i) % 7 != (k + j) % 7
  {
    if k + j < 7 || k + i >= 7 {
      KotlinMath.ModShift(k + i, -1, 7);
      KotlinMath.ModShift(k + j, -1, 7);
    } else {
      KotlinMath.ModShift(k + j, -1, 7);
    }
  }

  /** The week starting at `first` opens with it and steps one day at a time. */
  lemma WeekDaysSteps(first: DayOfWeek)
    ensures WeekDays(first)[0] == first
    ensures forall i :: 0 <= i < 6 ==> WeekDays(first)[i + 1] == WeekDays(first)[i].Plus(1)
  {
    var r := WeekDays(first);
    forall i | 0 <= i < 6
      ensures r[i + 1] == r[i].Plus(1)
    {
      PlusPlus(first, i, 1);
    }
  }

  /** The week starting at `first` lists every day of the week ... */
  lemma WeekDaysCovers(first: DayOfWeek, d: DayOfWeek)
    ensures d in WeekDays(first)
  {
    var r := WeekDays(first);
    var k := first.Ordinal();
    var i := (d.Ordinal() - k) % 7;
    KotlinMath.ModAddMod(d.Ordinal() - k, k, 7);
    KotlinMath.SmallMod(d.Ordinal(), 7);
    assert first.Plus(i).Ordinal() == d.Ordinal();
    assert r[i] == first.Plus(i) == d;
  }

  /** ... and each of them only once. */
  lemma WeekDaysDistinct(first: DayOfWeek, i: int, j: int)
    requires 0 <= i < j < 7
    ensures WeekDays(first)[i] != WeekDays(first)[j]
  {
    DistinctOffsets(first.Ordinal(), i, j);
  }
}
