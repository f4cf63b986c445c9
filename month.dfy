/**
 * The month of the year shared by both calendars (core/src/main/java/com/maddy/calendar/core/Month.kt):
 * twelve constants whose names pair the Gregorian and the Bikram Sambat month
 * at the same position, with wrap-around arithmetic on the ordinal.
 *
 * An enum constant is determined by its ordinal, so a month is represented by
 * it: `ENUMS[i]` is the month whose ordinal is `i`.
 */
module Months {
  import opened Outcomes
  import KotlinMath

  newtype Month = i: int | 0 <= i < 12
  {
    /** The position in declaration order, 0 for JANUARY_BAISHAK. */
    function Ordinal(): (i: int)
      ensures 0 <= i < 12
    {
      this as int
    }

    /** `value`: the month-of-year, ordinal + 1. */
    function Value(): int
    {
      this as int + 1
    }

    /**
     * `plus(months: Int)`: ENUMS at `(ordinal + (months % 12 + 12)) % 12`. The JVM
     * remainder is shifted to be non-negative before the outer remainder, so the
     * index is the Euclidean remainder of `ordinal + months` (`PlusAsWritten`).
     */
    function Plus(months: int): (r: Month)
      ensures r.Ordinal() == (Ordinal() + months) % 12
    {
      ((this as int + months) % 12) as Month
    }

    /** `plus(months: Month)`: adds the other month's value, so DECEMBER_CHAITRA adds a whole year. */
    function PlusMonth(months: Month): (r: Month)
      ensures r == Plus(months.Value())
    {
      var value := months as int + 1;
      KotlinMath.ModShift(this as int + value, 1, 12);
      ((this as int + (value + 12)) % 12) as Month
    }

    /** `minus(months: Int)` = plus(-(months % 12)), the same as adding `-months` (`MinusAsWritten`). */
    function Minus(months: int): (r: Month)
      ensures r == Plus(-months)
      ensures r.Ordinal() == (Ordinal() - months) % 12
    {
      ((this as int - months) % 12) as Month
    }

    /**
     * `minus(months: Month)` = plus(-months.value): the forward distance from
     * `months` to this month, except that it is 12 rather than 0 when they coincide.
     */
    function MinusMonth(months: Month): (r: Month)
      ensures r == Plus(-months.Value())
      ensures r.Value() == (Value() - months.Value() - 1) % 12 + 1
    {
      ((this as int - (months as int + 1)) % 12) as Month
    }
  }

  const JanuaryBaishak: Month := 0
  const FebruaryJestha: Month := 1
  const MarchAsadh: Month := 2
  const AprilShrwan: Month := 3
  const MayBhadra: Month := 4
  const JuneAshwin: Month := 5
  const JulyKartik: Month := 6
  const AugustMangsir: Month := 7
  const SeptemberPaush: Month := 8
  const OctoberMagh: Month := 9
  const NovemberFalgun: Month := 10
  const DecemberChaitra: Month := 11

  /** The JVM expression of `plus(months: Int)` picks the month `Plus` does, for every signed amount. */
  lemma PlusAsWritten(m: Month, months: int)
    ensures (m.Ordinal() + (KotlinMath.Rem(months, 12) + 12)) % 12 == m.Plus(months).Ordinal()
  {
    KotlinMath.ModShift(m.Ordinal() + months, 1 - KotlinMath.Quot(months, 12), 12);
  }

  /** `plus(-(months % 12))` with the JVM remainder is `Minus`. */
  lemma MinusAsWritten(m: Month, months: int)
    ensures m.Plus(-KotlinMath.Rem(months, 12)) == m.Minus(months)
  {
    KotlinMath.ModShift(m.Ordinal() - months, KotlinMath.Quot(months, 12), 12);
  }

  /** `Month.of(month)`: ENUMS[month - 1], the month with that value, or an exception outside 1..12. */
  function Of(month: int): (r: Result<Month>)
    ensures r.Ok? <==> 1 <= month <= 12
    ensures r.Ok? ==> r.value.Value() == month
    ensures r.Err? ==> r.error == InvalidMonthOfYear(month)
  {
    if month < 1 || month > 12 then Err(InvalidMonthOfYear(month))
    else Ok((month - 1) as Month)
  }

  /** Of inverts Value. */
  lemma OfValue(m: Month)
    ensures Of(m.Value()) == Ok(m)
  {
  }

  /** Adding twice is adding the sum, for any signed amounts. */
  lemma PlusPlus(m: Month, a: int, b: int)
    ensures m.Plus(a).Plus(b) == m.Plus(a + b)
  {
    KotlinMath.ModAddMod(m.Ordinal() + a, b, 12);
  }

  /** `(m + n) - n == m`: subtracting undoes adding. */
  lemma MinusPlus(m: Month, n: int)
    ensures m.Plus(n).Minus(n) == m
  {
    var o := m.Ordinal();
    KotlinMath.ModAddMod(o + n, -n, 12);
    assert (o + n - n) % 12 == o;
  }

  /** Adding a whole year of months is the identity. */
  lemma PlusYear(m: Month)
    ensures m.Plus(12) == m
  {
    KotlinMath.ModShift(m.Ordinal(), 1, 12);
  }

  /** `(m - n) + n == m`: adding undoes subtracting. */
  lemma PlusMinus(m: Month, n: int)
    ensures m.Minus(n).Plus(n) == m
  {
    var o := m.Ordinal();
    KotlinMath.ModAddMod(o - n, n, 12);
    assert (o - n + n) % 12 == o;
  }

  /** Adding DECEMBER_CHAITRA is the identity and adding JANUARY_BAISHAK gives the next month. */
  lemma PlusMonthYearAndOne(m: Month)
    ensures m.PlusMonth(DecemberChaitra) == m
    ensures m.PlusMonth(JanuaryBaishak) == m.Plus(1)
  {
    PlusYear(m);
  }

  lemma DistanceArithmetic(oa: int, ob: int)
    requires 0 <= oa < 12 && 0 <= ob < 12
    ensures (ob + ((oa - ob - 1) % 12 + 1)) % 12 == oa
    ensures (oa - ob - 1) % 12 == 11 <==> oa == ob
  {
    KotlinMath.ModAddMod(oa - ob - 1, ob + 1, 12);
    if oa > ob {
      assert (oa - ob - 1) % 12 == oa - ob - 1;
    } else {
      KotlinMath.ModShift(oa - ob - 1, 1, 12);
    }
  }

  /** `a - b` is the forward distance from b to a: adding its value to b gives a. */
  lemma MinusMonthIsDistance(a: Month, b: Month)
    ensures b.Plus(a.MinusMonth(b).Value()) == a
  {
    DistanceArithmetic(a.Ordinal(), b.Ordinal());
  }

  /** `a - b` lies in 1..12 and is 12, not 0, exactly when the months coincide. */
  lemma MinusMonthSelf(a: Month, b: Month)
    ensures a.MinusMonth(b).Value() == 12 <==> a == b
  {
    DistanceArithmetic(a.Ordinal(), b.Ordinal());
  }

  /** DECEMBER_CHAITRA minus a month is the number of months after it in the year, except 12 for December itself. */
  lemma DecemberMinus(m: Month)
    ensures DecemberChaitra.MinusMonth(m).Value() == if m == DecemberChaitra then 12 else 11 - m.Ordinal()
  {
    var o := m.Ordinal();
    assert DecemberChaitra.MinusMonth(m).Value() == (10 - o) % 12 + 1;
    if o == 11 {
      assert (10 - o) % 12 == 11;
    } else {
      KotlinMath.SmallMod(10 - o, 12);
    }
  }
}
