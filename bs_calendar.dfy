/**
 * The Bikram Sambat month-length table (core/src/main/java/com/maddy/calendar/core/ILocalDate.kt,
 * BSLocalDate's companion object): one row of twelve month lengths per year,
 * selected by a year index that folds every year into 0..99.
 */
module BsCalendar {
  import KotlinMath

  /** A Bikram Sambat month has between 29 and 32 days. */
  type MonthLength = x: int | 29 <= x <= 32 witness 29

  /** One year of the table: twelve month lengths, Baishak first. */
  type Row = r: seq<MonthLength> | |r| == 12 witness [29, 29, 29, 29, 29, 29, 29, 29, 29, 29, 29, 29]

  /**
   * `yearMonthSpanLookupTable`, copied row for row in blocks of ten rows:
   * block k holds the rows of the years 1999 + 10k onwards, and block 10 the
   * one row of 2099. The subset type of the elements is the computed check
   * that every row has twelve lengths in 29..32.
   */
  function Block(k: nat): (rows: seq<Row>)
    requires k <= 10
    ensures |rows| == if k < 10 then 10 else 1
  {
    if k < 5 then EarlyBlock(k) else LateBlock(k)
  }

  /** Blocks 0..4: the years 1999..2048. */
  function EarlyBlock(k: nat): (rows: seq<Row>)
    requires k < 5
    ensures |rows| == 10
  {
    match k
    case 0 => [
      [31, 32, 31, 32, 31, 30, 30, 30, 29, 29, 30, 31],
      [30, 32, 31, 32, 31, 30, 30, 30, 29, 30, 29, 31],
      [31, 31, 32, 31, 31, 31, 30, 29, 30, 29, 30, 30],
      [31, 31, 32, 32, 31, 30, 29, 30, 30, 29, 30, 30],
      [31, 32, 31, 32, 31, 30, 30, 30, 29, 29, 30, 31],
      [30, 32, 31, 32, 31, 30, 30, 30, 29, 30, 29, 31],
      [31, 31, 32, 31, 31, 31, 30, 29, 30, 29, 30, 30],
      [31, 31, 32, 32, 31, 30, 30, 29, 30, 29, 30, 30],
      [31, 32, 31, 32, 31, 30, 30, 30, 29, 29, 30, 31],
      [31, 31, 31, 32, 31, 31, 29, 30, 30, 29, 29, 31]
      ]
    case 1 => [
      [31, 31, 32, 31, 31, 31, 30, 29, 30, 29, 30, 30],
      [31, 31, 32, 32, 31, 30, 30, 29, 30, 29, 30, 30],
      [31, 32, 31, 32, 31, 30, 30, 30, 29, 29, 30, 31],
      [31, 31, 31, 32, 31, 31, 29, 30, 30, 29, 30, 30],
      [31, 31, 32, 31, 31, 31, 30, 29, 30, 29, 30, 30],
      [31, 31, 32, 32, 31, 30, 30, 29, 30, 29, 30, 30],
      [31, 32, 31, 32, 31, 30, 30, 30, 29, 29, 30, 31],
      [31, 31, 31, 32, 31, 31, 29, 30, 30, 29, 30, 30],
      [31, 31, 32, 31, 31, 31, 30, 29, 30, 29, 30, 30],
      [31, 32, 31, 32, 31, 30, 30, 29, 30, 29, 30, 30]
      ]
    case 2 => [
      [31, 32, 31, 32, 31, 30, 30, 30, 29, 30, 29, 31],
      [31, 31, 31, 32, 31, 31, 30, 29, 30, 29, 30, 30],
      [31, 31, 32, 31, 31, 31, 30, 29, 30, 29, 30, 30],
      [31, 32, 31, 32, 31, 30, 30, 30, 29, 29, 30, 30],
      [31, 32, 31, 32, 31, 30, 30, 30, 29, 30, 29, 31],
      [31, 31, 31, 32, 31, 31, 30, 29, 30, 29, 30, 30],
      [31, 31, 32, 31, 31, 31, 30, 29, 30, 29, 30, 30],
      [31, 32, 31, 32, 31, 30, 30, 30, 29, 29, 30, 31],
      [30, 32, 31, 32, 31, 30, 30, 30, 29, 30, 29, 31],
      [31, 31, 32, 31, 31, 31, 30, 29, 30, 29, 30, 30]
      ]
    case 3 => [
      [31, 31, 32, 31, 32, 30, 30, 29, 30, 29, 30, 30],
      [31, 32, 31, 32, 31, 30, 30, 30, 29, 29, 30, 31],
      [30, 32, 31, 32, 31, 30, 30, 30, 29, 30, 29, 31],
      [31, 31, 32, 31, 31, 31, 30, 29, 30, 29, 30, 30],
      [31, 31, 32, 32, 31, 30, 30, 29, 30, 29, 30, 30],
      [31, 32, 31, 32, 31, 30, 30, 30, 29, 29, 30, 31],
      [30, 32, 31, 32, 31, 31, 29, 30, 30, 29, 29, 31],
      [31, 31, 32, 31, 31, 31, 30, 29, 30, 29, 30, 30],
      [31, 31, 32, 32, 31, 30, 30, 29, 30, 29, 30, 30],
      [31, 32, 31, 32, 31, 30, 30, 30, 29, 29, 30, 31]
      ]
    case _ => [
      [31, 31, 31, 32, 31, 31, 29, 30, 30, 29, 30, 30],
      [31, 31, 32, 31, 31, 31, 30, 29, 30, 29, 30, 30],
      [31, 31, 32, 32, 31, 30, 30, 29, 30, 29, 30, 30],
      [31, 32, 31, 32, 31, 30, 30, 30, 29, 29, 30, 31],
      [31, 31, 31, 32, 31, 31, 29, 30, 30, 29, 30, 30],
      [31, 31, 32, 31, 31, 31, 30, 29, 30, 29, 30, 30],
      [31, 32, 31, 32, 31, 30, 30, 29, 30, 29, 30, 30],
      [31, 32, 31, 32, 31, 30, 30, 30, 29, 29, 30, 31],
      [31, 31, 31, 32, 31, 31, 30, 29, 30, 29, 30, 30],
      [31, 31, 32, 31, 31, 31, 30, 29, 30, 29, 30, 30]
      ]
  }

  /** Blocks 5..10: the years 2049..2099. */
  function LateBlock(k: nat): (rows: seq<Row>)
    requires 5 <= k <= 10
    ensures |rows| == if k < 10 then 10 else 1
  {
    match k
    case 5 => [
      [31, 32, 31, 32, 31, 30, 30, 30, 29, 29, 30, 30],
      [31, 32, 31, 32, 31, 30, 30, 30, 29, 30, 29, 31],
      [31, 31, 31, 32, 31, 31, 30, 29, 30, 29, 30, 30],
      [31, 31, 32, 31, 31, 31, 30, 29, 30, 29, 30, 30],
      [31, 32, 31, 32, 31, 30, 30, 30, 29, 29, 30, 30],
      [31, 32, 31, 32, 31, 30, 30, 30, 29, 30, 29, 31],
      [31, 31, 32, 31, 31, 31, 30, 29, 30, 29, 30, 30],
      [31, 31, 32, 31, 32, 30, 30, 29, 30, 29, 30, 30],
      [31, 32, 31, 32, 31, 30, 30, 30, 29, 29, 30, 31],
      [30, 32, 31, 32, 31, 30, 30, 30, 29, 30, 29, 31]
      ]
    case 6 => [
      [31, 31, 32, 31, 31, 31, 30, 29, 30, 29, 30, 30],
      [31, 31, 32, 32, 31, 30, 30, 29, 30, 29, 30, 30],
      [31, 32, 31, 32, 31, 30, 30, 30, 29, 29, 30, 31],
      [30, 32, 31, 32, 31, 31, 29, 30, 29, 30, 29, 31],
      [31, 31, 32, 31, 31, 31, 30, 29, 30, 29, 30, 30],
      [31, 31, 32, 32, 31, 30, 29, 30, 30, 29, 30, 30],
      [31, 32, 31, 32, 31, 30, 30, 30, 29, 29, 30, 31],
      [31, 31, 31, 32, 31, 31, 29, 30, 30, 29, 29, 31],
      [31, 31, 32, 31, 31, 31, 30, 29, 30, 29, 30, 30],
      [31, 31, 32, 32, 31, 30, 30, 29, 30, 29, 30, 30]
      ]
    case 7 => [
      [31, 32, 31, 32, 31, 30, 30, 30, 29, 29, 30, 31],
      [31, 31, 31, 32, 31, 31, 29, 30, 30, 29, 30, 30],
      [31, 31, 32, 31, 31, 31, 30, 29, 30, 29, 30, 30],
      [31, 32, 31, 32, 31, 30, 30, 29, 30, 29, 30, 30],
      [31, 32, 31, 32, 31, 30, 30, 30, 29, 29, 30, 31],
      [31, 31, 31, 32, 31, 31, 30, 29, 30, 29, 30, 30],
      [31, 31, 32, 31, 31, 31, 30, 29, 30, 29, 30, 30],
      [31, 32, 31, 32, 31, 30, 30, 30, 29, 29, 30, 30],
      [31, 32, 31, 32, 31, 30, 30, 30, 29, 30, 29, 31],
      [31, 31, 31, 32, 31, 31, 30, 29, 30, 29, 30, 30]
      ]
    case 8 => [
      [31, 31, 32, 31, 31, 31, 30, 29, 30, 29, 30, 30],
      [31, 32, 31, 32, 31, 30, 30, 30, 29, 29, 30, 30],
      [31, 31, 32, 32, 31, 30, 30, 30, 29, 30, 30, 30],
      [30, 32, 31, 32, 31, 30, 30, 30, 29, 30, 30, 30],
      [31, 31, 32, 31, 31, 30, 30, 30, 29, 30, 30, 30],
      [31, 31, 32, 31, 31, 30, 30, 30, 29, 30, 30, 30],
      [31, 32, 31, 32, 30, 31, 30, 30, 29, 30, 30, 30],
      [30, 32, 31, 32, 31, 30, 30, 30, 29, 30, 30, 30],
      [31, 31, 32, 31, 31, 31, 30, 30, 29, 30, 30, 30],
      [30, 31, 32, 32, 30, 31, 30, 30, 29, 30, 30, 30]
      ]
    case 9 => [
      [30, 32, 31, 32, 31, 30, 30, 30, 29, 30, 30, 30],
      [30, 32, 31, 32, 31, 30, 30, 30, 29, 30, 30, 30],
      [31, 31, 32, 31, 31, 31, 30, 30, 29, 30, 30, 30],
      [30, 31, 32, 32, 31, 30, 30, 30, 29, 30, 30, 30],
      [30, 32, 31, 32, 31, 30, 30, 30, 29, 30, 30, 30],
      [31, 31, 32, 31, 31, 30, 30, 30, 29, 30, 30, 30],
      [31, 31, 32, 31, 31, 31, 30, 29, 30, 30, 30, 30],
      [30, 31, 32, 32, 31, 30, 30, 29, 30, 29, 30, 30],
      [31, 32, 31, 32, 31, 30, 30, 30, 29, 30, 30, 30],
      [31, 31, 32, 31, 31, 31, 29, 30, 29, 30, 29, 31]
      ]
    case _ => [
      [31, 31, 32, 31, 31, 31, 30, 29, 29, 30, 30, 31]
      ]
  }

  /**
   * `yearIndex(year)`: the truncating remainder of year - 1999 by 100, made
   * non-negative; that is the remainder of the distance from 1999.
   */
  function YearIndex(year: int): (i: int)
    ensures 0 <= i < 100
  {
    KotlinMath.Abs(year - 1999) % 100
  }

  /** The index is the absolute value of the JVM remainder `(year - 1999) % 100`. */
  lemma YearIndexIsAbsRem(year: int)
    ensures YearIndex(year) == KotlinMath.Abs(KotlinMath.Rem(year - 1999, 100))
  {
  }

  /** `monthDays(year)`: the row for the year; the index never reaches the table's last row. */
  function MonthDays(year: int): Row
  {
    RowAt(YearIndex(year), 1)
  }

  /** Row `i` of the table: entry `i % 10` of block `i / 10`. */
  function TableRow(i: nat): Row
    requires i <= 100
  {
    Block(i / 10)[i % 10]
  }

  /**
   * Row `i` of the table, reached through `hops` calls. Proofs about dates in
   * general only need the type of a row; going through a recursive call keeps
   * the solver from unfolding the table there, and `MonthDaysRow` gives the
   * row itself to the proofs that need its contents.
   */
  function RowAt(i: nat, hops: nat): Row
    requires i <= 100
  {
    if hops == 0 then TableRow(i) else RowAt(i, 0)
  }

  /** `monthDays(year)` is the row `yearIndex(year)` of the table. */
  lemma MonthDaysRow(year: int)
    ensures MonthDays(year) == TableRow(YearIndex(year))
  {
    assert RowAt(YearIndex(year), 1) == RowAt(YearIndex(year), 0);
  }

  /** The table has 101 rows, and the last one (index 100, the year 2099) is never selected. */
  lemma LastRowUnreachable(year: int)
    ensures 10 * 10 + |Block(10)| == 101
    ensures YearIndex(year) < 100
  {
  }

  /** Years 1999..2098 map one-to-one onto rows 0..99. */
  lemma YearIndexInCentury(year: int)
    requires 1999 <= year < 2099
    ensures YearIndex(year) == year - 1999
  {
  }

  /** From 1999 upwards the rows repeat every 100 years. */
  lemma YearIndexPeriodic(year: int)
    requires year >= 1999
    ensures YearIndex(year + 100) == YearIndex(year)
  {
    KotlinMath.ModShift(year - 1999, 1, 100);
  }

  /** Below 1999 the index mirrors instead of repeating: 1999 - k uses the same row as 1999 + k. */
  lemma YearIndexMirrors(k: int)
    ensures YearIndex(1999 - k) == YearIndex(1999 + k)
  {
  }

  /** So 1998 uses the row of 2000 rather than that of 2098, which a period of 100 would give. */
  lemma YearIndexNotPeriodicBelow()
    ensures YearIndex(1998) == 1 && YearIndex(2098) == 99
  {
  }
  // Rows of single years, for worked examples.

  /** BS 1999: Paush and Magh (months 9 and 10) both have 29 days. */
  lemma Row1999()
    ensures MonthDays(1999) == [31, 32, 31, 32, 31, 30, 30, 30, 29, 29, 30, 31]
  {
    MonthDaysRow(1999);
    assert TableRow(0) == Block(0)[0];
  }

  /** BS 2000: Baishak has 30 days. */
  lemma Row2000()
    ensures MonthDays(2000) == [30, 32, 31, 32, 31, 30, 30, 30, 29, 30, 29, 31]
  {
    MonthDaysRow(2000);
    assert TableRow(1) == Block(0)[1];
  }

  /** BS 2001: Chaitra has 30 days. */
  lemma Row2001()
    ensures MonthDays(2001) == [31, 31, 32, 31, 31, 31, 30, 29, 30, 29, 30, 30]
  {
    MonthDaysRow(2001);
    assert TableRow(2) == Block(0)[2];
  }

  /** BS 2058, the year before the reference year: Chaitra has 31 days. */
  lemma Row2058()
    ensures MonthDays(2058) == [30, 32, 31, 32, 31, 30, 30, 30, 29, 30, 29, 31]
  {
    MonthDaysRow(2058);
    assert TableRow(59) == Block(5)[9];
  }

  /** BS 2059, the reference year: Baishak and Jestha have 31 days each. */
  lemma Row2059()
    ensures MonthDays(2059) == [31, 31, 32, 31, 31, 31, 30, 29, 30, 29, 30, 30]
  {
    MonthDaysRow(2059);
    assert TableRow(60) == Block(6)[0];
  }
}
