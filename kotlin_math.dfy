/**
 * Integer arithmetic with the JVM's semantics: `/` and `%` truncate toward
 * zero, `toInt()` keeps the low 32 bits, and `Math.floorDiv`, `Math.floorMod`
 * and `Math.addExact` as the calendar core writes them (the `Math` object in
 * Helpers.kt and its copy `Helper` in Helper.kt are the same code).
 */
module KotlinMath {
  import opened Outcomes

  const MinInt: int := -0x8000_0000
  const MaxInt: int := 0x7fff_ffff
  const MinLong: int := -0x8000_0000_0000_0000
  const MaxLong: int := 0x7fff_ffff_ffff_ffff

  predicate IsInt(x: int) { MinInt <= x <= MaxInt }
  predicate IsLong(x: int) { MinLong <= x <= MaxLong }

  function Abs(x: int): nat { if x < 0 then -x else x }

  /** JVM `x / y`: the quotient rounded toward zero. */
  function Quot(x: int, y: int): (q: int)
    requires y != 0
    ensures x >= 0 ==> 0 <= q * y <= x
    ensures x < 0 ==> x <= q * y <= 0
    ensures Abs(x - q * y) < Abs(y)
  {
    var q := if y > 0 then (if x >= 0 then x / y else -((-x) / y))
             else (if x >= 0 then -(x / (-y)) else (-x) / (-y));
    TruncatedDivision(x, y, q);
    q
  }

  /** JVM `x % y` = x - (x / y) * y: the remainder of `Quot`, carrying the sign of `x`. */
  function Rem(x: int, y: int): (r: int)
    requires y != 0
    ensures x == Quot(x, y) * y + r
    ensures Abs(r) < Abs(y)
    ensures r != 0 ==> (r < 0 <==> x < 0)
  {
    x - Quot(x, y) * y
  }

  /** Euclidean division of a non-negative number by a positive divisor. */
  lemma NonNegativeDivision(a: int, b: int)
    requires a >= 0 && b > 0
    ensures a / b >= 0 && 0 <= (a / b) * b <= a < (a / b) * b + b
  {
    var k := a / b;
    assert a == k * b + a % b;
    if k < 0 {
      MulAtMostNegative(k, b);
    }
    MulNonNegative(k, b);
  }

  lemma MulAtMostNegative(k: int, b: int)
    requires k < 0 && b > 0
    ensures k * b <= -b
  {
  }

  /** Negating one factor negates the product. */
  lemma MulNegate(k: int, y: int)
    ensures (-k) * y == -(k * y) && k * (-y) == -(k * y)
  {
  }

  /** Dividing the magnitudes and restoring the sign rounds toward zero. */
  lemma TruncatedDivision(x: int, y: int, q: int)
    requires y != 0
    requires q == if y > 0 then (if x >= 0 then x / y else -((-x) / y))
                  else (if x >= 0 then -(x / (-y)) else (-x) / (-y))
    ensures x >= 0 ==> 0 <= q * y <= x
    ensures x < 0 ==> x <= q * y <= 0
    ensures Abs(x - q * y) < Abs(y)
  {
    if y > 0 {
      if x >= 0 {
        NonNegativeDivision(x, y);
      } else {
        var k := (-x) / y;
        NonNegativeDivision(-x, y);
        assert q == -k;
        MulNegate(k, y);
      }
    } else {
      if x >= 0 {
        var k := x / (-y);
        NonNegativeDivision(x, -y);
        assert q == -k;
        MulNegate(k, -y);
        assert q * y == k * (-y);
      } else {
        var k := (-x) / (-y);
        NonNegativeDivision(-x, -y);
        assert q == k;
        MulNegate(k, y);
      }
    }
  }

  /** The mathematical floor of x / y, by Dafny's Euclidean division on a positive divisor. */
  function FloorQuotient(x: int, y: int): int
    requires y != 0
  {
    if y > 0 then x / y else (-x) / (-y)
  }

  /** JVM `toInt()` on a Long: keep the low 32 bits, read them as a signed number. */
  function ToInt(x: int): (r: int)
    ensures IsInt(r)
    ensures (r - x) % 0x1_0000_0000 == 0
    ensures IsInt(x) ==> r == x
  {
    (x - MinInt) % 0x1_0000_0000 + MinInt
  }

  /** JVM Long addition: the sum wrapped into 64 bits. */
  function WrapLong(x: int): (r: int)
    ensures IsLong(r)
    ensures (r - x) % 0x1_0000_0000_0000_0000 == 0
    ensures IsLong(x) ==> r == x
  {
    (x - MinLong) % 0x1_0000_0000_0000_0000 + MinLong
  }

  /**
   * `Math.floorDiv(x, y)`: the truncated quotient, decremented once when the
   * signs differ (`x xor y < 0`) and the division is inexact, then narrowed
   * with `toInt()`. It is the floor of x / y exactly when that fits in an Int.
   */
  function FloorDiv(x: int, y: int): (r: int)
    requires y != 0
    ensures r == ToInt(FloorQuotient(x, y))
    ensures IsInt(FloorQuotient(x, y)) ==> r == FloorQuotient(x, y)
  {
    var q := Quot(x, y);
    var q' := if (x < 0) != (y < 0) && q * y != x then q - 1 else q;
    FloorOfTruncated(x, y, q, q');
    ToInt(q')
  }

  lemma FloorOfTruncated(x: int, y: int, q: int, q': int)
    requires y != 0 && q == Quot(x, y)
    requires q' == if (x < 0) != (y < 0) && q * y != x then q - 1 else q
    ensures q' == FloorQuotient(x, y)
  {
    var p := q * y;
    if q' != q {
      assert q' * y == p - y;
    }
    if y > 0 {
      assert q' * y <= x < q' * y + y;
      FloorUnique(x, y, q');
    } else {
      assert q' * (-y) == -(q' * y);
      assert q' * (-y) <= -x < q' * (-y) + (-y);
      FloorUnique(-x, -y, q');
    }
  }

  lemma FloorUnique(x: int, y: int, q: int)
    requires y > 0 && q * y <= x < q * y + y
    ensures q == x / y
  {
    var e := x / y;
    assert e * y <= x < e * y + y;
    if q != e {
      var k := if q > e then q - e else e - q;
      MulAtLeastDivisor(k, y);
    }
  }

  /** Adding a multiple of a positive modulus does not change the Euclidean remainder. */
  lemma ModShift(a: int, k: int, m: int)
    requires m > 0
    ensures (a + k * m) % m == a % m
    ensures (a + k * m) / m == a / m + k
  {
    var q := a / m;
    assert a == q * m + a % m;
    assert (q + k) * m == q * m + k * m;
    FloorUnique(a + k * m, m, q + k);
  }

  /** Reducing the left operand first does not change a Euclidean remainder. */
  lemma ModAddMod(x: int, b: int, m: int)
    requires m > 0
    ensures (x % m + b) % m == (x + b) % m
  {
    assert x == x / m * m + x % m;
    ModShift(x % m + b, x / m, m);
  }

  /** Reducing an addend modulo `m` and shifting it by `m` leaves the index modulo `m` unchanged. */
  lemma ReducedIndex(o: int, v: int, m: int)
    requires m > 0
    ensures (o + (v % m + m)) % m == (o + v) % m
  {
    ModAddMod(v, o + m, m);
    ModShift(o + v, 1, m);
  }

  /** Subtracting an amount reduced modulo `m` leaves the index modulo `m` unchanged. */
  lemma ReducedOffset(o: int, v: int, m: int)
    requires m > 0
    ensures (o - v % m) % m == (o - v) % m
  {
    assert v == v / m * m + v % m;
    ModShift(o - v, v / m, m);
  }

  /** The truncating and the Euclidean remainder vanish together. */
  lemma RemZero(x: int, y: int)
    requires y > 0
    ensures Rem(x, y) == 0 <==> x % y == 0
  {
    var q := Quot(x, y);
    if Rem(x, y) == 0 {
      MultipleMod(q, y);
    }
    if x % y == 0 {
      if x >= 0 {
        assert x == (x / y) * y + x % y;
      } else {
        var k := (-x) / y;
        assert -x == (-(x / y)) * y by {
          assert x == (x / y) * y + x % y;
          MulNegate(x / y, y);
        }
        MultipleMod(-(x / y), y);
        assert -x == k * y + (-x) % y;
        MulNegate(k, y);
      }
    }
  }

  /** For a non-negative dividend the truncating remainder is the Euclidean one. */
  lemma RemNonNegative(x: int, y: int)
    requires x >= 0 && y > 0
    ensures Rem(x, y) == x % y
  {
    var r := Rem(x, y);
    ModShift(r, Quot(x, y), y);
  }

  /** A multiple of a positive modulus leaves no remainder. */
  lemma MultipleMod(k: int, y: int)
    requires y > 0
    ensures (k * y) % y == 0
  {
    ModShift(0, k, y);
  }

  /** A value already in [0, m) is its own remainder. */
  lemma SmallMod(x: int, m: int)
    requires 0 <= x < m
    ensures x % m == x && x / m == 0
  {
  }

  lemma MulNonNegative(k: int, y: int)
    requires k >= 0 && y > 0
    ensures k * y >= 0
  {
  }

  lemma MulAtLeastDivisor(k: int, y: int)
    requires k >= 1 && y > 0
    ensures k * y >= y
  {
  }

  /**
   * `Math.floorMod(x, y)` = x - floorDiv(x, y) * y. For a positive divisor it
   * lies in [0, y) and completes x = q * y + r, as long as the quotient fits
   * in an Int.
   */
  function FloorMod(x: int, y: int): (r: int)
    requires y != 0
    ensures y > 0 && IsInt(FloorQuotient(x, y)) ==> 0 <= r < y && r == x % y
  {
    var q := FloorDiv(x, y);
    assert y > 0 && IsInt(FloorQuotient(x, y)) ==> x - q * y == x % y by {
      if y > 0 && IsInt(FloorQuotient(x, y)) {
        EuclideanRemainder(x, y, q);
      }
    }
    x - q * y
  }

  /** With the floor quotient, `x - q * y` is the Euclidean remainder. */
  lemma EuclideanRemainder(x: int, y: int, q: int)
    requires y > 0 && q == x / y
    ensures x - q * y == x % y
  {
  }

  /** A quotient outside the Int range wraps: floorDiv(12 * 2^31, 12) is -2^31, and floorMod leaves [0, 12). */
  lemma FloorDivNarrows()
    ensures FloorDiv(12 * 0x8000_0000, 12) == MinInt
    ensures FloorMod(12 * 0x8000_0000, 12) == 24 * 0x8000_0000
  {
    assert FloorQuotient(12 * 0x8000_0000, 12) == 0x8000_0000;
  }

  /**
   * `Math.addExact(x, y)`: the wrapped sum, or `ArithmeticException` when both
   * operands differ in sign from it (`(x xor r) and (y xor r) < 0`).
   */
  function AddExact(x: int, y: int): (r: Result<int>)
    requires IsLong(x) && IsLong(y)
    ensures r.Ok? <==> IsLong(x + y)
    ensures r.Ok? ==> r.value == x + y
    ensures r.Err? ==> r.error == LongOverflow
  {
    var s := WrapLong(x + y);
    if ((x < 0) != (s < 0)) && ((y < 0) != (s < 0)) then Err(LongOverflow) else Ok(s)
  }
}
