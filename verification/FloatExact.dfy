/** Why 15 digits are safe in a float column (`models.py`): rounding such a decimal to binary64 (IEEE
    754-2019, section 3.6) and back to its own number of places gives the decimal again. */
module FloatExact {
  import opened Decimals
  import opened Powers

  ghost function Two(k: int): real { RealPow(2, k) }

  /** m * 2^k */
  ghost function Binary(m: int, k: int): real { Times(m as real, Two(k)) }

  /** 2^53 */
  const LIMIT := 0x20_0000_0000_0000
  const LIMIT_REAL := 9007199254740992.0

  /** A finite binary64 number: 53 significant bits and 11 bits of exponent. */
  ghost predicate IsDouble(x: real) {
    exists m: int, k: int :: -LIMIT < m < LIMIT && -1074 <= k <= 971 && x == Binary(m, k)
  }

  /** x is a double nearest to v (any one of them, at a tie). */
  ghost predicate Nearest(x: real, v: real) {
    IsDouble(x) && forall y: real :: IsDouble(y) ==> Abs(x - v) <= Abs(y - v)
  }

  /** The binade a number is in: 2^j <= v < 2^(j + 1). */
  lemma {:induction false} Binade(v: real, low: int, high: int) returns (j: int)
    requires low < high && Two(low) <= v < Two(high)
    ensures low <= j < high && Two(j) <= v < Two(j + 1)
    decreases high - low
  {
    if v < Two(low + 1) {
      j := low;
    } else {
      j := Binade(v, low + 1, high);
    }
  }

  lemma NearestWhole(q: real, low: int, high: int) returns (m: int)
    requires low as real <= q <= high as real
    ensures Abs(m as real - q) <= 0.5 && low <= m <= high
  {
    m := (q + 0.5).Floor;
  }

  lemma Quotient(v: real, u: real, low: real, high: real) returns (q: real)
    requires u > 0.0 && low * u <= v < high * u
    ensures v == q * u && low <= q < high
  {
    q := v / u;
  }

  lemma Difference(m: real, q: real, u: real)
    requires u > 0.0 && Abs(m - q) <= 0.5
    ensures Abs(m * u - q * u) <= 0.5 * u
  {
    Product(0.5 - (m - q), u);
    Product(0.5 + (m - q), u);
  }

  lemma Product(x: real, u: real)
    requires x >= 0.0 && u > 0.0
    ensures x * u >= 0.0
  {
  }

  lemma Half()
    ensures Pow(2, 52) == LIMIT / 2 && Pow(2, 53) == LIMIT
  {
    TwoToThe50();
    assert Pow(2, 2) == 4 && Pow(2, 3) == 8;
    PowAdd(2, 50, 2);
    PowAdd(2, 50, 3);
  }

  /** Every positive number of ordinary size has a double within half a unit in its last place. */
  lemma DoubleNearby(v: real) returns (y: real)
    requires Two(-50) <= v < Two(50)
    ensures IsDouble(y) && LIMIT_REAL * Abs(y - v) <= v
  {
    hide RealPow, Pow;
    var j := Binade(v, -50, 50);
    var k := j - 52;
    var u := Two(k);
    Half();
    Whole(2, 52);
    Whole(2, 53);
    Add(2, 52, k);
    Add(2, 53, k);
    var q := Quotient(v, u, LIMIT_REAL / 2.0, LIMIT_REAL);
    var m := NearestWhole(q, LIMIT / 2, LIMIT);
    y := m as real * u;
    Difference(m as real, q, u);
    Within(y - v, u, v);
    assert y == Binary(m, k);
    if m == LIMIT {
      NextBinade(k);
      assert y == Binary(LIMIT / 2, k + 1);
    }
  }

  lemma Within(d: real, u: real, v: real)
    requires Abs(d) <= 0.5 * u && LIMIT_REAL / 2.0 * u <= v
    ensures LIMIT_REAL * Abs(d) <= v
  {
  }

  lemma NextBinade(k: int)
    ensures Binary(LIMIT, k) == Binary(LIMIT / 2, k + 1)
  {
    hide RealPow;
    Up(2, k);
  }

  lemma DoubleNegated(y: real)
    requires IsDouble(y)
    ensures IsDouble(-y)
  {
    hide RealPow;
    var m: int, k: int :| -LIMIT < m < LIMIT && -1074 <= k <= 971 && y == Binary(m, k);
    BinaryNegated(m, k);
  }

  lemma BinaryNegated(m: int, k: int)
    ensures Binary(-m, k) == -Binary(m, k)
  {
    hide RealPow;
    NegatedProduct(m as real, Two(k));
    assert (-m) as real == -(m as real);
  }

  lemma NegatedProduct(x: real, y: real)
    ensures -x * y == -(x * y)
  {
  }

  lemma TenToThe15()
    ensures Pow(10, 15) == 1_000_000_000_000_000
  {
    assert Pow(10, 5) == 100000;
    PowAdd(10, 5, 5);
    PowAdd(10, 10, 5);
  }

  lemma TwoToThe50()
    ensures Pow(2, 50) == 0x4_0000_0000_0000
  {
    assert Pow(2, 10) == 0x400;
    PowAdd(2, 10, 10);
    PowAdd(2, 20, 20);
    PowAdd(2, 40, 10);
  }

  lemma Sizes()
    ensures Ten(15) == 1000000000000000.0 && Ten(15) < Two(50) && Two(-50) <= Ten(-15)
  {
    hide RealPow, Pow;
    TenToThe15();
    TwoToThe50();
    Whole(10, 15);
    Whole(2, 50);
    Inverse(10, 15);
    Inverse(2, 50);
    Reciprocals(Ten(15), Two(50), Ten(-15), Two(-50));
  }

  lemma Reciprocals(a: real, b: real, x: real, y: real)
    requires 0.0 < a <= b && 0.0 < x && 0.0 < y && a * x == 1.0 && b * y == 1.0
    ensures y <= x
  {
    Product(b - a, y);
    assert a * y <= a * x;
    if y > x {
      PositiveProduct(a, y - x);
    }
  }

  lemma PositiveProduct(x: real, y: real)
    requires x > 0.0 && y > 0.0
    ensures x * y > 0.0
  {
  }

  /** The nearest double is closer than half a unit of the last decimal place. */
  lemma WithinHalf(n: int, e: int, x: real)
    requires -1_000_000_000_000_000 < n < 1_000_000_000_000_000 && -15 <= e && Abs(Scaled(n, e)) < Ten(15)
    requires Nearest(x, Scaled(n, e))
    ensures Abs(x - Scaled(n, e)) < Ten(e) / 2.0
  {
    hide RealPow, IsDouble;
    var v := Scaled(n, e);
    if n == 0 {
      DoubleZero();
    } else {
      var a := if n < 0 then -n else n;
      AbsScaled(a, e);
      Sizes();
      Grows(10, -15, e);
      InUnits(a, 1_000_000_000_000_000, e);
      var y := DoubleNearby(Abs(v));
      DoubleNegated(y);
      assert LIMIT_REAL * Abs(x - v) <= Abs(v);
    }
  }

  lemma DoubleZero()
    ensures IsDouble(0.0) && forall e: int :: Scaled(0, e) == 0.0
  {
    assert 0.0 == Binary(0, 0);
  }

  lemma InUnits(a: nat, b: nat, e: int)
    requires 1 <= a <= b
    ensures Ten(e) <= Scaled(a, e) <= b as real * Ten(e)
  {
    hide RealPow;
    TimesAtLeast(1.0, a as real, Ten(e));
    TimesAtLeast(a as real, b as real, Ten(e));
  }

  lemma ScaledMinus(k: int, n: int, e: int)
    ensures Scaled(k, e) - Scaled(n, e) == Scaled(k - n, e)
  {
    hide RealPow;
    assert (k - n) as real == k as real - n as real;
  }

  lemma Apart(k: int, n: int, e: int)
    requires k != n
    ensures Abs(Scaled(k, e) - Scaled(n, e)) >= Ten(e)
  {
    hide Scaled;
    ScaledMinus(k, n, e);
    var d := if k > n then k - n else n - k;
    AbsScaled(d, e);
    InUnits(d, d, e);
  }

  /** Reading a double back to as many places as the decimal had gives the decimal itself: n * 10^e is closer
      to the double than any other multiple of 10^e. */
  lemma ReadsBack(n: int, e: int, x: real, k: int)
    requires -1_000_000_000_000_000 < n < 1_000_000_000_000_000 && -15 <= e && Abs(Scaled(n, e)) < Ten(15)
    requires Nearest(x, Scaled(n, e)) && k != n
    ensures Abs(x - Scaled(n, e)) < Abs(x - Scaled(k, e))
  {
    WithinHalf(n, e, x);
    Apart(k, n, e);
  }

  /** The digits of a decimal whose precision is at most 15. */
  lemma FifteenDigits(d: Decimal)
    requires d.Valid() && SizeOf(d).precision <= 15
    ensures -1_000_000_000_000_000 < d.Coefficient() < 1_000_000_000_000_000 && -15 <= d.exponent
    ensures Abs(d.Value()) < Ten(15)
  {
    hide RealPow;
    NumberBelow(d.digits);
    PowGrows(|d.digits|, 15);
    TenToThe15();
    ScaledBelow(d.Coefficient(), d.exponent, |d.digits| + d.exponent);
    Grows(10, |d.digits| + d.exponent, 15);
  }

  /** A decimal of at most 15 digits survives a float column. */
  lemma DecimalSurvivesDouble(d: Decimal, x: real, k: int)
    requires d.Valid() && SizeOf(d).precision <= 15 && Nearest(x, d.Value()) && k != d.Coefficient()
    ensures Abs(x - d.Value()) < Abs(x - Scaled(k, d.exponent))
  {
    hide RealPow, Nearest, SizeOf;
    FifteenDigits(d);
    ReadsBack(d.Coefficient(), d.exponent, x, k);
  }
}
