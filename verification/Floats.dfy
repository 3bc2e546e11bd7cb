/** Binary32 arithmetic, as far as a ceiling of a quotient of integers depends on it. */
module Floats {

  const MANTISSA: int := 16777216

  function Pow2(n: nat): (p: nat)
    ensures p > 0
  {
    if n == 0 then 1 else 2 * Pow2(n - 1)
  }

  lemma RealMulMono(x: real, y: real, z: real)
    requires x <= y && z >= 0.0
    ensures x * z <= y * z
  {
  }

  lemma RealCancelLess(x: real, y: real, z: real)
    requires z > 0.0 && x * z < y * z
    ensures x < y
  {
    if x >= y { RealMulMono(y, x, z); }
  }

  lemma MulMono(a: int, b: int, c: int)
    requires a <= b && c >= 0
    ensures a * c <= b * c && c * a <= c * b
  {
  }

  lemma MulCancelLess(a: int, b: int, c: int)
    requires c > 0 && a * c < b * c
    ensures a < b
  {
    if a >= b { MulMono(b, a, c); }
  }

  lemma MulCancelLe(a: int, b: int, c: int)
    requires c > 0 && a * c <= b * c
    ensures a <= b
  {
    assert a * c - b * c == (a - b) * c;
    if a > b { MulMono(1, a - b, c); }
  }

  /** m times two to the power of e. */
  function Scaled(m: int, e: int): real {
    if e >= 0 then (m * Pow2(e)) as real else m as real / Pow2(-e) as real
  }

  /** A finite binary32 number with this significand and this exponent. */
  ghost predicate IsFloatBy(x: real, m: int, e: int) {
    -MANTISSA < m < MANTISSA && -149 <= e <= 104 && x == Scaled(m, e)
  }

  ghost predicate IsFloat(x: real) { exists m, e :: IsFloatBy(x, m, e) }

  function Distance(x: real, y: real): real { if x < y then y - x else x - y }

  /** `x` is a binary32 number nearest to `y`, however ties are broken. */
  ghost predicate Nearest(y: real, x: real) {
    IsFloat(x) && forall z | IsFloat(z) :: Distance(x, y) <= Distance(z, y)
  }

  lemma IntegerIsFloat(n: int)
    requires -MANTISSA < n <= MANTISSA
    ensures IsFloat(n as real)
  {
    if n < MANTISSA {
      assert Pow2(0) == 1;
      assert IsFloatBy(n as real, n, 0);
    } else {
      assert Pow2(1) == 2;
      assert IsFloatBy(n as real, 8388608, 1);
    }
  }

  /** Rounding to the nearest crosses no binary32 number. */
  lemma NoCrossing(y: real, x: real, z: real)
    requires Nearest(y, x) && IsFloat(z)
    ensures z <= y ==> z <= x
    ensures y <= z ==> x <= z
    ensures y == z ==> x == z
  {
    assert Distance(x, y) <= Distance(z, y);
  }

  lemma {:induction false} Pow2Add(a: nat, b: nat)
    ensures Pow2(a + b) == Pow2(a) * Pow2(b)
  {
    if a > 0 {
      Pow2Add(a - 1, b);
      assert Pow2(a + b) == 2 * Pow2(a - 1 + b);
    }
  }

  lemma Pow2Values()
    ensures Pow2(7) == 128 && Pow2(24) == MANTISSA && Pow2(31) == 128 * MANTISSA
  {
    assert Pow2(6) == 64;
    Pow2Add(6, 6);
    Pow2Add(12, 12);
    Pow2Add(7, 24);
  }

  lemma LargeExponent(c: int, k: nat)
    requires c > 0 && k >= 24
    ensures c * Pow2(k) >= MANTISSA
  {
    Pow2Values();
    Pow2Add(24, k - 24);
    assert Pow2(k) == MANTISSA * Pow2(k - 24) >= MANTISSA;
    assert c * Pow2(k) - Pow2(k) == (c - 1) * Pow2(k) >= 0;
  }

  lemma {:induction false} Normalize(c: int, e: nat) returns (k: nat)
    requires 0 < c && c * Pow2(e) < MANTISSA
    ensures k < 24 && 8388608 <= c * Pow2(k) < MANTISSA
    decreases MANTISSA - c * Pow2(e)
  {
    if c * Pow2(e) < 8388608 {
      assert Pow2(e + 1) == 2 * Pow2(e);
      assert c * Pow2(e + 1) == 2 * (c * Pow2(e));
      assert c * Pow2(e) > 0;
      k := Normalize(c, e + 1);
    } else {
      if e >= 24 { LargeExponent(c, e); }
      k := e;
    }
  }

  lemma FractionIsFloat(n: int, k: nat)
    requires 0 < n <= MANTISSA && k < 24
    ensures IsFloat(n as real / Pow2(k) as real)
  {
    var x := n as real / Pow2(k) as real;
    if n < MANTISSA {
      assert IsFloatBy(x, n, 0 - k);
    } else if k == 0 {
      IntegerIsFloat(n);
    } else {
      assert Pow2(k) == 2 * Pow2(k - 1);
      HalfFraction(8388608, Pow2(k - 1));
      assert IsFloatBy(x, 8388608, 1 - k);
    }
  }

  lemma HalfFraction(m: int, p: int)
    requires p > 0
    ensures m as real / p as real == (2 * m) as real / (2 * p) as real
  {
    var x := m as real / p as real;
    assert x * p as real == m as real;
    assert x * (2 * p) as real == (2 * m) as real;
  }

  /** Above every positive integer with 24 bits there is a binary32 number closer than 2^-23 of it. */
  lemma NumberAbove(c: int) returns (z: real)
    requires 0 < c < MANTISSA
    ensures IsFloat(z) && c as real < z && (z - c as real) * 8388608.0 <= c as real
  {
    assert Pow2(0) == 1;
    var k := Normalize(c, 0);
    var p := Pow2(k);
    z := (c * p + 1) as real / p as real;
    FractionIsFloat(c * p + 1, k);
    OneMore(c, p, z);
  }

  lemma OneMore(c: int, p: int, z: real)
    requires p > 0 && c * p >= 8388608 && z == (c * p + 1) as real / p as real
    ensures c as real < z && (z - c as real) * 8388608.0 <= c as real
  {
    var d := 1.0 / p as real;
    assert d * p as real == 1.0;
    assert z * p as real == (c * p + 1) as real == c as real * p as real + 1.0;
    assert (z - c as real - d) * p as real == 0.0;
    assert z == c as real + d;
    assert c as real * p as real >= 8388608.0;
    assert d * (c as real * p as real) == c as real;
    assert d * (c as real * p as real) >= d * 8388608.0;
  }

  /** Rounding cannot pull a value down to an integer from further away than 2^-24 of it. */
  lemma NotDownTo(c: int, y: real, x: real)
    requires 0 < c < MANTISSA && Nearest(y, x) && c as real < y
    requires (y - c as real) * 16777216.0 > c as real
    ensures x != c as real
  {
    var z := NumberAbove(c);
    assert (y - c as real) * 16777216.0 > (z - c as real) * 8388608.0;
    assert z - y < y - c as real;
    assert Distance(z, y) < Distance(c as real, y);
  }

  lemma TwoToThirtyOne()
    ensures IsFloat(2147483648.0)
  {
    Pow2Values();
    Pow2Add(7, 1);
    assert Pow2(8) == 256;
    assert IsFloatBy(2147483648.0, 8388608, 8);
  }

  lemma NotDownToZero(y: real, x: real)
    requires Nearest(y, x) && y * 2147483648.0 >= 1.0
    ensures x > 0.0
  {
    Pow2Values();
    var z := 1.0 / 2147483648.0;
    assert IsFloatBy(z, 1, -31);
    NoCrossing(y, x, z);
  }

  /** Below every positive integer with 24 bits there is a binary32 number at distance 2 / t. */
  lemma NumberBelow(c: int) returns (g: real, t: int)
    requires 0 < c <= MANTISSA
    ensures IsFloat(c as real - g) && t > 0 && g * t as real == 2.0
    ensures if c == 1 then t == 2 * MANTISSA else (c - 1) * t >= MANTISSA
  {
    if c == 1 { g, t := BelowOne(); } else { g, t := FractionBelow(c); }
  }

  lemma BelowOne() returns (g: real, t: int)
    ensures IsFloat(1.0 - g) && t == 2 * MANTISSA && g * t as real == 2.0
  {
    Pow2Values();
    g, t := 1.0 / 16777216.0, 2 * MANTISSA;
    assert 1.0 - g == 16777215.0 / 16777216.0;
    assert IsFloatBy(1.0 - g, MANTISSA - 1, -24);
  }

  lemma FractionBelow(c: int) returns (g: real, t: int)
    requires 1 < c <= MANTISSA
    ensures IsFloat(c as real - g) && t > 0 && g * t as real == 2.0 && (c - 1) * t >= MANTISSA
  {
    assert Pow2(0) == 1;
    var k := Normalize(c - 1, 0);
    NextMultiple(c, k);
    FractionIsFloat(c * Pow2(k) - 1, k);
    g, t := Fraction(c, Pow2(k));
  }

  lemma Fraction(c: int, p: int) returns (g: real, t: int)
    requires p > 0 && (c - 1) * p >= 8388608
    ensures c as real - g == (c * p - 1) as real / p as real
    ensures t > 0 && g * t as real == 2.0 && (c - 1) * t >= MANTISSA
  {
    g, t := 1.0 / p as real, 2 * p;
    OneLess(c, p, g);
    Twice(p as real, g);
    assert t as real == p as real + p as real;
    assert (c - 1) * t == 2 * ((c - 1) * p);
  }

  lemma NextMultiple(c: int, k: nat)
    requires 1 < c && k < 24 && (c - 1) * Pow2(k) < MANTISSA
    ensures 0 < c * Pow2(k) - 1 <= MANTISSA
  {
    Pow2Values();
    Pow2Add(24 - k, k);
    var p, q := Pow2(k), Pow2(24 - k);
    MulCancelLess(c - 1, q, p);
    MulMono(c, q, p);
    MulMono(1, c, p);
  }

  lemma OneLess(c: int, p: int, g: real)
    requires p > 0 && g == 1.0 / p as real
    ensures c as real - g == (c * p - 1) as real / p as real && g * p as real == 1.0
  {
    var z := (c * p - 1) as real / p as real;
    assert g * p as real == 1.0;
    assert z * p as real == (c * p - 1) as real == c as real * p as real - 1.0;
    assert (z + g - c as real) * p as real == 0.0;
  }

  lemma Twice(d: real, t: real)
    ensures (d + d) * t == d * t + d * t
  {
  }

  lemma StrictGap(d: real, b: real, t: real)
    requires d * b >= 1.0 && 0.0 < b < t
    ensures d * t > 1.0 && d > 0.0
  {
    RealCancelLess(0.0, d, b);
    RealMulLess(b, t, d, d * b, d * t);
  }

  lemma RealMulLess(x: real, y: real, z: real, p: real, q: real)
    requires x < y && z > 0.0 && p == z * x && q == z * y
    ensures p < q
  {
  }

  lemma HalfGap(d: real, g: real, t: real, p: real, q: real)
    requires t > 0.0 && g * t == p && d * t == q && p < q + q
    ensures g < d + d
  {
    Twice(d, t);
    RealCancelLess(g, d + d, t);
  }

  /** Rounding cannot push a value up to an integer from further away than half the distance of the
      next binary32 number below. */
  lemma NotUpTo(c: real, y: real, d: real, g: real, t: real, x: real)
    requires Nearest(y, x) && IsFloat(c - g) && t > 0.0 && g * t == 2.0 && d == c - y && d * t > 1.0
    ensures x < c
  {
    RealCancelLess(0.0, g, t);
    HalfGap(d, g, t, g * t, d * t);
    assert Distance(c - g, y) < d;
    NoCrossing(y, x, c - g);
  }

  lemma NearestNegative(y: real, x: real)
    requires Nearest(y, x)
    ensures Nearest(-y, -x)
  {
    NegativeIsFloat(x);
    forall z | IsFloat(z)
      ensures Distance(-x, -y) <= Distance(z, -y)
    {
      NegativeIsFloat(z);
      assert Distance(x, y) <= Distance(-z, y);
    }
  }

  lemma ScaledNegative(m: int, e: int)
    ensures Scaled(-m, e) == -Scaled(m, e)
  {
    if e >= 0 {
      assert (-m) * Pow2(e) == -(m * Pow2(e));
    } else {
      var y := m as real / Pow2(-e) as real;
      assert y * Pow2(-e) as real == m as real;
      assert (-y) * Pow2(-e) as real == (-m) as real;
    }
  }

  lemma NegativeIsFloat(x: real)
    requires IsFloat(x)
    ensures IsFloat(-x)
  {
    var m, e :| IsFloatBy(x, m, e);
    ScaledNegative(m, e);
    assert IsFloatBy(-x, -m, e);
  }
}
