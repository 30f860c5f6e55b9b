/** The part of Java's `BigDecimal` the JSON tree relies on. A `BigDecimal` is an
    unscaled integer and a scale, standing for unscaled × 10^(-scale); `equals`
    compares both components (so 2.0 and 2.00 differ), while the numeric value
    is compared by `SameValue`. The scale is unbounded here (Java limits it to
    32 bits). */
module Decimals {

  import Arith

  datatype BigDecimal = BigDecimal(unscaled: int, scale: int)

  /** `BigDecimal.ZERO`. */
  const ZERO := BigDecimal(0, 0)

  function Pow10(n: nat): (r: int)
    ensures r >= 1
  {
    if n == 0 then 1 else 10 * Pow10(n - 1)
  }

  lemma {:induction false} Pow10Add(a: nat, b: nat)
    ensures Pow10(a + b) == Pow10(a) * Pow10(b)
  {
    if a > 0 {
      Pow10Add(a - 1, b);
      assert Pow10(a + b) == 10 * Pow10(a - 1 + b);
    }
  }

  function Max(a: int, b: int): int {
    if a < b then b else a
  }

  /** The value of `d` as a multiple of 10^(-k), for any scale `k` at least `d`'s. */
  function ScaledTo(d: BigDecimal, k: int): int
    requires k >= d.scale
  {
    d.unscaled * Pow10(k - d.scale)
  }

  /** Numeric equality: `compareTo(...) == 0`. */
  predicate SameValue(a: BigDecimal, b: BigDecimal) {
    var k := Max(a.scale, b.scale);
    ScaledTo(a, k) == ScaledTo(b, k)
  }

  /** Rescaling further keeps numeric equality. */
  lemma ScaledFurther(d: BigDecimal, k: int, k': int)
    requires d.scale <= k <= k'
    ensures ScaledTo(d, k') == ScaledTo(d, k) * Pow10(k' - k)
  {
    Pow10Add(k - d.scale, k' - k);
  }

  /** Two numerically equal decimals agree at every common scale. */
  lemma SameValueAt(a: BigDecimal, b: BigDecimal, k: int)
    requires SameValue(a, b)
    requires k >= a.scale && k >= b.scale
    ensures ScaledTo(a, k) == ScaledTo(b, k)
  {
    var k0 := Max(a.scale, b.scale);
    ScaledFurther(a, k0, k);
    ScaledFurther(b, k0, k);
  }

  /** `signum()`. */
  function Signum(d: BigDecimal): int {
    if d.unscaled > 0 then 1 else if d.unscaled < 0 then -1 else 0
  }

  function Abs(x: int): nat {
    if x < 0 then -x else x
  }

  /** `stripTrailingZeros()`: the numerically equal decimal with the fewest
      trailing zeros in the unscaled value; zero becomes `ZERO`. */
  function StripTrailingZeros(d: BigDecimal): (r: BigDecimal)
    ensures SameValue(r, d)
    ensures r.unscaled == 0 <==> d.unscaled == 0
    ensures r.unscaled == 0 ==> r == ZERO
    ensures r.unscaled != 0 ==> r.unscaled % 10 != 0
    decreases Abs(d.unscaled)
  {
    if d.unscaled == 0 then ZERO
    else if d.unscaled % 10 == 0 then
      var d' := BigDecimal(d.unscaled / 10, d.scale - 1);
      var r := StripTrailingZeros(d');
      StripStepSameValue(d, d', r);
      r
    else d
  }

  /** One stripping step removes a factor ten without changing the value. */
  lemma StripStepSameValue(d: BigDecimal, d': BigDecimal, r: BigDecimal)
    requires d.unscaled % 10 == 0
    requires d' == BigDecimal(d.unscaled / 10, d.scale - 1)
    requires SameValue(r, d')
    ensures SameValue(r, d)
  {
    var k := Max(r.scale, d.scale);
    SameValueAt(r, d', k);
    assert d.unscaled == 10 * d'.unscaled;
    assert Pow10(k - d'.scale) == 10 * Pow10(k - d.scale);
    ScaledFurther(d, k, Max(r.scale, d.scale));
  }

  /** A decimal is integral when it has no non-zero digit after the point. */
  predicate Integral(d: BigDecimal) {
    d.scale <= 0 || d.unscaled % Pow10(d.scale) == 0
  }

  /** Integer division truncating toward zero (Java's semantics), for a
      positive divisor. */
  function TruncDiv(a: int, p: int): int
    requires p > 0
  {
    if a >= 0 then a / p else -((-a) / p)
  }

  /** `toBigInteger()`: the integer part, with any fraction discarded, i.e.
      rounded toward zero. */
  function ToBigInteger(d: BigDecimal): (r: int)
    ensures d.scale <= 0 ==> SameValue(BigDecimal(r, 0), d)
    ensures d.scale > 0 && d.unscaled >= 0 ==>
              0 <= r * Pow10(d.scale) <= d.unscaled < r * Pow10(d.scale) + Pow10(d.scale)
    ensures d.scale > 0 && d.unscaled < 0 ==>
              r * Pow10(d.scale) - Pow10(d.scale) < d.unscaled <= r * Pow10(d.scale) <= 0
  {
    if d.scale <= 0 then d.unscaled * Pow10(-d.scale)
    else
      var p := Pow10(d.scale);
      var r := TruncDiv(d.unscaled, p);
      TruncDivBounds(d.unscaled, p);
      r
  }

  lemma TruncDivBounds(a: int, p: int)
    requires p > 0
    ensures a >= 0 ==> 0 <= TruncDiv(a, p) * p <= a < TruncDiv(a, p) * p + p
    ensures a < 0 ==> TruncDiv(a, p) * p - p < a <= TruncDiv(a, p) * p <= 0
  {
    var b := if a >= 0 then a else -a;
    var q := b / p;
    var m := b % p;
    Arith.DivModUnique(b, p, q, m);
    assert b == p * q + m;
    assert q >= 0 by {
      if q < 0 {
        Arith.MulNonNegative(p, -q - 1);
      }
    }
    Arith.MulNonNegative(q, p);
    assert q * p == p * q;
  }

  /** An integer as a decimal of scale 0 (`new BigDecimal(BigInteger)`). */
  function FromBigInteger(i: int): (r: BigDecimal)
    ensures r.scale == 0 && ToBigInteger(r) == i
  {
    BigDecimal(i, 0)
  }

  /** A positive divisor divides `u` exactly when truncating division is exact. */
  lemma TruncDivExact(u: int, p: int)
    requires p > 0
    ensures u % p == 0 <==> u == TruncDiv(u, p) * p
  {
    if u >= 0 {
      var q := u / p;
      Arith.DivModUnique(u, p, q, u % p);
      assert q * p == p * q;
    } else {
      var q := (-u) / p;
      var m := (-u) % p;
      Arith.DivModUnique(-u, p, q, m);
      assert TruncDiv(u, p) * p == -(p * q);
      if m == 0 {
        Arith.DivModUnique(u, p, -q, 0);
      } else {
        Arith.DivModUnique(u, p, -q - 1, p - m);
      }
    }
  }

  /** A decimal is integral exactly when it equals its own integer part. */
  lemma IntegralIffExact(d: BigDecimal)
    ensures Integral(d) <==> SameValue(d, FromBigInteger(ToBigInteger(d)))
  {
    if d.scale > 0 {
      var p := Pow10(d.scale);
      var i := FromBigInteger(ToBigInteger(d));
      assert Pow10(0) == 1;
      assert ScaledTo(d, d.scale) == d.unscaled;
      assert ScaledTo(i, d.scale) == TruncDiv(d.unscaled, p) * p;
      TruncDivExact(d.unscaled, p);
    } else {
      assert SameValue(BigDecimal(ToBigInteger(d), 0), d);
    }
  }

  /** Integrality is a property of the value at any common scale. */
  lemma IntegralAtScale(d: BigDecimal, k: nat)
    requires k >= d.scale
    ensures Integral(d) <==> ScaledTo(d, k) % Pow10(k) == 0
  {
    if d.scale <= 0 {
      Pow10Add(-d.scale, k);
      Arith.FactorDivisible(d.unscaled, Pow10(-d.scale), Pow10(k));
    } else {
      Pow10Add(d.scale, k - d.scale);
      Arith.ScaledDivisible(d.unscaled, Pow10(d.scale), Pow10(k - d.scale));
    }
  }

  /** Numerically equal decimals are integral together. */
  lemma IntegralRespectsValue(a: BigDecimal, b: BigDecimal)
    requires SameValue(a, b)
    ensures Integral(a) <==> Integral(b)
  {
    var k := Max(Max(a.scale, b.scale), 0);
    SameValueAt(a, b, k);
    IntegralAtScale(a, k);
    IntegralAtScale(b, k);
  }
}
