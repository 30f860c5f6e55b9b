/** Small facts about Euclidean division that the decimal and narrowing models
    rely on. Dafny's `/` and `%` are Euclidean; all divisors used here are
    positive, where Euclidean and truncating division agree on non-negative
    dividends. */
module Arith {

  /** A product of non-negative numbers is non-negative. */
  lemma MulNonNegative(a: int, b: int)
    requires a >= 0 && b >= 0
    ensures a * b >= 0
  {
  }

  /** A product of positive numbers is positive. */
  lemma MulPositive(a: int, b: int)
    requires a > 0 && b > 0
    ensures a * b > 0
  {
    MulNonNegative(a - 1, b);
    assert a * b == (a - 1) * b + b;
  }

  /** Quotient and remainder are determined by the division identity. */
  lemma DivModUnique(x: int, m: int, q: int, r: int)
    requires m > 0
    requires x == m * q + r
    requires 0 <= r < m
    ensures x / m == q && x % m == r
  {
    var q' := x / m;
    var r' := x % m;
    assert x == m * q' + r';
    assert m * (q - q') == r' - r;
    if q - q' >= 1 {
      MulNonNegative(m, q - q' - 1);
    } else if q' - q >= 1 {
      MulNonNegative(m, q' - q - 1);
    }
  }

  /** A multiple of `m` leaves no remainder. */
  lemma MultipleMod(m: int, t: int)
    requires m > 0
    ensures (m * t) % m == 0 && (m * t) / m == t
  {
    DivModUnique(m * t, m, t, 0);
  }

  /** Divisibility passes from a multiple of `m` down to `m`. */
  lemma ModFactor(x: int, m: int, k: int)
    requires m > 0 && k > 0
    requires x % (k * m) == 0
    ensures x % m == 0
  {
    var q := x / (k * m);
    assert x == (k * m) * q;
    assert x == m * (k * q);
    MultipleMod(m, k * q);
  }

  /** Scaling dividend and divisor by the same positive factor scales the
      remainder and keeps the quotient. */
  lemma ModScale(a: int, p: int, s: int)
    requires p > 0 && s > 0
    ensures (a * s) % (p * s) == (a % p) * s
    ensures (a * s) / (p * s) == a / p
  {
    var q := a / p;
    var r := a % p;
    assert a == p * q + r;
    assert a * s == (p * s) * q + r * s;
    MulNonNegative(r, s);
    MulNonNegative(p - 1 - r, s);
    assert (p - 1 - r) * s == p * s - r * s - s;
    DivModUnique(a * s, p * s, q, r * s);
  }

  /** Scaling by a positive factor preserves (non-)divisibility. */
  lemma ScaledDivisible(a: int, p: int, s: int)
    requires p > 0 && s > 0
    ensures (a * s) % (p * s) == 0 <==> a % p == 0
  {
    ModScale(a, p, s);
    if a % p != 0 {
      MulPositive(a % p, s);
    }
  }

  /** A number with `y` as a factor is divisible by `y`. */
  lemma FactorDivisible(u: int, x: int, y: int)
    requires y > 0
    ensures (u * (x * y)) % y == 0
  {
    assert u * (x * y) == y * (u * x);
    MultipleMod(y, u * x);
  }

  /** Congruence modulo `m` passes through a congruence modulo a multiple of `m`. */
  lemma CongruentThroughMultiple(x: int, y: int, z: int, m: int, k: int)
    requires m > 0 && k > 0
    requires (x - y) % (k * m) == 0
    requires (y - z) % m == 0
    ensures (x - z) % m == 0
  {
    ModFactor(x - y, m, k);
    var a := (x - y) / m;
    var b := (y - z) / m;
    assert x - y == m * a;
    assert y - z == m * b;
    assert x - z == m * (a + b);
    MultipleMod(m, a + b);
  }

  /** Appending one digit `v` to a number `a`·`x` + `b` multiplies by ten. */
  lemma ShiftDigit(a: int, x: int, b: int, v: int)
    ensures (a * x + b) * 10 + v == a * (10 * x) + (b * 10 + v)
  {
  }
}
