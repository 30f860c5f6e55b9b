/** Java's fixed-width signed integer types and the narrowing primitive conversion
    of section 5.1.3 of the Java Language Specification: a conversion to an
    n-bit signed integer keeps the n lowest-order bits of the two's-complement
    representation, which is the unique value of the target range congruent to
    the input modulo 2^n. */
module Narrowing {

  import Arith

  /** The widths of Java's `byte`, `short`, `int` and `long`. */
  datatype Width = W8 | W16 | W32 | W64

  /** 2^n for the width n. */
  function Modulus(w: Width): (m: int)
    ensures m >= 0x100
  {
    match w
    case W8 => 0x100
    case W16 => 0x1_0000
    case W32 => 0x1_0000_0000
    case W64 => 0x1_0000_0000_0000_0000
  }

  /** 2^(n-1): the first value that no longer fits. */
  function Half(w: Width): (h: int)
    ensures h > 0 && 2 * h == Modulus(w)
  {
    match w
    case W8 => 0x80
    case W16 => 0x8000
    case W32 => 0x8000_0000
    case W64 => 0x8000_0000_0000_0000
  }

  /** Does `x` lie in the signed range of width `w`? */
  predicate Fits(x: int, w: Width) {
    -Half(w) <= x < Half(w)
  }

  /** Java `byte`, `short`, `int`, `long` as subsets of the mathematical integers. */
  type Int8 = x: int | -0x80 <= x < 0x80
  type Int16 = x: int | -0x8000 <= x < 0x8000
  type Int32 = x: int | -0x8000_0000 <= x < 0x8000_0000
  type Int64 = x: int | -0x8000_0000_0000_0000 <= x < 0x8000_0000_0000_0000

  /** Narrowing primitive conversion of the integer `x` to width `w`. */
  function Narrow(x: int, w: Width): (r: int)
    ensures Fits(r, w)
    ensures (x - r) % Modulus(w) == 0
    ensures Fits(x, w) ==> r == x
  {
    NarrowingFacts(x, w);
    var m := x % Modulus(w);
    if m >= Half(w) then m - Modulus(w) else m
  }

  /** The arithmetic behind `Narrow`'s contract, on its defining expression. */
  lemma NarrowingFacts(x: int, w: Width)
    ensures var m := x % Modulus(w);
            var r := if m >= Half(w) then m - Modulus(w) else m;
            Fits(r, w) && (x - r) % Modulus(w) == 0 && (Fits(x, w) ==> r == x)
  {
    var bigM := Modulus(w);
    var q := x / bigM;
    var m := x % bigM;
    var r := if m >= Half(w) then m - bigM else m;
    var k := if m >= Half(w) then q + 1 else q;
    assert x == bigM * q + m;
    assert x - r == bigM * k;
    Arith.MultipleMod(bigM, k);
    if Fits(x, w) {
      if x >= 0 {
        Arith.DivModUnique(x, bigM, 0, x);
      } else {
        Arith.DivModUnique(x, bigM, -1, x + bigM);
      }
    }
  }

  /** Two values of the same signed range that agree modulo 2^n are equal:
      the narrowing result is determined by its two defining properties. */
  lemma CongruentInRangeUnique(a: int, b: int, w: Width)
    requires Fits(a, w) && Fits(b, w)
    requires (a - b) % Modulus(w) == 0
    ensures a == b
  {
    var m := Modulus(w);
    var q := (a - b) / m;
    assert a - b == m * q;
    if q >= 1 {
      Arith.MulNonNegative(m, q - 1);
    } else if q <= -1 {
      Arith.MulNonNegative(m, -q - 1);
    }
  }

  /** Narrowing is characterised by range and congruence alone. */
  lemma NarrowIsUnique(x: int, r: int, w: Width)
    requires Fits(r, w)
    requires (x - r) % Modulus(w) == 0
    ensures Narrow(x, w) == r
  {
    var n := Narrow(x, w);
    var m := Modulus(w);
    var k1 := (x - r) / m;
    var k2 := (x - n) / m;
    assert x - r == m * k1;
    assert x - n == m * k2;
    assert n - r == m * (k1 - k2);
    Arith.MultipleMod(m, k1 - k2);
    CongruentInRangeUnique(n, r, w);
  }

  /** `Modulus(narrow)` divides `Modulus(wide)` whenever `narrow` is no wider. */
  function Factor(narrow: Width, wide: Width): (k: int)
    requires Modulus(narrow) <= Modulus(wide)
    ensures k >= 1 && Modulus(wide) == k * Modulus(narrow)
  {
    Modulus(wide) / Modulus(narrow)
  }

  /** Narrowing to a wider type first and then to a narrower one is the same as
      narrowing directly: this is why `(byte) intValue()` equals `byteValue()`. */
  lemma NarrowTwice(x: int, wide: Width, narrow: Width)
    requires Modulus(narrow) <= Modulus(wide)
    ensures Narrow(Narrow(x, wide), narrow) == Narrow(x, narrow)
  {
    var y := Narrow(x, wide);
    var z := Narrow(y, narrow);
    var k := Factor(narrow, wide);
    Arith.CongruentThroughMultiple(x, y, z, Modulus(narrow), k);
    NarrowIsUnique(x, z, narrow);
  }

  /** `Number.byteValue()` as inherited by `BigInteger` and `BigDecimal`:
      `(byte) intValue()`. */
  function ByteValue(x: int): (r: Int8)
    ensures r == Narrow(x, W8)
  {
    NarrowTwice(x, W32, W8);
    Narrow(Narrow(x, W32), W8)
  }

  /** `Number.shortValue()`: `(short) intValue()`. */
  function ShortValue(x: int): (r: Int16)
    ensures r == Narrow(x, W16)
  {
    NarrowTwice(x, W32, W16);
    Narrow(Narrow(x, W32), W16)
  }

  /** `BigInteger.intValue()`: the low-order 32 bits. */
  function IntValue(x: int): (r: Int32)
    ensures Fits(r, W32) && (x - r) % 0x1_0000_0000 == 0
  {
    Narrow(x, W32)
  }

  /** `BigInteger.longValue()`: the low-order 64 bits. */
  function LongValue(x: int): (r: Int64)
    ensures Fits(r, W64) && (x - r) % 0x1_0000_0000_0000_0000 == 0
  {
    Narrow(x, W64)
  }
}
