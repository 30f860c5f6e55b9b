/** `JsonNumber`: the common part of integer and decimal elements. The wrapped
    value is a `BigInteger` or a `BigDecimal`; the fixed-width getters are
    Java's `Number.xxxValue()` on it, i.e. the narrowing primitive conversion of
    section 5.1.3 of the Java Language Specification applied to its integer
    part. */
module JsonNumber {

  import opened Wrappers
  import opened JsonModel
  import opened Decimals
  import opened Narrowing
  import JsonInteger
  import JsonDecimal

  /** A boxed `java.lang.Number` handed to `from`, restricted to the kinds the
      model covers. */
  datatype Boxed =
    | BoxedByte(b: Int8)
    | BoxedShort(s: Int16)
    | BoxedInteger(n: Int32)
    | BoxedLong(l: Int64)
    | BoxedBigInteger(big: int)
    | BoxedBigDecimal(dec: BigDecimal)

  /** The value a number element wraps, as `getAsNumber()` hands it out. */
  datatype Number = BigIntegerValue(i: int) | BigDecimalValue(d: BigDecimal)

  /** `from(Number)`: every integer kind becomes the integer element of the same
      value, a `BigDecimal` becomes the decimal element of the same value and scale. */
  function From(value: Boxed): (e: Json)
    ensures e.IsNumber()
    ensures e.JDecimal? <==> value.BoxedBigDecimal?
    ensures GetAsNumber(e) == Unbox(value)
  {
    match value
    case BoxedByte(b) => JsonInteger.FromByte(b)
    case BoxedShort(s) => JsonInteger.FromShort(s)
    case BoxedInteger(n) => JsonInteger.FromInt(n)
    case BoxedLong(l) => JsonInteger.FromLong(l)
    case BoxedBigInteger(big) => JsonInteger.FromBigInt(big)
    case BoxedBigDecimal(dec) => JsonDecimal.From(dec)
  }

  /** The mathematical value of a boxed number, widened to `BigInteger` for the
      integer kinds. */
  function Unbox(value: Boxed): Number {
    match value
    case BoxedByte(b) => BigIntegerValue(b)
    case BoxedShort(s) => BigIntegerValue(s)
    case BoxedInteger(n) => BigIntegerValue(n)
    case BoxedLong(l) => BigIntegerValue(l)
    case BoxedBigInteger(big) => BigIntegerValue(big)
    case BoxedBigDecimal(dec) => BigDecimalValue(dec)
  }

  /** The number element holding a given value (`JsonInteger.from(BigInteger)` or
      `JsonDecimal.from(BigDecimal)`). */
  function FromNumber(n: Number): Json {
    match n
    case BigIntegerValue(i) => JsonInteger.FromBigInt(i)
    case BigDecimalValue(d) => JsonDecimal.From(d)
  }

  /** `getAsNumber()`: the wrapped value unchanged. */
  function GetAsNumber(e: Json): (n: Number)
    requires e.IsNumber()
    ensures FromNumber(n) == e
  {
    if e.JInteger? then BigIntegerValue(e.i) else BigDecimalValue(e.d)
  }

  /** What `from` of an integer kind produces is `JsonInteger.from` of the same
      value, and `from` of a `BigDecimal` is `JsonDecimal.from` of it. */
  lemma FromAgreesWithSubclasses(value: Boxed)
    ensures value.BoxedBigInteger? ==> From(value) == JsonInteger.FromBigInt(value.big)
    ensures value.BoxedLong? ==> From(value) == JsonInteger.FromBigInt(value.l)
    ensures value.BoxedInteger? ==> From(value) == JsonInteger.FromBigInt(value.n)
    ensures value.BoxedShort? ==> From(value) == JsonInteger.FromBigInt(value.s)
    ensures value.BoxedByte? ==> From(value) == JsonInteger.FromBigInt(value.b)
    ensures value.BoxedBigDecimal? ==> From(value) == JsonDecimal.From(value.dec)
  {
  }

  // ---- Number.xxxValue() ----

  /** The integer part: the `BigInteger` itself, or `BigDecimal.toBigInteger()`,
      which drops the fraction (rounding toward zero). */
  function IntegerPart(n: Number): int {
    match n
    case BigIntegerValue(i) => i
    case BigDecimalValue(d) => ToBigInteger(d)
  }

  /** `intValue()`: the low 32 bits of the integer part, as a signed value. */
  function NumberIntValue(n: Number): (r: Int32)
    ensures r == Narrow(IntegerPart(n), W32)
  {
    var r := IntValue(IntegerPart(n));
    NarrowIsUnique(IntegerPart(n), r, W32);
    r
  }

  /** `longValue()`: the low 64 bits of the integer part, as a signed value. */
  function NumberLongValue(n: Number): (r: Int64)
    ensures r == Narrow(IntegerPart(n), W64)
  {
    var r := LongValue(IntegerPart(n));
    NarrowIsUnique(IntegerPart(n), r, W64);
    r
  }

  /** `byteValue()`: `Number`'s default `(byte) intValue()`; it is the direct
      narrowing of the integer part to 8 bits. */
  function NumberByteValue(n: Number): (r: Int8)
    ensures r == Narrow(IntegerPart(n), W8)
  {
    NarrowTwice(IntegerPart(n), W32, W8);
    ByteValue(NumberIntValue(n))
  }

  /** `shortValue()`: `Number`'s default `(short) intValue()`; it is the direct
      narrowing of the integer part to 16 bits. */
  function NumberShortValue(n: Number): (r: Int16)
    ensures r == Narrow(IntegerPart(n), W16)
  {
    NarrowTwice(IntegerPart(n), W32, W16);
    ShortValue(NumberIntValue(n))
  }

  // ---- the getters of JsonNumber ----

  /** `getAsByte()`: within the signed 8-bit range and congruent to the integer
      part modulo 2^8. */
  function GetAsByte(e: Json): (r: Int8)
    requires e.IsNumber()
    ensures (IntegerPart(GetAsNumber(e)) - r) % 0x100 == 0
  {
    NumberByteValue(GetAsNumber(e))
  }

  /** `getAsShort()`: within the signed 16-bit range and congruent to the integer
      part modulo 2^16. */
  function GetAsShort(e: Json): (r: Int16)
    requires e.IsNumber()
    ensures (IntegerPart(GetAsNumber(e)) - r) % 0x1_0000 == 0
  {
    NumberShortValue(GetAsNumber(e))
  }

  /** `getAsInt()`: within the signed 32-bit range and congruent to the integer
      part modulo 2^32. */
  function GetAsInt(e: Json): (r: Int32)
    requires e.IsNumber()
    ensures (IntegerPart(GetAsNumber(e)) - r) % 0x1_0000_0000 == 0
  {
    NumberIntValue(GetAsNumber(e))
  }

  /** `getAsLong()`: within the signed 64-bit range and congruent to the integer
      part modulo 2^64. */
  function GetAsLong(e: Json): (r: Int64)
    requires e.IsNumber()
    ensures (IntegerPart(GetAsNumber(e)) - r) % 0x1_0000_0000_0000_0000 == 0
  {
    NumberLongValue(GetAsNumber(e))
  }

  /** The narrowed value for one of the four widths. */
  function GetNarrowed(e: Json, w: Width): (r: int)
    requires e.IsNumber()
    ensures r == Narrow(IntegerPart(GetAsNumber(e)), w)
  {
    match w
    case W8 => GetAsByte(e)
    case W16 => GetAsShort(e)
    case W32 => GetAsInt(e)
    case W64 => GetAsLong(e)
  }

  /** A value that already fits the target type comes back unchanged. */
  lemma NarrowInRange(e: Json, w: Width)
    requires e.IsNumber()
    requires Fits(IntegerPart(GetAsNumber(e)), w)
    ensures GetNarrowed(e, w) == IntegerPart(GetAsNumber(e))
  {
  }

  /** Widening a fixed-width value with `JsonInteger.from` and narrowing back to
      the same width returns the original value. */
  lemma WidenThenNarrow(b: Int8, s: Int16, n: Int32, l: Int64)
    ensures GetAsByte(JsonInteger.FromByte(b)) == b
    ensures GetAsShort(JsonInteger.FromShort(s)) == s
    ensures GetAsInt(JsonInteger.FromInt(n)) == n
    ensures GetAsLong(JsonInteger.FromLong(l)) == l
  {
  }

  /** A decimal is truncated toward zero before it is narrowed: 2.9 and -2.9
      give 2 and -2. */
  lemma DecimalTruncatedFirst()
    ensures GetAsInt(JsonDecimal.From(BigDecimal(29, 1))) == 2
    ensures GetAsInt(JsonDecimal.From(BigDecimal(-29, 1))) == -2
  {
    assert Pow10(1) == 10;
  }

  /** `getAsBigInt()`: the integer itself or the truncated decimal. */
  function GetAsBigInt(e: Json): (r: int)
    requires e.IsNumber()
    ensures r == IntegerPart(GetAsNumber(e))
  {
    if e.JInteger? then JsonInteger.GetAsBigInt(e) else JsonDecimal.GetAsBigInt(e)
  }

  /** `getAsBigDec()`: numerically the wrapped value. */
  function GetAsBigDec(e: Json): (r: BigDecimal)
    requires e.IsNumber()
    ensures e.JInteger? ==> r.scale == 0 && ToBigInteger(r) == e.i
    ensures e.JDecimal? ==> r == e.d
  {
    if e.JInteger? then JsonInteger.GetAsBigDec(e) else JsonDecimal.GetAsBigDec(e)
  }

  /** `hasDecimalPlaces()`: whether the value has a non-zero fraction. */
  function HasDecimalPlaces(e: Json): (r: bool)
    requires e.IsNumber()
    ensures r <==> !Integral(GetAsBigDec(e))
    ensures e.JInteger? ==> !r
  {
    if e.JInteger? then JsonInteger.HasDecimalPlaces(e) else JsonDecimal.HasDecimalPlaces(e)
  }
}
