/** `JsonInteger`: an arbitrarily large integer (a `BigInteger`) in the tree.
    The fixed-width factories widen to `long` and then to `BigInteger`, so
    every factory keeps the mathematical value. */
module JsonInteger {

  import opened Wrappers
  import opened JsonModel
  import opened Decimals
  import opened Narrowing
  import DecimalText

  /** `from(BigInteger)`. */
  function FromBigInt(value: int): Json {
    JInteger(value)
  }

  /** `from(BigInteger)` keeps the value: `getAsBigInt()` returns it and
      `getAsBigDec()` is the same value at scale 0. */
  lemma FromBigIntKeepsValue(value: int)
    ensures FromBigInt(value).JInteger? && GetAsBigInt(FromBigInt(value)) == value
    ensures SameValue(GetAsBigDec(FromBigInt(value)), FromBigInteger(value))
  {
  }

  /** `from(long)`: through `BigInteger.valueOf`. */
  function FromLong(value: Int64): (e: Json)
    ensures e.JInteger? && GetAsBigInt(e) == value
  {
    FromBigInt(value)
  }

  /** `from(int)`: widened to `long` first. */
  function FromInt(value: Int32): (e: Json)
    ensures e.JInteger? && GetAsBigInt(e) == value
  {
    FromLong(value as Int64)
  }

  /** `from(short)`: widened to `long` first. */
  function FromShort(value: Int16): (e: Json)
    ensures e.JInteger? && GetAsBigInt(e) == value
  {
    FromLong(value as Int64)
  }

  /** `from(byte)`: widened to `long` first. */
  function FromByte(value: Int8): (e: Json)
    ensures e.JInteger? && GetAsBigInt(e) == value
  {
    FromLong(value as Int64)
  }

  /** `getAsBigInt()`: the stored integer; wrapping it again gives the element back. */
  function GetAsBigInt(e: Json): (r: int)
    requires e.JInteger?
    ensures FromBigInt(r) == e
  {
    e.i
  }

  /** `getAsBigDec()`: `new BigDecimal(BigInteger)`, the same value at scale 0. */
  function GetAsBigDec(e: Json): (r: BigDecimal)
    requires e.JInteger?
    ensures r.scale == 0 && ToBigInteger(r) == e.i
  {
    FromBigInteger(e.i)
  }

  /** `hasDecimalPlaces()`: an integer never has any. */
  function HasDecimalPlaces(e: Json): (r: bool)
    requires e.JInteger?
    ensures !r
    ensures r <==> !Integral(GetAsBigDec(e))
  {
    false
  }

  /** `toString()`: `BigInteger.toString(10)`, a minus sign exactly for a
      negative value, no superfluous leading zero, and reading it back gives
      the value. */
  function ToString(e: Json): (s: string)
    requires e.JInteger?
    ensures |s| >= 1 && (s[0] == '-' <==> e.i < 0)
    ensures var digits := if e.i < 0 then s[1..] else s;
            |digits| >= 1 && DecimalText.AllDigits(digits) && (|digits| > 1 ==> digits[0] != '0')
    ensures DecimalText.ParseInteger(s) == Some(e.i)
  {
    DecimalText.IntToStringRoundTrip(e.i);
    DecimalText.IntToStringNoLeadingZero(e.i);
    DecimalText.IntToString(e.i)
  }
}
