/** `JsonDecimal`: a `BigDecimal` in the tree. The class itself only has the
    factories and the plain rendering; the `JsonNumber` getters it inherits as
    abstract methods follow the contracts documented there: `getAsBigInt`
    truncates (`toBigInteger()`), `getAsBigDec` is the value itself and
    `hasDecimalPlaces` tells whether a non-zero digit follows the point. */
module JsonDecimal {

  import opened Wrappers
  import opened JsonModel
  import opened Decimals
  import BigDecimalHelper
  import DecimalText

  /** `from(BigDecimal)`: the value is stored as it is, scale included. */
  function From(value: BigDecimal): Json {
    JDecimal(value)
  }

  /** `from` keeps the value as it is: `getAsBigDec()` returns it, scale
      included, and `getAsBigInt()` is its integer part. */
  lemma FromKeepsValue(value: BigDecimal)
    ensures From(value).JDecimal? && GetAsBigDec(From(value)) == value
    ensures GetAsBigInt(From(value)) == ToBigInteger(value)
  {
  }

  /** `getAsBigInt()`: `toBigInteger()`, rounding toward zero. */
  function GetAsBigInt(e: Json): (r: int)
    requires e.JDecimal?
    ensures e.d.scale <= 0 ==> SameValue(FromBigInteger(r), e.d)
    ensures e.d.scale > 0 && e.d.unscaled >= 0 ==>
              0 <= r * Pow10(e.d.scale) <= e.d.unscaled < (r + 1) * Pow10(e.d.scale)
    ensures e.d.scale > 0 && e.d.unscaled < 0 ==>
              (r - 1) * Pow10(e.d.scale) < e.d.unscaled <= r * Pow10(e.d.scale) <= 0
  {
    ToBigInteger(e.d)
  }

  /** `getAsBigDec()`: the stored value; wrapping it again gives the element back. */
  function GetAsBigDec(e: Json): (r: BigDecimal)
    requires e.JDecimal?
    ensures From(r) == e
  {
    e.d
  }

  /** `hasDecimalPlaces()`: a non-zero digit follows the point, i.e. the value
      is not an integer in the sense of `BigDecimalHelper.isInteger`. */
  function HasDecimalPlaces(e: Json): (r: bool)
    requires e.JDecimal?
    ensures r <==> !Integral(e.d)
    ensures r <==> !SameValue(e.d, FromBigInteger(GetAsBigInt(e)))
  {
    BigDecimalHelper.IsIntegerIffExact(e.d);
    !BigDecimalHelper.IsInteger(e.d)
  }

  /** `toString()`: `toPlainString()`, digits with at most a leading minus and
      one point, never an exponent; reading it back gives the value (at scale
      0 when the scale was negative). */
  function ToString(e: Json): (s: string)
    requires e.JDecimal?
    ensures |s| >= 1 && (s[0] == '-' <==> e.d.unscaled < 0)
    ensures forall i | 0 <= i < |s| :: DecimalText.IsDigit(s[i]) || s[i] == '-' || s[i] == '.'
    ensures DecimalText.WholeWithoutLeadingZero(if e.d.unscaled < 0 then s[1..] else s)
    ensures DecimalText.ParsePlain(s) == Some(DecimalText.PlainNormal(e.d))
    ensures e.d.scale >= 0 ==> DecimalText.ParsePlain(s) == Some(e.d)
  {
    DecimalText.PlainStringRoundTrip(e.d);
    DecimalText.PlainString(e.d)
  }

  /** Decimal elements are equal exactly when unscaled value and scale agree:
      2.0 and 2.00 are different elements although numerically equal. */
  lemma EqualIffSameRepresentation(a: BigDecimal, b: BigDecimal)
    ensures Equal(From(a), From(b)) <==> a == b
    ensures !Equal(From(BigDecimal(20, 1)), From(BigDecimal(200, 2)))
    ensures SameValue(BigDecimal(20, 1), BigDecimal(200, 2))
  {
    assert Pow10(1) == 10;
  }

  /** A decimal element is never equal to an integer element or to null. */
  lemma NeverEqualOtherKinds(a: BigDecimal, i: int)
    ensures !Equal(From(a), JInteger(i)) && !Equal(JInteger(i), From(a))
    ensures !Equals(From(a), None) && !Equal(From(a), JNull)
  {
  }
}
