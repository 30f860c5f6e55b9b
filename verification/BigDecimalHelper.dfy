/** `util.BigDecimalHelper`: the integrality test on `BigDecimal`. */
module BigDecimalHelper {

  import Arith
  import opened Decimals

  /** `isInteger`: zero, a non-positive scale, or a scale that stripping
      trailing zeros brings to at most zero. The contract says what this
      amounts to: the decimal has no non-zero digit after the point. */
  function IsInteger(bd: BigDecimal): (r: bool)
    ensures r <==> Integral(bd)
  {
    IsIntegerTest(bd);
    Signum(bd) == 0 || bd.scale <= 0 || StripTrailingZeros(bd).scale <= 0
  }

  /** The three tests of `isInteger` together decide integrality. */
  lemma IsIntegerTest(bd: BigDecimal)
    ensures Signum(bd) == 0 || bd.scale <= 0 || StripTrailingZeros(bd).scale <= 0 <==> Integral(bd)
  {
    if bd.unscaled == 0 {
      if bd.scale > 0 {
        assert 0 % Pow10(bd.scale) == 0;
      }
    } else if bd.scale > 0 {
      StripScaleIntegral(bd);
    }
  }

  /** Stripping trailing zeros of a non-zero decimal reaches a non-positive
      scale exactly when its unscaled value is divisible by 10^scale. */
  lemma {:induction false} StripScaleIntegral(d: BigDecimal)
    ensures d.unscaled != 0 ==> (StripTrailingZeros(d).scale <= 0 <==> Integral(d))
    decreases Abs(d.unscaled)
  {
    var u := d.unscaled;
    var s := d.scale;
    if u == 0 {
    } else if u % 10 != 0 {
      assert StripTrailingZeros(d) == d;
      if s > 0 && u % Pow10(s) == 0 {
        Arith.ModFactor(u, 10, Pow10(s - 1));
      }
    } else {
      var d' := BigDecimal(u / 10, s - 1);
      assert StripTrailingZeros(d) == StripTrailingZeros(d');
      StripScaleIntegral(d');
      if s >= 2 {
        assert u == (u / 10) * 10;
        assert Pow10(s) == Pow10(s - 1) * 10;
        Arith.ScaledDivisible(u / 10, Pow10(s - 1), 10);
      }
    }
  }

  /** The answer depends only on the numeric value: 5.00 and 5 agree. */
  lemma IsIntegerRespectsValue(a: BigDecimal, b: BigDecimal)
    requires SameValue(a, b)
    ensures IsInteger(a) == IsInteger(b)
  {
    IntegralRespectsValue(a, b);
  }

  /** Integral exactly when equal to the integer part `toBigInteger()`. */
  lemma IsIntegerIffExact(bd: BigDecimal)
    ensures IsInteger(bd) <==> SameValue(bd, FromBigInteger(ToBigInteger(bd)))
  {
    IntegralIffExact(bd);
  }

  /** The helper's own test cases: 5 is integral, 5.44 is not, and 5.00 is. */
  lemma IsIntegerExamples()
    ensures IsInteger(BigDecimal(5, 0))
    ensures !IsInteger(BigDecimal(544, 2))
    ensures IsInteger(BigDecimal(500, 2))
  {
    assert Pow10(2) == 100;
  }
}
