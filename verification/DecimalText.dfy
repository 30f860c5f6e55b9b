/** Base-10 text of numbers as the Java library writes and reads it:
    `BigInteger.toString(10)`, `BigDecimal.toPlainString()`,
    `Integer.parseInt` and the plain-notation subset of `new BigDecimal(String)`.
    Only the ASCII digits '0'..'9' are modelled. */
module DecimalText {

  import opened Wrappers
  import opened Decimals
  import Narrowing
  import Arith

  predicate IsDigit(c: char) {
    '0' <= c <= '9'
  }

  predicate AllDigits(s: string) {
    forall i | 0 <= i < |s| :: IsDigit(s[i])
  }

  function DigitChar(d: nat): (c: char)
    requires d < 10
    ensures IsDigit(c)
  {
    (48 + d) as char
  }

  function DigitValue(c: char): (d: nat)
    requires IsDigit(c)
    ensures d < 10 && DigitChar(d) == c
  {
    (c as int) - 48
  }

  /** The value of a string of decimal digits; leading zeros are allowed. */
  function ParseDigits(s: string): nat
    requires AllDigits(s)
  {
    if s == [] then 0
    else ParseDigits(s[..|s| - 1]) * 10 + DigitValue(s[|s| - 1])
  }

  /** `n` written in base 10: at least one digit, no leading zero, and reading
      it back gives `n`. */
  function NatToString(n: nat): (s: string)
    ensures |s| >= 1 && AllDigits(s)
    ensures |s| > 1 ==> s[0] != '0'
    ensures ParseDigits(s) == n
    decreases n
  {
    if n < 10 then [DigitChar(n)]
    else
      var prefix := NatToString(n / 10);
      var s := prefix + [DigitChar(n % 10)];
      assert s[..|s| - 1] == prefix;
      s
  }

  /** `BigInteger.toString(10)`. */
  function IntToString(i: int): (s: string)
    ensures |s| >= 1
    ensures s[0] == '-' <==> i < 0
    ensures AllDigits(if i < 0 then s[1..] else s)
  {
    if i < 0 then "-" + NatToString(-i) else NatToString(i)
  }

  /** A signed integer literal: an optional '+' or '-' followed by at least one
      digit (the syntax `new BigInteger(String)` and `Integer.parseInt` accept). */
  function ParseInteger(s: string): (r: Option<int>)
    ensures r.Some? ==> |s| >= 1
  {
    if |s| >= 2 && (s[0] == '-' || s[0] == '+') && AllDigits(s[1..]) then
      var magnitude: int := ParseDigits(s[1..]);
      Some(if s[0] == '-' then -magnitude else magnitude)
    else if |s| >= 1 && AllDigits(s) then Some(ParseDigits(s))
    else None
  }

  /** Base-10 rendering round-trips through the integer reader. */
  lemma IntToStringRoundTrip(i: int)
    ensures ParseInteger(IntToString(i)) == Some(i)
  {
    var s := IntToString(i);
    if i < 0 {
      assert s[1..] == NatToString(-i);
    } else {
      assert !IsDigit('-');
    }
  }

  /** A rendered integer never has a superfluous leading zero. */
  lemma IntToStringNoLeadingZero(i: int)
    ensures var s := IntToString(i);
            var digits := if i < 0 then s[1..] else s;
            |digits| >= 1 && (|digits| > 1 ==> digits[0] != '0')
  {
    if i < 0 {
      assert IntToString(i)[1..] == NatToString(-i);
    }
  }

  /** `Integer.parseInt(s)`: an integer literal whose value fits 32 bits;
      anything else is a `NumberFormatException` (here `None`). */
  function ParseInt(s: string): (r: Option<Narrowing.Int32>)
    ensures r.Some? <==> ParseInteger(s).Some? && Narrowing.Fits(ParseInteger(s).value, Narrowing.W32)
    ensures r.Some? ==> r.value == ParseInteger(s).value
  {
    match ParseInteger(s)
    case Some(v) => if -0x8000_0000 <= v < 0x8000_0000 then Some(v) else None
    case None => None
  }

  // ---- plain decimal notation ----

  function Zeros(n: nat): (s: string)
    ensures |s| == n && AllDigits(s)
  {
    if n == 0 then "" else Zeros(n - 1) + "0"
  }

  lemma {:induction false} ParseDigitsAppend(a: string, b: string)
    requires AllDigits(a) && AllDigits(b)
    ensures AllDigits(a + b)
    ensures ParseDigits(a + b) == ParseDigits(a) * Pow10(|b|) + ParseDigits(b)
    decreases |b|
  {
    if b != [] {
      var b' := b[..|b| - 1];
      var c := b[|b| - 1];
      assert (a + b)[..|a + b| - 1] == a + b';
      assert (a + b)[|a + b| - 1] == c;
      assert ParseDigits(a + b) == ParseDigits(a + b') * 10 + DigitValue(c);
      assert ParseDigits(b) == ParseDigits(b') * 10 + DigitValue(c);
      ParseDigitsAppend(a, b');
      assert Pow10(|b|) == 10 * Pow10(|b'|);
      Arith.ShiftDigit(ParseDigits(a), Pow10(|b'|), ParseDigits(b'), DigitValue(c));
    } else {
      assert a + b == a;
    }
  }

  lemma {:induction false} ZerosValue(n: nat)
    ensures ParseDigits(Zeros(n)) == 0
  {
    if n > 0 {
      assert Zeros(n)[..n - 1] == Zeros(n - 1);
      ZerosValue(n - 1);
    }
  }

  /** Leading zeros do not change the value of a digit string. */
  lemma LeadingZeros(n: nat, s: string)
    requires AllDigits(s)
    ensures AllDigits(Zeros(n) + s) && ParseDigits(Zeros(n) + s) == ParseDigits(s)
  {
    ParseDigitsAppend(Zeros(n), s);
    ZerosValue(n);
  }

  /** Position of the first `c` in `s`, or `|s|` when there is none. */
  function IndexOf(s: string, c: char): (k: nat)
    ensures k <= |s|
    ensures k < |s| ==> s[k] == c
    ensures forall j | 0 <= j < k :: s[j] != c
  {
    if s == [] then 0
    else if s[0] == c then 0
    else 1 + IndexOf(s[1..], c)
  }

  /** The digits of `|unscaled|` with the point inserted `scale` places from
      the right, padded with "0." and zeros when there are too few digits. */
  function PointedDigits(digits: string, scale: int): string
    requires scale > 0
  {
    var point := |digits| - scale;
    if point == 0 then "0" + "." + digits
    else if point > 0 then digits[..point] + "." + digits[point..]
    else "0" + "." + (Zeros(-point) + digits)
  }

  /** The unsigned part of `toPlainString()`. A non-positive scale appends
      zeros (zero itself is "0"); a positive scale inserts the point. */
  function PlainMagnitude(d: BigDecimal): string {
    var digits := NatToString(Abs(d.unscaled));
    if d.scale <= 0 then
      if d.unscaled == 0 then "0" else digits + Zeros(-d.scale)
    else PointedDigits(digits, d.scale)
  }

  /** The digits before the point (all of them when there is no point) are
      a single digit or start with a non-zero one. */
  predicate WholeWithoutLeadingZero(m: string) {
    var whole := m[..IndexOf(m, '.')];
    |whole| >= 1 && (|whole| > 1 ==> whole[0] != '0')
  }

  /** `BigDecimal.toPlainString()`: the value without an exponent, a minus
      sign exactly for a negative unscaled value, and no superfluous leading
      zero before the point. */
  function PlainString(d: BigDecimal): (s: string)
    ensures |s| >= 1
    ensures forall i | 0 <= i < |s| :: IsDigit(s[i]) || s[i] == '-' || s[i] == '.'
    ensures s[0] == '-' <==> d.unscaled < 0
    ensures WholeWithoutLeadingZero(if d.unscaled < 0 then s[1..] else s)
  {
    PlainMagnitudeShape(d);
    PlainMagnitudeWhole(d);
    var s := (if d.unscaled < 0 then "-" else "") + PlainMagnitude(d);
    assert (if d.unscaled < 0 then s[1..] else s) == PlainMagnitude(d);
    s
  }

  /** A non-zero value's digits do not start with '0'. */
  lemma NonZeroLeadingDigit(n: nat)
    requires n != 0
    ensures NatToString(n)[0] != '0'
  {
    var s := NatToString(n);
    if |s| == 1 {
      assert s == [s[0]];
    }
  }

  /** In a string of digits alone, the point search runs to the end. */
  lemma NoPoint(s: string)
    requires AllDigits(s)
    ensures IndexOf(s, '.') == |s|
  {
  }

  /** The unsigned part of `toPlainString()` has no superfluous leading zero
      before the point. */
  lemma PlainMagnitudeWhole(d: BigDecimal)
    ensures WholeWithoutLeadingZero(PlainMagnitude(d))
  {
    var digits := NatToString(Abs(d.unscaled));
    var m := PlainMagnitude(d);
    if d.scale <= 0 {
      if d.unscaled == 0 {
        assert m == "0";
        NoPoint(m);
      } else {
        var z := Zeros(-d.scale);
        assert AllDigits(digits + z);
        NoPoint(digits + z);
        NonZeroLeadingDigit(Abs(d.unscaled));
        assert m[..|m|] == m;
        assert m[0] == digits[0];
      }
    } else {
      var point := |digits| - d.scale;
      if point > 0 {
        assert m == digits[..point] + "." + digits[point..];
        assert AllDigits(digits[..point]);
        assert IndexOf(m, '.') == point by {
          assert m[point] == '.';
          assert forall j | 0 <= j < point :: m[j] == digits[j];
        }
        assert m[..point] == digits[..point];
        if point > 1 {
          NonZeroLeadingDigit(Abs(d.unscaled));
        }
      } else {
        assert m[0] == '0' && m[1] == '.';
        assert IndexOf(m, '.') == 1;
      }
    }
  }

  lemma PlainMagnitudeShape(d: BigDecimal)
    ensures var m := PlainMagnitude(d);
            |m| >= 1 && IsDigit(m[0]) && forall i | 0 <= i < |m| :: IsDigit(m[i]) || m[i] == '.'
  {
    var digits := NatToString(Abs(d.unscaled));
    if d.scale <= 0 && d.unscaled != 0 {
      assert AllDigits(digits + Zeros(-d.scale));
    }
  }

  /** Reads unsigned plain notation: digits, optionally followed by a point and
      at least one digit. The scale is the number of digits after the point. */
  function ParseUnsignedPlain(s: string): Option<BigDecimal> {
    var k := IndexOf(s, '.');
    if k == |s| then
      if |s| >= 1 && AllDigits(s) then Some(BigDecimal(ParseDigits(s), 0)) else None
    else
      var whole := s[..k];
      var fraction := s[k + 1..];
      if |whole| >= 1 && |fraction| >= 1 && AllDigits(whole) && AllDigits(fraction) then
        Some(BigDecimal(ParseDigits(whole + fraction), |fraction|))
      else None
  }

  /** Reads plain decimal notation with an optional leading minus sign, as
      `new BigDecimal(String)` does for such input. */
  function ParsePlain(s: string): Option<BigDecimal> {
    if |s| >= 1 && s[0] == '-' then
      match ParseUnsignedPlain(s[1..])
      case Some(d) => Some(BigDecimal(-d.unscaled, d.scale))
      case None => None
    else ParseUnsignedPlain(s)
  }

  /** What reading a plain string gives back: the decimal itself for a
      non-negative scale, the same value at scale 0 for a negative one. */
  function PlainNormal(d: BigDecimal): (r: BigDecimal)
    ensures SameValue(r, d)
    ensures r.scale >= 0
  {
    if d.scale < 0 then
      assert Pow10(0) == 1;
      BigDecimal(d.unscaled * Pow10(-d.scale), 0)
    else d
  }

  lemma UnsignedDigitsParse(digits: string)
    requires |digits| >= 1 && AllDigits(digits)
    ensures ParseUnsignedPlain(digits) == Some(BigDecimal(ParseDigits(digits), 0))
  {
    assert !IsDigit('.');
    assert IndexOf(digits, '.') == |digits|;
  }

  lemma UnsignedPointParse(s: string, whole: string, fraction: string)
    requires s == whole + "." + fraction
    requires |whole| >= 1 && |fraction| >= 1 && AllDigits(whole) && AllDigits(fraction)
    ensures ParseUnsignedPlain(s) == Some(BigDecimal(ParseDigits(whole + fraction), |fraction|))
  {
    assert !IsDigit('.');
    assert IndexOf(s, '.') == |whole| by {
      assert forall j | 0 <= j < |whole| :: s[j] == whole[j];
      assert s[|whole|] == '.';
    }
    assert s[..|whole|] == whole;
    assert s[|whole| + 1..] == fraction;
  }

  lemma PointAtStart(s: string, digits: string)
    requires |digits| >= 1 && AllDigits(digits)
    requires s == "0" + "." + digits
    ensures ParseUnsignedPlain(s) == Some(BigDecimal(ParseDigits(digits), |digits|))
  {
    LeadingZeros(1, digits);
    assert Zeros(1) == "0";
    UnsignedPointParse(s, "0", digits);
    assert ParseDigits("0" + digits) == ParseDigits(digits);
  }

  lemma SplitDigits(digits: string, point: nat)
    requires point <= |digits| && AllDigits(digits)
    ensures AllDigits(digits[..point]) && AllDigits(digits[point..])
    ensures digits[..point] + digits[point..] == digits
  {
  }

  lemma PointInside(s: string, digits: string, point: nat)
    requires 0 < point < |digits| && AllDigits(digits)
    requires s == digits[..point] + "." + digits[point..]
    ensures ParseUnsignedPlain(s) == Some(BigDecimal(ParseDigits(digits), |digits| - point))
  {
    var whole, fraction := digits[..point], digits[point..];
    SplitDigits(digits, point);
    assert whole + fraction == digits && |fraction| == |digits| - point;
    UnsignedPointParse(s, whole, fraction);
  }

  lemma PointBefore(s: string, fraction: string, digits: string, z: nat)
    requires z > 0 && |digits| >= 1 && AllDigits(digits)
    requires fraction == Zeros(z) + digits
    requires s == "0" + "." + fraction
    ensures ParseUnsignedPlain(s) == Some(BigDecimal(ParseDigits(digits), |fraction|))
  {
    LeadingZeros(z, digits);
    LeadingZeros(1, fraction);
    assert Zeros(1) == "0";
    UnsignedPointParse(s, "0", fraction);
    assert ParseDigits("0" + fraction) == ParseDigits(digits);
  }

  /** Digits followed by `z` zeros read back as the digits' value times 10^z. */
  lemma ZerosAppendedParse(s: string, digits: string, z: nat)
    requires |digits| >= 1 && AllDigits(digits)
    requires s == digits + Zeros(z)
    ensures ParseUnsignedPlain(s) == Some(BigDecimal(ParseDigits(digits) * Pow10(z), 0))
  {
    ParseDigitsAppend(digits, Zeros(z));
    ZerosValue(z);
    UnsignedDigitsParse(s);
    assert ParseDigits(s) == ParseDigits(digits) * Pow10(z);
  }

  lemma AbsScaled(u: int, p: int)
    requires p >= 1
    ensures Abs(u) * p == Abs(u * p)
  {
    if u < 0 {
      Arith.MulPositive(-u, p);
      assert (-u) * p == -(u * p);
    } else {
      Arith.MulNonNegative(u, p);
    }
  }

  /** Reading back the unsigned part gives the magnitude, at scale 0 when the
      scale was negative. */
  lemma MagnitudeRoundTrip(d: BigDecimal)
    ensures ParseUnsignedPlain(PlainMagnitude(d))
            == Some(BigDecimal(Abs(PlainNormal(d).unscaled), PlainNormal(d).scale))
  {
    var u := d.unscaled;
    var digits := NatToString(Abs(u));
    var s := PlainMagnitude(d);
    if d.scale <= 0 {
      if u == 0 {
        UnsignedDigitsParse("0");
        assert ParseDigits("0") == 0;
      } else {
        ZerosAppendedParse(s, digits, -d.scale);
        AbsScaled(u, Pow10(-d.scale));
        assert PlainNormal(d) == BigDecimal(u * Pow10(-d.scale), 0);
      }
    } else {
      var point := |digits| - d.scale;
      if point == 0 {
        PointAtStart(s, digits);
      } else if point > 0 {
        PointInside(s, digits, point);
      } else {
        PointBefore(s, Zeros(-point) + digits, digits, -point);
      }
      assert PlainNormal(d) == d;
    }
  }

  /** A leading minus sign negates what the unsigned reader gives. */
  lemma SignedParse(body: string, m: BigDecimal)
    requires |body| >= 1 && body[0] != '-'
    requires ParseUnsignedPlain(body) == Some(m)
    ensures ParsePlain(body) == Some(m)
    ensures ParsePlain("-" + body) == Some(BigDecimal(-m.unscaled, m.scale))
  {
    assert ("-" + body)[1..] == body;
  }

  lemma PlainNormalSign(d: BigDecimal)
    ensures PlainNormal(d).unscaled < 0 <==> d.unscaled < 0
  {
    if d.scale < 0 {
      if d.unscaled < 0 {
        Arith.MulPositive(-d.unscaled, Pow10(-d.scale));
      } else {
        Arith.MulNonNegative(d.unscaled, Pow10(-d.scale));
      }
    }
  }

  lemma PlainStringParts(d: BigDecimal)
    ensures d.unscaled < 0 ==> PlainString(d) == "-" + PlainMagnitude(d)
    ensures d.unscaled >= 0 ==> PlainString(d) == PlainMagnitude(d)
  {
    if d.unscaled >= 0 {
      assert "" + PlainMagnitude(d) == PlainMagnitude(d);
    }
  }

  /** Plain rendering round-trips through the plain reader. */
  lemma PlainStringRoundTrip(d: BigDecimal)
    ensures ParsePlain(PlainString(d)) == Some(PlainNormal(d))
  {
    var body := PlainMagnitude(d);
    var n := PlainNormal(d);
    MagnitudeRoundTrip(d);
    PlainMagnitudeShape(d);
    PlainNormalSign(d);
    PlainStringParts(d);
    SignedParse(body, BigDecimal(Abs(n.unscaled), n.scale));
  }
}
