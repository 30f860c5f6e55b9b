/** Java's view of a string: a sequence of UTF-16 code units (`char`).
    A Dafny `string` holds Unicode scalar values; a character outside the
    Basic Multilingual Plane takes two code units in Java, a high and a low
    surrogate, as section 3.9 of the Unicode Standard (UTF-16) defines. */
module Utf16 {

  import opened Wrappers

  /** One UTF-16 code unit: a Java `char`. */
  newtype CodeUnit = x: int | 0 <= x < 0x1_0000

  predicate IsHighSurrogate(u: CodeUnit) {
    0xD800 <= u < 0xDC00
  }

  predicate IsLowSurrogate(u: CodeUnit) {
    0xDC00 <= u < 0xE000
  }

  /** The code units of one character: itself inside the Basic Multilingual
      Plane, a surrogate pair outside it. */
  function EncodeChar(c: char): (us: seq<CodeUnit>)
    ensures 1 <= |us| <= 2
    ensures |us| == 1 <==> c as int < 0x1_0000
    ensures |us| == 1 ==> us[0] as int == c as int && !IsHighSurrogate(us[0]) && !IsLowSurrogate(us[0])
    ensures |us| == 2 ==> IsHighSurrogate(us[0]) && IsLowSurrogate(us[1])
  {
    var v := c as int;
    if v < 0x1_0000 then [v as CodeUnit]
    else
      var w := v - 0x1_0000;
      [(0xD800 + w / 0x400) as CodeUnit, (0xDC00 + w % 0x400) as CodeUnit]
  }

  /** `String.toCharArray()`: the code units of every character, in order. */
  function Encode(s: string): (us: seq<CodeUnit>)
    ensures |us| >= |s|
    decreases |s|
  {
    if s == [] then [] else EncodeChar(s[0]) + Encode(s[1..])
  }

  /** `String.length()`: the number of code units. */
  function Length(s: string): nat {
    |Encode(s)|
  }

  /** The string a sequence of code units spells, or `None` for an unpaired
      surrogate. */
  function Decode(us: seq<CodeUnit>): Option<string>
    decreases |us|
  {
    if us == [] then Some([])
    else if IsHighSurrogate(us[0]) then
      if |us| >= 2 && IsLowSurrogate(us[1]) then
        var v := 0x1_0000 + (us[0] as int - 0xD800) * 0x400 + (us[1] as int - 0xDC00);
        match Decode(us[2..])
        case None => None
        case Some(rest) => Some([v as char] + rest)
      else None
    else if IsLowSurrogate(us[0]) then None
    else
      match Decode(us[1..])
      case None => None
      case Some(rest) => Some([us[0] as int as char] + rest)
  }

  /** Decoding the code units of one character in front of more units. */
  lemma DecodeChar(c: char, more: seq<CodeUnit>)
    ensures Decode(EncodeChar(c) + more) ==
            match Decode(more) case None => None case Some(rest) => Some([c] + rest)
  {
    var us := EncodeChar(c) + more;
    if c as int < 0x1_0000 {
      assert us[1..] == more;
    } else {
      assert us[2..] == more;
      var w := c as int - 0x1_0000;
      assert 0x1_0000 + (w / 0x400) * 0x400 + w % 0x400 == c as int;
    }
  }

  /** Decoding undoes encoding: the code units of a string spell that string. */
  lemma {:induction false} DecodeEncode(s: string)
    ensures Decode(Encode(s)) == Some(s)
    decreases |s|
  {
    if s != [] {
      DecodeEncode(s[1..]);
      DecodeChar(s[0], Encode(s[1..]));
      assert [s[0]] + s[1..] == s;
    }
  }

  /** A string is one code unit long exactly when it is one character of the
      Basic Multilingual Plane. */
  lemma {:induction false} LengthOne(s: string)
    ensures Length(s) == 1 <==> |s| == 1 && s[0] as int < 0x1_0000
  {
    if s != [] {
      assert Encode(s) == EncodeChar(s[0]) + Encode(s[1..]);
      if |s| == 1 {
        assert Encode(s[1..]) == [];
      }
    }
  }

  /** A character outside the Basic Multilingual Plane is two code units. */
  lemma Supplementary()
    ensures Encode("\U{1F600}") == [0xD83D, 0xDE00]
    ensures Length("\U{1F600}") == 2
  {
    assert "\U{1F600}"[1..] == [];
  }
}
