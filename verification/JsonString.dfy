/** `JsonString`: a string in the tree. The text is a Dafny string of Unicode
    characters; Java sees it as UTF-16 code units (module `Utf16`). */
module JsonString {

  import opened Wrappers
  import opened JsonModel
  import Utf16

  /** `getAsChar()`: the only `char` of a string one code unit long; a string
      of any other Java length is an `IllegalArgumentException`.
      JsonString.java defines no such method; this follows what its callers
      document. */
  function GetAsChar(e: Json): (r: Result<Utf16.CodeUnit, Error>)
    requires e.JString?
    ensures r.Success? <==> Utf16.Length(e.s) == 1
    ensures r.Success? <==> |e.s| == 1 && e.s[0] as int < 0x1_0000
    ensures r.Failure? ==> r.error == IllegalArgument
    ensures r.Success? ==> Utf16.Decode([r.value]) == Some(e.s)
  {
    var units := Utf16.Encode(e.s);
    Utf16.LengthOne(e.s);
    if |units| == 1 then
      Utf16.DecodeEncode(e.s);
      assert units == [units[0]];
      Success(units[0])
    else Failure(IllegalArgument)
  }
}
