/** The getters every `JsonElement` offers: the `tryGetAs*` family, which is
    present exactly for the matching kind, and the path lookups built on
    `JsonPathFinder`. A `null` argument is `None`; an exception is a `Failure`. */
module JsonElement {

  import opened Wrappers
  import opened JsonModel
  import opened Narrowing
  import opened Decimals
  import JsonNumber
  import JsonPathFinder
  import DecimalText
  import JsonMap
  import JsonList
  import Utf16
  import JsonString
  import JsonInteger

  // ---- kinds ----

  /** `tryGetAsNumber()`: the wrapped number of a `JsonNumber`. */
  function TryGetAsNumber(e: Json): (r: Option<JsonNumber.Number>)
    ensures r.Some? <==> e.IsNumber()
    ensures r.Some? ==> JsonNumber.FromNumber(r.value) == e
  {
    if e.IsNumber() then Some(JsonNumber.GetAsNumber(e)) else None
  }

  /** `tryGetAsByte()`: `byteValue()` of the number, which is what
      `JsonNumber.getAsByte()` returns. */
  function TryGetAsByte(e: Json): (r: Option<Int8>)
    ensures r.Some? <==> e.IsNumber()
    ensures r.Some? ==> r.value == JsonNumber.GetAsByte(e)
  {
    match TryGetAsNumber(e)
    case None => None
    case Some(n) => Some(JsonNumber.NumberByteValue(n))
  }

  /** `tryGetAsShort()`: `shortValue()`, as `JsonNumber.getAsShort()`. */
  function TryGetAsShort(e: Json): (r: Option<Int16>)
    ensures r.Some? <==> e.IsNumber()
    ensures r.Some? ==> r.value == JsonNumber.GetAsShort(e)
  {
    match TryGetAsNumber(e)
    case None => None
    case Some(n) => Some(JsonNumber.NumberShortValue(n))
  }

  /** `tryGetAsInt()`: `intValue()`, as `JsonNumber.getAsInt()`. */
  function TryGetAsInt(e: Json): (r: Option<Int32>)
    ensures r.Some? <==> e.IsNumber()
    ensures r.Some? ==> r.value == JsonNumber.GetAsInt(e)
  {
    match TryGetAsNumber(e)
    case None => None
    case Some(n) => Some(JsonNumber.NumberIntValue(n))
  }

  /** `tryGetAsLong()`: `longValue()`, as `JsonNumber.getAsLong()`. */
  function TryGetAsLong(e: Json): (r: Option<Int64>)
    ensures r.Some? <==> e.IsNumber()
    ensures r.Some? ==> r.value == JsonNumber.GetAsLong(e)
  {
    match TryGetAsNumber(e)
    case None => None
    case Some(n) => Some(JsonNumber.NumberLongValue(n))
  }

  /** `tryGetAsBool()`: the payload of a `JsonBool`. */
  function TryGetAsBool(e: Json): (r: Option<bool>)
    ensures r.Some? <==> e.JBool?
    ensures r.Some? ==> e == JBool(r.value)
  {
    if e.JBool? then Some(e.b) else None
  }

  /** `tryGetAsChar()`: the single `char` of a `JsonString`; a string whose
      Java length (in UTF-16 code units) is not 1 is an
      `IllegalArgumentException`, any other kind gives nothing. So a single
      character outside the Basic Multilingual Plane, two code units long, is
      an error. */
  function TryGetAsChar(e: Json): (r: Result<Option<Utf16.CodeUnit>, Error>)
    ensures r.Failure? <==> e.JString? && Utf16.Length(e.s) != 1
    ensures r.Failure? ==> r.error == IllegalArgument
    ensures r.Success? && r.value.Some? <==> e.JString? && |e.s| == 1 && e.s[0] as int < 0x1_0000
    ensures r.Success? && r.value.Some? ==> Utf16.Decode([r.value.value]) == Some(e.s)
  {
    if !e.JString? then Success(None)
    else
      match JsonString.GetAsChar(e)
      case Success(c) => Success(Some(c))
      case Failure(err) => Failure(err)
  }

  /** `tryGetAsString()`: the text of a `JsonString`. */
  function TryGetAsString(e: Json): (r: Option<string>)
    ensures r.Some? <==> e.JString?
    ensures r.Some? ==> e == JString(r.value)
  {
    if e.JString? then Some(e.s) else None
  }

  /** `tryGetAsBigInt()`: the integer, or the decimal truncated toward zero. */
  function TryGetAsBigInt(e: Json): (r: Option<int>)
    ensures r.Some? <==> e.IsNumber()
    ensures e.JInteger? ==> r == Some(e.i)
    ensures e.JDecimal? && e.d.scale <= 0 ==> r == Some(e.d.unscaled * Pow10(-e.d.scale))
    ensures e.JDecimal? && e.d.scale > 0 && e.d.unscaled >= 0 ==>
              0 <= r.value * Pow10(e.d.scale) <= e.d.unscaled < (r.value + 1) * Pow10(e.d.scale)
    ensures e.JDecimal? && e.d.scale > 0 && e.d.unscaled < 0 ==>
              (r.value - 1) * Pow10(e.d.scale) < e.d.unscaled <= r.value * Pow10(e.d.scale) <= 0
  {
    if e.IsNumber() then Some(JsonNumber.GetAsBigInt(e)) else None
  }

  /** `tryGetAsBigDec()`: the decimal itself, or the integer at scale 0. */
  function TryGetAsBigDec(e: Json): (r: Option<BigDecimal>)
    ensures r.Some? <==> e.IsNumber()
    ensures e.JInteger? ==> r == Some(BigDecimal(e.i, 0))
    ensures e.JDecimal? ==> r == Some(e.d)
  {
    if e.IsNumber() then Some(JsonNumber.GetAsBigDec(e)) else None
  }

  // ---- streams and arrays ----

  /** `tryGetAsStreamOf(mapper)`: a `null` mapper is an
      `IllegalArgumentException`; a list gives its elements mapped in order,
      anything else gives nothing. */
  function TryGetAsStreamOf<T>(e: Json, mapper: Option<Json -> T>): (r: Result<Option<seq<T>>, Error>)
    ensures r.Failure? <==> mapper.None?
    ensures r.Failure? ==> r.error == IllegalArgument
    ensures r.Success? ==> (r.value.Some? <==> e.JList?)
    ensures r.Success? && r.value.Some? ==>
              |r.value.value| == |e.items| &&
              forall i | 0 <= i < |e.items| :: r.value.value[i] == mapper.value(e.items[i])
  {
    match mapper
    case None => Failure(IllegalArgument)
    case Some(f) =>
      if e.JList? then Success(Some(seq(|e.items|, i requires 0 <= i < |e.items| => f(e.items[i]))))
      else Success(None)
  }

  /** `tryGetAsListOf(mapper)`: the stream collected into a list, so the same
      length and order. */
  function TryGetAsListOf<T>(e: Json, mapper: Option<Json -> T>): (r: Result<Option<seq<T>>, Error>)
    ensures r.Failure? <==> mapper.None?
    ensures r.Failure? ==> r.error == IllegalArgument
    ensures r.Success? ==> (r.value.Some? <==> e.JList?)
    ensures r.Success? && r.value.Some? ==>
              |r.value.value| == |e.items| &&
              forall i | 0 <= i < |e.items| :: r.value.value[i] == mapper.value(e.items[i])
  {
    TryGetAsStreamOf(e, mapper)
  }

  /** The elements converted one by one in order; the first conversion that
      fails stops with its error. */
  function ConvertAll<T>(items: seq<Json>, convert: Json -> Result<T, Error>): (r: Result<seq<T>, Error>)
    ensures r.Success? <==> forall i | 0 <= i < |items| :: convert(items[i]).Success?
    ensures r.Success? ==>
              |r.value| == |items| && forall i | 0 <= i < |items| :: r.value[i] == convert(items[i]).value
    ensures r.Failure? ==>
              exists k | 0 <= k < |items| :: convert(items[k]) == Failure(r.error) &&
                forall j | 0 <= j < k :: convert(items[j]).Success?
  {
    if items == [] then Success([])
    else
      match convert(items[0])
      case Failure(err) => Failure(err)
      case Success(first) =>
        var rest := ConvertAll(items[1..], convert);
        if rest.Failure? then
          var k :| 1 <= k + 1 <= |items| && 0 <= k < |items[1..]| && convert(items[1..][k]) == Failure(rest.error) &&
                   forall j | 0 <= j < k :: convert(items[1..][j]).Success?;
          assert convert(items[k + 1]) == Failure(rest.error);
          assert forall j | 0 <= j < k + 1 :: convert(items[j]).Success? by {
            forall j | 0 <= j < k + 1 ensures convert(items[j]).Success? {
              if j > 0 {
                assert items[j] == items[1..][j - 1];
              }
            }
          }
          Failure(rest.error)
        else
          var r := [first] + rest.value;
          assert forall i | 1 <= i < |items| :: items[i] == items[1..][i - 1];
          Success(r)
  }

  /** `tryGetAsCharArray()`: for a string `toCharArray()`, its UTF-16 code
      units; for a list, every element converted to a `char` by the external
      object conversion (`convert`), whose failure propagates; anything else
      gives nothing. */
  function TryGetAsCharArray(e: Json, convert: Json -> Result<Utf16.CodeUnit, Error>)
    : (r: Result<Option<seq<Utf16.CodeUnit>>, Error>)
    ensures e.JString? ==> r == Success(Some(Utf16.Encode(e.s)))
    ensures e.JString? ==> Utf16.Decode(r.value.value) == Some(e.s) && |r.value.value| == Utf16.Length(e.s)
    ensures r.Success? && r.value.Some? <==>
              e.JString? || (e.JList? && forall i | 0 <= i < |e.items| :: convert(e.items[i]).Success?)
    ensures r.Success? && r.value.Some? && e.JList? ==>
              |r.value.value| == |e.items| &&
              forall i | 0 <= i < |e.items| :: r.value.value[i] == convert(e.items[i]).value
    ensures !e.JString? && !e.JList? ==> r == Success(None)
  {
    match e
    case JString(text) =>
      Utf16.DecodeEncode(text);
      Success(Some(Utf16.Encode(text)))
    case JList(items) =>
      var chars := ConvertAll(items, convert);
      if chars.Failure? then Failure(chars.error) else Success(Some(chars.value))
    case _ => Success(None)
  }

  /** One character outside the Basic Multilingual Plane is two `char`s in
      Java: `tryGetAsChar()` rejects it and `tryGetAsCharArray()` gives its
      surrogate pair. */
  lemma SupplementaryChar(convert: Json -> Result<Utf16.CodeUnit, Error>)
    ensures TryGetAsChar(JString("\U{1F600}")) == Failure(IllegalArgument)
    ensures TryGetAsCharArray(JString("\U{1F600}"), convert) == Success(Some([0xD83D, 0xDE00]))
  {
    Utf16.Supplementary();
  }

  // ---- paths ----

  /** `tryGetPath(jsonPath)`: a `null` path is an `IllegalArgumentException`;
      an element that is not a container finds nothing; a container runs the
      path finder. What is found lies inside the element, and the empty path
      finds the container itself. */
  function TryGetPath(e: Json, path: Option<string>): (r: Result<Option<Json>, Error>)
    ensures path.None? ==> r == Failure(IllegalArgument)
    ensures path.Some? && !e.IsContainer() ==> r == Success(None)
    ensures path.Some? && e.IsContainer() ==> r == JsonPathFinder.Walk(e, JsonPathFinder.Segments(path.value))
    ensures path == Some("") && e.IsContainer() ==> r == Success(Some(e))
    ensures r.Success? && r.value.Some? ==> JsonPathFinder.Within(r.value.value, e)
  {
    match path
    case None => Failure(IllegalArgument)
    case Some(p) =>
      if e.IsContainer() then
        JsonPathFinder.WalkFindsWithin(e, JsonPathFinder.Segments(p));
        JsonPathFinder.Walk(e, JsonPathFinder.Segments(p))
      else Success(None)
  }

  /** `findPath(jsonPath)`: whether `tryGetPath` finds something; its
      exceptions propagate. */
  function FindPath(e: Json, path: Option<string>): (r: Result<bool, Error>)
    ensures r.Failure? <==> TryGetPath(e, path).Failure?
    ensures r.Failure? ==> r.error == TryGetPath(e, path).error
    ensures r.Success? ==> (r.value <==> TryGetPath(e, path).value.Some?)
  {
    match TryGetPath(e, path)
    case Failure(err) => Failure(err)
    case Success(found) => Success(found.Some?)
  }

  /** `removePath(jsonPath)`: never succeeds; a `null` path is an
      `IllegalArgumentException`, any other an `UnsupportedOperationException`. */
  function RemovePath(e: Json, path: Option<string>): (r: Result<bool, Error>)
    ensures r.Failure?
    ensures r.error == IllegalArgument <==> path.None?
    ensures path.Some? ==> r.error == UnsupportedOperation
  {
    if path.None? then Failure(IllegalArgument) else Failure(UnsupportedOperation)
  }

  /** `tryGetPathAsX(jsonPath)`: `tryGetPath` followed by the getter `tryGetAsX`
      on what it found. */
  function TryGetPathAs<T>(e: Json, path: Option<string>, getter: Json -> Option<T>): (r: Result<Option<T>, Error>)
    ensures r.Failure? <==> TryGetPath(e, path).Failure?
    ensures r.Failure? ==> r.error == TryGetPath(e, path).error
    ensures r.Success? && TryGetPath(e, path).value.None? ==> r.value.None?
    ensures r.Success? && TryGetPath(e, path).value.Some? ==> r.value == getter(TryGetPath(e, path).value.value)
  {
    match TryGetPath(e, path)
    case Failure(err) => Failure(err)
    case Success(found) => if found.None? then Success(None) else Success(getter(found.value))
  }

  function TryGetPathAsByte(e: Json, path: Option<string>): Result<Option<Int8>, Error> {
    TryGetPathAs(e, path, TryGetAsByte)
  }

  function TryGetPathAsShort(e: Json, path: Option<string>): Result<Option<Int16>, Error> {
    TryGetPathAs(e, path, TryGetAsShort)
  }

  function TryGetPathAsInt(e: Json, path: Option<string>): Result<Option<Int32>, Error> {
    TryGetPathAs(e, path, TryGetAsInt)
  }

  function TryGetPathAsLong(e: Json, path: Option<string>): Result<Option<Int64>, Error> {
    TryGetPathAs(e, path, TryGetAsLong)
  }

  function TryGetPathAsNumber(e: Json, path: Option<string>): Result<Option<JsonNumber.Number>, Error> {
    TryGetPathAs(e, path, TryGetAsNumber)
  }

  function TryGetPathAsString(e: Json, path: Option<string>): Result<Option<string>, Error> {
    TryGetPathAs(e, path, TryGetAsString)
  }

  function TryGetPathAsBigInt(e: Json, path: Option<string>): Result<Option<int>, Error> {
    TryGetPathAs(e, path, TryGetAsBigInt)
  }

  function TryGetPathAsBigDec(e: Json, path: Option<string>): Result<Option<BigDecimal>, Error> {
    TryGetPathAs(e, path, TryGetAsBigDec)
  }

  function TryGetPathAsBool(e: Json, path: Option<string>): Result<Option<bool>, Error> {
    TryGetPathAs(e, path, TryGetAsBool)
  }

  /** What the typed path getters find: a bool or a string exactly when the
      path leads to one, and a narrowed number exactly when it leads to a
      number. */
  lemma PathGetterKinds(e: Json, path: Option<string>, b: bool, s: string, n: int)
    ensures TryGetPathAsBool(e, path) == Success(Some(b)) <==> TryGetPath(e, path) == Success(Some(JBool(b)))
    ensures TryGetPathAsString(e, path) == Success(Some(s)) <==> TryGetPath(e, path) == Success(Some(JString(s)))
    ensures TryGetPathAsInt(e, path).Success? && TryGetPathAsInt(e, path).value.Some? <==>
              TryGetPath(e, path).Success? && TryGetPath(e, path).value.Some? && TryGetPath(e, path).value.value.IsNumber()
    ensures TryGetPath(e, path) == Success(Some(JInteger(n))) ==>
              TryGetPathAsBigInt(e, path) == Success(Some(n)) &&
              TryGetPathAsLong(e, path) == Success(Some(Narrow(n, W64))) &&
              TryGetPathAsByte(e, path) == Success(Some(Narrow(n, W8)))
  {
  }

  /** `tryGetPathAsStreamOf(jsonPath, mapper)`: the mapper is checked for
      `null` before the path is looked at; then `tryGetPath` followed by
      `tryGetAsStreamOf`. */
  function TryGetPathAsStreamOf<T>(e: Json, path: Option<string>, mapper: Option<Json -> T>)
    : (r: Result<Option<seq<T>>, Error>)
    ensures mapper.None? ==> r == Failure(IllegalArgument)
    ensures mapper.Some? ==> (r.Failure? <==> TryGetPath(e, path).Failure?)
    ensures mapper.Some? && r.Failure? ==> r.error == TryGetPath(e, path).error
    ensures r.Success? ==>
              (r.value.Some? <==> TryGetPath(e, path).value.Some? && TryGetPath(e, path).value.value.JList?)
    ensures r.Success? && r.value.Some? ==>
              var list := TryGetPath(e, path).value.value;
              |r.value.value| == |list.items| &&
              forall i | 0 <= i < |list.items| :: r.value.value[i] == mapper.value(list.items[i])
  {
    match mapper
    case None => Failure(IllegalArgument)
    case Some(_) =>
      match TryGetPath(e, path)
      case Failure(err) => Failure(err)
      case Success(found) => if found.None? then Success(None) else TryGetAsStreamOf(found.value, mapper)
  }

  /** `tryGetPathAsListOf(jsonPath, mapper)`: the stream collected. */
  function TryGetPathAsListOf<T>(e: Json, path: Option<string>, mapper: Option<Json -> T>)
    : (r: Result<Option<seq<T>>, Error>)
    ensures mapper.None? ==> r == Failure(IllegalArgument)
    ensures mapper.Some? ==> (r.Failure? <==> TryGetPath(e, path).Failure?)
    ensures mapper.Some? && r.Failure? ==> r.error == TryGetPath(e, path).error
    ensures r.Success? ==>
              (r.value.Some? <==> TryGetPath(e, path).value.Some? && TryGetPath(e, path).value.value.JList?)
    ensures r.Success? && r.value.Some? ==>
              var list := TryGetPath(e, path).value.value;
              |r.value.value| == |list.items| &&
              forall i | 0 <= i < |list.items| :: r.value.value[i] == mapper.value(list.items[i])
  {
    TryGetPathAsStreamOf(e, path, mapper)
  }

  /** A `null` mapper is reported even when the path itself would fail to
      parse at a list. */
  lemma MapperCheckedFirst<T>(items: seq<Json>)
    ensures TryGetPathAsStreamOf<T>(JList(items), Some("x"), None) == Failure(IllegalArgument)
    ensures TryGetPath(JList(items), Some("x")) == Failure(NumberFormat("x"))
  {
    assert JsonPathFinder.PlainSegment("x");
    JsonPathFinder.SegmentsOfJoin(["x"]);
    assert !DecimalText.IsDigit('x');
  }

  /** A one-segment path on a map is `tryGet(key)`: the stored element, or
      nothing for a missing key. Any non-empty key without a separating dot is
      one segment, a key ending in a backslash included. */
  lemma KeyIsDirectAccess(fields: Fields, key: string)
    requires key != "" && JsonPathFinder.NoSeparator(key, false)
    ensures TryGetPath(JMap(fields), Some(key)) == Success(JsonMap.TryGet(fields, Some(key)))
  {
    JsonPathFinder.SingleSegment(key);
    JsonPathFinder.OneSegment(JMap(fields), key);
  }

  /** A path that is the decimal rendering of an `int` index, on a list, is
      `tryGet(index)`: the element, or an index error out of range (a
      negative index included). */
  lemma IndexIsDirectAccess(items: seq<Json>, index: Int32)
    ensures TryGetPath(JList(items), Some(DecimalText.IntToString(index))) == JsonList.TryGet(items, index)
  {
    var seg := DecimalText.IntToString(index);
    var digits := if index < 0 then seg[1..] else seg;
    assert DecimalText.AllDigits(digits);
    assert JsonPathFinder.PlainSegment(seg) by {
      forall j | 0 <= j < |seg| ensures seg[j] != '.' && seg[j] != '\\' {
        if index < 0 && j > 0 {
          assert seg[j] == digits[j - 1];
        }
      }
    }
    JsonPathFinder.SegmentsOfJoin([seg]);
    DecimalText.IntToStringRoundTrip(index);
    JsonPathFinder.OneSegment(JList(items), seg);
  }

  /** `addObj("obj", obj -> obj.add("int", JsonInteger.from(n)))` on an
      empty map, with `n` a `BigInteger`. */
  lemma BuildNested(n: int, parse: ForeignObject -> Json)
    ensures JsonMap.AddObj([], Some("obj"), fs => JsonMap.Add(fs, Some("int"), Element(JsonInteger.FromBigInt(n)), parse))
            == Success([("obj", JMap([("int", JInteger(n))]))])
  {
    var builder := fs => JsonMap.Add(fs, Some("int"), Element(JsonInteger.FromBigInt(n)), parse);
    assert builder([]) == Success([("int", JInteger(n))]);
  }

  /** `obj.int` leads from the outer map through the inner one to the integer. */
  lemma NestedPath(n: int)
    ensures TryGetPath(JMap([("obj", JMap([("int", JInteger(n))]))]), Some("obj.int")) == Success(Some(JInteger(n)))
  {
    assert JsonPathFinder.PlainSegment("obj") && JsonPathFinder.PlainSegment("int");
    assert JsonPathFinder.JoinDot(["obj", "int"]) == "obj.int";
    JsonPathFinder.SegmentsOfJoin(["obj", "int"]);
  }

  /** The library's example of a nested lookup: after `addObj("obj", obj ->
      obj.add("int", JsonInteger.from(n)))` on an empty map, `obj.int` read as
      an int gives `n` narrowed to 32 bits (`n` itself when it fits), and read
      as a byte gives 44 for 300. */
  lemma NestedPathExample(n: int, parse: ForeignObject -> Json)
    ensures var built := JsonMap.AddObj([], Some("obj"), fs => JsonMap.Add(fs, Some("int"), Element(JsonInteger.FromBigInt(n)), parse));
            built.Success? &&
            TryGetPathAsInt(JMap(built.value), Some("obj.int")) == Success(Some(Narrow(n, W32))) &&
            (n == 300 ==> TryGetPathAsByte(JMap(built.value), Some("obj.int")) == Success(Some(44)))
  {
    BuildNested(n, parse);
    NestedPath(n);
    assert Narrow(300, W8) == 44;
  }
}
