/** `toString()` of every element kind. Containers render their children
    recursively: a list as `AbstractCollection.toString` does, a map as its
    entries `"key":value` joined the same way inside braces. Keys are written
    between quotes without escaping. The JSON escaping of string elements is
    done by an external library and comes in as the parameter `quote`. */
module JsonText {

  import opened Wrappers
  import opened JsonModel
  import JsonBool
  import JsonNull
  import JsonInteger
  import JsonDecimal
  import JsonMap
  import DecimalText

  /** The parts separated by ", ", as `Collectors.joining(", ")` and the
      collection renderer write them. */
  function Join(parts: seq<string>): string {
    if |parts| == 0 then ""
    else if |parts| == 1 then parts[0]
    else parts[0] + ", " + Join(parts[1..])
  }

  /** One map entry as `JsonMap.toString` writes it. */
  function Entry(key: string, value: string): string {
    "\"" + key + "\":" + value
  }

  /** `toString()` of an element. */
  function ToString(e: Json, quote: string -> string): (s: string)
    ensures e.JList? ==> |s| >= 2 && s[0] == '[' && s[|s| - 1] == ']'
    ensures e.JMap? ==> |s| >= 2 && s[0] == '{' && s[|s| - 1] == '}'
    decreases e
  {
    match e
    case JNull => JsonNull.ToString(e)
    case JBool(_) => JsonBool.ToString(e)
    case JInteger(_) => JsonInteger.ToString(e)
    case JDecimal(_) => JsonDecimal.ToString(e)
    case JString(t) => quote(t)
    case JList(xs) => "[" + Join(seq(|xs|, i requires 0 <= i < |xs| => ToString(xs[i], quote))) + "]"
    case JMap(fs) =>
      "{" + Join(seq(|fs|, i requires 0 <= i < |fs| => Entry(fs[i].0, ToString(fs[i].1, quote)))) + "}"
  }

  /** Joining one more part appends the separator and the part. */
  lemma {:induction false} JoinAppend(parts: seq<string>, p: string)
    requires parts != []
    ensures Join(parts + [p]) == Join(parts) + ", " + p
    decreases |parts|
  {
    if |parts| > 1 {
      var rest := parts[1..];
      assert (parts + [p])[1..] == rest + [p];
      JoinAppend(rest, p);
      assert Join(parts + [p]) == parts[0] + ", " + (Join(rest) + ", " + p);
    } else {
      assert parts + [p] == [parts[0], p];
    }
  }

  /** Replacing the closing character of `open + inner + close` by
      `", " + t + close`. */
  lemma ReopenLast(open: string, inner: string, t: string, close: string)
    requires |close| == 1
    ensures var before := open + inner + close;
            before[..|before| - 1] + ", " + t + close == open + (inner + ", " + t) + close
  {
    var before := open + inner + close;
    assert before[..|before| - 1] == open + inner;
  }

  /** The rendered children of a list with one more element. */
  lemma ListPartsAppend(xs: seq<Json>, x: Json, quote: string -> string)
    ensures var ys := xs + [x];
            seq(|ys|, i requires 0 <= i < |ys| => ToString(ys[i], quote)) ==
            seq(|xs|, i requires 0 <= i < |xs| => ToString(xs[i], quote)) + [ToString(x, quote)]
  {
  }

  /** `add` on a non-empty list: the rendering gains ", " and the new element's
      rendering just before the closing bracket. */
  lemma ListAppendRendering(xs: seq<Json>, x: Json, quote: string -> string)
    requires xs != []
    ensures var before := ToString(JList(xs), quote);
            ToString(JList(xs + [x]), quote) == before[..|before| - 1] + ", " + ToString(x, quote) + "]"
  {
    var t := ToString(x, quote);
    var parts := seq(|xs|, i requires 0 <= i < |xs| => ToString(xs[i], quote));
    ListPartsAppend(xs, x, quote);
    JoinAppend(parts, t);
    var inner := Join(parts);
    assert ToString(JList(xs), quote) == "[" + inner + "]";
    assert ToString(JList(xs + [x]), quote) == "[" + (inner + ", " + t) + "]";
    ReopenLast("[", inner, t, "]");
  }

  /** The rendered entries of a map with one more entry. */
  lemma MapPartsAppend(fields: Fields, k: string, v: Json, quote: string -> string)
    ensures var after := fields + [(k, v)];
            seq(|after|, i requires 0 <= i < |after| => Entry(after[i].0, ToString(after[i].1, quote))) ==
            seq(|fields|, i requires 0 <= i < |fields| => Entry(fields[i].0, ToString(fields[i].1, quote))) +
            [Entry(k, ToString(v, quote))]
  {
  }

  /** `add` of a fresh key to a non-empty map: the rendering gains ", " and the
      new entry just before the closing brace. */
  lemma MapAddRendering(fields: Fields, k: string, value: Instance, parse: ForeignObject -> Json,
                        quote: string -> string)
    requires fields != [] && !HasKey(fields, k)
    ensures var before := ToString(JMap(fields), quote);
            var after := JsonMap.Add(fields, Some(k), value, parse).value;
            ToString(JMap(after), quote) ==
            before[..|before| - 1] + ", " + Entry(k, ToString(TreeFromInstance(value, parse), quote)) + "}"
  {
    var v := TreeFromInstance(value, parse);
    var t := Entry(k, ToString(v, quote));
    assert JsonMap.Add(fields, Some(k), value, parse).value == fields + [(k, v)];
    var parts := seq(|fields|, i requires 0 <= i < |fields| => Entry(fields[i].0, ToString(fields[i].1, quote)));
    MapPartsAppend(fields, k, v, quote);
    JoinAppend(parts, t);
    var inner := Join(parts);
    assert ToString(JMap(fields), quote) == "{" + inner + "}";
    assert ToString(JMap(fields + [(k, v)]), quote) == "{" + (inner + ", " + t) + "}";
    ReopenLast("{", inner, t, "}");
  }

  /** A one-element list renders as its element between brackets, a
      one-entry map as its entry between braces; with the two append lemmas
      above this fixes the text of every container. */
  lemma SingleChild(x: Json, k: string, v: Json, quote: string -> string)
    ensures ToString(JList([x]), quote) == "[" + ToString(x, quote) + "]"
    ensures ToString(JMap([(k, v)]), quote) == "{" + Entry(k, ToString(v, quote)) + "}"
  {
    var parts := seq(|[x]|, i requires 0 <= i < |[x]| => ToString([x][i], quote));
    assert parts == [ToString(x, quote)];
    var entries := seq(|[(k, v)]|, i requires 0 <= i < |[(k, v)]| => Entry([(k, v)][i].0, ToString([(k, v)][i].1, quote)));
    assert entries == [Entry(k, ToString(v, quote))];
  }

  /** Small integers render as their digits. */
  lemma SmallIntegers(quote: string -> string)
    ensures ToString(JInteger(2), quote) == "2" && ToString(JInteger(3), quote) == "3"
  {
    assert DecimalText.NatToString(2) == "2";
    assert DecimalText.NatToString(3) == "3";
  }

  lemma Join3(a: string, b: string, c: string)
    ensures Join([a, b, c]) == a + ", " + b + ", " + c
  {
    assert [a, b, c][1..] == [b, c];
    assert [b, c][1..] == [c];
    assert Join([b, c]) == b + ", " + c;
    assert Join([a, b, c]) == a + ", " + (b + ", " + c);
  }

  /** The rendering of the library's own example map: a string and two
      integers, in insertion order. */
  lemma MapExample(quote: string -> string)
    ensures ToString(JMap([("a", JString("s")), ("b", JInteger(2)), ("c", JInteger(3))]), quote)
            == "{" + Entry("a", quote("s")) + ", " + Entry("b", "2") + ", " + Entry("c", "3") + "}"
  {
    var fs := [("a", JString("s")), ("b", JInteger(2)), ("c", JInteger(3))];
    SmallIntegers(quote);
    var parts := seq(|fs|, i requires 0 <= i < |fs| => Entry(fs[i].0, ToString(fs[i].1, quote)));
    assert parts == [Entry("a", quote("s")), Entry("b", "2"), Entry("c", "3")];
    Join3(Entry("a", quote("s")), Entry("b", "2"), Entry("c", "3"));
  }

  /** Empty containers and the constant kinds. */
  lemma SimpleExamples(quote: string -> string)
    ensures ToString(JList([]), quote) == "[]" && ToString(JMap([]), quote) == "{}"
    ensures ToString(JNull, quote) == "null" && ToString(JBool(false), quote) == "false"
  {
  }
}
