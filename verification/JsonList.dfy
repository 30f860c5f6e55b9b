/** `JsonList`: an ordered, index-addressed sequence of elements. Mutating
    operations return the new sequence. */
module JsonList {

  import opened Wrappers
  import opened JsonModel
  import opened Narrowing
  import JsonNumber
  import JsonString
  import Utf16

  /** `add(Object)`: the converted element goes to the end; an element
      argument is stored as it is. */
  function Add(items: seq<Json>, elem: Instance, parse: ForeignObject -> Json): (r: seq<Json>)
    ensures |r| == |items| + 1 && r[..|items|] == items
    ensures r[|items|] == TreeFromInstance(elem, parse)
    ensures elem.Element? ==> r[|items|] == elem.element
  {
    items + [TreeFromInstance(elem, parse)]
  }

  /** `addAll(...)`: every overload adds the given values one by one, in order;
      the list grows by their number and keeps its own elements in front. */
  function AddAll(items: seq<Json>, elems: seq<Instance>, parse: ForeignObject -> Json): (r: seq<Json>)
    ensures |r| == |items| + |elems|
    ensures r[..|items|] == items
    ensures forall i | 0 <= i < |elems| :: r[|items| + i] == TreeFromInstance(elems[i], parse)
    decreases |elems|
  {
    if elems == [] then items
    else
      var r := AddAll(Add(items, elems[0], parse), elems[1..], parse);
      assert r[|items|] == TreeFromInstance(elems[0], parse);
      forall i | 1 <= i < |elems| ensures r[|items| + i] == TreeFromInstance(elems[i], parse) {
        assert elems[1..][i - 1] == elems[i];
      }
      r
  }

  /** `addList(...)`: one nested list holding the converted values is appended. */
  function AddList(items: seq<Json>, elems: seq<Instance>, parse: ForeignObject -> Json): (r: seq<Json>)
    ensures |r| == |items| + 1 && r[..|items|] == items
    ensures var nested := r[|items|];
            nested.JList? && |nested.items| == |elems| &&
            forall i | 0 <= i < |elems| :: nested.items[i] == TreeFromInstance(elems[i], parse)
  {
    var nested := JList(AddAll([], elems, parse));
    assert TreeFromInstance(Element(nested), parse) == nested;
    Add(items, Element(nested), parse)
  }

  /** `addObj(builder)`: the builder's map, built from an empty one, is
      appended; an exception from the builder propagates and nothing is added. */
  function AddObj(items: seq<Json>, builder: Fields -> Result<Fields, Error>): (r: Result<seq<Json>, Error>)
    ensures builder([]).Failure? ==> r == Failure(builder([]).error)
    ensures builder([]).Success? ==> r == Success(items + [JMap(builder([]).value)])
  {
    match builder([])
    case Failure(err) => Failure(err)
    case Success(fs) => Success(Add(items, Element(JMap(fs)), _ => JNull))
  }

  /** `tryGet(int)`: `ArrayList.get` throws for an index outside `[0, size)`;
      elements are never `null`, so a result is always present. */
  function TryGet(items: seq<Json>, idx: int): (r: Result<Option<Json>, Error>)
    ensures r.Success? <==> 0 <= idx < |items|
    ensures r.Failure? ==> r.error == IndexOutOfBounds(idx)
    ensures r.Success? ==> r.value == Some(items[idx])
  {
    if 0 <= idx < |items| then Success(Some(items[idx])) else Failure(IndexOutOfBounds(idx))
  }

  /** `size()`: the valid indices are exactly `0 .. size - 1`. */
  function Size(items: seq<Json>): (n: nat)
    ensures forall i: int :: TryGet(items, i).Success? <==> 0 <= i < n
  {
    |items|
  }

  /** `isEmpty()`: no index is valid. */
  function IsEmpty(items: seq<Json>): (r: bool)
    ensures r <==> Size(items) == 0
    ensures r <==> TryGet(items, 0).Failure?
  {
    |items| == 0
  }

  /** `contains(Object)`: `ArrayList.contains`, i.e. some element is equal
      (`equals`) to the converted argument. */
  function Contains(items: seq<Json>, elem: Instance, parse: ForeignObject -> Json): (r: bool)
    ensures r <==> exists i | 0 <= i < |items| :: Equal(TreeFromInstance(elem, parse), items[i])
  {
    IndexOf(items, TreeFromInstance(elem, parse)) < |items|
  }

  /** `ArrayList.indexOf`: the first position holding an equal element, or the
      length when there is none. */
  function IndexOf(items: seq<Json>, target: Json): (k: nat)
    ensures k <= |items|
    ensures k < |items| ==> Equal(target, items[k])
    ensures forall j | 0 <= j < k :: !Equal(target, items[j])
  {
    if items == [] then 0
    else if Equal(target, items[0]) then 0
    else 1 + IndexOf(items[1..], target)
  }

  /** `removeAt(int)`: `ArrayList.remove(int)` deletes the element at `idx` and
      shifts the later ones left; it throws outside `[0, size)`. The answer
      "something was removed" is always true when no exception occurs. */
  function RemoveAt(items: seq<Json>, idx: int): (r: Result<(seq<Json>, bool), Error>)
    ensures r.Success? <==> 0 <= idx < |items|
    ensures r.Failure? ==> r.error == IndexOutOfBounds(idx)
    ensures r.Success? ==>
              var rest := r.value.0;
              r.value.1 && |rest| == |items| - 1 &&
              (forall j | 0 <= j < idx :: rest[j] == items[j]) &&
              (forall j | idx <= j < |rest| :: rest[j] == items[j + 1])
  {
    if 0 <= idx < |items| then Success((items[..idx] + items[idx + 1..], true))
    else Failure(IndexOutOfBounds(idx))
  }

  /** `clear()`: nothing is left. */
  function Clear(items: seq<Json>): (r: seq<Json>)
    ensures IsEmpty(r)
  {
    []
  }

  /** After `add`, the new element sits at the old size and every earlier index
      still holds what it held; removing it again restores the list. */
  lemma AddThenGet(items: seq<Json>, elem: Instance, parse: ForeignObject -> Json)
    ensures Size(Add(items, elem, parse)) == Size(items) + 1
    ensures TryGet(Add(items, elem, parse), |items|) == Success(Some(TreeFromInstance(elem, parse)))
    ensures forall i | 0 <= i < |items| :: TryGet(Add(items, elem, parse), i) == TryGet(items, i)
    ensures RemoveAt(Add(items, elem, parse), |items|) == Success((items, true))
  {
    var r := Add(items, elem, parse);
    assert r[..|items|] + r[|items| + 1..] == items;
  }

  /** An element just added is contained in the list. */
  lemma AddThenContains(items: seq<Json>, elem: Instance, parse: ForeignObject -> Json)
    requires WellFormed(TreeFromInstance(elem, parse))
    ensures Contains(Add(items, elem, parse), elem, parse)
  {
    var e := TreeFromInstance(elem, parse);
    EqualReflexive(e);
    assert Add(items, elem, parse)[|items|] == e;
  }

  /** Removing at an index and re-inserting the removed element there gives
      the original list back. */
  lemma RemoveAtThenInsert(items: seq<Json>, idx: int)
    requires 0 <= idx < |items|
    ensures var rest := RemoveAt(items, idx).value.0;
            rest[..idx] + [items[idx]] + rest[idx..] == items
  {
    var rest := RemoveAt(items, idx).value.0;
    assert rest[..idx] == items[..idx];
    assert rest[idx..] == items[idx + 1..];
  }

  /** The first element that is not a number, if any, in the form the typed
      array getters report. */
  predicate FirstWhereNot(items: seq<Json>, k: int, ok: Json -> bool) {
    0 <= k < |items| && !ok(items[k]) && forall j | 0 <= j < k :: ok(items[j])
  }

  predicate IsNumber(e: Json) {
    e.IsNumber()
  }

  predicate IsBool(e: Json) {
    e.JBool?
  }

  /** `getAsByteArray()`, `getAsShortArray()`, `getAsIntArray()` and
      `getAsLongArray()` for the widths 8, 16, 32 and 64: every element must be
      a number, which is narrowed as `JsonNumber.getAsByte()` etc. do; the
      first element that is not a number stops the loop with an
      `IllegalStateException` naming its index. */
  method GetAsIntegralArray(items: seq<Json>, w: Width) returns (r: Result<seq<int>, Error>)
    ensures r.Success? <==> forall i | 0 <= i < |items| :: items[i].IsNumber()
    ensures r.Success? ==>
              |r.value| == |items| &&
              forall i | 0 <= i < |items| :: items[i].IsNumber() && Fits(r.value[i], w) &&
                r.value[i] == Narrow(JsonNumber.IntegerPart(JsonNumber.GetAsNumber(items[i])), w)
    ensures r.Failure? ==>
              exists k :: FirstWhereNot(items, k, IsNumber) && r.error == CantConvertAtIndex(k, "JsonNumber")
  {
    var res: seq<int> := [];
    var i := 0;
    while i < |items|
      invariant 0 <= i <= |items|
      invariant |res| == i
      invariant forall j | 0 <= j < i :: items[j].IsNumber() && Fits(res[j], w) &&
                  res[j] == Narrow(JsonNumber.IntegerPart(JsonNumber.GetAsNumber(items[j])), w)
    {
      if items[i].IsNumber() {
        res := res + [JsonNumber.GetNarrowed(items[i], w)];
      } else {
        assert FirstWhereNot(items, i, IsNumber);
        return Failure(CantConvertAtIndex(i, "JsonNumber"));
      }
      i := i + 1;
    }
    return Success(res);
  }

  /** `getAsBoolArray()`: the payloads of the bool elements in order, or an
      `IllegalStateException` naming the first element that is not a bool. */
  method GetAsBoolArray(items: seq<Json>) returns (r: Result<seq<bool>, Error>)
    ensures r.Success? <==> forall i | 0 <= i < |items| :: items[i].JBool?
    ensures r.Success? ==>
              |r.value| == |items| &&
              forall i | 0 <= i < |items| :: items[i] == JBool(r.value[i])
    ensures r.Failure? ==>
              exists k :: FirstWhereNot(items, k, IsBool) && r.error == CantConvertAtIndex(k, "JsonBool")
  {
    var res: seq<bool> := [];
    var i := 0;
    while i < |items|
      invariant 0 <= i <= |items|
      invariant |res| == i
      invariant forall j | 0 <= j < i :: items[j] == JBool(res[j])
    {
      if items[i].JBool? {
        res := res + [items[i].b];
      } else {
        assert FirstWhereNot(items, i, IsBool);
        return Failure(CantConvertAtIndex(i, "JsonBool"));
      }
      i := i + 1;
    }
    return Success(res);
  }

  /** A string element whose Java length is one `char`. */
  predicate IsSingleChar(e: Json) {
    e.JString? && Utf16.Length(e.s) == 1
  }

  /** `getAsCharArray()`: `getAsChar()` of every element in order. The first
      element that is not a string stops the loop with an
      `IllegalStateException` naming its index; a string that is not one
      `char` long makes `getAsChar()` throw an `IllegalArgumentException`. */
  method GetAsCharArray(items: seq<Json>) returns (r: Result<seq<Utf16.CodeUnit>, Error>)
    ensures r.Success? <==> forall i | 0 <= i < |items| :: IsSingleChar(items[i])
    ensures r.Success? ==>
              |r.value| == |items| &&
              forall i | 0 <= i < |items| :: items[i].JString? && Utf16.Decode([r.value[i]]) == Some(items[i].s)
    ensures r.Failure? ==>
              exists k :: FirstWhereNot(items, k, IsSingleChar) &&
                r.error == (if items[k].JString? then IllegalArgument else CantConvertAtIndex(k, "JsonString"))
  {
    var res: seq<Utf16.CodeUnit> := [];
    var i := 0;
    while i < |items|
      invariant 0 <= i <= |items|
      invariant |res| == i
      invariant forall j | 0 <= j < i :: IsSingleChar(items[j]) && Utf16.Decode([res[j]]) == Some(items[j].s)
    {
      if !items[i].JString? {
        assert FirstWhereNot(items, i, IsSingleChar);
        return Failure(CantConvertAtIndex(i, "JsonString"));
      }
      var c := JsonString.GetAsChar(items[i]);
      if c.Failure? {
        assert FirstWhereNot(items, i, IsSingleChar);
        return Failure(c.error);
      }
      res := res + [c.value];
      i := i + 1;
    }
    return Success(res);
  }
}
