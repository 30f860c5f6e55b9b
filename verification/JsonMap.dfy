/** `JsonMap`: string keys to elements, in insertion order (a `LinkedHashMap`).
    Mutating operations return the new entry sequence. */
module JsonMap {

  import opened Wrappers
  import opened JsonModel
  import JsonList

  /** The copy constructor `JsonMap(Map)`: a new map with the same entries. */
  function Copy(fields: Fields): (r: Fields)
    ensures forall k :: Get(r, k) == Get(fields, k)
    ensures UniqueKeys(fields) ==> UniqueKeys(r) && |r| == |fields|
  {
    fields
  }

  /** `add(String, Object)`: a `null` key is a `NullPointerException`, a key
      already present a `JsonFieldAlreadyExistsException`; otherwise the
      converted value is stored under the key as the last entry, after all
      earlier entries in their order. */
  function Add(fields: Fields, key: Option<string>, value: Instance, parse: ForeignObject -> Json)
    : (r: Result<Fields, Error>)
    ensures key.None? ==> r == Failure(NullPointer)
    ensures key.Some? && HasKey(fields, key.value) ==> r == Failure(FieldAlreadyExists(key.value))
    ensures r.Success? <==> key.Some? && !HasKey(fields, key.value)
    ensures r.Success? ==>
              |r.value| == |fields| + 1 && r.value[..|fields|] == fields &&
              r.value[|fields|] == (key.value, TreeFromInstance(value, parse))
    ensures r.Success? && value.Element? ==> r.value[|fields|].1 == value.element
  {
    match key
    case None => Failure(NullPointer)
    case Some(k) =>
      if HasKey(fields, k) then Failure(FieldAlreadyExists(k))
      else Success(fields + [(k, TreeFromInstance(value, parse))])
  }

  /** `addObj(String, builder)`: the builder runs first on an empty map (an
      exception from it propagates), then its map is added under the key. */
  function AddObj(fields: Fields, key: Option<string>, builder: Fields -> Result<Fields, Error>)
    : (r: Result<Fields, Error>)
    ensures builder([]).Failure? ==> r == Failure(builder([]).error)
    ensures builder([]).Success? ==> r == Add(fields, key, Element(JMap(builder([]).value)), _ => JNull)
  {
    match builder([])
    case Failure(err) => Failure(err)
    case Success(m) => Add(fields, key, Element(JMap(m)), _ => JNull)
  }

  /** `addList(String, ...)`: every overload adds `new JsonList(values)`, a list
      holding the converted values in order, under the key. */
  function AddList(fields: Fields, key: Option<string>, values: seq<Instance>, parse: ForeignObject -> Json)
    : (r: Result<Fields, Error>)
    ensures key.None? ==> r == Failure(NullPointer)
    ensures key.Some? && HasKey(fields, key.value) ==> r == Failure(FieldAlreadyExists(key.value))
    ensures r.Success? <==> key.Some? && !HasKey(fields, key.value)
    ensures r.Success? ==>
              |r.value| == |fields| + 1 && r.value[..|fields|] == fields &&
              r.value[|fields|].0 == key.value &&
              var nested := r.value[|fields|].1;
              nested.JList? && |nested.items| == |values| &&
              forall i | 0 <= i < |values| :: nested.items[i] == TreeFromInstance(values[i], parse)
  {
    var items := JsonList.AddAll([], values, parse);
    assert forall i | 0 <= i < |values| :: items[i] == TreeFromInstance(values[i], parse) by {
      forall i | 0 <= i < |values| ensures items[i] == TreeFromInstance(values[i], parse) {
        assert items[0 + i] == TreeFromInstance(values[i], parse);
      }
    }
    Add(fields, key, Element(JList(items)), parse)
  }

  /** `contains(String)`: `null` is an `IllegalArgumentException`; otherwise
      whether some entry has the key. */
  function Contains(fields: Fields, key: Option<string>): (r: Result<bool, Error>)
    ensures key.None? <==> r == Failure(IllegalArgument)
    ensures r.Success? ==> (r.value <==> key.value in KeySet(fields))
  {
    match key
    case None => Failure(IllegalArgument)
    case Some(k) =>
      GetFound(fields, k);
      Success(HasKey(fields, k))
  }

  /** `tryGet(String)`: the value stored under the key, if any; a `null` key is
      never stored, so it finds nothing. */
  function TryGet(fields: Fields, key: Option<string>): (r: Option<Json>)
    ensures r.Some? <==> key.Some? && key.value in KeySet(fields)
    ensures r.Some? ==> exists i | 0 <= i < |fields| :: fields[i] == (key.value, r.value)
  {
    match key
    case None => None
    case Some(k) =>
      GetFound(fields, k);
      Get(fields, k)
  }

  /** `LinkedHashMap.remove(key)`: the entry for `key` is dropped, the others
      keep their order. */
  function Remove(fields: Fields, k: string): Fields {
    if fields == [] then []
    else if fields[0].0 == k then fields[1..]
    else [fields[0]] + Remove(fields[1..], k)
  }

  /** What removal does: one entry fewer when the key was present, nothing
      otherwise; other keys keep their values; with distinct keys the removed
      key is gone and the rest stay distinct. */
  lemma {:induction false} RemoveFacts(fields: Fields, k: string)
    ensures var r := Remove(fields, k);
            (HasKey(fields, k) ==> |r| == |fields| - 1) &&
            (!HasKey(fields, k) ==> r == fields) &&
            (forall k' | k' != k :: Get(r, k') == Get(fields, k')) &&
            (UniqueKeys(fields) ==> UniqueKeys(r) && !HasKey(r, k)) &&
            KeySet(r) <= KeySet(fields) &&
            (HasKey(fields, k) ==> r == fields[..KeyIndex(fields, k)] + fields[KeyIndex(fields, k) + 1..])
  {
    if HasKey(fields, k) {
      RemoveSplits(fields, k);
    }
    if fields == [] {
    } else if fields[0].0 == k {
      var r := fields[1..];
      if UniqueKeys(fields) {
        TailUniqueKeys(fields);
        GetFound(r, k);
      }
      TailKeys(fields);
    } else {
      var tail := Remove(fields[1..], k);
      RemoveFacts(fields[1..], k);
      var r := [fields[0]] + tail;
      assert r[1..] == tail;
      assert r[0] == fields[0];
      if UniqueKeys(fields) {
        TailUniqueKeys(fields);
        assert fields[0].0 !in KeySet(tail);
        assert UniqueKeys(r) by {
          forall a, b | 0 <= a < b < |r| ensures r[a].0 != r[b].0 {
            if a == 0 {
              assert r[b] == tail[b - 1];
              assert tail[b - 1].0 in KeySet(tail);
            } else {
              assert r[a] == tail[a - 1] && r[b] == tail[b - 1];
            }
          }
        }
      }
      TailKeys(fields);
      assert KeySet(r) <= KeySet(fields) by {
        forall x | x in KeySet(r) ensures x in KeySet(fields) {
          var i :| 0 <= i < |r| && r[i].0 == x;
          if i > 0 {
            assert tail[i - 1].0 == x;
          }
        }
      }
    }
  }

  /** The position of the first entry with key `k`. */
  function KeyIndex(fields: Fields, k: string): (i: nat)
    requires HasKey(fields, k)
    ensures i < |fields| && fields[i].0 == k
    ensures forall j | 0 <= j < i :: fields[j].0 != k
  {
    if fields[0].0 == k then 0
    else
      var i := 1 + KeyIndex(fields[1..], k);
      assert forall j | 1 <= j < i :: fields[j] == fields[1..][j - 1];
      i
  }

  /** Removal cuts out the first entry with the key; the entries before and
      after it stay in their order. */
  lemma {:induction false} RemoveSplits(fields: Fields, k: string)
    requires HasKey(fields, k)
    ensures var i := KeyIndex(fields, k);
            Remove(fields, k) == fields[..i] + fields[i + 1..]
  {
    if fields[0].0 != k {
      var tail := fields[1..];
      RemoveSplits(tail, k);
      var i' := KeyIndex(tail, k);
      assert KeyIndex(fields, k) == i' + 1;
      assert Remove(fields, k) == [fields[0]] + Remove(tail, k);
      assert fields[..i' + 1] == [fields[0]] + tail[..i'];
      assert fields[i' + 2..] == tail[i' + 1..];
      assert [fields[0]] + (tail[..i'] + tail[i' + 1..]) == ([fields[0]] + tail[..i']) + tail[i' + 1..];
    }
  }

  /** The keys of the entries after the first are keys of the whole map. */
  lemma TailKeys(fields: Fields)
    requires fields != []
    ensures KeySet(fields[1..]) <= KeySet(fields)
  {
    forall x | x in KeySet(fields[1..]) ensures x in KeySet(fields) {
      var i :| 0 <= i < |fields[1..]| && fields[1..][i].0 == x;
      assert fields[i + 1].0 == x;
    }
  }

  /** The entries after the first still have distinct keys, none equal to the first. */
  lemma TailUniqueKeys(fields: Fields)
    requires fields != [] && UniqueKeys(fields)
    ensures UniqueKeys(fields[1..])
    ensures fields[0].0 !in KeySet(fields[1..])
  {
    forall a, b | 0 <= a < b < |fields[1..]| ensures fields[1..][a].0 != fields[1..][b].0 {
      assert fields[a + 1].0 != fields[b + 1].0;
    }
    forall i | 0 <= i < |fields[1..]| ensures fields[1..][i].0 != fields[0].0 {
      assert fields[i + 1].0 != fields[0].0;
    }
  }

  /** `removeKey(String)`: `remove(key) != null`, true exactly when the key was
      present, in which case the map shrinks by one and no longer has it;
      every other key keeps its value. A `null` key removes nothing. */
  function RemoveKey(fields: Fields, key: Option<string>): (r: (Fields, bool))
    ensures r.1 <==> key.Some? && HasKey(fields, key.value)
    ensures !r.1 ==> r.0 == fields
    ensures r.1 ==> |r.0| == |fields| - 1
    ensures r.1 ==> r.0 == fields[..KeyIndex(fields, key.value)] + fields[KeyIndex(fields, key.value) + 1..]
    ensures key.Some? && UniqueKeys(fields) ==> !HasKey(r.0, key.value) && UniqueKeys(r.0)
    ensures forall k' | key.None? || k' != key.value :: Get(r.0, k') == Get(fields, k')
  {
    match key
    case None => (fields, false)
    case Some(k) =>
      RemoveFacts(fields, k);
      if HasKey(fields, k) then (Remove(fields, k), true) else (fields, false)
  }

  /** Lookup after appending an entry: earlier entries win, the new key is found. */
  lemma {:induction false} GetAppend(fields: Fields, k: string, v: Json, k': string)
    ensures Get(fields + [(k, v)], k') ==
            if HasKey(fields, k') then Get(fields, k') else if k' == k then Some(v) else None
  {
    if fields != [] {
      assert (fields + [(k, v)])[1..] == fields[1..] + [(k, v)];
      GetAppend(fields[1..], k, v, k');
    }
  }

  /** After a successful `add`, the key holds the converted value, every other
      key is unaffected, keys stay distinct, and `removeKey` of the same key
      restores the map. */
  lemma AddThenGet(fields: Fields, k: string, value: Instance, parse: ForeignObject -> Json)
    requires UniqueKeys(fields) && !HasKey(fields, k)
    ensures var r := Add(fields, Some(k), value, parse).value;
            Get(r, k) == Some(TreeFromInstance(value, parse)) &&
            (forall k' | k' != k :: Get(r, k') == Get(fields, k')) &&
            UniqueKeys(r) &&
            RemoveKey(r, Some(k)) == (fields, true)
  {
    var e := TreeFromInstance(value, parse);
    var r := Add(fields, Some(k), value, parse).value;
    GetAppend(fields, k, e, k);
    forall k' | k' != k ensures Get(r, k') == Get(fields, k') {
      GetAppend(fields, k, e, k');
    }
    GetFound(fields, k);
    assert UniqueKeys(r) by {
      forall a, b | 0 <= a < b < |r| ensures r[a].0 != r[b].0 {
        if b == |fields| {
          assert r[a] == fields[a];
          assert fields[a].0 in KeySet(fields);
        } else {
          assert r[a] == fields[a] && r[b] == fields[b];
        }
      }
    }
    RemoveAppended(fields, k, e);
  }

  /** Removing the key of an appended entry whose key was new gives the old entries. */
  lemma {:induction false} RemoveAppended(fields: Fields, k: string, v: Json)
    requires !HasKey(fields, k)
    ensures Remove(fields + [(k, v)], k) == fields
  {
    if fields != [] {
      assert (fields + [(k, v)])[1..] == fields[1..] + [(k, v)];
      RemoveAppended(fields[1..], k, v);
    }
  }

  /** A second `removeKey` of the same key returns false and changes nothing. */
  lemma RemoveTwice(fields: Fields, key: Option<string>)
    requires UniqueKeys(fields)
    ensures var once := RemoveKey(fields, key).0;
            RemoveKey(once, key) == (once, false)
  {
  }

  /** `contains` agrees with `tryGet` on every non-null key. */
  lemma ContainsIffTryGet(fields: Fields, k: string)
    ensures Contains(fields, Some(k)) == Success(TryGet(fields, Some(k)).Some?)
  {
  }

  /** Adding keeps a well-formed map well-formed when the stored value is. */
  lemma AddPreservesWellFormed(fields: Fields, k: string, value: Instance, parse: ForeignObject -> Json)
    requires WellFormed(JMap(fields)) && !HasKey(fields, k)
    requires WellFormed(TreeFromInstance(value, parse))
    ensures WellFormed(JMap(Add(fields, Some(k), value, parse).value))
  {
    AddThenGet(fields, k, value, parse);
    var r := Add(fields, Some(k), value, parse).value;
    forall i | 0 <= i < |r| ensures WellFormed(r[i].1) {
      if i < |fields| {
        assert r[i] == fields[i];
      }
    }
  }
}
