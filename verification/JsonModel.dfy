/** The JSON tree: the sealed hierarchy `JsonElement` with its kinds null, bool,
    integer, decimal, string, list and map, as one immutable datatype. A map is
    the insertion-ordered sequence of its entries (a `LinkedHashMap` in the
    library); a well-formed map has pairwise distinct keys. */
module JsonModel {

  import opened Wrappers
  import opened Decimals

  datatype Json =
    | JNull
    | JBool(b: bool)
    | JInteger(i: int)
    | JDecimal(d: BigDecimal)
    | JString(s: string)
    | JList(items: seq<Json>)
    | JMap(fields: seq<(string, Json)>)
  {
    /** `JsonContainer`: the kinds that hold other elements. */
    predicate IsContainer() {
      JList? || JMap?
    }

    /** `JsonNumber`: integers and decimals. */
    predicate IsNumber() {
      JInteger? || JDecimal?
    }
  }

  /** The entries of a map, in insertion order. */
  type Fields = seq<(string, Json)>

  /** The exceptions the modelled operations throw. */
  datatype Error =
    | NullPointer
    | IllegalArgument
    | NumberFormat(text: string)
    | IndexOutOfBounds(index: int)
    | FieldAlreadyExists(key: string)
    | CantConvertAtIndex(index: int, expected: string)
    | UnsupportedOperation

  /** An object the library does not know as a tree; only the external object
      parser can turn it into one. */
  datatype ForeignObject = ForeignObject(description: string)

  /** An argument of Java type `Object` handed to `add`: an element or anything else. */
  datatype Instance = Element(element: Json) | Foreign(foreign: ForeignObject)

  /** `Json.treeFromInstance`: an element is taken as it is; anything else goes
      through the object parser, which is a parameter here. */
  function TreeFromInstance(v: Instance, parse: ForeignObject -> Json): Json {
    match v
    case Element(e) => e
    case Foreign(o) => parse(o)
  }

  // ---- map entries ----

  /** `LinkedHashMap.get`: the value stored under `k`, if any. */
  function Get(fs: Fields, k: string): Option<Json> {
    if fs == [] then None
    else if fs[0].0 == k then Some(fs[0].1)
    else Get(fs[1..], k)
  }

  predicate HasKey(fs: Fields, k: string) {
    Get(fs, k).Some?
  }

  function KeySet(fs: Fields): set<string> {
    set i | 0 <= i < |fs| :: fs[i].0
  }

  predicate UniqueKeys(fs: Fields) {
    forall i, j | 0 <= i < j < |fs| :: fs[i].0 != fs[j].0
  }

  /** A key is found exactly when some entry carries it, and what is found is
      that entry's value. */
  lemma {:induction false} GetFound(fs: Fields, k: string)
    ensures HasKey(fs, k) <==> k in KeySet(fs)
    ensures HasKey(fs, k) ==> exists i | 0 <= i < |fs| :: fs[i] == (k, Get(fs, k).value)
  {
    if fs != [] && fs[0].0 != k {
      GetFound(fs[1..], k);
      assert KeySet(fs) == {fs[0].0} + KeySet(fs[1..]) by {
        forall x | x in KeySet(fs) ensures x in {fs[0].0} + KeySet(fs[1..]) {
          var i :| 0 <= i < |fs| && fs[i].0 == x;
          if i > 0 {
            assert fs[1..][i - 1].0 == x;
          }
        }
        forall x | x in KeySet(fs[1..]) ensures x in KeySet(fs) {
          var i :| 0 <= i < |fs[1..]| && fs[1..][i].0 == x;
          assert fs[i + 1].0 == x;
        }
      }
      if HasKey(fs, k) {
        var i :| 0 <= i < |fs[1..]| && fs[1..][i] == (k, Get(fs, k).value);
        assert fs[i + 1] == (k, Get(fs, k).value);
      }
    } else if fs != [] {
      assert fs[0] == (k, Get(fs, k).value);
    }
  }

  /** With distinct keys, every entry is what `get` returns for its key. */
  lemma {:induction false} GetUnique(fs: Fields, i: int)
    requires UniqueKeys(fs)
    requires 0 <= i < |fs|
    ensures Get(fs, fs[i].0) == Some(fs[i].1)
  {
    if i > 0 {
      assert fs[0].0 != fs[i].0;
      assert UniqueKeys(fs[1..]) by {
        forall a, b | 0 <= a < b < |fs[1..]| ensures fs[1..][a].0 != fs[1..][b].0 {
          assert fs[a + 1].0 != fs[b + 1].0;
        }
      }
      GetUnique(fs[1..], i - 1);
      assert fs[1..][i - 1] == fs[i];
    }
  }

  /** Distinct keys: as many keys as entries (the map's `size()`). */
  lemma {:induction false} KeySetSize(fs: Fields)
    requires UniqueKeys(fs)
    ensures |KeySet(fs)| == |fs|
  {
    if fs != [] {
      var last := |fs| - 1;
      var init := fs[..last];
      assert UniqueKeys(init) by {
        forall a, b | 0 <= a < b < |init| ensures init[a].0 != init[b].0 {
          assert init[a] == fs[a] && init[b] == fs[b];
        }
      }
      KeySetSize(init);
      assert KeySet(fs) == KeySet(init) + {fs[last].0} by {
        forall x | x in KeySet(fs) ensures x in KeySet(init) + {fs[last].0} {
          var i :| 0 <= i < |fs| && fs[i].0 == x;
          if i < last {
            assert init[i] == fs[i];
          }
        }
        forall x | x in KeySet(init) ensures x in KeySet(fs) {
          var i :| 0 <= i < |init| && init[i].0 == x;
          assert fs[i].0 == x;
        }
      }
      forall i | 0 <= i < |init| ensures init[i].0 != fs[last].0 {
        assert init[i] == fs[i];
      }
    }
  }

  /** Every map in the tree has distinct keys. */
  predicate WellFormed(e: Json)
    decreases e
  {
    match e
    case JList(xs) => forall i | 0 <= i < |xs| :: WellFormed(xs[i])
    case JMap(fs) => UniqueKeys(fs) && forall i | 0 <= i < |fs| :: WellFormed(fs[i].1)
    case _ => true
  }

  /** `JsonElement.equals`: the same concrete kind and equal payloads. Lists
      compare element by element (`List.equals`); maps compare as maps
      (`AbstractMap.equals`): the same size and, for every entry, an equal value
      under the same key in the other map, whatever the order; decimals compare
      unscaled value and scale (`BigDecimal.equals`). */
  predicate Equal(a: Json, b: Json)
    decreases a
  {
    match a
    case JList(xs) =>
      b.JList? && |xs| == |b.items| && forall i | 0 <= i < |xs| :: Equal(xs[i], b.items[i])
    case JMap(fs) =>
      b.JMap? && |fs| == |b.fields| &&
      forall i | 0 <= i < |fs| :: HasKey(b.fields, fs[i].0) && Equal(fs[i].1, Get(b.fields, fs[i].0).value)
    case _ => a == b
  }

  /** `equals(Object)`: `null` (here `None`) is never equal; any other
      argument is equal exactly when it is of the same kind with an equal
      payload, maps compared regardless of order. */
  function Equals(a: Json, other: Option<Json>): (r: bool)
    ensures r ==> other.Some?
    ensures other.Some? ==> (r <==> Equal(a, other.value))
    ensures WellFormed(a) && other == Some(a) ==> r
  {
    if other == Some(a) && WellFormed(a) then
      EqualReflexive(a);
      true
    else
      other.Some? && Equal(a, other.value)
  }

  /** `a.equals(b)` and `b.equals(a)` agree. */
  lemma EqualsSymmetric(a: Json, b: Json)
    requires WellFormed(a) && WellFormed(b)
    ensures Equals(a, Some(b)) == Equals(b, Some(a))
  {
    if Equal(a, b) {
      EqualSymmetric(a, b);
    }
    if Equal(b, a) {
      EqualSymmetric(b, a);
    }
  }

  /** `hashCode()`: `Objects.hashCode` of the payload, which is 0 for the
      null element's absent payload. The hash codes of the other payloads are
      Java library internals and come in as a parameter. */
  function HashCode(e: Json, payloadHash: Json -> int): (h: int)
    ensures e.JNull? ==> h == 0
  {
    if e.JNull? then 0 else payloadHash(e)
  }

  /** Every element equals itself. */
  lemma {:induction false} EqualReflexive(a: Json)
    requires WellFormed(a)
    ensures Equal(a, a)
    decreases a
  {
    match a
    case JList(xs) =>
      forall i | 0 <= i < |xs| ensures Equal(xs[i], xs[i]) {
        EqualReflexive(xs[i]);
      }
    case JMap(fs) =>
      forall i | 0 <= i < |fs|
        ensures HasKey(fs, fs[i].0) && Equal(fs[i].1, Get(fs, fs[i].0).value)
      {
        GetUnique(fs, i);
        EqualReflexive(fs[i].1);
      }
    case _ =>
  }

  /** Equal elements are of the same kind, and on the primitive kinds equality
      is equality of the payload: integer 1 never equals decimal 1. */
  lemma EqualSameKind(a: Json, b: Json)
    requires Equal(a, b)
    ensures a.JNull? == b.JNull? && a.JBool? == b.JBool? && a.JInteger? == b.JInteger?
    ensures a.JDecimal? == b.JDecimal? && a.JString? == b.JString?
    ensures a.JList? == b.JList? && a.JMap? == b.JMap?
    ensures !a.IsContainer() ==> a == b
  {
  }

  /** A key-preserving injection between equally many distinct keys is onto:
      the keys of two equal maps coincide. */
  lemma SameKeys(fs: Fields, gs: Fields)
    requires UniqueKeys(fs) && UniqueKeys(gs) && |fs| == |gs|
    requires forall i | 0 <= i < |fs| :: HasKey(gs, fs[i].0)
    ensures KeySet(fs) == KeySet(gs)
  {
    KeySetSize(fs);
    KeySetSize(gs);
    assert KeySet(fs) <= KeySet(gs) by {
      forall x | x in KeySet(fs) ensures x in KeySet(gs) {
        var i :| 0 <= i < |fs| && fs[i].0 == x;
        GetFound(gs, x);
      }
    }
    SubsetOfSameSize(KeySet(fs), KeySet(gs));
  }

  lemma SubsetOfSameSize<T>(a: set<T>, b: set<T>)
    requires a <= b && |a| == |b|
    ensures a == b
  {
    assert |b - a| == |b| - |a|;
  }

  /** Equality is symmetric on well-formed trees. */
  lemma {:induction false} EqualSymmetric(a: Json, b: Json)
    requires WellFormed(a) && WellFormed(b)
    requires Equal(a, b)
    ensures Equal(b, a)
    decreases a
  {
    match a
    case JList(xs) =>
      forall i | 0 <= i < |xs| ensures Equal(b.items[i], xs[i]) {
        EqualSymmetric(xs[i], b.items[i]);
      }
    case JMap(fs) =>
      var gs := b.fields;
      SameKeys(fs, gs);
      forall j | 0 <= j < |gs|
        ensures HasKey(fs, gs[j].0) && Equal(gs[j].1, Get(fs, gs[j].0).value)
      {
        var k := gs[j].0;
        assert k in KeySet(gs);
        var i :| 0 <= i < |fs| && fs[i].0 == k;
        GetUnique(fs, i);
        GetUnique(gs, j);
        EqualSymmetric(fs[i].1, gs[j].1);
      }
    case _ =>
  }

  /** Equality is transitive on well-formed trees. */
  lemma {:induction false} EqualTransitive(a: Json, b: Json, c: Json)
    requires WellFormed(a) && WellFormed(b) && WellFormed(c)
    requires Equal(a, b) && Equal(b, c)
    ensures Equal(a, c)
    decreases a
  {
    match a
    case JList(xs) =>
      forall i | 0 <= i < |xs| ensures Equal(xs[i], c.items[i]) {
        EqualTransitive(xs[i], b.items[i], c.items[i]);
      }
    case JMap(fs) =>
      var gs := b.fields;
      var hs := c.fields;
      SameKeys(fs, gs);
      forall i | 0 <= i < |fs|
        ensures HasKey(hs, fs[i].0) && Equal(fs[i].1, Get(hs, fs[i].0).value)
      {
        var k := fs[i].0;
        assert k in KeySet(gs);
        var j :| 0 <= j < |gs| && gs[j].0 == k;
        GetUnique(gs, j);
        GetFound(hs, k);
        var l :| 0 <= l < |hs| && hs[l] == (k, Get(hs, k).value);
        EqualTransitive(fs[i].1, gs[j].1, hs[l].1);
      }
    case _ =>
  }

  /** Maps holding the same entries are equal whatever their insertion order. */
  lemma MapOrderIrrelevant(fs: Fields, gs: Fields)
    requires WellFormed(JMap(fs)) && UniqueKeys(gs) && |fs| == |gs|
    requires forall i | 0 <= i < |fs| :: fs[i] in gs
    ensures Equal(JMap(fs), JMap(gs))
  {
    forall i | 0 <= i < |fs|
      ensures HasKey(gs, fs[i].0) && Equal(fs[i].1, Get(gs, fs[i].0).value)
    {
      var j :| 0 <= j < |gs| && gs[j] == fs[i];
      GetUnique(gs, j);
      EqualReflexive(fs[i].1);
    }
  }
}
