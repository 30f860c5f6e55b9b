# framework-json in Dafny

This project models the in-memory JSON tree of the TriNext `framework-json`
library and proves properties of the model. A tree is built from seven kinds
of element: null, bool, integer, decimal, string, list and map.

- **Element kinds.** One immutable recursive datatype `JsonModel.Json`
  covers all seven kinds.
  - Integers are unbounded (`BigInteger`).
  - Decimals are `BigDecimal(unscaled, scale)`.
  - A map is an insertion-ordered sequence of `(key, element)` entries, as a
    `LinkedHashMap` keeps them.
- **Mutation.** The Java containers are mutated in place. Here every mutating
  operation returns the new list or entry sequence instead.
- **Absent values and errors.** A Java `null` argument is `None`, and an
  `Optional` result is an `Option`. An exception is a `Failure` carrying one
  of the `JsonModel.Error` cases.
- **Foreign objects.** The library hands objects that are not elements to an
  object parser. That parser is outside this model, so it comes in as a
  function parameter `parse`. The same holds for the JSON escaping of string
  elements (`quote`) and the per-element conversion of `tryGetAsCharArray`
  (`convert`).

Modules, following the Java classes:

- `JsonModel`: the element datatype, map lookup, and `equals`/`hashCode`.
  Equality means the same kind and equal payloads. Maps are compared
  regardless of entry order; decimals by unscaled value and scale.
- `JsonNull`, `JsonBool`, `JsonInteger`, `JsonDecimal`, `JsonNumber`,
  `JsonString`, `JsonPrimitive`: factories, getters and renderings of the
  primitive kinds.
- `JsonList`, `JsonMap`: the container operations.
- `JsonText`: `toString` of every kind, containers recursively.
- `JsonPathFinder`: splitting a dotted path, and the walk through map keys
  and list indices. Since the tree is an immutable value, a lookup cannot
  change it.
- `JsonElement`: the `tryGetAs*` getters, the path lookups and the
  list-to-stream getters.
- Supporting modules:
  - `Narrowing`: narrowing primitive conversion as section 5.1.3 of the Java
    Language Specification defines it.
  - `Decimals`: the `BigDecimal` arithmetic used here.
  - `DecimalText`: `BigInteger.toString`, `BigDecimal.toPlainString` and
    `Integer.parseInt`.
  - `BigDecimalHelper`: `isInteger`.
  - `Utf16`: Java's view of a string as UTF-16 code units (`char`s), with
    decoding proved to undo encoding.
  - `Arith`, `Wrappers`: arithmetic facts, and `Option`/`Result`.

## Model

Source paths are relative to the repository root.

| member | source | states |
|---|---|---|
| JsonModel.Equals | src/main/java/de/trinext/framework/json/JsonElement.java:62-66 | `equals(null)` is false; any other argument is equal exactly when it is of the same kind with an equal payload (maps regardless of order), and every element whose maps have distinct keys equals itself |
| JsonModel.EqualsSymmetric | src/main/java/de/trinext/framework/json/JsonElement.java:62-66 | `a.equals(b)` and `b.equals(a)` agree for all elements whose maps have distinct keys |
| JsonModel.EqualSameKind | src/main/java/de/trinext/framework/json/JsonElement.java:62-66 | equal elements are of the same concrete kind, and equal primitives have the same payload, so integer 1 never equals decimal 1 |
| JsonModel.EqualReflexive | src/main/java/de/trinext/framework/json/JsonElement.java:62-66 | every element whose maps have distinct keys equals itself |
| JsonModel.EqualSymmetric | src/main/java/de/trinext/framework/json/JsonElement.java:62-66 | equality is symmetric |
| JsonModel.EqualTransitive | src/main/java/de/trinext/framework/json/JsonElement.java:62-66 | equality is transitive |
| JsonModel.MapOrderIrrelevant | src/main/java/de/trinext/framework/json/JsonElement.java:62-66 | two maps holding the same entries are equal whatever their insertion order |
| JsonModel.HashCode | src/main/java/de/trinext/framework/json/JsonElement.java:57-59 | the null element hashes to 0 |
| JsonNull.ToString | src/main/java/de/trinext/framework/json/JsonNull.java:24-27 | the null element renders as `null` |
| JsonNull.Singleton | src/main/java/de/trinext/framework/json/JsonNull.java:13-20 | every null element is `NULL`; it hashes to 0, equals itself and not `null` |
| JsonBool.From | src/main/java/de/trinext/framework/json/JsonBool.java:23-25 | `from(b)` is one of the two singletons and carries `b` |
| JsonBool.ToString | src/main/java/de/trinext/framework/json/JsonBool.java:27-30 | the text is `true` or `false`, and `from(text == "true")` gives the element back |
| JsonBool.Singletons | src/main/java/de/trinext/framework/json/JsonBool.java:13 | `TRUE` and `FALSE` differ, each equals itself, neither equals `null` |
| JsonInteger.FromLong | src/main/java/de/trinext/framework/json/JsonInteger.java:33-35 | `from(long)` gives an integer element whose `getAsBigInt()` is the argument |
| JsonInteger.FromInt | src/main/java/de/trinext/framework/json/JsonInteger.java:29-31 | widening `int` to `long` keeps the value: `getAsBigInt()` gives the argument back |
| JsonInteger.FromShort | src/main/java/de/trinext/framework/json/JsonInteger.java:25-27 | widening `short` to `long` keeps the value: `getAsBigInt()` gives the argument back |
| JsonInteger.FromByte | src/main/java/de/trinext/framework/json/JsonInteger.java:21-23 | widening `byte` to `long` keeps the value: `getAsBigInt()` gives the argument back |
| JsonInteger.FromBigIntKeepsValue | src/main/java/de/trinext/framework/json/JsonInteger.java:37-39 | `from(BigInteger)` keeps the value: `getAsBigInt()` returns it and `getAsBigDec()` has the same value |
| JsonInteger.GetAsBigInt | src/main/java/de/trinext/framework/json/JsonInteger.java:42-45 | `from(getAsBigInt())` gives the element back |
| JsonInteger.GetAsBigDec | src/main/java/de/trinext/framework/json/JsonInteger.java:47-50 | a decimal of scale 0 whose integer part is the stored integer |
| JsonInteger.HasDecimalPlaces | src/main/java/de/trinext/framework/json/JsonInteger.java:56-59 | always false, in agreement with `getAsBigDec()` being integral |
| JsonInteger.ToString | src/main/java/de/trinext/framework/json/JsonInteger.java:61-64 | a minus sign exactly for negative values, then digits with no superfluous leading zero; parsing it back gives the value |
| DecimalText.IntToStringRoundTrip | src/main/java/de/trinext/framework/json/JsonInteger.java:61-64 | reading the base-10 rendering back gives the integer |
| DecimalText.IntToStringNoLeadingZero | src/main/java/de/trinext/framework/json/JsonInteger.java:61-64 | the rendering has at least one digit and no superfluous leading zero |
| DecimalText.ParseInt | src/main/java/de/trinext/framework/json/JsonPathFinder.java:33 | `Integer.parseInt` succeeds exactly for a signed digit string whose value fits 32 bits, and returns that value |
| DecimalText.PlainString | src/main/java/de/trinext/framework/json/JsonDecimal.java:59-62 | `toPlainString()` uses only digits, one leading minus exactly for negative values, and the point, with no superfluous leading zero before the point |
| DecimalText.PlainMagnitudeWhole | src/main/java/de/trinext/framework/json/JsonDecimal.java:59-62 | the unsigned rendering is "0" before the point or starts with a non-zero digit |
| DecimalText.PlainStringRoundTrip | src/main/java/de/trinext/framework/json/JsonDecimal.java:59-62 | reading the plain rendering back gives a decimal of the same value with non-negative scale |
| JsonDecimal.GetAsBigInt | src/main/java/de/trinext/framework/json/JsonNumber.java:112-118 | `toBigInteger()` truncates toward zero: the result times 10^scale lies within one unit of the unscaled value, on the side of zero |
| JsonDecimal.FromKeepsValue | src/main/java/de/trinext/framework/json/JsonDecimal.java:39-41 | `from(BigDecimal)` stores the value unchanged, scale included: `getAsBigDec()` returns it and `getAsBigInt()` is its integer part |
| JsonDecimal.GetAsBigDec | src/main/java/de/trinext/framework/json/JsonNumber.java:120-123 | `from(getAsBigDec())` gives the element back |
| JsonDecimal.HasDecimalPlaces | src/main/java/de/trinext/framework/json/JsonNumber.java:132-133 | true exactly when the value is not integral, i.e. differs from its integer part |
| JsonDecimal.ToString | src/main/java/de/trinext/framework/json/JsonDecimal.java:59-62 | the plain rendering: no exponent, no superfluous leading zero, and reading it back gives the value (its scale too when non-negative), which together fix the text |
| JsonDecimal.EqualIffSameRepresentation | src/main/java/de/trinext/framework/json/JsonElement.java:62-66 | decimal elements are equal exactly when unscaled value and scale agree; 2.0 and 2.00 differ though numerically equal |
| JsonDecimal.NeverEqualOtherKinds | src/main/java/de/trinext/framework/json/JsonElement.java:62-66 | a decimal never equals an integer, the null element or `null` |
| JsonNumber.From | src/main/java/de/trinext/framework/json/JsonNumber.java:32-44 | the integer kinds give an integer element, `BigDecimal` a decimal one, and `getAsNumber()` of the result is the argument's value |
| JsonNumber.FromAgreesWithSubclasses | src/main/java/de/trinext/framework/json/JsonNumber.java:32-44 | `from` of each integer kind equals `JsonInteger.from` of its value; of a `BigDecimal` it equals `JsonDecimal.from` |
| JsonNumber.GetAsNumber | src/main/java/de/trinext/framework/json/JsonNumber.java:128-130 | the wrapped value unchanged: wrapping it again gives the element back |
| JsonNumber.NumberByteValue | src/main/java/de/trinext/framework/json/JsonNumber.java:53-55 | `byteValue()`, i.e. `(byte) intValue()`, is the direct 8-bit narrowing of the integer part |
| JsonNumber.NumberShortValue | src/main/java/de/trinext/framework/json/JsonNumber.java:64-66 | `shortValue()`, i.e. `(short) intValue()`, is the direct 16-bit narrowing of the integer part |
| JsonNumber.NumberIntValue | src/main/java/de/trinext/framework/json/JsonNumber.java:75-77 | `intValue()` is the 32-bit narrowing of the integer part |
| JsonNumber.NumberLongValue | src/main/java/de/trinext/framework/json/JsonNumber.java:86-88 | `longValue()` is the 64-bit narrowing of the integer part |
| JsonNumber.GetAsByte | src/main/java/de/trinext/framework/json/JsonNumber.java:53-55 | within the signed 8-bit range and congruent to the integer part modulo 2^8 |
| JsonNumber.GetAsShort | src/main/java/de/trinext/framework/json/JsonNumber.java:64-66 | within the signed 16-bit range and congruent to the integer part modulo 2^16 |
| JsonNumber.GetAsInt | src/main/java/de/trinext/framework/json/JsonNumber.java:75-77 | within the signed 32-bit range and congruent to the integer part modulo 2^32 |
| JsonNumber.GetAsLong | src/main/java/de/trinext/framework/json/JsonNumber.java:86-88 | within the signed 64-bit range and congruent to the integer part modulo 2^64 |
| JsonNumber.NarrowInRange | src/main/java/de/trinext/framework/json/JsonNumber.java:46-88 | a value that already fits the target type comes back unchanged |
| JsonNumber.WidenThenNarrow | src/test/java/de/trinext/framework/json/JsonIntegerTest.java:46-58 | a byte, short, int or long widened by `from` and narrowed back to its own width is unchanged |
| JsonNumber.DecimalTruncatedFirst | src/main/java/de/trinext/framework/json/JsonNumber.java:112-118 | a decimal is truncated toward zero before narrowing: 2.9 gives 2 and -2.9 gives -2 |
| JsonNumber.GetAsBigInt | src/main/java/de/trinext/framework/json/JsonNumber.java:112-118 | the integer part of the number: the integer itself or the truncated decimal |
| JsonNumber.GetAsBigDec | src/main/java/de/trinext/framework/json/JsonNumber.java:120-123 | the decimal itself, or the integer at scale 0 |
| JsonNumber.HasDecimalPlaces | src/main/java/de/trinext/framework/json/JsonNumber.java:132-133 | true exactly when `getAsBigDec()` is not integral; never for an integer |
| Narrowing.Narrow | src/main/java/de/trinext/framework/json/JsonNumber.java:46-88 | the narrowed value fits the target width, is congruent to the input modulo 2^width, and is the input itself when that fits |
| Narrowing.NarrowIsUnique | src/main/java/de/trinext/framework/json/JsonNumber.java:46-88 | the narrowed value is the only value in range congruent to the input |
| Narrowing.NarrowTwice | src/main/java/de/trinext/framework/json/JsonNumber.java:53-66 | narrowing to 32 bits and then to 8 or 16 equals narrowing directly |
| BigDecimalHelper.IsInteger | src/main/java/util/BigDecimalHelper.java:14-16 | true exactly when no non-zero digit follows the point |
| BigDecimalHelper.IsIntegerTest | src/main/java/util/BigDecimalHelper.java:14-16 | the zero test, the scale test and the stripped-scale test together decide integrality |
| BigDecimalHelper.StripScaleIntegral | src/main/java/util/BigDecimalHelper.java:14-16 | for a non-zero value, stripping trailing zeros reaches a non-positive scale exactly when the unscaled value is divisible by 10^scale |
| BigDecimalHelper.IsIntegerRespectsValue | src/main/java/util/BigDecimalHelper.java:14-16 | the answer depends only on the numeric value: 5.00 and 5 agree |
| BigDecimalHelper.IsIntegerIffExact | src/main/java/util/BigDecimalHelper.java:14-16 | integral exactly when equal to its integer part |
| BigDecimalHelper.IsIntegerExamples | src/test/java/util/BigDecimalHelperTest.java:16-20 | 5 is integral, 5.44 is not, 5.00 is |
| JsonPrimitive.TryFrom | src/main/java/de/trinext/framework/json/JsonPrimitive.java:20-27 | a Boolean gives the bool with its value, a Number the number element of the same value, a CharSequence the string with the same text; `null` is a null-pointer error and anything else an illegal argument |
| JsonList.Add | src/main/java/de/trinext/framework/json/JsonList.java:174-177 | `add` appends exactly one element, the argument converted to a tree (an element argument kept as it is), after the unchanged earlier elements |
| JsonList.AddThenGet | src/main/java/de/trinext/framework/json/JsonList.java:174-177 | `add` grows the list by one, the converted element sits at the old size, earlier indices are unchanged, and removing it again restores the list |
| JsonList.AddAll | src/main/java/de/trinext/framework/json/JsonList.java:219-267 | the list grows by the number of values, keeps its elements in front, and holds the converted values after them in order |
| JsonList.AddList | src/main/java/de/trinext/framework/json/JsonList.java:179-217 | exactly one element is appended, a list holding the converted values in order |
| JsonList.AddObj | src/main/java/de/trinext/framework/json/JsonList.java:270-272 | the builder's map, built from an empty one, is appended; a builder failure propagates |
| JsonList.TryGet | src/main/java/de/trinext/framework/json/JsonList.java:274-276 | the element at a valid index is present; any other index is an index error naming it |
| JsonList.Size | src/main/java/de/trinext/framework/json/JsonList.java:279-281 | the indices `tryGet` accepts are exactly 0 to size - 1 |
| JsonList.IsEmpty | src/main/java/de/trinext/framework/json/JsonList.java:284-286 | empty exactly when the size is 0, i.e. index 0 is an error |
| JsonList.Contains | src/main/java/de/trinext/framework/json/JsonList.java:288-290 | true exactly when some element equals the converted argument |
| JsonList.AddThenContains | src/main/java/de/trinext/framework/json/JsonList.java:288-290 | an element just added is contained |
| JsonList.RemoveAt | src/main/java/de/trinext/framework/json/JsonList.java:292-294 | a valid index is deleted and the later elements shift left, answering true; any other index is an index error |
| JsonList.RemoveAtThenInsert | src/main/java/de/trinext/framework/json/JsonList.java:292-294 | re-inserting the removed element at its index gives the original list |
| JsonList.Clear | src/main/java/de/trinext/framework/json/JsonList.java:296-298 | the list is empty afterwards |
| JsonList.GetAsIntegralArray | src/main/java/de/trinext/framework/json/JsonList.java:318-383 | succeeds exactly when every element is a number; then entry i is the narrowed number at i; otherwise fails naming the first index that is not a number |
| JsonList.GetAsBoolArray | src/main/java/de/trinext/framework/json/JsonList.java:429-437 | succeeds exactly when every element is a bool, giving their values in order; otherwise fails naming the first index that is not a bool |
| JsonList.GetAsCharArray | src/main/java/de/trinext/framework/json/JsonList.java:445-453 | succeeds exactly when every element is a one-`char` string, giving those `char`s in order; otherwise fails at the first other element, with a cannot-convert error naming the index for a non-string and an illegal argument for a string of another length |
| Utf16.DecodeEncode | src/main/java/de/trinext/framework/json/JsonElement.java:577-588 | `toCharArray()` loses nothing: decoding the UTF-16 code units of a string gives the string back |
| Utf16.LengthOne | src/main/java/de/trinext/framework/json/JsonElement.java:204-215 | a string is one `char` long in Java exactly when it is one character of the Basic Multilingual Plane |
| JsonMap.Copy | src/main/java/de/trinext/framework/json/JsonMap.java:30-32 | the copy maps every key as the original does |
| JsonMap.Add | src/main/java/de/trinext/framework/json/JsonMap.java:51-56 | a `null` key is a null-pointer error and a present key a field-already-exists error; otherwise the entry is appended last, earlier entries keep their order, and an element argument is stored as it is |
| JsonMap.AddThenGet | src/main/java/de/trinext/framework/json/JsonMap.java:51-56 | after adding, the key holds the converted value, other keys are unaffected, keys stay distinct, and removing the key restores the map |
| JsonMap.GetAppend | src/main/java/de/trinext/framework/json/JsonMap.java:51-56 | lookup after an append: earlier entries win, the new key is found |
| JsonMap.AddPreservesWellFormed | src/main/java/de/trinext/framework/json/JsonMap.java:51-56 | adding a fresh key keeps every map in the tree free of duplicate keys |
| JsonMap.AddObj | src/main/java/de/trinext/framework/json/JsonMap.java:41-43 | the builder runs first on an empty map; its failure propagates, otherwise its map is added under the key |
| JsonMap.AddList | src/main/java/de/trinext/framework/json/JsonMap.java:68-106 | a `null` key is a null-pointer error and a present key a field-already-exists error naming it; otherwise the key is appended last with a list of the converted values in order |
| JsonMap.Contains | src/main/java/de/trinext/framework/json/JsonMap.java:58-62 | `null` is an illegal argument; otherwise true exactly when the key is present |
| JsonMap.ContainsIffTryGet | src/main/java/de/trinext/framework/json/JsonMap.java:58-62 | `contains(k)` agrees with `tryGet(k)` being present |
| JsonMap.TryGet | src/main/java/de/trinext/framework/json/JsonMap.java:125-127 | present exactly when the key is, holding the value of an entry with that key |
| JsonMap.RemoveFacts | src/main/java/de/trinext/framework/json/JsonMap.java:64-66 | removal cuts out the first entry with the key, keeping the others in order, and leaves the map alone when the key is absent; other keys keep their values and keys stay distinct |
| JsonMap.RemoveKey | src/main/java/de/trinext/framework/json/JsonMap.java:64-66 | true exactly when the key was present; then the map is the entries before and after that key's entry, in order, and no longer has the key; every other key keeps its value |
| JsonMap.RemoveSplits | src/main/java/de/trinext/framework/json/JsonMap.java:64-66 | removing a present key leaves the entries before its first occurrence and those after it, each in their order |
| JsonMap.RemoveAppended | src/main/java/de/trinext/framework/json/JsonMap.java:64-66 | removing the key of a freshly appended entry gives the earlier entries |
| JsonMap.RemoveTwice | src/main/java/de/trinext/framework/json/JsonMap.java:64-66 | a second `removeKey` of the same key answers false and changes nothing |
| JsonText.ToString | src/main/java/de/trinext/framework/json/JsonList.java:471-474 | a list renders between brackets and a map between braces |
| JsonText.SingleChild | src/main/java/de/trinext/framework/json/JsonList.java:471-474 | a one-element list renders as its element between brackets and a one-entry map as `{"key":value}`; with the append lemmas this fixes every container's text |
| JsonText.JoinAppend | src/main/java/de/trinext/framework/json/JsonMap.java:108-114 | joining one more part appends ", " and the part |
| JsonText.ListAppendRendering | src/main/java/de/trinext/framework/json/JsonList.java:471-474 | after `add`, the rendering gains ", " and the new element's rendering before the closing bracket |
| JsonText.MapAddRendering | src/main/java/de/trinext/framework/json/JsonMap.java:108-114 | after `add` of a fresh key, the rendering gains ", " and the `"key":value` entry before the closing brace |
| JsonText.MapExample | src/test/java/de/trinext/framework/json/JsonMapTest.java:75-81 | the test map renders as its three entries in insertion order |
| JsonText.SmallIntegers | src/main/java/de/trinext/framework/json/JsonInteger.java:61-64 | 2 and 3 render as their digits |
| JsonText.SimpleExamples | src/main/java/de/trinext/framework/json/JsonList.java:471-474 | empty list and map render as `[]` and `{}`, null and false as their names |
| JsonPathFinder.Segments | src/main/java/de/trinext/framework/json/JsonPathFinder.java:18-21 | the segments are the path's pieces in order with only empty ones dropped at the end, and the last segment is never empty |
| JsonPathFinder.JoinPieces | src/main/java/de/trinext/framework/json/JsonPathFinder.java:11 | splitting loses nothing: the pieces joined with "." are the path, backslashes included |
| JsonPathFinder.PiecesOfJoin | src/main/java/de/trinext/framework/json/JsonPathFinder.java:11 | splitting undoes joining for segments without an unescaped dot or a trailing backslash |
| JsonPathFinder.SegmentsOfJoin | src/main/java/de/trinext/framework/json/JsonPathFinder.java:18-21 | such segments, the last non-empty, joined with "." give back exactly those segments |
| JsonPathFinder.SingleSegment | src/main/java/de/trinext/framework/json/JsonPathFinder.java:18-21 | a non-empty path with no unescaped dot splits into just itself, even when it ends in a backslash |
| JsonPathFinder.SplitExamples | src/main/java/de/trinext/framework/json/JsonPathFinder.java:11-21 | `a\.b.c` splits into `a\.b` and `c`, `a..` into `a`, and the empty path into nothing |
| JsonPathFinder.Find | src/main/java/de/trinext/framework/json/JsonPathFinder.java:26-41 | the loop over the segments computes the walk |
| JsonPathFinder.EmptyPath | src/main/java/de/trinext/framework/json/JsonPathFinder.java:26-28 | the empty path finds the starting element itself |
| JsonPathFinder.PrimitiveRemaining | src/main/java/de/trinext/framework/json/JsonPathFinder.java:34-37 | at an element that is not a container with segments left, the result is empty |
| JsonPathFinder.WalkAppend | src/main/java/de/trinext/framework/json/JsonPathFinder.java:29-40 | walking two segment lists one after the other is walking their concatenation: segments are consumed exactly, in order |
| JsonPathFinder.OneSegment | src/main/java/de/trinext/framework/json/JsonPathFinder.java:31-35 | one segment is `tryGet(key)` at a map, `tryGet(index)` at a list, and a format error at a list when it is not an integer |
| JsonPathFinder.WalkFindsWithin | src/main/java/de/trinext/framework/json/JsonPathFinder.java:29-40 | what a walk finds is the start or an element nested inside it |
| JsonPathFinder.WalkIndex | src/test/java/de/trinext/framework/json/JsonListTest.java:101-108 | `0` on a one-integer list finds the integer |
| JsonPathFinder.WalkPastPrimitive | src/test/java/de/trinext/framework/json/JsonListTest.java:101-108 | `0.x` on a one-integer list finds nothing |
| JsonPathFinder.WalkNested | src/test/java/de/trinext/framework/json/JsonListTest.java:110-119 | `0.name` goes through a list and then a map to the value |
| JsonElement.TryGetAsNumber | src/main/java/de/trinext/framework/json/JsonElement.java:223-227 | present exactly for numbers, and wrapping the result gives the element back |
| JsonElement.TryGetAsByte | src/main/java/de/trinext/framework/json/JsonElement.java:140-142 | present exactly for numbers, and then equal to `JsonNumber.getAsByte()` |
| JsonElement.TryGetAsShort | src/main/java/de/trinext/framework/json/JsonElement.java:148-150 | present exactly for numbers, and then equal to `JsonNumber.getAsShort()` |
| JsonElement.TryGetAsInt | src/main/java/de/trinext/framework/json/JsonElement.java:156-161 | present exactly for numbers, and then equal to `JsonNumber.getAsInt()` |
| JsonElement.TryGetAsLong | src/main/java/de/trinext/framework/json/JsonElement.java:167-172 | present exactly for numbers, and then equal to `JsonNumber.getAsLong()` |
| JsonElement.TryGetAsBool | src/main/java/de/trinext/framework/json/JsonElement.java:198-202 | present exactly for bools, with the bool's value |
| JsonElement.TryGetAsChar | src/main/java/de/trinext/framework/json/JsonElement.java:204-215 | a string one UTF-16 code unit long gives that `char`, which decodes back to the string; a string of any other Java length, such as one character outside the Basic Multilingual Plane, is an illegal argument; anything else gives nothing |
| JsonString.GetAsChar | src/main/java/de/trinext/framework/json/JsonElement.java:204-215 | succeeds exactly for a string one UTF-16 code unit long, with the `char` that decodes back to it; otherwise an illegal argument |
| JsonElement.TryGetAsString | src/main/java/de/trinext/framework/json/JsonElement.java:234-238 | present exactly for strings, with the string's text |
| JsonElement.TryGetAsBigInt | src/main/java/de/trinext/framework/json/JsonElement.java:240-252 | present exactly for numbers: the integer, a decimal of non-positive scale exactly, a decimal of positive scale truncated toward zero |
| JsonElement.TryGetAsBigDec | src/main/java/de/trinext/framework/json/JsonElement.java:254-265 | present exactly for numbers: the decimal, or the integer at scale 0 |
| JsonElement.TryGetAsStreamOf | src/main/java/de/trinext/framework/json/JsonElement.java:364-371 | a `null` mapper is an illegal argument; otherwise present exactly for lists, keeping length and order |
| JsonElement.TryGetAsListOf | src/main/java/de/trinext/framework/json/JsonElement.java:373-375 | collecting the stream keeps the same presence, length and order; a `null` mapper is an illegal argument |
| JsonElement.ConvertAll | src/main/java/de/trinext/framework/json/JsonElement.java:577-588 | all elements convert in order, or the first failing conversion's error is reported |
| JsonElement.TryGetAsCharArray | src/main/java/de/trinext/framework/json/JsonElement.java:577-588 | a string gives its UTF-16 code units, which decode back to it, so its length is the Java length; a list its elements converted in order when all convert; anything else nothing |
| JsonElement.SupplementaryChar | src/main/java/de/trinext/framework/json/JsonElement.java:204-215 | one character outside the Basic Multilingual Plane: `tryGetAsChar()` rejects it and `tryGetAsCharArray()` gives its two surrogates |
| JsonElement.TryGetPath | src/main/java/de/trinext/framework/json/JsonElement.java:601-607 | `null` is an illegal argument, a non-container finds nothing, a container runs the path finder; a result lies inside the element and the empty path finds the container itself |
| JsonElement.FindPath | src/main/java/de/trinext/framework/json/JsonElement.java:96-98 | true exactly when `tryGetPath` finds something; its errors propagate |
| JsonElement.KeyIsDirectAccess | src/test/java/de/trinext/framework/json/JsonMapTest.java:122-126 | a non-empty path with no separating dot (a trailing backslash included) is one segment, and on a map it is `tryGet(key)`: the stored element, or nothing for a missing key |
| JsonElement.IndexIsDirectAccess | src/test/java/de/trinext/framework/json/JsonListTest.java:101-108 | the path `"i"` on a list is `tryGet(i)` for every `int` index: the element in range, an index error otherwise, negative indices included |
| JsonElement.RemovePath | src/main/java/de/trinext/framework/json/JsonElement.java:109-113 | never succeeds: `null` is an illegal argument, anything else unsupported |
| JsonElement.TryGetPathAs | src/main/java/de/trinext/framework/json/JsonElement.java:616-736 | every `tryGetPathAsX` is `tryGetPath` followed by `tryGetAsX`, with the path errors unchanged |
| JsonElement.PathGetterKinds | src/main/java/de/trinext/framework/json/JsonElement.java:616-736 | the path getters give a bool or string exactly when the path leads to one, a number exactly for a number, and integers narrowed as the plain getters do |
| JsonElement.TryGetPathAsStreamOf | src/main/java/de/trinext/framework/json/JsonElement.java:855-859 | the mapper is checked for `null` before the path is looked at; a failing path lookup returns its own error; otherwise the list at the path is mapped in order |
| JsonElement.TryGetPathAsListOf | src/main/java/de/trinext/framework/json/JsonElement.java:889-891 | the collected stream: a `null` mapper is an illegal argument, a failing path lookup returns its own error, and the result is present exactly for a list at the path, holding the mapped elements in order |
| JsonElement.MapperCheckedFirst | src/main/java/de/trinext/framework/json/JsonElement.java:855-859 | a `null` mapper is reported even where the path alone would be a format error |
| JsonElement.BuildNested | src/test/java/de/trinext/framework/json/JsonMapTest.java:91-97 | `addObj("obj", obj -> obj.add("int", JsonInteger.from(n)))` on an empty map nests a one-entry map holding that integer |
| JsonElement.NestedPath | src/test/java/de/trinext/framework/json/JsonMapTest.java:91-97 | `obj.int` leads through both maps to the integer |
| JsonElement.NestedPathExample | src/test/java/de/trinext/framework/json/JsonMapTest.java:91-97 | after building the map with `JsonInteger.from(n)` under `obj.int`, reading `obj.int` as an int gives `n` narrowed to 32 bits, and as a byte 44 for 300 |

## Left out

- Floating point: `float`/`double` getters, factories, arrays and the `from(Number)` branches for `Float`, `Double` and other `Number` subclasses (re-parsed from their text).
- The object parser and the string escaping of the external JSON library: `Json.treeFromString`, `instanceFromTree`, the non-element branch of `treeFromInstance`, `JsonString.toString`. They are function parameters here.
- Dates and times, enums, `tryGetAsObj`, reflection-based `tryGetAsArrayOf`/`getAsArrayOf` and the class-based stream getters.
- `tryGetAsByteArray`, `tryGetAsShortArray`, `tryGetAsIntArray`, `tryGetAsLongArray`, `tryGetAsBooleanArray`: they convert through the class-based `tryGetAsArrayOf(Class)`/`tryGetAsStreamOf(Class)`, which hand each element to the external object mapper; they are not the `JsonList` array getters modelled here and are not modelled.
- JsonElement.TryGetAsListOf, JsonElement.TryGetPathAsListOf: the mapper is a total function, so an exception a Java mapper throws while the stream is collected is not modelled; every non-null mapper gives a result.
- `getAsFloatArray`, `getAsDoubleArray`: floating point is left out.
- The `*` and `!` path syntax and a working `removePath`: the path finder has no code for them.
- Iterators, streams as objects, aliasing of the mutable containers, and `typeName`.
- Exact hash values other than the null element's 0: they come from Java library internals and are a parameter.
- DecimalText.ParseInt: `Integer.parseInt` also accepts non-ASCII Unicode digits; only '0' to '9' are modelled.
- JsonMap.Copy: the copy constructor is modelled as the identity on entries; object identity is not modelled.
- JsonString.GetAsChar: JsonString.java defines no getAsChar; its behaviour follows the documentation of `tryGetAsChar` and `getAsCharArray` (a string not of length 1 is an illegal argument), with the length counted in UTF-16 code units as Java's `String.length()` does.
- JsonElement.TryGetAsChar: a Java `String` may hold unpaired UTF-16 surrogates (such as `"\uD800"`), which `tryGetAsChar` returns as a `char`; payloads here are Unicode scalar values, so such strings, as values, map keys or path segments, are not representable.
- JsonElement.TryGetAsCharArray: strings with unpaired surrogates are not representable, so their code units are not modelled.
- JsonString.GetAsChar: strings with unpaired surrogates are not representable; for every representable string the length and the code unit are Java's.
- JsonDecimal.GetAsBigInt, JsonDecimal.GetAsBigDec, JsonDecimal.HasDecimalPlaces: JsonDecimal.java defines none of them; they follow the documentation of the abstract methods in `JsonNumber`.
- JsonElement.TryGetAsCharArray: the conversion of list elements to characters is an external conversion and comes in as `convert`; an exception from it is a `Failure`.
- JsonMap.AddObj, JsonList.AddObj: the builder is a function returning a `Result`, so its exceptions are values; a builder returning `null` is not modelled.
- Scales of `BigDecimal` are unbounded integers; the 32-bit limit of the scale is not modelled.
