/** `JsonNull`: the single null element. */
module JsonNull {

  import opened Wrappers
  import opened JsonModel

  /** The singleton `NULL`. */
  const NULL: Json := JNull

  /** `toString()`: `Objects.toString(null)`. */
  function ToString(e: Json): (s: string)
    requires e.JNull?
    ensures s == "null"
  {
    "null"
  }

  /** There is exactly one null element; it hashes to 0, equals itself and is
      not equal to `null`. */
  lemma Singleton(e: Json, payloadHash: Json -> int)
    ensures e.JNull? ==> e == NULL
    ensures HashCode(NULL, payloadHash) == 0
    ensures Equals(NULL, Some(NULL)) && !Equals(NULL, None)
  {
  }
}
