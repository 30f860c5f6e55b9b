/** `JsonBool`: the two boolean elements. */
module JsonBool {

  import opened Wrappers
  import opened JsonModel

  /** The singletons `TRUE` and `FALSE`. */
  const TRUE: Json := JBool(true)
  const FALSE: Json := JBool(false)

  /** `from(boolean)`: one of the two singletons, carrying the given value. */
  function From(value: bool): (e: Json)
    ensures e.JBool? && e.b == value
    ensures e == TRUE || e == FALSE
  {
    if value then TRUE else FALSE
  }

  /** `toString()`: `Boolean.toString`, "true" or "false"; handing the text
      back to `from` as the test `s == "true"` recreates the element. */
  function ToString(e: Json): (s: string)
    requires e.JBool?
    ensures s == "true" || s == "false"
    ensures From(s == "true") == e
  {
    if e.b then "true" else "false"
  }

  /** `TRUE` and `FALSE` are different, each equals itself, and neither equals
      `null`. */
  lemma Singletons()
    ensures !Equal(TRUE, FALSE) && !Equal(FALSE, TRUE)
    ensures Equals(TRUE, Some(TRUE)) && Equals(FALSE, Some(FALSE))
    ensures !Equals(TRUE, None) && !Equals(FALSE, None)
  {
  }
}
