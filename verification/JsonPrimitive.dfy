/** `JsonPrimitive.tryFrom`: the element for a Java value of a primitive kind. */
module JsonPrimitive {

  import opened Wrappers
  import opened JsonModel
  import JsonBool
  import JsonNumber

  /** The argument of `tryFrom`, by the runtime type the switch tests. */
  datatype JavaObject =
    | NullObject
    | BooleanObject(b: bool)
    | NumberObject(n: JsonNumber.Boxed)
    | CharSequenceObject(text: string)
    | OtherObject(other: ForeignObject)

  /** `tryFrom(Object)`: a `Boolean` gives the matching singleton, a `Number`
      the number element of the same value, a `CharSequence` the string element
      with the same text. Anything else is an `IllegalArgumentException`; `null`
      matches no case of the type switch, which throws a `NullPointerException`. */
  function TryFrom(obj: JavaObject): (r: Result<Json, Error>)
    ensures obj.NullObject? <==> r == Failure(NullPointer)
    ensures obj.OtherObject? <==> r == Failure(IllegalArgument)
    ensures r.Success? ==> !r.value.IsContainer() && !r.value.JNull?
    ensures obj.BooleanObject? ==> r.Success? && r.value.JBool? && r.value.b == obj.b
    ensures obj.NumberObject? ==>
              r.Success? && r.value.IsNumber() && JsonNumber.GetAsNumber(r.value) == JsonNumber.Unbox(obj.n)
    ensures obj.CharSequenceObject? ==> r.Success? && r.value.JString? && r.value.s == obj.text
  {
    match obj
    case NullObject => Failure(NullPointer)
    case BooleanObject(b) => Success(JsonBool.From(b))
    case NumberObject(n) => Success(JsonNumber.From(n))
    case CharSequenceObject(text) => Success(JString(text))
    case OtherObject(_) => Failure(IllegalArgument)
  }
}
