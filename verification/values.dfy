/**
 * The Python values a product record holds, and `str()` of them.
 */
module Values {
  import opened Text
  import opened Dicts

  datatype Option<+T> = None | Some(value: T)

  /**
   * A value of a product record: Python's None, a string, an int, a float
   * (kept as an exact decimal), the empty list that `header_text and ...`
   * yields for a heading without text, or a dict (its items, in order).
   */
  datatype Value =
    | Null
    | Str(s: string)
    | Int(i: int)
    | Decimal(r: real)
    | EmptyList
    | Dict(items: seq<(string, Value)>)

  /** A product row: field name to value, in insertion order. */
  type Record = ODict<string, Value>

  /**
   * `str(v)`. The text Python prints for a float or a dict is not part of
   * this model: those give None.
   */
  function ToText(v: Value): (r: Option<string>)
    ensures r.Some? <==> !v.Decimal? && !v.Dict?
    ensures v.Str? ==> r == Some(v.s)
  {
    match v
    case Null => Some("None")
    case Str(s) => Some(s)
    case Int(i) => Some(IntToString(i))
    case EmptyList => Some("[]")
    case _ => None
  }
}
