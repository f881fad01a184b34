/** The Python values the modelled code passes around: the contents of
    dictionaries, lists and strings, as far as the code inspects them, and
    the outcome of an expression that may raise. */
module PyValues {

  /** A Python value: `None`, a bool, an integer, a string, a list or a
      dictionary with string keys. */
  datatype Value =
    | Null
    | Bool(b: bool)
    | Int(i: int)
    | Str(s: string)
    | List(items: seq<Value>)
    | Dict(fields: map<string, Value>)

  /** What a Python expression does: return a value, or raise an exception. */
  datatype Outcome<T> = Returned(value: T) | Raised

  /** What a Python function that may return `None` returns. */
  datatype Option<T> = None | Some(value: T)

  /** `d.get(key, default)` on a dictionary. */
  function Get(d: map<string, Value>, key: string, default: Value): Value
  {
    if key in d then d[key] else default
  }
}
