/** Values as they travel between the calendar.event model and the ORM:
    the record dictionaries that `read` returns and `create`/`write` take,
    and the error results that stand for raised user errors. */
module Values {

  /** A Python value held under one key of a record dictionary. */
  datatype Value =
    | Null                              // None, and a NULL column
    | Bool(b: bool)
    | Int(i: int)
    | Text(s: string)
    | List(elems: seq<Value>)
    | Doc(parts: map<string, Value>)    // a serialized vevent that parses, seen as its named sub-fields

  /** A record dictionary: field name to value. */
  type Record = map<string, Value>

  /** Python truthiness. A serialized calendar document is never the empty
      string, so a `Doc` is always true. */
  predicate Truthy(v: Value)
  {
    match v
    case Null => false
    case Bool(b) => b
    case Int(i) => i != 0
    case Text(s) => s != ""
    case List(elems) => elems != []
    case Doc(_) => true
  }

  /** The two ways a call into the model fails: the user error
      'access_error', and a vevent blob that does not parse. */
  datatype Fault = AccessError | ParseError

  datatype Result<T> = Success(value: T) | Failure(error: Fault)

  datatype Option<T> = None | Some(value: T)
}
