/** Loosely-typed field values and records, as the store layer hands them over:
    each row is a dictionary from column name to a value. */
module Values {

  datatype Option<+T> = None | Some(value: T)

  /** The value kinds a row field can hold. `List` holds the string lists the
      pipeline attaches (score traces, decoded flag names). */
  datatype Value = Null | Str(s: string) | Int(i: int) | Bool(b: bool) | List(items: seq<string>)

  /** A record: one dictionary. */
  type Row = map<string, Value>

  /** `row.get(field)`: a missing field reads as None. */
  function Get(row: Row, field: string): Value
  {
    if field in row then row[field] else Null
  }

  /** Python truthiness of a value: None, "", 0, False and [] are falsy. */
  predicate Truthy(v: Value)
  {
    match v
    case Null => false
    case Str(s) => s != ""
    case Int(i) => i != 0
    case Bool(b) => b
    case List(xs) => xs != []
  }
}
