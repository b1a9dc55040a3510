/**
  The dynamically typed scalar values that flow between the database driver,
  the web endpoint and the bot, with Python's truthiness, `str()` and `int()`.
 */
module Python {
  import opened Wrappers
  import opened Text

  /** A Python scalar: `None`, a bool, an int or a str. */
  datatype Value = Null | Bool(b: bool) | Int(i: int) | Str(s: string)

  /** A result row as the driver returns it (`as_dict=True`): column alias to value. */
  type Row = map<string, Value>

  /** Python's `bool(v)`. */
  predicate Truthy(v: Value) {
    match v
    case Null => false
    case Bool(b) => b
    case Int(i) => i != 0
    case Str(s) => s != ""
  }

  /** Python's `str(v)`. */
  function ToStr(v: Value): string {
    match v
    case Null => "None"
    case Bool(b) => if b then "True" else "False"
    case Int(i) => IntToString(i)
    case Str(s) => s
  }

  /** Python's `int(v)`; `None` stands for the `ValueError`/`TypeError` it raises. */
  function ToInt(v: Value): Option<int> {
    match v
    case Null => None
    case Bool(b) => Some(if b then 1 else 0)
    case Int(i) => Some(i)
    case Str(s) => ParseInt(s)
  }

  /** `row.get(key)`: the value under `key`, or `None` when the key is absent. */
  function Get(row: Row, key: string): Value {
    if key in row then row[key] else Null
  }
}
