/** Python scalars as they appear in configuration and in Docker's inspect
    records, where one field may hold a string, a number, a flag or None. */
module Values {
  import opened Text

  datatype Val = Str(s: string) | Int(i: int) | Bool(b: bool) | Null

  /** `str(v)`. */
  function PyStr(v: Val): string {
    match v
    case Str(s) => s
    case Int(i) => IntText(i)
    case Bool(b) => if b then "True" else "False"
    case Null => "None"
  }

  /** Python's truth value of a scalar: empty, zero, False and None are false. */
  predicate Truthy(v: Val) {
    match v
    case Str(s) => s != ""
    case Int(i) => i != 0
    case Bool(b) => b
    case Null => false
  }
}
