/** The dynamically typed values that travel through the application's
    dictionaries (`employee_data`, `dog_data`, `to_dict()` results), reduced to
    the shapes the application actually stores: `None`, strings, integers
    (also used for timestamps), and lists of strings (badges). */
module Values {

  datatype Value = VNone | VStr(s: string) | VInt(i: int) | VList(items: seq<string>)

  /** A Python `dict` with string keys. */
  type Dict = map<string, Value>

  /** `d.get(k)`: the value, or `None` when the key is absent. */
  function Get(d: Dict, k: string): Value {
    if k in d then d[k] else VNone
  }

  /** `d.get(k, default)`. */
  function GetOr(d: Dict, k: string, default: Value): Value {
    if k in d then d[k] else default
  }

  /** A string that fits a `VARCHAR(n)` column: the server databases
      refuse longer values (counted in characters) instead of truncating
      them. */
  predicate Fits(v: Value, n: nat) { v.VStr? && |v.s| <= n }

  /** Python truthiness: `None`, `''`, `0` and `[]` are false. */
  predicate Truthy(v: Value) {
    match v
    case VNone => false
    case VStr(s) => |s| > 0
    case VInt(i) => i != 0
    case VList(xs) => |xs| > 0
  }
}
