/** The Python values that travel through the builder, the store and the sync engine:
    keyword-argument values, query parameters and the fields of data tuples.
 */
module Datum {

  import opened Results
  import Text

  datatype Value =
    | Null                                // None
    | Bool(b: bool)
    | Int(i: int)
    | Str(s: string)
    | Stamp(t: int)                       // a naive datetime, as a count of microseconds
    | Geometry(wkt: string)               // a Point/Polygon/Multipolygon, by its str() text
    | Opaque(repr: string, truthy: bool)  // floats, dates, times: str() text and truth value
    | Array(items: seq<Value>)            // a Python list

  /** `bool(v)` */
  predicate Truthy(v: Value) {
    match v
    case Null => false
    case Bool(b) => b
    case Int(i) => i != 0
    case Str(s) => |s| > 0
    case Stamp(_) => true
    case Geometry(_) => true
    case Opaque(_, t) => t
    case Array(items) => |items| > 0
  }

  /** `type(v).__name__` */
  function TypeName(v: Value): string {
    match v
    case Null => "NoneType"
    case Bool(_) => "bool"
    case Int(_) => "int"
    case Str(_) => "str"
    case Stamp(_) => "datetime"
    case Geometry(_) => "Geometry"
    case Opaque(_, _) => "object"
    case Array(_) => "list"
  }

  /** `str(v)` for the values that reach a geometry-typed field. A timestamp and a
      list get a stand-in text: the data never puts them in such a field. */
  function Show(v: Value): string {
    match v
    case Null => "None"
    case Bool(b) => if b then "True" else "False"
    case Int(i) => Text.IntToString(i)
    case Str(s) => s
    case Stamp(t) => Text.IntToString(t)
    case Geometry(w) => w
    case Opaque(r, _) => r
    case Array(_) => "[...]"
  }

  /** One-character strings of `s`, as iterating a Python `str` yields them. */
  function Chars(s: string): (r: seq<Value>)
    ensures |r| == |s| && forall i | 0 <= i < |s| :: r[i] == Str([s[i]])
  {
    if |s| == 0 then [] else [Str([s[0]])] + Chars(s[1..])
  }

  /** `list(v)`: lists are copied, strings iterate by character, anything else is not iterable. */
  function ListOf(v: Value): (r: Result<seq<Value>>)
    ensures v.Array? ==> r == Ok(v.items)
    ensures r.Err? <==> !(v.Array? || v.Str?)
  {
    match v
    case Array(items) => Ok(items)
    case Str(s) => Ok(Chars(s))
    case _ => Err(TypeError("'" + TypeName(v) + "' object is not iterable"))
  }
}
