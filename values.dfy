/** The dynamically typed values that reach the studio from parsed frontmatter, and the three
    JavaScript operations the code applies to them: truthiness, `a || b` and `String(v)`. */
module JsValues {
  import opened Text

  /** A frontmatter value: a missing key (`undefined`), an integer, a string, a boolean or a
      list of strings (for example `tags`). */
  datatype Value = Absent | Num(n: int) | Str(s: string) | Bool(b: bool) | List(items: seq<string>)

  /** JavaScript truthiness: `undefined`, `0`, `''` and `false` are falsy; every array is truthy. */
  predicate Truthy(v: Value) {
    match v
    case Absent => false
    case Num(n) => n != 0
    case Str(s) => s != ""
    case Bool(b) => b
    case List(_) => true
  }

  /** `a || b`. */
  function Or(a: Value, b: Value): (r: Value)
    ensures Truthy(a) ==> r == a
    ensures !Truthy(a) ==> r == b
  {
    if Truthy(a) then a else b
  }

  /** `items.join(',')`, which is what `String` does to an array. */
  function JoinComma(items: seq<string>): string {
    if items == [] then ""
    else if |items| == 1 then items[0]
    else items[0] + "," + JoinComma(items[1..])
  }

  /** `String(v)`. */
  function ToStr(v: Value): string {
    match v
    case Absent => "undefined"
    case Num(n) => IntToString(n)
    case Str(s) => s
    case Bool(b) => if b then "true" else "false"
    case List(items) => JoinComma(items)
  }
}
