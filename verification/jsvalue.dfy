/** JSON-like values as the extension receives them, with the handful of
    JavaScript semantics the core relies on: truthiness, property access,
    array indexing and the text `String(v)` produces. */
module JsValue {
  import opened Common

  datatype Json =
    | JNull
    | JBool(b: bool)
    | JNum(n: int)
    | JStr(s: string)
    | JArr(elems: seq<Json>)
    | JObj(fields: map<string, Json>)

  /** A JavaScript value that may be `undefined` (`None`). */
  type Value = Option<Json>

  /** JavaScript truthiness: `undefined`, `null`, `false`, `0` and `""` are falsy. */
  predicate Truthy(v: Value) {
    match v
    case None => false
    case Some(JNull) => false
    case Some(JBool(b)) => b
    case Some(JNum(n)) => n != 0
    case Some(JStr(s)) => s != ""
    case Some(JArr(_)) => true
    case Some(JObj(_)) => true
  }

  /** The array test: the value's internal class is Array. */
  predicate IsArray(v: Value) {
    v.Some? && v.value.JArr?
  }

  /** `v[key]` for a string key: the named field of an object, `undefined` otherwise. */
  function Get(v: Value, key: string): (r: Value)
    ensures r.Some? ==> v.Some? && v.value.JObj? && key in v.value.fields
    ensures IsArray(v) ==> r == None
  {
    match v
    case Some(JObj(fields)) => if key in fields then Some(fields[key]) else None
    case _ => None
  }

  /** `v[i]` for a numeric index `i`, or `v[undefined]` when `i` is `None`. */
  function At(v: Value, i: Option<int>): (r: Value)
    ensures r.Some? <==> IsArray(v) && i.Some? && 0 <= i.value < |v.value.elems|
    ensures r.Some? ==> r.value == v.value.elems[i.value]
  {
    match v
    case Some(JArr(elems)) =>
      if i.Some? && 0 <= i.value < |elems| then Some(elems[i.value]) else None
    case _ => None
  }

  /** `String(v)`: arrays join their elements with ',' (null elements render empty). */
  function Display(j: Json): string {
    match j
    case JNull => "null"
    case JBool(b) => if b then "true" else "false"
    case JNum(n) => IntToString(n)
    case JStr(s) => s
    case JArr(elems) => JoinElements(elems)
    case JObj(_) => "[object Object]"
  }

  function JoinElements(elems: seq<Json>): string
    decreases elems
  {
    if |elems| == 0 then ""
    else
      var first := if elems[0].JNull? then "" else Display(elems[0]);
      if |elems| == 1 then first else first + "," + JoinElements(elems[1..])
  }

  /** `String(v)` of a possibly undefined value, as property keys are formed. */
  function KeyText(v: Value): string {
    match v
    case None => "undefined"
    case Some(j) => Display(j)
  }
}
