/**
 * The values `JSON.parse` can produce, and the two pieces of JavaScript
 * semantics the validators rely on: truthiness (`!x`) and property access
 * (`x.key`).
 */
module Json {
  import opened Wrappers

  /**
   * A parsed JSON document. Numbers are reduced to what the validators ask of
   * them: an integer keeps its value, and every non-integral number (including
   * the infinities `JSON.parse` returns for out-of-range literals) is `JNonInt`.
   */
  datatype Json =
    | JNull
    | JBool(b: bool)
    | JInt(i: int)
    | JNonInt
    | JStr(s: string)
    | JArr(elems: seq<Json>)
    | JObj(fields: map<string, Json>)

  /** JavaScript truthiness: `null`, `false`, `0` and `""` are falsy; arrays and objects never are. */
  predicate Truthy(v: Json)
    ensures !Truthy(v) <==> v in {JNull, JBool(false), JInt(0), JStr("")}
    ensures v.JArr? || v.JObj? ==> Truthy(v)
  {
    match v
    case JNull => false
    case JBool(b) => b
    case JInt(i) => i != 0
    case JNonInt => true
    case JStr(s) => s != ""
    case JArr(_) => true
    case JObj(_) => true
  }

  /**
   * `v.key` for the keys the model reads (`appendOptions`, `manual`,
   * `defaultIndex`): an own property of an object, and `undefined` (None) on
   * every other value, since no primitive or array carries those names.
   */
  function Get(v: Json, key: string): Option<Json> {
    if v.JObj? && key in v.fields then Some(v.fields[key]) else None
  }

  /** `typeof v === "string"` */
  predicate IsString(v: Json) {
    v.JStr?
  }
}
