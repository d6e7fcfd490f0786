/**
 * Parsed JSON values, as `json.loads` produces them, together with the two
 * Python behaviours the handlers rely on: truthiness (`if not x`) and
 * `dict.get`, which yields `None` for an absent key.
 */
module Json {

  /** A JSON value; numbers, integral or not, are kept as a `real`. */
  datatype JsonValue =
    | JNull
    | JBool(b: bool)
    | JNumber(n: real)
    | JString(str: string)
    | JArray(items: seq<JsonValue>)
    | JObject(fields: map<string, JsonValue>)

  /** Python truthiness of the value `json.loads` yields for `v`. */
  predicate Truthy(v: JsonValue) {
    match v
    case JNull => false
    case JBool(b) => b
    case JNumber(n) => n != 0.0
    case JString(s) => s != []
    case JArray(items) => items != []
    case JObject(fields) => fields != map[]
  }

  /** `payload.get(key)` on a parsed JSON object: `None` (JSON null) when the key is absent. */
  function Get(fields: map<string, JsonValue>, key: string): JsonValue {
    if key in fields then fields[key] else JNull
  }

  /** The falsy values are exactly null, `false`, zero, and the empty string, array and object. */
  lemma FalsyValues(v: JsonValue)
    ensures !Truthy(v) <==>
      v == JNull || v == JBool(false) || v == JNumber(0.0) || v == JString([]) || v == JArray([]) || v == JObject(map[])
  {
  }

  /**
   * `get` returns the stored value of a present key, and null exactly when the
   * key is absent or holds JSON null: the two cannot be told apart.
   */
  lemma GetAbsentIsNull(fields: map<string, JsonValue>, key: string)
    ensures key in fields ==> Get(fields, key) == fields[key]
    ensures Get(fields, key) == JNull <==> key !in fields || fields[key] == JNull
  {
  }

  /** The `{"message": text}` object every handler answers with. */
  function Message(text: string): JsonValue {
    JObject(map["message" := JString(text)])
  }
}
