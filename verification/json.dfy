/**
 * JSON values as Python's `json.loads` produces them, and the decoder seen
 * as an opaque partial function from text to a decoded object.
 */
module Json {
  import opened Wrappers

  /** A decoded JSON value; Python floats are represented by exact reals. */
  datatype Value =
    | JNull
    | JBool(b: bool)
    | JInt(i: int)
    | JFloat(f: real)
    | JString(s: string)
    | JArray(items: seq<Value>)
    | JObject(fields: map<string, Value>)

  /** A decoded JSON object, a Python `dict` keyed by strings. */
  type Object = map<string, Value>

  /**
   * `json.loads` restricted to the texts the application hands it: every such
   * text starts (after whitespace) with `{` and ends with `}`, so a successful
   * decode yields an object and any exception is `None`.
   */
  type Decoder = string -> Option<Object>

  /** `obj.get(key, default)` */
  function Get(obj: Object, key: string, default: Value): Value {
    if key in obj then obj[key] else default
  }
}
