/** The values `JSON.parse` produces and `||` truthiness over them. */
module Json {
  import opened Wrappers

  /** A decoded JSON value. A number is kept as its JavaScript string
      rendering (`String(n)`): that is all the handlers observe of it, through
      truthiness and through Mongoose's string casting. Because `-0` renders as
      `"0"` and JSON has no NaN, the only falsy number renders as `"0"`. An
      object is the map `JSON.parse` builds, where a repeated key keeps its
      last value. */
  datatype JValue =
    | JNull
    | JBool(b: bool)
    | JNumber(text: string)
    | JString(s: string)
    | JArray(items: seq<JValue>)
    | JObject(fields: map<string, JValue>)

  /** The property read `v.key`; `None` is `undefined`. Only objects have the
      fields the handlers ask for (reading a property of `null` throws, which
      each caller models where it happens). */
  function Get(v: JValue, key: string): (r: Option<JValue>)
    ensures r.Some? <==> v.JObject? && key in v.fields
  {
    if v.JObject? && key in v.fields then Some(v.fields[key]) else None
  }

  /** JavaScript truthiness of a property value; `undefined` is falsy. */
  predicate Truthy(v: Option<JValue>)
  {
    match v
    case None => false
    case Some(JNull) => false
    case Some(JBool(b)) => b
    case Some(JNumber(t)) => t != "0"
    case Some(JString(s)) => s != ""
    case Some(JArray(_)) => true
    case Some(JObject(_)) => true
  }

  /** A JSON array of strings. */
  function Strings(ss: seq<string>): (r: JValue)
    ensures r.JArray? && |r.items| == |ss|
    ensures forall i :: 0 <= i < |ss| ==> r.items[i] == JString(ss[i])
  {
    JArray(seq(|ss|, i requires 0 <= i < |ss| => JString(ss[i])))
  }
}
