/** The part of QJsonObject / QJsonValue that the glTF decoders rely on.
    A missing key reads as Qt's Undefined value, which converts exactly like
    null in every conversion used here. */
module Json {
  import opened Common

  datatype JsonValue =
    | JNull
    | JBool(b: bool)
    | JInt(n: int)          // a number with an integral value
    | JFraction             // a number with a fractional part
    | JString(s: string)
    | JArray(elems: seq<JsonValue>)
    | JObject(fields: map<string, JsonValue>)

  type JsonObject = map<string, JsonValue>

  /** QJsonObject::value: Undefined (here JNull) when the key is absent. */
  function Value(o: JsonObject, key: string): (v: JsonValue)
    ensures key !in o ==> v == JNull
    ensures key in o ==> v == o[key]
  {
    if key in o then o[key] else JNull
  }

  /** QJsonValue::toInteger(): the integral value when it fits a qint64, otherwise 0. */
  function ToInteger(v: JsonValue): (r: int)
    ensures -TWO_63 <= r < TWO_63
    ensures v.JInt? && -TWO_63 <= v.n < TWO_63 ==> r == v.n
    ensures !(v.JInt? && -TWO_63 <= v.n < TWO_63) ==> r == 0
  {
    if v.JInt? && -TWO_63 <= v.n < TWO_63 then v.n else 0
  }

  /** QJsonValue::toString(): the text of a string, "" for anything else. */
  function ToStr(v: JsonValue): (r: string)
    ensures v.JString? ==> r == v.s
    ensures !v.JString? ==> r == ""
  {
    if v.JString? then v.s else ""
  }

  /** QJsonValue::toObject(): the members of an object, empty for anything else. */
  function ToObject(v: JsonValue): (r: JsonObject)
    ensures v.JObject? ==> r == v.fields
    ensures !v.JObject? ==> r == map[]
  {
    if v.JObject? then v.fields else map[]
  }

  /** QJsonValue::toArray(): the elements of an array, empty for anything else. */
  function ToArray(v: JsonValue): (r: seq<JsonValue>)
    ensures v.JArray? ==> r == v.elems
    ensures !v.JArray? ==> r == []
  {
    if v.JArray? then v.elems else []
  }

  /** QJsonValue::toBool(default): the value of a boolean, the default for anything else. */
  function ToBool(v: JsonValue, default: bool): (r: bool)
    ensures v.JBool? ==> r == v.b
    ensures !v.JBool? ==> r == default
  {
    if v.JBool? then v.b else default
  }

  /** jsonObj.value(key).toInteger() */
  function IntegerAt(o: JsonObject, key: string): (r: int)
    ensures key !in o ==> r == 0
  {
    ToInteger(Value(o, key))
  }

  /** jsonObj.value(key).toString() */
  function StringAt(o: JsonObject, key: string): (r: string)
    ensures key !in o ==> r == ""
  {
    ToStr(Value(o, key))
  }

  /** A GLTFException. The decoders throw it as `throw new GLTFException(...)`, a pointer,
      which their own `catch (const GLTFException&)` handlers never match, so it always
      leaves the decoder: the model returns it as an explicit failure. */
  datatype GltfException = GltfException(message: string)

  const INVALID_JSON: GltfException := GltfException("INVALID JSON EXCEPTION")
  const BASE64_DECODING_FAILED: GltfException := GltfException("BASE 64 DECODING FAILED")
}
