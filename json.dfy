/** The values Python's `json.loads` produces: None, bool, int or float,
    str, list and dict. Numbers keep their literal text, since nothing in
    the model inspects them; an object is a dict, so a repeated key keeps
    its last value and key order is not represented. */
module Json {

  datatype JsonValue =
    | JNull
    | JBool(b: bool)
    | JNumber(literal: string)
    | JString(text: string)
    | JArray(items: seq<JsonValue>)
    | JObject(fields: map<string, JsonValue>)
}
