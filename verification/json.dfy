/** The JSON document model the configuration store inspects. Numbers are kept
    as their literal text because the store never looks inside them; an
    object's members form a map, so duplicate member names and member order are
    not represented. */
module JsonValues {

  datatype Json =
    | JNull
    | JBool(b: bool)
    | JNumber(literal: string)
    | JString(str: string)
    | JArray(items: seq<Json>)
    | JObject(fields: map<string, Json>)
}
