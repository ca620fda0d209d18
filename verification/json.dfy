/** The values `json.loads` produces and `json.dumps` consumes. Integers and
    floats are kept apart because Python keeps them apart (`10` and `10.0`
    serialise differently). */
module Json {

  datatype Value =
    | JNull
    | JBool(b: bool)
    | JInt(i: int)
    | JFloat(f: real)
    | JStr(s: string)
    | JArray(items: seq<Value>)
    | JObject(members: map<string, Value>)
}
