/** JSON values; an object is the mapping that the strict loader builds (no repeated keys). */
module Json {
  datatype Json =
    | Null
    | Bool(flag: bool)
    | Num(spelling: string)
    | Str(text: string)
    | Arr(items: seq<Json>)
    | Obj(fields: map<string, Json>)

  predicate HasField(json: Json, key: string) {
    json.Obj? && key in json.fields
  }
}
