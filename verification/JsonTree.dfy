/** JSON documents as Python sees them after `json.loads`: dictionaries compare without
    regard to key order, so an object is a map. */
module JsonTree {
  datatype Json =
    | Null
    | Bool(flag: bool)
    | Number(number: real)
    | Str(text: string)
    | Arr(items: seq<Json>)
    | Obj(fields: map<string, Json>)
}
