/** JSON documents as finite trees. Objects are compared as mappings, so key order is not part
    of a document. */
module JsonTree {

  datatype Json =
    | Null
    | Bool(b: bool)
    | Num(n: int)
    | Str(s: string)
    | Arr(items: seq<Json>)
    | Obj(fields: Entries)

  type Entries = map<string, Json>
}
