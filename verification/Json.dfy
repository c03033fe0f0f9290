/** JSON values; an object is a map, so the order of its members carries nothing. */
module Json {
  import opened Bytes

  datatype Json =
    | Null
    | Bool(b: bool)
    | Num(n: real)
    | Str(s: string)
    | Arr(items: seq<Json>)
    | Obj(fields: map<string, Json>)

  type Fields = map<string, Json>

  /** A member of an object, absent for anything else. */
  function Get(j: Json, k: string): (r: Option<Json>)
    ensures r.Some? ==> j.Obj? && k in j.fields && r.value == j.fields[k] && r.value < j
  {
    if j.Obj? && k in j.fields then Some(j.fields[k]) else None
  }

  function GetArray(j: Json, k: string): (r: seq<Json>)
    ensures r != [] ==> j.Obj? && k in j.fields && j.fields[k] == Arr(r)
  {
    if j.Obj? && k in j.fields && j.fields[k].Arr? then j.fields[k].items else []
  }
}
