/** JSON values as the backend sees them once the foreign parser has run.
    The six kinds are those of section 3 of RFC 8259. A number is kept as the
    real it denotes: the backend only copies numbers, never computes with them. */
module Json {

  datatype Json =
    | Null
    | Bool(b: bool)
    | Number(num: real)
    | String(str: string)
    | Array(elems: seq<Json>)
    | Object(fields: map<string, Json>)

  /** `contains(key)`: only an object can contain a key. */
  predicate Contains(j: Json, key: string)
  {
    j.Object? && key in j.fields
  }

  /** `j[key]` on a key that `Contains` has vouched for. */
  function Member(j: Json, key: string): Json
    requires Contains(j, key)
  {
    j.fields[key]
  }
}
