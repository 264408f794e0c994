/**
 * The dynamically typed JSON tree the plugin reads responses into
 * (`serde_json::Value`), with the accessors it uses.
 */
module Json {
  import opened Wrappers

  /** A JSON value. Numbers are kept as integers: the plugin never reads one. */
  datatype Json =
    | Null
    | Bool(b: bool)
    | Number(n: int)
    | Str(s: string)
    | Arr(items: seq<Json>)
    | Obj(fields: seq<(string, Json)>)

  /**
   * `value[i]` with a `usize` index: the element when `v` is an array long
   * enough, and `Null` otherwise (indexing a JSON value never panics).
   */
  function At(v: Json, i: nat): (r: Json)
    ensures v.Arr? && i < |v.items| ==> r == v.items[i]
    ensures !(v.Arr? && i < |v.items|) ==> r == Null
  {
    if v.Arr? && i < |v.items| then v.items[i] else Null
  }

  /** `value.as_array()`. */
  function AsArray(v: Json): Option<seq<Json>>
  {
    if v.Arr? then Some(v.items) else None
  }

  /** `value.as_str()`. */
  function AsStr(v: Json): Option<string>
  {
    if v.Str? then Some(v.s) else None
  }
}
