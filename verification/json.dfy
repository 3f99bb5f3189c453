/** The JSON document tree (`serde_json::Value`) and the field accessors the
    adapters and the tray build on. Numbers are integers only. */
module Json {
  import opened Wrappers

  datatype Json =
    | Null
    | Bool(b: bool)
    | Num(n: int)
    | Str(s: string)
    | Arr(items: seq<Json>)
    | Obj(fields: map<string, Json>)

  /** A JSON parser and serializer, supplied by the caller (`serde_json`). A
      parse that fails yields `None`. */
  datatype JsonCodec = JsonCodec(parse: string -> Option<Json>, serialize: Json -> string)

  const I64Min: int := -0x8000_0000_0000_0000
  const I64Max: int := 0x7FFF_FFFF_FFFF_FFFF

  /** `value.get(key)`: only an object has fields. */
  function Get(v: Json, key: string): Option<Json> {
    if v.Obj? && key in v.fields then Some(v.fields[key]) else None
  }

  /** `value.get(first).or_else(|| value.get(second))`: the second key is
      consulted only when the first one is absent. */
  function GetEither(v: Json, first: string, second: string): Option<Json> {
    var a := Get(v, first);
    if a.Some? then a else Get(v, second)
  }

  /** `.and_then(|v| v.as_str())` */
  function AsStr(o: Option<Json>): Option<string> {
    if o.Some? && o.value.Str? then Some(o.value.s) else None
  }

  /** `.and_then(|v| v.as_bool())` */
  function AsBool(o: Option<Json>): Option<bool> {
    if o.Some? && o.value.Bool? then Some(o.value.b) else None
  }

  /** `.and_then(|v| v.as_i64())`: an integer that fits in 64 signed bits. */
  function AsI64(o: Option<Json>): Option<int> {
    if o.Some? && o.value.Num? && I64Min <= o.value.n <= I64Max then Some(o.value.n) else None
  }
}
