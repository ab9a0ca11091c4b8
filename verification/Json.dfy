/** JSON values as `serde_json` holds them: integers outside floating point, objects as maps. */
module Json {
  import opened Common

  /** Integers `serde_json` keeps exactly: those of `i64` and of `u64`. */
  type JsonInt = x: int | -0x8000_0000_0000_0000 <= x <= 0xFFFF_FFFF_FFFF_FFFF

  datatype Number = Integer(value: JsonInt) | Float(approx: real) {
    /** The number itself, whatever its representation. */
    function Exact(): real {
      match this case Integer(v) => v as real case Float(a) => a
    }
  }

  datatype Value =
    | Null
    | Bool(flag: bool)
    | Num(number: Number)
    | Str(text: string)
    | Arr(items: seq<Value>)
    | Obj(fields: map<string, Value>)

  function Get(v: Value, key: string): Option<Value> {
    if v.Obj? && key in v.fields then Some(v.fields[key]) else None
  }

  function AsStr(v: Option<Value>): Option<string> {
    if v.Some? && v.value.Str? then Some(v.value.text) else None
  }
}
