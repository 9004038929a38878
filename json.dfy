/**
 * The part of `serde_json::Value` the portal responses are read through:
 * `get` on an object, `as_i64` and `as_str`.  Numbers keep serde_json's three
 * representations, since `as_i64` answers differently for each.
 */
module Json {
  import opened Wrappers

  type U64 = x: int | 0 <= x < 0x1_0000_0000_0000_0000
  type NegI64 = x: int | -0x8000_0000_0000_0000 <= x < 0 witness -1

  const I64Max: int := 0x7FFF_FFFF_FFFF_FFFF

  /** A JSON number as serde_json stores it: non-negative integers, negative integers, floats. */
  datatype Number = PosInt(u: U64) | NegInt(i: NegI64) | Float(f: real)

  datatype Value =
    | Null
    | Bool(b: bool)
    | Num(n: Number)
    | Str(s: string)
    | Array(items: seq<Value>)
    | Object(fields: map<string, Value>)

  /**
   * What an HTTP exchange whose body is read as JSON produced: a failure of
   * the client (connection or decoding, both a `reqwest::Error`) or the value.
   * The status is not checked, so any answer with a JSON body is received.
   */
  datatype Exchange = RequestFailed(reason: string) | Received(body: Value)

  /** `Value::get(key)`: the member of an object; nothing for any other kind of value. */
  function Get(v: Value, key: string): (r: Option<Value>)
    ensures r.Some? <==> v.Object? && key in v.fields
    ensures r.Some? ==> r.value == v.fields[key]
  {
    match v
    case Object(m) => if key in m then Some(m[key]) else None
    case _ => None
  }

  /** `Value::as_i64`: an integer that fits in 64 signed bits; floats never do. */
  function AsI64(v: Value): (r: Option<int>)
    ensures r.Some? ==> -0x8000_0000_0000_0000 <= r.value <= I64Max
    ensures r.Some? <==> v.Num? && (v.n.NegInt? || (v.n.PosInt? && v.n.u <= I64Max))
    ensures r.Some? ==> r.value == (if v.n.PosInt? then v.n.u else v.n.i)
  {
    match v
    case Num(PosInt(u)) => if u <= I64Max then Some(u) else None
    case Num(NegInt(i)) => Some(i)
    case _ => None
  }

  /** `Value::as_str`: the text of a JSON string. */
  function AsStr(v: Value): (r: Option<string>)
    ensures r.Some? <==> v.Str?
    ensures r.Some? ==> r.value == v.s
  {
    match v
    case Str(s) => Some(s)
    case _ => None
  }

  /** `v.get(key).and_then(|r| r.as_i64())` */
  function GetI64(v: Value, key: string): (r: Option<int>)
    ensures r.Some? <==> v.Object? && key in v.fields && AsI64(v.fields[key]).Some?
    ensures r.Some? ==> r == AsI64(v.fields[key])
  {
    match Get(v, key)
    case Some(x) => AsI64(x)
    case None => None
  }

  /** `v.get(key).and_then(|r| r.as_str())` */
  function GetStr(v: Value, key: string): (r: Option<string>)
    ensures r.Some? <==> v.Object? && key in v.fields && v.fields[key].Str?
    ensures r.Some? ==> r.value == v.fields[key].s
  {
    match Get(v, key)
    case Some(x) => AsStr(x)
    case None => None
  }

  /** `GetStr(..).unwrap_or_default()`: the string member, or the empty string. */
  function GetStrOrEmpty(v: Value, key: string): (r: string)
    ensures v.Object? && key in v.fields && v.fields[key].Str? ==> r == v.fields[key].s
    ensures !(v.Object? && key in v.fields && v.fields[key].Str?) ==> r == ""
  {
    match GetStr(v, key)
    case Some(s) => s
    case None => ""
  }

  /** A one-member object, the shape of the examples below. */
  function Single(key: string, x: Value): Value {
    Object(map[key := x])
  }

  function Int(i: int): Value
    requires -0x8000_0000_0000_0000 <= i < 0x1_0000_0000_0000_0000
  {
    if i >= 0 then Num(PosInt(i)) else Num(NegInt(i))
  }
}
