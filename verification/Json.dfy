/** JSON values, as `serde_json::Value` presents them: an object is an unordered map. */
module Json {
  import opened Outcomes

  datatype Json =
    | Null
    | Bool(b: bool)
    | Int(n: int)
    | Float(x: real)
    | Str(s: string)
    | Arr(items: seq<Json>)
    | Obj(fields: map<string, Json>)

  /** `value[key]` and `value.get(key)`: absent on anything that is not an object holding the key. */
  function Get(v: Json, key: string): Option<Json> {
    if v.Obj? && key in v.fields then Some(v.fields[key]) else None
  }

  /** `Value::as_f64`. */
  function AsReal(v: Json): Option<real> {
    match v
    case Int(n) => Some(n as real)
    case Float(x) => Some(x)
    case _ => None
  }

  /** The key of a one-entry object. */
  function OnlyKey(m: map<string, Json>): (k: string)
    requires |m| == 1
    ensures k in m && m.Keys == {k}
  {
    OneKey(m.Keys);
    var k :| k in m.Keys;
    k
  }

  lemma OneKey<T>(s: set<T>)
    requires |s| == 1
    ensures s != {} && forall a, b | a in s && b in s :: a == b
  {
    var a :| a in s;
    assert |s - {a}| == 0;
    assert s == {a} + (s - {a});
  }
}
