/**
 * JSON values as Python's `json` module hands them to the pipeline: a dict is an
 * ordered list of members (Python dicts keep insertion order), `None` is `JNull`.
 */
module JsonValue {
  import opened Wrappers

  datatype Json =
    | JNull
    | JBool(b: bool)
    | JInt(i: int)
    | JFloat(f: real)
    | JStr(s: string)
    | JArr(items: seq<Json>)
    | JObj(members: seq<Member>)

  datatype Member = Member(key: string, value: Json)

  /** `list(d.keys())` */
  function Keys(ms: seq<Member>): (ks: seq<string>)
    ensures |ks| == |ms|
    ensures forall i :: 0 <= i < |ms| ==> ks[i] == ms[i].key
  {
    seq(|ms|, i requires 0 <= i < |ms| => ms[i].key)
  }

  /** `key in d` */
  predicate HasKey(ms: seq<Member>, key: string) {
    exists i :: 0 <= i < |ms| && ms[i].key == key
  }

  /** `d[key]`, or None when the key is absent. */
  function Lookup(ms: seq<Member>, key: string): (r: Option<Json>)
    ensures r.Some? <==> HasKey(ms, key)
    ensures r.Some? ==> exists i :: 0 <= i < |ms| && ms[i].key == key && ms[i].value == r.value
  {
    if ms == [] then None
    else if ms[0].key == key then Some(ms[0].value)
    else Lookup(ms[1..], key)
  }

  /** `d.get(key, default)` */
  function Get(ms: seq<Member>, key: string, default: Json): Json
  {
    match Lookup(ms, key)
    case Some(v) => v
    case None => default
  }

  /** `d[key] = v` on a key already present: the first member with that key gets the new value. */
  function SetValue(ms: seq<Member>, key: string, v: Json): (r: seq<Member>)
    requires HasKey(ms, key)
    ensures Keys(r) == Keys(ms)
    ensures Lookup(r, key) == Some(v)
  {
    if ms == [] then []
    else if ms[0].key == key then [Member(key, v)] + ms[1..]
    else [ms[0]] + SetValue(ms[1..], key, v)
  }

  /** Setting one key leaves every other key's value as it was. */
  lemma {:induction false} SetValueOthers(ms: seq<Member>, key: string, v: Json, other: string)
    requires HasKey(ms, key) && other != key
    ensures Lookup(SetValue(ms, key, v), other) == Lookup(ms, other)
  {
    if ms != [] && ms[0].key != key {
      SetValueOthers(ms[1..], key, v, other);
    }
  }

  /** `type(v).__name__`, as it appears in the messages of the exceptions Python raises. */
  function TypeName(v: Json): string {
    match v
    case JNull => "NoneType"
    case JBool(_) => "bool"
    case JInt(_) => "int"
    case JFloat(_) => "float"
    case JStr(_) => "str"
    case JArr(_) => "list"
    case JObj(_) => "dict"
  }
}
