/** Optional values and thrown-or-returned results. */
module Outcomes {

  datatype Option<+T> = None | Some(value: T) {
    function GetOr(default: T): T
    {
      match this
      case Some(v) => v
      case None => default
    }
  }

  /** A call that either returns a value or throws an exception with a message. */
  datatype Except<+T> = Ok(value: T) | Thrown(msg: string)
}

/** The cJSON value tree as an immutable datatype. An object is its ordered
    list of keyed children; an array is its ordered list of unkeyed
    children. A number carries both of cJSON's views of it: `valueint`
    and `valuedouble` (doubles are opaque here and held as `real`). */
module Json {

  datatype JValue =
    | JNull
    | JFalse
    | JTrue
    | JNumber(valueint: int, valuedouble: real)
    | JString(str: string)
    | JArray(items: seq<JValue>)
    | JObject(members: seq<Member>)

  datatype Member = Member(key: string, value: JValue)

  /** cJSON's `type` tag. */
  datatype Kind = KNull | KFalse | KTrue | KNumber | KString | KArray | KObject

  function KindOf(v: JValue): Kind
  {
    match v
    case JNull => KNull
    case JFalse => KFalse
    case JTrue => KTrue
    case JNumber(_, _) => KNumber
    case JString(_) => KString
    case JArray(_) => KArray
    case JObject(_) => KObject
  }

  /** `cJSON_CreateNumber` applied to a C `int`. */
  function Num(i: int): JValue
  {
    JNumber(i, i as real)
  }

  /** `cJSON_CreateTrue` / `cJSON_CreateFalse`. */
  function Bool(b: bool): JValue
  {
    if b then JTrue else JFalse
  }

  predicate IsContainer(v: JValue)
  {
    v.JArray? || v.JObject?
  }

  /** The child values of an item (`child`, then `next` along the chain):
      an array's items, an object's member values, nothing for a scalar. */
  function Children(x: JValue): (cs: seq<JValue>)
    ensures x.JArray? ==> cs == x.items
    ensures !IsContainer(x) ==> cs == []
    ensures x.JObject? ==> |cs| == |x.members| && forall i :: 0 <= i < |cs| ==> cs[i] == x.members[i].value
  {
    match x
    case JArray(items) => items
    case JObject(ms) => seq(|ms|, i requires 0 <= i < |ms| => ms[i].value)
    case _ => []
  }

  /** An array of strings, as built by repeated `cJSON_AddItemToArray(a, cJSON_CreateString(s))`. */
  function StringArray(ss: seq<string>): (r: JValue)
    ensures r.JArray? && |r.items| == |ss|
    ensures forall i :: 0 <= i < |ss| ==> r.items[i] == JString(ss[i])
  {
    if |ss| == 0 then JArray([])
    else JArray([JString(ss[0])] + StringArray(ss[1..]).items)
  }

  /** The keys of a member list, in order. */
  function Keys(ms: seq<Member>): (ks: seq<string>)
    ensures |ks| == |ms|
    ensures forall i :: 0 <= i < |ms| ==> ks[i] == ms[i].key
  {
    if |ms| == 0 then [] else [ms[0].key] + Keys(ms[1..])
  }
}
