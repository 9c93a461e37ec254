/** JSON values as `JSON.parse` produces them, and the JavaScript operations the
    TypeScript sources apply to them. Turning values into text and back is left to
    parameters of the functions that need it. */
module JsonValues {
  import opened Wrappers

  /** A parsed JSON value. Numbers are integers (fractions play no part here); an object
      maps each key to the value `JSON.parse` keeps for it. */
  datatype Json =
    | JNull
    | JBool(b: bool)
    | JNumber(n: int)
    | JString(s: string)
    | JArray(items: seq<Json>)
    | JObject(members: map<string, Json>)

  /** `v?.key`: the member of an object, or undefined for any other value. */
  function Member(v: Option<Json>, key: string): (r: Option<Json>)
    ensures r.Some? <==> v.Some? && v.value.JObject? && key in v.value.members
  {
    if v.Some? && v.value.JObject? && key in v.value.members then Some(v.value.members[key])
    else None
  }

  /** JavaScript truthiness of a value that may be undefined. */
  predicate Truthy(v: Option<Json>) {
    match v
    case None => false
    case Some(JNull) => false
    case Some(JBool(b)) => b
    case Some(JNumber(n)) => n != 0
    case Some(JString(s)) => s != ""
    case Some(_) => true
  }

  function AsJson(ids: seq<string>): (r: seq<Json>)
    ensures |r| == |ids| && forall i :: 0 <= i < |ids| ==> r[i] == JString(ids[i])
  {
    seq(|ids|, i requires 0 <= i < |ids| => JString(ids[i]))
  }

  predicate AllStrings(items: seq<Json>) {
    forall i :: 0 <= i < |items| ==> items[i].JString?
  }

  function Texts(items: seq<Json>): (r: seq<string>)
    requires AllStrings(items)
    ensures |r| == |items| && AsJson(r) == items
  {
    seq(|items|, i requires 0 <= i < |items| => items[i].s)
  }
}
