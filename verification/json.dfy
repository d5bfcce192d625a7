/** JSON values as the backend sees them once a reply body has been parsed,
    together with the few JavaScript operations the core applies to them:
    truthiness, `typeof x === 'object'`, the `in` operator, property
    lookup and `JSON.stringify`. */
module Json {

  import opened Wrappers
  import Decimal

  /** A parsed JSON value. Numbers are integral (the core only ever copies
      or prints them). An object keeps its members in source order; a
      parsed object never repeats a key, and lookup finds the first match. */
  datatype Json =
    | JNull
    | JBool(b: bool)
    | JNumber(n: int)
    | JString(s: string)
    | JArray(items: seq<Json>)
    | JObject(members: seq<(string, Json)>)

  /** JavaScript truthiness: `null`, `false`, `0` and `""` are falsy,
      everything else (including empty arrays and objects) is truthy. */
  predicate Truthy(j: Json) {
    match j
    case JNull => false
    case JBool(b) => b
    case JNumber(n) => n != 0
    case JString(s) => s != ""
    case JArray(_) => true
    case JObject(_) => true
  }

  /** `typeof j === 'object'`, which holds for `null`, arrays and objects. */
  predicate IsObjectType(j: Json) {
    j.JNull? || j.JArray? || j.JObject?
  }

  /** A value on which `key in j` throws a TypeError: every primitive. */
  predicate IsPrimitive(j: Json) {
    !IsObjectType(j)
  }

  /** `key in j` for an array or object and one of the non-index property
      names the core asks about (`result`, `error`, `message`, `code`),
      none of which an array or `Object.prototype` carries. */
  predicate HasKey(j: Json, key: string) {
    j.JObject? && exists i :: 0 <= i < |j.members| && j.members[i].0 == key
  }

  function Lookup(members: seq<(string, Json)>, key: string): (r: Option<Json>)
    ensures r.Some? <==> exists i :: 0 <= i < |members| && members[i].0 == key
    ensures r.Some? ==> exists i :: 0 <= i < |members| && members[i] == (key, r.value)
  {
    if |members| == 0 then None
    else if members[0].0 == key then Some(members[0].1)
    else
      var r := Lookup(members[1..], key);
      assert r.Some? ==> members[1..][0..] == members[1..];
      assert forall i :: 1 <= i < |members| ==> members[i] == members[1..][i - 1];
      r
  }

  /** Property access `j[key]`, `None` standing for `undefined`. */
  function Get(j: Json, key: string): (r: Option<Json>)
    ensures r.Some? <==> HasKey(j, key)
  {
    if j.JObject? then Lookup(j.members, key) else None
  }

  /** `typeof j[key] === 'string'`, giving the string. */
  function GetString(j: Json, key: string): (r: Option<string>)
    ensures r.Some? <==> Get(j, key).Some? && Get(j, key).value.JString?
    ensures r.Some? ==> Get(j, key) == Some(JString(r.value))
  {
    match Get(j, key)
    case Some(JString(s)) => Some(s)
    case _ => None
  }

  /** A two-digit lower-case hexadecimal rendering of a byte value. */
  function Hex2(n: nat): string
    requires n < 256
  {
    var digits := "0123456789abcdef";
    [digits[n / 16], digits[n % 16]]
  }

  /** One character of a string as `JSON.stringify` escapes it. */
  function EscapeChar(c: char): string {
    if c == '"' then "\\\""
    else if c == '\\' then "\\\\"
    else if c as int == 8 then "\\b"
    else if c as int == 12 then "\\f"
    else if c == '\n' then "\\n"
    else if c == '\r' then "\\r"
    else if c == '\t' then "\\t"
    else if c as int < 32 then "\\u00" + Hex2(c as int)
    else [c]
  }

  function Escape(s: string): string {
    if |s| == 0 then "" else EscapeChar(s[0]) + Escape(s[1..])
  }

  function Quote(s: string): (r: string)
    ensures |r| >= 2 && r[0] == '"' && r[|r| - 1] == '"'
  {
    "\"" + Escape(s) + "\""
  }

  /** `JSON.stringify(j)`. */
  function Stringify(j: Json): (r: string)
    ensures |r| > 0
    decreases j, 1
  {
    match j
    case JNull => "null"
    case JBool(b) => if b then "true" else "false"
    case JNumber(n) => Decimal.IntToString(n)
    case JString(s) => Quote(s)
    case JArray(items) => "[" + StringifyItems(j, items) + "]"
    case JObject(members) => "{" + StringifyMembers(j, members) + "}"
  }

  function StringifyItems(parent: Json, items: seq<Json>): string
    requires forall i :: 0 <= i < |items| ==> items[i] < parent
    decreases parent, 0, |items|
  {
    if |items| == 0 then ""
    else
      var head := Stringify(items[0]);
      if |items| == 1 then head else head + "," + StringifyItems(parent, items[1..])
  }

  function StringifyMembers(parent: Json, members: seq<(string, Json)>): string
    requires forall i :: 0 <= i < |members| ==> members[i].1 < parent
    decreases parent, 0, |members|
  {
    if |members| == 0 then ""
    else
      var head := Quote(members[0].0) + ":" + Stringify(members[0].1);
      if |members| == 1 then head else head + "," + StringifyMembers(parent, members[1..])
  }

  /** The object `{ message: text }` the core builds for its own errors. */
  function MessageObject(text: string): (j: Json)
    ensures GetString(j, "message") == Some(text)
    ensures Truthy(j)
  {
    JObject([("message", JString(text))])
  }
}
