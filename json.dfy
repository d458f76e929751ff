/** The tree that Jackson's ObjectMapper.readTree builds, and the lookups the
    application performs on it: get, has, path, asText, asText(default),
    elements() and get(index). Text parsing itself is not modelled. */
module Json {
  import opened JavaLang

  /** A JsonNode. JMissing is Jackson's MissingNode, what `path` returns for an absent
      member. An object holds its members as a list of name and value; objects with
      two members of the same name are outside the model. */
  datatype Json =
    | JNull
    | JBool(b: bool)
    | JNumber(n: int)
    | JString(s: string)
    | JArray(items: seq<Json>)
    | JObject(members: seq<(string, Json)>)
    | JMissing

  /** The value of the member called name (the first one, should there be several). */
  function Lookup(members: seq<(string, Json)>, name: string): Option<Json>
    decreases |members|
  {
    if members == [] then None
    else if members[0].0 == name then Some(members[0].1)
    else Lookup(members[1..], name)
  }

  /** The value found belongs to a member of that name, and nothing is found exactly when
      no member has the name. */
  lemma {:induction false} LookupFinds(members: seq<(string, Json)>, name: string)
    ensures Lookup(members, name).Some? ==> (name, Lookup(members, name).value) in members
    ensures Lookup(members, name).None? <==> forall i :: 0 <= i < |members| ==> members[i].0 != name
    decreases |members|
  {
    if members != [] && members[0].0 != name {
      LookupFinds(members[1..], name);
      assert forall i :: 1 <= i < |members| ==> members[i] == members[1..][i - 1];
    }
  }

  /** JsonNode.get(name): the member's value, or null when the node is not an object
      or has no such member. */
  function Get(node: Json, name: string): Option<Json> {
    match node
    case JObject(ms) => Lookup(ms, name)
    case _ => None
  }

  /** JsonNode.has(name). A member whose value is JSON null is present. */
  predicate Has(node: Json, name: string) {
    Get(node, name).Some?
  }

  /** JsonNode.path(name): like get, but a MissingNode instead of null. */
  function Path(node: Json, name: string): (r: Json)
    ensures !Has(node, name) ==> r == JMissing
    ensures Has(node, name) ==> Some(r) == Get(node, name)
  {
    match Get(node, name)
    case Some(v) => v
    case None => JMissing
  }

  /** JsonNode.asText(): the text of a string, the decimal text of an integer, "true" or
      "false", "null" for JSON null, and "" for containers and for a missing node. */
  function AsText(node: Json): string {
    match node
    case JString(s) => s
    case JNumber(n) => IntToString(n)
    case JBool(b) => if b then "true" else "false"
    case JNull => "null"
    case _ => ""
  }

  /** JsonNode.asText(defaultValue): the default for JSON null and for a missing node. */
  function AsTextOr(node: Json, default: Option<string>): (r: Option<string>)
    ensures node.JNull? || node.JMissing? ==> r == default
    ensures !(node.JNull? || node.JMissing?) ==> r == Some(AsText(node))
  {
    if node.JNull? || node.JMissing? then default else Some(AsText(node))
  }

  /** The children that iterating a node (or calling elements()) yields: the items of an
      array, the member values of an object, nothing for any other node. */
  function Elements(node: Json): (r: seq<Json>)
    ensures node.JArray? ==> r == node.items
    ensures node.JObject? ==>
              (|r| == |node.members| && forall i :: 0 <= i < |r| ==> r[i] == node.members[i].1)
    ensures !(node.JArray? || node.JObject?) ==> r == []
  {
    match node
    case JArray(items) => items
    case JObject(ms) => seq(|ms|, i requires 0 <= i < |ms| => ms[i].1)
    case _ => []
  }

  /** JsonNode.get(index): an item of an array, or null. */
  function GetIndex(node: Json, index: nat): (r: Option<Json>)
    ensures r.Some? <==> node.JArray? && index < |node.items|
  {
    if node.JArray? && index < |node.items| then Some(node.items[index]) else None
  }
}
