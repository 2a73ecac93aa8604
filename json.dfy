/** JSON values and the subset of JSON Type Definition (RFC 8927) that the save format uses:
    the properties, elements and type forms, with the `string` and `int32` types. */
module Json {

  /** A parsed JSON value. Numbers are the reals JavaScript's doubles stand for; objects map each
      member name to its value (a repeated name keeps its last value, as `JSON.parse` does). */
  datatype Json =
    | JNull
    | JBool(b: bool)
    | JNumber(n: real)
    | JString(s: string)
    | JArray(items: seq<Json>)
    | JObject(members: map<string, Json>)

  /** The type names of the type form used here. */
  datatype JtdType = StringType | Int32Type

  /** A JTD schema without `nullable`, `optionalProperties`, `additionalProperties` or metadata. */
  datatype Schema =
    | TypeForm(t: JtdType)
    | Elements(elements: Schema)
    | Properties(properties: seq<(string, Schema)>)

  const Int32Min: int := -0x8000_0000
  const Int32Max: int := 0x7FFF_FFFF

  predicate IsInt32(n: real) {
    n.Floor as real == n && Int32Min <= n.Floor <= Int32Max
  }

  predicate HasProperty(properties: seq<(string, Schema)>, name: string) {
    exists p :: 0 <= p < |properties| && properties[p].0 == name
  }

  /** Validation as section 3.3 of RFC 8927 defines it: a type form accepts a string, or a number
      with no fractional part within the signed 32-bit range; an elements form accepts an array
      whose every item is accepted; a properties form accepts an object that has every listed
      member, each accepted by its schema, and no other member. */
  predicate Conforms(schema: Schema, value: Json)
    decreases schema
  {
    match schema
    case TypeForm(StringType) => value.JString?
    case TypeForm(Int32Type) => value.JNumber? && IsInt32(value.n)
    case Elements(e) =>
      value.JArray? && forall k :: 0 <= k < |value.items| ==> Conforms(e, value.items[k])
    case Properties(ps) =>
      value.JObject? &&
      (forall p :: 0 <= p < |ps| ==> ps[p].0 in value.members && Conforms(ps[p].1, value.members[ps[p].0])) &&
      (forall name :: name in value.members ==> HasProperty(ps, name))
  }
}
