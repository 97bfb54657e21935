/**
 * JSON-like JavaScript values, as produced by `JSON.parse` and handled by the
 * test-support helpers. Numbers are reals (NaN, the infinities and -0 are not
 * represented); an object is the sequence of its own (key, value) pairs in
 * property order, and a well-formed object has distinct keys.
 */
module Json {
  import opened Wrappers

  datatype Value =
    | JNull
    | JBool(b: bool)
    | JNumber(n: real)
    | JString(s: string)
    | JArray(items: seq<Value>)
    | JObject(fields: seq<(string, Value)>)

  /** The keys of an object, in property order. */
  function Keys(fields: seq<(string, Value)>): (ks: seq<string>)
    ensures |ks| == |fields|
    ensures forall i | 0 <= i < |fields| :: ks[i] == fields[i].0
  {
    seq(|fields|, i requires 0 <= i < |fields| => fields[i].0)
  }

  /** No key occurs twice: what every JavaScript object satisfies. */
  ghost predicate DistinctKeys(fields: seq<(string, Value)>)
  {
    forall i, j | 0 <= i < j < |fields| :: fields[i].0 != fields[j].0
  }

  /** Every object inside `v` (at any depth) has distinct keys. */
  ghost predicate WellFormed(v: Value)
    decreases v
  {
    match v
    case JArray(items) => forall i | 0 <= i < |items| :: WellFormed(items[i])
    case JObject(fields) =>
      DistinctKeys(fields) && forall i | 0 <= i < |fields| :: WellFormed(fields[i].1)
    case _ => true
  }

  /** The own property `k` of an object: `hasOwnProperty` and `obj[k]` together. */
  function Get(fields: seq<(string, Value)>, k: string): (r: Option<Value>)
    ensures r.Some? <==> k in Keys(fields)
    ensures r.Some? ==> (k, r.value) in fields
    ensures forall i | 0 <= i < |fields| && fields[i].0 == k && DistinctKeys(fields) :: r == Some(fields[i].1)
  {
    if fields == [] then None
    else if fields[0].0 == k then Some(fields[0].1)
    else
      var r := Get(fields[1..], k);
      assert Keys(fields) == [fields[0].0] + Keys(fields[1..]);
      r
  }

  /**
   * Property access `v.k` on any value. Only objects have the own properties
   * this core reads (`repeat`, `unit`, `times`, `expect`, `titleLength`,
   * `bodyLength`); on every other non-null value the access yields `undefined`.
   */
  function Lookup(v: Value, k: string): (r: Option<Value>)
    ensures r.Some? <==> v.JObject? && k in Keys(v.fields)
  {
    match v
    case JObject(fields) => Get(fields, k)
    case _ => None
  }

  /** JavaScript truthiness (`!!v`). */
  predicate Truthy(v: Value)
  {
    match v
    case JNull => false
    case JBool(b) => b
    case JNumber(n) => n != 0.0
    case JString(s) => s != ""
    case _ => true
  }

  /** The JavaScript `typeof` operator; note `typeof null === 'object'`. */
  function Typeof(v: Value): string
  {
    match v
    case JNull => "object"
    case JBool(_) => "boolean"
    case JNumber(_) => "number"
    case JString(_) => "string"
    case JArray(_) => "object"
    case JObject(_) => "object"
  }
}
