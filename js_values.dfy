/**
 * The JavaScript view of a parsed JSON request body: the values a handler
 * destructures from `req.body`, JavaScript truthiness, and the `||` and
 * `? :` defaulting the handlers apply to them.
 */
module JsValues {

  import opened Wrappers

  /** A JSON value; a key absent from the body reads as `JUndefined`.
      Numbers are exact reals, not the doubles a JSON number parses to: the
      overflow to Infinity, the underflow to 0 and the rounding of a double
      are not represented. */
  datatype JsValue =
    | JUndefined
    | JNull
    | JBool(b: bool)
    | JNum(n: real)
    | JStr(s: string)
    | JArray(items: seq<JsValue>)
    | JObject(props: map<string, JsValue>)

  /** A parsed JSON body, `{}` when the request carried none. */
  type Body = map<string, JsValue>

  /** JavaScript truthiness: `undefined`, `null`, `false`, `0` and `""` are falsy. */
  predicate Truthy(v: JsValue)
    ensures !Truthy(v) <==> v == JUndefined || v == JNull || v == JBool(false) || v == JNum(0.0) || v == JStr("")
  {
    match v
    case JUndefined => false
    case JNull => false
    case JBool(b) => b
    case JNum(n) => n != 0.0
    case JStr(s) => s != ""
    case JArray(_) => true
    case JObject(_) => true
  }

  /** `body[key]`, which is `undefined` for a missing key. */
  function Get(body: Body, key: string): JsValue {
    if key in body then body[key] else JUndefined
  }

  /** JavaScript `v || fallback`. */
  function Or(v: JsValue, fallback: JsValue): (r: JsValue)
    ensures Truthy(v) ==> r == v
    ensures !Truthy(v) ==> r == fallback
    ensures Truthy(r) <==> Truthy(v) || Truthy(fallback)
  {
    if Truthy(v) then v else fallback
  }

  /** JavaScript `v ? 1 : 0`, the coercion of the availability flag. */
  function Flag(v: JsValue): (r: JsValue)
    ensures r == JNum(0.0) || r == JNum(1.0)
    ensures Truthy(r) <==> Truthy(v)
  {
    if Truthy(v) then JNum(1.0) else JNum(0.0)
  }

  /** `!body.k1 || !body.k2 || ...` is false: every listed key is truthy. */
  predicate AllPresent(body: Body, keys: seq<string>)
    ensures AllPresent(body, keys) <==> forall k | k in keys :: Truthy(Get(body, k))
    ensures AllPresent(body, keys) ==> forall k | k in keys :: k in body
  {
    forall i :: 0 <= i < |keys| ==> Truthy(Get(body, keys[i]))
  }

  /** A number that is a non-negative whole value, read as a row id. */
  function AsId(v: JsValue): (r: Option<nat>)
    ensures r.Some? <==> v.JNum? && v.n >= 0.0 && v.n == v.n.Floor as real
    ensures r.Some? ==> v == JNum(r.value as real)
  {
    if v.JNum? && v.n >= 0.0 && v.n == v.n.Floor as real then Some(v.n.Floor) else None
  }
}
