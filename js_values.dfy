/** The slice of JavaScript's value model that the identity and game code
    depends on: numbers (with NaN and the infinities), parsed JSON values,
    truthiness, property access, and the library decoders that the code calls
    but whose internals are not modelled (they are supplied as a `Host`). */
module JsValues {
  import opened Wrappers

  /** A JavaScript number. Only integral finite values are represented;
      NaN and the two infinities are kept because `Number(..)` and
      `JSON.parse` can produce them and the code tests for them. */
  datatype JsNumber = Finite(v: int) | NaN | Infinity(positive: bool)

  /** A value produced by `JSON.parse` (plus `undefined`, the result of
      reading a property that is not there). */
  datatype JsValue =
    | JUndefined
    | JNull
    | JBool(b: bool)
    | JNum(n: JsNumber)
    | JStr(s: string)
    | JArray(items: seq<JsValue>)
    | JObject(fields: map<string, JsValue>)

  /** `!!n` for a number: 0 and NaN are falsy, every other number is truthy. */
  predicate NumberTruthy(n: JsNumber) {
    match n
    case Finite(v) => v != 0
    case NaN => false
    case Infinity(_) => true
  }

  /** `!!v` for a JSON value. */
  predicate Truthy(v: JsValue) {
    match v
    case JUndefined => false
    case JNull => false
    case JBool(b) => b
    case JNum(n) => NumberTruthy(n)
    case JStr(s) => s != ""
    case JArray(_) => true
    case JObject(_) => true
  }

  /** `!!x` for an optional string field of a request body: absent and ""
      are falsy. */
  predicate StringTruthy(x: Option<string>) {
    x.Some? && x.value != ""
  }

  /** `Number.isNaN(n)` */
  predicate IsNaN(n: JsNumber) {
    n.NaN?
  }

  /** `Number.isFinite(n)` */
  predicate IsFinite(n: JsNumber) {
    n.Finite?
  }

  /** `v?.key`: the property when `v` is an object that has it, otherwise
      `undefined` (also for null and undefined, thanks to `?.`). A string
      does have inherited properties (`"x".sub` is a method of
      `String.prototype`); every caller here tests the result with `typeof`
      against 'number' or 'string', which a function fails like `undefined`,
      so those are not represented. */
  function Get(v: JsValue, key: string): JsValue {
    if v.JObject? && key in v.fields then v.fields[key] else JUndefined
  }

  /** `v.key` without optional chaining: reading a property of null or
      undefined throws a TypeError (None here). */
  function GetStrict(v: JsValue, key: string): (r: Option<JsValue>)
    ensures r.None? <==> v.JNull? || v.JUndefined?
    ensures r.Some? ==> r.value == Get(v, key)
  {
    if v.JNull? || v.JUndefined? then None else Some(Get(v, key))
  }

  /** The library functions the decoders call, treated as given functions.
      An `Option` result is `None` exactly when the library call throws. */
  datatype Host = Host(
    /** `atob(s)`: None when it throws (or is not available). */
    atob: string -> Option<string>,
    /** `new TextDecoder().decode(Uint8Array.from(bin, c => c.charCodeAt(0)))` */
    utf8FromBinary: string -> string,
    /** `Buffer.from(s, 'base64').toString('utf-8')` (lenient, never throws) */
    bufferBase64ToUtf8: string -> string,
    /** `Buffer.from(s, 'base64url').toString('utf-8')` (lenient, never throws) */
    bufferBase64UrlToUtf8: string -> string,
    /** `JSON.parse(s)`: None when it throws. */
    jsonParse: string -> Option<JsValue>,
    /** `Number(s)` for a string. */
    stringToNumber: string -> JsNumber
  )

  /** `Number(v)` for a request-body value. */
  function ToNumber(host: Host, v: JsValue): JsNumber {
    match v
    case JUndefined => NaN
    case JNull => Finite(0)
    case JBool(b) => if b then Finite(1) else Finite(0)
    case JNum(n) => n
    case JStr(s) => host.stringToNumber(s)
    case JArray(_) => NaN
    case JObject(_) => NaN
  }
}
