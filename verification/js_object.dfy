/** Property lookup on a JavaScript object literal used as a dictionary
    (`obj[key]`). Besides its own keys, such an object answers for the keys it
    inherits from `Object.prototype`, whose values (functions, and the prototype
    object itself for `__proto__`) are all truthy. */
module JsObject {

  /** The keys every plain object inherits from `Object.prototype`. */
  const PrototypeKeys: set<string> := {
    "constructor", "__proto__", "toString", "toLocaleString", "valueOf",
    "hasOwnProperty", "isPrototypeOf", "propertyIsEnumerable",
    "__defineGetter__", "__defineSetter__", "__lookupGetter__", "__lookupSetter__"
  }

  /** What `obj[key]` yields: an own value, an inherited prototype member, or
      `undefined`. */
  datatype Lookup<T> = Own(value: T) | Inherited | Missing

  /** `obj[key]` on an object literal whose own properties are `own`. */
  function Get<T>(own: map<string, T>, key: string): (r: Lookup<T>)
    ensures r.Own? <==> key in own
    ensures r.Own? ==> r.value == own[key]
    ensures r.Inherited? <==> key !in own && key in PrototypeKeys
  {
    if key in own then Own(own[key])
    else if key in PrototypeKeys then Inherited
    else Missing
  }

  /** Truthiness of the looked-up value, given the truthiness of own values. */
  predicate Truthy<T>(r: Lookup<T>, truthy: T -> bool) {
    match r
    case Own(v) => truthy(v)
    case Inherited => true
    case Missing => false
  }
}
