/**
 * The JavaScript values that the router's validators and parsers inspect.
 *
 * An object carries an identity (`id`), what kind of object it is, its own
 * properties and the properties it inherits through its prototype chain
 * (flattened: an own property shadows an inherited one of the same name).
 * Two `Object` values with the same `id` stand for the same object.
 */
module JsValues {

  /** What an object is besides a bag of properties. */
  datatype ObjectKind =
    | Plain
    | Function
      /** A Node `Buffer`; its bytes are ASCII, so they are modelled as characters. */
    | Buffer(data: string)

  datatype JsValue =
    | Undefined
    | Null
    | Bool(b: bool)
    | Num(x: real)
    | NaN
    | Str(s: string)
    | Object(id: nat, kind: ObjectKind, own: map<string, JsValue>, inherited: map<string, JsValue>)

  /**
   * What a JS statement can throw here: an `Error` with a message, an engine
   * `TypeError`, or the `SyntaxError` of `new RegExp` for a malformed pattern.
   */
  datatype JsError = Error(message: string) | TypeError | SyntaxError

  /** JS truthiness: `false`, `0`, `NaN`, `""`, `null` and `undefined` are falsy. */
  predicate Truthy(v: JsValue)
  {
    match v
    case Undefined => false
    case Null => false
    case Bool(b) => b
    case Num(x) => x != 0.0
    case NaN => false
    case Str(s) => |s| > 0
    case Object(_, _, _, _) => true
  }

  /** `typeof v === "function"` */
  predicate IsFunction(v: JsValue)
  {
    v.Object? && v.kind.Function?
  }

  /** `name in o` for an object `o`: own or inherited. */
  predicate HasProperty(o: JsValue, name: string)
    requires o.Object?
  {
    name in o.own || name in o.inherited
  }

  /** `o[name]` for an object `o`. */
  function Get(o: JsValue, name: string): (v: JsValue)
    requires o.Object?
    ensures !HasProperty(o, name) ==> v == Undefined
    ensures name in o.own ==> v == o.own[name]
  {
    if name in o.own then o.own[name]
    else if name in o.inherited then o.inherited[name]
    else Undefined
  }

  /** `a === b`: objects compare by identity and `NaN` equals nothing. */
  predicate StrictEquals(a: JsValue, b: JsValue)
  {
    match a
    case NaN => false
    case Object(id, _, _, _) => b.Object? && b.id == id
    case _ => a == b
  }
}
