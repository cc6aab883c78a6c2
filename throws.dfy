/**
 * The validation helpers of throws.js. Each check either throws `Error(message)`
 * or returns normally; here a check is a function whose `Fail` result is the
 * thrown error. Being functions of values, a check that passes cannot have
 * changed its arguments.
 */
module Throws {
  import opened JsValues

  datatype Outcome = Pass | Fail(error: JsError)

  /** Throws unless `fn` is a function. The source also tests `!fn`, which no function satisfies. */
  function NotFunction(fn: JsValue, message: string): (r: Outcome)
    ensures r == Pass <==> IsFunction(fn)
    ensures r != Pass ==> r == Fail(Error(message))
  {
    if !IsFunction(fn) || !Truthy(fn) then Fail(Error(message)) else Pass
  }

  /** Throws unless `str` is a string; `null` and `undefined` are not. */
  function NotString(str: JsValue, message: string): (r: Outcome)
    ensures r == Pass <==> str.Str?
    ensures r != Pass ==> r == Fail(Error(message))
  {
    if !str.Str? then Fail(Error(message)) else Pass
  }

  /** Runs `NotString` first, then throws for the empty string. */
  function EmptyString(str: JsValue, message: string): (r: Outcome)
    ensures r == Pass <==> str.Str? && |str.s| > 0
    ensures r != Pass ==> r == Fail(Error(message))
  {
    if NotString(str, message).Fail? then NotString(str, message)
    else if |str.s| == 0 then Fail(Error(message))
    else Pass
  }

  /** `arr.indexOf(val)`: the first index holding a value strictly equal to `val`, or -1. */
  function IndexOf(arr: seq<JsValue>, val: JsValue): (r: int)
    ensures -1 <= r < |arr|
    ensures r == -1 <==> forall i | 0 <= i < |arr| :: !StrictEquals(arr[i], val)
    ensures r >= 0 ==> StrictEquals(arr[r], val) && forall i | 0 <= i < r :: !StrictEquals(arr[i], val)
  {
    if |arr| == 0 then -1
    else if StrictEquals(arr[0], val) then 0
    else
      var k := IndexOf(arr[1..], val);
      if k == -1 then -1 else k + 1
  }

  /** Throws when no element of `arr` is strictly equal to `val`. */
  function NotInArray(val: JsValue, arr: seq<JsValue>, message: string): (r: Outcome)
    ensures r == Pass <==> exists i | 0 <= i < |arr| :: StrictEquals(arr[i], val)
    ensures r != Pass ==> r == Fail(Error(message))
  {
    if -1 == IndexOf(arr, val) then Fail(Error(message)) else Pass
  }

  /** Throws for every falsy value. */
  function NotDefined(val: JsValue, message: string): (r: Outcome)
    ensures r == Pass <==> Truthy(val)
    ensures r != Pass ==> r == Fail(Error(message))
  {
    if !Truthy(val) then Fail(Error(message)) else Pass
  }

  /**
   * Throws when `propName in obj` is false, counting inherited properties.
   * The `in` operator itself throws a `TypeError` when `obj` is not an object.
   */
  function NotHave(obj: JsValue, propName: string, message: string): (r: Outcome)
    ensures !obj.Object? ==> r == Fail(TypeError)
    ensures obj.Object? ==> (r == Pass <==> propName in obj.own || propName in obj.inherited)
    ensures obj.Object? && r != Pass ==> r == Fail(Error(message))
  {
    if !obj.Object? then Fail(TypeError)
    else if !HasProperty(obj, propName) then Fail(Error(message))
    else Pass
  }
}
