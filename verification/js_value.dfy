/**
 The slice of JavaScript's value semantics that both snippets rely on: a value
 is either `undefined` or some defined value, and reading an array past its end
 yields `undefined` instead of failing.
 */
module JsValues {

  /** A JavaScript value. `T` stands for every defined value; the snippets only
      ever distinguish `undefined` from the rest. */
  datatype JsValue<+T> = Undefined | Defined(value: T)

  /** JavaScript `a[i]` for a non-negative index: the element when `i` is in
      range, `undefined` otherwise. */
  function At<T>(a: seq<JsValue<T>>, i: nat): (v: JsValue<T>)
    ensures i < |a| ==> v == a[i]
    ensures |a| <= i ==> v.Undefined?
  {
    if i < |a| then a[i] else Undefined
  }

  /** How a declared parameter is bound in a call: an argument that is left out
      binds the parameter to `undefined`, exactly like passing `undefined`. */
  datatype Argument<+T> = Omitted | Passed(arg: JsValue<T>)

  function Bind<T>(a: Argument<T>): (v: JsValue<T>)
    ensures a.Omitted? ==> v.Undefined?
    ensures a.Passed? ==> v == a.arg
  {
    match a
    case Omitted => Undefined
    case Passed(v) => v
  }
}
