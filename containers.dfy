/**
 * The JavaScript values and effects the library's combinators observe: values that may be
 * null or undefined, truthiness, exceptions, arguments given either eagerly or as a
 * thunk, and the record of calls a callback receives.
 */
module JsValues {

  /** A JavaScript value of type `T | null | undefined`. */
  datatype Nullish<+T> = Null | Undefined | Defined(value: T)
  {
    /** `value == null`, which holds for both null and undefined. */
    predicate IsNullish() {
      Null? || Undefined?
    }
  }

  /** The JavaScript values that `fromTruthy` distinguishes; numbers are integers here. */
  datatype JsValue =
    | JsUndefined
    | JsNull
    | JsBool(b: bool)
    | JsNumber(n: int)
    | JsString(s: string)
    | JsObject(id: nat)

  /** The five falsy values among those modelled. */
  const Falsy: set<JsValue> := {JsUndefined, JsNull, JsBool(false), JsNumber(0), JsString("")}

  /** JavaScript's `Boolean(v)`: false, 0, "", null and undefined are falsy, all else truthy. */
  predicate Truthy(v: JsValue): (truthy: bool)
    ensures truthy <==> v !in Falsy
  {
    match v
    case JsUndefined => false
    case JsNull => false
    case JsBool(b) => b
    case JsNumber(n) => n != 0
    case JsString(s) => s != ""
    case JsObject(_) => true
  }

  /** How a call ends: it returns a value or throws one. */
  datatype Outcome<+T, +E> = Ok(value: T) | Thrown(error: E)

  /** The error values the runtime throws on its own. */
  datatype JsError = TypeError(message: string)

  /** An argument of type `E | (() => E)`: a value, or a function that produces it. */
  datatype Lazy<+E> = Eager(value: E) | Deferred(thunk: () -> E)
  {
    /** `isFunction(x) ? x : () => x`, then called. */
    function Force(): E {
      match this
      case Eager(v) => v
      case Deferred(f) => f()
    }
  }

  /** A result together with the arguments a callback was called with, in call order. */
  datatype Traced<+T, +A> = Traced(result: T, calls: seq<A>)
}

/** The algebraic containers of the `monet` library, as the combinators see them. */
module Containers {

  /** `Maybe<T>`: a Some holding a value, or a None. */
  datatype Maybe<+T> = None | Some(value: T)

  /** `Either<L, R>`: a Left or a Right, each carrying a value. */
  datatype Either<+L, +R> = Left(left: L) | Right(right: R)

  /** `Validation<E, T>`: a Fail carrying an error or a Success carrying a value. */
  datatype Validation<+E, +T> = Fail(fail: E) | Success(success: T)
}
