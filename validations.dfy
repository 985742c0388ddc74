/** Curried helpers over `Validation` (src/Validations.ts). */
module Validations {
  import opened JsValues
  import opened Containers
  import Eithers

  /** `fromTruthy(err, value)`: Success of a truthy value, Fail of `err` for a falsy one. */
  function FromTruthy<E>(err: E, value: JsValue): (r: Validation<E, JsValue>)
    ensures r.Success? <==> Truthy(value)
    ensures r.Success? ==> r.success == value
    ensures r.Fail? ==> r.fail == err
  {
    if Truthy(value) then Success(value) else Fail(err)
  }

  /** The falsy values: 0, null and undefined (and false, "") all give a Fail. */
  lemma FromTruthyFalsy<E>(err: E)
    ensures FromTruthy(err, JsNumber(0)) == Fail(err)
    ensures FromTruthy(err, JsNull) == Fail(err)
    ensures FromTruthy(err, JsUndefined) == Fail(err)
    ensures FromTruthy(err, JsBool(false)) == Fail(err)
    ensures FromTruthy(err, JsString("")) == Fail(err)
  {
  }

  /** `Validation.map(fn)`: maps a Success; a Fail is returned unchanged. */
  function Map<E, T, V>(fn: T -> V, validation: Validation<E, T>): (r: Validation<E, V>)
    ensures r.Success? <==> validation.Success?
    ensures validation.Fail? ==> r == Fail(validation.fail)
    ensures validation.Success? ==> r.success == fn(validation.success)
  {
    match validation
    case Fail(e) => Fail(e)
    case Success(v) => Success(fn(v))
  }

  /** `Validation.failMap(fn)`: maps a Fail; a Success is returned unchanged. */
  function FailMap<E, T, V>(fn: E -> V, validation: Validation<E, T>): (r: Validation<V, T>)
    ensures r.Fail? <==> validation.Fail?
    ensures validation.Success? ==> r == Success(validation.success)
    ensures validation.Fail? ==> r.fail == fn(validation.fail)
  {
    match validation
    case Fail(e) => Fail(fn(e))
    case Success(v) => Success(v)
  }

  /** `Validation.bimap(fail, success)`: maps whichever variant is present, keeping it. */
  function Bimap<E, T, A, B>(fail: E -> A, success: T -> B, validation: Validation<E, T>): (r: Validation<A, B>)
    ensures r.Fail? <==> validation.Fail?
    ensures validation.Fail? ==> r.fail == fail(validation.fail)
    ensures validation.Success? ==> r.success == success(validation.success)
  {
    match validation
    case Fail(e) => Fail(fail(e))
    case Success(v) => Success(success(v))
  }

  /** `Validation.flatMap(fn)`: the Validation `fn` gives for a Success; a Fail is unchanged. */
  function FlatMap<E, T, V>(fn: T -> Validation<E, V>, validation: Validation<E, T>): (r: Validation<E, V>)
    ensures validation.Fail? ==> r == Fail(validation.fail)
    ensures validation.Success? ==> r == fn(validation.success)
  {
    match validation
    case Fail(e) => Fail(e)
    case Success(v) => fn(v)
  }

  /** `Validation.cata(fail, success)`: the handler of the variant that is present. */
  function Cata<E, T, V>(fail: E -> V, success: T -> V, validation: Validation<E, T>): (r: V)
    ensures validation.Fail? ==> r == fail(validation.fail)
    ensures validation.Success? ==> r == success(validation.success)
  {
    match validation
    case Fail(e) => fail(e)
    case Success(v) => success(v)
  }

  /** `Validation.toEither()`: Fail becomes Left and Success becomes Right, same payload. */
  function ToEither<E, T>(validation: Validation<E, T>): (r: Either<E, T>)
    ensures r.Left? <==> validation.Fail?
    ensures r.Left? ==> r.left == validation.fail
    ensures r.Right? ==> r.right == validation.success
  {
    match validation
    case Fail(e) => Left(e)
    case Success(v) => Right(v)
  }

  /** `Validation.toMaybe()`: Some of a Success value, None for a Fail. */
  function ToMaybe<E, T>(validation: Validation<E, T>): (r: Maybe<T>)
    ensures r.Some? <==> validation.Success?
    ensures r.Some? ==> r.value == validation.success
  {
    match validation
    case Fail(_) => None
    case Success(v) => Some(v)
  }

  /** Distinct Validations give distinct Eithers: `toEither` loses nothing. */
  lemma ToEitherInjective<E, T>(a: Validation<E, T>, b: Validation<E, T>)
    requires ToEither(a) == ToEither(b)
    ensures a == b
  {
  }

  /**
   * The Validation helpers commute with the Either ones through `toEither`, and
   * `toMaybe` is Either's `toMaybe` after `toEither`.
   */
  lemma ToEitherCommutes<E, T, A, B>(f: E -> A, g: T -> B, fn: T -> Validation<E, B>, validation: Validation<E, T>)
    ensures ToEither(Map(g, validation)) == Eithers.Map(g, ToEither(validation))
    ensures ToEither(FailMap(f, validation)) == Eithers.LeftMap(f, ToEither(validation))
    ensures ToEither(Bimap(f, g, validation)) == Eithers.Bimap(f, g, ToEither(validation))
    ensures ToEither(FlatMap(fn, validation)) == Eithers.FlatMap(x => ToEither(fn(x)), ToEither(validation))
    ensures ToMaybe(validation) == Eithers.ToMaybe(ToEither(validation))
  {
  }

  /**
   * `bimap` is `failMap` then `map`; `cata` with the constructors rebuilds its input,
   * and with the mapped constructors it is `bimap`.
   */
  lemma BimapAndCata<E, T, A, B>(f: E -> A, g: T -> B, validation: Validation<E, T>)
    ensures Bimap(f, g, validation) == Map(g, FailMap(f, validation))
    ensures Cata(e => Fail(e), v => Success(v), validation) == validation
    ensures Cata(e => Fail(f(e)), v => Success(g(v)), validation) == Bimap(f, g, validation)
  {
  }
}
