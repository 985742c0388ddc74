/**
 * Curried helpers over `Either` (src/Eithers.ts). A function that may throw is modelled
 * by the `Outcome` of calling it.
 */
module Eithers {
  import opened JsValues
  import opened Containers
  import Maybes

  /** `attempt(fn)`: Right of what `fn` returns, or Left of what it throws. */
  function Attempt<T, E>(fn: () -> Outcome<T, E>): (r: Either<E, T>)
    ensures r.Right? <==> fn().Ok?
    ensures r.Right? ==> r.right == fn().value
    ensures r.Left? ==> r.left == fn().error
  {
    match fn()
    case Ok(v) => Right(v)
    case Thrown(e) => Left(e)
  }

  /** `fromNull(err, value)`: Left of `err` exactly when the value is null or undefined. */
  function FromNull<E, T>(err: E, value: Nullish<T>): (r: Either<E, T>)
    ensures r.Left? <==> value.IsNullish()
    ensures r.Left? ==> r.left == err
    ensures r.Right? ==> value == Defined(r.right)
  {
    if value.IsNullish() then Left(err) else Right(value.value)
  }

  /**
   * `combine(err)`: Right of every right value, in order, when all are Rights;
   * otherwise Left of the supplied `err`, not of the first Left's value.
   */
  method Combine<E, T>(err: E, eithers: seq<Either<E, T>>) returns (r: Either<E, seq<T>>)
    ensures r.Right? <==> forall i :: 0 <= i < |eithers| ==> eithers[i].Right?
    ensures r.Left? ==> r.left == err
    ensures r.Right? ==> |r.right| == |eithers|
    ensures r.Right? ==> forall i :: 0 <= i < |eithers| ==> Right(r.right[i]) == eithers[i]
  {
    var result: seq<T> := [];
    for i := 0 to |eithers|
      invariant |result| == i
      invariant forall j :: 0 <= j < i ==> Right(result[j]) == eithers[j]
    {
      if eithers[i].Left? {
        return Left(err);
      }
      result := result + [eithers[i].right];
    }
    return Right(result);
  }

  /** `Either.cata(leftFn, rightFn)`: the handler of the side that is present. */
  function Cata<L, R, V>(leftFn: L -> V, rightFn: R -> V, either: Either<L, R>): (r: V)
    ensures either.Left? ==> r == leftFn(either.left)
    ensures either.Right? ==> r == rightFn(either.right)
  {
    match either
    case Left(l) => leftFn(l)
    case Right(v) => rightFn(v)
  }

  /** `orThrow()`: the Right value; a Left's value is thrown. */
  function OrThrow<L, T>(either: Either<L, T>): (r: Outcome<T, L>)
    ensures r.Ok? <==> either.Right?
    ensures r.Ok? ==> r.value == either.right
    ensures r.Thrown? ==> r.error == either.left
  {
    Cata(l => Thrown(l), v => Ok(v), either)
  }

  /** Catching what `orThrow` throws gives back the Either it was given. */
  lemma AttemptOrThrow<L, T>(either: Either<L, T>)
    ensures Attempt(() => OrThrow(either)) == either
  {
  }

  /**
   * `cata` with the constructors rebuilds its input; with the mapped constructors it is
   * `bimap`, with the crossed ones `swap`, and with None and Some it is `toMaybe`.
   */
  lemma CataLaws<L, R, A, B>(f: L -> A, g: R -> B, either: Either<L, R>)
    ensures Cata(l => Left(l), v => Right(v), either) == either
    ensures Cata(l => Left(f(l)), v => Right(g(v)), either) == Bimap(f, g, either)
    ensures Cata(l => Right(l), v => Left(v), either) == Swap(either)
    ensures Cata(_ => None, v => Some(v), either) == ToMaybe(either)
  {
  }

  /** `toValue()`: the value of whichever side is present. */
  function ToValue<T>(either: Either<T, T>): (r: T)
    ensures either == Left(r) || either == Right(r)
  {
    if either.Left? then either.left else either.right
  }

  /** `Either.map(fn)`: maps a Right; a Left is returned unchanged. */
  function Map<L, A, B>(fn: A -> B, either: Either<L, A>): (r: Either<L, B>)
    ensures r.Right? <==> either.Right?
    ensures either.Left? ==> r == Left(either.left)
    ensures either.Right? ==> r.right == fn(either.right)
  {
    match either
    case Left(l) => Left(l)
    case Right(v) => Right(fn(v))
  }

  /** `Either.leftMap(fn)`: maps a Left; a Right is returned unchanged. */
  function LeftMap<A, R, B>(fn: A -> B, either: Either<A, R>): (r: Either<B, R>)
    ensures r.Left? <==> either.Left?
    ensures either.Right? ==> r == Right(either.right)
    ensures either.Left? ==> r.left == fn(either.left)
  {
    match either
    case Left(l) => Left(fn(l))
    case Right(v) => Right(v)
  }

  /** `Either.bimap(leftFn, rightFn)`: maps whichever side is present, keeping the side. */
  function Bimap<LA, RA, LB, RB>(leftFn: LA -> LB, rightFn: RA -> RB, either: Either<LA, RA>): (r: Either<LB, RB>)
    ensures r.Left? <==> either.Left?
    ensures either.Left? ==> r.left == leftFn(either.left)
    ensures either.Right? ==> r.right == rightFn(either.right)
  {
    match either
    case Left(l) => Left(leftFn(l))
    case Right(v) => Right(rightFn(v))
  }

  /** `Either.flatMap(fn)`: the Either `fn` gives for a Right; a Left is returned unchanged. */
  function FlatMap<L, A, B>(fn: A -> Either<L, B>, either: Either<L, A>): (r: Either<L, B>)
    ensures either.Left? ==> r == Left(either.left)
    ensures either.Right? ==> r == fn(either.right)
  {
    match either
    case Left(l) => Left(l)
    case Right(v) => fn(v)
  }

  /** `leftFlatMap(fn)`: the Either `fn` gives for a Left; a Right is returned unchanged. */
  function LeftFlatMap<A, R, B>(fn: A -> Either<B, R>, either: Either<A, R>): (r: Either<B, R>)
    ensures either.Right? ==> r == Right(either.right)
    ensures either.Left? ==> r == fn(either.left)
  {
    if either.Left? then fn(either.left) else Right(either.right)
  }

  /** `Either.swap()`: a Left becomes a Right and a Right a Left, with the same value. */
  function Swap<L, R>(either: Either<L, R>): (r: Either<R, L>)
    ensures r.Left? <==> either.Right?
    ensures r.Left? ==> r.left == either.right
    ensures r.Right? ==> r.right == either.left
  {
    match either
    case Left(l) => Right(l)
    case Right(v) => Left(v)
  }

  /** `Either.toMaybe()`: Some of a Right value, None for a Left. */
  function ToMaybe<L, R>(either: Either<L, R>): (r: Maybe<R>)
    ensures r.Some? <==> either.Right?
    ensures r.Some? ==> r.value == either.right
  {
    match either
    case Left(_) => None
    case Right(v) => Some(v)
  }

  /** Swapping twice is the identity, and `toValue` does not care which side holds the value. */
  lemma SwapInvolution<T>(either: Either<T, T>)
    ensures Swap(Swap(either)) == either
    ensures ToValue(Swap(either)) == ToValue(either)
  {
  }

  /** `map` and `leftMap` are mirror images under `swap`, and `bimap` is one after the other. */
  lemma MapDuality<LA, RA, LB, RB>(f: LA -> LB, g: RA -> RB, either: Either<LA, RA>)
    ensures Swap(Map(g, either)) == LeftMap(g, Swap(either))
    ensures Bimap(f, g, either) == Map(g, LeftMap(f, either))
    ensures Bimap(f, g, either) == LeftMap(f, Map(g, either))
  {
  }

  /** `leftFlatMap` is `flatMap` seen through `swap`. */
  lemma LeftFlatMapDuality<A, R, B>(fn: A -> Either<B, R>, either: Either<A, R>)
    ensures LeftFlatMap(fn, either) == Swap(FlatMap(x => Swap(fn(x)), Swap(either)))
  {
  }

  /** `map` preserves identity and composition. */
  lemma MapFunctor<L, A, B, C>(f: A -> B, g: B -> C, either: Either<L, A>)
    ensures Map(x => x, either) == either
    ensures Map(g, Map(f, either)) == Map(x => g(f(x)), either)
  {
  }

  /**
   * The Either helpers agree with the Maybe ones: dropping the Left side of `fromNull`
   * is Maybe's `fromNull`, and `toMaybe` undoes Maybe's `toEither`.
   */
  lemma AgreesWithMaybes<E, T>(err: E, value: Nullish<T>, maybe: Maybe<T>)
    ensures ToMaybe(FromNull(err, value)) == Maybes.FromNull(value)
    ensures ToMaybe(Maybes.ToEither(err, maybe)) == maybe
    ensures Maybes.OrThrow(Eager(err), maybe) == OrThrow(Maybes.ToEither(err, maybe))
  {
  }
}
