/**
 * Curried helpers over `Maybe` (src/Maybes.ts). Each source helper returns a stage
 * `(maybe) => ...`; here the stage's argument is the last parameter.
 */
module Maybes {
  import opened JsValues
  import opened Containers
  import Pipeline

  /** `Maybe.fromNull`: a Some of any value other than null and undefined. */
  function FromNull<T>(value: Nullish<T>): (r: Maybe<T>)
    ensures r.None? <==> value.IsNullish()
    ensures r.Some? ==> value == Defined(r.value)
  {
    match value
    case Defined(v) => Some(v)
    case _ => None
  }

  /** `orNull`: the value of a Some, otherwise null. */
  function OrNull<T>(maybe: Maybe<T>): (r: Nullish<T>)
    ensures !r.Undefined?
    ensures r.Null? <==> maybe.None?
    ensures maybe.Some? ==> r == Defined(maybe.value)
  {
    match maybe
    case Some(v) => Defined(v)
    case None => Null
  }

  /** Turning a Maybe into a nullable value and back loses nothing. */
  lemma FromNullOrNull<T>(maybe: Maybe<T>)
    ensures FromNull(OrNull(maybe)) == maybe
  {
  }

  /**
   * `combine(...maybes)`: Some of every value, in input order, when every input is a
   * Some; None as soon as one is a None.
   */
  method Combine<T>(maybes: seq<Maybe<T>>) returns (r: Maybe<seq<T>>)
    ensures r.Some? <==> forall i :: 0 <= i < |maybes| ==> maybes[i].Some?
    ensures r.Some? ==> |r.value| == |maybes|
    ensures r.Some? ==> forall i :: 0 <= i < |maybes| ==> Some(r.value[i]) == maybes[i]
  {
    var result: seq<T> := [];
    for i := 0 to |maybes|
      invariant |result| == i
      invariant forall j :: 0 <= j < i ==> Some(result[j]) == maybes[j]
    {
      if maybes[i].None? {
        return None;
      }
      result := result + [maybes[i].value];
    }
    return Some(result);
  }

  /** `combineFrom(...values)`: None exactly when some argument is null or undefined. */
  method CombineFrom<T>(values: seq<Nullish<T>>) returns (r: Maybe<seq<T>>)
    ensures r.None? <==> exists i :: 0 <= i < |values| && values[i].IsNullish()
    ensures r.Some? ==> |r.value| == |values|
    ensures r.Some? ==> forall i :: 0 <= i < |values| ==> Defined(r.value[i]) == values[i]
  {
    var maybes := seq(|values|, i requires 0 <= i < |values| => FromNull(values[i]));
    r := Combine(maybes);
    if r.None? {
      var i :| 0 <= i < |maybes| && maybes[i].None?;
      assert values[i].IsNullish();
    } else {
      forall i | 0 <= i < |values|
        ensures Defined(r.value[i]) == values[i]
      {
        assert Some(r.value[i]) == maybes[i];
      }
    }
  }

  /** `Maybe.filter`: keeps a Some whose value passes the predicate. */
  function Filter<T>(test: T -> bool, maybe: Maybe<T>): (r: Maybe<T>)
    ensures r.Some? <==> maybe.Some? && test(maybe.value)
    ensures r.Some? ==> r == maybe
  {
    if maybe.Some? && test(maybe.value) then maybe else None
  }

  /** `unless(predicate)`: filters with the negated predicate. */
  function Unless<T>(test: T -> bool, maybe: Maybe<T>): (r: Maybe<T>)
    ensures r.Some? <==> maybe.Some? && !test(maybe.value)
    ensures r.Some? ==> r == maybe
  {
    Filter(v => !test(v), maybe)
  }

  /** On a Some, exactly one of `filter(p)` and `unless(p)` keeps it. */
  lemma FilterUnlessPartition<T>(test: T -> bool, maybe: Maybe<T>)
    requires maybe.Some?
    ensures Filter(test, maybe).Some? != Unless(test, maybe).Some?
    ensures Filter(test, maybe) == maybe || Unless(test, maybe) == maybe
  {
  }

  /** `Maybe.flatMap`: the mapper's Maybe for a Some, None for a None. */
  function FlatMap<A, B>(mapper: A -> Maybe<B>, maybe: Maybe<A>): (r: Maybe<B>)
    ensures maybe.None? ==> r.None?
    ensures maybe.Some? ==> r == mapper(maybe.value)
  {
    match maybe
    case Some(v) => mapper(v)
    case None => None
  }

  /** `flatMap` with Some is the identity, and nested flatMaps can be regrouped. */
  lemma FlatMapLaws<A, B, C>(f: A -> Maybe<B>, g: B -> Maybe<C>, maybe: Maybe<A>)
    ensures FlatMap(x => Some(x), maybe) == maybe
    ensures FlatMap(g, FlatMap(f, maybe)) == FlatMap(x => FlatMap(g, f(x)), maybe)
  {
  }

  /**
   * `map(mapper)` is `flatMap(v => fromNull(mapper(v)))`: Some of the mapped value
   * when the input is a Some and the mapper's result is neither null nor undefined.
   */
  function Map<T, U>(mapper: T -> Nullish<U>, maybe: Maybe<T>): (r: Maybe<U>)
    ensures r.Some? <==> maybe.Some? && !mapper(maybe.value).IsNullish()
    ensures r.Some? ==> Defined(r.value) == mapper(maybe.value)
  {
    FlatMap(v => FromNull(mapper(v)), maybe)
  }

  /** `map` with a never-null mapper is the identity when the mapper is. */
  lemma MapIdentity<T>(maybe: Maybe<T>)
    ensures Map(v => Defined(v), maybe) == maybe
  {
  }

  /**
   * `tap(fn)`: returns its input unchanged; `fn` returns nothing, so what it does is
   * seen only through the calls it receives: one call with the value, on a Some only.
   */
  function Tap<T>(maybe: Maybe<T>): (r: Traced<Maybe<T>, T>)
    ensures r.result == maybe
    ensures |r.calls| <= 1
    ensures r.calls != [] <==> maybe.Some?
    ensures forall v :: v in r.calls ==> maybe == Some(v)
  {
    Traced(maybe, if maybe.Some? then [maybe.value] else [])
  }

  /** The result of `tap` as a pipeline stage. */
  function TapStage<T>(): Maybe<T> -> Maybe<T> {
    maybe => Tap(maybe).result
  }

  /** Inserting a `tap` anywhere in a pipeline of Maybes leaves its result unchanged. */
  lemma {:induction false} TapIsTransparent<T>(value: Maybe<T>, before: seq<Maybe<T> -> Maybe<T>>, after: seq<Maybe<T> -> Maybe<T>>)
    ensures Pipeline.Fold(value, before + [TapStage()] + after) == Pipeline.Fold(value, before + after)
  {
    var mid := Pipeline.Fold(value, before);
    Pipeline.FoldConcat(value, before + [TapStage()], after);
    Pipeline.FoldConcat(value, before, [TapStage()]);
    Pipeline.FoldIdentityAndSingle(mid, TapStage());
    Pipeline.FoldConcat(value, before, after);
  }

  /** `orThrow(error)`: the value of a Some; on a None, throws the error (forcing a thunk). */
  function OrThrow<T, E>(error: Lazy<E>, maybe: Maybe<T>): (r: Outcome<T, E>)
    ensures r.Ok? <==> maybe.Some?
    ensures r.Ok? ==> r.value == maybe.value
    ensures r.Thrown? ==> r.error == error.Force()
  {
    if maybe.None? then Thrown(error.Force()) else Ok(maybe.value)
  }

  /**
   * `toBoolean(fn?)`: true exactly for a Some whose value passes the optional
   * predicate; `fn` absent means any Some.
   */
  function ToBoolean<T>(fn: Maybe<T -> bool>, maybe: Maybe<T>): (r: bool)
    ensures r <==> maybe.Some? && (fn.None? || fn.value(maybe.value))
  {
    if fn.Some? then Filter(fn.value, maybe).Some? else maybe.Some?
  }

  /** `Maybe.orSome(val)`: the value of a Some, otherwise the default. */
  function OrSome<T>(default: T, maybe: Maybe<T>): (r: T)
    ensures maybe.Some? ==> r == maybe.value
    ensures maybe.None? ==> r == default
  {
    match maybe
    case Some(v) => v
    case None => default
  }

  /** `orSomeWith(elseFn)`: the value of a Some, otherwise what `elseFn` returns. */
  function OrSomeWith<T>(elseFn: () -> T, maybe: Maybe<T>): (r: T)
    ensures maybe.Some? ==> r == maybe.value
    ensures maybe.None? ==> r == elseFn()
  {
    if maybe.None? then elseFn() else maybe.value
  }

  /** `Maybe.orElse(val)`: the input if it is a Some, otherwise the default Maybe. */
  function OrElse<T>(default: Maybe<T>, maybe: Maybe<T>): (r: Maybe<T>)
    ensures maybe.Some? ==> r == maybe
    ensures maybe.None? ==> r == default
  {
    if maybe.Some? then maybe else default
  }

  /** `orElseWith(elseFn)`: the input if it is a Some, otherwise the Maybe `elseFn` returns. */
  function OrElseWith<T>(elseFn: () -> Maybe<T>, maybe: Maybe<T>): (r: Maybe<T>)
    ensures maybe.Some? ==> r == maybe
    ensures maybe.None? ==> r == elseFn()
  {
    if maybe.None? then elseFn() else maybe
  }

  /**
   * `orElseFrom(elseFn)`: the input if it is a Some, otherwise `fromNull(elseFn())`,
   * which is None when `elseFn` returns null or undefined.
   */
  function OrElseFrom<T>(elseFn: () -> Nullish<T>, maybe: Maybe<T>): (r: Maybe<T>)
    ensures maybe.Some? ==> r == maybe
    ensures maybe.None? ==> (r.None? <==> elseFn().IsNullish())
    ensures maybe.None? && r.Some? ==> Defined(r.value) == elseFn()
  {
    OrElseWith(() => FromNull(elseFn()), maybe)
  }

  /**
   * The defaulting helpers agree: a constant thunk behaves as the plain default, and
   * taking the value after `orElseWith(() => Some(d))` is `orSomeWith(() => d)`.
   */
  lemma DefaultsAgree<T>(d: T, maybe: Maybe<T>)
    ensures OrSomeWith(() => d, maybe) == OrSome(d, maybe)
    ensures OrElseWith(() => Some(d), maybe) == OrElse(Some(d), maybe)
    ensures OrElseWith(() => Some(d), maybe) == Some(OrSome(d, maybe))
  {
  }

  /** `orElse` is associative with None as its identity on both sides. */
  lemma OrElseMonoid<T>(a: Maybe<T>, b: Maybe<T>, c: Maybe<T>)
    ensures OrElse(None, a) == a && OrElse(a, None) == a
    ensures OrElse(OrElse(c, b), a) == OrElse(c, OrElse(b, a))
  {
  }

  /** `Maybe.toEither(leftVal)`: Right of a Some value, Left of the given value on a None. */
  function ToEither<L, T>(leftVal: L, maybe: Maybe<T>): (r: Either<L, T>)
    ensures r.Right? <==> maybe.Some?
    ensures r.Right? ==> r.right == maybe.value
    ensures r.Left? ==> r.left == leftVal
  {
    match maybe
    case Some(v) => Right(v)
    case None => Left(leftVal)
  }

  /**
   * `isEqualWith(comparer, a, b)`: true for two Nones, false for exactly one None, and
   * the comparer's verdict for two Somes; the comparer is called only in that last case.
   */
  function IsEqualWith<T>(comparer: (T, T) -> bool, a: Maybe<T>, b: Maybe<T>): (r: Traced<bool, (T, T)>)
    ensures a.None? && b.None? ==> r.result
    ensures a.None? != b.None? ==> !r.result
    ensures a.Some? && b.Some? ==> r.result == comparer(a.value, b.value)
    ensures r.calls != [] ==> a.Some? && b.Some? && r.calls == [(a.value, b.value)]
    ensures a.Some? && b.Some? ==> r.calls != []
  {
    if a.None? && b.None? then Traced(true, [])
    else if a.Some? && b.Some? then Traced(comparer(a.value, b.value), [(a.value, b.value)])
    else Traced(false, [])
  }

  /** An equivalence on values makes `isEqualWith` an equivalence on Maybes. */
  lemma IsEqualWithEquivalence<T>(comparer: (T, T) -> bool, a: Maybe<T>, b: Maybe<T>, c: Maybe<T>)
    requires forall x :: comparer(x, x)
    requires forall x, y :: comparer(x, y) ==> comparer(y, x)
    requires forall x, y, z :: comparer(x, y) && comparer(y, z) ==> comparer(x, z)
    ensures IsEqualWith(comparer, a, a).result
    ensures IsEqualWith(comparer, a, b).result ==> IsEqualWith(comparer, b, a).result
    ensures IsEqualWith(comparer, a, b).result && IsEqualWith(comparer, b, c).result ==> IsEqualWith(comparer, a, c).result
  {
  }

  /**
   * `fromPredicate(test, value)`: Some when the predicate holds of the value and
   * the value is neither null nor undefined; the predicate is asked even of null.
   */
  function FromPredicate<T>(test: Nullish<T> -> bool, value: Nullish<T>): (r: Maybe<T>)
    ensures r.Some? <==> test(value) && !value.IsNullish()
    ensures r.Some? ==> value == Defined(r.value)
  {
    if test(value) then FromNull(value) else None
  }
}
