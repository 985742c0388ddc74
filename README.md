# halfpipe, modelled in Dafny

halfpipe is a small TypeScript library for writing programs as pipelines of unary
functions. `pipe(value, f1, ..., fn)` threads a seed value through the stages, and the
library supplies curried stage builders over monet's `Maybe`, `Either` and `Validation`
containers, over arrays, and for branching (`ifElse`, `ifThen`, `switchCase`).

This project models that core and proves its laws:

- `Pipeline` (`pipe.dfy`): `pipe` as a left fold over a
  sequence of stages; the hand-unrolled fast path for up to ten stages and the general
  loop are both proved equal to the fold.
- `Maybes`, `Eithers`, `Validations`: the combinators as functions on the datatypes of
  `containers.dfy`. A stage `(x) => ...` takes its argument as the last parameter.
- `Arrays`: index lookup with negative indices, `getFirst`, `getLast`, `size`, `find`,
  `reverse` and `sort` (copy, then mutate only the copy: methods on arrays), depth-1
  `flat`, `reduce` and `reduceRight`.
- `Branches`: `ifElse`, `ifThen` and the first-match loop of `switchCase`.

JavaScript notions the combinators observe are made explicit in module `JsValues`: a
value that may be null or undefined is a `Nullish<T>`; a thrown exception is the
`Thrown` case of an `Outcome`; an argument that is a value or a thunk is a `Lazy`; a
callback whose only effect is being called (`tap`'s `fn`, `isEqualWith`'s comparer) is
observed through the record of its calls (`Traced`). The TypeScript overloads of `pipe`
let each stage change the type; the model restricts every stage of a pipe to map one
type `T` to itself.

Where the documentation and the code disagree, the model follows the code: `get`'s
documentation says negative indices count from the end, but the code translates only a
number argument (see Findings).

## Model

| member | source | states |
|---|---|---|
| Pipeline.Fold | src/pipe.ts:232-238 | the loop's meaning: each stage, in index order, applied to the previous result (its laws are the lemmas below) |
| Pipeline.Unrolled | src/pipe.ts:208-230 | the switch cases for 0 to 10 stages, written as explicit nested calls |
| Pipeline.FoldIdentityAndSingle | src/pipe.ts:209-212 | `pipe(x)` is `x` and `pipe(x, f)` is `f(x)` |
| Pipeline.FoldConcat | src/pipe.ts:232-238 | piping through `fs + gs` pipes the result of `fs` through `gs` |
| Pipeline.FoldFirst | src/pipe.ts:232-238 | the first stage runs on the seed and the rest on its result |
| Pipeline.UnrolledLast | src/pipe.ts:211-230 | each unrolled case is the last stage applied to the case one shorter |
| Pipeline.UnrolledIsFold | src/pipe.ts:208-239 | every hand-unrolled case (0 to 10 stages) equals the loop's left fold |
| Pipeline.Pipe | src/pipe.ts:195-241 | the result of the switch-or-loop is the left fold of the stages over the seed |
| Pipeline.PipeFifteenStages | src/pipe.ts:231-239 | fifteen one-character appending stages on "a" give "abcdefghijklmnop" |
| Pipeline.FoldAppends | src/pipe.ts:232-238 | stages each appending one character append the whole string, in order |
| Pipeline.FoldThrowing | src/pipe.ts:232-238 | the loop when a stage may throw: nothing is caught, so the first exception is the outcome |
| Pipeline.FoldThrowingBlame | src/pipe.ts:232-238 | a thrown outcome is what some stage threw on the result of the stages before it, which all returned |
| Pipeline.FoldThrowingConcat | src/pipe.ts:232-238 | once a stage throws, no later stage influences the result |
| Pipeline.FoldThrowingWithoutThrow | src/pipe.ts:232-238 | when no stage throws, the outcome is the plain fold |
| Maybes.FromNull | src/Maybes.ts:493 | None exactly for null and undefined, otherwise Some of the value |
| Maybes.OrNull | src/Maybes.ts:362-364 | null exactly for None, never undefined; a Some gives its value |
| Maybes.FromNullOrNull | src/Maybes.ts:362-364 | `fromNull(orNull(m))` gives back `m` |
| Maybes.Combine | src/Maybes.ts:70-82 | Some iff every input is Some; then the values in input order, one per input |
| Maybes.CombineFrom | src/Maybes.ts:107-109 | None iff some argument is null or undefined; otherwise the values in order |
| Maybes.Filter | src/Maybes.ts:307-309 | Some iff the input is a Some whose value passes; then the input itself |
| Maybes.Unless | src/Maybes.ts:327-329 | Some iff the input is a Some whose value fails the predicate |
| Maybes.FilterUnlessPartition | src/Maybes.ts:327-329 | on a Some exactly one of `filter(p)` and `unless(p)` keeps it |
| Maybes.FlatMap | src/Maybes.ts:342-344 | None stays None; a Some gives the mapper's Maybe |
| Maybes.FlatMapLaws | src/Maybes.ts:342-344 | right identity with Some, and associativity |
| Maybes.Map | src/Maybes.ts:264-266 | Some iff input Some and mapper result non-null; then that result |
| Maybes.MapIdentity | src/Maybes.ts:264-266 | mapping with a never-null identity leaves the Maybe unchanged |
| Maybes.Tap | src/Maybes.ts:123-131 | returns its input; `fn` is called once, with the value, exactly on a Some |
| Maybes.TapIsTransparent | src/Maybes.ts:123-131 | inserting `tap` anywhere in a pipe of Maybes leaves the result unchanged |
| Maybes.OrThrow | src/Maybes.ts:149-159 | the value of a Some; on None throws the error, calling it first when it is a function |
| Maybes.ToBoolean | src/Maybes.ts:182-184 | true iff Some and (no predicate or the value passes it) |
| Maybes.OrSome | src/Maybes.ts:422-424 | a Some's value, otherwise the default |
| Maybes.OrSomeWith | src/Maybes.ts:203-205 | a Some's value, otherwise `elseFn()` |
| Maybes.OrElse | src/Maybes.ts:442-444 | a Some unchanged, otherwise the default Maybe |
| Maybes.OrElseWith | src/Maybes.ts:223-225 | a Some unchanged, otherwise `elseFn()` |
| Maybes.OrElseFrom | src/Maybes.ts:248-250 | a Some unchanged; on None, None iff `elseFn()` is null or undefined, else Some of it |
| Maybes.DefaultsAgree | src/Maybes.ts:203-250 | constant thunks behave as plain defaults; `orElseWith(Some d)` is Some of `orSome(d)` |
| Maybes.OrElseMonoid | src/Maybes.ts:442-444 | `orElse` is associative with None as two-sided identity |
| Maybes.ToEither | src/Maybes.ts:401-403 | Right of a Some's value, Left of the given value on None |
| Maybes.IsEqualWith | src/Maybes.ts:568-570 | two Nones equal, one None unequal, two Somes per the comparer, which is called only then |
| Maybes.IsEqualWithEquivalence | src/Maybes.ts:568-570 | an equivalence comparer makes `isEqualWith` reflexive, symmetric and transitive |
| Maybes.FromPredicate | src/Maybes.ts:597-599 | Some iff the predicate holds and the value is not null or undefined |
| Eithers.Attempt | src/Eithers.ts:20-26 | Right of the returned value, Left of the thrown one |
| Eithers.FromNull | src/Eithers.ts:38-40 | Left of `err` iff the value is null or undefined, otherwise Right of it |
| Eithers.Combine | src/Eithers.ts:59-73 | Right iff all are Rights, then the right values in order; otherwise Left of the given `err` |
| Eithers.Cata | src/Eithers.ts:134-137 | applies exactly the handler of the side present |
| Eithers.CataLaws | src/Eithers.ts:134-137 | `cata` of the constructors is the identity; of mapped ones `bimap`, of crossed ones `swap`, of None/Some `toMaybe` |
| Eithers.OrThrow | src/Eithers.ts:91-98 | returns the Right value, throws the Left value |
| Eithers.AttemptOrThrow | src/Eithers.ts:20-26 | catching what `orThrow` throws gives back the Either |
| Eithers.ToValue | src/Eithers.ts:115-117 | the value of whichever side is present |
| Eithers.Map | src/Eithers.ts:151-153 | maps a Right; a Left is unchanged |
| Eithers.LeftMap | src/Eithers.ts:182-184 | maps a Left; a Right is unchanged |
| Eithers.Bimap | src/Eithers.ts:225-228 | maps whichever side is present, keeping the side |
| Eithers.FlatMap | src/Eithers.ts:167-169 | a Right gives `fn`'s Either; a Left is unchanged |
| Eithers.LeftFlatMap | src/Eithers.ts:197-199 | a Left gives `fn`'s Either; a Right is unchanged |
| Eithers.Swap | src/Eithers.ts:321-323 | exchanges the sides, keeping the value |
| Eithers.ToMaybe | src/Eithers.ts:301-303 | Some of a Right's value, None for a Left |
| Eithers.SwapInvolution | src/Eithers.ts:321-323 | swapping twice is the identity; `toValue` ignores a swap |
| Eithers.MapDuality | src/Eithers.ts:151-228 | `map` and `leftMap` mirror each other under `swap`; `bimap` is both in either order |
| Eithers.LeftFlatMapDuality | src/Eithers.ts:197-199 | `leftFlatMap` is `flatMap` seen through `swap` |
| Eithers.MapFunctor | src/Eithers.ts:151-153 | `map` preserves identity and composition |
| Eithers.AgreesWithMaybes | src/Eithers.ts:38-40 | Either's `fromNull`/`toMaybe`/`orThrow` agree with Maybe's |
| JsValues.Truthy | src/Validations.ts:20-22 | the `value ?` test: false exactly for undefined, null, false, 0 and "" |
| JsValues.Lazy.Force | src/Maybes.ts:149-159 | `isFunction(error) ? error : () => error`, then called: the value itself, or what the thunk returns |
| Validations.FromTruthy | src/Validations.ts:20-22 | Success of a truthy value, Fail of `err` for a falsy one |
| Validations.FromTruthyFalsy | src/Validations.ts:20-22 | 0, null, undefined, false and "" all give Fail |
| Validations.Map | src/Validations.ts:54 | maps a Success; a Fail is unchanged |
| Validations.FailMap | src/Validations.ts:124-126 | maps a Fail; a Success is unchanged |
| Validations.Bimap | src/Validations.ts:108-111 | maps whichever variant is present, keeping it |
| Validations.FlatMap | src/Validations.ts:38-40 | a Success gives `fn`'s Validation; a Fail is unchanged |
| Validations.Cata | src/Validations.ts:79-82 | applies exactly the handler of the variant present |
| Validations.ToEither | src/Validations.ts:194-196 | Fail to Left and Success to Right with the same payload |
| Validations.ToMaybe | src/Validations.ts:208-210 | Some of a Success's value, None for a Fail |
| Validations.ToEitherInjective | src/Validations.ts:194-196 | `toEither` loses nothing |
| Validations.ToEitherCommutes | src/Validations.ts:38-210 | map/failMap/bimap/flatMap/toMaybe commute with the Either ones through `toEither` |
| Validations.BimapAndCata | src/Validations.ts:79-127 | `bimap` is `failMap` then `map`; `cata` of the constructors rebuilds or bimaps |
| Arrays.At | src/Arrays.ts:130-132 | `array[k]`: the element at `k`, undefined outside the array |
| Arrays.Get | src/Arrays.ts:128-134 | number index: in range gives the element, negative counts from the end, else None; computed index: used untranslated |
| Arrays.GetDefined | src/Arrays.ts:128-134 | on an array without null elements every in-range index gives Some |
| Arrays.GetComputedNegativeIgnored | src/Arrays.ts:130-132 | `get(-1)` on [1,2,3] is Some(3) but `get(arr => -1)` is None |
| Arrays.GetIntended | src/Arrays.ts:112-134 | the corrected lookup agrees with `get` on every number index |
| Arrays.GetIntendedComputed | src/Arrays.ts:112-134 | with the correction a computed index reads what the same number reads |
| Arrays.GetFirst | src/Arrays.ts:146-148 | None on an empty array, else `fromNull` of the first element |
| Arrays.GetLast | src/Arrays.ts:160-162 | None on an empty array, else `fromNull` of the last element |
| Arrays.Size | src/Arrays.ts:174-176 | `array.length` |
| Arrays.FirstLastAreGet | src/Arrays.ts:128-176 | `getFirst` is `get(0)`, `getLast` is `get(-1)`, a number index finds something only within `size` |
| Arrays.FirstIndex | src/Arrays.ts:188-190 | the scan of `Array.prototype.find`: at most the length, a passing element there, none passing before it |
| Arrays.Find | src/Arrays.ts:188-190 | `fromNull` of the first element passing the test, None when none passes |
| Arrays.ReversedInvolution | src/Arrays.ts:202-204 | reversing twice gives back the array |
| Arrays.Copy | src/Arrays.ts:203 | a fresh array with the same elements |
| Arrays.ReverseInPlace | src/Arrays.ts:203 | the array afterwards is the reverse of what it was |
| Arrays.Reverse | src/Arrays.ts:202-204 | a fresh reversed array; the input is unchanged |
| Arrays.Exchange | src/Arrays.ts:218 | swaps two elements, keeping the multiset |
| Arrays.InsertingStep | src/Arrays.ts:218 | moving the out-of-order element one step left keeps the insertion state |
| Arrays.InsertingDone | src/Arrays.ts:218 | when the element stops, the prefix is sorted |
| Arrays.ConsistentBoundaries | src/Arrays.ts:217-219 | the comparator condition under which `sort` promises order holds for `x - y` and excludes a comparator whose zero is one-sided |
| Arrays.SortInPlace | src/Arrays.ts:218 | always a permutation; sorted by `cmp` when `cmp` is consistent |
| Arrays.Sort | src/Arrays.ts:217-219 | a fresh permutation, sorted for a consistent comparator; the input is unchanged |
| Arrays.Flat | src/Arrays.ts:44-46 | an element is in the result iff it is in one of the inner arrays |
| Arrays.FlatConcat | src/Arrays.ts:44-46 | flattening distributes over concatenation, in order |
| Arrays.FoldLeft | src/Arrays.ts:77 | native `reduce` from an initial value; its first step combines it with the element at index 0 |
| Arrays.FoldRight | src/Arrays.ts:109 | native `reduceRight` from an initial value; its first step combines it with the last element |
| Arrays.ReduceWith | src/Arrays.ts:76-78 | the left fold from `initialValueFactory()` |
| Arrays.Reduce | src/Arrays.ts:76-78 | throws TypeError iff the array is empty; else folds the rest from the first element |
| Arrays.ReduceRightWith | src/Arrays.ts:108-110 | the right fold from `initialValueFactory()` |
| Arrays.ReduceRight | src/Arrays.ts:108-110 | throws TypeError iff the array is empty; else folds from the last element leftwards |
| Arrays.FoldLeftConcat | src/Arrays.ts:76-78 | reducing `a + b` reduces `b` from the result of `a` |
| Arrays.FoldRightIsFoldLeftReversed | src/Arrays.ts:108-110 | `reduceRight` is `reduce` over the reversed array |
| Arrays.ReduceRightIsReduceReversed | src/Arrays.ts:76-110 | without a factory too, `reduceRight` is `reduce` of the reverse |
| Branches.Holds | src/ifElse.ts:39 | a boolean condition is its own verdict, a function is applied to the value (also the test at src/ifElse.ts:85) |
| Branches.IfElse | src/ifElse.ts:34-42 | `pass(v)` when the condition holds of `v`, `fail(v)` otherwise |
| Branches.ConstantCondition | src/ifElse.ts:39 | a boolean condition acts as the constant predicate |
| Branches.IfElseNegation | src/ifElse.ts:34-42 | swapping the branches is negating the condition |
| Branches.IfThen | src/ifElse.ts:67-69 | `pass(v)` when the condition holds, `v` unchanged otherwise |
| Branches.IfThenInPipe | src/ifElse.ts:67-69 | in a pipe, `ifThen(false, f)` is no stage and `ifThen(true, f)` is `f` |
| Branches.FirstHolding | src/ifElse.ts:84-88 | the position of the first case whose condition holds |
| Branches.FirstHoldingAt | src/ifElse.ts:84-88 | characterises that position uniquely |
| Branches.SwitchCase | src/ifElse.ts:83-91 | the action result of the first true case, undefined when none; a ghost count shows no condition after it is evaluated |

## Left out

- `createInvoker` (src/utils/createInvoker.ts): reflective `obj[key](...args)` dispatch; each operation it builds is modelled directly on the datatype.
- Promises, Rx and `isPromiseLike`: asynchronous and observable plumbing.
- Maps, Objects and Sets helpers: one-line forwards to the JavaScript runtime and lodash.
- `isTruthy`/`isFalsy`: JavaScript coercion is modelled only by `Truthy` over a small value datatype; numbers are integers, so NaN and -0 are not represented.
- `Maybes.fromNaN`: floating point.
- `matches`, `matchesWith`, `isEqualTo`, `isEqualToWith`, `isEqual`: lodash deep equality and `eq`.
- Maybes.IsEqualWith: does not model the leading `a === b` shortcut, which depends on object identity; for equal Somes with a reflexive comparer the result is the same.
- Callbacks are total: every mapper, predicate, thunk, comparator, branch and action is a Dafny function that always returns. In the source an exception thrown by any of them propagates out of the combinator that called it (`tap`, `map`, `flatMap`, `filter`, `unless`, `toBoolean`, `orSomeWith`, `orElseWith`, `orElseFrom`, `isEqualWith`, `fromPredicate`, the Either and Validation mappers and `cata`, `find`, `sort`, `reduce`, `reduceRight` and their factories, `ifElse`, `ifThen`, `switchCase`); the model does not state that. Throwing is modelled only for `pipe`'s stages (`Pipeline.FoldThrowing`), `attempt`'s function, the `orThrow` helpers, and the TypeError that `reduce` and `reduceRight` without a factory throw on an empty array (`Arrays.Reduce`, `Arrays.ReduceRight`).
- Maybes.Tap: the effect of `fn` is seen only through the calls it receives, since it returns nothing.
- Validations `acc` and `ap`: monet's accumulation semantics are not part of this model.
- `Arrays.sort()` without a comparator (string-conversion ordering) and sort stability; undefined elements, which JavaScript sorts to the end without calling the comparator.
- Arrays.Sort: the engine's sorting algorithm is not specified; the model sorts by insertion, and its promise is stated only as permutation plus order under a consistent comparator.
- `Arrays.flat` with depth above 1 and arrays mixing inner arrays with plain elements (lodash `flattenDepth`).
- `Arrays.flatMap`, `from`, `of`, `isArray`, `forEach`, `join`, `map`, `filter`, `concat`, `some`, `every` and the other invoker-built array forwards.
- The index and array arguments that `find`, `reduce` and `reduceRight` also pass to the callback; callbacks take only the element (and accumulator).
- Heterogeneous stage types in `pipe`: all stages map one type to itself.
- The TypeScript overload signatures: type-level only.
- `src/index.ts` and the license script: packaging and file I/O.
- Branches.SwitchCase: returns None for "no case", so an action that itself returns undefined is not distinguished from no match.

## Findings

| source | as written | input that shows it | evidently intended | confidence | as-written member | corrected member |
|---|---|---|---|---|---|---|
| src/Arrays.ts:132 | the test `index < 0` is made on the argument, so an index computed by a function is never translated from the end | `get(arr => -1)` on `[1, 2, 3]` gives None, while `get(-1)` gives Some(3) | test `idx < 0`, so a computed negative index counts from the end as the documentation says | medium; not executed | Arrays.GetComputedNegativeIgnored | Arrays.GetIntendedComputed |
