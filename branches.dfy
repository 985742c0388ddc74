/**
 * Branching stages (src/ifElse.ts): `ifElse`, `ifThen` and the first-match `switchCase`.
 * A condition is either a constant boolean or a predicate on the value.
 */
module Branches {
  import opened Containers
  import Pipeline

  /** `((value: V) => boolean) | boolean`. */
  datatype Condition<!V> = Const(b: bool) | Pred(f: V -> bool)

  /** Whether the condition holds for `value`: a constant ignores the value. */
  predicate Holds<V>(condition: Condition<V>, value: V) {
    match condition
    case Const(b) => b
    case Pred(f) => f(value)
  }

  /**
   * `ifElse(condition, pass, fail)(value)`: a constant condition is first turned into a
   * function ignoring its argument, then `pass` or `fail` is applied to the value.
   */
  function IfElse<V, R>(condition: Condition<V>, pass: V -> R, fail: V -> R, value: V): (r: R)
    ensures Holds(condition, value) ==> r == pass(value)
    ensures !Holds(condition, value) ==> r == fail(value)
  {
    var cond: V -> bool := match condition
      case Pred(f) => f
      case Const(b) => _ => b;
    if cond(value) then pass(value) else fail(value)
  }

  /** A constant condition acts as the predicate that always gives that constant. */
  lemma ConstantCondition<V, R>(b: bool, pass: V -> R, fail: V -> R, value: V)
    ensures IfElse(Const(b), pass, fail, value) == IfElse(Pred(_ => b), pass, fail, value)
    ensures IfElse(Const(true), pass, fail, value) == pass(value)
    ensures IfElse(Const(false), pass, fail, value) == fail(value)
  {
  }

  /** Swapping the branches is the same as negating the condition. */
  lemma IfElseNegation<V, R>(condition: Condition<V>, pass: V -> R, fail: V -> R, value: V)
    ensures IfElse(Pred(x => !Holds(condition, x)), fail, pass, value) == IfElse(condition, pass, fail, value)
  {
  }

  /** `ifThen(condition, pass)(value)`: `ifElse` whose fail branch is the identity. */
  function IfThen<V>(condition: Condition<V>, pass: V -> V, value: V): (r: V)
    ensures Holds(condition, value) ==> r == pass(value)
    ensures !Holds(condition, value) ==> r == value
  {
    IfElse(condition, pass, x => x, value)
  }

  /** An `ifThen` stage as a function, ready to be piped. */
  function IfThenStage<V>(condition: Condition<V>, pass: V -> V): V -> V {
    x => IfThen(condition, pass, x)
  }

  /**
   * An `ifThen` stage whose condition is false on every value reaches it leaves the pipe
   * as if the stage were not there; one whose condition is true acts as `pass`.
   */
  lemma {:induction false} IfThenInPipe<V>(value: V, before: seq<V -> V>, pass: V -> V, after: seq<V -> V>)
    ensures Pipeline.Fold(value, before + [IfThenStage(Const(false), pass)] + after)
            == Pipeline.Fold(value, before + after)
    ensures Pipeline.Fold(value, before + [IfThenStage(Const(true), pass)] + after)
            == Pipeline.Fold(value, before + [pass] + after)
  {
    var mid := Pipeline.Fold(value, before);
    Pipeline.FoldConcat(value, before + [IfThenStage(Const(false), pass)], after);
    Pipeline.FoldConcat(value, before, [IfThenStage(Const(false), pass)]);
    Pipeline.FoldIdentityAndSingle(mid, IfThenStage(Const(false), pass));
    Pipeline.FoldConcat(value, before, after);
    Pipeline.FoldConcat(value, before + [IfThenStage(Const(true), pass)], after);
    Pipeline.FoldConcat(value, before, [IfThenStage(Const(true), pass)]);
    Pipeline.FoldIdentityAndSingle(mid, IfThenStage(Const(true), pass));
    Pipeline.FoldConcat(value, before + [pass], after);
    Pipeline.FoldConcat(value, before, [pass]);
    Pipeline.FoldIdentityAndSingle(mid, pass);
  }

  /** One entry of `switchCase`: a condition (constant or thunk) and the action to run. */
  datatype Case<R> = Case(condition: Condition<()>, action: () -> R)

  /** The position of the first case whose condition holds, or the number of cases. */
  function FirstHolding<R>(cases: seq<Case<R>>): (k: nat)
    ensures k <= |cases|
    ensures k < |cases| ==> Holds(cases[k].condition, ())
    ensures forall j :: 0 <= j < k ==> !Holds(cases[j].condition, ())
  {
    if cases == [] then 0
    else if Holds(cases[0].condition, ()) then 0
    else 1 + FirstHolding(cases[1..])
  }

  /**
   * `switchCase(conditions)`: evaluates the conditions in order and runs the action of the
   * first that holds; undefined (None) when none holds. The ghost `examined` counts the
   * conditions evaluated, so no condition after the first true one is looked at.
   */
  method SwitchCase<R>(cases: seq<Case<R>>) returns (r: Maybe<R>, ghost examined: nat)
    ensures examined == FirstHolding(cases) + (if r.Some? then 1 else 0)
    ensures r.None? <==> forall j :: 0 <= j < |cases| ==> !Holds(cases[j].condition, ())
    ensures r.None? ==> examined == |cases|
    ensures r.Some? ==> 0 < examined <= |cases| && Holds(cases[examined - 1].condition, ())
    ensures r.Some? ==> r.value == cases[examined - 1].action()
    ensures r.Some? ==> forall j :: 0 <= j < examined - 1 ==> !Holds(cases[j].condition, ())
  {
    examined := 0;
    for i := 0 to |cases|
      invariant examined == i
      invariant forall j :: 0 <= j < i ==> !Holds(cases[j].condition, ())
      invariant FirstHolding(cases) >= i
    {
      var c := cases[i].condition;
      examined := examined + 1;
      if Holds(c, ()) {
        FirstHoldingAt(cases, i);
        return Some(cases[i].action()), examined;
      }
    }
    FirstHoldingAt(cases, |cases|);
    return None, examined;
  }

  /** A position before which no condition holds, and where one holds or the cases end, is the first holding one. */
  lemma {:induction false} FirstHoldingAt<R>(cases: seq<Case<R>>, i: nat)
    requires i <= |cases|
    requires forall j :: 0 <= j < i ==> !Holds(cases[j].condition, ())
    requires i < |cases| ==> Holds(cases[i].condition, ())
    ensures FirstHolding(cases) == i
  {
  }
}
