/**
 * `pipe`: a seed value threaded left to right through unary stages. The source
 * dispatches on the number of stages: up to ten it applies them by hand-unrolled
 * nested calls, beyond that it runs a loop. The TypeScript overloads let each stage
 * change the type; this model restricts every stage to map one type `T` to itself.
 */
module Pipeline {
  import opened JsValues

  /** The largest number of stages the unrolled fast path handles (`arguments.length` up to 11). */
  const FastPathArity := 10

  /** fn_n(...fn_2(fn_1(value))...): what piping `value` through `fns` means. */
  function Fold<T>(value: T, fns: seq<T -> T>): T
  {
    if fns == [] then value else fns[|fns| - 1](Fold(value, fns[..|fns| - 1]))
  }

  /** The zero- and one-stage cases: `pipe(x)` is `x`, `pipe(x, f)` is `f(x)`. */
  lemma FoldIdentityAndSingle<T>(value: T, f: T -> T)
    ensures Fold(value, []) == value
    ensures Fold(value, [f]) == f(value)
  {
    assert [f][..0] == [];
  }

  /** Piping through `fs + gs` pipes the result of `fs` through `gs`. */
  lemma {:induction false} FoldConcat<T>(value: T, fs: seq<T -> T>, gs: seq<T -> T>)
    ensures Fold(value, fs + gs) == Fold(Fold(value, fs), gs)
    decreases |gs|
  {
    if gs == [] {
      assert fs + gs == fs;
    } else {
      var n := |gs|;
      assert (fs + gs)[..|fs + gs| - 1] == fs + gs[..n - 1];
      FoldConcat(value, fs, gs[..n - 1]);
    }
  }

  /** The first stage is applied to the seed, and the rest run on its result. */
  lemma {:induction false} FoldFirst<T>(value: T, fns: seq<T -> T>)
    requires fns != []
    ensures Fold(value, fns) == Fold(fns[0](value), fns[1..])
  {
    assert fns == [fns[0]] + fns[1..];
    FoldConcat(value, [fns[0]], fns[1..]);
    FoldIdentityAndSingle(value, fns[0]);
  }

  /** The `switch (arguments.length)` cases 1 to 11: the stages applied by explicit nesting. */
  function Unrolled<T>(value: T, fns: seq<T -> T>): T
    requires |fns| <= FastPathArity
  {
    match |fns|
    case 0 => value
    case 1 => fns[0](value)
    case 2 => fns[1](fns[0](value))
    case 3 => fns[2](fns[1](fns[0](value)))
    case 4 => fns[3](fns[2](fns[1](fns[0](value))))
    case 5 => fns[4](fns[3](fns[2](fns[1](fns[0](value)))))
    case 6 => fns[5](fns[4](fns[3](fns[2](fns[1](fns[0](value))))))
    case 7 => fns[6](fns[5](fns[4](fns[3](fns[2](fns[1](fns[0](value)))))))
    case 8 => fns[7](fns[6](fns[5](fns[4](fns[3](fns[2](fns[1](fns[0](value))))))))
    case 9 => fns[8](fns[7](fns[6](fns[5](fns[4](fns[3](fns[2](fns[1](fns[0](value)))))))))
    case 10 => fns[9](fns[8](fns[7](fns[6](fns[5](fns[4](fns[3](fns[2](fns[1](fns[0](value))))))))))
    case _ => assert false; value
  }

  /** Each unrolled case is its last stage applied to the case one shorter. */
  lemma UnrolledLast<T>(value: T, fns: seq<T -> T>)
    requires 1 <= |fns| <= FastPathArity
    ensures Unrolled(value, fns) == fns[|fns| - 1](Unrolled(value, fns[..|fns| - 1]))
  {
  }

  /** Every hand-unrolled case computes the same value as the general fold. */
  lemma {:induction false} UnrolledIsFold<T>(value: T, fns: seq<T -> T>)
    requires |fns| <= FastPathArity
    ensures Unrolled(value, fns) == Fold(value, fns)
    decreases |fns|
  {
    if fns != [] {
      UnrolledLast(value, fns);
      UnrolledIsFold(value, fns[..|fns| - 1]);
    }
  }

  /**
   * `pipe(value, ...fns)`: the unrolled fast path for up to ten stages, otherwise the
   * loop that applies each stage, in index order, to the previous result.
   */
  method Pipe<T>(value: T, fns: seq<T -> T>) returns (result: T)
    ensures result == Fold(value, fns)
  {
    if |fns| <= FastPathArity {
      UnrolledIsFold(value, fns);
      return Unrolled(value, fns);
    }
    result := value;
    for i := 0 to |fns|
      invariant result == Fold(value, fns[..i])
    {
      assert fns[..i + 1][..i] == fns[..i];
      result := fns[i](result);
    }
    assert fns[..|fns|] == fns;
  }

  /** The stage `s => s + c`. */
  function Append(c: char): string -> string {
    s => s + [c]
  }

  /** The fifteen-stage scenario: past the fast path, the loop gives the same string. */
  method PipeFifteenStages() returns (r: string)
    ensures r == "abcdefghijklmnop"
  {
    var stages := [Append('b'), Append('c'), Append('d'), Append('e'), Append('f'),
                   Append('g'), Append('h'), Append('i'), Append('j'), Append('k'),
                   Append('l'), Append('m'), Append('n'), Append('o'), Append('p')];
    r := Pipe("a", stages);
    FoldAppends("a", stages, "bcdefghijklmnop");
  }

  /** Stages that each append one character append the whole string, in order. */
  lemma {:induction false} FoldAppends(value: string, fns: seq<string -> string>, suffix: string)
    requires |fns| == |suffix|
    requires forall i, s :: 0 <= i < |fns| ==> fns[i](s) == s + [suffix[i]]
    ensures Fold(value, fns) == value + suffix
    decreases |fns|
  {
    if fns != [] {
      var n := |fns|;
      FoldAppends(value, fns[..n - 1], suffix[..n - 1]);
      assert suffix == suffix[..n - 1] + [suffix[n - 1]];
    }
  }

  /**
   * Piping through stages that may throw: `pipe` catches nothing, so the first
   * exception reaches the caller and no later stage runs.
   */
  function FoldThrowing<T, E>(value: T, fns: seq<T -> Outcome<T, E>>): Outcome<T, E>
  {
    if fns == [] then Ok(value)
    else
      match FoldThrowing(value, fns[..|fns| - 1])
      case Thrown(e) => Thrown(e)
      case Ok(v) => fns[|fns| - 1](v)
  }

  /** Once an exception is thrown, the stages after it have no influence on the result. */
  lemma {:induction false} FoldThrowingConcat<T, E>(value: T, fs: seq<T -> Outcome<T, E>>, gs: seq<T -> Outcome<T, E>>)
    ensures FoldThrowing(value, fs + gs) ==
              match FoldThrowing(value, fs)
              case Thrown(e) => Thrown(e)
              case Ok(v) => FoldThrowing(v, gs)
    decreases |gs|
  {
    if gs == [] {
      assert fs + gs == fs;
      match FoldThrowing(value, fs)
      case Thrown(e) =>
      case Ok(v) =>
    } else {
      var n := |gs|;
      assert (fs + gs)[..|fs + gs| - 1] == fs + gs[..n - 1];
      FoldThrowingConcat(value, fs, gs[..n - 1]);
    }
  }

  /** A thrown result is what some stage threw when given the result of the stages before it. */
  lemma {:induction false} FoldThrowingBlame<T, E>(value: T, fns: seq<T -> Outcome<T, E>>)
    requires FoldThrowing(value, fns).Thrown?
    ensures exists k :: 0 <= k < |fns| && FoldThrowing(value, fns[..k]).Ok?
                        && fns[k](FoldThrowing(value, fns[..k]).value) == FoldThrowing(value, fns)
    decreases |fns|
  {
    var n := |fns|;
    var prefix := fns[..n - 1];
    if FoldThrowing(value, prefix).Thrown? {
      FoldThrowingBlame(value, prefix);
      var k :| 0 <= k < |prefix| && FoldThrowing(value, prefix[..k]).Ok?
               && prefix[k](FoldThrowing(value, prefix[..k]).value) == FoldThrowing(value, prefix);
      assert prefix[..k] == fns[..k];
    } else {
      assert FoldThrowing(value, fns[..n - 1]).Ok?;
    }
  }

  /** When no stage throws, the pipe returns exactly what the plain fold computes. */
  lemma {:induction false} FoldThrowingWithoutThrow<T, E>(value: T, fns: seq<T -> T>, lifted: seq<T -> Outcome<T, E>>)
    requires |lifted| == |fns|
    requires forall i, x :: 0 <= i < |fns| ==> lifted[i](x) == Ok(fns[i](x))
    ensures FoldThrowing(value, lifted) == Ok(Fold(value, fns))
    decreases |fns|
  {
    if fns != [] {
      var n := |fns|;
      FoldThrowingWithoutThrow(value, fns[..n - 1], lifted[..n - 1]);
    }
  }
}
