/**
 * Curried helpers over arrays (src/Arrays.ts). Lookups go through `Maybe.fromNull`, so
 * the arrays they read hold `Nullish` elements; an index outside the array reads undefined.
 */
module Arrays {
  import opened JsValues
  import opened Containers
  import Maybes

  /** JavaScript's `array[k]`: the element at `k`, or undefined outside the array. */
  function At<T>(a: seq<Nullish<T>>, k: int): Nullish<T>
  {
    if 0 <= k < |a| then a[k] else Undefined
  }

  /** The argument of `get`: a number, or a function of the array giving the index. */
  datatype Index<!T> = Number(n: int) | Computed(f: seq<Nullish<T>> -> int)

  /**
   * `get(index)` as written: a negative number counts from the end of the array, but the
   * test `index < 0` is made on the argument itself, so the index a function computes is
   * used untranslated and a negative one reads undefined.
   */
  function Get<T>(index: Index<T>, a: seq<Nullish<T>>): (r: Maybe<T>)
    ensures index.Number? && 0 <= index.n < |a| ==> r == Maybes.FromNull(a[index.n])
    ensures index.Number? && -|a| <= index.n < 0 ==> r == Maybes.FromNull(a[|a| + index.n])
    ensures index.Number? && (index.n < -|a| || |a| <= index.n) ==> r == None
    ensures index.Computed? && 0 <= index.f(a) < |a| ==> r == Maybes.FromNull(a[index.f(a)])
    ensures index.Computed? && !(0 <= index.f(a) < |a|) ==> r == None
  {
    var idx := if index.Number? then index.n else index.f(a);
    Maybes.FromNull(if index.Number? && index.n < 0 then At(a, |a| + idx) else At(a, idx))
  }

  /** On an array without null or undefined elements, every in-range index finds its element. */
  lemma GetDefined<T>(a: seq<Nullish<T>>, i: int)
    requires forall k :: 0 <= k < |a| ==> a[k].Defined?
    requires -|a| <= i < |a|
    ensures Get(Number(i), a) == Some(a[if i < 0 then |a| + i else i].value)
  {
  }

  /** A function that computes the index -1 reads nothing, where the number -1 reads the last element. */
  lemma GetComputedNegativeIgnored()
    ensures Get(Number(-1), [Defined(1), Defined(2), Defined(3)]) == Some(3)
    ensures Get(Computed(_ => -1), [Defined(1), Defined(2), Defined(3)]) == None
  {
  }

  /** `get(index)` as its documentation describes it: negative indices count from the end whatever their origin. */
  function GetIntended<T>(index: Index<T>, a: seq<Nullish<T>>): (r: Maybe<T>)
    ensures index.Number? ==> r == Get(index, a)
  {
    var idx := if index.Number? then index.n else index.f(a);
    Maybes.FromNull(if idx < 0 then At(a, |a| + idx) else At(a, idx))
  }

  /** With the corrected test, a computed index reads exactly what the same number reads. */
  lemma GetIntendedComputed<T>(f: seq<Nullish<T>> -> int, a: seq<Nullish<T>>)
    ensures GetIntended(Computed(f), a) == Get(Number(f(a)), a)
  {
  }

  /** `getFirst()`: `fromNull` of lodash's `first`, the element at 0 or undefined. */
  function GetFirst<T>(a: seq<Nullish<T>>): (r: Maybe<T>)
    ensures a == [] ==> r == None
    ensures a != [] ==> r == Maybes.FromNull(a[0])
  {
    Maybes.FromNull(if |a| > 0 then a[0] else Undefined)
  }

  /** `getLast()`: `fromNull` of lodash's `last`, the element at length - 1 or undefined. */
  function GetLast<T>(a: seq<Nullish<T>>): (r: Maybe<T>)
    ensures a == [] ==> r == None
    ensures a != [] ==> r == Maybes.FromNull(a[|a| - 1])
  {
    Maybes.FromNull(if |a| > 0 then a[|a| - 1] else Undefined)
  }

  /** `size()`: the length of the array. */
  function Size<T>(a: seq<T>): nat
  {
    |a|
  }

  /** `getFirst` is `get(0)` and `getLast` is `get(-1)`; a number index finds something only within `size`. */
  lemma FirstLastAreGet<T>(a: seq<Nullish<T>>, i: int)
    ensures GetFirst(a) == Get(Number(0), a)
    ensures GetLast(a) == Get(Number(-1), a)
    ensures Get(Number(i), a).Some? ==> 0 <= i + Size(a) && i < Size(a)
  {
  }

  /** The position of the first element passing `test`, or the length when none does. */
  function FirstIndex<T>(test: T -> bool, a: seq<T>): (k: nat)
    ensures k <= |a|
    ensures k < |a| ==> test(a[k])
    ensures forall j :: 0 <= j < k ==> !test(a[j])
  {
    if a == [] then 0
    else if test(a[0]) then 0
    else 1 + FirstIndex(test, a[1..])
  }

  /** Position `k` holds the first element passing `test`. */
  ghost predicate FirstMatch<T>(test: T -> bool, a: seq<T>, k: int) {
    0 <= k < |a| && test(a[k]) && forall j :: 0 <= j < k ==> !test(a[j])
  }

  /**
   * `find(fn)`: `fromNull` of `Array.prototype.find`, which yields the first element
   * passing `fn`, or undefined when none does.
   */
  function Find<T>(test: Nullish<T> -> bool, a: seq<Nullish<T>>): (r: Maybe<T>)
    ensures forall k :: FirstMatch(test, a, k) ==> r == Maybes.FromNull(a[k])
    ensures (forall k :: 0 <= k < |a| ==> !test(a[k])) ==> r == None
  {
    Maybes.FromNull(At(a, FirstIndex(test, a)))
  }

  /** The reverse of a sequence. */
  function Reversed<T>(s: seq<T>): seq<T>
  {
    seq(|s|, i requires 0 <= i < |s| => s[|s| - 1 - i])
  }

  /** Reversing twice gives back the sequence, and the first element ends up last. */
  lemma ReversedInvolution<T>(s: seq<T>)
    ensures Reversed(Reversed(s)) == s
    ensures s != [] ==> Reversed(s) == Reversed(s[1..]) + [s[0]]
  {
    if s != [] {
      assert Reversed(s) == Reversed(s[1..]) + [s[0]];
    }
  }

  /** `[...array]`: a fresh array with the same elements. */
  method Copy<T>(a: array<T>) returns (r: array<T>)
    ensures fresh(r)
    ensures r[..] == a[..]
  {
    r := new T[a.Length](i requires 0 <= i < a.Length reads a => a[i]);
  }

  /** `Array.prototype.reverse`: reverses the array in place. */
  method ReverseInPlace<T>(a: array<T>)
    modifies a
    ensures a[..] == Reversed(old(a[..]))
  {
    var n := a.Length;
    for i := 0 to n / 2
      invariant forall k :: 0 <= k < i ==> a[k] == old(a[n - 1 - k]) && a[n - 1 - k] == old(a[k])
      invariant forall k :: i <= k < n - i ==> a[k] == old(a[k])
    {
      a[i], a[n - 1 - i] := a[n - 1 - i], a[i];
    }
  }

  /** `reverse()`: reverses a copy; the input array is left as it was. */
  method Reverse<T>(a: array<T>) returns (r: array<T>)
    ensures fresh(r)
    ensures r[..] == Reversed(a[..])
    ensures a[..] == old(a[..])
  {
    r := Copy(a);
    ReverseInPlace(r);
  }

  /** `cmp(x, y) <= 0`: the comparator lets `x` come no later than `y`. */
  predicate InOrder<T>(cmp: (T, T) -> int, x: T, y: T) {
    cmp(x, y) <= 0
  }

  /**
   * A consistent comparator in the sense of `Array.prototype.sort`: any two values
   * can be ordered one way or the other, the order is transitive, and swapping the
   * arguments flips the sign (`cmp(x, y) < 0` exactly when `cmp(y, x) > 0`).
   */
  ghost predicate Consistent<T(!new)>(cmp: (T, T) -> int) {
    && (forall x, y :: InOrder(cmp, x, y) || InOrder(cmp, y, x))
    && (forall x, y, z :: InOrder(cmp, x, y) && InOrder(cmp, y, z) ==> InOrder(cmp, x, z))
    && (forall x, y :: cmp(x, y) < 0 <==> cmp(y, x) > 0)
  }

  /**
   * Numeric subtraction is a consistent comparator; one that answers 0 one way round and
   * 1 the other (so its order depends on the engine) is not.
   */
  lemma ConsistentBoundaries()
    ensures Consistent((x: int, y: int) => x - y)
    ensures !Consistent((x: bool, y: bool) => if !x && y then 1 else 0)
  {
    var cmp := (x: bool, y: bool) => if !x && y then 1 else 0;
    assert cmp(true, false) == 0 && cmp(false, true) == 1;
  }

  /** Every element comes no later, by `cmp`, than every element after it. */
  ghost predicate SortedBy<T>(cmp: (T, T) -> int, s: seq<T>) {
    forall i, j :: 0 <= i < j < |s| ==> InOrder(cmp, s[i], s[j])
  }

  /** Exchanges two elements of an array. */
  method Exchange<T>(a: array<T>, i: int, j: int)
    requires 0 <= i < a.Length && 0 <= j < a.Length
    modifies a
    ensures a[..] == old(a[..])[i := old(a[j])][j := old(a[i])]
    ensures multiset(a[..]) == old(multiset(a[..]))
  {
    a[i], a[j] := a[j], a[i];
  }

  /**
   * The state of insertion while the element at `j` travels left: the first `i + 1`
   * elements other than it are in order, and it is in order with everything after it.
   */
  ghost predicate Inserting<T>(cmp: (T, T) -> int, s: seq<T>, i: int, j: int)
    requires 0 <= j <= i < |s|
  {
    && (forall p, q :: 0 <= p < q <= i && p != j && q != j ==> InOrder(cmp, s[p], s[q]))
    && (forall q :: j < q <= i ==> InOrder(cmp, s[j], s[q]))
  }

  /** Moving the travelling element one step left keeps the insertion state. */
  lemma InsertingStep<T(!new)>(cmp: (T, T) -> int, s: seq<T>, i: int, j: int)
    requires Consistent(cmp)
    requires 0 < j <= i < |s|
    requires Inserting(cmp, s, i, j)
    requires !InOrder(cmp, s[j - 1], s[j])
    ensures Inserting(cmp, s[j - 1 := s[j]][j := s[j - 1]], i, j - 1)
  {
    var t := s[j - 1 := s[j]][j := s[j - 1]];
    assert InOrder(cmp, s[j], s[j - 1]);
    forall p, q | 0 <= p < q <= i && p != j - 1 && q != j - 1
      ensures InOrder(cmp, t[p], t[q])
    {
      if q == j {
        assert InOrder(cmp, s[p], s[j - 1]);
      } else if p == j {
        assert InOrder(cmp, s[j - 1], s[q]);
      }
    }
  }

  /** When the travelling element has stopped, the first `i + 1` elements are in order. */
  lemma InsertingDone<T(!new)>(cmp: (T, T) -> int, s: seq<T>, i: int, j: int)
    requires Consistent(cmp)
    requires 0 <= j <= i < |s|
    requires Inserting(cmp, s, i, j)
    requires j == 0 || InOrder(cmp, s[j - 1], s[j])
    ensures SortedBy(cmp, s[..i + 1])
  {
    forall p, q | 0 <= p < q <= i
      ensures InOrder(cmp, s[p], s[q])
    {
      if q == j && p < j - 1 {
        assert InOrder(cmp, s[p], s[j - 1]);
      }
    }
  }

  /**
   * `Array.prototype.sort(cmp)` on the copy: insertion sort by exchanges. It always
   * permutes the array; it orders it whenever the comparator is consistent.
   */
  method SortInPlace<T(!new)>(cmp: (T, T) -> int, a: array<T>)
    modifies a
    ensures multiset(a[..]) == old(multiset(a[..]))
    ensures Consistent(cmp) ==> SortedBy(cmp, a[..])
  {
    ghost var consistent := Consistent(cmp);
    if a.Length == 0 {
      return;
    }
    for i := 1 to a.Length
      invariant multiset(a[..]) == old(multiset(a[..]))
      invariant consistent ==> SortedBy(cmp, a[..i])
    {
      var j := i;
      while 0 < j && cmp(a[j - 1], a[j]) > 0
        invariant 0 <= j <= i
        invariant multiset(a[..]) == old(multiset(a[..]))
        invariant consistent ==> Inserting(cmp, a[..], i, j)
      {
        if consistent {
          InsertingStep(cmp, a[..], i, j);
        }
        Exchange(a, j - 1, j);
        j := j - 1;
      }
      if consistent {
        InsertingDone(cmp, a[..], i, j);
        assert a[..][..i + 1] == a[..i + 1];
      }
    }
    assert a[..a.Length] == a[..];
  }

  /** `sort(fn)`: sorts a copy by the comparator; the input array is left as it was. */
  method Sort<T(!new)>(cmp: (T, T) -> int, a: array<T>) returns (r: array<T>)
    ensures fresh(r)
    ensures multiset(r[..]) == multiset(a[..])
    ensures Consistent(cmp) ==> SortedBy(cmp, r[..])
    ensures a[..] == old(a[..])
  {
    r := Copy(a);
    SortInPlace(cmp, r);
  }

  /** `flat()` at depth 1: the inner arrays concatenated in order. */
  function Flat<T>(a: seq<seq<T>>): (r: seq<T>)
    ensures forall i, x :: 0 <= i < |a| && x in a[i] ==> x in r
    ensures forall x :: x in r ==> exists i :: 0 <= i < |a| && x in a[i]
  {
    if a == [] then [] else a[0] + Flat(a[1..])
  }

  /** Flattening distributes over concatenation, and a single inner array flattens to itself. */
  lemma {:induction false} FlatConcat<T>(a: seq<seq<T>>, b: seq<seq<T>>)
    ensures Flat(a + b) == Flat(a) + Flat(b)
    ensures Flat([b]) == b
    decreases |a|
  {
    assert [b][1..] == [];
    if a == [] {
      assert a + b == b;
    } else {
      assert (a + b)[1..] == a[1..] + b;
      FlatConcat(a[1..], b);
    }
  }

  /**
   * `Array.prototype.reduce(fn, init)`: folds from the left, starting from `init`; the
   * first step combines `init` with the element at index 0.
   */
  function FoldLeft<I, O>(fn: (O, I) -> O, init: O, a: seq<I>): (r: O)
    ensures a != [] ==> r == FoldLeft(fn, fn(init, a[0]), a[1..])
    decreases |a|
  {
    if a == [] then init
    else
      assert |a| > 1 ==> a[..|a| - 1][1..] == a[1..][..|a| - 2];
      fn(FoldLeft(fn, init, a[..|a| - 1]), a[|a| - 1])
  }

  /**
   * `Array.prototype.reduceRight(fn, init)`: folds from the right, starting from `init`;
   * the first step combines `init` with the last element.
   */
  function FoldRight<I, O>(fn: (O, I) -> O, init: O, a: seq<I>): (r: O)
    ensures a != [] ==> r == FoldRight(fn, fn(init, a[|a| - 1]), a[..|a| - 1])
    decreases |a|
  {
    if a == [] then init
    else
      assert |a| > 1 ==> a[1..][..|a| - 2] == a[..|a| - 1][1..];
      fn(FoldRight(fn, init, a[1..]), a[0])
  }

  /** The thrown error when there is neither an element nor an initial value to start from. */
  const EmptyReduce := TypeError("Reduce of empty array with no initial value")

  /** `reduce(fn, initialValueFactory)`: the left fold from the factory's value. */
  function ReduceWith<I, O>(fn: (O, I) -> O, initialValueFactory: () -> O, a: seq<I>): (r: O)
    ensures a == [] ==> r == initialValueFactory()
    ensures a != [] ==> r == fn(ReduceWith(fn, initialValueFactory, a[..|a| - 1]), a[|a| - 1])
  {
    FoldLeft(fn, initialValueFactory(), a)
  }

  /** `reduce(fn)`: throws on an empty array, else the left fold from the first element over the rest. */
  function Reduce<T>(fn: (T, T) -> T, a: seq<T>): (r: Outcome<T, JsError>)
    ensures r.Thrown? <==> a == []
    ensures r.Thrown? ==> r.error == EmptyReduce
    ensures a != [] ==> r == Ok(ReduceWith(fn, () => a[0], a[1..]))
  {
    if a == [] then Thrown(EmptyReduce) else Ok(FoldLeft(fn, a[0], a[1..]))
  }

  /** `reduceRight(fn, initialValueFactory)`: the right fold from the factory's value. */
  function ReduceRightWith<I, O>(fn: (O, I) -> O, initialValueFactory: () -> O, a: seq<I>): (r: O)
    ensures a == [] ==> r == initialValueFactory()
    ensures a != [] ==> r == fn(ReduceRightWith(fn, initialValueFactory, a[1..]), a[0])
  {
    FoldRight(fn, initialValueFactory(), a)
  }

  /** `reduceRight(fn)`: throws on an empty array, else the right fold from the last element. */
  function ReduceRight<T>(fn: (T, T) -> T, a: seq<T>): (r: Outcome<T, JsError>)
    ensures r.Thrown? <==> a == []
    ensures r.Thrown? ==> r.error == EmptyReduce
    ensures a != [] ==> r == Ok(ReduceRightWith(fn, () => a[|a| - 1], a[..|a| - 1]))
  {
    if a == [] then Thrown(EmptyReduce) else Ok(FoldRight(fn, a[|a| - 1], a[..|a| - 1]))
  }

  /** Reducing `a + b` reduces `b` starting from the result of reducing `a`. */
  lemma {:induction false} FoldLeftConcat<I, O>(fn: (O, I) -> O, init: O, a: seq<I>, b: seq<I>)
    ensures FoldLeft(fn, init, a + b) == FoldLeft(fn, FoldLeft(fn, init, a), b)
    decreases |b|
  {
    if b == [] {
      assert a + b == a;
    } else {
      assert (a + b)[..|a + b| - 1] == a + b[..|b| - 1];
      FoldLeftConcat(fn, init, a, b[..|b| - 1]);
    }
  }

  /** `reduceRight` is `reduce` over the reversed array. */
  lemma {:induction false} FoldRightIsFoldLeftReversed<I, O>(fn: (O, I) -> O, init: O, a: seq<I>)
    ensures FoldRight(fn, init, a) == FoldLeft(fn, init, Reversed(a))
    decreases |a|
  {
    if a != [] {
      var r := Reversed(a);
      assert r[..|r| - 1] == Reversed(a[1..]);
      FoldRightIsFoldLeftReversed(fn, init, a[1..]);
    }
  }

  /** Without a factory, `reduceRight` agrees with `reduce` on the reversed array. */
  lemma ReduceRightIsReduceReversed<T>(fn: (T, T) -> T, a: seq<T>)
    ensures ReduceRight(fn, a) == Reduce(fn, Reversed(a))
  {
    if a != [] {
      var r := Reversed(a);
      assert r[1..] == Reversed(a[..|a| - 1]);
      FoldRightIsFoldLeftReversed(fn, a[|a| - 1], a[..|a| - 1]);
    }
  }
}
