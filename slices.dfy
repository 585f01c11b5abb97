/** The `slices` package: loops with an accumulator over a slice.
    Most methods are proved equal to a recursive specification function,
    and the lemmas below say what those functions mean; `Max` and `Min`
    state their result directly. Callbacks are total
    functions without side effects. */
module Slices {
  import opened Errors

  // ---------------------------------------------------------------------
  // Specification functions (front-recursive, in index order)
  // ---------------------------------------------------------------------

  function AnyOf<T>(s: seq<T>, f: T -> bool): bool {
    |s| > 0 && (f(s[0]) || AnyOf(s[1..], f))
  }

  function AllOf<T>(s: seq<T>, f: T -> bool): bool {
    |s| == 0 || (f(s[0]) && AllOf(s[1..], f))
  }

  function CountOf<T(==)>(s: seq<T>, x: T): nat {
    if s == [] then 0 else (if s[0] == x then 1 else 0) + CountOf(s[1..], x)
  }

  /** Number of elements on which `f` holds; never more than the length. */
  function CountIf<T>(s: seq<T>, f: T -> bool): (n: nat)
    ensures n <= |s|
  {
    if s == [] then 0 else (if f(s[0]) then 1 else 0) + CountIf(s[1..], f)
  }

  /** The elements on which `f` holds, in their original order. */
  function FilterOf<T>(s: seq<T>, f: T -> bool): (r: seq<T>)
    ensures |r| <= |s|
    ensures forall i :: 0 <= i < |r| ==> f(r[i])
  {
    if s == [] then []
    else if f(s[0]) then [s[0]] + FilterOf(s[1..], f)
    else FilterOf(s[1..], f)
  }

  /** `f` applied to every element, position by position. */
  function MapOf<T, U>(s: seq<T>, f: T -> U): (r: seq<U>)
    ensures |r| == |s|
    ensures forall i :: 0 <= i < |s| ==> r[i] == f(s[i])
  {
    if s == [] then [] else [f(s[0])] + MapOf(s[1..], f)
  }

  /** Left fold: `f(s[n-1], ... f(s[0], acc) ...)`. */
  function FoldLeft<T, U>(s: seq<T>, acc: U, f: (T, U) -> U): U {
    if s == [] then acc else FoldLeft(s[1..], f(s[0], acc), f)
  }

  /** `a` occurs in `b` with its order kept (some elements of `b` may be skipped). */
  ghost predicate IsSubsequence<T>(a: seq<T>, b: seq<T>) {
    if a == [] then true
    else if b == [] then false
    else if a[0] == b[0] then IsSubsequence(a[1..], b[1..])
    else IsSubsequence(a, b[1..])
  }

  // ---------------------------------------------------------------------
  // What the specification functions mean
  // ---------------------------------------------------------------------

  lemma {:induction false} AnyOfExists<T>(s: seq<T>, f: T -> bool)
    ensures AnyOf(s, f) <==> exists i :: 0 <= i < |s| && f(s[i])
  {
    if s != [] {
      AnyOfExists(s[1..], f);
      assert forall i :: 1 <= i < |s| ==> s[i] == s[1..][i - 1];
    }
  }

  lemma {:induction false} AllOfForall<T>(s: seq<T>, f: T -> bool)
    ensures AllOf(s, f) <==> forall i :: 0 <= i < |s| ==> f(s[i])
  {
    if s != [] {
      AllOfForall(s[1..], f);
      assert forall i :: 1 <= i < |s| ==> s[i] == s[1..][i - 1];
    }
  }

  /** `All` is `Any` of the negation, negated. */
  lemma {:induction false} AllIsNotAnyNot<T>(s: seq<T>, f: T -> bool)
    ensures AllOf(s, f) == !AnyOf(s, x => !f(x))
  {
    if s != [] {
      AllIsNotAnyNot(s[1..], f);
    }
  }

  /** `CountOf(s, x)` is the number of occurrences of `x` in `s`. */
  lemma {:induction false} CountOfIsMultiplicity<T>(s: seq<T>, x: T)
    ensures CountOf(s, x) == multiset(s)[x]
  {
    if s != [] {
      CountOfIsMultiplicity(s[1..], x);
      assert s == [s[0]] + s[1..];
      assert multiset(s) == multiset([s[0]]) + multiset(s[1..]);
    }
  }

  /** `Count` is `CountFunc` with an equality test. */
  lemma {:induction false} CountOfIsCountIf<T>(s: seq<T>, x: T)
    ensures CountOf(s, x) == CountIf(s, y => y == x)
  {
    if s != [] {
      CountOfIsCountIf(s[1..], x);
    }
  }

  /** `Filter` keeps exactly `CountFunc` elements. */
  lemma {:induction false} FilterLength<T>(s: seq<T>, f: T -> bool)
    ensures |FilterOf(s, f)| == CountIf(s, f)
  {
    if s != [] {
      FilterLength(s[1..], f);
    }
  }

  /** `Filter`'s result is an order-preserving subsequence of its input. */
  lemma {:induction false} FilterIsSubsequence<T>(s: seq<T>, f: T -> bool)
    ensures IsSubsequence(FilterOf(s, f), s)
  {
    if s != [] {
      FilterIsSubsequence(s[1..], f);
      if !f(s[0]) {
        SkipHead(FilterOf(s[1..], f), s);
      }
    }
  }

  /** Prepending an element to the larger sequence keeps a subsequence. */
  lemma {:induction false} SkipHead<T>(a: seq<T>, b: seq<T>)
    requires b != [] && IsSubsequence(a, b[1..])
    ensures IsSubsequence(a, b)
    decreases |b|, 0
  {
    if a != [] && a[0] == b[0] {
      DropFirstOfSub(a, b[1..]);
    }
  }

  /** From a subsequence `a` of `b` with `a` nonempty, `a[1..]` is one too. */
  lemma {:induction false} DropFirstOfSub<T>(a: seq<T>, b: seq<T>)
    requires a != [] && IsSubsequence(a, b)
    ensures IsSubsequence(a[1..], b)
    decreases |b|, 1
  {
    if a[0] == b[0] {
      SkipHead(a[1..], b);
    } else {
      DropFirstOfSub(a, b[1..]);
      SkipHead(a[1..], b);
    }
  }

  /** An element survives `Filter` exactly when it is in the input and satisfies `f`. */
  lemma {:induction false} FilterMembership<T>(s: seq<T>, f: T -> bool, x: T)
    ensures x in FilterOf(s, f) <==> x in s && f(x)
  {
    if s != [] {
      FilterMembership(s[1..], f, x);
      assert x in s <==> x == s[0] || x in s[1..];
    }
  }

  /** The fold processes the last element last. */
  lemma {:induction false} FoldLeftSnoc<T, U>(s: seq<T>, x: T, acc: U, f: (T, U) -> U)
    ensures FoldLeft(s + [x], acc, f) == f(x, FoldLeft(s, acc, f))
  {
    if s != [] {
      assert (s + [x])[1..] == s[1..] + [x];
      FoldLeftSnoc(s[1..], x, f(s[0], acc), f);
    }
  }

  /** A `ForEach` whose callback appends the elements satisfying `f` to a
      caller's slice produces `Filter`'s result. */
  lemma {:induction false} CollectingIsFilter<T>(s: seq<T>, acc: seq<T>, f: T -> bool)
    ensures FoldLeft(s, acc, (x: T, a: seq<T>) => if f(x) then a + [x] else a) == acc + FilterOf(s, f)
  {
    if s != [] {
      var g := (x: T, a: seq<T>) => if f(x) then a + [x] else a;
      CollectingIsFilter(s[1..], g(s[0], acc), f);
      if f(s[0]) {
        assert acc + [s[0]] + FilterOf(s[1..], f) == acc + ([s[0]] + FilterOf(s[1..], f));
      }
    }
  }

  // ---------------------------------------------------------------------
  // The package's functions
  // ---------------------------------------------------------------------

  /** `Any`: stops at the first element satisfying `f`. */
  method Any<T>(items: seq<T>, f: T -> bool) returns (r: bool)
    ensures r == AnyOf(items, f)
    ensures r <==> exists i :: 0 <= i < |items| && f(items[i])
  {
    AnyOfExists(items, f);
    for i := 0 to |items|
      invariant AnyOf(items, f) == AnyOf(items[i..], f)
    {
      assert items[i..][1..] == items[i + 1..];
      if f(items[i]) {
        return true;
      }
    }
    return false;
  }

  /** `All`: stops at the first element violating `f`. */
  method All<T>(items: seq<T>, f: T -> bool) returns (r: bool)
    ensures r == AllOf(items, f)
    ensures r <==> forall i :: 0 <= i < |items| ==> f(items[i])
  {
    AllOfForall(items, f);
    for i := 0 to |items|
      invariant AllOf(items, f) == AllOf(items[i..], f)
    {
      assert items[i..][1..] == items[i + 1..];
      if !f(items[i]) {
        return false;
      }
    }
    return true;
  }

  /** `Count`: the number of occurrences of `item`. */
  method Count<T(==)>(items: seq<T>, item: T) returns (count: nat)
    ensures count == CountOf(items, item)
    ensures count == multiset(items)[item]
  {
    CountOfIsMultiplicity(items, item);
    count := 0;
    for i := 0 to |items|
      invariant count + CountOf(items[i..], item) == CountOf(items, item)
    {
      assert items[i..][1..] == items[i + 1..];
      if items[i] == item {
        count := count + 1;
      }
    }
  }

  /** `CountFunc`: the number of elements satisfying `f`. */
  method CountFunc<T>(items: seq<T>, f: T -> bool) returns (count: nat)
    ensures count == CountIf(items, f)
    ensures count <= |items|
  {
    count := 0;
    for i := 0 to |items|
      invariant count + CountIf(items[i..], f) == CountIf(items, f)
    {
      assert items[i..][1..] == items[i + 1..];
      if f(items[i]) {
        count := count + 1;
      }
    }
  }

  /** `Filter`: appends the elements satisfying `f` to a new slice. */
  method Filter<T>(items: seq<T>, f: T -> bool) returns (result: seq<T>)
    ensures result == FilterOf(items, f)
  {
    result := [];
    for i := 0 to |items|
      invariant result + FilterOf(items[i..], f) == FilterOf(items, f)
    {
      assert items[i..][1..] == items[i + 1..];
      if f(items[i]) {
        assert result + [items[i]] + FilterOf(items[i + 1..], f) == result + ([items[i]] + FilterOf(items[i + 1..], f));
        result := result + [items[i]];
      }
    }
  }

  /** `ForEach`: the callback's effect on the caller's state `state` is
      threaded through each call in index order. */
  method ForEach<T, S>(items: seq<T>, f: (T, S) -> S, state: S) returns (final: S)
    ensures final == FoldLeft(items, state, f)
  {
    final := state;
    for i := 0 to |items|
      invariant FoldLeft(items[i..], final, f) == FoldLeft(items, state, f)
    {
      assert items[i..][1..] == items[i + 1..];
      final := f(items[i], final);
    }
  }

  /** `Map`: a slice of the same length holding `f` of each element. */
  method Map<T, U>(items: seq<T>, f: T -> U) returns (result: seq<U>)
    ensures result == MapOf(items, f)
    ensures |result| == |items| && forall i :: 0 <= i < |items| ==> result[i] == f(items[i])
  {
    result := [];
    for i := 0 to |items|
      invariant |result| == i
      invariant forall j :: 0 <= j < i ==> result[j] == f(items[j])
    {
      result := result + [f(items[i])];
    }
    assert result == MapOf(items, f);
  }

  /** `Max`: `ErrEmpty` on an empty slice, else its greatest element. */
  method Max(items: seq<int>) returns (r: Result<int>)
    ensures r.Err? <==> items == []
    ensures r.Err? ==> r.error == ErrEmpty
    ensures r.Ok? ==> r.value in items && forall x :: x in items ==> x <= r.value
  {
    if |items| == 0 {
      return Err(ErrEmpty);
    }
    var max := items[0];
    for i := 1 to |items|
      invariant max in items[..i]
      invariant forall j :: 0 <= j < i ==> items[j] <= max
    {
      if items[i] > max {
        max := items[i];
      }
    }
    assert items[..|items|] == items;
    return Ok(max);
  }

  /** `Min`: `ErrEmpty` on an empty slice, else its least element. */
  method Min(items: seq<int>) returns (r: Result<int>)
    ensures r.Err? <==> items == []
    ensures r.Err? ==> r.error == ErrEmpty
    ensures r.Ok? ==> r.value in items && forall x :: x in items ==> r.value <= x
  {
    if |items| == 0 {
      return Err(ErrEmpty);
    }
    var min := items[0];
    for i := 1 to |items|
      invariant min in items[..i]
      invariant forall j :: 0 <= j < i ==> min <= items[j]
    {
      if items[i] < min {
        min := items[i];
      }
    }
    assert items[..|items|] == items;
    return Ok(min);
  }

  /** `Reduce`: `acc := f(item, acc)` for each item in index order. */
  method Reduce<T, U>(items: seq<T>, acc: U, f: (T, U) -> U) returns (result: U)
    ensures result == FoldLeft(items, acc, f)
  {
    result := acc;
    for i := 0 to |items|
      invariant FoldLeft(items[..i], acc, f) == result
    {
      assert items[..i + 1] == items[..i] + [items[i]];
      FoldLeftSnoc(items[..i], items[i], acc, f);
      result := f(items[i], result);
    }
    assert items[..|items|] == items;
  }
}
