/** Comparison helpers of the `generic` package.
    Go's `constraints.Ordered` functions are modelled on `int`; the `By`
    variants take the caller's `LessFn` as a total function. */
module Generic {

  /** What a `LessFn` is meant to be: irreflexive, transitive and total on distinct values. */
  ghost predicate IsStrictTotalOrder<T(!new)>(less: (T, T) -> bool) {
    && (forall x :: !less(x, x))
    && (forall x, y, z :: less(x, y) && less(y, z) ==> less(x, z))
    && (forall x, y :: x != y ==> less(x, y) || less(y, x))
  }

  /** `Equals` reports whether its arguments are equal. */
  function Equals<T(==)>(a: T, b: T): (r: bool)
    ensures r <==> a == b
  {
    a == b
  }

  /** `Less` reports whether `a` orders strictly before `b`. */
  function Less(a: int, b: int): (r: bool)
    ensures r <==> a < b
  {
    a < b
  }

  /** Three-way comparison under the built-in order. */
  function Compare(a: int, b: int): (r: int)
    ensures -1 <= r <= 1
    ensures r == -1 <==> a < b
    ensures r == 1 <==> b < a
    ensures r == 0 <==> a == b
  {
    if a < b then -1
    else if a > b then 1
    else 0
  }

  lemma CompareAntisymmetric(a: int, b: int)
    ensures Compare(a, b) == -Compare(b, a)
  {
  }

  /** Three-way comparison under a caller-supplied `less`. */
  function CompareBy<T>(a: T, b: T, less: (T, T) -> bool): (r: int)
    ensures -1 <= r <= 1
    ensures r == -1 <==> less(a, b)
    ensures r == 1 <==> !less(a, b) && less(b, a)
    ensures r == 0 <==> !less(a, b) && !less(b, a)
  {
    if less(a, b) then -1
    else if less(b, a) then 1
    else 0
  }

  /** With `<` as the comparator, `CompareBy` is `Compare`. */
  lemma CompareByNaturalOrder(a: int, b: int)
    ensures CompareBy(a, b, (x: int, y: int) => x < y) == Compare(a, b)
  {
  }

  /** Under a strict total order, `CompareBy` is 0 exactly on equal arguments
      and swapping the arguments negates it. */
  lemma CompareByStrictTotalOrder<T(!new)>(a: T, b: T, less: (T, T) -> bool)
    requires IsStrictTotalOrder(less)
    ensures CompareBy(a, b, less) == 0 <==> a == b
    ensures CompareBy(a, b, less) == -CompareBy(b, a, less)
  {
  }

  /** The smaller argument; `b` unless `a < b`. */
  function Min(a: int, b: int): (r: int)
    ensures r == a || r == b
    ensures r <= a && r <= b
  {
    if a < b then a else b
  }

  /** The `less`-smaller argument; on a tie (neither is less) `b`. */
  function MinBy<T>(a: T, b: T, less: (T, T) -> bool): (r: T)
    ensures r == a || r == b
    ensures less(a, b) ==> r == a
    ensures !less(a, b) ==> r == b
  {
    if less(a, b) then a else b
  }

  /** The larger argument; `b` unless `a > b`. */
  function Max(a: int, b: int): (r: int)
    ensures r == a || r == b
    ensures a <= r && b <= r
  {
    if a > b then a else b
  }

  /** The `less`-larger argument; on a tie (neither is less) `a`. */
  function MaxBy<T>(a: T, b: T, less: (T, T) -> bool): (r: T)
    ensures r == a || r == b
    ensures less(a, b) ==> r == b
    ensures !less(a, b) ==> r == a
  {
    if less(a, b) then b else a
  }

  /** Under a strict total order neither argument is less than `MinBy`'s
      result, and `MaxBy`'s result is less than neither argument. */
  lemma MinByMaxByExtremal<T(!new)>(a: T, b: T, less: (T, T) -> bool)
    requires IsStrictTotalOrder(less)
    ensures !less(a, MinBy(a, b, less)) && !less(b, MinBy(a, b, less))
    ensures !less(MaxBy(a, b, less), a) && !less(MaxBy(a, b, less), b)
  {
  }
}
