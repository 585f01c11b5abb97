# genlib core in Dafny

A Dafny model of five sequential parts of the Go library `genlib`, with
proofs about each:

- `container/redblack`: the red-black tree's records, the constructor,
  `IsEmpty`, `Size` and the binary-search lookup `Find` (module `RedBlack`,
  file `redblack.dfy`). Nodes and the tree are classes. Each node carries a
  ghost footprint (`Repr`) and a ghost key-value map (`Contents`). The
  predicate `Node.Valid(less)` states that the subtree rooted at the node is
  a finite, acyclic binary tree, that children point back to their parent,
  that the two subtrees share no node, and that the keys are in
  binary-search order under `less`. `Tree.Valid()` adds that the root has no
  parent and that `size` counts the nodes. `Find` is proved against the
  recursive descent `Search`, and `Search` is proved to find exactly the
  entries of `Contents` when `less` is a strict total order.
- `generic/functions.go`: the three-way comparison and min/max helpers the
  tree relies on (module `Generic`, file `generic.dfy`).
- `container/set`: the map-backed set (module `Sets`, file `sets.dfy`). A
  Go `Set` is a map, i.e. a shared reference whose contents its methods
  change in place. It is modelled as the class `Set` whose field `elems` is
  the map's key set. Methods that change it have `modifies this`, and those
  that build a new set return a `fresh` object.
- `functional/slices/slices.go`: the slice combinators (module `Slices`,
  file `slices.dfy`). Each is a method with a loop. Eight of them are
  proved equal to a recursive specification function, and lemmas then say
  what each specification function means. `Max` and `Min` state their
  result directly in their postconditions.
- `generic/maps/maps.go`: the map combinators (module `Maps`, file
  `maps.dfy`). `ContainsKey` is a function. The others are methods whose
  loops either range over a map, visiting its keys in an unspecified order,
  or walk a list of keys in index order (`WithKeys`, and the first loop of
  `WithoutKeys`). Their postconditions give the key set and every value of
  the result, and never depend on the order in which a map is visited.
- `errors/errors.go`: the sentinel `ErrEmpty` (module `Errors`, file
  `errors.dfy`). The same module holds `Result`, which models Go's
  `(T, error)` return convention; that convention is not declared in
  errors/errors.go.

The natural-order functions (Go's `constraints.Ordered`) are modelled on
`int`. A caller's `LessFn` is a total Dafny function `(K, K) -> bool`.
`Generic.IsStrictTotalOrder` states what such a comparator is meant to be.
That requirement is not a precondition of the tree. Where a property needs
it, the property is stated conditionally on it or as a lemma that requires
it.

`Tree` is documented as a red-black tree
(container/redblack/red_black_tree.go:19), but the package has only lookup:
there is no insertion, deletion or rotation, and the colour tag sits on
`Tree`, not on `node` (container/redblack/red_black_tree.go:12-25). This
model follows the code. It stores the colour on `Tree`, and `New` sets it to
`Black` (Go's zero value). No colour or black-height invariant is stated,
because no code maintains one.

## Model

| member | source | states |
|---|---|---|
| `Generic.Equals` | generic/functions.go:6-8 | true exactly when the two arguments are equal |
| `Generic.Less` | generic/functions.go:12-14 | true exactly when `a < b` |
| `Generic.Compare` | generic/functions.go:17-25 | the result is in {-1, 0, 1}: -1 exactly when a < b, 1 exactly when a > b, 0 exactly when they are equal |
| `Generic.CompareAntisymmetric` | generic/functions.go:17-25 | swapping the arguments negates the result |
| `Generic.CompareBy` | generic/functions.go:28-36 | -1 exactly when `less(a, b)`, 1 exactly when `!less(a, b) && less(b, a)`, 0 exactly when neither is less, for any `less` |
| `Generic.CompareByNaturalOrder` | generic/functions.go:17-36 | with `<` as comparator, `CompareBy` equals `Compare` |
| `Generic.CompareByStrictTotalOrder` | generic/functions.go:28-36 | under a strict total order, `CompareBy` is 0 exactly on equal arguments, and swapping them negates it |
| `Generic.Min` | generic/functions.go:39-44 | returns one of its arguments, and that value is at most both |
| `Generic.MinBy` | generic/functions.go:48-53 | returns one of its arguments: `a` when `less(a, b)`, and otherwise `b`, so a tie gives `b` |
| `Generic.Max` | generic/functions.go:56-61 | returns one of its arguments, and that value is at least both |
| `Generic.MaxBy` | generic/functions.go:65-70 | returns one of its arguments: `b` when `less(a, b)`, and otherwise `a`, so a tie gives `a` |
| `Generic.MinByMaxByExtremal` | generic/functions.go:48-70 | under a strict total order, neither argument is less than `MinBy`'s result, and `MaxBy`'s result is less than neither |
| `Slices.CountIf` | functional/slices/slices.go:41-49 | the number of elements satisfying `f` is at most the length |
| `Slices.FilterOf` | functional/slices/slices.go:53-61 | the result is no longer than the input, and every element of the result satisfies `f` |
| `Slices.MapOf` | functional/slices/slices.go:72-78 | the result has the input's length, with `f(s[i])` at every position `i` |
| `Slices.AnyOfExists` | functional/slices/slices.go:9-16 | `AnyOf` holds exactly when some index has an element satisfying `f` (so it is false on an empty slice) |
| `Slices.AllOfForall` | functional/slices/slices.go:19-26 | `AllOf` holds exactly when every element satisfies `f` (so it is true on an empty slice) |
| `Slices.AllIsNotAnyNot` | functional/slices/slices.go:9-26 | `All(f)` is the negation of `Any(not f)` |
| `Slices.CountOfIsMultiplicity` | functional/slices/slices.go:29-37 | `CountOf(s, x)` is the number of occurrences of `x` in `s`, i.e. its multiplicity in `multiset(s)` |
| `Slices.CountOfIsCountIf` | functional/slices/slices.go:29-49 | `Count(s, x)` equals `CountFunc` with the test `y == x` |
| `Slices.FilterLength` | functional/slices/slices.go:41-61 | `Filter` keeps exactly `CountFunc` elements |
| `Slices.FilterIsSubsequence` | functional/slices/slices.go:53-61 | `Filter`'s result is an order-preserving subsequence of the input |
| `Slices.FilterMembership` | functional/slices/slices.go:53-61 | `x` is in `Filter`'s result exactly when `x` is in the input and satisfies `f` |
| `Slices.FoldLeftSnoc` | functional/slices/slices.go:112-117 | the fold is a left fold: appending `x` to the input applies `f(x, ·)` last |
| `Slices.CollectingIsFilter` | functional/slices/slices.go:64-68 | a `ForEach` whose callback appends the elements satisfying `f` to a slice leaves that slice extended by `Filter`'s result |
| `Slices.Any` | functional/slices/slices.go:9-16 | the result is `AnyOf(items, f)`: some element satisfies `f` |
| `Slices.All` | functional/slices/slices.go:19-26 | the result is `AllOf(items, f)`: every element satisfies `f` |
| `Slices.Count` | functional/slices/slices.go:29-37 | the result is `CountOf(items, item)`, the multiplicity of `item` |
| `Slices.CountFunc` | functional/slices/slices.go:41-49 | the result is `CountIf(items, f)`, at most `len(items)` |
| `Slices.Filter` | functional/slices/slices.go:53-61 | the result is `FilterOf(items, f)` |
| `Slices.ForEach` | functional/slices/slices.go:64-68 | the callback's effect on the caller's state is the left fold of `f` over the items in index order |
| `Slices.Map` | functional/slices/slices.go:72-78 | the result has the input's length, with `result[i] == f(items[i])` |
| `Slices.Max` | functional/slices/slices.go:81-93 | `ErrEmpty` exactly on an empty slice; otherwise an element of the slice that is at least every element |
| `Slices.Min` | functional/slices/slices.go:96-108 | `ErrEmpty` exactly on an empty slice; otherwise an element of the slice that is at most every element |
| `Slices.Reduce` | functional/slices/slices.go:112-117 | the result is `FoldLeft(items, acc, f)` = `f(items[n-1], … f(items[0], acc) …)` |
| `Maps.ContainsKey` | generic/maps/maps.go:4-7 | true exactly when `key` is in the map's key set |
| `Maps.Map` | generic/maps/maps.go:11-18 | every source entry's image key is in the result; every result entry is the image `f(k, items[k])` of some source key; an image key that no other source key produces holds that source key's image value |
| `Maps.MapKeys` | generic/maps/maps.go:22-28 | every `f(k)` is a result key; every result entry `(rk, v)` has a source key `k` with `f(k) == rk` and `items[k] == v`; without a collision, `result[f(k)] == items[k]` |
| `Maps.MapValues` | generic/maps/maps.go:32-38 | same key set as the input, and each key maps to `f(items[k])` |
| `Maps.Merge` | generic/maps/maps.go:42-51 | key set is the union of both key sets; `items2`'s value wins on a duplicate key |
| `Maps.MergeFunc` | generic/maps/maps.go:55-67 | key set is the union; a key of only one map keeps that map's value; a key of both gets `f(k, v1, v2)` |
| `Maps.WithKeys` | generic/maps/maps.go:70-79 | key set is the listed keys that are in `items`, with values unchanged |
| `Maps.WithoutKeys` | generic/maps/maps.go:82-94 | key set is the keys of `items` that are not listed, with values unchanged |
| `Sets.Set.New` | container/set/set.go:11-13 | a set with no elements |
| `Sets.Set.NewWithInitialSpace` | container/set/set.go:16-18 | a set with no elements, whatever the capacity hint |
| `Sets.Set.Size` | container/set/set.go:21-23 | the number of elements |
| `Sets.Set.IsEmpty` | container/set/set.go:26-28 | true exactly when there are no elements |
| `Sets.Set.Contains` | container/set/set.go:60-63 | true exactly when `elem` is a member |
| `Sets.Set.Equal` | container/set/set.go:31-41 | true exactly when both sets have the same elements |
| `Sets.SubsetOfSameSize` | container/set/set.go:31-41 | a set with the same size as a superset equals it, which is why `Equal` needs only one inclusion after the size test |
| `Sets.Set.Clear` | container/set/set.go:44-48 | afterwards there are no elements |
| `Sets.Set.Clone` | container/set/set.go:51-57 | a new object (so later changes to either set do not affect the other) with the same elements |
| `Sets.Set.ContainsAll` | container/set/set.go:66-73 | true exactly when every argument is a member (true for no arguments) |
| `Sets.Set.ContainsAny` | container/set/set.go:76-83 | true exactly when some argument is a member (false for no arguments) |
| `Sets.Set.ForEach` | container/set/set.go:86-92 | `f` is called on distinct members; every call but the last returned true; if no call returned false, every member was visited |
| `Sets.Set.Add` | container/set/set.go:105-107 | the elements become `old ∪ {elem}`; the size grows by one exactly when `elem` was absent |
| `Sets.Set.AddAll` | container/set/set.go:110-114 | the elements become `old ∪ args` |
| `Sets.Set.Remove` | container/set/set.go:117-119 | the elements become `old \ {elem}`; removing an absent element changes nothing |
| `Sets.Set.RemoveAll` | container/set/set.go:122-126 | the elements become `old \ args` |
| `Sets.Set.AddEach` | container/set/set.go:53-55 | the elements become `old ∪ from`, whatever order they are added in; `Clone` and `Union` (container/set/set.go:139-144) fill their result with it |
| `Sets.Set.Intersect` | container/set/set.go:129-134 | a new set holding exactly the common elements, whichever set is smaller |
| `Sets.IntersectFrom` | container/set/set.go:172-180 | a new set holding exactly the elements of `s1` that `s2` contains |
| `Sets.Set.Union` | container/set/set.go:137-146 | a new set holding exactly the elements of either set |
| `Sets.Set.ToSlice` | container/set/set.go:149-155 | a slice of length `Size()` holding every element exactly once |
| `RedBlack.Node.constructor` | container/redblack/red_black_tree.go:12-17 | a `node` literal: a leaf with nil children and no parent, valid under any `less` |
| `RedBlack.Node.Valid` | container/redblack/red_black_tree.go:12-17 | a valid subtree contains its root node and stores the root's key |
| `RedBlack.Tree.Valid` | container/redblack/red_black_tree.go:19-25 | no root means no nodes and no entries; otherwise the root has no parent and is a valid subtree whose footprint and contents are the tree's; `size` is the node count |
| `RedBlack.Tree.New` | container/redblack/red_black_tree.go:28-32 | a valid tree with the given `less`, no root, size 0, colour black and no entries, so `IsEmpty()` holds and `Size()` is 0 |
| `RedBlack.Tree.IsEmpty` | container/redblack/red_black_tree.go:34-36 | true exactly when the tree stores no entry, i.e. when its size is 0 |
| `RedBlack.Tree.Size` | container/redblack/red_black_tree.go:38-40 | the stored count, which is the number of nodes |
| `RedBlack.SizeCountsKeys` | container/redblack/red_black_tree.go:38-40 | under a strict total order, the size is the number of distinct keys stored |
| `RedBlack.EntryPerNode` | container/redblack/red_black_tree.go:12-17 | under a strict total order, a valid subtree has as many distinct keys as nodes |
| `RedBlack.Search` | container/redblack/red_black_tree.go:47-59 | the descent goes to `children[0]` when the key orders before the node's key and to `children[1]` when it orders after; a value it finds is that of a node whose key is equivalent to the query (neither is less) |
| `RedBlack.DescendStep` | container/redblack/red_black_tree.go:50-55 | under a strict total order and the ordering invariant, a key that orders before (after) a node's key is stored in the subtree only if it is stored in the left (right) child's subtree, with the same value |
| `RedBlack.SearchFindsContents` | container/redblack/red_black_tree.go:47-60 | under a strict total order, `Search` finds a key exactly when the subtree stores it, and returns the stored value |
| `RedBlack.Tree.Find` | container/redblack/red_black_tree.go:42-61 | read-only (no `modifies`); terminates because each step moves to a child with a strictly smaller footprint; returns `Search`'s answer; not found on an empty tree; found only with the value of a node whose key is equivalent to the query; under a strict total order, found exactly when the key is in `Contents`, with its value |

## Left out

- Red-black insertion, deletion, rotation, recolouring, sibling and uncle helpers, and in-order traversal. The code has none of them. `getSibling` (container/redblack/red_black_tree.go:63) is a declaration without a body. No colour or black-height invariant is modelled, because nothing in the code maintains one. The trees the model reasons about are whatever valid node graphs exist in the heap, since the code has no operation that builds a non-empty tree.
- RedBlack.Tree.Find: Go returns `*V`, a pointer into the node's `value` field. The model returns the value itself (`Option<V>`), so a caller's later write through that pointer is not modelled.
- RedBlack.Tree.Size: the count is an unbounded `nat`. The `uint32` wrap-around is not modelled, because no code ever increments the count.
- `Set.Iterator`, `Set.BufferedIterator`, `Set.iterate` and generic/iterator.go are not modelled. They exist for goroutines, channels and `select`.
- poll/poll.go, xsync/pool.go and the `sync` pool tests are not part of this model. They are timing, concurrency and runtime pooling.
- Generic.Less, Generic.Compare, Generic.Min, Generic.Max, Slices.Max, Slices.Min: Go's `constraints.Ordered` also covers floating point (with NaN, under which `<` is not a total order) and strings. Only `int` is modelled.
- Generic.Equals, Slices.Count, Sets.Set, Maps.ContainsKey, Maps.Map, Maps.MapKeys, Maps.MapValues, Maps.Merge, Maps.MergeFunc, Maps.WithKeys, Maps.WithoutKeys: Go's `comparable` `==` is modelled as Dafny's equality, so only reflexive equality is modelled. For floating-point elements or keys Go's `==` is not reflexive. `Equals(NaN, NaN)` is false and `Count([NaN], NaN)` is 0. Adding NaN to a set twice gives two entries, and `Contains(NaN)` finds neither. The contracts of `Sets.Set.Add`, `Sets.Set.Contains` and the `Maps` methods therefore hold only for types whose `==` is reflexive.
- Callbacks (`f`, `less`) are modelled as total functions without side effects. The one exception is `Slices.ForEach`, whose callback's effect is modelled as an explicit caller state threaded through `f: (T, S) -> S`.
- Slices.Max, Slices.Min: on an empty slice Go returns the zero value of `T` together with `ErrEmpty` (functional/slices/slices.go:83-84, 98-99). The model's `Err(ErrEmpty)` carries no value, so that zero value is not modelled. Callers that check the error never use it.
- Slices.Map: Go writes `result[i]` into a slice allocated with the input's length. The model appends in the same index order, which gives the same slice.
- Maps.Map, Maps.MapKeys: when two source keys produce the same result key, the surviving entry depends on Go's map iteration order. The postconditions say only that some source key produced it, and that a result key produced by a single source key is determined.
- Maps: Go maps are references, but the model uses Dafny `map` values. "The inputs are not mutated" therefore holds by construction, and "the result is freshly allocated" has no counterpart.
- Sets.Set.ForEach: the Go method returns nothing. The model returns the sequence of elements the callback was called on, so that the calls can be described.
- Capacity hints (`NewWithInitialSpace`, `make(..., n)`, `generic.Max` in `Union`) have no observable effect and are ignored. Map and set iteration order is left unspecified by picking the next key with `:|`.
- A nil `Set` (the zero value of the map type) panics on `Add`. The model's sets are always allocated by a constructor.
- Machine-integer widths of the `int` counts returned by `Count`, `CountFunc` and `Size` are not modelled: they are unbounded `nat`.
