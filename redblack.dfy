/** The `redblack` package as it stands: the node and tree records, the
    constructor, `IsEmpty`, `Size` and the binary-search lookup `Find`.
    Insertion, deletion and rebalancing have no code in the package, so the
    colour tag is stored but no colour invariant is stated. */
module RedBlack {
  import opened Generic

  /** `nodeColor`: `black` is the zero value (iota 0), `red` is 1. */
  datatype NodeColor = Black | Red

  datatype Option<T> = None | Some(value: T)

  class Node<K, V> {
    var key: K
    var value: V
    /** Go's `children [2]*node`, a value array inside the record. */
    var children: seq<Node?<K, V>>
    var parent: Node?<K, V>

    /** The nodes of the subtree rooted here. */
    ghost var Repr: set<Node<K, V>>
    /** The key-value pairs stored in the subtree rooted here. */
    ghost var Contents: map<K, V>

    /** A `node` literal with the given key and value and zero-valued links:
        a leaf with no parent. */
    constructor (key: K, value: V)
      ensures this.key == key && this.value == value
      ensures children == [null, null] && parent == null
      ensures Repr == {this} && Contents == map[key := value]
      ensures forall less: (K, K) -> bool :: Valid(less)
    {
      this.key := key;
      this.value := value;
      this.children := [null, null];
      this.parent := null;
      this.Repr := {this};
      this.Contents := map[key := value];
    }

    /** The subtree rooted here is a finite, acyclic binary tree whose
        children point back to their parent and whose keys are ordered by
        `less`: left-subtree keys before this key, right-subtree keys after. */
    ghost predicate Valid(less: (K, K) -> bool)
      reads this, Repr
      ensures Valid(less) ==> this in Repr && key in Contents
      decreases Repr
    {
      && this in Repr
      && |children| == 2
      && (children[0] != null ==>
            && children[0] in Repr && children[0].Repr <= Repr && this !in children[0].Repr
            && children[0].parent == this
            && children[0].Valid(less)
            && (forall k :: k in children[0].Contents ==> less(k, key)))
      && (children[1] != null ==>
            && children[1] in Repr && children[1].Repr <= Repr && this !in children[1].Repr
            && children[1].parent == this
            && children[1].Valid(less)
            && (forall k :: k in children[1].Contents ==> less(key, k)))
      && (children[0] != null && children[1] != null ==> children[0].Repr !! children[1].Repr)
      && Repr == {this} + SubtreeRepr(children[0]) + SubtreeRepr(children[1])
      && Contents == SubtreeContents(children[0]) + SubtreeContents(children[1]) + map[key := value]
    }
  }

  ghost function SubtreeRepr<K, V>(n: Node?<K, V>): set<Node<K, V>>
    reads n
  {
    if n == null then {} else n.Repr
  }

  ghost function SubtreeContents<K, V>(n: Node?<K, V>): map<K, V>
    reads n
  {
    if n == null then map[] else n.Contents
  }

  class Tree<K(!new), V> {
    var root: Node?<K, V>
    var less: (K, K) -> bool
    /** Go's `uint32` element count. */
    var size: nat
    var color: NodeColor

    /** Every node of the tree. */
    ghost var Nodes: set<Node<K, V>>
    /** The abstract key-value map the tree stores. */
    ghost var Contents: map<K, V>

    ghost predicate Valid()
      reads this, Nodes
    {
      && (root == null ==> Nodes == {} && Contents == map[])
      && (root != null ==>
            && root in Nodes && root.Repr == Nodes
            && root.parent == null
            && root.Valid(less)
            && Contents == root.Contents)
      && size == |Nodes|
    }

    /** `New` returns an empty tree ordered by `less`. */
    constructor New(less: (K, K) -> bool)
      ensures Valid()
      ensures this.less == less
      ensures root == null && Nodes == {} && Contents == map[]
      ensures IsEmpty() && Size() == 0
      ensures color == Black
    {
      this.root := null;
      this.less := less;
      this.size := 0;
      this.color := Black;
      this.Nodes := {};
      this.Contents := map[];
    }

    /** `IsEmpty` tests for a missing root: exactly the tree with no entries. */
    function IsEmpty(): (r: bool)
      requires Valid()
      reads this, Nodes
      ensures r <==> Contents == map[]
      ensures r <==> Size() == 0
    {
      root == null
    }

    /** `Size` is the stored count, which is the number of nodes. */
    function Size(): (r: nat)
      requires Valid()
      reads this, Nodes
      ensures r == |Nodes|
    {
      size
    }

    /** `Find` walks down from the root as `Search` does, so its answer is
        `Search`'s: a value stored under a key equivalent to `key`, or none;
        when `less` is a strict total order, exactly the tree's entry for
        `key`. Without a root it answers at once. */
    method Find(key: K) returns (value: Option<V>, found: bool)
      requires Valid()
      ensures found <==> value.Some?
      ensures value == Search(root, key, less)
      ensures root == null ==> !found
      ensures found ==> exists n :: n in Nodes && !less(key, n.key) && !less(n.key, key) && value.value == n.value
      ensures IsStrictTotalOrder(less) ==> (found <==> key in Contents)
      ensures IsStrictTotalOrder(less) && found ==> value.value == Contents[key]
    {
      if IsStrictTotalOrder(less) && root != null {
        SearchFindsContents(root, key, less);
      }
      if root == null {
        return None, false;
      }
      var node := root;
      while node != null
        invariant node != null ==> node in Nodes && node.Repr <= Nodes && node.Valid(less)
        invariant Search(node, key, less) == Search(root, key, less)
        decreases SubtreeRepr(node)
      {
        var compare := CompareBy(key, node.key, less);
        if compare < 0 {
          node := node.children[0];
        } else if compare > 0 {
          node := node.children[1];
        } else {
          return Some(node.value), true;
        }
      }
      return None, false;
    }
  }

  /** The descent `Find` performs, as a recursive definition: to
      `children[0]` when `key` orders before the node's key, to `children[1]`
      when it orders after, and the node's value when neither. A value it
      returns is stored under a key equivalent to `key`. */
  ghost function Search<K, V>(n: Node?<K, V>, key: K, less: (K, K) -> bool): (r: Option<V>)
    requires n != null ==> n.Valid(less)
    reads if n == null then {} else n.Repr
    ensures r.Some? ==> exists m :: m in SubtreeRepr(n) && !less(key, m.key) && !less(m.key, key) && r.value == m.value
    decreases SubtreeRepr(n)
  {
    if n == null then None
    else if less(key, n.key) then Search(n.children[0], key, less)
    else if less(n.key, key) then Search(n.children[1], key, less)
    else Some(n.value)
  }

  /** Under a strict total order, `Search` finds exactly the entries of the
      subtree: `key` is found iff it is stored, and with its stored value. */
  lemma SearchFindsContents<K(!new), V>(n: Node?<K, V>, key: K, less: (K, K) -> bool)
    requires n != null ==> n.Valid(less)
    requires IsStrictTotalOrder(less)
    ensures Search(n, key, less).Some? <==> key in SubtreeContents(n)
    ensures key in SubtreeContents(n) ==> Search(n, key, less).value == SubtreeContents(n)[key]
    decreases SubtreeRepr(n)
  {
    if n != null {
      if less(key, n.key) || less(n.key, key) {
        DescendStep(n, key, less);
        if less(key, n.key) {
          SearchFindsContents(n.children[0], key, less);
        } else {
          SearchFindsContents(n.children[1], key, less);
        }
      } else {
        assert key == n.key;
      }
    }
  }

  /** One step of the descent: when `key` orders strictly before (after) the
      node's key, it can only be stored in the left (right) subtree, with the
      same value. */
  lemma DescendStep<K(!new), V>(n: Node<K, V>, key: K, less: (K, K) -> bool)
    requires n.Valid(less) && IsStrictTotalOrder(less)
    requires less(key, n.key) || less(n.key, key)
    ensures var c := if less(key, n.key) then n.children[0] else n.children[1];
            && (key in n.Contents <==> key in SubtreeContents(c))
            && (key in n.Contents ==> n.Contents[key] == SubtreeContents(c)[key])
  {
    var nk := n.key;
    assert key != nk;
    if less(key, nk) {
      assert key in SubtreeContents(n.children[1]) ==> less(nk, key);
    } else {
      assert key in SubtreeContents(n.children[0]) ==> less(key, nk);
    }
  }

  /** Under a strict total order the keys of a subtree are pairwise distinct,
      so it stores one entry per node. */
  lemma {:induction false} EntryPerNode<K(!new), V>(n: Node<K, V>, less: (K, K) -> bool)
    requires n.Valid(less) && IsStrictTotalOrder(less)
    ensures |n.Contents.Keys| == |n.Repr|
    decreases n.Repr
  {
    var l, r := n.children[0], n.children[1];
    var lk, rk := SubtreeContents(l).Keys, SubtreeContents(r).Keys;
    var lr, rr := SubtreeRepr(l), SubtreeRepr(r);
    if l != null { EntryPerNode(l, less); }
    if r != null { EntryPerNode(r, less); }
    assert |lk| == |lr| && |rk| == |rr|;
    KeysSplit(n, less);
    CardOfDisjointUnion(lk, rk, n.key);
    assert n !in lr && n !in rr;
    CardOfDisjointUnion(lr, rr, n);
    calc {
      |n.Contents.Keys|;
      |lk + rk + {n.key}|;
      |lk| + |rk| + 1;
      |lr| + |rr| + 1;
      |{n} + lr + rr|;
      |n.Repr|;
    }
  }

  /** The keys of a node's subtree are those of its two subtrees, which share
      none, and its own key, which neither holds. */
  lemma KeysSplit<K(!new), V>(n: Node<K, V>, less: (K, K) -> bool)
    requires n.Valid(less) && IsStrictTotalOrder(less)
    ensures var lk, rk := SubtreeContents(n.children[0]).Keys, SubtreeContents(n.children[1]).Keys;
            && n.Contents.Keys == lk + rk + {n.key}
            && lk !! rk && n.key !in lk && n.key !in rk
  {
    var lk, rk := SubtreeContents(n.children[0]).Keys, SubtreeContents(n.children[1]).Keys;
    SidesDisjoint(lk, rk, n.key, less);
  }

  /** Keys before `pivot` and keys after it under a strict order are
      different from each other and from `pivot`. */
  lemma SidesDisjoint<K(!new)>(before: set<K>, after: set<K>, pivot: K, less: (K, K) -> bool)
    requires IsStrictTotalOrder(less)
    requires forall k :: k in before ==> less(k, pivot)
    requires forall k :: k in after ==> less(pivot, k)
    ensures before !! after && pivot !in before && pivot !in after
  {
  }

  lemma CardOfDisjointUnion<T>(a: set<T>, b: set<T>, x: T)
    requires a !! b && x !in a && x !in b
    ensures |a + b + {x}| == |a| + |b| + 1
    ensures |{x} + a + b| == |a| + |b| + 1
  {
    assert a + b + {x} == {x} + a + b;
  }

  /** Under a strict total order `Size` counts the distinct keys stored. */
  lemma SizeCountsKeys<K(!new), V>(t: Tree<K, V>)
    requires t.Valid() && IsStrictTotalOrder(t.less)
    ensures t.Size() == |t.Contents.Keys|
  {
    if t.root != null {
      EntryPerNode(t.root, t.less);
    }
  }
}
