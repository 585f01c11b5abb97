/** The `set` package: a hash set whose receiver map is shared and changed
    in place. `Set` is a class whose field `elems` is the set of keys of the
    Go map; the methods that change it say so with `modifies this`. The
    order of a `for range` over the map is unspecified: the loops pick the
    next element with `:|`, and no postcondition depends on that order. */
module Sets {
  import Generic

  /** Equal-sized sets of which one includes the other are the same set. */
  lemma SubsetOfSameSize<T>(a: set<T>, b: set<T>)
    requires a <= b && |a| == |b|
    ensures a == b
  {
    assert b == a + (b - a);
    assert |b| == |a| + |b - a|;
  }

  class Set<T(==)> {
    /** The elements: the keys of the Go map. */
    var elems: set<T>

    /** `New` creates an empty set. */
    constructor New()
      ensures elems == {}
    {
      elems := {};
    }

    /** `NewWithInitialSpace`: the capacity hint has no observable effect. */
    constructor NewWithInitialSpace(n: int)
      ensures elems == {}
    {
      elems := {};
    }

    /** `Size` is the number of elements. */
    function Size(): (r: nat)
      reads this
      ensures r == |elems|
    {
      |elems|
    }

    /** `IsEmpty` holds exactly when there are no elements. */
    function IsEmpty(): (r: bool)
      reads this
      ensures r <==> elems == {}
    {
      Size() == 0
    }

    /** `Contains` is membership. */
    function Contains(elem: T): (r: bool)
      reads this
      ensures r <==> elem in elems
    {
      elem in elems
    }

    /** `Equal`: same size, then every element of this set is in `other`. */
    method Equal(other: Set<T>) returns (r: bool)
      ensures r <==> elems == other.elems
    {
      if Size() != other.Size() {
        return false;
      }
      var rest := elems;
      while rest != {}
        invariant rest <= elems
        invariant elems - rest <= other.elems
        decreases rest
      {
        var elem :| elem in rest;
        if !other.Contains(elem) {
          return false;
        }
        rest := rest - {elem};
      }
      SubsetOfSameSize(elems, other.elems);
      return true;
    }

    /** `Clear` deletes every element while ranging over the set. */
    method Clear()
      modifies this
      ensures elems == {}
    {
      while elems != {}
        decreases elems
      {
        var elem :| elem in elems;
        elems := elems - {elem};
      }
    }

    /** `Clone` copies the elements into a new set, which is a different
        object, so later changes to either do not reach the other. */
    method Clone() returns (cloned: Set<T>)
      ensures fresh(cloned)
      ensures cloned.elems == elems
    {
      cloned := new Set.NewWithInitialSpace(Size());
      cloned.AddEach(elems);
    }

    /** `ContainsAll`: every argument is an element (true for none). */
    method ContainsAll(items: seq<T>) returns (r: bool)
      ensures r <==> forall i :: 0 <= i < |items| ==> items[i] in elems
    {
      for i := 0 to |items|
        invariant forall j :: 0 <= j < i ==> items[j] in elems
      {
        if !Contains(items[i]) {
          return false;
        }
      }
      return true;
    }

    /** `ContainsAny`: some argument is an element (false for none). */
    method ContainsAny(items: seq<T>) returns (r: bool)
      ensures r <==> exists i :: 0 <= i < |items| && items[i] in elems
    {
      for i := 0 to |items|
        invariant forall j :: 0 <= j < i ==> items[j] !in elems
      {
        if Contains(items[i]) {
          return true;
        }
      }
      return false;
    }

    /** `ForEach` calls `f` on the elements, in some order, until it returns
        false. The result is the sequence of elements `f` was called on. */
    method ForEach(f: T -> bool) returns (visited: seq<T>)
      ensures forall i, j :: 0 <= i < j < |visited| ==> visited[i] != visited[j]
      ensures forall i :: 0 <= i < |visited| ==> visited[i] in elems
      ensures forall i :: 0 <= i < |visited| - 1 ==> f(visited[i])
      ensures (forall i :: 0 <= i < |visited| ==> f(visited[i])) ==> forall x :: x in elems ==> x in visited
    {
      visited := [];
      var rest := elems;
      while rest != {}
        invariant rest <= elems
        invariant forall x :: x in visited <==> x in elems && x !in rest
        invariant forall i, j :: 0 <= i < j < |visited| ==> visited[i] != visited[j]
        invariant forall i :: 0 <= i < |visited| ==> f(visited[i])
        decreases rest
      {
        var elem :| elem in rest;
        visited := visited + [elem];
        if !f(elem) {
          assert visited[|visited| - 1] == elem;
          return;
        }
        rest := rest - {elem};
      }
    }

    /** `Add` inserts `elem`; the size grows by one exactly when it was absent. */
    method Add(elem: T)
      modifies this
      ensures elems == old(elems) + {elem}
      ensures Size() == old(Size()) + (if elem in old(elems) then 0 else 1)
    {
      ghost var before := elems;
      elems := elems + {elem};
      if elem in before {
        assert elems == before;
      }
    }

    /** `AddAll` adds every argument. */
    method AddAll(items: seq<T>)
      modifies this
      ensures elems == old(elems) + set x | x in items
    {
      for i := 0 to |items|
        invariant elems == old(elems) + set x | x in items[..i]
      {
        assert items[..i + 1] == items[..i] + [items[i]];
        Add(items[i]);
      }
      assert items[..|items|] == items;
    }

    /** `Remove` deletes `elem`; removing an absent element changes nothing. */
    method Remove(elem: T)
      modifies this
      ensures elems == old(elems) - {elem}
      ensures elem !in old(elems) ==> elems == old(elems)
    {
      elems := elems - {elem};
    }

    /** `RemoveAll` removes every argument. */
    method RemoveAll(items: seq<T>)
      modifies this
      ensures elems == old(elems) - set x | x in items
    {
      for i := 0 to |items|
        invariant elems == old(elems) - set x | x in items[..i]
      {
        assert items[..i + 1] == items[..i] + [items[i]];
        Remove(items[i]);
      }
      assert items[..|items|] == items;
    }

    /** `Intersect` ranges over the smaller of the two sets. */
    method Intersect(other: Set<T>) returns (result: Set<T>)
      ensures fresh(result)
      ensures result.elems == elems * other.elems
    {
      if Size() < other.Size() {
        result := IntersectFrom(this, other);
      } else {
        result := IntersectFrom(other, this);
      }
    }

    /** `Union` adds the elements of both sets to a new set. */
    method Union(other: Set<T>) returns (result: Set<T>)
      ensures fresh(result)
      ensures result.elems == elems + other.elems
    {
      result := new Set.NewWithInitialSpace(Generic.Max(Size(), other.Size()));
      result.AddEach(elems);
      result.AddEach(other.elems);
    }

    /** Adds every element of `from`, in some order: the fill loop that
        `Clone` and `Union` run on the set they build. */
    method AddEach(from: set<T>)
      modifies this
      ensures elems == old(elems) + from
    {
      var rest := from;
      while rest != {}
        invariant rest <= from
        invariant elems == old(elems) + (from - rest)
        decreases rest
      {
        var elem :| elem in rest;
        Add(elem);
        rest := rest - {elem};
      }
    }

    /** `ToSlice` lists every element exactly once, in some order. */
    method ToSlice() returns (items: seq<T>)
      ensures |items| == Size()
      ensures forall i, j :: 0 <= i < j < |items| ==> items[i] != items[j]
      ensures forall x :: x in items <==> x in elems
    {
      items := [];
      var rest := elems;
      while rest != {}
        invariant rest <= elems
        invariant |items| + |rest| == |elems|
        invariant forall x :: x in items <==> x in elems && x !in rest
        invariant forall i, j :: 0 <= i < j < |items| ==> items[i] != items[j]
        decreases rest
      {
        var elem :| elem in rest;
        items := items + [elem];
        rest := rest - {elem};
      }
    }
  }

  /** The package's `intersect`: the elements of `s1` that `s2` contains. */
  method IntersectFrom<T(==)>(s1: Set<T>, s2: Set<T>) returns (result: Set<T>)
    ensures fresh(result)
    ensures result.elems == s1.elems * s2.elems
  {
    result := new Set.New();
    var rest := s1.elems;
    while rest != {}
      invariant rest <= s1.elems
      invariant result.elems == (s1.elems - rest) * s2.elems
      decreases rest
    {
      var elem :| elem in rest;
      if s2.Contains(elem) {
        result.Add(elem);
      }
      rest := rest - {elem};
    }
  }
}
