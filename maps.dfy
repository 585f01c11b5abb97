/** The `maps` package: functions that build a new map from old ones.
    Go maps are modelled as Dafny `map` values, so an input can never be
    changed by these methods and every result is a new value. A `for range`
    over a map visits the keys in an unspecified order: the loops over a map
    below pick the next key with `:|`, and no postcondition depends on that
    order. Loops over a list of keys walk it in index order. */
module Maps {

  /** `ContainsKey` reports whether `key` has an entry. */
  function ContainsKey<K(==), V>(items: map<K, V>, key: K): (r: bool)
    ensures r <==> key in items.Keys
  {
    key in items
  }

  /** `Map` stores `f(k, v)` as an entry for every entry `(k, v)` of `items`.
      When two keys have images with the same key, which one wins depends on
      the iteration order, so only that some source entry produced it is promised. */
  method Map<K(==), V, RK(==), RV>(items: map<K, V>, f: (K, V) -> (RK, RV)) returns (result: map<RK, RV>)
    ensures forall k :: k in items ==> f(k, items[k]).0 in result
    ensures forall rk :: rk in result ==> exists k :: k in items && f(k, items[k]) == (rk, result[rk])
    ensures forall k :: k in items && (forall k' :: k' in items && f(k', items[k']).0 == f(k, items[k]).0 ==> k' == k)
              ==> result[f(k, items[k]).0] == f(k, items[k]).1
  {
    result := map[];
    var rest := items.Keys;
    while rest != {}
      invariant rest <= items.Keys
      invariant forall k :: k in items && k !in rest ==> f(k, items[k]).0 in result
      invariant forall rk :: rk in result ==> exists k :: k in items && k !in rest && f(k, items[k]) == (rk, result[rk])
      decreases rest
    {
      var k :| k in rest;
      var (retKey, retValue) := f(k, items[k]);
      result := result[retKey := retValue];
      rest := rest - {k};
    }
  }

  /** `MapKeys` re-keys every entry `(k, v)` of `items` as `(f(k), v)`;
      colliding images keep the value of one of their source keys. */
  method MapKeys<K(==), V, RK(==)>(items: map<K, V>, f: K -> RK) returns (result: map<RK, V>)
    ensures forall k :: k in items ==> f(k) in result
    ensures forall rk :: rk in result ==> exists k :: k in items && f(k) == rk && items[k] == result[rk]
    ensures forall k :: k in items && (forall k' :: k' in items && f(k') == f(k) ==> k' == k)
              ==> result[f(k)] == items[k]
  {
    result := map[];
    var rest := items.Keys;
    while rest != {}
      invariant rest <= items.Keys
      invariant forall k :: k in items && k !in rest ==> f(k) in result
      invariant forall rk :: rk in result ==> exists k :: k in items && k !in rest && f(k) == rk && items[k] == result[rk]
      decreases rest
    {
      var k :| k in rest;
      result := result[f(k) := items[k]];
      rest := rest - {k};
    }
  }

  /** `MapValues` keeps every key and maps its value through `f`. */
  method MapValues<K(==), V, RV>(items: map<K, V>, f: V -> RV) returns (result: map<K, RV>)
    ensures result.Keys == items.Keys
    ensures forall k :: k in result ==> result[k] == f(items[k])
  {
    result := map[];
    var rest := items.Keys;
    while rest != {}
      invariant rest <= items.Keys
      invariant result.Keys == items.Keys - rest
      invariant forall k :: k in result ==> result[k] == f(items[k])
      decreases rest
    {
      var k :| k in rest;
      result := result[k := f(items[k])];
      rest := rest - {k};
    }
  }

  /** `Merge`: every key of either map; on a duplicate key `items2` wins. */
  method Merge<K(==), V>(items1: map<K, V>, items2: map<K, V>) returns (result: map<K, V>)
    ensures result.Keys == items1.Keys + items2.Keys
    ensures forall k :: k in items2 ==> result[k] == items2[k]
    ensures forall k :: k in items1 && k !in items2 ==> result[k] == items1[k]
  {
    result := map[];
    var rest := items1.Keys;
    while rest != {}
      invariant rest <= items1.Keys
      invariant result.Keys == items1.Keys - rest
      invariant forall k :: k in result ==> result[k] == items1[k]
      decreases rest
    {
      var k :| k in rest;
      result := result[k := items1[k]];
      rest := rest - {k};
    }
    rest := items2.Keys;
    while rest != {}
      invariant rest <= items2.Keys
      invariant result.Keys == items1.Keys + (items2.Keys - rest)
      invariant forall k :: k in items2 && k !in rest ==> result[k] == items2[k]
      invariant forall k :: k in items1 && (k !in items2 || k in rest) ==> result[k] == items1[k]
      decreases rest
    {
      var k :| k in rest;
      result := result[k := items2[k]];
      rest := rest - {k};
    }
  }

  /** `MergeFunc`: keys of only one map keep that map's value; keys of both
      get `f(k, v1, v2)`. */
  method MergeFunc<K(==), V>(items1: map<K, V>, items2: map<K, V>, f: (K, V, V) -> V) returns (result: map<K, V>)
    ensures result.Keys == items1.Keys + items2.Keys
    ensures forall k :: k in items1 && k !in items2 ==> result[k] == items1[k]
    ensures forall k :: k !in items1 && k in items2 ==> result[k] == items2[k]
    ensures forall k :: k in items1 && k in items2 ==> result[k] == f(k, items1[k], items2[k])
  {
    result := map[];
    var rest := items1.Keys;
    while rest != {}
      invariant rest <= items1.Keys
      invariant result.Keys == items1.Keys - rest
      invariant forall k :: k in result ==> result[k] == items1[k]
      decreases rest
    {
      var k :| k in rest;
      result := result[k := items1[k]];
      rest := rest - {k};
    }
    rest := items2.Keys;
    while rest != {}
      invariant rest <= items2.Keys
      invariant result.Keys == items1.Keys + (items2.Keys - rest)
      invariant forall k :: k in items2 && k !in rest ==>
                  result[k] == if k in items1 then f(k, items1[k], items2[k]) else items2[k]
      invariant forall k :: k in items1 && (k !in items2 || k in rest) ==> result[k] == items1[k]
      decreases rest
    {
      var k :| k in rest;
      var v2 := items2[k];
      if k in items1 {
        v2 := f(k, items1[k], v2);
      }
      result := result[k := v2];
      rest := rest - {k};
    }
  }

  /** `WithKeys`: the entries of `items` whose key is listed in `keys`. */
  method WithKeys<K(==), V>(items: map<K, V>, keys: seq<K>) returns (result: map<K, V>)
    ensures forall k :: k in result <==> k in items && k in keys
    ensures forall k :: k in result ==> result[k] == items[k]
  {
    result := map[];
    for i := 0 to |keys|
      invariant forall k :: k in result <==> k in items && k in keys[..i]
      invariant forall k :: k in result ==> result[k] == items[k]
    {
      var key := keys[i];
      if key in items {
        result := result[key := items[key]];
      }
      assert keys[..i + 1] == keys[..i] + [key];
    }
    assert keys[..|keys|] == keys;
  }

  /** `WithoutKeys`: the entries of `items` whose key is not listed in `keys`;
      the listed keys are first collected into a `skip` set-like map. */
  method WithoutKeys<K(==), V>(items: map<K, V>, keys: seq<K>) returns (result: map<K, V>)
    ensures forall k :: k in result <==> k in items && k !in keys
    ensures forall k :: k in result ==> result[k] == items[k]
  {
    result := map[];
    var skip: map<K, ()> := map[];
    for i := 0 to |keys|
      invariant forall k :: k in skip <==> k in keys[..i]
    {
      skip := skip[keys[i] := ()];
      assert keys[..i + 1] == keys[..i] + [keys[i]];
    }
    assert keys[..|keys|] == keys;
    var rest := items.Keys;
    while rest != {}
      invariant rest <= items.Keys
      invariant forall k :: k in result <==> k in items && k !in rest && k !in skip
      invariant forall k :: k in result ==> result[k] == items[k]
      decreases rest
    {
      var k :| k in rest;
      if !ContainsKey(skip, k) {
        result := result[k := items[k]];
      }
      rest := rest - {k};
    }
  }
}
