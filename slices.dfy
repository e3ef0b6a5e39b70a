/**
 `promMapToSlice`: split a label map into the parallel name and value slices
 that a Prometheus descriptor and its constant metric take. Go visits a map in
 an unspecified order; the model picks each next key with `:|`, so what is
 proved holds of every enumeration.
 */
module PromSlices {

  predicate Distinct<T(==)>(s: seq<T>) {
    forall i, j :: 0 <= i < j < |s| ==> s[i] != s[j]
  }

  /** Zip two parallel slices back into a map, later pairs overriding earlier ones. */
  function Zip<K, V>(keys: seq<K>, vals: seq<V>): (m: map<K, V>)
    requires |keys| == |vals|
    decreases |keys|
  {
    if keys == [] then map[]
    else Zip(keys[..|keys| - 1], vals[..|vals| - 1])[keys[|keys| - 1] := vals[|vals| - 1]]
  }

  /** With distinct keys, the zipped map sends each key to its partner value. */
  lemma {:induction false} ZipLookup<K, V>(keys: seq<K>, vals: seq<V>, i: nat)
    requires |keys| == |vals| && Distinct(keys) && i < |keys|
    ensures keys[i] in Zip(keys, vals) && Zip(keys, vals)[keys[i]] == vals[i]
    decreases |keys|
  {
    var n := |keys|;
    if i < n - 1 {
      ZipLookup(keys[..n - 1], vals[..n - 1], i);
    }
  }

  lemma {:induction false} ZipKeys<K, V>(keys: seq<K>, vals: seq<V>)
    requires |keys| == |vals|
    ensures forall k :: k in Zip(keys, vals) <==> k in keys
    decreases |keys|
  {
    if keys != [] {
      var n := |keys|;
      ZipKeys(keys[..n - 1], vals[..n - 1]);
      assert keys == keys[..n - 1] + [keys[n - 1]];
    }
  }

  lemma ZipSnoc<K, V>(keys: seq<K>, vals: seq<V>, k: K, v: V)
    requires |keys| == |vals|
    ensures Zip(keys + [k], vals + [v]) == Zip(keys, vals)[k := v]
  {
    assert (keys + [k])[..|keys|] == keys && (vals + [v])[..|vals|] == vals;
  }

  lemma RestoreKey<K, V>(m: map<K, V>, rest: set<K>, k: K)
    requires k in rest && k in m
    ensures (m - rest)[k := m[k]] == m - (rest - {k})
  {
  }

  /** The loop of `promMapToSlice`: append each key to one slice and its value
      to the other. Both slices have the map's size, the names are distinct,
      each value sits beside its own key, and zipping them gives the map back. */
  method MapToSlices(m: map<string, string>) returns (names: seq<string>, values: seq<string>)
    ensures |names| == |values| == |m|
    ensures Distinct(names)
    ensures forall k :: k in m <==> k in names
    ensures forall i :: 0 <= i < |names| ==> names[i] in m && values[i] == m[names[i]]
    ensures Zip(names, values) == m
  {
    names, values := [], [];
    var rest := m.Keys;
    while rest != {}
      invariant rest <= m.Keys
      invariant |names| == |values| == |m.Keys| - |rest|
      invariant Distinct(names)
      invariant forall i :: 0 <= i < |names| ==> names[i] in m && names[i] !in rest && values[i] == m[names[i]]
      invariant forall k :: k in m ==> k in rest || k in names
      invariant Zip(names, values) == m - rest
      decreases rest
    {
      var k :| k in rest;
      ZipSnoc(names, values, k, m[k]);
      RestoreKey(m, rest, k);
      names, values := names + [k], values + [m[k]];
      rest := rest - {k};
    }
    assert m - rest == m;
  }
}
