/** Python's `dict(zip(keys, values))`. */
module PyDict {

  function Min(a: int, b: int): int
  {
    if a <= b then a else b
  }

  /** Index `i` holds the last occurrence of its key among the first `n` keys. */
  ghost predicate LastOccurrence<K>(keys: seq<K>, i: int, n: int)
    requires 0 <= i < n <= |keys|
  {
    forall j :: i < j < n ==> keys[j] != keys[i]
  }

  /** `dict(zip(keys, values))`: `zip` stops at the shorter input, and `dict`
      inserts the pairs in order, so a key that repeats keeps its last value.
      The keys are those of the first `min(|keys|, |values|)` pairs, and each
      last occurrence of a key maps to its own value. */
  function DictZip<K(!new), V>(keys: seq<K>, values: seq<V>): (m: map<K, V>)
    ensures forall k :: k in m <==> exists i :: 0 <= i < Min(|keys|, |values|) && keys[i] == k
    ensures forall i :: 0 <= i < Min(|keys|, |values|) && LastOccurrence(keys, i, Min(|keys|, |values|))
              ==> keys[i] in m && m[keys[i]] == values[i]
    decreases |keys|
  {
    var n := Min(|keys|, |values|);
    if n == 0 then map[]
    else
      var prefix := DictZip(keys[..n - 1], values[..n - 1]);
      DictZipStep(keys, values, n, keys[..n - 1], values[..n - 1], prefix);
      prefix[keys[n - 1] := values[n - 1]]
  }

  /** Inserting the `n`-th pair into the dictionary of the first `n - 1` pairs. */
  lemma DictZipStep<K(!new), V>(keys: seq<K>, values: seq<V>, n: int, ks: seq<K>, vs: seq<V>, prefix: map<K, V>)
    requires 1 <= n == Min(|keys|, |values|)
    requires ks == keys[..n - 1] && vs == values[..n - 1]
    requires forall k :: k in prefix <==> exists i :: 0 <= i < n - 1 && ks[i] == k
    requires forall i :: 0 <= i < n - 1 && LastOccurrence(ks, i, n - 1) ==> ks[i] in prefix && prefix[ks[i]] == vs[i]
    ensures var m := prefix[keys[n - 1] := values[n - 1]];
      && (forall k :: k in m <==> exists i :: 0 <= i < n && keys[i] == k)
      && (forall i :: 0 <= i < n && LastOccurrence(keys, i, n) ==> keys[i] in m && m[keys[i]] == values[i])
  {
    DictZipStepKeys(keys, n, ks, prefix, prefix[keys[n - 1] := values[n - 1]]);
    DictZipStepValues(keys, values, n, ks, vs, prefix);
  }

  /** The keys after inserting the `n`-th key. */
  lemma DictZipStepKeys<K(!new), V>(keys: seq<K>, n: int, ks: seq<K>, prefix: map<K, V>, m: map<K, V>)
    requires 1 <= n <= |keys| && ks == keys[..n - 1]
    requires forall k :: k in prefix <==> exists i :: 0 <= i < n - 1 && ks[i] == k
    requires m.Keys == prefix.Keys + {keys[n - 1]}
    ensures forall k :: k in m <==> exists i :: 0 <= i < n && keys[i] == k
  {
    forall k ensures k in m <==> exists i :: 0 <= i < n && keys[i] == k {
      if k in prefix {
        var i :| 0 <= i < n - 1 && ks[i] == k;
        assert keys[i] == k;
      }
      if exists i :: 0 <= i < n && keys[i] == k {
        var i :| 0 <= i < n && keys[i] == k;
        if i < n - 1 {
          assert ks[i] == k;
        }
      }
    }
  }

  /** The values after inserting the `n`-th pair: each last occurrence keeps its value. */
  lemma DictZipStepValues<K(!new), V>(keys: seq<K>, values: seq<V>, n: int, ks: seq<K>, vs: seq<V>, prefix: map<K, V>)
    requires 1 <= n <= |keys| && n <= |values|
    requires ks == keys[..n - 1] && vs == values[..n - 1]
    requires forall i :: 0 <= i < n - 1 && LastOccurrence(ks, i, n - 1) ==> ks[i] in prefix && prefix[ks[i]] == vs[i]
    ensures var m := prefix[keys[n - 1] := values[n - 1]];
      forall i :: 0 <= i < n && LastOccurrence(keys, i, n) ==> keys[i] in m && m[keys[i]] == values[i]
  {
    var m := prefix[keys[n - 1] := values[n - 1]];
    forall i | 0 <= i < n && LastOccurrence(keys, i, n) ensures keys[i] in m && m[keys[i]] == values[i] {
      if i < n - 1 {
        assert keys[i] != keys[n - 1];
        assert LastOccurrence(ks, i, n - 1);
        assert ks[i] == keys[i] && vs[i] == values[i];
      }
    }
  }

  /** When there is a value for every key, the keys are exactly the dictionary's keys. */
  lemma DictZipKeys<K(!new), V>(keys: seq<K>, values: seq<V>)
    requires |keys| <= |values|
    ensures forall k :: k in DictZip(keys, values) <==> k in keys
  {
    forall k ensures k in DictZip(keys, values) <==> k in keys {
      if k in keys {
        var i :| 0 <= i < |keys| && keys[i] == k;
      }
    }
  }

  /** With distinct keys every key of the zipped prefix maps to its own value. */
  lemma DictZipDistinct<K(!new), V>(keys: seq<K>, values: seq<V>, i: int)
    requires forall a, b :: 0 <= a < b < |keys| ==> keys[a] != keys[b]
    requires 0 <= i < Min(|keys|, |values|)
    ensures keys[i] in DictZip(keys, values) && DictZip(keys, values)[keys[i]] == values[i]
  {
    assert LastOccurrence(keys, i, Min(|keys|, |values|));
  }
}
