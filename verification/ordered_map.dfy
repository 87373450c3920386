/** PHP arrays with string keys: insertion-ordered maps. Assigning to an existing key
    replaces its value in place; assigning to a new key appends it. */
module OrderedMap {
  import opened Base

  function Keys<K, V>(m: seq<(K, V)>): (ks: seq<K>)
    ensures |ks| == |m|
    ensures forall i :: 0 <= i < |m| ==> ks[i] == m[i].0
  {
    if |m| == 0 then [] else [m[0].0] + Keys(m[1..])
  }

  lemma KeysConcat<K, V>(a: seq<(K, V)>, b: seq<(K, V)>)
    ensures Keys(a + b) == Keys(a) + Keys(b)
  {
    assert |Keys(a + b)| == |Keys(a) + Keys(b)|;
  }

  predicate Distinct<K(==)>(ks: seq<K>) {
    forall i, j :: 0 <= i < j < |ks| ==> ks[i] != ks[j]
  }

  /** A well-formed PHP array: no key twice. */
  predicate Valid<K(!new, ==), V>(m: seq<(K, V)>) {
    Distinct(Keys(m))
  }

  /** $m[$k] ?? null */
  function Get<K(!new, ==), V>(m: seq<(K, V)>, k: K): (r: Option<V>)
    ensures r.Some? <==> k in Keys(m)
    ensures r.Some? ==> exists i :: 0 <= i < |m| && m[i] == (k, r.value)
  {
    if |m| == 0 then None
    else if m[0].0 == k then Some(m[0].1)
    else Get(m[1..], k)
  }

  /** $m[$k] = $v; its meaning is stated by PutGet and PutKeys. */
  function Put<K(!new, ==), V>(m: seq<(K, V)>, k: K, v: V): seq<(K, V)>
  {
    if |m| == 0 then [(k, v)]
    else if m[0].0 == k then [(k, v)] + m[1..]
    else [m[0]] + Put(m[1..], k, v)
  }

  /** After the assignment `k` holds `v` and every other key holds what it held. */
  lemma {:induction false} PutGet<K(!new), V>(m: seq<(K, V)>, k: K, v: V, k': K)
    ensures Get(Put(m, k, v), k') == if k' == k then Some(v) else Get(m, k')
  {
    if |m| > 0 && m[0].0 != k {
      PutGet(m[1..], k, v, k');
    }
  }

  /** Assigning to a present key keeps the key order; a new key is appended. */
  lemma {:induction false} PutKeys<K(!new), V>(m: seq<(K, V)>, k: K, v: V)
    ensures Keys(Put(m, k, v)) == if k in Keys(m) then Keys(m) else Keys(m) + [k]
  {
    if |m| > 0 {
      assert Keys(m) == [m[0].0] + Keys(m[1..]);
      if m[0].0 == k {
        assert Keys(Put(m, k, v)) == [k] + Keys(m[1..]);
      } else {
        PutKeys(m[1..], k, v);
        assert Keys(Put(m, k, v)) == [m[0].0] + Keys(Put(m[1..], k, v));
      }
    }
  }

  /** Assignment keeps an array well formed. */
  lemma PutValid<K(!new), V>(m: seq<(K, V)>, k: K, v: V)
    requires Valid(m)
    ensures Valid(Put(m, k, v))
  {
    var ks := Keys(m);
    PutKeys(m, k, v);
    if k !in ks {
      var ks' := ks + [k];
      assert Keys(Put(m, k, v)) == ks';
      forall i, j | 0 <= i < j < |ks'| ensures ks'[i] != ks'[j] {
        if j == |ks| {
          assert ks'[i] == ks[i];
        }
      }
    }
  }

  /** Assigning to an existing key leaves every other entry, and the position of
      every key, as it was. */
  lemma {:induction false} PutExistingInPlace<K(!new), V>(m: seq<(K, V)>, k: K, v: V, i: int)
    requires Valid(m)
    requires 0 <= i < |m| && m[i].0 == k
    ensures |Put(m, k, v)| == |m|
    ensures Put(m, k, v)[i] == (k, v)
    ensures forall j :: 0 <= j < |m| && j != i ==> Put(m, k, v)[j] == m[j]
  {
    if i > 0 {
      assert m[0].0 != m[i].0 by {
        assert Keys(m)[0] != Keys(m)[i];
      }
      var t := m[1..];
      assert Valid(t) by {
        forall a, b | 0 <= a < b < |t| ensures Keys(t)[a] != Keys(t)[b] {
          assert Keys(m)[a + 1] != Keys(m)[b + 1];
        }
      }
      PutExistingInPlace(t, k, v, i - 1);
      assert Put(m, k, v) == [m[0]] + Put(t, k, v);
    }
  }

  /** Assigning to a new key appends exactly that entry. */
  lemma {:induction false} PutAppends<K(!new), V>(m: seq<(K, V)>, k: K, v: V)
    requires forall j :: 0 <= j < |m| ==> m[j].0 != k
    ensures Put(m, k, v) == m + [(k, v)]
  {
    if |m| > 0 {
      var t := m[1..];
      PutAppends(t, k, v);
      assert m + [(k, v)] == [m[0]] + (t + [(k, v)]);
    }
  }
}
