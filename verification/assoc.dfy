/** PHP arrays with string keys, as the resolver uses them to merge results by name. */
module Assoc {
  import opened Wrappers

  /** The key/value pairs of a PHP array, in insertion order. */
  type Assoc<V> = seq<(string, V)>

  function KeysOf<V>(m: Assoc<V>): seq<string> {
    seq(|m|, i requires 0 <= i < |m| => m[i].0)
  }

  /** No key occurs twice: what every PHP array satisfies. */
  predicate DistinctKeys<V>(m: Assoc<V>) {
    forall i, j :: 0 <= i < j < |m| ==> m[i].0 != m[j].0
  }

  /** `$m[k]`: the value stored under `k`, if any. */
  function Get<V>(m: Assoc<V>, k: string): Option<V> {
    if |m| == 0 then None
    else if m[0].0 == k then Some(m[0].1)
    else Get(m[1..], k)
  }

  /** `$m[k] = v`: overwrite the value in place when `k` is a key, append otherwise. */
  function Put<V>(m: Assoc<V>, k: string, v: V): (r: Assoc<V>)
    ensures Get(r, k) == Some(v)
    ensures forall k' :: k' != k ==> Get(r, k') == Get(m, k')
  {
    if |m| == 0 then [(k, v)]
    else if m[0].0 == k then [(k, v)] + m[1..]
    else [m[0]] + Put(m[1..], k, v)
  }

  /** Where `$m[k] = v` puts the key: in place of an existing one, or at the end. */
  lemma PutKeys<V>(m: Assoc<V>, k: string, v: V)
    ensures forall x :: x in KeysOf(Put(m, k, v)) <==> x in KeysOf(m) || x == k
    ensures k in KeysOf(m) ==> KeysOf(Put(m, k, v)) == KeysOf(m)
    ensures k !in KeysOf(m) ==> Put(m, k, v) == m + [(k, v)]
    ensures DistinctKeys(m) ==> DistinctKeys(Put(m, k, v))
  {
    forall x
      ensures x in KeysOf(Put(m, k, v)) <==> x in KeysOf(m) || x == k
    {
      PutKeyIn(m, k, v, x);
    }
    PutInPlace(m, k, v);
    PutAppends(m, k, v);
    if DistinctKeys(m) {
      PutDistinct(m, k, v);
    }
  }

  /** `x` is a key after `$m[k] = v` exactly when it was one before or is `k`. */
  lemma {:induction false} PutKeyIn<V>(m: Assoc<V>, k: string, v: V, x: string)
    ensures x in KeysOf(Put(m, k, v)) <==> x in KeysOf(m) || x == k
  {
    if |m| > 0 {
      var r := Put(m, k, v);
      assert KeysOf(m) == [m[0].0] + KeysOf(m[1..]);
      if m[0].0 == k {
        assert KeysOf(r) == [k] + KeysOf(m[1..]);
      } else {
        PutKeyIn(m[1..], k, v, x);
        assert KeysOf(r) == [m[0].0] + KeysOf(Put(m[1..], k, v));
      }
    } else {
      assert KeysOf(Put(m, k, v)) == [k];
    }
  }

  lemma {:induction false} PutInPlace<V>(m: Assoc<V>, k: string, v: V)
    ensures k in KeysOf(m) ==> KeysOf(Put(m, k, v)) == KeysOf(m)
  {
    if |m| > 0 && k in KeysOf(m) {
      var r := Put(m, k, v);
      assert KeysOf(m) == [m[0].0] + KeysOf(m[1..]);
      if m[0].0 == k {
        assert KeysOf(r) == [k] + KeysOf(m[1..]);
      } else {
        PutInPlace(m[1..], k, v);
        assert KeysOf(r) == [m[0].0] + KeysOf(Put(m[1..], k, v));
      }
    }
  }

  lemma {:induction false} PutAppends<V>(m: Assoc<V>, k: string, v: V)
    ensures k !in KeysOf(m) ==> Put(m, k, v) == m + [(k, v)]
  {
    if |m| > 0 && k !in KeysOf(m) {
      assert KeysOf(m) == [m[0].0] + KeysOf(m[1..]);
      PutAppends(m[1..], k, v);
      assert m == [m[0]] + m[1..];
      assert [m[0]] + (m[1..] + [(k, v)]) == ([m[0]] + m[1..]) + [(k, v)];
    }
  }

  lemma {:induction false} PutDistinct<V>(m: Assoc<V>, k: string, v: V)
    requires DistinctKeys(m)
    ensures DistinctKeys(Put(m, k, v))
  {
    if |m| > 0 {
      if m[0].0 == k {
        var r := Put(m, k, v);
        assert forall i :: 0 <= i < |m| ==> r[i].0 == m[i].0;
      } else {
        var rest := Put(m[1..], k, v);
        assert DistinctKeys(m[1..]);
        PutDistinct(m[1..], k, v);
        PutKeyIn(m[1..], k, v, m[0].0);
        assert m[0].0 !in KeysOf(m[1..]) by {
          assert forall j :: 0 <= j < |m[1..]| ==> KeysOf(m[1..])[j] == m[j + 1].0;
        }
        ConsDistinct(m[0], rest);
      }
    }
  }

  lemma ConsDistinct<V>(p: (string, V), m: Assoc<V>)
    requires DistinctKeys(m) && p.0 !in KeysOf(m)
    ensures DistinctKeys([p] + m)
  {
    assert forall j :: 0 <= j < |m| ==> KeysOf(m)[j] == m[j].0;
  }

  /** Assign every pair of `kvs` in turn, as a foreach loop of `$m[k] = v` does. */
  function PutAll<V>(m: Assoc<V>, kvs: seq<(string, V)>): Assoc<V>
    decreases |kvs|
  {
    if |kvs| == 0 then m else PutAll(Put(m, kvs[0].0, kvs[0].1), kvs[1..])
  }

  /** The value of the last pair of `kvs` whose key is `k`. */
  function LastValue<V>(kvs: seq<(string, V)>, k: string): Option<V> {
    if |kvs| == 0 then None
    else
      var later := LastValue(kvs[1..], k);
      if later.Some? then later
      else if kvs[0].0 == k then Some(kvs[0].1)
      else None
  }

  /** The value under `k` after assigning `kvs` is the last assigned one, or the
      old value when no pair has key `k`: later assignments win. */
  lemma {:induction false} PutAllGet<V>(m: Assoc<V>, kvs: seq<(string, V)>, k: string)
    ensures Get(PutAll(m, kvs), k) == if LastValue(kvs, k).Some? then LastValue(kvs, k) else Get(m, k)
    decreases |kvs|
  {
    if |kvs| > 0 {
      PutAllGet(Put(m, kvs[0].0, kvs[0].1), kvs[1..], k);
    }
  }

  /** Assignments keep keys unique and add exactly the assigned keys. */
  lemma {:induction false} PutAllKeys<V>(m: Assoc<V>, kvs: seq<(string, V)>, x: string)
    ensures DistinctKeys(m) ==> DistinctKeys(PutAll(m, kvs))
    ensures x in KeysOf(PutAll(m, kvs)) <==> x in KeysOf(m) || x in KeysOf(kvs)
    decreases |kvs|
  {
    if |kvs| > 0 {
      var m' := Put(m, kvs[0].0, kvs[0].1);
      if DistinctKeys(m) {
        PutDistinct(m, kvs[0].0, kvs[0].1);
      }
      PutKeyIn(m, kvs[0].0, kvs[0].1, x);
      PutAllKeys(m', kvs[1..], x);
      assert KeysOf(kvs) == [kvs[0].0] + KeysOf(kvs[1..]);
    }
  }

  /** A key has a last value exactly when some pair carries it. */
  lemma {:induction false} LastValueExists<V>(kvs: seq<(string, V)>, k: string)
    ensures LastValue(kvs, k).Some? <==> k in KeysOf(kvs)
  {
    if |kvs| > 0 {
      LastValueExists(kvs[1..], k);
      assert KeysOf(kvs) == [kvs[0].0] + KeysOf(kvs[1..]);
    }
  }
}
