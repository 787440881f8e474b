/**
 * Insertion-ordered dictionaries, as Python's `dict` and the PDF
 * `Dictionary` types built on it behave: a sequence of entries whose keys
 * are distinct, where assigning to a present key replaces its value in place
 * and assigning to a new key appends an entry.
 */
module Dict {
  import opened Wrappers

  type Entries<K, V> = seq<(K, V)>

  /** The keys, in order. */
  function Keys<K(==), V>(d: Entries<K, V>): (ks: seq<K>)
    ensures |ks| == |d| && forall i :: 0 <= i < |d| ==> ks[i] == d[i].0
  {
    seq(|d|, i requires 0 <= i < |d| => d[i].0)
  }

  /** No key occurs twice. */
  predicate UniqueKeys<K(==), V>(d: Entries<K, V>)
  {
    forall i, j :: 0 <= i < j < |d| ==> d[i].0 != d[j].0
  }

  /** `d[k]`, or None when `k` is not a key. */
  function Lookup<K(==), V>(d: Entries<K, V>, k: K): Option<V>
  {
    if d == [] then None else if d[0].0 == k then Some(d[0].1) else Lookup(d[1..], k)
  }

  /** `d[k] = v`. */
  function Put<K(==), V>(d: Entries<K, V>, k: K, v: V): Entries<K, V>
  {
    if d == [] then [(k, v)]
    else if d[0].0 == k then [(k, v)] + d[1..]
    else [d[0]] + Put(d[1..], k, v)
  }

  /** After `d[k] = v`, `d[k]` is `v`. */
  lemma {:induction false} LookupPut<K, V>(d: Entries<K, V>, k: K, v: V)
    ensures Lookup(Put(d, k, v), k) == Some(v)
  {
    if d != [] && d[0].0 != k {
      LookupPut(d[1..], k, v);
    }
  }

  /** Assigning to `k` leaves every other key's value as it was. */
  lemma {:induction false} LookupPutOther<K, V>(d: Entries<K, V>, k: K, v: V, other: K)
    requires other != k
    ensures Lookup(Put(d, k, v), other) == Lookup(d, other)
  {
    if d != [] && d[0].0 != k {
      LookupPutOther(d[1..], k, v, other);
    }
  }

  /** In a dictionary, looking up the key of an entry finds that entry's value. */
  lemma {:induction false} LookupUnique<K, V>(d: Entries<K, V>, i: nat)
    requires UniqueKeys(d) && i < |d|
    ensures Lookup(d, d[i].0) == Some(d[i].1)
  {
    if i > 0 {
      assert d[0].0 != d[i].0;
      LookupUnique(d[1..], i - 1);
    }
  }

  /** A key that is absent looks up as None. */
  lemma {:induction false} LookupAbsent<K, V>(d: Entries<K, V>, k: K)
    requires k !in Keys(d)
    ensures Lookup(d, k) == None
  {
    if d != [] {
      assert Keys(d[1..]) == Keys(d)[1..];
      LookupAbsent(d[1..], k);
    }
  }

  /** Assigning keeps the keys distinct and adds no key but `k`. */
  lemma {:induction false} PutKeepsKeysUnique<K, V>(d: Entries<K, V>, k: K, v: V)
    requires UniqueKeys(d)
    ensures UniqueKeys(Put(d, k, v))
    ensures forall x :: x in Keys(Put(d, k, v)) <==> x == k || x in Keys(d)
  {
    PutKeys(d, k, v);
    if d != [] {
      var rest := Put(d[1..], k, v);
      if d[0].0 != k {
        assert UniqueKeys(rest) by {
          PutKeepsKeysUnique(d[1..], k, v);
        }
        assert d[0].0 !in Keys(rest) by {
          PutKeys(d[1..], k, v);
          assert d[0].0 !in Keys(d[1..]);
        }
        ConsUnique(d[0], rest);
      } else {
        assert d[0].0 !in Keys(d[1..]);
        ConsUnique((k, v), d[1..]);
      }
    }
  }

  /** The keys after `d[k] = v` are `k` and the keys before. */
  lemma {:induction false} PutKeys<K, V>(d: Entries<K, V>, k: K, v: V)
    ensures forall x :: x in Keys(Put(d, k, v)) <==> x == k || x in Keys(d)
  {
    if d != [] {
      var r := Put(d, k, v);
      assert Keys(d) == [d[0].0] + Keys(d[1..]);
      if d[0].0 != k {
        PutKeys(d[1..], k, v);
        assert Keys(r) == [d[0].0] + Keys(Put(d[1..], k, v));
      } else {
        assert Keys(r) == [k] + Keys(d[1..]);
      }
    } else {
      assert Keys(Put(d, k, v)) == [k];
    }
  }

  /** An entry whose key is new, in front of a dictionary, makes a dictionary. */
  lemma {:induction false} ConsUnique<K, V>(e: (K, V), d: Entries<K, V>)
    requires UniqueKeys(d) && e.0 !in Keys(d)
    ensures UniqueKeys([e] + d)
  {
    var r := [e] + d;
    forall i, j | 0 <= i < j < |r|
      ensures r[i].0 != r[j].0
    {
      if i == 0 {
        assert r[j].0 == Keys(d)[j - 1];
      } else {
        assert r[i] == d[i - 1] && r[j] == d[j - 1];
      }
    }
  }

  /** Assigning to a key that is not present appends one entry at the end. */
  lemma {:induction false} PutAbsent<K, V>(d: Entries<K, V>, k: K, v: V)
    requires k !in Keys(d)
    ensures Put(d, k, v) == d + [(k, v)]
  {
    if d != [] {
      assert Keys(d[1..]) == Keys(d)[1..];
      PutAbsent(d[1..], k, v);
    }
  }
}
