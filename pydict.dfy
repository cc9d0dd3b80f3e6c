/**
  A Python `dict` as the sequence of its entries, in insertion order: the
  iteration order of Python 3.7 and later. Python 2 leaves that order unspecified;
  the lookups hold in any order. Assigning to a present key keeps its position;
  assigning a new key appends it.
 */
module PyDict {
  import opened Common

  type Dict<K, V> = seq<(K, V)>

  function Keys<K, V>(d: Dict<K, V>): seq<K>
  {
    if d == [] then [] else [d[0].0] + Keys(d[1..])
  }

  predicate Distinct<T(==)>(s: seq<T>)
  {
    forall i, j :: 0 <= i < j < |s| ==> s[i] != s[j]
  }

  /** A dict never holds the same key twice. */
  predicate UniqueKeys<K(==), V>(d: Dict<K, V>)
  {
    Distinct(Keys(d))
  }

  /** `d.get(k)` */
  function Lookup<K(==), V>(d: Dict<K, V>, k: K): Option<V>
  {
    if d == [] then None
    else if d[0].0 == k then Some(d[0].1)
    else Lookup(d[1..], k)
  }

  /** `d[k] = v` */
  function Put<K(==), V>(d: Dict<K, V>, k: K, v: V): (r: Dict<K, V>)
    ensures Lookup(r, k) == Some(v)
  {
    if d == [] then [(k, v)]
    else if d[0].0 == k then [(k, v)] + d[1..]
    else
      var r := [d[0]] + Put(d[1..], k, v);
      assert r[0] == d[0] && r[1..] == Put(d[1..], k, v);
      r
  }

  /** `d.update(e)`: assigns e's entries one by one, in e's order. */
  function Update<K(==), V>(d: Dict<K, V>, e: Dict<K, V>): (r: Dict<K, V>)
    ensures e != [] ==> Lookup(r, e[|e| - 1].0) == Some(e[|e| - 1].1)
    decreases |e|
  {
    if e == [] then d else Update(Put(d, e[0].0, e[0].1), e[1..])
  }

  lemma {:induction false} KeysConcat<K, V>(a: Dict<K, V>, b: Dict<K, V>)
    ensures Keys(a + b) == Keys(a) + Keys(b)
  {
    if a == [] {
      assert a + b == b;
    } else {
      assert (a + b)[1..] == a[1..] + b;
      KeysConcat(a[1..], b);
    }
  }

  /** A key is looked up in the first part of a concatenation before the second. */
  lemma {:induction false} LookupConcat<K, V>(a: Dict<K, V>, b: Dict<K, V>, k: K)
    ensures Lookup(a + b, k) == if Lookup(a, k).Some? then Lookup(a, k) else Lookup(b, k)
  {
    if a == [] {
      assert a + b == b;
    } else {
      assert (a + b)[0] == a[0] && (a + b)[1..] == a[1..] + b;
      LookupConcat(a[1..], b, k);
    }
  }

  lemma {:induction false} LookupFindsKeys<K, V>(d: Dict<K, V>, k: K)
    ensures Lookup(d, k).Some? <==> k in Keys(d)
  {
    if d != [] {
      LookupFindsKeys(d[1..], k);
    }
  }

  /** After `d[k] = v`, k maps to v and every other key to what it mapped to before. */
  lemma {:induction false} PutLookup<K, V>(d: Dict<K, V>, k: K, v: V, j: K)
    ensures Lookup(Put(d, k, v), j) == if j == k then Some(v) else Lookup(d, j)
  {
    if d != [] && d[0].0 != k {
      PutLookup(d[1..], k, v, j);
    }
  }

  /** `d[k] = v` keeps the key order of d when k is present and appends k otherwise. */
  lemma {:induction false} PutKeys<K, V>(d: Dict<K, V>, k: K, v: V)
    ensures Keys(Put(d, k, v)) == if k in Keys(d) then Keys(d) else Keys(d) + [k]
  {
    if d != [] && d[0].0 != k {
      PutKeys(d[1..], k, v);
    }
  }

  /** Assigning an absent key appends the new entry at the end. */
  lemma {:induction false} PutAbsent<K, V>(d: Dict<K, V>, k: K, v: V)
    requires k !in Keys(d)
    ensures Put(d, k, v) == d + [(k, v)]
  {
    if d != [] {
      assert d[0].0 in Keys(d);
      PutAbsent(d[1..], k, v);
      assert d == [d[0]] + d[1..];
    }
  }

  lemma PutUnique<K, V>(d: Dict<K, V>, k: K, v: V)
    requires UniqueKeys(d)
    ensures UniqueKeys(Put(d, k, v))
  {
    PutKeys(d, k, v);
  }

  /** Updating with two entries assigns them in turn. */
  lemma UpdatePair<K, V>(d: Dict<K, V>, e: Dict<K, V>)
    requires |e| == 2
    ensures Update(d, e) == Put(Put(d, e[0].0, e[0].1), e[1].0, e[1].1)
  {
    var d1 := Put(d, e[0].0, e[0].1);
    assert Update(d, e) == Update(d1, e[1..]);
    assert e[1..][0] == e[1] && e[1..][1..] == [];
    assert Update(d1, e[1..]) == Update(Put(d1, e[1].0, e[1].1), []);
  }

  /** Updating with two new, different keys appends both entries. */
  lemma UpdateAbsentPair<K, V>(d: Dict<K, V>, e: Dict<K, V>)
    requires |e| == 2 && e[0].0 != e[1].0
    requires UniqueKeys(d) && e[0].0 !in Keys(d) && e[1].0 !in Keys(d)
    ensures Update(d, e) == d + e
    ensures Keys(d + e) == Keys(d) + [e[0].0, e[1].0]
    ensures UniqueKeys(d + e)
  {
    var first := d + [e[0]];
    assert Put(d, e[0].0, e[0].1) == first by {
      PutAbsent(d, e[0].0, e[0].1);
    }
    assert UniqueKeys(first) && Keys(first) == Keys(d) + [e[0].0] by {
      PutUnique(d, e[0].0, e[0].1);
      PutKeys(d, e[0].0, e[0].1);
    }
    assert Put(first, e[1].0, e[1].1) == d + e by {
      PutAbsent(first, e[1].0, e[1].1);
      assert e == [e[0]] + [e[1]];
    }
    assert UniqueKeys(d + e) && Keys(d + e) == Keys(first) + [e[1].0] by {
      PutUnique(first, e[1].0, e[1].1);
      PutKeys(first, e[1].0, e[1].1);
    }
    UpdatePair(d, e);
  }

  /** The first key of a dict with distinct keys is not among the rest, which stay distinct. */
  lemma UniqueTail<K, V>(e: Dict<K, V>)
    requires e != [] && UniqueKeys(e)
    ensures UniqueKeys(e[1..]) && e[0].0 !in Keys(e[1..])
  {
    assert Keys(e) == [e[0].0] + Keys(e[1..]);
    forall a, b | 0 <= a < b < |Keys(e[1..])|
      ensures Keys(e[1..])[a] != Keys(e[1..])[b]
    {
      assert Keys(e[1..])[a] == Keys(e)[a + 1];
      assert Keys(e[1..])[b] == Keys(e)[b + 1];
    }
    forall a | 0 <= a < |Keys(e[1..])|
      ensures Keys(e[1..])[a] != e[0].0
    {
      assert Keys(e[1..])[a] == Keys(e)[a + 1] != Keys(e)[0] == e[0].0;
    }
  }

  /**
    After `d.update(e)` a key of e maps to its value in e and any other key keeps
    its value in d; the keys of d are still distinct.
   */
  lemma {:induction false} UpdateLookup<K, V>(d: Dict<K, V>, e: Dict<K, V>, j: K)
    requires UniqueKeys(d) && UniqueKeys(e)
    ensures UniqueKeys(Update(d, e))
    ensures Lookup(Update(d, e), j) == if Lookup(e, j).Some? then Lookup(e, j) else Lookup(d, j)
    decreases |e|
  {
    if e != [] {
      var d' := Put(d, e[0].0, e[0].1);
      PutUnique(d, e[0].0, e[0].1);
      PutLookup(d, e[0].0, e[0].1, j);
      UniqueTail(e);
      LookupFindsKeys(e[1..], j);
      UpdateLookup(d', e[1..], j);
    }
  }
}
