// A .NET Dictionary<K, V> as the model sees it: an association list in enumeration
// order. Enumeration order of a .NET Dictionary is unspecified; the model fixes it as
// insertion order, with a replaced key keeping its position (the slot that
// `Remove` frees is the one the following `Add` reuses).

module Assoc {
  import opened Types

  type Dict<K, V> = seq<(K, V)>

  function Keys<K(==), V>(d: Dict<K, V>): (ks: seq<K>)
    ensures |ks| == |d|
    ensures forall i :: 0 <= i < |d| ==> ks[i] == d[i].0
  {
    if d == [] then [] else [d[0].0] + Keys(d[1..])
  }

  predicate HasKey<K(==), V>(d: Dict<K, V>, k: K) {
    exists i :: 0 <= i < |d| && d[i].0 == k
  }

  /** No key occurs twice, which every Dictionary guarantees. */
  predicate Unique<K(==), V>(d: Dict<K, V>) {
    forall i, j :: 0 <= i < j < |d| ==> d[i].0 != d[j].0
  }

  /** TryGetValue: the value under the first entry with key k. */
  function Get<K(==), V>(d: Dict<K, V>, k: K): (r: Option<V>)
    ensures r.None? <==> !HasKey(d, k)
  {
    if d == [] then None
    else if d[0].0 == k then Some(d[0].1)
    else
      assert forall i :: 1 <= i < |d| ==> d[i] == d[1..][i - 1];
      Get(d[1..], k)
  }

  /** What Get finds is an entry of the table under that key. */
  lemma {:induction false} GetStored<K, V>(d: Dict<K, V>, k: K)
    ensures Get(d, k).Some? ==> (k, Get(d, k).value) in d
  {
    if d != [] && d[0].0 != k {
      GetStored(d[1..], k);
    }
  }

  /** The value of entry i, when keys are unique, is what Get returns for its key. */
  lemma {:induction false} GetAt<K, V>(d: Dict<K, V>, i: nat)
    requires Unique(d) && i < |d|
    ensures Get(d, d[i].0) == Some(d[i].1)
  {
    if i > 0 {
      GetAt(d[1..], i - 1);
    }
  }

  /** `Remove(k)` when k is present, followed by `Add(k, v)`; plain `Add` otherwise. */
  function Put<K(==), V>(d: Dict<K, V>, k: K, v: V): (r: Dict<K, V>)
    ensures HasKey(d, k) ==> |r| == |d|
    ensures !HasKey(d, k) ==> r == d + [(k, v)]
  {
    if d == [] then [(k, v)]
    else if d[0].0 == k then [(k, v)] + d[1..]
    else
      assert HasKey(d, k) <==> HasKey(d[1..], k) by {
        if HasKey(d[1..], k) {
          var i :| 0 <= i < |d[1..]| && d[1..][i].0 == k;
          assert d[i + 1].0 == k;
        }
      }
      [d[0]] + Put(d[1..], k, v)
  }

  /** Dictionary.Remove: drops the entry with key k, if any. */
  function Remove<K(==), V>(d: Dict<K, V>, k: K): (r: Dict<K, V>)
    ensures |r| <= |d|
    ensures forall i :: 0 <= i < |r| ==> r[i].0 != k
    ensures forall i :: 0 <= i < |r| ==> r[i] in d
  {
    if d == [] then []
    else if d[0].0 == k then Remove(d[1..], k)
    else [d[0]] + Remove(d[1..], k)
  }

  /** Dictionary.Add: fails on a key that is already present. */
  function Add<K(==), V>(d: Dict<K, V>, k: K, v: V): (r: Result<Dict<K, V>>)
    ensures r.Err? <==> HasKey(d, k)
    ensures r.Err? ==> r.error == DuplicateKey
    ensures r.Ok? ==> r.value == d + [(k, v)]
  {
    if HasKey(d, k) then Err(DuplicateKey) else Ok(d + [(k, v)])
  }

  /** Last writer wins: after Put the key reads back the new value. */
  lemma {:induction false} PutGet<K, V>(d: Dict<K, V>, k: K, v: V, k': K)
    ensures Get(Put(d, k, v), k') == if k' == k then Some(v) else Get(d, k')
  {
    if d != [] && d[0].0 != k {
      PutGet(d[1..], k, v, k');
    }
  }

  /** Put adds its key and keeps every other key. */
  lemma {:induction false} PutKeys<K, V>(d: Dict<K, V>, k: K, v: V)
    ensures forall k' :: HasKey(Put(d, k, v), k') <==> k' == k || HasKey(d, k')
  {
    var r := Put(d, k, v);
    if d == [] {
      assert r[0].0 == k;
    } else if d[0].0 == k {
      forall k' ensures HasKey(r, k') <==> k' == k || HasKey(d, k') {
        assert r[0].0 == k;
        if HasKey(d, k') {
          var i :| 0 <= i < |d| && d[i].0 == k';
          assert r[i].0 == k';
        }
        if HasKey(r, k') {
          var i :| 0 <= i < |r| && r[i].0 == k';
          assert i == 0 || d[i].0 == k';
        }
      }
    } else {
      PutKeys(d[1..], k, v);
      var t := Put(d[1..], k, v);
      assert r == [d[0]] + t;
      forall k' ensures HasKey(r, k') <==> k' == k || HasKey(d, k') {
        if HasKey(r, k') {
          var i :| 0 <= i < |r| && r[i].0 == k';
          if i > 0 { assert t[i - 1].0 == k'; }
        }
        if k' == d[0].0 {
          assert r[0].0 == k';
        }
        if HasKey(d, k') && k' != d[0].0 {
          var i :| 0 <= i < |d| && d[i].0 == k';
          assert d[1..][i - 1].0 == k';
        }
        if HasKey(t, k') {
          var i :| 0 <= i < |t| && t[i].0 == k';
          assert r[i + 1].0 == k';
        }
      }
    }
  }

  /** Every entry after Put is the new one or an entry from before. */
  lemma {:induction false} PutEntries<K, V>(d: Dict<K, V>, k: K, v: V)
    ensures forall i :: 0 <= i < |Put(d, k, v)| ==> Put(d, k, v)[i] == (k, v) || Put(d, k, v)[i] in d
  {
    if d != [] && d[0].0 != k {
      PutEntries(d[1..], k, v);
      var t := Put(d[1..], k, v);
      assert Put(d, k, v) == [d[0]] + t;
      assert forall x :: x in d[1..] ==> x in d;
    }
  }

  /** Put keeps keys unique. */
  lemma {:induction false} PutUnique<K, V>(d: Dict<K, V>, k: K, v: V)
    requires Unique(d)
    ensures Unique(Put(d, k, v))
  {
    var r := Put(d, k, v);
    if d != [] && d[0].0 == k {
      assert forall i :: 1 <= i < |r| ==> r[i] == d[i];
    } else if d != [] {
      PutUnique(d[1..], k, v);
      PutKeys(d[1..], k, v);
      var t := Put(d[1..], k, v);
      assert r == [d[0]] + t;
      assert !HasKey(d[1..], d[0].0);
      assert !HasKey(t, d[0].0);
      forall i, j | 0 <= i < j < |r| ensures r[i].0 != r[j].0 {
        if i == 0 {
          assert r[j] == t[j - 1];
        } else {
          assert r[i] == t[i - 1] && r[j] == t[j - 1];
        }
      }
    }
  }

  lemma {:induction false} RemoveGet<K, V>(d: Dict<K, V>, k: K, k': K)
    ensures Get(Remove(d, k), k') == if k' == k then None else Get(d, k')
  {
    if d != [] {
      RemoveGet(d[1..], k, k');
    }
  }

  /** Remove keeps keys unique. */
  lemma {:induction false} RemoveUnique<K, V>(d: Dict<K, V>, k: K)
    requires Unique(d)
    ensures Unique(Remove(d, k))
  {
    if d != [] {
      assert forall i, j :: 0 <= i < j < |d[1..]| ==> d[1..][i] == d[i + 1] && d[1..][j] == d[j + 1];
      RemoveUnique(d[1..], k);
      if d[0].0 != k {
        var t := Remove(d[1..], k);
        var r := [d[0]] + t;
        forall i, j | 0 <= i < j < |r| ensures r[i].0 != r[j].0 {
          if i == 0 {
            var m :| 0 <= m < |d[1..]| && d[1..][m] == t[j - 1];
            assert r[j] == d[m + 1];
          } else {
            assert r[i] == t[i - 1] && r[j] == t[j - 1];
          }
        }
      }
    }
  }

  /** Adding a fresh key to a duplicate-free dictionary keeps it duplicate-free. */
  lemma AppendUnique<K, V>(d: Dict<K, V>, k: K, v: V)
    requires Unique(d) && !HasKey(d, k)
    ensures Unique(d + [(k, v)])
  {
    var r := d + [(k, v)];
    forall i, j | 0 <= i < j < |r| ensures r[i].0 != r[j].0 {
      if j == |d| {
        assert r[i] == d[i];
      }
    }
  }
}
