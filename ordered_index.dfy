/**
 * An ordered map from keys to indices, as a `std::map` keeps it: entries in
 * strictly ascending key order under a comparison `less`, two keys being the
 * same entry when neither is less than the other, and `insert` leaving an
 * existing entry untouched.
 */
module OrderedIndex {

  /** `less` is irreflexive, transitive and relates any two distinct keys. */
  ghost predicate StrictTotalOrder<K(!new)>(less: (K, K) -> bool) {
    && (forall a :: !less(a, a))
    && (forall a, b, c :: less(a, b) && less(b, c) ==> less(a, c))
    && (forall a, b :: a != b ==> less(a, b) || less(b, a))
  }

  /** One entry of the map: a key and the index stored under it. */
  datatype Entry<K> = Entry(key: K, index: nat)

  /** The keys of `m`. */
  ghost function Keys<K>(m: seq<Entry<K>>): set<K> {
    if m == [] then {} else {m[0].key} + Keys(m[1..])
  }

  /** A key is in `Keys` exactly when some entry has it. */
  lemma {:induction false} KeysMembers<K>(m: seq<Entry<K>>, x: K)
    ensures x in Keys(m) <==> exists i :: 0 <= i < |m| && m[i].key == x
  {
    if m != [] {
      KeysMembers(m[1..], x);
      if x in Keys(m[1..]) {
        var i :| 0 <= i < |m[1..]| && m[1..][i].key == x;
        assert m[i + 1] == m[1..][i];
      }
      if exists i :: 0 <= i < |m| && m[i].key == x {
        var i :| 0 <= i < |m| && m[i].key == x;
        if i > 0 { assert m[1..][i - 1] == m[i]; }
      }
    }
  }

  /** Each entry's key is strictly less than the next entry's key. */
  ghost predicate Ascending<K>(m: seq<Entry<K>>, less: (K, K) -> bool) {
    |m| < 2 || (less(m[0].key, m[1].key) && Ascending(m[1..], less))
  }

  /** In an ascending map, every key but the first is greater than the first. */
  lemma {:induction false} FirstKeyLeast<K(!new)>(m: seq<Entry<K>>, less: (K, K) -> bool)
    requires StrictTotalOrder(less) && m != [] && Ascending(m, less)
    ensures forall x :: x in Keys(m) ==> x == m[0].key || less(m[0].key, x)
  {
    if |m| > 1 {
      FirstKeyLeast(m[1..], less);
      assert m[1..][0] == m[1];
    }
  }

  /** In an ascending map, keys strictly increase with their position. */
  lemma {:induction false} AscendingPairs<K(!new)>(m: seq<Entry<K>>, less: (K, K) -> bool, i: nat, j: nat)
    requires StrictTotalOrder(less) && Ascending(m, less)
    requires i < j < |m|
    ensures less(m[i].key, m[j].key)
  {
    if 0 < i {
      AscendingPairs(m[1..], less, i - 1, j - 1);
      assert m[1..][i - 1] == m[i] && m[1..][j - 1] == m[j];
    } else if 1 < j {
      AscendingPairs(m[1..], less, 0, j - 1);
      assert m[1..][0] == m[1] && m[1..][j - 1] == m[j];
    }
  }

  /** A strictly ascending map has as many entries as keys. */
  lemma {:induction false} AscendingKeysCount<K(!new)>(m: seq<Entry<K>>, less: (K, K) -> bool)
    requires StrictTotalOrder(less) && Ascending(m, less)
    ensures |Keys(m)| == |m|
  {
    if m != [] {
      var tail := m[1..];
      AscendingKeysCount(tail, less);
      if tail != [] {
        FirstKeyLeast(tail, less);
        assert tail[0] == m[1];
      }
      assert m[0].key !in Keys(tail);
    }
  }

  /**
   * `insert(make_pair(k, v))`: adds the entry `k -> v` in its place in key
   * order when no entry has key `k`; otherwise the map is left as it was.
   * The map stays in strictly ascending key order; `InsertKeys` and
   * `InsertEntries` say what it then holds.
   */
  function Insert<K(!new)>(m: seq<Entry<K>>, k: K, v: nat, less: (K, K) -> bool): (r: seq<Entry<K>>)
    requires StrictTotalOrder(less) && Ascending(m, less)
    ensures Ascending(r, less)
    ensures r != [] && (r[0] == Entry(k, v) || (m != [] && r[0] == m[0]))
  {
    if m == [] then
      [Entry(k, v)]
    else if less(k, m[0].key) then
      [Entry(k, v)] + m
    else if less(m[0].key, k) then
      var rest := Insert(m[1..], k, v, less);
      var r := [m[0]] + rest;
      assert r[1..] == rest;
      r
    else
      m
  }

  /** After an insertion the keys are the old keys and `k`; an existing key leaves the map unchanged. */
  lemma {:induction false} InsertKeys<K(!new)>(m: seq<Entry<K>>, k: K, v: nat, less: (K, K) -> bool)
    requires StrictTotalOrder(less) && Ascending(m, less)
    ensures Keys(Insert(m, k, v, less)) == Keys(m) + {k}
    ensures k in Keys(m) ==> Insert(m, k, v, less) == m
  {
    var r := Insert(m, k, v, less);
    if m == [] {
    } else if less(k, m[0].key) {
      FirstKeyLeast(m, less);
      assert r[1..] == m;
    } else if less(m[0].key, k) {
      InsertKeys(m[1..], k, v, less);
      assert r[1..] == Insert(m[1..], k, v, less);
    } else {
      // Neither key is less than the other, so under a total order they are the same key.
      assert m[0].key == k;
    }
  }

  /** Inserting a new key adds exactly the entry `k -> v`. */
  lemma {:induction false} InsertEntries<K(!new)>(m: seq<Entry<K>>, k: K, v: nat, less: (K, K) -> bool)
    requires StrictTotalOrder(less) && Ascending(m, less) && k !in Keys(m)
    ensures multiset(Insert(m, k, v, less)) == multiset(m) + multiset{Entry(k, v)}
  {
    var r := Insert(m, k, v, less);
    if m != [] && less(m[0].key, k) {
      InsertEntries(m[1..], k, v, less);
      assert r == [m[0]] + Insert(m[1..], k, v, less);
      assert m == [m[0]] + m[1..];
    }
  }

  /** A key greater than every key of the map is inserted at the end. */
  lemma {:induction false} InsertGreatest<K(!new)>(m: seq<Entry<K>>, k: K, v: nat, less: (K, K) -> bool)
    requires StrictTotalOrder(less) && Ascending(m, less)
    requires forall x :: x in Keys(m) ==> less(x, k)
    ensures Insert(m, k, v, less) == m + [Entry(k, v)]
  {
    if m != [] {
      assert m[0].key in Keys(m);
      InsertGreatest(m[1..], k, v, less);
      assert m == [m[0]] + m[1..];
    }
  }
}
