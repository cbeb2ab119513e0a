/**
 * The test utility that orders the data of a metric report by the value of
 * its `dimensions_in_what` field, keeping one record per dimension value.
 *
 * A report's records are values of type `R`; `dim` reads a record's
 * `dimensions_in_what` key, and `less` is the key type's `operator<`.
 */
module MetricSort {
  import opened OrderedIndex

  /** The report being filled: its repeated `data` field, appended to by `add_data`. */
  class MetricData<R> {
    var data: seq<R>

    constructor(data: seq<R>)
      ensures this.data == data
    {
      this.data := data;
    }

    /** `*add_data() = r`: appends one record. */
    method AddData(r: R)
      modifies this
      ensures data == old(data) + [r]
    {
      data := data + [r];
    }
  }

  /** The dimension keys occurring in `data`. */
  ghost function Dims<R, K>(data: seq<R>, dim: R -> K): set<K> {
    if data == [] then {} else Dims(data[..|data| - 1], dim) + {dim(data[|data| - 1])}
  }

  /** A key is in `Dims` exactly when some record has it. */
  lemma {:induction false} DimsMembers<R, K>(data: seq<R>, dim: R -> K, k: K)
    ensures k in Dims(data, dim) <==> exists i :: 0 <= i < |data| && dim(data[i]) == k
  {
    if data != [] {
      var n := |data| - 1;
      DimsMembers(data[..n], dim, k);
      if k in Dims(data[..n], dim) {
        var i :| 0 <= i < n && dim(data[..n][i]) == k;
        assert data[..n][i] == data[i];
      }
      if exists i :: 0 <= i < |data| && dim(data[i]) == k {
        var i :| 0 <= i < |data| && dim(data[i]) == k;
        if i < n { assert data[..n][i] == data[i]; }
      }
    }
  }

  /** The index of the first record of `data` whose key is `k`. */
  ghost function FirstIndex<R, K>(data: seq<R>, dim: R -> K, k: K): (i: nat)
    requires k in Dims(data, dim)
    ensures i < |data| && dim(data[i]) == k
    ensures forall j :: 0 <= j < i ==> dim(data[j]) != k
  {
    var n := |data| - 1;
    var init := data[..n];
    if k in Dims(init, dim) then
      var i := FirstIndex(init, dim, k);
      assert forall j :: 0 <= j <= i ==> init[j] == data[j];
      i
    else
      assert forall j :: 0 <= j < n ==> dim(data[j]) != k by {
        DimsMembers(init, dim, k);
        assert forall j :: 0 <= j < n ==> init[j] == data[j];
      }
      n
  }

  /**
   * The map the first loop builds: every record's index inserted under its
   * key, in input order. Its entries come in strictly ascending key order and
   * its keys are the keys of the input.
   */
  function BuildIndex<R, K(!new)>(data: seq<R>, dim: R -> K, less: (K, K) -> bool): (m: seq<Entry<K>>)
    requires StrictTotalOrder(less)
    ensures Ascending(m, less)
    ensures Keys(m) == Dims(data, dim)
    ensures forall i :: 0 <= i < |m| ==> m[i].index < |data|
  {
    if data == [] then []
    else
      var n := |data| - 1;
      var prev := BuildIndex(data[..n], dim, less);
      var m := Insert(prev, dim(data[n]), n, less);
      InsertKeys(prev, dim(data[n]), n, less);
      forall i | 0 <= i < |m| ensures m[i].index < |data| {
        InsertedEntry(prev, dim(data[n]), n, less, i);
      }
      m
  }

  /** The entry stored at `i` was in the map before an insertion, or is the inserted one. */
  lemma InsertedEntry<K(!new)>(m: seq<Entry<K>>, k: K, v: nat, less: (K, K) -> bool, i: nat)
    requires StrictTotalOrder(less) && Ascending(m, less)
    requires i < |Insert(m, k, v, less)|
    ensures var e := Insert(m, k, v, less)[i];
      (e == Entry(k, v) && k !in Keys(m)) || (exists j :: 0 <= j < |m| && m[j] == e)
  {
    var r := Insert(m, k, v, less);
    var e := r[i];
    InsertKeys(m, k, v, less);
    if k !in Keys(m) {
      InsertEntries(m, k, v, less);
      if e != Entry(k, v) {
        assert e in multiset(r);
        assert e in multiset(m);
      }
    }
  }

  /** Each key is stored with the index of its first occurrence in the input. */
  lemma {:induction false} BuildIndexKeepsFirst<R, K(!new)>(data: seq<R>, dim: R -> K, less: (K, K) -> bool, i: nat)
    requires StrictTotalOrder(less) && i < |BuildIndex(data, dim, less)|
    ensures var e := BuildIndex(data, dim, less)[i];
      e.key in Dims(data, dim) && e.index == FirstIndex(data, dim, e.key)
  {
    var n := |data| - 1;
    var init := data[..n];
    var prev := BuildIndex(init, dim, less);
    var k := dim(data[n]);
    var m := BuildIndex(data, dim, less);
    assert m == Insert(prev, k, n, less);
    KeysMembers(m, m[i].key);
    InsertedEntry(prev, k, n, less, i);
    if m[i] == Entry(k, n) && k !in Keys(prev) {
      assert FirstIndex(data, dim, k) == n;
    } else {
      var j :| 0 <= j < |prev| && prev[j] == m[i];
      BuildIndexKeepsFirst(init, dim, less, j);
      assert FirstIndex(data, dim, prev[j].key) == FirstIndex(init, dim, prev[j].key);
    }
  }

  /** The records the second loop appends: the record at each stored index, in key order. */
  function Gather<R, K>(data: seq<R>, m: seq<Entry<K>>): (out: seq<R>)
    requires forall i :: 0 <= i < |m| ==> m[i].index < |data|
    ensures |out| == |m|
    ensures forall j :: 0 <= j < |m| ==> out[j] == data[m[j].index]
  {
    if m == [] then [] else Gather(data, m[..|m| - 1]) + [data[m[|m| - 1].index]]
  }

  /** One more record extends the index by one insertion. */
  lemma BuildIndexStep<R, K(!new)>(data: seq<R>, dim: R -> K, less: (K, K) -> bool, i: nat)
    requires StrictTotalOrder(less) && i < |data|
    ensures BuildIndex(data[..i + 1], dim, less) == Insert(BuildIndex(data[..i], dim, less), dim(data[i]), i, less)
  {
    assert data[..i + 1][..i] == data[..i];
  }

  /** What `sortMetricDataByDimensionsValue` appends for the input `data`. */
  function SortedByDimensions<R, K(!new)>(data: seq<R>, dim: R -> K, less: (K, K) -> bool): (out: seq<R>)
    requires StrictTotalOrder(less)
    ensures out == [] <==> data == []
  {
    Gather(data, BuildIndex(data, dim, less))
  }

  /** The records' keys strictly increase with their position. */
  ghost predicate KeysAscending<R, K>(data: seq<R>, dim: R -> K, less: (K, K) -> bool) {
    forall i, j :: 0 <= i < j < |data| ==> less(dim(data[i]), dim(data[j]))
  }

  /**
   * The appended records hold exactly one record per distinct key of the
   * input, in strictly ascending key order, each being the first input
   * record with its key.
   */
  lemma SortedByDimensionsSpec<R, K(!new)>(data: seq<R>, dim: R -> K, less: (K, K) -> bool)
    requires StrictTotalOrder(less)
    ensures |SortedByDimensions(data, dim, less)| == |Dims(data, dim)|
    ensures KeysAscending(SortedByDimensions(data, dim, less), dim, less)
    ensures forall k :: k in Dims(data, dim) <==>
      exists j :: 0 <= j < |SortedByDimensions(data, dim, less)| && dim(SortedByDimensions(data, dim, less)[j]) == k
    ensures forall j :: 0 <= j < |SortedByDimensions(data, dim, less)| ==>
      SortedByDimensions(data, dim, less)[j] == data[FirstIndex(data, dim, dim(SortedByDimensions(data, dim, less)[j]))]
  {
    var m := BuildIndex(data, dim, less);
    var out := SortedByDimensions(data, dim, less);
    AscendingKeysCount(m, less);
    forall i, j | 0 <= i < j < |out| ensures less(dim(out[i]), dim(out[j])) {
      BuildIndexKeepsFirst(data, dim, less, i);
      BuildIndexKeepsFirst(data, dim, less, j);
      AscendingPairs(m, less, i, j);
    }
    forall k | k in Dims(data, dim) ensures exists j :: 0 <= j < |out| && dim(out[j]) == k {
      KeysMembers(m, k);
      var j :| 0 <= j < |m| && m[j].key == k;
      BuildIndexKeepsFirst(data, dim, less, j);
    }
    forall j | 0 <= j < |out|
      ensures dim(out[j]) in Dims(data, dim) && out[j] == data[FirstIndex(data, dim, dim(out[j]))]
    {
      BuildIndexKeepsFirst(data, dim, less, j);
    }
  }

  /** Every appended record is an input record, and nothing is appended for an empty input. */
  lemma SortedByDimensionsFromInput<R, K(!new)>(data: seq<R>, dim: R -> K, less: (K, K) -> bool)
    requires StrictTotalOrder(less)
    ensures forall r :: r in SortedByDimensions(data, dim, less) ==> r in data
    ensures SortedByDimensions(data, dim, less) == [] <==> data == []
  {
  }

  /** A prefix of records in strictly ascending key order is in strictly ascending key order. */
  lemma AscendingPrefix<R, K>(data: seq<R>, dim: R -> K, less: (K, K) -> bool, n: nat)
    requires KeysAscending(data, dim, less) && n <= |data|
    ensures KeysAscending(data[..n], dim, less)
  {
    forall i, j | 0 <= i < j < n ensures less(dim(data[..n][i]), dim(data[..n][j])) {
      assert data[..n][i] == data[i] && data[..n][j] == data[j];
    }
  }

  /**
   * When the records are in strictly ascending key order and `prev` indexes
   * all but the last record in place, the last key is above every key of `prev`.
   */
  lemma LastKeyGreatest<R, K>(data: seq<R>, dim: R -> K, less: (K, K) -> bool, prev: seq<Entry<K>>)
    requires KeysAscending(data, dim, less) && data != []
    requires |prev| == |data| - 1
    requires forall i :: 0 <= i < |data| - 1 ==> prev[i] == Entry(dim(data[..|data| - 1][i]), i)
    ensures forall x :: x in Keys(prev) ==> less(x, dim(data[|data| - 1]))
  {
    var n := |data| - 1;
    forall x | x in Keys(prev) ensures less(x, dim(data[n])) {
      KeysMembers(prev, x);
      var i :| 0 <= i < |prev| && prev[i].key == x;
      assert data[..n][i] == data[i];
    }
  }

  /** Records already in strictly ascending key order are indexed each under its own key, in place. */
  lemma {:induction false} BuildIndexOfAscending<R, K(!new)>(data: seq<R>, dim: R -> K, less: (K, K) -> bool)
    requires StrictTotalOrder(less) && KeysAscending(data, dim, less)
    ensures var m := BuildIndex(data, dim, less);
      |m| == |data| && forall i :: 0 <= i < |data| ==> m[i] == Entry(dim(data[i]), i)
  {
    if data != [] {
      var n := |data| - 1;
      var init := data[..n];
      AscendingPrefix(data, dim, less, n);
      BuildIndexOfAscending(init, dim, less);
      var prev := BuildIndex(init, dim, less);
      var k := dim(data[n]);
      LastKeyGreatest(data, dim, less, prev);
      InsertGreatest(prev, k, n, less);
      var m := BuildIndex(data, dim, less);
      assert m == prev + [Entry(k, n)];
      forall i | 0 <= i < n ensures m[i] == Entry(dim(data[i]), i) {
        assert m[i] == prev[i] && init[i] == data[i];
      }
    }
  }

  /** Records already in strictly ascending key order are appended unchanged. */
  lemma SortedOfAscending<R, K(!new)>(data: seq<R>, dim: R -> K, less: (K, K) -> bool)
    requires StrictTotalOrder(less) && KeysAscending(data, dim, less)
    ensures SortedByDimensions(data, dim, less) == data
  {
    BuildIndexOfAscending(data, dim, less);
  }

  /** Sorting a sorted report again changes nothing. */
  lemma SortedByDimensionsIdempotent<R, K(!new)>(data: seq<R>, dim: R -> K, less: (K, K) -> bool)
    requires StrictTotalOrder(less)
    ensures var out := SortedByDimensions(data, dim, less);
      SortedByDimensions(out, dim, less) == out
  {
    SortedByDimensionsSpec(data, dim, less);
    SortedOfAscending(SortedByDimensions(data, dim, less), dim, less);
  }

  /**
   * `sortMetricDataByDimensionsValue(metricData, sortedMetricData)`: indexes
   * the input records by key, keeping the first index of each key, then
   * appends the indexed records to `sortedMetricData` in ascending key order.
   */
  method SortMetricDataByDimensionsValue<R, K(!new)>(
    metricData: seq<R>, dim: R -> K, less: (K, K) -> bool, sortedMetricData: MetricData<R>)
    requires StrictTotalOrder(less)
    modifies sortedMetricData
    ensures sortedMetricData.data == old(sortedMetricData.data) + SortedByDimensions(metricData, dim, less)
  {
    var dimensionIndexMap: seq<Entry<K>> := [];
    for i := 0 to |metricData|
      invariant dimensionIndexMap == BuildIndex(metricData[..i], dim, less)
      invariant sortedMetricData.data == old(sortedMetricData.data)
    {
      BuildIndexStep(metricData, dim, less, i);
      dimensionIndexMap := Insert(dimensionIndexMap, dim(metricData[i]), i, less);
    }
    assert metricData[..|metricData|] == metricData;
    ghost var appended: seq<R> := [];
    for j := 0 to |dimensionIndexMap|
      invariant sortedMetricData.data == old(sortedMetricData.data) + appended
      invariant |appended| == j
      invariant forall k :: 0 <= k < j ==> appended[k] == SortedByDimensions(metricData, dim, less)[k]
    {
      var record := metricData[dimensionIndexMap[j].index];
      sortedMetricData.AddData(record);
      appended := appended + [record];
    }
    assert appended == SortedByDimensions(metricData, dim, less);
  }
}
