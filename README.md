# Duration tracker base state and dimension-ordered metric reports

This project models two pieces of the StatsD metrics daemon in Dafny.

**The duration tracker base class** (`DurationTracker.h`) holds the following:

- the three duration states and their declared values;
- the per-duration `DurationInfo` record and its defaults;
- the `DurationBucket` record;
- the state every tracker variant shares:
  - its name, event key, condition index, bucket size and nesting flag;
  - the current bucket's start time, recorded duration and number;
  - the list of attached anomaly trackers;
- five protected helpers. Each walks the anomaly-tracker list in order, skips null entries, and forwards one call, carrying the event key and the helper's arguments.

`DurationTracking.DurationTracker` is a class with those fields. Anomaly trackers are opaque handles (`Option<Handle>`, where `None` is a null pointer). Every call made on a handle is appended to a ghost trace `issued`. Each helper's contract gives the exact calls it appends:

- `Fanout(trackers, call)` is the sequence a null-skipping loop issues;
- `PositionsOfNonNull`, `FanoutCalls`, `FanoutEmpty` and `HelperCalls` say what that sequence is, handle by handle.

The helpers modify only `issued`, so the bucket fields, the event key and the tracker list are left unchanged by the frame.

The constructor stores the `uint64_t` bucket size in an `int64_t` field. The model performs that narrowing explicitly, as a two's-complement reinterpretation (`MachineInts.ToInt64`). A value of 2^63 or more therefore becomes negative. It is not excluded by a precondition, since the constructor accepts any value.

**The test utility `sortMetricDataByDimensionsValue`** (`statsd_test_util.h`) works in two loops:

1. It indexes a report's records by their `dimensions_in_what` key in a `std::map`, through `insert`.
2. It appends the indexed records to another report in key order.

The map is modelled as a strictly ascending association list (`OrderedIndex`). Its `Insert` has the semantics of `std::map::insert`:

- two keys are the same entry when neither is less than the other;
- an existing entry is never overwritten.

The key type's `operator<` is a parameter `less`. `std::map` only requires a strict weak order of its comparator, and `insert` treats keys that neither compare less as one entry. The model's key type `K` therefore stands for those equivalence classes of `HashableDimensionKey`. On `K`, `less` is required to be a strict total order. The records are a sequence; `dim` reads a record's key. The output report is a class `MetricData` whose `AddData` appends one record.

The method is proved equal to the appended sequence `SortedByDimensions`. Lemmas characterise that sequence independently of the map:

- it holds one record per distinct key;
- its keys are in strictly ascending order;
- for each key, it holds the input's first record with that key;
- every record comes from the input;
- an empty input appends nothing;
- sorting again changes nothing.

## Model

| member | source | states |
|---|---|---|
| DurationTracking.StateValue | bin/src/metrics/duration_helper/DurationTracker.h:29-34 | each state's declared value is in 0..2: Stopped is 0, Started is 1, Paused is 2 |
| DurationTracking.StateOfValue | bin/src/metrics/duration_helper/DurationTracker.h:29-34 | a value names a state exactly when it is 0, 1 or 2 |
| DurationTracking.StateValueRoundTrip | bin/src/metrics/duration_helper/DurationTracker.h:29-34 | the declared values are distinct and each identifies its state (both directions) |
| DurationTracking.DefaultDurationInfo | bin/src/metrics/duration_helper/DurationTracker.h:37-52 | a default `DurationInfo` is stopped (not on-going), with start count, last start time and last duration 0 and no condition keys |
| DurationTracking.FlushResultOfStates | bin/src/metrics/duration_helper/DurationTracker.h:90-94 | the documented flush result may be true exactly when every held duration is stopped, so a paused duration counts as on-going; a tracker whose durations all carry default information may be removed |
| DurationTracking.DurationBucket | bin/src/metrics/duration_helper/DurationTracker.h:54-59 | a bucket record: the four `uint64_t` fields start, end, duration and bucket number, in declaration order |
| DurationTracking.FlushResultAllowed | bin/src/metrics/duration_helper/DurationTracker.h:90-94 | the doc-comment contract of `flushIfNeeded`: the result is true exactly when no held duration is started or paused |
| DurationTracking.NonNull | bin/src/metrics/duration_helper/DurationTracker.h:103-104 | the non-null handles are no more than the entries |
| DurationTracking.Fanout | bin/src/metrics/duration_helper/DurationTracker.h:103-107 | a null-skipping loop issues one call per non-null handle |
| DurationTracking.PositionsOfNonNull | bin/src/metrics/duration_helper/DurationTracker.h:103-104 | non-null entries are visited once each, in increasing position, every one of them, with the handle found there |
| DurationTracking.FanoutCalls | bin/src/metrics/duration_helper/DurationTracker.h:103-107 | the k-th call goes to the k-th non-null handle with the call built for that handle |
| DurationTracking.FanoutEmpty | bin/src/metrics/duration_helper/DurationTracker.h:112-118 | no call is issued exactly when every entry is null, including for an empty list |
| DurationTracking.HelperCalls | bin/src/metrics/duration_helper/DurationTracker.h:102-144 | each helper's k-th call goes to the k-th non-null handle and carries the event key and the helper's arguments unchanged; the start call carries the prediction for that handle and time |
| DurationTracking.DurationTracker.constructor | bin/src/metrics/duration_helper/DurationTracker.h:63-77 | the fields equal the arguments, duration and bucket number are 0, no call is issued; the bucket size is the int64 reinterpretation of the argument, equal to it below 2^63 |
| DurationTracking.DurationTracker.StartAnomalyAlarm | bin/src/metrics/duration_helper/DurationTracker.h:102-109 | appends exactly `startAlarm(eventKey, predict(h, eventTime))` for each non-null handle h, in list order; changes nothing else |
| DurationTracking.DurationTracker.StopAnomalyAlarm | bin/src/metrics/duration_helper/DurationTracker.h:112-118 | appends exactly `stopAlarm(eventKey)` for each non-null handle, in order; changes nothing else |
| DurationTracking.DurationTracker.AddPastBucketToAnomalyTrackers | bin/src/metrics/duration_helper/DurationTracker.h:120-126 | appends exactly `addPastBucket(eventKey, bucketValue, bucketNum)` for each non-null handle, in order; changes nothing else |
| DurationTracking.DurationTracker.DetectAndDeclareAnomaly | bin/src/metrics/duration_helper/DurationTracker.h:128-136 | appends exactly `detectAndDeclareAnomaly(timestamp, currBucketNum, eventKey, currentBucketValue)` for each non-null handle, in order; changes nothing else |
| DurationTracking.DurationTracker.DeclareAnomalyIfAlarmExpired | bin/src/metrics/duration_helper/DurationTracker.h:138-144 | appends exactly `declareAnomalyIfAlarmExpired(eventKey, timestamp)` for each non-null handle, in order; changes nothing else |
| MachineInts.ToInt64 | bin/src/metrics/duration_helper/DurationTracker.h:72 | the stored bucket size agrees with the argument modulo 2^64 and is non-negative exactly when the argument is below 2^63 |
| MachineInts.ToInt64Exact | bin/src/metrics/duration_helper/DurationTracker.h:156 | the stored bucket size equals the argument exactly when the argument is below 2^63 |
| OrderedIndex.KeysMembers | bin/tests/statsd_test_util.h:139 | a key is in the map exactly when some entry has it |
| OrderedIndex.FirstKeyLeast | bin/tests/statsd_test_util.h:139 | in an ascending map every other key is greater than the first |
| OrderedIndex.AscendingPairs | bin/tests/statsd_test_util.h:143 | iterating the map visits keys in strictly increasing order |
| OrderedIndex.AscendingKeysCount | bin/tests/statsd_test_util.h:139 | the map has one entry per key |
| OrderedIndex.Insert | bin/tests/statsd_test_util.h:141 | insertion keeps the entries in strictly ascending key order and places the new entry first or keeps the old first |
| OrderedIndex.InsertKeys | bin/tests/statsd_test_util.h:141 | after an insertion the keys are the old keys plus the inserted key; inserting a present key leaves the map unchanged |
| OrderedIndex.InsertEntries | bin/tests/statsd_test_util.h:141 | inserting an absent key adds exactly that one entry and keeps every other |
| OrderedIndex.InsertGreatest | bin/tests/statsd_test_util.h:141 | a key above all present keys is inserted at the end |
| MetricSort.MetricData.constructor | bin/tests/statsd_test_util.h:138 | the report holds the given records |
| MetricSort.MetricData.AddData | bin/tests/statsd_test_util.h:144 | `add_data` appends one record and keeps the existing ones |
| MetricSort.DimsMembers | bin/tests/statsd_test_util.h:140-141 | a key occurs in the input exactly when some record has it |
| MetricSort.FirstIndex | bin/tests/statsd_test_util.h:141 | the first index of a key holds that key and no earlier record does |
| MetricSort.BuildIndex | bin/tests/statsd_test_util.h:139-142 | the filled map is ascending, its keys are exactly the input's keys, and its indices are valid input positions |
| MetricSort.InsertedEntry | bin/tests/statsd_test_util.h:141 | each entry after an insertion was already there or is the new entry for an absent key |
| MetricSort.BuildIndexKeepsFirst | bin/tests/statsd_test_util.h:141 | every key is stored with the index of its first occurrence, because insert never overwrites |
| MetricSort.Gather | bin/tests/statsd_test_util.h:143-145 | the appended records are, entry by entry, the input records at the stored indices |
| MetricSort.SortedByDimensions | bin/tests/statsd_test_util.h:139-145 | the records the function appends: the input record at each index of the filled map, in map order; nothing exactly when the input is empty |
| MetricSort.BuildIndexStep | bin/tests/statsd_test_util.h:140-141 | one more loop iteration performs one more insertion of the next record's key and index |
| MetricSort.SortedByDimensionsSpec | bin/tests/statsd_test_util.h:139-145 | the output has one record per distinct key, keys in strictly ascending order, every input key present, and each record is the first input record with its key |
| MetricSort.SortedByDimensionsFromInput | bin/tests/statsd_test_util.h:140-145 | every appended record is an input record; nothing is appended exactly when the input is empty |
| MetricSort.BuildIndexOfAscending | bin/tests/statsd_test_util.h:139-142 | records already in ascending key order are each indexed under their own key at their own position |
| MetricSort.SortedOfAscending | bin/tests/statsd_test_util.h:137-146 | records already in ascending key order are appended unchanged |
| MetricSort.SortedByDimensionsIdempotent | bin/tests/statsd_test_util.h:137-146 | sorting a sorted report again gives the same records |
| MetricSort.SortMetricDataByDimensionsValue | bin/tests/statsd_test_util.h:137-146 | the target report keeps its records and gains exactly the sorted records of the input; the input is a value and is not changed |

## Left out

- `noteStart`, `noteStop`, `noteStopAll`, `onSlicedConditionMayChange`, `onConditionChanged` and `flushIfNeeded` (DurationTracker.h:81-94) are pure virtual. Their bodies belong to the concrete tracker variants, which are not part of this model. Only the documented `flushIfNeeded` result is stated, as `FlushResultAllowed` over a map of `DurationInfo`.
- `predictAnomalyTimestampNs` (DurationTracker.h:97-98) is pure virtual. `StartAnomalyAlarm` receives it as the function parameter `predict`, standing for the variant's prediction in its state at the time of the call. How a variant computes it is not modelled.
- `AnomalyTracker` internals (alarm scheduling, threshold detection, past-bucket history) are foreign calls. The model records each call in the trace and does not model what the call does.
- `ConditionWizard`, `ConfigKey` and `sp<>` reference counting are external collaborators and lifetime plumbing. The fields `mConfigKey` and `mWizard` are not modelled.
- `ConditionKey` and `HashableDimensionKey` are defined in `stats_util.h`, which is not part of this model. The event key is a type parameter, and `ConditionKey` is a map from condition id to key.
- The `FRIEND_TEST` declarations (DurationTracker.h:168-169) only grant test visibility.
- The other helpers declared in `statsd_test_util.h` (matcher, predicate, event and processor builders, `sortLogEventsByTimestamp`, `StringToId`, `Validate*`) are declarations only; their bodies are not part of this model.
- SortMetricDataByDimensionsValue: the key type `K` stands for the equivalence classes of `HashableDimensionKey` under its `operator<` (keys that neither compare less are one `K` value), so `less` is a strict total order on `K`. The comparator's behaviour on distinct but equivalent keys is not modelled.
- SortMetricDataByDimensionsValue: the reports are modelled as a record sequence and a `MetricData` object. Protobuf message layout, the conversion of `dimensions_in_what` to a `HashableDimensionKey`, and the case where `metricData` and `sortedMetricData` are the same object are not modelled.
- The `int` loop counter of `sortMetricDataByDimensionsValue` is unbounded in the model; a report with more than 2^31 - 1 records is not considered.
