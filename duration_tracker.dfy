/**
 * The state shared by every duration tracker of the metrics daemon: the
 * per-duration record, the emitted bucket record, the tracker's identity and
 * current-bucket fields, and the helpers that fan one alarm request out to
 * every anomaly tracker attached to the tracker.
 *
 * Anomaly trackers are foreign objects: a tracker holds handles to them, some
 * of which may be null, and the model records every call made on a handle in
 * the ghost trace `issued`.
 */
module DurationTracking {
  import opened Wrappers
  import opened MachineInts

  // ---------------------------------------------------------------------------
  // Per-duration state
  // ---------------------------------------------------------------------------

  /** Stopped: not running. Started: running. Paused: started, but its condition is false. */
  datatype DurationState = Stopped | Started | Paused

  /** The numeric value each state is declared with: Stopped is 0, Started is 1, Paused is 2. */
  function StateValue(s: DurationState): (v: int32)
    ensures 0 <= v <= 2
  {
    match s
    case Stopped => 0
    case Started => 1
    case Paused => 2
  }

  /** The state declared with value `v`, if any. */
  function StateOfValue(v: int32): (s: Option<DurationState>)
    ensures s.Some? <==> 0 <= v <= 2
  {
    if v == 0 then Some(Stopped)
    else if v == 1 then Some(Started)
    else if v == 2 then Some(Paused)
    else None
  }

  /** The declared values are distinct, and each identifies its state. */
  lemma StateValueRoundTrip(s: DurationState, v: int32)
    ensures StateOfValue(StateValue(s)) == Some(s)
    ensures StateOfValue(v) == Some(s) <==> StateValue(s) == v
  {
  }

  /**
   * An event is on-going from its start until its stop. A paused event has
   * been started and not stopped, so it is on-going although its clock is not
   * running.
   */
  predicate IsOngoing(s: DurationState) {
    s == Started || s == Paused
  }

  /** The dimension keys needed to query the condition of one duration event, by condition id. */
  type ConditionKey<Key> = map<int64, Key>

  /** Duration information for one atom-level duration in the current bucket. */
  datatype DurationInfo<Key> = DurationInfo(
    state: DurationState,
    startCount: int32,       // the number of starts seen
    lastStartTime: int64,    // the most recent start time
    lastDuration: int64,     // the duration already accumulated in the current bucket
    conditionKeys: ConditionKey<Key>)

  /** A default-constructed `DurationInfo`: stopped, nothing counted, no condition keys. */
  function DefaultDurationInfo<Key>(): (d: DurationInfo<Key>)
    ensures !IsOngoing(d.state)
    ensures d.startCount == 0 && d.lastStartTime == 0 && d.lastDuration == 0
    ensures d.conditionKeys == map[]
  {
    DurationInfo(Stopped, 0, 0, 0, map[])
  }

  /** One emitted bucket of a duration metric. */
  datatype DurationBucket = DurationBucket(
    bucketStartNs: uint64,
    bucketEndNs: uint64,
    duration: uint64,
    bucketNum: uint64)

  // ---------------------------------------------------------------------------
  // The result `flushIfNeeded` reports
  // ---------------------------------------------------------------------------

  /** No duration event of a tracker is on-going: the owner may remove the tracker. */
  ghost predicate NoOngoingDuration<Key>(infos: map<Key, DurationInfo<Key>>) {
    forall k | k in infos :: !IsOngoing(infos[k].state)
  }

  /**
   * What `flushIfNeeded` promises of its result, whatever the variant: it
   * returns true exactly when the tracker has no on-going duration event.
   */
  ghost predicate FlushResultAllowed<Key>(removable: bool, infos: map<Key, DurationInfo<Key>>) {
    removable <==> NoOngoingDuration(infos)
  }

  /**
   * A tracker may be reported removable exactly when every duration it holds
   * is stopped, so a paused duration keeps it alive; a tracker whose
   * durations all carry default information may be removed.
   */
  lemma FlushResultOfStates<Key>(infos: map<Key, DurationInfo<Key>>)
    ensures FlushResultAllowed(true, infos) <==> forall k | k in infos :: infos[k].state == Stopped
    ensures (forall k | k in infos :: infos[k] == DefaultDurationInfo()) ==> FlushResultAllowed(true, infos)
  {
  }

  // ---------------------------------------------------------------------------
  // Calls on anomaly trackers
  // ---------------------------------------------------------------------------

  /** A call on one anomaly tracker, with its arguments. */
  datatype AlarmCall<Key> =
    | StartAlarm(key: Key, predictedTimestampNs: int64)
    | StopAlarm(key: Key)
    | AddPastBucket(key: Key, bucketValue: int64, bucketNum: int64)
    | DetectAndDeclareAnomaly(timestampNs: uint64, bucketNum: int64, key: Key, bucketValue: int64)
    | DeclareAnomalyIfAlarmExpired(key: Key, timestampNs: uint64)

  /** A call issued on the anomaly tracker `target`. */
  datatype Issued<Key, Handle> = Issued(target: Handle, call: AlarmCall<Key>)

  /** The non-null handles of `trackers`, in order. */
  function NonNull<Handle>(trackers: seq<Option<Handle>>): (r: seq<Handle>)
    ensures |r| <= |trackers|
  {
    if trackers == [] then []
    else
      var last := trackers[|trackers| - 1];
      NonNull(trackers[..|trackers| - 1]) + (if last.Some? then [last.value] else [])
  }

  /** The indices of the non-null entries of `trackers`, in order. */
  function Positions<Handle>(trackers: seq<Option<Handle>>): seq<nat> {
    if trackers == [] then []
    else
      var n := |trackers| - 1;
      Positions(trackers[..n]) + (if trackers[n].Some? then [n] else [])
  }

  /**
   * The calls made by a loop over `trackers` that skips null entries and
   * issues `call(h)` on every other handle `h`.
   */
  function Fanout<Key, Handle>(trackers: seq<Option<Handle>>, call: Handle -> AlarmCall<Key>)
    : (r: seq<Issued<Key, Handle>>)
    ensures |r| == |NonNull(trackers)|
  {
    if trackers == [] then []
    else
      var last := trackers[|trackers| - 1];
      Fanout(trackers[..|trackers| - 1], call)
        + (if last.Some? then [Issued(last.value, call(last.value))] else [])
  }

  /**
   * The non-null entries are visited exactly once each, in order: the
   * positions of the non-null entries are strictly increasing, cover every
   * non-null entry, and the handles are the values found there.
   */
  lemma {:induction false} PositionsOfNonNull<Handle>(trackers: seq<Option<Handle>>)
    ensures |Positions(trackers)| == |NonNull(trackers)|
    ensures forall k :: 0 <= k < |Positions(trackers)| ==>
      Positions(trackers)[k] < |trackers| && trackers[Positions(trackers)[k]] == Some(NonNull(trackers)[k])
    ensures forall k, l :: 0 <= k < l < |Positions(trackers)| ==> Positions(trackers)[k] < Positions(trackers)[l]
    ensures forall i :: 0 <= i < |trackers| && trackers[i].Some? ==> i in Positions(trackers)
  {
    if trackers != [] {
      var n := |trackers| - 1;
      var init := trackers[..n];
      PositionsOfNonNull(init);
      assert forall i :: 0 <= i < n ==> trackers[i] == init[i];
    }
  }

  /** The k-th call goes to the k-th non-null handle and is the call asked for with that handle. */
  lemma {:induction false} FanoutCalls<Key, Handle>(trackers: seq<Option<Handle>>, call: Handle -> AlarmCall<Key>)
    ensures forall k :: 0 <= k < |Fanout(trackers, call)| ==>
      Fanout(trackers, call)[k] == Issued(NonNull(trackers)[k], call(NonNull(trackers)[k]))
  {
    if trackers != [] {
      FanoutCalls(trackers[..|trackers| - 1], call);
    }
  }

  /** No call is issued exactly when there is no non-null handle (in particular, for no handle at all). */
  lemma {:induction false} FanoutEmpty<Key, Handle>(trackers: seq<Option<Handle>>, call: Handle -> AlarmCall<Key>)
    ensures Fanout(trackers, call) == [] <==> forall i :: 0 <= i < |trackers| ==> trackers[i].None?
  {
    if trackers != [] {
      var n := |trackers| - 1;
      FanoutEmpty(trackers[..n], call);
      assert forall i :: 0 <= i < n ==> trackers[..n][i] == trackers[i];
    }
  }

  /** Issues `startAlarm(key, predicted)` with the prediction for the target handle. */
  function StartAlarmCall<Key, Handle>(key: Key, predict: (Handle, uint64) -> int64, eventTime: uint64)
    : Handle -> AlarmCall<Key>
  {
    h => StartAlarm(key, predict(h, eventTime))
  }

  /** Issues `stopAlarm(key)`. */
  function StopAlarmCall<Key, Handle>(key: Key): Handle -> AlarmCall<Key> {
    _ => StopAlarm(key)
  }

  /** Issues `addPastBucket(key, bucketValue, bucketNum)`. */
  function AddPastBucketCall<Key, Handle>(key: Key, bucketValue: int64, bucketNum: int64)
    : Handle -> AlarmCall<Key>
  {
    _ => AddPastBucket(key, bucketValue, bucketNum)
  }

  /** Issues `detectAndDeclareAnomaly(timestamp, bucketNum, key, bucketValue)`. */
  function DetectAndDeclareAnomalyCall<Key, Handle>(timestamp: uint64, bucketNum: int64, key: Key, bucketValue: int64)
    : Handle -> AlarmCall<Key>
  {
    _ => DetectAndDeclareAnomaly(timestamp, bucketNum, key, bucketValue)
  }

  /** Issues `declareAnomalyIfAlarmExpired(key, timestamp)`. */
  function DeclareAnomalyIfAlarmExpiredCall<Key, Handle>(key: Key, timestamp: uint64): Handle -> AlarmCall<Key> {
    _ => DeclareAnomalyIfAlarmExpired(key, timestamp)
  }

  /**
   * What each helper issues, handle by handle: the k-th call of each helper
   * goes to the k-th non-null handle and carries the tracker's event key and
   * the helper's arguments unchanged; `startAnomalyAlarm` carries the
   * prediction made for that handle.
   */
  lemma HelperCalls<Key, Handle>(
    trackers: seq<Option<Handle>>, key: Key, predict: (Handle, uint64) -> int64,
    time: uint64, value: int64, bucketNum: int64, k: nat)
    requires k < |NonNull(trackers)|
    ensures var h := NonNull(trackers)[k];
      && Fanout(trackers, StartAlarmCall(key, predict, time))[k] == Issued(h, StartAlarm(key, predict(h, time)))
      && Fanout(trackers, StopAlarmCall(key))[k] == Issued(h, StopAlarm(key))
      && Fanout(trackers, AddPastBucketCall(key, value, bucketNum))[k] == Issued(h, AddPastBucket(key, value, bucketNum))
      && Fanout(trackers, DetectAndDeclareAnomalyCall(time, bucketNum, key, value))[k]
           == Issued(h, DetectAndDeclareAnomaly(time, bucketNum, key, value))
      && Fanout(trackers, DeclareAnomalyIfAlarmExpiredCall(key, time))[k]
           == Issued(h, DeclareAnomalyIfAlarmExpired(key, time))
  {
  }

  // ---------------------------------------------------------------------------
  // The tracker
  // ---------------------------------------------------------------------------

  /**
   * The state every duration tracker variant shares. The variants' own
   * entry points (start, stop, condition changes, flushing, prediction) are
   * not part of this class.
   */
  class DurationTracker<Key, Handle> {
    const name: string
    var eventKey: Key
    const conditionTrackerIndex: int32
    const bucketSizeNs: int64
    const nested: bool
    var currentBucketStartTimeNs: uint64
    var duration: int64              // the duration recorded in the current bucket
    var currentBucketNum: uint64
    var anomalyTrackers: seq<Option<Handle>>

    /** Every call issued on an anomaly tracker so far, in order. */
    ghost var issued: seq<Issued<Key, Handle>>

    constructor(name: string, eventKey: Key, conditionIndex: int32, nesting: bool,
                currentBucketStartNs: uint64, bucketSizeNs: uint64,
                anomalyTrackers: seq<Option<Handle>>)
      ensures this.name == name && this.eventKey == eventKey
      ensures this.conditionTrackerIndex == conditionIndex && this.nested == nesting
      ensures this.bucketSizeNs == ToInt64(bucketSizeNs)
      ensures bucketSizeNs as int < TWO_TO_THE_63 ==> this.bucketSizeNs as int == bucketSizeNs as int
      ensures this.currentBucketStartTimeNs == currentBucketStartNs
      ensures this.duration == 0 && this.currentBucketNum == 0
      ensures this.anomalyTrackers == anomalyTrackers
      ensures this.issued == []
    {
      this.name := name;
      this.eventKey := eventKey;
      this.conditionTrackerIndex := conditionIndex;
      this.bucketSizeNs := ToInt64(bucketSizeNs);
      this.nested := nesting;
      this.currentBucketStartTimeNs := currentBucketStartNs;
      this.duration := 0;
      this.currentBucketNum := 0;
      this.anomalyTrackers := anomalyTrackers;
      this.issued := [];
      new;
      ToInt64Exact(bucketSizeNs);
    }

    /**
     * Starts the anomaly alarm on every attached anomaly tracker, with the
     * deadline `predict` gives for that tracker at `eventTime`. `predict` is
     * the variant's `predictAnomalyTimestampNs` in its current state.
     * Only the trace changes.
     */
    method StartAnomalyAlarm(eventTime: uint64, predict: (Handle, uint64) -> int64)
      modifies this`issued
      ensures issued == old(issued) + Fanout(anomalyTrackers, StartAlarmCall(eventKey, predict, eventTime))
    {
      ghost var call := StartAlarmCall(eventKey, predict, eventTime);
      for i := 0 to |anomalyTrackers|
        invariant issued == old(issued) + Fanout(anomalyTrackers[..i], call)
      {
        assert anomalyTrackers[..i + 1][..i] == anomalyTrackers[..i];
        var anomalyTracker := anomalyTrackers[i];
        if anomalyTracker.Some? {
          var h := anomalyTracker.value;
          issued := issued + [Issued(h, StartAlarm(eventKey, predict(h, eventTime)))];
        }
      }
      assert anomalyTrackers[..|anomalyTrackers|] == anomalyTrackers;
    }

    /** Stops the anomaly alarm on every attached anomaly tracker. Only the trace changes. */
    method StopAnomalyAlarm()
      modifies this`issued
      ensures issued == old(issued) + Fanout(anomalyTrackers, StopAlarmCall(eventKey))
    {
      ghost var call := StopAlarmCall<Key, Handle>(eventKey);
      for i := 0 to |anomalyTrackers|
        invariant issued == old(issued) + Fanout(anomalyTrackers[..i], call)
      {
        assert anomalyTrackers[..i + 1][..i] == anomalyTrackers[..i];
        var anomalyTracker := anomalyTrackers[i];
        if anomalyTracker.Some? {
          issued := issued + [Issued(anomalyTracker.value, StopAlarm(eventKey))];
        }
      }
      assert anomalyTrackers[..|anomalyTrackers|] == anomalyTrackers;
    }

    /** Hands a closed bucket's value to every attached anomaly tracker. Only the trace changes. */
    method AddPastBucketToAnomalyTrackers(bucketValue: int64, bucketNum: int64)
      modifies this`issued
      ensures issued == old(issued) + Fanout(anomalyTrackers, AddPastBucketCall(eventKey, bucketValue, bucketNum))
    {
      ghost var call := AddPastBucketCall<Key, Handle>(eventKey, bucketValue, bucketNum);
      for i := 0 to |anomalyTrackers|
        invariant issued == old(issued) + Fanout(anomalyTrackers[..i], call)
      {
        assert anomalyTrackers[..i + 1][..i] == anomalyTrackers[..i];
        var anomalyTracker := anomalyTrackers[i];
        if anomalyTracker.Some? {
          issued := issued + [Issued(anomalyTracker.value, AddPastBucket(eventKey, bucketValue, bucketNum))];
        }
      }
      assert anomalyTrackers[..|anomalyTrackers|] == anomalyTrackers;
    }

    /** Asks every attached anomaly tracker to check the current bucket's value. Only the trace changes. */
    method DetectAndDeclareAnomaly(timestamp: uint64, currBucketNum: int64, currentBucketValue: int64)
      modifies this`issued
      ensures issued == old(issued)
        + Fanout(anomalyTrackers, DetectAndDeclareAnomalyCall(timestamp, currBucketNum, eventKey, currentBucketValue))
    {
      ghost var call := DetectAndDeclareAnomalyCall<Key, Handle>(timestamp, currBucketNum, eventKey, currentBucketValue);
      for i := 0 to |anomalyTrackers|
        invariant issued == old(issued) + Fanout(anomalyTrackers[..i], call)
      {
        assert anomalyTrackers[..i + 1][..i] == anomalyTrackers[..i];
        var anomalyTracker := anomalyTrackers[i];
        if anomalyTracker.Some? {
          issued := issued
            + [Issued(anomalyTracker.value, AlarmCall.DetectAndDeclareAnomaly(timestamp, currBucketNum, eventKey, currentBucketValue))];
        }
      }
      assert anomalyTrackers[..|anomalyTrackers|] == anomalyTrackers;
    }

    /** Asks every attached anomaly tracker whether its alarm has expired by `timestamp`. Only the trace changes. */
    method DeclareAnomalyIfAlarmExpired(timestamp: uint64)
      modifies this`issued
      ensures issued == old(issued) + Fanout(anomalyTrackers, DeclareAnomalyIfAlarmExpiredCall(eventKey, timestamp))
    {
      ghost var call := DeclareAnomalyIfAlarmExpiredCall<Key, Handle>(eventKey, timestamp);
      for i := 0 to |anomalyTrackers|
        invariant issued == old(issued) + Fanout(anomalyTrackers[..i], call)
      {
        assert anomalyTrackers[..i + 1][..i] == anomalyTrackers[..i];
        var anomalyTracker := anomalyTrackers[i];
        if anomalyTracker.Some? {
          issued := issued + [Issued(anomalyTracker.value, AlarmCall.DeclareAnomalyIfAlarmExpired(eventKey, timestamp))];
        }
      }
      assert anomalyTrackers[..|anomalyTrackers|] == anomalyTrackers;
    }
  }
}
