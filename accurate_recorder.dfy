/**
 The accurate recorder of MyPerf4J: per-millisecond latency counts for one
 monitored API, kept in a counter array below the threshold and in an
 overflow map at or above it. The atomic counter array and concurrent map
 of MyPerf4J's AccurateRecorder are a plain array and a map field here;
 every method is proved against the value-level definitions of module
 `Histogram`.
 */
module Perf4j {
  import opened Sorting
  import opened Histogram

  const NanosPerMilli: int := 1_000_000

  /** The largest value of a 32-bit signed integer. */
  const MaxInt: int := 0x7fff_ffff

  /** Whole milliseconds between two nanosecond readings, the remainder truncated. */
  function ElapsedMillis(startNanoTime: int, endNanoTime: int): (ms: nat)
    requires startNanoTime <= endNanoTime
    ensures ms * NanosPerMilli <= endNanoTime - startNanoTime < (ms + 1) * NanosPerMilli
  {
    (endNanoTime - startNanoTime) / NanosPerMilli
  }

  class AccurateRecorder {
    /** One counter per millisecond value below the threshold `timingArr.Length`. */
    const timingArr: array<int>
    /** Counters for the millisecond values at or above the threshold. */
    var timingMap: map<int, int>
    /** The window metadata kept by every recorder. */
    var tag: string
    var startTime: int
    var stopTime: int

    /** The counters as a value. */
    ghost function Contents(): Store
      reads this, timingArr
    {
      Store(timingArr[..], timingMap)
    }

    ghost predicate Valid()
      reads this, timingArr
    {
      WellFormed(Contents())
    }

    constructor (mostTimeThreshold: nat, outThresholdCount: int)
      ensures fresh(timingArr) && Valid()
      ensures Contents() == Store(seq(mostTimeThreshold, _ => 0), map[])
      ensures tag == "" && startTime == 0 && stopTime == 0
    {
      timingArr := new int[mostTimeThreshold](_ => 0);
      timingMap := map[];
      tag, startTime, stopTime := "", 0, 0;
    }

    /** A fresh recorder for `api` with all counters zero. */
    static method GetInstance(api: string, mostTimeThreshold: nat, outThresholdCount: int)
      returns (recorder: AccurateRecorder)
      ensures fresh(recorder) && fresh(recorder.timingArr) && recorder.Valid()
      ensures recorder.Contents() == Store(seq(mostTimeThreshold, _ => 0), map[])
      ensures recorder.tag == api && recorder.startTime == 0 && recorder.stopTime == 0
    {
      recorder := new AccurateRecorder(mostTimeThreshold, outThresholdCount);
      recorder.SetTag(api);
    }

    method SetTag(api: string)
      modifies this`tag
      ensures tag == api
    {
      tag := api;
    }

    method SetStartTime(time: int)
      modifies this`startTime
      ensures startTime == time
    {
      startTime := time;
    }

    method SetStopTime(time: int)
      modifies this`stopTime
      ensures stopTime == time
    {
      stopTime := time;
    }

    /**
     Records one request that ran from `startNanoTime` to `endNanoTime`. A
     pair whose start lies after its end is ignored; otherwise the elapsed
     whole milliseconds go to their slot below the threshold or to their
     overflow entry, which is created with count 1 when absent.
     */
    method RecordTime(startNanoTime: int, endNanoTime: int)
      requires Valid()
      requires startNanoTime <= endNanoTime ==> ElapsedMillis(startNanoTime, endNanoTime) <= MaxInt
      modifies timingArr, this`timingMap
      ensures Valid()
      ensures startNanoTime > endNanoTime ==> Contents() == old(Contents())
      ensures startNanoTime <= endNanoTime ==>
                Contents() == Record(old(Contents()), ElapsedMillis(startNanoTime, endNanoTime))
    {
      if startNanoTime > endNanoTime {
        return;
      }
      ghost var before := Contents();
      var elapsedTime := ElapsedMillis(startNanoTime, endNanoTime);
      RecordWellFormed(before, elapsedTime);
      if elapsedTime < timingArr.Length {
        timingArr[elapsedTime] := timingArr[elapsedTime] + 1;
        return;
      }
      if elapsedTime in timingMap {
        timingMap := timingMap[elapsedTime := timingMap[elapsedTime] + 1];
        return;
      }
      timingMap := timingMap[elapsedTime := 1];
    }

    /** The number of millisecond values with a positive count. */
    method GetEffectiveCount() returns (result: nat)
      ensures result == EffectiveCount(Contents())
    {
      result := 0;
      for i := 0 to timingArr.Length
        invariant result == |PositiveSlots(timingArr[..i])|
      {
        PositiveSlotsSnoc(timingArr[..], i);
        assert timingArr[..][..i + 1] == timingArr[..i + 1] && timingArr[..][..i] == timingArr[..i];
        if timingArr[i] > 0 {
          result := result + 1;
        }
      }
      assert timingArr[..timingArr.Length] == timingArr[..];
      var rest := timingMap.Keys;
      ghost var counted: set<int> := {};
      while rest != {}
        invariant rest <= timingMap.Keys
        invariant counted == PositiveKeys(timingMap) - rest
        invariant result == |PositiveSlots(timingArr[..])| + |counted|
        decreases rest
      {
        var key := Choose(rest);
        if timingMap[key] > 0 {
          assert key !in counted;
          result := result + 1;
          counted := counted + {key};
        }
        rest := rest - {key};
      }
    }

    /**
     Writes the snapshot into the front of `arr`: the (value, count) pairs of
     the positive slots in index order, then those of the positive overflow
     entries in ascending order of key. Nothing after the snapshot changes.
     */
    method FillSortedRecords(arr: array<int>)
      requires arr != timingArr
      requires 2 * EffectiveCount(Contents()) <= arr.Length
      modifies arr
      ensures arr[..2 * EffectiveCount(Contents())] == Snapshot(Contents())
      ensures forall k :: 2 * EffectiveCount(Contents()) <= k < arr.Length ==> arr[k] == old(arr[k])
    {
      ghost var st := Contents();
      ghost var slots := st.slots;
      SlotPairsLength(slots);
      var idx := 0;
      for i := 0 to timingArr.Length
        invariant idx == |SlotPairs(slots[..i])| <= |SlotPairs(slots)|
        invariant arr[..idx] == SlotPairs(slots[..i])
        invariant forall k :: idx <= k < arr.Length ==> arr[k] == old(arr[k])
      {
        SlotPairsSnoc(slots, i);
        SlotPairsPrefixLength(slots, i + 1);
        var count := timingArr[i];
        if count > 0 {
          arr[idx] := i;
          idx := idx + 1;
          arr[idx] := count;
          idx := idx + 1;
          assert arr[..idx] == arr[..idx - 2] + [i, count];
        }
      }
      assert slots[..timingArr.Length] == slots;
      FillMapRecord(arr, idx);
      assert Contents() == st;
      PrefixConcat(arr[..], idx, 2 * |PositiveKeys(timingMap)|, 2 * EffectiveCount(st),
                   SlotPairs(slots), OverflowPairs(timingMap));
    }

    /**
     Appends the overflow pairs at `offset`: the positive keys are packed
     into `arr[offset..idx]`, sorted there, and expanded into pairs.
     */
    method FillMapRecord(arr: array<int>, offset: int)
      requires 0 <= offset && offset + 2 * |PositiveKeys(timingMap)| <= arr.Length
      modifies arr
      ensures arr[..offset] == old(arr[..offset])
      ensures arr[offset..offset + 2 * |PositiveKeys(timingMap)|] == OverflowPairs(timingMap)
      ensures forall k :: 0 <= k < offset || offset + 2 * |PositiveKeys(timingMap)| <= k < arr.Length ==>
                arr[k] == old(arr[k])
    {
      var idx, keys := SortPositiveKeys(arr, offset);
      ExpandPairs(arr, offset, idx, keys);
    }

    /** Leaves the positive overflow keys in ascending order at `arr[offset..idx]`. */
    method SortPositiveKeys(arr: array<int>, offset: int) returns (idx: int, ghost keys: seq<int>)
      requires 0 <= offset && offset + |PositiveKeys(timingMap)| <= arr.Length
      modifies arr
      ensures arr[..offset] == old(arr[..offset])
      ensures keys == SortedElements(PositiveKeys(timingMap))
      ensures idx == offset + |PositiveKeys(timingMap)| == offset + |keys|
      ensures forall j :: 0 <= j < |keys| ==> keys[j] in timingMap && arr[offset + j] == keys[j]
      ensures forall k :: 0 <= k < offset || idx <= k < arr.Length ==> arr[k] == old(arr[k])
    {
      idx := PackPositiveKeys(arr, offset);
      ghost var packed := arr[offset..idx];
      SortRange(arr, offset, idx);
      keys := arr[offset..idx];
      SortedListing(packed, keys, PositiveKeys(timingMap));
      SortedKeysPositive(timingMap);
      SliceAt(arr[..], offset, idx, keys);
    }

    /** Writes the positive overflow keys, in no particular order, to `arr[offset..idx]`. */
    method PackPositiveKeys(arr: array<int>, offset: int) returns (idx: int)
      requires 0 <= offset && offset + |PositiveKeys(timingMap)| <= arr.Length
      modifies arr
      ensures arr[..offset] == old(arr[..offset])
      ensures idx == offset + |PositiveKeys(timingMap)|
      ensures Distinct(arr[offset..idx])
      ensures forall x :: x in arr[offset..idx] <==> x in PositiveKeys(timingMap)
      ensures forall k :: 0 <= k < offset || idx <= k < arr.Length ==> arr[k] == old(arr[k])
    {
      var m := timingMap;
      ghost var positive := PositiveKeys(m);
      idx := offset;
      var rest := m.Keys;
      ghost var done: set<int> := {};
      ghost var packed: seq<int> := [];
      while rest != {}
        invariant arr[..offset] == old(arr[..offset])
        invariant rest <= m.Keys
        invariant done <= positive && done !! rest
        invariant forall x :: x in positive ==> x in done || x in rest
        invariant idx == offset + |packed| && |packed| == |done| <= |positive|
        invariant forall j :: 0 <= j < |packed| ==> arr[offset + j] == packed[j]
        invariant Distinct(packed)
        invariant forall x :: x in packed <==> x in done
        invariant forall k :: 0 <= k < offset || idx <= k < arr.Length ==> arr[k] == old(arr[k])
        decreases rest
      {
        var key := Choose(rest);
        if m[key] > 0 {
          SubsetCard(done + {key}, positive);
          DistinctSnoc(packed, key);
          arr[idx] := key;
          packed := packed + [key];
          done := done + {key};
          idx := idx + 1;
        }
        rest := rest - {key};
      }
      forall x | x in positive
        ensures x in done
      {
        assert x !in rest;
      }
      SubsetCard(done, positive);
      SubsetCard(positive, done);
      SliceIs(arr[..], offset, idx, packed);
    }

    /**
     Replaces the keys at `arr[offset..idx]` by their (key, count) pairs. The
     loop runs from the last key down and writes key i to positions
     `2i - offset` and `2i + 1 - offset`, which are never below i, so no key
     is overwritten before it is read.
     */
    method ExpandPairs(arr: array<int>, offset: int, idx: int, ghost keys: seq<int>)
      requires 0 <= offset && idx == offset + |PositiveKeys(timingMap)| == offset + |keys|
      requires offset + 2 * |PositiveKeys(timingMap)| <= arr.Length
      requires forall j :: 0 <= j < |keys| ==> keys[j] in timingMap && arr[offset + j] == keys[j]
      modifies arr
      ensures arr[..offset] == old(arr[..offset])
      ensures arr[offset..offset + 2 * |PositiveKeys(timingMap)|] == Expand(keys, timingMap)
      ensures forall k :: 0 <= k < offset || offset + 2 * |PositiveKeys(timingMap)| <= k < arr.Length ==>
                arr[k] == old(arr[k])
    {
      var i := idx - 1;
      while i >= offset
        invariant offset - 1 <= i < idx
        invariant forall j :: 0 <= j < |keys| && offset + j <= i ==> arr[offset + j] == keys[j]
        invariant forall j :: 0 <= j < |keys| && i < offset + j ==>
                    arr[offset + 2 * j] == keys[j] && arr[offset + 2 * j + 1] == timingMap[keys[j]]
        invariant forall k :: 0 <= k < offset || 2 * idx - offset <= k < arr.Length ==> arr[k] == old(arr[k])
        decreases i
      {
        assert arr[i] == keys[i - offset];
        arr[2 * i - offset] := arr[i];
        arr[2 * i + 1 - offset] := timingMap[arr[i]];
        i := i - 1;
      }
      ExpandIs(arr[..], offset, offset + 2 * |PositiveKeys(timingMap)|, keys, timingMap);
      assert forall k :: 0 <= k < offset ==> arr[..offset][k] == old(arr[..offset])[k];
    }

    /**
     Ends a window: every slot is zeroed; an overflow entry is dropped when
     its key exceeds 1.5 times the threshold or its count is not positive,
     and is kept with count 0 otherwise; the window times go back to 0.
     */
    method ResetRecord()
      requires Valid()
      modifies timingArr, this`timingMap, this`startTime, this`stopTime
      ensures Valid()
      ensures Contents() == Reset(old(Contents()))
      ensures tag == old(tag) && startTime == 0 && stopTime == 0
      ensures EffectiveCount(Contents()) == 0
    {
      for i := 0 to timingArr.Length
        invariant forall j :: 0 <= j < i ==> timingArr[j] == 0
        invariant timingMap == old(timingMap)
      {
        timingArr[i] := 0;
      }

      var rest := timingMap.Keys;
      while rest != {}
        invariant rest <= old(timingMap).Keys
        invariant forall k :: k in timingMap <==>
                    k in old(timingMap) && (k in rest || !Evicted(k, old(timingMap)[k], timingArr.Length))
        invariant forall k :: k in timingMap ==> timingMap[k] == if k in rest then old(timingMap)[k] else 0
        invariant forall j :: 0 <= j < timingArr.Length ==> timingArr[j] == 0
        decreases rest
      {
        var key := Choose(rest);
        if Evicted(key, timingMap[key], timingArr.Length) {
          timingMap := timingMap - {key};
        } else {
          timingMap := timingMap[key := 0];
        }
        rest := rest - {key};
      }

      SetStartTime(0);
      SetStopTime(0);
      ghost var target := Reset(old(Contents()));
      assert timingArr[..] == target.slots;
      assert forall k :: k in timingMap <==> k in target.overflow;
      assert forall k :: k in timingMap ==> timingMap[k] == target.overflow[k];
      assert timingMap == target.overflow;
      ResetClears(old(Contents()));
    }

    /**
     The number of overflow entries: an estimate of the distinct values at or
     above the threshold, since entries kept by a reset with count 0 are counted too.
     */
    function GetOutThresholdCount(): (r: nat)
      reads this
      ensures |PositiveKeys(timingMap)| <= r
      ensures r == |PositiveKeys(timingMap)| <==> forall k :: k in timingMap ==> timingMap[k] > 0
    {
      OverflowSizeBound(timingMap);
      |timingMap|
    }
  }

  /**
   A recorder with threshold 100 after samples of 50.999999 ms and 100 ms
   and one pair whose start lies after its end: only the two valid samples
   are held.
   */
  method ScenarioRecords() returns (recorder: AccurateRecorder)
    ensures fresh(recorder) && fresh(recorder.timingArr) && recorder.Valid()
    ensures recorder.Contents() == Record(Record(Store(seq(100, _ => 0), map[]), 50), 100)
  {
    recorder := AccurateRecorder.GetInstance("api", 100, 10);
    assert ElapsedMillis(0, 50_999_999) == 50;
    recorder.RecordTime(0, 50_999_999);
    assert ElapsedMillis(0, 100_000_000) == 100;
    recorder.RecordTime(0, 100_000_000);
    recorder.RecordTime(10, 5);
  }

  /**
   One window on a recorder with threshold 100, as recorded by
   `ScenarioRecords`: effective count 2 and the snapshot [50, 1, 100, 1],
   with the rest of the buffer left alone. After the reset the effective
   count is 0, and a further 100 ms sample counts 1 there, because the
   reset kept that entry at 0.
   */
  method RecorderScenario() returns (effective: nat, snapshot: seq<int>, tail: seq<int>,
                                     effectiveAfterReset: nat, countAfterReset: int)
    ensures effective == 2 && snapshot == [50, 1, 100, 1] && tail == [-1, -1]
    ensures effectiveAfterReset == 0 && countAfterReset == 1
  {
    var recorder := ScenarioRecords();
    ghost var st := recorder.Contents();
    WindowScenario();
    effective := recorder.GetEffectiveCount();
    var arr := new int[6](_ => -1);
    recorder.FillSortedRecords(arr);
    snapshot, tail := arr[..4], arr[4..];
    assert tail == [arr[4], arr[5]];
    recorder.ResetRecord();
    effectiveAfterReset := recorder.GetEffectiveCount();
    assert ElapsedMillis(0, 100_000_000) == 100;
    recorder.RecordTime(0, 100_000_000);
    assert recorder.Contents() == Record(Reset(st), 100);
    countAfterReset := recorder.timingMap[100];
  }
}
