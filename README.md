# AccurateRecorder: a verified model

MyPerf4J's `AccurateRecorder` keeps the latency distribution of one monitored
API over one reporting window. It counts the whole milliseconds each request
took. A value below the threshold T has its own slot in a fixed array of T
counters (`timingArr`). Values of T or more go to an overflow map from
millisecond value to count (`timingMap`).

The recorder offers these operations:

- **recordTime** bumps the counter of one sample.
- **getEffectiveCount** counts how many distinct values have samples.
- **fillSortedRecords** writes the (value, count) pairs into a caller's buffer in ascending order of value. Its helper **fillMapRecord** handles the map half in place: it packs the positive keys, sorts them, and expands them backwards into pairs.
- **resetRecord** ends the window. It zeroes the array, drops overflow entries above 1.5·T or with no samples, and keeps the other entries at 0.
- **getOutThresholdCount** estimates the number of overflow values.

The project has three modules:

- `Sorting` (`sorting.dfy`): ordered and duplicate-free sequences, and `SortedElements`, the ascending listing of a set. It also holds `SortRange`, an in-place sort of an array range that stands in for `Arrays.sort(arr, from, to)`.
- `Histogram` (`histogram.dfy`): the counter store as a value (`Store`: slots and overflow map). It defines what recording, the effective count, the snapshot and the reset mean on such values and proves their properties.
- `Perf4j` (`accurate_recorder.dfy`): the class `AccurateRecorder`. The counter array is an `array<int>` and the map is a `map<int, int>` field. `tag`, `startTime` and `stopTime` are plain fields. Each method is written as the Java code works (loops, a running buffer cursor, in-place writes) and is proved against the `Histogram` definitions through `Contents()`, the store as a value.

Three edge behaviours of the code that the model keeps:

- The buffer may be longer than 2·effectiveCount. The code writes only the first 2·effectiveCount entries and leaves the rest alone.
- A buffer that is too short gets no distinct error from the code: the code simply indexes past its end. The model makes that case a precondition.
- A threshold of 0 is accepted.

## Model

| member | source | states |
|---|---|---|
| Perf4j.ElapsedMillis | src/main/java/cn/perf4j/AccurateRecorder.java:38 | the elapsed time is the whole number of milliseconds in the nanosecond interval, with the remainder truncated: ms·10⁶ ≤ end − start < (ms + 1)·10⁶ |
| Perf4j.AccurateRecorder.constructor | src/main/java/cn/perf4j/AccurateRecorder.java:27-30 | a fresh array of `mostTimeThreshold` zero counters, an empty overflow map, and a store that satisfies the invariant |
| Perf4j.AccurateRecorder.GetInstance | src/main/java/cn/perf4j/AccurateRecorder.java:128-132 | a fresh recorder with all counters zero, an empty map, and its tag set to the API name |
| Perf4j.AccurateRecorder.SetTag | src/main/java/cn/perf4j/AccurateRecorder.java:130 | the tag becomes the given name |
| Perf4j.AccurateRecorder.SetStartTime | src/main/java/cn/perf4j/AccurateRecorder.java:119 | the window start time becomes the given value |
| Perf4j.AccurateRecorder.SetStopTime | src/main/java/cn/perf4j/AccurateRecorder.java:120 | the window stop time becomes the given value |
| Perf4j.AccurateRecorder.RecordTime | src/main/java/cn/perf4j/AccurateRecorder.java:33-54 | a start after the end leaves the counters unchanged; otherwise the new store is the old one with one sample of the elapsed milliseconds recorded; the store invariant is kept |
| Histogram.RecordCountAt | src/main/java/cn/perf4j/AccurateRecorder.java:38-53 | recording adds exactly one to the count of the elapsed value (in its slot below the threshold, in its map entry above it, created at 1 when absent) and changes no other value's count |
| Histogram.RecordWellFormed | src/main/java/cn/perf4j/AccurateRecorder.java:39-53 | recording keeps every count non-negative and every overflow key at or above the threshold |
| Histogram.RecordEffectiveCount | src/main/java/cn/perf4j/AccurateRecorder.java:39-53 | recording raises the effective count by one exactly when the value had no samples before |
| Perf4j.AccurateRecorder.GetEffectiveCount | src/main/java/cn/perf4j/AccurateRecorder.java:70-85 | the result is the number of positive slots plus the number of overflow keys with a positive count |
| Perf4j.AccurateRecorder.FillSortedRecords | src/main/java/cn/perf4j/AccurateRecorder.java:57-67 | the first 2·effectiveCount buffer entries become the snapshot: the pairs of the positive slots in index order, then those of the positive overflow entries in ascending key order; the rest of the buffer is unchanged |
| Perf4j.AccurateRecorder.FillMapRecord | src/main/java/cn/perf4j/AccurateRecorder.java:87-100 | from `offset` on, the buffer holds the positive overflow keys in ascending order, each followed by its count; nothing before `offset` or past the pairs changes |
| Perf4j.AccurateRecorder.PackPositiveKeys | src/main/java/cn/perf4j/AccurateRecorder.java:88-93 | the cursor ends at `offset` plus the number of positive keys; the packed block holds exactly those keys, each once; nothing outside the block changes |
| Perf4j.AccurateRecorder.SortPositiveKeys | src/main/java/cn/perf4j/AccurateRecorder.java:88-95 | after packing and sorting, the block holds the ascending listing of the positive keys; nothing outside it changes |
| Perf4j.AccurateRecorder.ExpandPairs | src/main/java/cn/perf4j/AccurateRecorder.java:96-99 | the backward loop replaces the sorted key block by the key/count expansion of those keys; its invariant shows every write lands at or above the key being read, so keys still unread below it stay intact |
| Sorting.SortRange | src/main/java/cn/perf4j/AccurateRecorder.java:95 | the range ends up sorted ascending and is a permutation of what it held; positions outside the range are unchanged |
| Sorting.SortedElements | src/main/java/cn/perf4j/AccurateRecorder.java:89-95 | the listing of a set of keys is strictly ascending, holds exactly the set's members and is as long as the set |
| Sorting.SortedListing | src/main/java/cn/perf4j/AccurateRecorder.java:89-95 | any sorted rearrangement of a duplicate-free listing of a set equals that set's ascending listing, whatever order the map iteration produced |
| Histogram.SnapshotLength | src/main/java/cn/perf4j/AccurateRecorder.java:57-100 | the snapshot is exactly 2·effectiveCount entries long |
| Histogram.SnapshotOrdered | src/main/java/cn/perf4j/AccurateRecorder.java:57-100 | in a well-formed store the snapshot's values (even positions) strictly ascend, so none repeats, and every count (odd position) is positive |
| Histogram.SnapshotCounts | src/main/java/cn/perf4j/AccurateRecorder.java:57-100 | each value in the snapshot is followed by its count in the store |
| Histogram.SnapshotCovers | src/main/java/cn/perf4j/AccurateRecorder.java:57-100 | every value with a positive count appears as a value of the snapshot |
| Perf4j.AccurateRecorder.ResetRecord | src/main/java/cn/perf4j/AccurateRecorder.java:103-121 | the new store is the reset of the old one; the tag is kept, both window times become 0 and the effective count becomes 0 |
| Histogram.ResetClears | src/main/java/cn/perf4j/AccurateRecorder.java:103-117 | after a reset every value's count is 0, the effective count is 0 and the store invariant holds |
| Histogram.ResetRetains | src/main/java/cn/perf4j/AccurateRecorder.java:108-117 | a key survives a reset exactly when it had a positive count and is at most 1.5·T |
| Histogram.ResetTwiceEmpties | src/main/java/cn/perf4j/AccurateRecorder.java:108-117 | two resets with no sample between them empty the overflow map |
| Perf4j.AccurateRecorder.GetOutThresholdCount | src/main/java/cn/perf4j/AccurateRecorder.java:124-126 | the result is at least the number of positive overflow keys, and equals it exactly when no entry is left at count 0 |
| Histogram.OverflowSizeBound | src/main/java/cn/perf4j/AccurateRecorder.java:124-126 | the map's size bounds its positive keys, with equality exactly when every entry is positive |
| Perf4j.ScenarioRecords | src/main/java/cn/perf4j/AccurateRecorder.java:33-54 | a fresh threshold-100 recorder given samples of 50.999999 ms and 100 ms and one pair whose start lies after its end holds exactly the 50 ms and 100 ms samples |
| Perf4j.RecorderScenario | src/main/java/cn/perf4j/AccurateRecorder.java:57-121 | on that recorder the effective count is 2 and the snapshot is [50, 1, 100, 1], with the buffer's tail untouched; after the reset the effective count is 0 and a further 100 ms sample counts 1 |
| Histogram.WindowScenario | src/main/java/cn/perf4j/AccurateRecorder.java:33-121 | with T = 100, samples of 50 and 100 ms give effective count 2 and snapshot [50, 1, 100, 1]; a reset keeps the entry for 100 at 0, so the next 100 ms sample counts 1 |

## Left out

- Concurrency: `AtomicIntegerArray`, `ConcurrentHashMap` and `synchronized` become a plain array, a map and sequential methods. The `get`/`putIfAbsent` race in `recordTime` collapses to one insert-or-increment, and the benign races between recording and snapshotting are not modelled.
- Perf4j.AccurateRecorder.RecordTime: requires the true elapsed milliseconds to be at most 2³¹ − 1, which excludes two Java behaviours.
  - The `long` subtraction can wrap. With start = `Long.MIN_VALUE` and end = 0 the check passes, the difference wraps to `Long.MIN_VALUE`, the elapsed value becomes −2077252342 and `incrementAndGet` throws.
  - The narrowing cast keeps only the low 32 bits. An elapsed time of 2³² + 5 ms is silently counted in slot 5.
- Perf4j.AccurateRecorder.constructor: the threshold is a `nat`, so a negative threshold, for which `new AtomicIntegerArray` throws `NegativeArraySizeException`, is excluded by the type.
- Perf4j.AccurateRecorder.GetInstance: the same; a negative threshold throws in Java and is excluded by the `nat` type.
- Counter width: counts are unbounded integers, and the wrap-around of a Java `int` counter after 2³¹ − 1 samples is not modelled.
- Perf4j.AccurateRecorder.FillSortedRecords: requires a buffer of at least 2·effectiveCount entries. With a shorter buffer the code throws `ArrayIndexOutOfBoundsException`, which is not modelled. It also requires the buffer to differ from the counter array; in Java the two have different types and can never alias.
- Decay rule: `key > 1.5 * T` in floating point is written as `2·key > 3·T`, which agrees with it for integer keys and thresholds of `int` size.
- `MapUtils.getFitCapacity` is not part of this model. It only sizes the map's initial capacity, so `outThresholdCount` has no effect here.
- `AbstractRecorder` is not part of this model. Its tag and window times are plain fields whose setters just assign. The constructor starts them at the empty string and 0.
- Map iteration order: the model picks keys in an unspecified order, and the results do not depend on it.
- `Arrays.sort` (a dual-pivot quicksort in the JDK) is replaced by `Sorting.SortRange`, an insertion sort with the same contract: sorted ascending and a permutation of the range.
- The choice between `RoughRecorder` and `AccurateRecorder` by configuration is not modelled.
