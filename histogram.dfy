/**
 The counter store of an accurate recorder, seen as a value.

 A store with threshold T keeps one slot per millisecond value 0 .. T-1 and an
 overflow map for the values of T milliseconds or more. This module defines
 what recording a sample, the effective count, the sorted snapshot and the
 end-of-window reset mean on such values, and proves their properties; the
 class `Perf4j.AccurateRecorder` is proved to implement them in place.
 */
module Histogram {
  import opened Sorting

  /** `slots[i]` counts the samples of exactly i ms below the threshold |slots|; `overflow` counts the others. */
  datatype Store = Store(slots: seq<int>, overflow: map<int, int>)

  /** The store invariant: counts are never negative and every overflow key is at or above the threshold. */
  ghost predicate WellFormed(st: Store)
  {
    && (forall i :: 0 <= i < |st.slots| ==> st.slots[i] >= 0)
    && (forall k :: k in st.overflow ==> k >= |st.slots| && st.overflow[k] >= 0)
  }

  /** The number of samples of exactly `v` ms held by the store. */
  function CountAt(st: Store, v: int): int
  {
    if 0 <= v < |st.slots| then st.slots[v]
    else if v in st.overflow then st.overflow[v]
    else 0
  }

  // ---------------------------------------------------------------------------
  // Recording one sample

  /** One sample of `elapsed` ms: its slot below the threshold, its overflow entry (created at 1) otherwise. */
  function Record(st: Store, elapsed: nat): (r: Store)
    ensures |r.slots| == |st.slots|
  {
    if elapsed < |st.slots| then
      st.(slots := st.slots[elapsed := st.slots[elapsed] + 1])
    else
      st.(overflow := st.overflow[elapsed := CountAt(st, elapsed) + 1])
  }

  /** Recording adds one sample at `elapsed` and changes the count of no other value. */
  lemma RecordCountAt(st: Store, elapsed: nat, v: int)
    requires WellFormed(st)
    ensures CountAt(Record(st, elapsed), v) == CountAt(st, v) + (if v == elapsed then 1 else 0)
  {
  }

  /** Recording keeps the store invariant; in particular a new overflow key is never below the threshold. */
  lemma RecordWellFormed(st: Store, elapsed: nat)
    requires WellFormed(st)
    ensures WellFormed(Record(st, elapsed))
  {
  }

  // ---------------------------------------------------------------------------
  // Effective count

  /** The slot indices holding a positive count. */
  ghost function PositiveSlots(s: seq<int>): set<int>
  {
    set i | 0 <= i < |s| && s[i] > 0
  }

  /** The overflow keys holding a positive count. */
  ghost function PositiveKeys(m: map<int, int>): set<int>
  {
    set k | k in m && m[k] > 0
  }

  /** The number of distinct millisecond values with a positive count. */
  ghost function EffectiveCount(st: Store): nat
  {
    |PositiveSlots(st.slots)| + |PositiveKeys(st.overflow)|
  }

  /** Extending a sequence by one slot adds that slot to the positive ones exactly when it is positive. */
  lemma PositiveSlotsSnoc(s: seq<int>, n: int)
    requires 0 <= n < |s|
    ensures PositiveSlots(s[..n + 1]) == PositiveSlots(s[..n]) + (if s[n] > 0 then {n} else {})
    ensures n !in PositiveSlots(s[..n])
  {
    assert forall i :: 0 <= i < n ==> s[..n + 1][i] == s[..n][i];
  }

  /** The positive slots of a prefix are among the positive slots of the whole. */
  lemma PositiveSlotsPrefix(s: seq<int>, n: int)
    requires 0 <= n <= |s|
    ensures PositiveSlots(s[..n]) <= PositiveSlots(s)
    ensures |PositiveSlots(s[..n])| <= |PositiveSlots(s)|
  {
    SubsetCard(PositiveSlots(s[..n]), PositiveSlots(s));
  }

  /** A subset is no larger than its superset, and equally large only when equal. */
  lemma SubsetCard(a: set<int>, b: set<int>)
    requires a <= b
    ensures |a| <= |b|
    ensures |a| == |b| ==> a == b
  {
    assert b == a + (b - a);
    if |a| == |b| {
      assert |b - a| == 0;
    }
  }

  /** Bumping one non-negative slot adds it to the positive slots exactly when it was zero. */
  lemma BumpSlot(s: seq<int>, e: int)
    requires 0 <= e < |s| && s[e] >= 0
    ensures |PositiveSlots(s[e := s[e] + 1])| == |PositiveSlots(s)| + (if s[e] == 0 then 1 else 0)
  {
    var s' := s[e := s[e] + 1];
    assert forall i :: 0 <= i < |s| && i != e ==> s'[i] == s[i];
    if s[e] == 0 {
      assert PositiveSlots(s') == PositiveSlots(s) + {e};
    } else {
      assert PositiveSlots(s') == PositiveSlots(s);
    }
  }

  /** Bumping one non-negative overflow entry (absent counts as zero) adds its key exactly when it was zero. */
  lemma BumpKey(m: map<int, int>, e: int, c: int)
    requires c >= 0 && c == (if e in m then m[e] else 0)
    ensures |PositiveKeys(m[e := c + 1])| == |PositiveKeys(m)| + (if c == 0 then 1 else 0)
  {
    var m' := m[e := c + 1];
    if c == 0 {
      assert PositiveKeys(m') == PositiveKeys(m) + {e};
    } else {
      assert PositiveKeys(m') == PositiveKeys(m);
    }
  }

  /** A recorded sample raises the effective count by one exactly when its value had no samples yet. */
  lemma RecordEffectiveCount(st: Store, elapsed: nat)
    requires WellFormed(st)
    ensures EffectiveCount(Record(st, elapsed)) == EffectiveCount(st) + (if CountAt(st, elapsed) == 0 then 1 else 0)
  {
    if elapsed < |st.slots| {
      BumpSlot(st.slots, elapsed);
    } else {
      BumpKey(st.overflow, elapsed, CountAt(st, elapsed));
    }
  }

  // ---------------------------------------------------------------------------
  // Snapshot: interleaved (value, count) pairs in ascending order of value

  /** The (index, count) pairs of the positive slots, in index order. */
  function SlotPairs(s: seq<int>): seq<int>
  {
    if s == [] then []
    else
      var n := |s| - 1;
      SlotPairs(s[..n]) + (if s[n] > 0 then [n, s[n]] else [])
  }

  /** Extending a prefix by one slot appends that slot's pair exactly when it is positive. */
  lemma SlotPairsSnoc(s: seq<int>, i: int)
    requires 0 <= i < |s|
    ensures SlotPairs(s[..i + 1]) == SlotPairs(s[..i]) + (if s[i] > 0 then [i, s[i]] else [])
  {
    assert s[..i + 1][..i] == s[..i];
  }

  /** The slot pairs of a prefix are no more than those of the whole sequence. */
  lemma SlotPairsPrefixLength(s: seq<int>, n: int)
    requires 0 <= n <= |s|
    ensures |SlotPairs(s[..n])| <= |SlotPairs(s)|
  {
    SlotPairsLength(s[..n]);
    SlotPairsLength(s);
    PositiveSlotsPrefix(s, n);
  }

  /** Each key of `keys` followed by its count in `m` (zero for a key `m` lacks). */
  ghost function Expand(keys: seq<int>, m: map<int, int>): (r: seq<int>)
    ensures |r| == 2 * |keys|
  {
    if keys == [] then []
    else [keys[0], if keys[0] in m then m[keys[0]] else 0] + Expand(keys[1..], m)
  }

  /** The pairs of the positive overflow entries, in ascending order of key. */
  ghost function OverflowPairs(m: map<int, int>): seq<int>
  {
    Expand(SortedElements(PositiveKeys(m)), m)
  }

  /** The sorted positive keys are keys of the map with positive counts. */
  lemma SortedKeysPositive(m: map<int, int>)
    ensures forall i :: 0 <= i < |SortedElements(PositiveKeys(m))| ==>
              SortedElements(PositiveKeys(m))[i] in m && m[SortedElements(PositiveKeys(m))[i]] > 0
  {
    var keys := SortedElements(PositiveKeys(m));
    forall i | 0 <= i < |keys|
      ensures keys[i] in m && m[keys[i]] > 0
    {
      assert keys[i] in keys;
      assert keys[i] in PositiveKeys(m);
    }
  }

  /** What a snapshot writes: the slot pairs, then the overflow pairs. */
  ghost function Snapshot(st: Store): seq<int>
  {
    SlotPairs(st.slots) + OverflowPairs(st.overflow)
  }

  /** Position `2j` of an expansion holds the j-th key and position `2j + 1` its count. */
  lemma {:induction false} ExpandAt(keys: seq<int>, m: map<int, int>, j: int)
    requires 0 <= j < |keys|
    ensures Expand(keys, m)[2 * j] == keys[j]
    ensures Expand(keys, m)[2 * j + 1] == if keys[j] in m then m[keys[j]] else 0
    decreases |keys|
  {
    if j > 0 {
      ExpandAt(keys[1..], m, j - 1);
    }
  }

  /** A slice holding each key followed by its count is the expansion of the keys. */
  lemma ExpandIs(a: seq<int>, lo: int, hi: int, keys: seq<int>, m: map<int, int>)
    requires 0 <= lo && hi == lo + 2 * |keys| <= |a|
    requires forall j :: 0 <= j < |keys| ==>
               keys[j] in m && a[lo + 2 * j] == keys[j] && a[lo + 2 * j + 1] == m[keys[j]]
    ensures a[lo..hi] == Expand(keys, m)
  {
    forall p | 0 <= p < hi - lo
      ensures a[lo..hi][p] == Expand(keys, m)[p]
    {
      var j := p / 2;
      ExpandAt(keys, m, j);
      if p % 2 == 0 {
        assert a[lo..hi][p] == a[lo + 2 * j];
      } else {
        assert a[lo..hi][p] == a[lo + 2 * j + 1];
      }
    }
  }

  /** The slot pairs are two entries per positive slot. */
  lemma {:induction false} SlotPairsLength(s: seq<int>)
    ensures |SlotPairs(s)| == 2 * |PositiveSlots(s)|
    decreases |s|
  {
    if s != [] {
      var n := |s| - 1;
      SlotPairsLength(s[..n]);
      PositiveSlotsSnoc(s, n);
      assert s[..n + 1] == s;
    }
  }

  /** The j-th slot pair names a slot of `s` and is followed by that slot's count, which is positive. */
  lemma {:induction false} SlotPairsAt(s: seq<int>, j: int)
    requires 0 <= 2 * j < |SlotPairs(s)|
    ensures 2 * j + 1 < |SlotPairs(s)|
    ensures 0 <= SlotPairs(s)[2 * j] < |s|
    ensures SlotPairs(s)[2 * j + 1] == s[SlotPairs(s)[2 * j]] > 0
    decreases |s|
  {
    SlotPairsLength(s);
    var n := |s| - 1;
    var p := SlotPairs(s[..n]);
    SlotPairsLength(s[..n]);
    if 2 * j < |p| {
      SlotPairsAt(s[..n], j);
      assert SlotPairs(s)[2 * j] == p[2 * j] && SlotPairs(s)[2 * j + 1] == p[2 * j + 1];
      assert s[..n][p[2 * j]] == s[p[2 * j]];
    }
  }

  /** The slot indices of the slot pairs ascend strictly. */
  lemma {:induction false} SlotPairsOrdered(s: seq<int>, i: int, j: int)
    requires 0 <= i < j && 2 * j < |SlotPairs(s)|
    ensures SlotPairs(s)[2 * i] < SlotPairs(s)[2 * j]
    decreases |s|
  {
    var n := |s| - 1;
    var p := SlotPairs(s[..n]);
    SlotPairsLength(s[..n]);
    SlotPairsAt(s[..n], i);
    assert SlotPairs(s)[2 * i] == p[2 * i];
    if 2 * j < |p| {
      SlotPairsOrdered(s[..n], i, j);
    } else {
      assert SlotPairs(s)[2 * j] == n;
    }
  }

  /** Every positive slot has its pair among the slot pairs. */
  lemma {:induction false} SlotPairsIndex(s: seq<int>, v: int) returns (j: int)
    requires v in PositiveSlots(s)
    ensures 0 <= 2 * j < |SlotPairs(s)| && SlotPairs(s)[2 * j] == v
    decreases |s|
  {
    var n := |s| - 1;
    var p := SlotPairs(s[..n]);
    SlotPairsLength(s[..n]);
    PositiveSlotsSnoc(s, n);
    assert s[..n + 1] == s;
    if v == n {
      j := |p| / 2;
    } else {
      assert v in PositiveSlots(s[..n]);
      j := SlotPairsIndex(s[..n], v);
      assert SlotPairs(s)[2 * j] == p[2 * j];
    }
  }

  /** The snapshot holds one (value, count) pair per value with a positive count. */
  lemma SnapshotLength(st: Store)
    ensures |Snapshot(st)| == 2 * EffectiveCount(st)
  {
    SlotPairsLength(st.slots);
  }

  /** A snapshot position reads from the slot pairs, then from the overflow pairs. */
  lemma SnapshotEntry(st: Store, x: int)
    requires 0 <= x < |Snapshot(st)|
    ensures x < |SlotPairs(st.slots)| ==> Snapshot(st)[x] == SlotPairs(st.slots)[x]
    ensures x >= |SlotPairs(st.slots)| ==> Snapshot(st)[x] == OverflowPairs(st.overflow)[x - |SlotPairs(st.slots)|]
  {
  }

  /** The value of the j-th pair of a snapshot of a well-formed store is followed by its positive count. */
  lemma SnapshotAt(st: Store, j: int)
    requires WellFormed(st)
    requires 0 <= 2 * j < |Snapshot(st)|
    ensures 2 * j + 1 < |Snapshot(st)|
    ensures Snapshot(st)[2 * j + 1] == CountAt(st, Snapshot(st)[2 * j]) > 0
  {
    var n, h := |SlotPairs(st.slots)|, |PositiveSlots(st.slots)|;
    SlotPairsLength(st.slots);
    SnapshotLength(st);
    SnapshotEntry(st, 2 * j);
    SnapshotEntry(st, 2 * j + 1);
    if 2 * j < n {
      SlotPairsAt(st.slots, j);
    } else {
      OverflowPairsAt(st.overflow, j - h);
    }
  }

  /** The k-th overflow pair is a key of the map, followed by its positive count. */
  lemma OverflowPairsAt(m: map<int, int>, k: int)
    requires 0 <= 2 * k < |OverflowPairs(m)|
    ensures 2 * k + 1 < |OverflowPairs(m)|
    ensures OverflowPairs(m)[2 * k] in m
    ensures OverflowPairs(m)[2 * k + 1] == m[OverflowPairs(m)[2 * k]] > 0
  {
    var keys := SortedElements(PositiveKeys(m));
    SortedKeysPositive(m);
    ExpandAt(keys, m, k);
  }

  /** The keys of the overflow pairs ascend strictly, and each is a positive key. */
  lemma OverflowPairsOrdered(m: map<int, int>, i: int, k: int)
    requires 0 <= i < k && 2 * k < |OverflowPairs(m)|
    ensures OverflowPairs(m)[2 * i] < OverflowPairs(m)[2 * k]
  {
    var keys := SortedElements(PositiveKeys(m));
    SortedKeysPositive(m);
    ExpandAt(keys, m, i);
    ExpandAt(keys, m, k);
  }

  /** Every positive key has its pair among the overflow pairs. */
  lemma OverflowPairsIndex(m: map<int, int>, v: int) returns (k: int)
    requires v in m && m[v] > 0
    ensures 0 <= 2 * k < |OverflowPairs(m)| && OverflowPairs(m)[2 * k] == v
  {
    var keys := SortedElements(PositiveKeys(m));
    assert v in PositiveKeys(m);
    assert v in keys;
    k :| 0 <= k < |keys| && keys[k] == v;
    ExpandAt(keys, m, k);
  }

  /** In a well-formed store every slot value lies below every overflow key. */
  lemma SlotBelowOverflow(st: Store, i: int, k: int)
    requires WellFormed(st)
    requires 0 <= 2 * i < |SlotPairs(st.slots)| && 0 <= 2 * k < |OverflowPairs(st.overflow)|
    ensures SlotPairs(st.slots)[2 * i] < OverflowPairs(st.overflow)[2 * k]
  {
    SlotPairsAt(st.slots, i);
    OverflowPairsAt(st.overflow, k);
  }

  /** The values listed by a snapshot of a well-formed store ascend strictly. */
  lemma SnapshotPairOrdered(st: Store, i: int, j: int)
    requires WellFormed(st)
    requires 0 <= i < j && 2 * j < |Snapshot(st)|
    ensures Snapshot(st)[2 * i] < Snapshot(st)[2 * j]
  {
    if 2 * j < |SlotPairs(st.slots)| {
      SnapshotOrderedInSlots(st, i, j);
    } else if 2 * i < |SlotPairs(st.slots)| {
      SnapshotOrderedAcross(st, i, j);
    } else {
      SnapshotOrderedInOverflow(st, i, j);
    }
  }

  lemma SnapshotOrderedInSlots(st: Store, i: int, j: int)
    requires 0 <= i < j && 2 * j < |SlotPairs(st.slots)|
    ensures Snapshot(st)[2 * i] < Snapshot(st)[2 * j]
  {
    SlotPairsOrdered(st.slots, i, j);
  }

  lemma SnapshotOrderedAcross(st: Store, i: int, j: int)
    requires WellFormed(st)
    requires 0 <= 2 * i < |SlotPairs(st.slots)| <= 2 * j < |Snapshot(st)|
    ensures Snapshot(st)[2 * i] < Snapshot(st)[2 * j]
  {
    var h := |PositiveSlots(st.slots)|;
    SlotPairsLength(st.slots);
    SnapshotEntry(st, 2 * j);
    SlotBelowOverflow(st, i, j - h);
  }

  lemma SnapshotOrderedInOverflow(st: Store, i: int, j: int)
    requires |SlotPairs(st.slots)| <= 2 * i && i < j && 2 * j < |Snapshot(st)|
    ensures Snapshot(st)[2 * i] < Snapshot(st)[2 * j]
  {
    var h := |PositiveSlots(st.slots)|;
    SlotPairsLength(st.slots);
    SnapshotEntry(st, 2 * i);
    SnapshotEntry(st, 2 * j);
    OverflowPairsOrdered(st.overflow, i - h, j - h);
  }

  /**
   In a snapshot of a well-formed store the values (even positions) are
   strictly ascending, so none repeats, and every count (odd position) is
   positive.
   */
  lemma SnapshotOrdered(st: Store)
    requires WellFormed(st)
    ensures forall a, b :: 0 <= a < b < |Snapshot(st)| && a % 2 == 0 && b % 2 == 0 ==> Snapshot(st)[a] < Snapshot(st)[b]
    ensures forall a :: 0 <= a < |Snapshot(st)| && a % 2 == 1 ==> Snapshot(st)[a] > 0
  {
    var snap := Snapshot(st);
    forall a, b | 0 <= a < b < |snap| && a % 2 == 0 && b % 2 == 0
      ensures snap[a] < snap[b]
    {
      var i, j := a / 2, b / 2;
      assert a == 2 * i && b == 2 * j;
      SnapshotPairOrdered(st, i, j);
    }
    forall a | 0 <= a < |snap| && a % 2 == 1
      ensures snap[a] > 0
    {
      var j := a / 2;
      assert a == 2 * j + 1;
      SnapshotAt(st, j);
    }
  }

  /** In a snapshot of a well-formed store each value is followed by its count in the store. */
  lemma SnapshotCounts(st: Store)
    requires WellFormed(st)
    ensures |Snapshot(st)| % 2 == 0
    ensures forall a :: 0 <= a < |Snapshot(st)| && a % 2 == 0 ==> Snapshot(st)[a + 1] == CountAt(st, Snapshot(st)[a])
  {
    SnapshotLength(st);
    var snap := Snapshot(st);
    forall a | 0 <= a < |snap| && a % 2 == 0
      ensures snap[a + 1] == CountAt(st, snap[a])
    {
      var j := a / 2;
      assert a == 2 * j;
      SnapshotAt(st, j);
    }
  }

  /** A snapshot lists every value that has a positive count. */
  lemma SnapshotCovers(st: Store)
    ensures forall v :: CountAt(st, v) > 0 ==>
              exists a :: 0 <= a < |Snapshot(st)| && a % 2 == 0 && Snapshot(st)[a] == v
  {
    forall v | CountAt(st, v) > 0
      ensures exists a :: 0 <= a < |Snapshot(st)| && a % 2 == 0 && Snapshot(st)[a] == v
    {
      var j := SnapshotIndex(st, v);
      assert Snapshot(st)[2 * j] == v;
    }
  }

  /** Every value with a positive count is the value of some pair of the snapshot. */
  lemma SnapshotIndex(st: Store, v: int) returns (j: int)
    requires CountAt(st, v) > 0
    ensures 0 <= 2 * j < |Snapshot(st)| && Snapshot(st)[2 * j] == v
  {
    if 0 <= v < |st.slots| {
      j := SnapshotIndexInSlots(st, v);
    } else {
      j := SnapshotIndexInOverflow(st, v);
    }
  }

  lemma SnapshotIndexInSlots(st: Store, v: int) returns (j: int)
    requires 0 <= v < |st.slots| && st.slots[v] > 0
    ensures 0 <= 2 * j < |Snapshot(st)| && Snapshot(st)[2 * j] == v
  {
    assert v in PositiveSlots(st.slots);
    j := SlotPairsIndex(st.slots, v);
  }

  lemma SnapshotIndexInOverflow(st: Store, v: int) returns (j: int)
    requires v in st.overflow && st.overflow[v] > 0
    ensures 0 <= 2 * j < |Snapshot(st)| && Snapshot(st)[2 * j] == v
  {
    var h := |PositiveSlots(st.slots)|;
    SlotPairsLength(st.slots);
    var k := OverflowPairsIndex(st.overflow, v);
    j := h + k;
    SnapshotEntry(st, 2 * j);
  }

  // ---------------------------------------------------------------------------
  // Reset at the end of a window

  /**
   The decay rule: an overflow entry is dropped when its key exceeds 1.5
   times the threshold (written without fractions) or its count is not positive.
   */
  predicate Evicted(key: int, count: int, threshold: nat)
  {
    2 * key > 3 * threshold || count <= 0
  }

  /** Every slot zeroed; the overflow entries that survive the decay rule kept with count 0. */
  function Reset(st: Store): (r: Store)
    ensures |r.slots| == |st.slots|
  {
    Store(seq(|st.slots|, _ => 0),
          map k | k in st.overflow && !Evicted(k, st.overflow[k], |st.slots|) :: 0)
  }

  /** After a reset no value has samples, the effective count is zero and the invariant holds. */
  lemma ResetClears(st: Store)
    requires WellFormed(st)
    ensures WellFormed(Reset(st))
    ensures forall v :: CountAt(Reset(st), v) == 0
    ensures EffectiveCount(Reset(st)) == 0
  {
    var r := Reset(st);
    assert PositiveSlots(r.slots) == {};
    assert PositiveKeys(r.overflow) == {};
  }

  /** Only moderate keys (at most 1.5 times the threshold) that had samples keep their entry. */
  lemma ResetRetains(st: Store, k: int)
    ensures k in Reset(st).overflow <==> k in st.overflow && 2 * k <= 3 * |st.slots| && st.overflow[k] > 0
  {
  }

  /** Two resets with no sample in between drop every overflow entry. */
  lemma ResetTwiceEmpties(st: Store)
    ensures Reset(Reset(st)).overflow == map[]
    ensures Reset(Reset(st)).slots == Reset(st).slots
  {
  }

  /** The overflow entries outnumber, or equal, the positive ones; equality means no entry holds a zero count. */
  lemma OverflowSizeBound(m: map<int, int>)
    ensures |PositiveKeys(m)| <= |m|
    ensures |PositiveKeys(m)| == |m| <==> forall k :: k in m ==> m[k] > 0
  {
    SubsetCard(PositiveKeys(m), m.Keys);
    if forall k :: k in m ==> m[k] > 0 {
      assert PositiveKeys(m) == m.Keys;
    }
  }

  // ---------------------------------------------------------------------------
  // One window, end to end

  /**
   With threshold 100, samples of 50 ms and 100 ms give effective count 2
   and the snapshot [50, 1, 100, 1]; a reset clears the counts but keeps
   the entry for 100 (not above 150) at 0, so a further sample of 100 ms
   counts 1 there, not 2.
   */
  lemma WindowScenario()
    ensures var st := Record(Record(Store(seq(100, _ => 0), map[]), 50), 100);
            && EffectiveCount(st) == 2
            && Snapshot(st) == [50, 1, 100, 1]
            && EffectiveCount(Reset(st)) == 0
            && 100 in Reset(st).overflow
            && CountAt(Record(Reset(st), 100), 100) == 1
  {
    var empty := Store(seq(100, _ => 0), map[]);
    var st1 := Record(empty, 50);
    var st := Record(st1, 100);
    assert PositiveSlots(empty.slots) == {};
    assert PositiveKeys(empty.overflow) == {};
    RecordWellFormed(empty, 50);
    RecordWellFormed(st1, 100);
    RecordEffectiveCount(empty, 50);
    RecordCountAt(empty, 50, 100);
    RecordEffectiveCount(st1, 100);

    forall v | CountAt(st, v) > 0
      ensures v == 50 || v == 100
    {
      RecordCountAt(st1, 100, v);
      RecordCountAt(empty, 50, v);
    }
    RecordCountAt(st1, 100, 50);
    RecordCountAt(empty, 50, 50);
    RecordCountAt(st1, 100, 100);
    var snap := Snapshot(st);
    SnapshotLength(st);
    SnapshotAt(st, 0);
    SnapshotAt(st, 1);
    SnapshotPairOrdered(st, 0, 1);
    assert snap[0] == 50 && snap[2] == 100;
    assert snap == [50, 1, 100, 1];

    ResetClears(st);
    ResetRetains(st, 100);
    RecordCountAt(Reset(st), 100, 100);
  }
}
