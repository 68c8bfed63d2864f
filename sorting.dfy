/**
 Ordered and duplicate-free sequences of integers, the sorted listing of a
 finite set, and an in-place sort of a sub-range of an array (the role that
 `Arrays.sort(arr, from, to)` plays in the recorder's snapshot).
 */
module Sorting {

  ghost predicate Sorted(s: seq<int>)
  {
    forall p, q :: 0 <= p < q < |s| ==> s[p] <= s[q]
  }

  ghost predicate StrictlyIncreasing(s: seq<int>)
  {
    forall p, q :: 0 <= p < q < |s| ==> s[p] < s[q]
  }

  ghost predicate Distinct(s: seq<int>)
  {
    forall p, q :: 0 <= p < q < |s| ==> s[p] != s[q]
  }

  /** Some element of a non-empty set. */
  method Choose<T>(s: set<T>) returns (x: T)
    requires s != {}
    ensures x in s
  {
    x :| x in s;
  }

  /** Some element of a non-empty set, for ghost code: `:|` on a set of integers finds no witness by itself. */
  lemma PickElement<T>(s: set<T>) returns (x: T)
    requires s != {}
    ensures x in s
  {
    x :| x in s;
  }

  /** Every non-empty finite set of integers has a least element. */
  lemma {:induction false} MinExists(s: set<int>)
    requires s != {}
    ensures exists x :: x in s && forall y :: y in s ==> x <= y
    decreases s
  {
    var y := PickElement(s);
    if s != {y} {
      MinExists(s - {y});
      var x :| x in s - {y} && forall z :: z in s - {y} ==> x <= z;
      var m := if y < x then y else x;
      forall z | z in s
        ensures m <= z
      {
        if z != y {
          assert z in s - {y};
        }
      }
    } else {
      forall z | z in s
        ensures y <= z
      {
        assert z in {y};
      }
    }
  }

  ghost function MinOf(s: set<int>): (x: int)
    requires s != {}
    ensures x in s && forall y :: y in s ==> x <= y
  {
    MinExists(s);
    var x :| x in s && forall y :: y in s ==> x <= y; x
  }

  /** The elements of a finite set, listed in ascending order. */
  ghost function SortedElements(s: set<int>): (r: seq<int>)
    ensures StrictlyIncreasing(r)
    ensures forall x :: x in r <==> x in s
    ensures |r| == |s|
    decreases s
  {
    if s == {} then []
    else
      var x := MinOf(s);
      var rest := SortedElements(s - {x});
      assert forall q :: 0 <= q < |rest| ==> x < rest[q] by {
        forall q | 0 <= q < |rest| ensures x < rest[q] {
          assert rest[q] in s - {x};
        }
      }
      [x] + rest
  }

  /** An ascending duplicate-free sequence is determined by its elements. */
  lemma {:induction false} StrictlyIncreasingUnique(a: seq<int>, b: seq<int>)
    requires StrictlyIncreasing(a) && StrictlyIncreasing(b)
    requires forall x :: x in a <==> x in b
    ensures a == b
    decreases |a|
  {
    assert a != [] ==> a[0] in a && a[0] in b;
    assert b != [] ==> b[0] in b && b[0] in a;
    if a != [] {
      assert a[0] in a;
      assert a[0] in b;
      assert b[0] in b;
      assert b[0] in a;
      assert a[0] == b[0] by {
        var i :| 0 <= i < |a| && a[i] == b[0];
        var j :| 0 <= j < |b| && b[j] == a[0];
        assert a[0] <= a[i];
        assert b[0] <= b[j];
      }
      forall x
        ensures x in a[1..] <==> x in b[1..]
      {
        if x in a[1..] {
          var i :| 1 <= i < |a| && a[i] == x;
          assert x != a[0] && x in b;
          var j :| 0 <= j < |b| && b[j] == x;
          assert j != 0;
        }
        if x in b[1..] {
          var j :| 1 <= j < |b| && b[j] == x;
          assert x != b[0] && x in a;
          var i :| 0 <= i < |a| && a[i] == x;
          assert i != 0;
        }
      }
      StrictlyIncreasingUnique(a[1..], b[1..]);
      assert a == [a[0]] + a[1..] && b == [b[0]] + b[1..];
    }
  }

  /** Appending a new value keeps a sequence duplicate-free. */
  lemma DistinctSnoc(s: seq<int>, x: int)
    requires Distinct(s) && x !in s
    ensures Distinct(s + [x])
  {
    var t := s + [x];
    forall p, q | 0 <= p < q < |t|
      ensures t[p] != t[q]
    {
      if q == |s| {
        assert t[p] == s[p] && s[p] in s;
      } else {
        assert t[p] == s[p] && t[q] == s[q];
      }
    }
  }

  /** A sorted sequence without duplicates is strictly increasing. */
  lemma SortedDistinctIncreasing(s: seq<int>)
    requires Sorted(s) && Distinct(s)
    ensures StrictlyIncreasing(s)
  {
  }

  /** In a duplicate-free sequence every value occurs at most once. */
  lemma {:induction false} DistinctMultiplicity(s: seq<int>, v: int)
    requires Distinct(s)
    ensures multiset(s)[v] <= 1
    decreases |s|
  {
    if s != [] {
      var n := |s| - 1;
      assert s == s[..n] + [s[n]];
      assert Distinct(s[..n]);
      DistinctMultiplicity(s[..n], v);
      if s[n] == v {
        assert v !in s[..n];
      }
    }
  }

  /** A value found at two positions of a sequence occurs at least twice. */
  lemma RepeatedMultiplicity(s: seq<int>, p: int, q: int)
    requires 0 <= p < q < |s| && s[p] == s[q]
    ensures multiset(s)[s[p]] >= 2
  {
    assert s == s[..q] + [s[q]] + s[q + 1..];
    assert s[p] in s[..q];
  }

  /** A rearrangement of a duplicate-free sequence is duplicate-free and has the same elements. */
  lemma DistinctPermutation(d: seq<int>, r: seq<int>)
    requires Distinct(d) && multiset(r) == multiset(d)
    ensures Distinct(r)
    ensures forall x :: x in r <==> x in d
  {
    forall p, q | 0 <= p < q < |r|
      ensures r[p] != r[q]
    {
      if r[p] == r[q] {
        RepeatedMultiplicity(r, p, q);
        DistinctMultiplicity(d, r[p]);
        assert false;
      }
    }
    forall x
      ensures x in r <==> x in d
    {
      assert x in r <==> x in multiset(r);
      assert x in d <==> x in multiset(d);
    }
  }

  /** Sorting a duplicate-free listing of a set yields the set's ascending listing. */
  lemma SortedListing(listing: seq<int>, sorted: seq<int>, s: set<int>)
    requires Distinct(listing) && (forall x :: x in listing <==> x in s)
    requires Sorted(sorted) && multiset(sorted) == multiset(listing)
    ensures sorted == SortedElements(s)
  {
    DistinctPermutation(listing, sorted);
    SortedDistinctIncreasing(sorted);
    StrictlyIncreasingUnique(sorted, SortedElements(s));
  }

  /**
   When a rearrangement of `before` agrees with it outside `[lo, hi)`, it
   rearranges `before[lo..hi]` alone.
   */
  lemma RangePermutation(before: seq<int>, after: seq<int>, lo: int, hi: int)
    requires 0 <= lo <= hi <= |before| == |after|
    requires multiset(after) == multiset(before)
    requires forall k :: 0 <= k < lo || hi <= k < |before| ==> after[k] == before[k]
    ensures multiset(after[lo..hi]) == multiset(before[lo..hi])
  {
    var pre, post := before[..lo], before[hi..];
    assert after[..lo] == pre;
    assert after[hi..] == post;
    assert before == pre + before[lo..hi] + post;
    assert after == pre + after[lo..hi] + post;
    forall v
      ensures multiset(after[lo..hi])[v] == multiset(before[lo..hi])[v]
    {
      assert multiset(after)[v] == multiset(before)[v];
    }
  }

  /** A slice is the sequence it agrees with position by position. */
  lemma SliceIs(a: seq<int>, lo: int, hi: int, s: seq<int>)
    requires 0 <= lo <= hi <= |a| && hi - lo == |s|
    requires forall j :: 0 <= j < |s| ==> a[lo + j] == s[j]
    ensures a[lo..hi] == s
  {
    assert forall j :: 0 <= j < |s| ==> a[lo..hi][j] == a[lo + j];
  }

  /** Each position of a slice holds the corresponding element of the sequence it equals. */
  lemma SliceAt(a: seq<int>, lo: int, hi: int, s: seq<int>)
    requires 0 <= lo <= hi <= |a| && a[lo..hi] == s
    ensures |s| == hi - lo
    ensures forall j :: 0 <= j < |s| ==> a[lo + j] == s[j]
  {
    assert forall j :: 0 <= j < |s| ==> s[j] == a[lo..hi][j];
  }

  /** A prefix made of two consecutive slices is their concatenation. */
  lemma PrefixConcat(a: seq<int>, mid: int, n: int, hi: int, p: seq<int>, q: seq<int>)
    requires 0 <= mid && 0 <= n && mid + n <= |a| && hi == mid + n
    requires a[..mid] == p && a[mid..mid + n] == q
    ensures a[..hi] == p + q
  {
    assert a[..hi] == a[..mid] + a[mid..hi];
  }

  /** Order of each adjacent pair within `[lo, hi)` orders every pair there. */
  lemma {:induction false} AdjacentChain(s: seq<int>, lo: int, hi: int, p: int, q: int)
    requires 0 <= lo <= p <= q < hi <= |s|
    requires forall k :: lo <= k < hi - 1 ==> s[k] <= s[k + 1]
    ensures s[p] <= s[q]
    decreases q - p
  {
    if p < q {
      AdjacentChain(s, lo, hi, p, q - 1);
    }
  }

  /** A range whose adjacent pairs are ordered is a sorted slice. */
  lemma AdjacentSorted(s: seq<int>, lo: int, hi: int)
    requires 0 <= lo <= hi <= |s|
    requires forall k :: lo <= k < hi - 1 ==> s[k] <= s[k + 1]
    ensures Sorted(s[lo..hi])
  {
    forall p, q | 0 <= p < q < hi - lo
      ensures s[lo..hi][p] <= s[lo..hi][q]
    {
      AdjacentChain(s, lo, hi, lo + p, lo + q);
    }
  }

  /**
   Sorts `a[lo..hi]` ascending in place and leaves the rest of `a` alone:
   an insertion sort by adjacent swaps.
   */
  method SortRange(a: array<int>, lo: int, hi: int)
    requires 0 <= lo <= hi <= a.Length
    modifies a
    ensures Sorted(a[lo..hi])
    ensures multiset(a[lo..hi]) == multiset(old(a[lo..hi]))
    ensures a[..lo] == old(a[..lo])
    ensures forall k :: 0 <= k < lo || hi <= k < a.Length ==> a[k] == old(a[k])
  {
    ghost var before := a[..];
    var i := lo;
    while i < hi
      invariant lo <= i <= hi
      invariant forall k :: lo <= k < i - 1 ==> a[k] <= a[k + 1]
      invariant multiset(a[..]) == multiset(before)
      invariant forall k :: 0 <= k < lo || hi <= k < a.Length ==> a[k] == before[k]
    {
      InsertDown(a, lo, i);
      i := i + 1;
    }
    assert forall k :: 0 <= k < lo ==> a[..lo][k] == before[..lo][k];
    RangePermutation(before, a[..], lo, hi);
    AdjacentSorted(a[..], lo, hi);
    assert a[..][lo..hi] == a[lo..hi];
  }

  /**
   With `a[lo..i]` sorted, moves `a[i]` down past every larger element so
   that `a[lo..i + 1]` is sorted; nothing outside that range moves.
   */
  method InsertDown(a: array<int>, lo: int, i: int)
    requires 0 <= lo <= i < a.Length
    requires forall k :: lo <= k < i - 1 ==> a[k] <= a[k + 1]
    modifies a
    ensures forall k :: lo <= k < i ==> a[k] <= a[k + 1]
    ensures multiset(a[..]) == multiset(old(a[..]))
    ensures forall k :: 0 <= k < lo || i < k < a.Length ==> a[k] == old(a[k])
  {
    var j := i;
    while j > lo && a[j - 1] > a[j]
      invariant lo <= j <= i
      invariant forall k :: lo <= k < j - 1 ==> a[k] <= a[k + 1]
      invariant forall k :: j < k < i ==> a[k] <= a[k + 1]
      invariant lo < j < i ==> a[j - 1] <= a[j + 1]
      invariant j < i ==> a[j] < a[j + 1]
      invariant multiset(a[..]) == multiset(old(a[..]))
      invariant forall k :: 0 <= k < lo || i < k < a.Length ==> a[k] == old(a[k])
    {
      Swap(a, j - 1, j);
      j := j - 1;
    }
  }

  /** Exchanges `a[p]` and `a[q]`; the multiset of `a` is kept. */
  method Swap(a: array<int>, p: int, q: int)
    requires 0 <= p < a.Length && 0 <= q < a.Length
    modifies a
    ensures a[p] == old(a[q]) && a[q] == old(a[p])
    ensures forall k :: 0 <= k < a.Length && k != p && k != q ==> a[k] == old(a[k])
    ensures multiset(a[..]) == multiset(old(a[..]))
  {
    a[p], a[q] := a[q], a[p];
  }
}
