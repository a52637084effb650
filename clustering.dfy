/** The greedy interval-conflict clustering of greedy_clustering/clustering.py (default mode):
  * conflict tests, the two earliest-finish scans, the pairwise seed ranking, the growth pass
  * and the outer loop that drains the timing-trace store. The module globals of the source
  * (`timing_data`, `personality_dict`, `homogeneous`) are explicit parameters here. */
module Clustering {
  import opened Wrappers
  import opened Lists
  import opened DataStructures

  /** The source's `exit()` paths. */
  datatype ClusteringError = NoSlicesProvided | NoKernelTimingData | OverlapsInBin

  // ---------------------------------------------------------------------------
  // Conflict tests
  // ---------------------------------------------------------------------------

  /** `check_conflict`: half-open intervals conflict exactly when they share a point, so
    * intervals that only touch, such as (0, 5) and (5, 10), do not conflict. */
  function CheckConflict(start1: int, end1: int, start2: int, end2: int): (r: bool)
    ensures r <==> start1 < end2 && start2 < end1
  {
    !(end1 <= start2 || start1 >= end2)
  }

  /** `check_overlap_v2` is the same test as `check_conflict`, and symmetric. */
  function CheckOverlapV2(interval1: Slice, interval2: Slice): (r: bool)
    ensures r == CheckConflict(interval1.start, interval1.end, interval2.start, interval2.end)
    ensures r == CheckConflict(interval2.start, interval2.end, interval1.start, interval1.end)
  {
    interval1.start < interval2.end && interval1.end > interval2.start
  }

  function Span(s: Slice): (int, int)
  {
    (s.start, s.end)
  }

  /** `check_conflict_slice_vs_slices(slice1, slices)[0]`: does the interval conflict with
    * any slice of the list? */
  function CheckConflictSliceVsSlices(slice1: (int, int), slices: seq<Slice>): (r: bool)
    ensures r <==> exists j :: 0 <= j < |slices| &&
                     CheckConflict(slice1.0, slice1.1, slices[j].start, slices[j].end)
  {
    if slices == [] then false
    else CheckConflict(slice1.0, slice1.1, slices[0].start, slices[0].end) ||
         CheckConflictSliceVsSlices(slice1, slices[1..])
  }

  /** No two slices of the list overlap. */
  predicate NoConflicts(s: seq<Slice>)
  {
    forall i, j :: 0 <= i < j < |s| ==> !CheckOverlapV2(s[i], s[j])
  }

  /** Every slice is a proper interval. */
  predicate WellFormed(s: seq<Slice>)
  {
    forall i :: 0 <= i < |s| ==> s[i].start <= s[i].end
  }

  /** Position pair `p` comes before `q` in the order of the two nested loops: by first
    * position, then by second. */
  predicate LoopOrder(p: (nat, nat), q: (nat, nat))
  {
    p.0 < q.0 || (p.0 == q.0 && p.1 < q.1)
  }

  /** The positions `(a, b)`, `b >= j`, of the pairs that overlap, in increasing `b`. */
  function OverlapsWith(data: seq<Slice>, a: nat, j: nat): (r: seq<(nat, nat)>)
    requires a < |data|
    ensures forall k :: 0 <= k < |r| ==>
      r[k].0 == a && j <= r[k].1 < |data| && CheckOverlapV2(data[a], data[r[k].1])
    ensures forall b :: j <= b < |data| && CheckOverlapV2(data[a], data[b]) ==> (a, b) in r
    ensures forall k1, k2 :: 0 <= k1 < k2 < |r| ==> r[k1].1 < r[k2].1
    decreases |data| - j
  {
    if j >= |data| then []
    else (if CheckOverlapV2(data[a], data[j]) then [(a, j)] else []) +
         OverlapsWith(data, a, j + 1)
  }

  /** The positions `(a, b)`, `i <= a < b`, of the pairs that overlap: exactly those pairs,
    * in the order of the two nested loops. */
  function OverlapsFrom(data: seq<Slice>, i: nat): (r: seq<(nat, nat)>)
    ensures forall k :: 0 <= k < |r| ==>
      i <= r[k].0 < r[k].1 < |data| && CheckOverlapV2(data[r[k].0], data[r[k].1])
    ensures forall a, b :: i <= a < b < |data| && CheckOverlapV2(data[a], data[b]) ==> (a, b) in r
    ensures forall k1, k2 :: 0 <= k1 < k2 < |r| ==> LoopOrder(r[k1], r[k2])
    decreases |data| - i
  {
    if i >= |data| then []
    else
      var w, rest := OverlapsWith(data, i, i + 1), OverlapsFrom(data, i + 1);
      assert forall a, b :: i <= a < b < |data| && CheckOverlapV2(data[a], data[b]) ==>
        (a, b) in w + rest by {
        forall a, b | i <= a < b < |data| && CheckOverlapV2(data[a], data[b])
          ensures (a, b) in w + rest
        {
          if a == i { assert (a, b) in w; } else { assert (a, b) in rest; }
        }
      }
      w + rest
  }

  /** `find_overlaps_for_bin`: the pairs of slices at the overlapping positions, in the order
    * of the two nested loops; empty exactly when no two of its slices overlap. */
  function FindOverlapsForBin(data: seq<Slice>): (r: seq<(Slice, Slice)>)
    ensures var ps := OverlapsFrom(data, 0);
      |r| == |ps| && forall k :: 0 <= k < |r| ==> r[k] == (data[ps[k].0], data[ps[k].1])
    ensures r == [] <==> NoConflicts(data)
  {
    var ps := OverlapsFrom(data, 0);
    OverlapsFromEmpty(data);
    seq(|ps|, k requires 0 <= k < |ps| => (data[ps[k].0], data[ps[k].1]))
  }

  /** No overlapping position is listed exactly when no two slices overlap. */
  lemma OverlapsFromEmpty(data: seq<Slice>)
    ensures OverlapsFrom(data, 0) == [] <==> NoConflicts(data)
  {
    var ps := OverlapsFrom(data, 0);
    if ps != [] {
      assert CheckOverlapV2(data[ps[0].0], data[ps[0].1]);
    } else {
      forall i, j | 0 <= i < j < |data| ensures !CheckOverlapV2(data[i], data[j]) {
        assert CheckOverlapV2(data[i], data[j]) ==> (i, j) in ps;
      }
    }
  }

  /** Slices at positions `a < b` of the list that overlap. */
  predicate OverlappingPair(data: seq<Slice>, p: (Slice, Slice))
  {
    exists a, b :: 0 <= a < b < |data| && CheckOverlapV2(data[a], data[b]) && p == (data[a], data[b])
  }

  /** Every pair `find_overlaps_for_bin` lists overlaps, and every overlapping pair is listed. */
  lemma FindOverlapsForBinPairs(data: seq<Slice>, p: (Slice, Slice))
    ensures p in FindOverlapsForBin(data) <==> OverlappingPair(data, p)
  {
    var ps, r := OverlapsFrom(data, 0), FindOverlapsForBin(data);
    if p in r {
      var k :| 0 <= k < |r| && r[k] == p;
      assert CheckOverlapV2(data[ps[k].0], data[ps[k].1]);
    }
    if OverlappingPair(data, p) {
      var a, b :| 0 <= a < b < |data| && CheckOverlapV2(data[a], data[b]) && p == (data[a], data[b]);
      assert (a, b) in ps;
      var k := PositionOf(ps, (a, b));
      assert r[k] == p;
    }
  }

  /** `has_duplicates`: `len(lst) != len(set(lst))` holds exactly when two positions of the
    * list hold the same value. */
  function HasDuplicates(lst: seq<nat>): (r: bool)
    ensures r <==> !Distinct(lst)
  {
    ToSetCardinality(lst);
    |lst| != |ToSet(lst)|
  }

  lemma StrictlyIncreasingDistinct(s: seq<nat>)
    requires StrictlyIncreasing(s)
    ensures Distinct(s)
  {
  }

  // ---------------------------------------------------------------------------
  // Earliest-finish scans
  // ---------------------------------------------------------------------------

  /** Positions `p >= i` of `data` that the scan accepts when `lastEnd` is the end of the
    * slice accepted last before `p`: a slice is accepted when it starts at or after it. */
  function GreedyFrom(data: seq<Slice>, i: nat, lastEnd: int): (r: seq<nat>)
    ensures forall k :: 0 <= k < |r| ==> i <= r[k] < |data|
    decreases |data| - i
  {
    if i >= |data| then []
    else if data[i].start >= lastEnd then [i] + GreedyFrom(data, i + 1, data[i].end)
    else GreedyFrom(data, i + 1, lastEnd)
  }

  /** The positions the scan accepts: the first slice, then every slice starting at or after
    * the end of the last accepted one. */
  function GreedyScan(data: seq<Slice>): (r: seq<nat>)
    requires |data| > 0
    ensures InRange(r, |data|)
  {
    [0] + GreedyFrom(data, 1, data[0].end)
  }

  /** Each accepted slice starts at or after the end of the accepted slice before it. */
  predicate Chained(data: seq<Slice>, r: seq<nat>)
    requires InRange(r, |data|)
  {
    forall k :: 0 < k < |r| ==> data[r[k]].start >= data[r[k - 1]].end
  }

  /** Each position between two accepted ones, or after the last, starts before the end of
    * the accepted slice preceding it. */
  predicate RejectedBetween(data: seq<Slice>, r: seq<nat>)
    requires InRange(r, |data|)
  {
    forall k, p :: 0 <= k < |r| && r[k] < p < |data| && (k + 1 == |r| || p < r[k + 1]) ==>
      data[p].start < data[r[k]].end
  }

  /** The positions the scan from `i` accepts are increasing, in range and chained. */
  lemma {:induction false} GreedyFromAccepted(data: seq<Slice>, i: nat, lastEnd: int)
    ensures var r := GreedyFrom(data, i, lastEnd);
      StrictlyIncreasing(r) && InRange(r, |data|) &&
      (forall k :: 0 <= k < |r| ==> i <= r[k]) &&
      (|r| > 0 ==> data[r[0]].start >= lastEnd) &&
      Chained(data, r)
    decreases |data| - i
  {
    if i < |data| {
      if data[i].start >= lastEnd {
        GreedyFromAccepted(data, i + 1, data[i].end);
      } else {
        GreedyFromAccepted(data, i + 1, lastEnd);
      }
    }
  }

  /** The positions the scan from `i` rejects start before the end of the slice accepted
    * last before them (or before `lastEnd` when none was). */
  lemma {:induction false} GreedyFromRejected(data: seq<Slice>, i: nat, lastEnd: int)
    ensures var r := GreedyFrom(data, i, lastEnd);
      InRange(r, |data|) &&
      (forall p :: i <= p < |data| && (|r| == 0 || p < r[0]) ==> data[p].start < lastEnd) &&
      RejectedBetween(data, r)
    decreases |data| - i
  {
    GreedyFromAccepted(data, i, lastEnd);
    if i < |data| {
      if data[i].start >= lastEnd {
        GreedyFromRejected(data, i + 1, data[i].end);
        var rest := GreedyFrom(data, i + 1, data[i].end);
        var r := [i] + rest;
        forall k, p | 0 <= k < |r| && r[k] < p < |data| && (k + 1 == |r| || p < r[k + 1])
          ensures data[p].start < data[r[k]].end
        {
          if k > 0 {
            assert r[k] == rest[k - 1];
          }
        }
      } else {
        GreedyFromRejected(data, i + 1, lastEnd);
      }
    }
  }

  /** `check_overlap_within_personality` accepts position 0 and then, in increasing positions,
    * slices that start at or after the end of the previously accepted one ... */
  lemma GreedyScanAccepted(data: seq<Slice>)
    requires |data| > 0
    ensures |GreedyScan(data)| > 0 && GreedyScan(data)[0] == 0
    ensures StrictlyIncreasing(GreedyScan(data))
    ensures InRange(GreedyScan(data), |data|)
    ensures Chained(data, GreedyScan(data))
  {
    GreedyFromAccepted(data, 1, data[0].end);
    var rest := GreedyFrom(data, 1, data[0].end);
    var r := GreedyScan(data);
    assert r == [0] + rest;
    forall k | 0 < k < |r| ensures data[r[k]].start >= data[r[k - 1]].end {
      assert r[k] == rest[k - 1];
      if k > 1 {
        assert r[k - 1] == rest[k - 2];
      }
    }
  }

  /** ... and rejects every other slice, each of which starts before the end of the slice
    * accepted last before it. */
  lemma GreedyScanRejected(data: seq<Slice>)
    requires |data| > 0
    ensures InRange(GreedyScan(data), |data|)
    ensures RejectedBetween(data, GreedyScan(data))
  {
    GreedyFromRejected(data, 1, data[0].end);
    var rest := GreedyFrom(data, 1, data[0].end);
    var r := GreedyScan(data);
    assert r == [0] + rest;
    forall k, p | 0 <= k < |r| && r[k] < p < |data| && (k + 1 == |r| || p < r[k + 1])
      ensures data[p].start < data[r[k]].end
    {
      if k > 0 {
        assert r[k] == rest[k - 1];
      }
    }
  }

  /** Along the accepted positions of a scan over proper intervals, each accepted slice
    * starts at or after the end of every earlier accepted one. */
  lemma {:induction false} GreedyChain(data: seq<Slice>, r: seq<nat>, a: nat, b: nat)
    requires InRange(r, |data|) && WellFormed(data) && Chained(data, r)
    requires a < b < |r|
    ensures data[r[b]].start >= data[r[a]].end
    decreases b - a
  {
    if a + 1 < b {
      GreedyChain(data, r, a + 1, b);
    }
  }

  /** The slices accepted from one kernel's list of proper intervals never overlap. */
  lemma WithinPersonalityNoConflicts(data: seq<Slice>)
    requires |data| > 0 && WellFormed(data)
    ensures InRange(GreedyScan(data), |data|)
    ensures NoConflicts(Pick(data, GreedyScan(data)))
  {
    var r := GreedyScan(data);
    GreedyScanAccepted(data);
    var acc := Pick(data, r);
    forall a, b | 0 <= a < b < |acc| ensures !CheckOverlapV2(acc[a], acc[b]) {
      GreedyChain(data, r, a, b);
    }
  }

  /** `check_overlap_within_personality`: the accepted slices and their positions; an empty
    * list is the source's error exit. */
  method CheckOverlapWithinPersonality(kernelTimingData: seq<Slice>)
    returns (r: Result<(seq<Slice>, seq<nat>), ClusteringError>)
    ensures r.Err? <==> kernelTimingData == []
    ensures r.Ok? ==> r.value.1 == GreedyScan(kernelTimingData) &&
                      InRange(r.value.1, |kernelTimingData|) &&
                      r.value.0 == Pick(kernelTimingData, r.value.1)
  {
    if kernelTimingData == [] {
      return Err(NoKernelTimingData);
    }
    var nonOverlappingSlices := [kernelTimingData[0]];
    var removeIndices: seq<nat> := [0];
    var lastEndTime := kernelTimingData[0].end;
    for idx := 1 to |kernelTimingData|
      invariant removeIndices + GreedyFrom(kernelTimingData, idx, lastEndTime) ==
                GreedyScan(kernelTimingData)
      invariant InRange(removeIndices, idx)
      invariant nonOverlappingSlices == Pick(kernelTimingData, removeIndices)
    {
      var slice := kernelTimingData[idx];
      if slice.start >= lastEndTime {
        nonOverlappingSlices := nonOverlappingSlices + [slice];
        lastEndTime := slice.end;
        removeIndices := removeIndices + [idx];
      }
    }
    return Ok((nonOverlappingSlices, removeIndices));
  }

  function Ends(s: seq<Slice>): (r: seq<int>)
    ensures |r| == |s| && forall i :: 0 <= i < |s| ==> r[i] == s[i].end
  {
    seq(|s|, i requires 0 <= i < |s| => s[i].end)
  }

  /** `sorted(slices, key=lambda x: x.slice[1])` */
  function SortedByEnd(slices: seq<Slice>): (r: seq<Slice>)
    ensures |r| == |slices|
  {
    Pick(slices, StableOrder(Ends(slices)))
  }

  /** Sorting by end keeps the slices and puts their ends in non-decreasing order. */
  lemma SortedByEndCorrect(slices: seq<Slice>)
    ensures multiset(SortedByEnd(slices)) == multiset(slices)
    ensures forall a, b :: 0 <= a < b < |slices| ==> SortedByEnd(slices)[a].end <= SortedByEnd(slices)[b].end
  {
    StableOrderCorrect(Ends(slices));
    PickStableOrderMultiset(slices, Ends(slices));
    var order := StableOrder(Ends(slices));
    assert forall a, b :: 0 <= a < b < |order| ==> Before(Ends(slices), order[a], order[b]);
  }

  /** What `find_max_nonoverlapping_set` returns for a non-empty list: the earliest-finish
    * scan over the slices sorted by end. */
  function MaxNonOverlapping(slices: seq<Slice>): seq<Slice>
    requires |slices| > 0
  {
    var sorted := SortedByEnd(slices);
    Pick(sorted, GreedyScan(sorted))
  }

  /** The earliest-finish set is sorted by end, pairwise non-overlapping (no proper-interval
    * assumption needed, as the candidates are sorted by end), non-empty, and drawn from the
    * input without repetition. */
  lemma MaxNonOverlappingSound(slices: seq<Slice>)
    requires |slices| > 0
    ensures var r := MaxNonOverlapping(slices);
      0 < |r| <= |slices| &&
      NoConflicts(r) &&
      (forall a, b :: 0 <= a < b < |r| ==> r[a].end <= r[b].end) &&
      multiset(r) <= multiset(slices)
  {
    var sorted := SortedByEnd(slices);
    SortedByEndCorrect(slices);
    var idx := GreedyScan(sorted);
    GreedyScanAccepted(sorted);
    var r := Pick(sorted, idx);
    assert r == MaxNonOverlapping(slices);
    forall a, b | 0 <= a < b < |r| ensures !CheckOverlapV2(r[a], r[b]) && r[a].end <= r[b].end {
      assert idx[a] < idx[b];
      assert sorted[idx[b - 1]].end >= sorted[idx[a]].end by {
        if a < b - 1 { assert idx[a] < idx[b - 1]; }
      }
    }
    PickDropSplit(sorted, idx);
    StrictlyIncreasingDistinct(idx);
    assert |r| <= |slices| by {
      assert multiset(r) <= multiset(sorted);
    }
  }

  /** Every slice has a positive length. */
  predicate PositiveLengths(s: seq<Slice>)
  {
    forall k :: 0 <= k < |s| ==> s[k].start < s[k].end
  }

  /** A position of the list whose slice ends first. */
  function EarliestEnd(u: seq<Slice>): (k: nat)
    requires |u| > 0
    ensures k < |u| && forall j :: 0 <= j < |u| ==> u[k].end <= u[j].end
  {
    if |u| == 1 then 0
    else
      var k := EarliestEnd(u[1..]);
      if u[0].end <= u[k + 1].end then 0 else k + 1
  }

  /** A bound at or below `d` and every start of the list. */
  function LowestStart(u: seq<Slice>, d: int): (m: int)
    ensures m <= d && forall k :: 0 <= k < |u| ==> m <= u[k].start
  {
    if u == [] then d
    else
      var m := LowestStart(u[1..], d);
      if u[0].start < m then u[0].start else m
  }

  /** Position `a` of the list with position `k` taken out. */
  lemma DropAt(u: seq<Slice>, k: nat, a: nat)
    requires k < |u| && a < |u| - 1
    ensures (u[..k] + u[k + 1..])[a] == u[if a < k then a else a + 1]
  {
    if a < k {
      assert (u[..k] + u[k + 1..])[a] == u[..k][a];
    } else {
      assert (u[..k] + u[k + 1..])[a] == u[k + 1..][a - k];
    }
  }

  /** Taking out the slice that ends first from a conflict-free list of positive-length slices
    * leaves a conflict-free list whose slices all start at or after that end. */
  lemma DropEarliest(u: seq<Slice>, k: nat) returns (v: seq<Slice>)
    requires |u| > 0 && k == EarliestEnd(u) && NoConflicts(u) && PositiveLengths(u)
    ensures |v| == |u| - 1 && multiset(v) + multiset{u[k]} == multiset(u) && NoConflicts(v)
    ensures forall a :: 0 <= a < |v| ==> v[a].start >= u[k].end
  {
    v := u[..k] + u[k + 1..];
    assert u == u[..k] + [u[k]] + u[k + 1..];
    forall a | 0 <= a < |v| ensures v[a].start >= u[k].end {
      var a2 := if a < k then a else a + 1;
      DropAt(u, k, a);
      if a2 < k {
        assert !CheckOverlapV2(u[a2], u[k]);
      } else {
        assert !CheckOverlapV2(u[k], u[a2]);
      }
    }
    forall a, b | 0 <= a < b < |v| ensures !CheckOverlapV2(v[a], v[b]) {
      DropAt(u, k, a);
      DropAt(u, k, b);
      var a2, b2 := if a < k then a else a + 1, if b < k then b else b + 1;
      assert !CheckOverlapV2(u[a2], u[b2]);
    }
  }

  /** The scan from position `i` with last end `lastEnd` over slices sorted by end, each of
    * positive length, accepts at least as many slices as any conflict-free selection from
    * them that starts at or after `lastEnd` (the exchange argument: the slice the scan accepts
    * ends no later than the selection's first). */
  lemma {:induction false} GreedyFromMaximal(data: seq<Slice>, i: nat, lastEnd: int, u: seq<Slice>)
    requires i <= |data|
    requires forall a, b :: i <= a < b < |data| ==> data[a].end <= data[b].end
    requires forall a :: i <= a < |data| ==> data[a].start < data[a].end
    requires multiset(u) <= multiset(data[i..]) && NoConflicts(u)
    requires forall k :: 0 <= k < |u| ==> u[k].start >= lastEnd
    ensures |u| <= |GreedyFrom(data, i, lastEnd)|
    decreases |data| - i
  {
    if i == |data| {
      assert data[i..] == [];
      assert |multiset(u)| == 0;
    } else {
      var x, rest := data[i], data[i + 1..];
      assert data[i..] == [x] + rest;
      SelectionFromSorted(data, i, u);
      if x.start >= lastEnd && |u| > 0 {
        var k := EarliestEnd(u);
        var v := DropEarliest(u, k);
        SelectionWithout(v, x, rest, x.end);
        GreedyFromMaximal(data, i + 1, x.end, v);
      } else if x.start < lastEnd {
        SelectionWithout(u, x, rest, lastEnd);
        GreedyFromMaximal(data, i + 1, lastEnd, u);
      }
    }
  }

  /** A selection from the slices at positions `i ..` of a list sorted by end, each of
    * positive length, holds slices of positive length ending no earlier than `data[i]`. */
  lemma SelectionFromSorted(data: seq<Slice>, i: nat, u: seq<Slice>)
    requires i < |data|
    requires forall a, b :: i <= a < b < |data| ==> data[a].end <= data[b].end
    requires forall a :: i <= a < |data| ==> data[a].start < data[a].end
    requires multiset(u) <= multiset(data[i..])
    ensures forall k :: 0 <= k < |u| ==> u[k].start < u[k].end && data[i].end <= u[k].end
  {
    forall k | 0 <= k < |u| ensures u[k].start < u[k].end && data[i].end <= u[k].end {
      assert u[k] in multiset(data[i..]);
      var q := PositionOf(data[i..], u[k]);
      assert data[i + q] == u[k];
    }
  }

  /** A selection from `[x] + rest` whose slices all start at or after a bound that `x` starts
    * before does not hold `x`, so it is a selection from `rest`. */
  lemma SelectionWithout(u: seq<Slice>, x: Slice, rest: seq<Slice>, bound: int)
    requires multiset(u) <= multiset([x] + rest)
    requires forall k :: 0 <= k < |u| ==> u[k].start >= bound
    requires x.start < bound
    ensures multiset(u) <= multiset(rest)
  {
    assert multiset([x] + rest) == multiset{x} + multiset(rest);
    forall e ensures multiset(u)[e] <= multiset(rest)[e] {
      if e == x {
        assert e !in u by {
          if e in u { var a := PositionOf(u, e); }
        }
      }
    }
  }

  /** Over slices of positive length, the earliest-finish set is a maximum: no conflict-free
    * selection from the input holds more slices. */
  lemma MaxNonOverlappingMaximal(slices: seq<Slice>, u: seq<Slice>)
    requires |slices| > 0 && PositiveLengths(slices)
    requires multiset(u) <= multiset(slices) && NoConflicts(u)
    ensures |u| <= |MaxNonOverlapping(slices)|
  {
    var sorted := SortedByEnd(slices);
    SortedByEndCorrect(slices);
    forall a | 0 <= a < |sorted| ensures sorted[a].start < sorted[a].end {
      assert sorted[a] in multiset(slices);
      var q := PositionOf(slices, sorted[a]);
    }
    var low := LowestStart(u, sorted[0].start);
    assert sorted[0..] == sorted;
    GreedyFromMaximal(sorted, 0, low, u);
    assert GreedyFrom(sorted, 0, low) == GreedyScan(sorted);
  }

  /** Zero-length slices break the maximum: `[5, 5)` and `[0, 5)` do not overlap, yet the scan
    * takes `[5, 5)`, whose end rules out `[0, 5)`. */
  lemma MaxNonOverlappingZeroLength()
    ensures var slices := [Slice("a", 0, 5, 5, Shape(1, 1)), Slice("b", 0, 0, 5, Shape(1, 1))];
      NoConflicts(slices) && |MaxNonOverlapping(slices)| == 1
  {
    var slices := [Slice("a", 0, 5, 5, Shape(1, 1)), Slice("b", 0, 0, 5, Shape(1, 1))];
    assert Ends(slices) == [5, 5];
    var keys := Ends(slices);
    assert SortPrefix(keys, 1) == InsertStable([], 0, keys) == [0];
    assert InsertStable([0], 1, keys) == [0] + InsertStable([], 1, keys) == [0, 1];
    assert StableOrder(keys) == SortPrefix(keys, 2) == [0, 1];
    assert SortedByEnd(slices) == slices;
  }

  /** `find_max_nonoverlapping_set(slice1, slice2)`; two empty lists are the source's error
    * exit. */
  method FindMaxNonOverlappingSet(slice1: seq<Slice>, slice2: seq<Slice>)
    returns (r: Result<seq<Slice>, ClusteringError>)
    ensures r.Err? <==> slice1 + slice2 == []
    ensures r.Ok? ==> r.value == MaxNonOverlapping(slice1 + slice2)
  {
    var slices := SortedByEnd(slice1 + slice2);
    if slices == [] {
      return Err(NoSlicesProvided);
    }
    var nonOverlappingSet := [slices[0]];
    ghost var accepted: seq<nat> := [0];
    var lastEndTime := slices[0].end;
    for i := 1 to |slices|
      invariant accepted + GreedyFrom(slices, i, lastEndTime) == GreedyScan(slices)
      invariant InRange(accepted, i)
      invariant nonOverlappingSet == Pick(slices, accepted)
    {
      var slice := slices[i];
      if slice.start >= lastEndTime {
        nonOverlappingSet := nonOverlappingSet + [slice];
        lastEndTime := slice.end;
        accepted := accepted + [i];
      }
    }
    return Ok(nonOverlappingSet);
  }

  // ---------------------------------------------------------------------------
  // Seed ranking and seeding
  // ---------------------------------------------------------------------------

  /** No kernel of the store has an empty slice list (main binning drops emptied keys). */
  predicate NoEmptyLists(t: seq<KernelTrace>)
  {
    forall e :: 0 <= e < |t| ==> t[e].slices != []
  }

  /** Every slice left in the store is a proper interval. */
  predicate WellFormedStore(t: seq<KernelTrace>)
  {
    forall s :: s in AllSlices(t) ==> s.start <= s.end
  }

  /** The score `get_new_max_nonoverlapping_set` gives the pair of entries `a`, `b` (visited
    * as `a` before `b`): the size of their earliest-finish set, counted only when it equals
    * neither list's length. */
  function PairScore(t: seq<KernelTrace>, a: nat, b: nat): nat
    requires a < |t| && b < |t| && NoEmptyLists(t)
  {
    var m := |MaxNonOverlapping(t[a].slices + t[b].slices)|;
    if m != |t[a].slices| && m != |t[b].slices| then m else 0
  }

  /** The pair scores of key `a` against the keys `0 .. n-1`. */
  function ScoreRow(t: seq<KernelTrace>, a: nat, n: nat): (row: seq<nat>)
    requires a < |t| && n <= |t| && NoEmptyLists(t)
    ensures |row| == n
  {
    if n == 0 then [] else ScoreRow(t, a, n - 1) + [PairScore(t, a, n - 1)]
  }

  /** The rows `0 .. n-1` of the pair-score matrix. */
  function ScoreRows(t: seq<KernelTrace>, n: nat): (ps: seq<seq<nat>>)
    requires n <= |t| && NoEmptyLists(t)
    ensures |ps| == n && forall a :: 0 <= a < n ==> |ps[a]| == |t|
  {
    if n == 0 then [] else ScoreRows(t, n - 1) + [ScoreRow(t, n - 1, |t|)]
  }

  /** The pair scores of the store as a matrix. */
  function PairScores(t: seq<KernelTrace>): (ps: seq<seq<nat>>)
    requires NoEmptyLists(t)
    ensures Square(ps, |t|)
  {
    ScoreRows(t, |t|)
  }

  lemma {:induction false} ScoreRowAt(t: seq<KernelTrace>, a: nat, n: nat, b: nat)
    requires a < |t| && b < n <= |t| && NoEmptyLists(t)
    ensures ScoreRow(t, a, n)[b] == PairScore(t, a, b)
  {
    if b < n - 1 {
      ScoreRowAt(t, a, n - 1, b);
    }
  }

  lemma {:induction false} ScoreRowsAt(t: seq<KernelTrace>, n: nat, a: nat)
    requires a < n <= |t| && NoEmptyLists(t)
    ensures ScoreRows(t, n)[a] == ScoreRow(t, a, |t|)
  {
    if a < n - 1 {
      ScoreRowsAt(t, n - 1, a);
    }
  }

  /** Each entry of the matrix is the score of its pair. */
  lemma PairScoresAt(t: seq<KernelTrace>, a: nat, b: nat)
    requires a < |t| && b < |t| && NoEmptyLists(t)
    ensures PairScores(t)[a][b] == PairScore(t, a, b)
  {
    ScoreRowsAt(t, |t|, a);
    ScoreRowAt(t, a, |t|, b);
  }

  predicate Square(ps: seq<seq<nat>>, n: nat)
  {
    |ps| == n && forall a :: 0 <= a < n ==> |ps[a]| == n
  }

  /** The score of entry `k` against the entries `0 .. hi-1` other than itself, each pair
    * scored with its lower position first. */
  function ScoreWith(ps: seq<seq<nat>>, k: nat, hi: nat): nat
    requires Square(ps, |ps|) && k < |ps| && hi <= |ps|
  {
    if hi == 0 then 0
    else ScoreWith(ps, k, hi - 1) +
         (if hi - 1 < k then ps[hi - 1][k]
          else if k < hi - 1 then ps[k][hi - 1]
          else 0)
  }

  /** `non_overlaps_ranking[key_k]`: the sum of the pair scores of `k` with every other key. */
  function Ranking(t: seq<KernelTrace>, k: nat): nat
    requires k < |t| && NoEmptyLists(t)
  {
    ScoreWith(PairScores(t), k, |t|)
  }

  function Rankings(t: seq<KernelTrace>): (r: seq<int>)
    requires NoEmptyLists(t)
    ensures |r| == |t| && forall k :: 0 <= k < |t| ==> r[k] == Ranking(t, k)
  {
    seq(|t|, k requires 0 <= k < |t| => Ranking(t, k))
  }

  /** A pair scores only when its earliest-finish set is as long as neither list, and never
    * more than both lists together. */
  lemma PairScoreBound(t: seq<KernelTrace>, a: nat, b: nat)
    requires a < |t| && b < |t| && NoEmptyLists(t)
    ensures PairScore(t, a, b) <= |t[a].slices| + |t[b].slices|
    ensures PairScore(t, a, b) != |t[a].slices| && PairScore(t, a, b) != |t[b].slices|
  {
    MaxNonOverlappingSound(t[a].slices + t[b].slices);
  }

  /** A key's partial score is zero exactly when none of its pairs so far scores. */
  lemma {:induction false} ScoreWithZero(ps: seq<seq<nat>>, k: nat, hi: nat)
    requires Square(ps, |ps|) && k < |ps| && hi <= |ps|
    ensures ScoreWith(ps, k, hi) == 0 <==>
      (forall m :: 0 <= m < hi && m < k ==> ps[m][k] == 0) &&
      (forall m :: 0 <= m < hi && k < m ==> ps[k][m] == 0)
  {
    if hi > 0 {
      ScoreWithZero(ps, k, hi - 1);
    }
  }

  /** A key ranks zero exactly when none of its pairs with another key scores. */
  lemma RankingZero(t: seq<KernelTrace>, k: nat)
    requires k < |t| && NoEmptyLists(t)
    ensures Ranking(t, k) == 0 <==> forall m :: 0 <= m < |t| && m != k ==>
      (if m < k then PairScore(t, m, k) else PairScore(t, k, m)) == 0
  {
    var ps := PairScores(t);
    ScoreWithZero(ps, k, |t|);
    forall m | 0 <= m < |t|
      ensures ps[m][k] == PairScore(t, m, k) && ps[k][m] == PairScore(t, k, m)
    {
      PairScoresAt(t, m, k);
      PairScoresAt(t, k, m);
    }
  }

  /** The score of key `k` once the visit order of `get_new_max_nonoverlapping_set` has
    * reached the pair `(i, j)`: all pairs with a first key before `i`, and the pairs
    * `(i, i+1) .. (i, j-1)`. */
  function PartialScore(ps: seq<seq<nat>>, k: nat, i: nat, j: nat): nat
    requires Square(ps, |ps|) && k < |ps| && i < j <= |ps|
  {
    if k < i then ScoreWith(ps, k, |ps|)
    else if k == i then ScoreWith(ps, k, j)
    else if k < j then ScoreWith(ps, k, i + 1)
    else ScoreWith(ps, k, i)
  }

  /** Visiting pair `(i, j)` adds its score to keys `i` and `j` only. */
  lemma PartialScoreStep(ps: seq<seq<nat>>, i: nat, j: nat)
    requires Square(ps, |ps|) && i < j < |ps|
    ensures forall k :: 0 <= k < |ps| ==>
      PartialScore(ps, k, i, j + 1) ==
      PartialScore(ps, k, i, j) + (if k == i || k == j then ps[i][j] else 0)
  {
    assert ScoreWith(ps, i, j + 1) == ScoreWith(ps, i, j) + ps[i][j];
    assert ScoreWith(ps, j, i + 1) == ScoreWith(ps, j, i) + ps[i][j];
  }

  /** One visit of the pair `(i, j)` keeps the ranking equal to the partial scores. */
  lemma ScorePairStep(t: seq<KernelTrace>, ps: seq<seq<nat>>, i: nat, j: nat, m: nat,
                      before: seq<int>, after: seq<int>)
    requires NoEmptyLists(t) && ps == PairScores(t) && i < j < |t|
    requires m == |MaxNonOverlapping(t[i].slices + t[j].slices)|
    requires |before| == |t| && forall k :: 0 <= k < |t| ==> before[k] == PartialScore(ps, k, i, j)
    requires |after| == |t|
    requires forall k :: 0 <= k < |t| ==>
      after[k] == before[k] + (if (k == i || k == j) && m != |t[i].slices| && m != |t[j].slices| then m else 0)
    ensures |after| == |t| && forall k :: 0 <= k < |t| ==> after[k] == PartialScore(ps, k, i, j + 1)
  {
    PairScoresAt(t, i, j);
    PartialScoreStep(ps, i, j);
  }

  /** `get_new_max_nonoverlapping_set`: the ranking of every key of the store, by position. */
  method GetNewMaxNonOverlappingSet(t: seq<KernelTrace>) returns (nonOverlapsRanking: seq<int>)
    requires NoEmptyLists(t)
    ensures nonOverlapsRanking == Rankings(t)
  {
    ghost var ps := PairScores(t);
    nonOverlapsRanking := seq(|t|, _ => 0);
    for i := 0 to |t|
      invariant |nonOverlapsRanking| == |t|
      invariant forall k :: 0 <= k < |t| ==>
        nonOverlapsRanking[k] == if k < i then ScoreWith(ps, k, |t|) else ScoreWith(ps, k, i)
    {
      assert ScoreWith(ps, i, i + 1) == ScoreWith(ps, i, i);
      for j := i + 1 to |t|
        invariant |nonOverlapsRanking| == |t|
        invariant forall k :: 0 <= k < |t| ==> nonOverlapsRanking[k] == PartialScore(ps, k, i, j)
      {
        var maxNonOverlappingSet := FindMaxNonOverlappingSet(t[i].slices, t[j].slices);
        assert maxNonOverlappingSet.Ok?;
        var m := |maxNonOverlappingSet.value|;
        ghost var before := nonOverlapsRanking;
        if m != |t[i].slices| && m != |t[j].slices| {
          nonOverlapsRanking := nonOverlapsRanking[i := nonOverlapsRanking[i] + m];
          nonOverlapsRanking := nonOverlapsRanking[j := nonOverlapsRanking[j] + m];
        }
        ScorePairStep(t, ps, i, j, m, before, nonOverlapsRanking);
      }
    }
  }

  /** The entry `put_highest_ranked_pers_to_bin` seeds a cluster with: the first key, in
    * insertion order, of highest ranking. */
  function SeedIndex(t: seq<KernelTrace>): (r: nat)
    requires |t| > 0 && NoEmptyLists(t)
    ensures r < |t|
  {
    FirstMax(Rankings(t), |t|)
  }

  /** The seed is the first key of the store (in insertion order) among those with the
    * highest ranking. */
  lemma SeedIsFirstMax(t: seq<KernelTrace>)
    requires |t| > 0 && NoEmptyLists(t)
    ensures forall k :: 0 <= k < |t| ==> Ranking(t, k) <= Ranking(t, SeedIndex(t))
    ensures forall k :: 0 <= k < SeedIndex(t) ==> Ranking(t, k) < Ranking(t, SeedIndex(t))
  {
    FirstMaxSpec(Rankings(t), |t|);
  }

  /** Taking the greedy chain of entry `k` out of a store: the store keeps its keys, loses
    * exactly the chain and at least one slice, and the chain of a well-formed store has no
    * conflicts. */
  lemma SeedTake(t: seq<KernelTrace>, k: nat)
    requires DistinctKeys(t) && k < |t| && t[k].slices != []
    ensures var e := t[k];
      var g := GreedyScan(e.slices);
      var u := t[k := KernelTrace(e.kernel, DropIndices(e.slices, g))];
      DistinctKeys(u) && Keys(u) == Keys(t) &&
      multiset(Pick(e.slices, g)) + AllSlices(u) == AllSlices(t) && TotalSlices(u) < TotalSlices(t) &&
      (WellFormedStore(t) ==> NoConflicts(Pick(e.slices, g)))
  {
    var e := t[k];
    var g := GreedyScan(e.slices);
    var entry := KernelTrace(e.kernel, DropIndices(e.slices, g));
    var u := t[k := entry];
    assert multiset(Pick(e.slices, g)) + AllSlices(u) == AllSlices(t) && TotalSlices(u) < TotalSlices(t) by {
      GreedyScanAccepted(e.slices);
      PickDropSplit(e.slices, g);
      AllSlicesTake(t, k, Pick(e.slices, g), entry.slices);
    }
    SlicesOfUpdate(t, k, entry.slices);
    if WellFormedStore(t) {
      forall i | 0 <= i < |e.slices| ensures e.slices[i].start <= e.slices[i].end {
        AllSlicesMember(t, k, e.slices[i]);
      }
      WithinPersonalityNoConflicts(e.slices);
    }
  }

  /** `put_highest_ranked_pers_to_bin` (default mode): the seed key's earliest-finish slices
    * open cluster `binId`, and only they leave the seed's list. */
  method PutHighestRankedPersToBin(td: TimingData, binId: int) returns (cluster: Cluster)
    requires td.Valid() && |td.data| > 0 && NoEmptyLists(td.data)
    modifies td
    ensures fresh(cluster)
    ensures var k := SeedIndex(old(td.data)); var e := old(td.data)[k];
      InRange(GreedyScan(e.slices), |e.slices|) &&
      cluster.id == binId && cluster.kernels == [e.kernel] &&
      cluster.slices == Pick(e.slices, GreedyScan(e.slices)) &&
      cluster.imemLayer == 0 && cluster.seedKernel == Some(e.kernel) &&
      td.data == old(td.data)[k := KernelTrace(e.kernel, DropIndices(e.slices, GreedyScan(e.slices)))]
    ensures td.Valid() && Keys(td.data) == old(Keys(td.data))
    ensures multiset(cluster.slices) + AllSlices(td.data) == old(AllSlices(td.data))
    ensures TotalSlices(td.data) < old(TotalSlices(td.data))
    ensures WellFormedStore(old(td.data)) ==> NoConflicts(cluster.slices)
  {
    var nonOverlapsRanking := GetNewMaxNonOverlappingSet(td.data);
    var sortedRanking := StableOrderDesc(nonOverlapsRanking);
    StableOrderDescFirstMax(nonOverlapsRanking);
    var key := sortedRanking[0];
    var e := td.data[key];
    var r := CheckOverlapWithinPersonality(e.slices);
    assert r.Ok?;
    var (nonOverlappingSlices, removeIndices) := r.value;
    cluster := new Cluster(binId, Some([e.kernel]), Some(nonOverlappingSlices), Some(0), Some(e.kernel));
    SeedTake(td.data, key);
    td.data := td.data[key := KernelTrace(e.kernel, DropIndices(e.slices, removeIndices))];
  }

  // ---------------------------------------------------------------------------
  // Growth pass
  // ---------------------------------------------------------------------------

  lemma ConflictsExtend(x: (int, int), a: seq<Slice>, b: seq<Slice>)
    requires CheckConflictSliceVsSlices(x, a)
    ensures CheckConflictSliceVsSlices(x, a + b)
  {
    var j :| 0 <= j < |a| && CheckConflict(x.0, x.1, a[j].start, a[j].end);
    assert (a + b)[j] == a[j];
  }

  /** A slice that conflicts with none of a conflict-free list can join it. */
  lemma NoConflictsAppend(current: seq<Slice>, x: Slice)
    requires NoConflicts(current) && !CheckConflictSliceVsSlices(Span(x), current)
    ensures NoConflicts(current + [x])
  {
    var u := current + [x];
    forall i, j | 0 <= i < j < |u| ensures !CheckOverlapV2(u[i], u[j]) {
      if j == |current| {
        assert u[i] == current[i];
      } else {
        assert u[i] == current[i] && u[j] == current[j];
      }
    }
  }

  /** Positions `p >= i` of `slices` the growth scan absorbs into a cluster whose slices are
    * `current` plus those absorbed before `p`: a slice is absorbed when it conflicts with
    * none of them. */
  function AbsorbFrom(current: seq<Slice>, slices: seq<Slice>, i: nat): (r: seq<nat>)
    ensures forall k :: 0 <= k < |r| ==> i <= r[k] < |slices|
    decreases |slices| - i
  {
    if i >= |slices| then []
    else if !CheckConflictSliceVsSlices(Span(slices[i]), current)
    then [i] + AbsorbFrom(current + [slices[i]], slices, i + 1)
    else AbsorbFrom(current, slices, i + 1)
  }

  /** The growth scan absorbs slices in increasing positions ... */
  lemma {:induction false} AbsorbIncreasing(current: seq<Slice>, slices: seq<Slice>, i: nat)
    ensures StrictlyIncreasing(AbsorbFrom(current, slices, i))
    decreases |slices| - i
  {
    if i < |slices| {
      if !CheckConflictSliceVsSlices(Span(slices[i]), current) {
        AbsorbIncreasing(current + [slices[i]], slices, i + 1);
      } else {
        AbsorbIncreasing(current, slices, i + 1);
      }
    }
  }

  /** ... keeps a conflict-free cluster conflict-free ... */
  lemma {:induction false} AbsorbNoConflicts(current: seq<Slice>, slices: seq<Slice>, i: nat)
    requires NoConflicts(current)
    ensures NoConflicts(current + Pick(slices, AbsorbFrom(current, slices, i)))
    decreases |slices| - i
  {
    if i < |slices| {
      var x := slices[i];
      if !CheckConflictSliceVsSlices(Span(x), current) {
        var next := current + [x];
        NoConflictsAppend(current, x);
        AbsorbNoConflicts(next, slices, i + 1);
        var rest := AbsorbFrom(next, slices, i + 1);
        assert Pick(slices, [i] + rest) == [x] + Pick(slices, rest);
        assert current + ([x] + Pick(slices, rest)) == next + Pick(slices, rest);
      } else {
        AbsorbNoConflicts(current, slices, i + 1);
      }
    }
  }

  /** ... and every slice it leaves conflicts with the grown cluster. */
  lemma {:induction false} AbsorbSaturates(current: seq<Slice>, slices: seq<Slice>, i: nat, p: nat)
    requires i <= p < |slices| && p !in AbsorbFrom(current, slices, i)
    ensures CheckConflictSliceVsSlices(Span(slices[p]), current + Pick(slices, AbsorbFrom(current, slices, i)))
    decreases |slices| - i
  {
    var x := slices[i];
    if !CheckConflictSliceVsSlices(Span(x), current) {
      var next := current + [x];
      var rest := AbsorbFrom(next, slices, i + 1);
      assert p != i && p !in rest;
      AbsorbSaturates(next, slices, i + 1, p);
      assert Pick(slices, [i] + rest) == [x] + Pick(slices, rest);
      assert current + ([x] + Pick(slices, rest)) == next + Pick(slices, rest);
    } else if p == i {
      ConflictsExtend(Span(x), current, Pick(slices, AbsorbFrom(current, slices, i + 1)));
    } else {
      AbsorbSaturates(current, slices, i + 1, p);
    }
  }

  /** `check_overlap_of_bin_with_others_only_one`: absorb, in order, every slice of `slices`
    * that conflicts with no slice of the cluster (including those absorbed before it). */
  method CheckOverlapOfBinWithOthersOnlyOne(cluster: Cluster, slices: seq<Slice>)
    returns (binSlices: seq<Slice>, nonOverlap: seq<Slice>, removeList: seq<nat>)
    modifies cluster`slices
    ensures removeList == AbsorbFrom(old(cluster.slices), slices, 0)
    ensures InRange(removeList, |slices|) && nonOverlap == Pick(slices, removeList)
    ensures binSlices == cluster.slices == old(cluster.slices) + nonOverlap
  {
    nonOverlap, removeList := [], [];
    var newClusterSlices := cluster.slices;
    for idx := 0 to |slices|
      invariant removeList + AbsorbFrom(newClusterSlices, slices, idx) ==
                AbsorbFrom(old(cluster.slices), slices, 0)
      invariant InRange(removeList, idx)
      invariant nonOverlap == Pick(slices, removeList)
      invariant newClusterSlices == old(cluster.slices) + nonOverlap
    {
      var comparedSlice := slices[idx];
      if !CheckConflictSliceVsSlices(Span(comparedSlice), newClusterSlices) {
        newClusterSlices := newClusterSlices + [comparedSlice];
        nonOverlap := nonOverlap + [comparedSlice];
        removeList := removeList + [idx];
      }
    }
    cluster.slices := newClusterSlices;
    binSlices := cluster.slices;
  }

  /** The slices of `value` that conflict with no slice of the cluster. */
  function Compatible(value: seq<Slice>, clusterSlices: seq<Slice>): (r: seq<Slice>)
    ensures forall s :: s in r <==> s in value && !CheckConflictSliceVsSlices(Span(s), clusterSlices)
  {
    if value == [] then []
    else
      var last := value[|value| - 1];
      Compatible(value[..|value| - 1], clusterSlices) +
      (if CheckConflictSliceVsSlices(Span(last), clusterSlices) then [] else [last])
  }

  /** An item of the `non_overlaps` dict: a kernel outside the cluster, its position in the
    * store, and those of its slices that conflict with no slice of the cluster. */
  datatype Candidate = Candidate(entry: nat, kernel: string, compatible: seq<Slice>)

  /** The candidates among the first `n` entries of the store, in store order. */
  function CandidatesUpTo(kernels: seq<string>, clusterSlices: seq<Slice>, t: seq<KernelTrace>, n: nat)
    : (r: seq<Candidate>)
    requires n <= |t|
    ensures forall q :: 0 <= q < |r| ==>
      r[q].entry < n && r[q].kernel == t[r[q].entry].kernel && r[q].kernel !in kernels &&
      r[q].compatible == Compatible(t[r[q].entry].slices, clusterSlices)
    ensures forall q1, q2 :: 0 <= q1 < q2 < |r| ==> r[q1].entry < r[q2].entry
  {
    if n == 0 then []
    else
      var prev := CandidatesUpTo(kernels, clusterSlices, t, n - 1);
      if t[n - 1].kernel in kernels then prev
      else prev + [Candidate(n - 1, t[n - 1].kernel, Compatible(t[n - 1].slices, clusterSlices))]
  }

  /** `check_overlap_of_bin_with_others` (default mode): for every key of the store outside
    * the cluster, in store order, its slices compatible with the cluster; nothing when the
    * store or the cluster's slices are empty. */
  function CheckOverlapOfBinWithOthers(kernels: seq<string>, clusterSlices: seq<Slice>, t: seq<KernelTrace>)
    : (r: seq<Candidate>)
    ensures t == [] || clusterSlices == [] ==> r == []
    ensures forall q :: 0 <= q < |r| ==>
      r[q].entry < |t| && r[q].kernel == t[r[q].entry].kernel && r[q].kernel !in kernels &&
      r[q].compatible == Compatible(t[r[q].entry].slices, clusterSlices)
    ensures forall q1, q2 :: 0 <= q1 < q2 < |r| ==> r[q1].entry < r[q2].entry
  {
    if t == [] || clusterSlices == [] then []
    else CandidatesUpTo(kernels, clusterSlices, t, |t|)
  }

  /** Every entry outside the cluster among the first `n` is a candidate. */
  lemma {:induction false} CandidatesUpToComplete(kernels: seq<string>, clusterSlices: seq<Slice>,
                                                  t: seq<KernelTrace>, n: nat, e: nat)
    requires e < n <= |t| && t[e].kernel !in kernels
    ensures exists q :: 0 <= q < |CandidatesUpTo(kernels, clusterSlices, t, n)| &&
                        CandidatesUpTo(kernels, clusterSlices, t, n)[q].entry == e
  {
    var prev := CandidatesUpTo(kernels, clusterSlices, t, n - 1);
    var cur := CandidatesUpTo(kernels, clusterSlices, t, n);
    if e < n - 1 {
      CandidatesUpToComplete(kernels, clusterSlices, t, n - 1, e);
      var q :| 0 <= q < |prev| && prev[q].entry == e;
      assert cur[q] == prev[q] by {
        if t[n - 1].kernel !in kernels {
          assert cur == prev + [Candidate(n - 1, t[n - 1].kernel, Compatible(t[n - 1].slices, clusterSlices))];
        }
      }
    } else {
      assert cur == prev + [Candidate(n - 1, t[n - 1].kernel, Compatible(t[n - 1].slices, clusterSlices))];
      assert cur[|prev|].entry == e;
    }
  }

  /** When the store and the cluster's slices are non-empty, every key of the store outside
    * the cluster is a candidate. */
  lemma CandidatesComplete(kernels: seq<string>, clusterSlices: seq<Slice>, t: seq<KernelTrace>, e: nat)
    requires clusterSlices != [] && e < |t| && t[e].kernel !in kernels
    ensures exists q :: 0 <= q < |CheckOverlapOfBinWithOthers(kernels, clusterSlices, t)| &&
                        CheckOverlapOfBinWithOthers(kernels, clusterSlices, t)[q].entry == e
  {
    assert CheckOverlapOfBinWithOthers(kernels, clusterSlices, t) == CandidatesUpTo(kernels, clusterSlices, t, |t|);
    CandidatesUpToComplete(kernels, clusterSlices, t, |t|, e);
  }

  /** `sub in s` on strings. */
  predicate Contains(s: string, sub: string)
    decreases |s|
  {
    |sub| <= |s| && (s[..|sub|] == sub || (|s| > 0 && Contains(s[1..], sub)))
  }

  function Area(p: Personality): nat
  {
    p.shape.rows * p.shape.cols
  }

  /** `0.5 <= seed_size / current_kernel_size <= 2.0`, over integers. */
  function WithinSizeRatio(seedSize: nat, kernelSize: nat): (r: bool)
    requires kernelSize > 0
    ensures r <==> 0.5 <= seedSize as real / kernelSize as real <= 2.0
  {
    RatioBounds(seedSize, kernelSize);
    kernelSize <= 2 * seedSize && seedSize <= 2 * kernelSize
  }

  lemma RatioBounds(a: nat, b: nat)
    requires b > 0
    ensures 0.5 <= a as real / b as real <==> b <= 2 * a
    ensures a as real / b as real <= 2.0 <==> a <= 2 * b
  {
    var ra, rb := a as real, b as real;
    var q := ra / rb;
    assert ra == q * rb;
    assert ra - 0.5 * rb == (q - 0.5) * rb;
    assert 2.0 * rb - ra == (2.0 - q) * rb;
  }

  /** Kernels whose name contains "energy" or "Kurtosis" bypass the homogeneous size test. */
  predicate SizeTested(item: string)
  {
    !Contains(item, "energy") && !Contains(item, "Kurtosis")
  }

  /** What the homogeneous size test needs: the seed and every size-tested kernel of the
    * store in the catalog, with a non-zero area for the latter. */
  predicate HomogeneousReady(seed: Option<string>, catalog: Catalog, t: seq<KernelTrace>)
  {
    forall e :: 0 <= e < |t| && SizeTested(t[e].kernel) ==>
      seed.Some? && seed.value in catalog && t[e].kernel in catalog && Area(catalog[t[e].kernel]) > 0
  }

  /** The homogeneous filter: a size-tested kernel whose area is off the seed's by more than
    * a factor of two is not added to the cluster. */
  predicate SkippedForSize(homogeneous: bool, item: string, seed: Option<string>, catalog: Catalog)
    requires homogeneous && SizeTested(item) ==>
      seed.Some? && seed.value in catalog && item in catalog && Area(catalog[item]) > 0
  {
    homogeneous && SizeTested(item) && !WithinSizeRatio(Area(catalog[seed.value]), Area(catalog[item]))
  }

  function Lengths(cands: seq<Candidate>): (r: seq<int>)
    ensures |r| == |cands| && forall q :: 0 <= q < |cands| ==> r[q] == |cands[q].compatible|
  {
    seq(|cands|, q requires 0 <= q < |cands| => |cands[q].compatible|)
  }

  function Flatten(ss: seq<seq<Slice>>): seq<Slice>
  {
    if ss == [] then [] else Flatten(ss[..|ss| - 1]) + ss[|ss| - 1]
  }

  /** The kernels of the store entries named by the `remove_dict` items. */
  function EntryKernels(t: seq<KernelTrace>, removeDict: seq<(nat, seq<nat>)>): (r: seq<string>)
    requires forall d :: 0 <= d < |removeDict| ==> removeDict[d].0 < |t|
    ensures |r| == |removeDict| && forall d :: 0 <= d < |r| ==> r[d] == t[removeDict[d].0].kernel
  {
    seq(|removeDict|, d requires 0 <= d < |removeDict| => t[removeDict[d].0].kernel)
  }

  /** `{k: v for k, v in data.items() if v}` */
  function DropEmptyKeys(t: seq<KernelTrace>): (r: seq<KernelTrace>)
    ensures NoEmptyLists(r)
    ensures forall e :: 0 <= e < |r| ==> r[e].kernel in Keys(t)
  {
    if t == [] then []
    else
      var last := t[|t| - 1];
      var prev := DropEmptyKeys(t[..|t| - 1]);
      assert forall e :: 0 <= e < |prev| ==> prev[e].kernel in Keys(t) by {
        forall e | 0 <= e < |prev| ensures prev[e].kernel in Keys(t) {
          var k :| 0 <= k < |t| - 1 && Keys(t[..|t| - 1])[k] == prev[e].kernel;
          assert Keys(t)[k] == prev[e].kernel;
        }
      }
      assert Keys(t)[|t| - 1] == last.kernel;
      prev + (if last.slices == [] then [] else [last])
  }

  lemma DistinctKeysInit(t: seq<KernelTrace>)
    requires DistinctKeys(t) && t != []
    ensures DistinctKeys(t[..|t| - 1]) && t[|t| - 1].kernel !in Keys(t[..|t| - 1])
    ensures t == t[..|t| - 1] + [t[|t| - 1]]
  {
    var init := t[..|t| - 1];
    forall a, b | 0 <= a < b < |init| ensures Keys(init)[a] != Keys(init)[b] {
      assert Keys(t)[a] != Keys(t)[b];
    }
    forall k | 0 <= k < |init| ensures Keys(init)[k] != t[|t| - 1].kernel {
      assert Keys(t)[k] != Keys(t)[|t| - 1];
    }
  }

  /** Dropping the emptied keys keeps the keys distinct and every slice ... */
  lemma {:induction false} DropEmptyKeysKeeps(t: seq<KernelTrace>)
    requires DistinctKeys(t)
    ensures DistinctKeys(DropEmptyKeys(t))
    ensures AllSlices(DropEmptyKeys(t)) == AllSlices(t)
  {
    if t != [] {
      var last := t[|t| - 1];
      var init := t[..|t| - 1];
      DistinctKeysInit(t);
      DropEmptyKeysKeeps(init);
      var prev := DropEmptyKeys(init);
      AllSlicesAppend(init, last);
      if last.slices != [] {
        assert last.kernel !in Keys(prev);
        assert DropEmptyKeys(t) == prev + [last];
        AllSlicesAppend(prev, last);
        SlicesOfAppend(prev, last);
      } else {
        assert DropEmptyKeys(t) == prev;
        assert multiset(last.slices) == multiset{};
      }
    }
  }

  /** ... and every key's list of slices. */
  lemma {:induction false} DropEmptyKeysSlicesOf(t: seq<KernelTrace>, k: string)
    requires DistinctKeys(t)
    ensures SlicesOf(DropEmptyKeys(t), k) == SlicesOf(t, k)
  {
    if t != [] {
      var last := t[|t| - 1];
      var init := t[..|t| - 1];
      DistinctKeysInit(t);
      DropEmptyKeysKeeps(init);
      DropEmptyKeysSlicesOf(init, k);
      var prev := DropEmptyKeys(init);
      SlicesOfAppend(init, last);
      if last.slices != [] {
        assert DropEmptyKeys(t) == prev + [last];
        assert last.kernel !in Keys(prev);
        SlicesOfAppend(prev, last);
      } else {
        assert DropEmptyKeys(t) == prev;
        if k == last.kernel {
          MissingKeyNoSlices(init, k);
          forall e | 0 <= e < |prev| ensures prev[e].kernel != k {
            assert prev[e].kernel in Keys(init);
          }
          MissingKeyNoSlices(prev, k);
        }
      }
    }
  }

  lemma MissingKeyNoSlices(t: seq<KernelTrace>, k: string)
    requires forall e :: 0 <= e < |t| ==> t[e].kernel != k
    ensures SlicesOf(t, k) == []
  {
    assert IndexOf(t, k).None?;
  }

  /** The inputs of the growth pass: the store, the cluster's slices before it, the store
    * entry of each visit in visiting order, and whether the homogeneous filter skips it. */
  datatype GrowthPass = GrowthPass(t: seq<KernelTrace>, s0: seq<Slice>, entries: seq<nat>, skips: seq<bool>)

  predicate PassOk(p: GrowthPass)
  {
    |p.entries| == |p.skips| && forall i :: 0 <= i < |p.entries| ==> p.entries[i] < |p.t|
  }

  /** The list of slices visit `i` looks at. */
  function Visited(p: GrowthPass, i: nat): seq<Slice>
    requires PassOk(p) && i < |p.entries|
  {
    p.t[p.entries[i]].slices
  }

  /** The cluster's slices after the first `q` visits. */
  function Grown(p: GrowthPass, q: nat): seq<Slice>
    requires PassOk(p) && q <= |p.entries|
    decreases q, 0
  {
    if q == 0 then p.s0 else Grown(p, q - 1) + Pick(Visited(p, q - 1), VisitList(p, q - 1))
  }

  /** The remove list of visit `i`: nothing for a skipped key, otherwise the positions of
    * the key's list the growth scan absorbs into the cluster the earlier visits left. */
  function VisitList(p: GrowthPass, i: nat): (rl: seq<nat>)
    requires PassOk(p) && i < |p.entries|
    ensures InRange(rl, |Visited(p, i)|)
    decreases i, 1
  {
    if p.skips[i] then [] else AbsorbFrom(Grown(p, i), Visited(p, i), 0)
  }

  /** The `remove_dict` items of the first `q` visits: the entry and remove list of each
    * visit that absorbed something, in visiting order. */
  function Dict(p: GrowthPass, q: nat): (rd: seq<(nat, seq<nat>)>)
    requires PassOk(p) && q <= |p.entries|
    ensures forall d :: 0 <= d < |rd| ==> rd[d].0 < |p.t|
  {
    if q == 0 then []
    else Dict(p, q - 1) + (if VisitList(p, q - 1) != [] then [(p.entries[q - 1], VisitList(p, q - 1))] else [])
  }

  /** The visits among the first `q` that absorbed something. */
  function DictIdx(p: GrowthPass, q: nat): (ix: seq<nat>)
    requires PassOk(p) && q <= |p.entries|
    ensures forall d :: 0 <= d < |ix| ==> ix[d] < q
  {
    if q == 0 then [] else DictIdx(p, q - 1) + (if VisitList(p, q - 1) != [] then [q - 1] else [])
  }

  /** The store after the first `d` items of `remove_dict` are applied. */
  function ApplyDrops(t: seq<KernelTrace>, rd: seq<(nat, seq<nat>)>, d: nat): (r: seq<KernelTrace>)
    requires d <= |rd| && forall i :: 0 <= i < |rd| ==> rd[i].0 < |t|
    ensures |r| == |t| && forall e :: 0 <= e < |t| ==> r[e].kernel == t[e].kernel
  {
    if d == 0 then t
    else
      var u := ApplyDrops(t, rd, d - 1);
      var e := rd[d - 1].0;
      u[e := KernelTrace(u[e].kernel, DropIndices(u[e].slices, rd[d - 1].1))]
  }

  /** The slices the items of `remove_dict` take from the store. */
  function Absorbed(t: seq<KernelTrace>, rd: seq<(nat, seq<nat>)>): seq<Slice>
    requires DropListsOk(t, rd)
  {
    if rd == [] then []
    else Absorbed(t, rd[..|rd| - 1]) + Pick(t[rd[|rd| - 1].0].slices, rd[|rd| - 1].1)
  }

  lemma VisitListIncreasing(p: GrowthPass, i: nat)
    requires PassOk(p) && i < |p.entries|
    ensures StrictlyIncreasing(VisitList(p, i))
    ensures p.skips[i] ==> VisitList(p, i) == []
  {
    if !p.skips[i] {
      AbsorbIncreasing(Grown(p, i), Visited(p, i), 0);
    }
  }

  /** Each `remove_dict` item is the entry and remove list of the visit `DictIdx` names ... */
  lemma {:induction false} DictItems(p: GrowthPass, q: nat)
    requires PassOk(p) && q <= |p.entries|
    ensures var ix, rd := DictIdx(p, q), Dict(p, q);
      |rd| == |ix| &&
      forall d :: 0 <= d < |rd| ==> rd[d] == (p.entries[ix[d]], VisitList(p, ix[d])) && rd[d].1 != []
  {
    if q > 0 {
      DictItems(p, q - 1);
      var ix0, rd0 := DictIdx(p, q - 1), Dict(p, q - 1);
      var rl := VisitList(p, q - 1);
      if rl != [] {
        var ix, rd := ix0 + [q - 1], rd0 + [(p.entries[q - 1], rl)];
        assert DictIdx(p, q) == ix && Dict(p, q) == rd;
        forall d | 0 <= d < |rd| ensures rd[d] == (p.entries[ix[d]], VisitList(p, ix[d])) {
          if d < |rd0| {
            assert rd[d] == rd0[d] && ix[d] == ix0[d];
          }
        }
      } else {
        assert DictIdx(p, q) == ix0 && Dict(p, q) == rd0;
      }
    }
  }

  /** ... in visiting order ... */
  lemma {:induction false} DictIdxIncreasing(p: GrowthPass, q: nat)
    requires PassOk(p) && q <= |p.entries|
    ensures StrictlyIncreasing(DictIdx(p, q))
  {
    if q > 0 {
      DictIdxIncreasing(p, q - 1);
    }
  }

  /** ... and every visit that absorbed something is named. */
  lemma {:induction false} DictIdxComplete(p: GrowthPass, q: nat, i: nat)
    requires PassOk(p) && i < q <= |p.entries| && VisitList(p, i) != []
    ensures i in DictIdx(p, q)
  {
    var prev, last := DictIdx(p, q - 1), if VisitList(p, q - 1) != [] then [q - 1] else [];
    assert DictIdx(p, q) == prev + last;
    if i < q - 1 {
      DictIdxComplete(p, q - 1, i);
      assert i in prev;
    } else {
      assert last == [i];
    }
  }

  /** The items name increasing positions of their entries' lists. */
  lemma DictListsOk(p: GrowthPass, q: nat)
    requires PassOk(p) && q <= |p.entries|
    ensures DropListsOk(p.t, Dict(p, q))
  {
    DictItems(p, q);
    var ix, rd := DictIdx(p, q), Dict(p, q);
    forall d | 0 <= d < |rd|
      ensures rd[d].0 < |p.t| && StrictlyIncreasing(rd[d].1) && InRange(rd[d].1, |p.t[rd[d].0].slices|)
    {
      VisitListIncreasing(p, ix[d]);
    }
  }

  /** Visits to distinct entries give items for distinct entries. */
  lemma DictDistinct(p: GrowthPass, q: nat)
    requires PassOk(p) && q <= |p.entries| && Distinct(p.entries)
    ensures DistinctEntries(Dict(p, q))
  {
    DictItems(p, q);
    DictIdxIncreasing(p, q);
    var ix, rd := DictIdx(p, q), Dict(p, q);
    forall a, b | 0 <= a < b < |rd| ensures rd[a].0 != rd[b].0 {
      assert ix[a] < ix[b];
    }
  }

  /** The cluster grows by exactly the slices its `remove_dict` items name. */
  lemma {:induction false} GrownAbsorbed(p: GrowthPass, q: nat)
    requires PassOk(p) && q <= |p.entries|
    ensures DropListsOk(p.t, Dict(p, q)) && Grown(p, q) == p.s0 + Absorbed(p.t, Dict(p, q))
  {
    DictListsOk(p, q);
    if q == 0 {
      assert p.s0 + [] == p.s0;
    } else {
      GrownAbsorbed(p, q - 1);
      AbsorbedStep(p, q);
      AppendAssoc(Grown(p, q - 1), p.s0, Absorbed(p.t, Dict(p, q - 1)),
                  Pick(Visited(p, q - 1), VisitList(p, q - 1)));
    }
  }

  /** Visit `q - 1` adds to the absorbed slices exactly what it adds to the cluster. */
  lemma AbsorbedStep(p: GrowthPass, q: nat)
    requires PassOk(p) && 0 < q <= |p.entries|
    requires DropListsOk(p.t, Dict(p, q - 1)) && DropListsOk(p.t, Dict(p, q))
    ensures Absorbed(p.t, Dict(p, q)) == Absorbed(p.t, Dict(p, q - 1)) + Pick(Visited(p, q - 1), VisitList(p, q - 1))
  {
    var rd0, rd := Dict(p, q - 1), Dict(p, q);
    if VisitList(p, q - 1) != [] {
      assert rd[..|rd| - 1] == rd0;
    } else {
      assert rd == rd0;
      assert Absorbed(p.t, rd0) + [] == Absorbed(p.t, rd0);
    }
  }

  lemma AppendAssoc<T>(a: seq<T>, b: seq<T>, c: seq<T>, d: seq<T>)
    requires a == b + c
    ensures a + d == b + (c + d)
  {
  }

  /** The growth pass keeps a conflict-free cluster conflict-free. */
  lemma {:induction false} GrownNoConflicts(p: GrowthPass, q: nat)
    requires PassOk(p) && q <= |p.entries| && NoConflicts(p.s0)
    ensures NoConflicts(Grown(p, q))
  {
    if q > 0 {
      GrownNoConflicts(p, q - 1);
      if !p.skips[q - 1] {
        AbsorbNoConflicts(Grown(p, q - 1), Visited(p, q - 1), 0);
      } else {
        assert Pick(Visited(p, q - 1), []) == [];
        assert Grown(p, q - 1) + [] == Grown(p, q - 1);
      }
    }
  }

  /** The cluster only grows at its end. */
  lemma {:induction false} GrownPrefix(p: GrowthPass, i: nat, q: nat)
    requires PassOk(p) && i <= q <= |p.entries|
    ensures |Grown(p, i)| <= |Grown(p, q)| && Grown(p, q)[..|Grown(p, i)|] == Grown(p, i)
  {
    if i < q {
      GrownPrefix(p, i, q - 1);
      var g := Grown(p, q - 1);
      assert Grown(p, q)[..|g|] == g;
    }
  }

  /** Every slice a visit to a key that is not skipped leaves behind conflicts with the
    * cluster as it stands after any later visit. */
  lemma VisitSaturates(p: GrowthPass, i: nat, q: nat, pos: nat)
    requires PassOk(p) && i < q <= |p.entries| && !p.skips[i]
    requires pos < |Visited(p, i)| && pos !in VisitList(p, i)
    ensures CheckConflictSliceVsSlices(Span(Visited(p, i)[pos]), Grown(p, q))
  {
    var x := Span(Visited(p, i)[pos]);
    var g, h := Grown(p, i + 1), Grown(p, q);
    assert CheckConflictSliceVsSlices(x, g) by {
      AbsorbSaturates(Grown(p, i), Visited(p, i), 0, pos);
    }
    assert h == g + h[|g|..] by {
      GrownPrefix(p, i + 1, q);
      PrefixSplit(g, h);
    }
    ConflictsExtend(x, g, h[|g|..]);
  }

  /** No two `remove_dict` items name the same entry. */
  predicate DistinctEntries(rd: seq<(nat, seq<nat>)>)
  {
    forall a, b :: 0 <= a < b < |rd| ==> rd[a].0 != rd[b].0
  }

  /** Every `remove_dict` item names an entry of `t` and increasing positions in its list. */
  predicate DropListsOk(t: seq<KernelTrace>, rd: seq<(nat, seq<nat>)>)
  {
    forall i :: 0 <= i < |rd| ==>
      rd[i].0 < |t| && StrictlyIncreasing(rd[i].1) && InRange(rd[i].1, |t[rd[i].0].slices|)
  }

  /** An entry no applied item names is untouched ... */
  lemma {:induction false} DropsUntouched(t: seq<KernelTrace>, rd: seq<(nat, seq<nat>)>, d: nat, e: nat)
    requires d <= |rd| && DropListsOk(t, rd) && e < |t|
    requires forall i :: 0 <= i < d ==> rd[i].0 != e
    ensures ApplyDrops(t, rd, d)[e] == t[e]
  {
    if d > 0 {
      DropsUntouched(t, rd, d - 1, e);
    }
  }

  /** ... and an entry an applied item names loses exactly the positions it lists. */
  lemma {:induction false} DropsApplied(t: seq<KernelTrace>, rd: seq<(nat, seq<nat>)>, d: nat, i: nat)
    requires d <= |rd| && DropListsOk(t, rd) && DistinctEntries(rd) && i < d
    ensures ApplyDrops(t, rd, d)[rd[i].0] == KernelTrace(t[rd[i].0].kernel, DropIndices(t[rd[i].0].slices, rd[i].1))
  {
    if i == d - 1 {
      DropsUntouched(t, rd, d - 1, rd[i].0);
    } else {
      DropsApplied(t, rd, d - 1, i);
    }
  }

  /** Applying the items moves exactly the absorbed slices out of the store. */
  lemma {:induction false} DropsConserve(t: seq<KernelTrace>, rd: seq<(nat, seq<nat>)>, d: nat)
    requires d <= |rd| && DropListsOk(t, rd) && DistinctEntries(rd)
    ensures AllSlices(ApplyDrops(t, rd, d)) + multiset(Absorbed(t, rd[..d])) == AllSlices(t)
  {
    if d == 0 {
      assert rd[..0] == [];
    } else {
      DropsConserve(t, rd, d - 1);
      var u := ApplyDrops(t, rd, d - 1);
      var (e, rl) := rd[d - 1];
      var list := t[e].slices;
      var x := KernelTrace(t[e].kernel, DropIndices(list, rl));
      assert u[e] == t[e] by { DropsUntouched(t, rd, d - 1, e); }
      assert ApplyDrops(t, rd, d) == u[e := x];
      var before, gained := AllSlices(u), multiset(Absorbed(t, rd[..d - 1]));
      var picked, dropped := multiset(Pick(list, rl)), multiset(DropIndices(list, rl));
      assert AllSlices(u[e := x]) + multiset(list) == before + dropped by { AllSlicesUpdate(u, e, x); }
      assert picked + dropped == multiset(list) by { PickDropSplit(list, rl); }
      assert multiset(Absorbed(t, rd[..d])) == gained + picked by { AbsorbedSnoc(t, rd, d); }
      MultisetStep(before, gained, AllSlices(u[e := x]), multiset(list), picked, dropped, AllSlices(t));
    }
  }

  lemma AbsorbedSnoc(t: seq<KernelTrace>, rd: seq<(nat, seq<nat>)>, d: nat)
    requires 0 < d <= |rd| && DropListsOk(t, rd)
    ensures Absorbed(t, rd[..d]) == Absorbed(t, rd[..d - 1]) + Pick(t[rd[d - 1].0].slices, rd[d - 1].1)
  {
    assert rd[..d][..d - 1] == rd[..d - 1];
  }

  /** The bookkeeping of one applied item: what the store loses is what the cluster gains. */
  lemma MultisetStep<T>(before: multiset<T>, gained: multiset<T>, after: multiset<T>, list: multiset<T>,
                        picked: multiset<T>, dropped: multiset<T>, total: multiset<T>)
    requires before + gained == total
    requires after + list == before + dropped
    requires picked + dropped == list
    ensures after + (gained + picked) == total
  {
    assert (after + picked) + dropped == before + dropped;
    MultisetCancel(after + picked, before, dropped);
  }

  /** What the method computing the growth pass knows of its inputs: keys are distinct,
    * each key is visited at most once, and no visited key is in the cluster. */
  predicate PassFacts(p: GrowthPass, k0: seq<string>)
  {
    PassOk(p) && DistinctKeys(p.t) && Distinct(p.entries) &&
    forall i :: 0 <= i < |p.entries| ==> p.t[p.entries[i]].kernel !in k0
  }

  /** The `remove_dict` of the whole pass. */
  function FullDict(p: GrowthPass): (rd: seq<(nat, seq<nat>)>)
    requires PassOk(p)
    ensures forall d :: 0 <= d < |rd| ==> rd[d].0 < |p.t|
  {
    Dict(p, |p.entries|)
  }

  /** The store once every `remove_dict` item is applied, before emptied keys are dropped. */
  function Drained(p: GrowthPass): seq<KernelTrace>
    requires PassOk(p)
  {
    ApplyDrops(p.t, FullDict(p), |FullDict(p)|)
  }

  /** Stores with the same key at every position have the same keys. */
  lemma SameKernels(t: seq<KernelTrace>, u: seq<KernelTrace>)
    requires |t| == |u| && forall e :: 0 <= e < |t| ==> t[e].kernel == u[e].kernel
    ensures Keys(t) == Keys(u)
    ensures DistinctKeys(t) ==> DistinctKeys(u)
  {
  }

  /** The kernels the pass adds to the cluster are keys of the store, outside the cluster,
    * and distinct. */
  lemma GrowthKernels(p: GrowthPass, k0: seq<string>)
    requires PassFacts(p, k0)
    ensures var ks := EntryKernels(p.t, FullDict(p));
      (forall i :: 0 <= i < |ks| ==> ks[i] in Keys(p.t) && ks[i] !in k0) && Distinct(ks)
  {
    var n := |p.entries|;
    var rd, ks := FullDict(p), EntryKernels(p.t, FullDict(p));
    DictItems(p, n);
    DictDistinct(p, n);
    forall i | 0 <= i < |ks| ensures ks[i] in Keys(p.t) && ks[i] !in k0 {
      assert Keys(p.t)[rd[i].0] == ks[i];
    }
  }

  /** The pass moves slices from the store to the cluster and loses none. */
  lemma GrowthConserves(p: GrowthPass, k0: seq<string>)
    requires PassFacts(p, k0)
    ensures DistinctKeys(Drained(p)) && Keys(Drained(p)) == Keys(p.t)
    ensures multiset(Grown(p, |p.entries|)) + AllSlices(DropEmptyKeys(Drained(p))) ==
            multiset(p.s0) + AllSlices(p.t)
  {
    var rd := FullDict(p);
    SameKernels(p.t, Drained(p));
    DictListsOk(p, |p.entries|);
    DictDistinct(p, |p.entries|);
    GrownAbsorbed(p, |p.entries|);
    DropsConserve(p.t, rd, |rd|);
    assert rd[..|rd|] == rd;
    DropEmptyKeysKeeps(Drained(p));
  }

  /** A key the pass adds nothing of to the cluster keeps its list. */
  lemma GrowthUntouched(p: GrowthPass, k0: seq<string>, e: nat)
    requires PassFacts(p, k0) && e < |p.t|
    requires p.t[e].kernel !in EntryKernels(p.t, FullDict(p))
    ensures SlicesOf(DropEmptyKeys(Drained(p)), p.t[e].kernel) == p.t[e].slices
  {
    var rd, u := FullDict(p), Drained(p);
    DictListsOk(p, |p.entries|);
    forall d | 0 <= d < |rd| ensures rd[d].0 != e {
      assert EntryKernels(p.t, rd)[d] == p.t[rd[d].0].kernel;
    }
    DropsUntouched(p.t, rd, |rd|, e);
    SameKernels(p.t, u);
    DropEmptyKeysSlicesOf(u, p.t[e].kernel);
    IndexOfUnique(u, e);
  }

  /** The drained list of a visited key is its list without the visit's remove list. */
  lemma DrainedVisit(p: GrowthPass, k0: seq<string>, i: nat)
    requires PassFacts(p, k0) && i < |p.entries|
    ensures Drained(p)[p.entries[i]].slices == DropIndices(Visited(p, i), VisitList(p, i))
  {
    var n, e := |p.entries|, p.entries[i];
    var rd, rl := FullDict(p), VisitList(p, i);
    DictListsOk(p, n);
    DictDistinct(p, n);
    DictItems(p, n);
    if rl != [] {
      DictIdxComplete(p, n, i);
      var d := PositionOf(DictIdx(p, n), i);
      DropsApplied(p.t, rd, |rd|, d);
    } else {
      forall d | 0 <= d < |rd| ensures rd[d].0 != e {
        var j := DictIdx(p, n)[d];
        if j != i {
          assert p.entries[j] != p.entries[i];
        }
      }
      DropsUntouched(p.t, rd, |rd|, e);
      DropIndicesNone(Visited(p, i));
    }
  }

  /** What is left in the store of a key visited and not skipped conflicts with the cluster. */
  lemma GrowthSaturated(p: GrowthPass, k0: seq<string>, i: nat, s: Slice)
    requires PassFacts(p, k0) && i < |p.entries| && !p.skips[i]
    requires s in SlicesOf(DropEmptyKeys(Drained(p)), p.t[p.entries[i]].kernel)
    ensures CheckConflictSliceVsSlices(Span(s), Grown(p, |p.entries|))
  {
    var e, u := p.entries[i], Drained(p);
    SameKernels(p.t, u);
    DropEmptyKeysSlicesOf(u, p.t[e].kernel);
    IndexOfUnique(u, e);
    DrainedVisit(p, k0, i);
    DropIndicesOrigin(Visited(p, i), VisitList(p, i), s);
    var pos :| 0 <= pos < |Visited(p, i)| && pos !in VisitList(p, i) && Visited(p, i)[pos] == s;
    VisitSaturates(p, i, |p.entries|, pos);
  }

  /** A prefix of a conflict-free list is conflict-free. */
  lemma NoConflictsPrefix(s: seq<Slice>, a: seq<Slice>)
    requires NoConflicts(s) && |a| <= |s| && s[..|a|] == a
    ensures NoConflicts(a)
  {
    forall i, j | 0 <= i < j < |a| ensures !CheckOverlapV2(a[i], a[j]) {
      assert a[i] == s[i] && a[j] == s[j];
    }
  }

  /** The growth pass `fill_bin_with_overlaps` runs on store `t` for a cluster holding
    * kernels `k0` and slices `s0`: the candidates in decreasing order of their number of
    * compatible slices (ties in store order), each flagged when the homogeneous filter
    * skips it. */
  function FillPass(t: seq<KernelTrace>, s0: seq<Slice>, k0: seq<string>, homogeneous: bool,
                    seed: Option<string>, catalog: Catalog): (p: GrowthPass)
    requires homogeneous ==> HomogeneousReady(seed, catalog, t)
    ensures PassOk(p) && p.t == t && p.s0 == s0
  {
    var cands := CheckOverlapOfBinWithOthers(k0, s0, t);
    var order := StableOrderDesc(Lengths(cands));
    var entries := seq(|order|, q requires 0 <= q < |order| => cands[order[q]].entry);
    GrowthPass(t, s0, entries,
               seq(|order|, q requires 0 <= q < |order| =>
                     SkippedForSize(homogeneous, t[entries[q]].kernel, seed, catalog)))
  }

  /** Every key is visited at most once and no visited key is in the cluster ... */
  lemma FillPassFacts(t: seq<KernelTrace>, s0: seq<Slice>, k0: seq<string>, homogeneous: bool,
                      seed: Option<string>, catalog: Catalog)
    requires DistinctKeys(t) && (homogeneous ==> HomogeneousReady(seed, catalog, t))
    ensures PassFacts(FillPass(t, s0, k0, homogeneous, seed, catalog), k0)
  {
    var cands := CheckOverlapOfBinWithOthers(k0, s0, t);
    var order := StableOrderDesc(Lengths(cands));
    var p := FillPass(t, s0, k0, homogeneous, seed, catalog);
    StableOrderDescCorrect(Lengths(cands));
    forall a, b | 0 <= a < b < |p.entries| ensures p.entries[a] != p.entries[b] {
      var x, y := order[a], order[b];
      assert x != y;
      if x < y {
        assert cands[x].entry < cands[y].entry;
      } else {
        assert cands[y].entry < cands[x].entry;
      }
    }
  }

  /** ... and, when the cluster has slices, every key outside it is visited. */
  lemma FillPassCovers(t: seq<KernelTrace>, s0: seq<Slice>, k0: seq<string>, homogeneous: bool,
                       seed: Option<string>, catalog: Catalog, e: nat)
    requires homogeneous ==> HomogeneousReady(seed, catalog, t)
    requires s0 != [] && e < |t| && t[e].kernel !in k0
    ensures var p := FillPass(t, s0, k0, homogeneous, seed, catalog);
      exists i :: 0 <= i < |p.entries| && p.entries[i] == e &&
                  p.skips[i] == SkippedForSize(homogeneous, t[e].kernel, seed, catalog)
  {
    var cands := CheckOverlapOfBinWithOthers(k0, s0, t);
    var order := StableOrderDesc(Lengths(cands));
    var p := FillPass(t, s0, k0, homogeneous, seed, catalog);
    StableOrderDescCorrect(Lengths(cands));
    CandidatesComplete(k0, s0, t, e);
    var c :| 0 <= c < |cands| && cands[c].entry == e;
    var i := PositionOf(order, c);
    assert p.entries[i] == e;
  }

  /** The cluster after the pass is conflict-free exactly when it was before. */
  lemma FillBinNoConflicts(t: seq<KernelTrace>, s0: seq<Slice>, k0: seq<string>, homogeneous: bool,
                           seed: Option<string>, catalog: Catalog)
    requires homogeneous ==> HomogeneousReady(seed, catalog, t)
    ensures var p := FillPass(t, s0, k0, homogeneous, seed, catalog);
      NoConflicts(Grown(p, |p.entries|)) <==> NoConflicts(s0)
    ensures var p := FillPass(t, s0, k0, homogeneous, seed, catalog);
      |s0| <= |Grown(p, |p.entries|)| && Grown(p, |p.entries|)[..|s0|] == s0
  {
    var p := FillPass(t, s0, k0, homogeneous, seed, catalog);
    GrownPrefix(p, 0, |p.entries|);
    if NoConflicts(s0) {
      GrownNoConflicts(p, |p.entries|);
    }
    if NoConflicts(Grown(p, |p.entries|)) {
      NoConflictsPrefix(Grown(p, |p.entries|), s0);
    }
  }

  /** The kernels the pass adds to the cluster are keys of the store, outside the cluster,
    * and distinct. */
  lemma FillBinKernels(t: seq<KernelTrace>, s0: seq<Slice>, k0: seq<string>, homogeneous: bool,
                       seed: Option<string>, catalog: Catalog)
    requires DistinctKeys(t) && (homogeneous ==> HomogeneousReady(seed, catalog, t))
    ensures var ks := EntryKernels(t, FullDict(FillPass(t, s0, k0, homogeneous, seed, catalog)));
      (forall i :: 0 <= i < |ks| ==> ks[i] in Keys(t) && ks[i] !in k0) && Distinct(ks)
  {
    FillPassFacts(t, s0, k0, homogeneous, seed, catalog);
    GrowthKernels(FillPass(t, s0, k0, homogeneous, seed, catalog), k0);
  }

  /** The store left by the pass has distinct keys, all from the old store, and no empty
    * list; together with the cluster it holds exactly the slices held before. */
  lemma FillBinConserves(t: seq<KernelTrace>, s0: seq<Slice>, k0: seq<string>, homogeneous: bool,
                         seed: Option<string>, catalog: Catalog)
    requires DistinctKeys(t) && (homogeneous ==> HomogeneousReady(seed, catalog, t))
    ensures var p := FillPass(t, s0, k0, homogeneous, seed, catalog);
      var u := DropEmptyKeys(Drained(p));
      DistinctKeys(u) && NoEmptyLists(u) && (forall e :: 0 <= e < |u| ==> u[e].kernel in Keys(t)) &&
      multiset(Grown(p, |p.entries|)) + AllSlices(u) == multiset(s0) + AllSlices(t)
  {
    var p := FillPass(t, s0, k0, homogeneous, seed, catalog);
    FillPassFacts(t, s0, k0, homogeneous, seed, catalog);
    GrowthConserves(p, k0);
    DropEmptyKeysKeeps(Drained(p));
  }

  /** A key the pass adds to the cluster nothing of keeps its whole list. */
  lemma FillBinUntouched(t: seq<KernelTrace>, s0: seq<Slice>, k0: seq<string>, homogeneous: bool,
                         seed: Option<string>, catalog: Catalog, e: nat)
    requires DistinctKeys(t) && (homogeneous ==> HomogeneousReady(seed, catalog, t))
    requires e < |t| && t[e].kernel !in EntryKernels(t, FullDict(FillPass(t, s0, k0, homogeneous, seed, catalog)))
    ensures SlicesOf(DropEmptyKeys(Drained(FillPass(t, s0, k0, homogeneous, seed, catalog))), t[e].kernel) ==
            t[e].slices
  {
    FillPassFacts(t, s0, k0, homogeneous, seed, catalog);
    GrowthUntouched(FillPass(t, s0, k0, homogeneous, seed, catalog), k0, e);
  }

  /** The pass saturates the cluster: when the cluster had slices, every slice left in the
    * store under a key outside the cluster that the homogeneous filter does not skip
    * conflicts with a slice of the grown cluster. */
  lemma FillBinSaturates(t: seq<KernelTrace>, s0: seq<Slice>, k0: seq<string>, homogeneous: bool,
                         seed: Option<string>, catalog: Catalog, e: nat, s: Slice)
    requires DistinctKeys(t) && (homogeneous ==> HomogeneousReady(seed, catalog, t))
    requires s0 != [] && e < |t| && t[e].kernel !in k0
    requires !SkippedForSize(homogeneous, t[e].kernel, seed, catalog)
    requires s in SlicesOf(DropEmptyKeys(Drained(FillPass(t, s0, k0, homogeneous, seed, catalog))), t[e].kernel)
    ensures var p := FillPass(t, s0, k0, homogeneous, seed, catalog);
      CheckConflictSliceVsSlices(Span(s), Grown(p, |p.entries|))
  {
    var p := FillPass(t, s0, k0, homogeneous, seed, catalog);
    FillPassFacts(t, s0, k0, homogeneous, seed, catalog);
    FillPassCovers(t, s0, k0, homogeneous, seed, catalog, e);
    var i :| 0 <= i < |p.entries| && p.entries[i] == e &&
             p.skips[i] == SkippedForSize(homogeneous, t[e].kernel, seed, catalog);
    GrowthSaturated(p, k0, i, s);
  }

  /** One visit of the growth pass. */
  lemma VisitStep(p: GrowthPass, q: nat)
    requires PassOk(p) && q < |p.entries|
    ensures var rl := VisitList(p, q);
      (p.skips[q] ==> rl == [] && Grown(p, q + 1) == Grown(p, q) && Dict(p, q + 1) == Dict(p, q)) &&
      (!p.skips[q] ==> rl == AbsorbFrom(Grown(p, q), Visited(p, q), 0)) &&
      Grown(p, q + 1) == Grown(p, q) + Pick(Visited(p, q), rl) &&
      Dict(p, q + 1) == Dict(p, q) + (if rl != [] then [(p.entries[q], rl)] else [])
  {
    if p.skips[q] {
      assert Grown(p, q) + Pick(Visited(p, q), []) == Grown(p, q);
    }
  }

  /** Visit `q` of pass `p` is to candidate `nonOverlaps[order[q]]`, and is skipped exactly
    * when the homogeneous filter rejects its kernel. */
  predicate CandidatesMatchPass(p: GrowthPass, t: seq<KernelTrace>, nonOverlaps: seq<Candidate>, order: seq<nat>,
                                homogeneous: bool, seed: Option<string>, catalog: Catalog)
  {
    PassOk(p) && p.t == t && |p.entries| == |order| && InRange(order, |nonOverlaps|) &&
    forall q :: 0 <= q < |order| ==>
      var c := nonOverlaps[order[q]];
      c.entry == p.entries[q] && c.kernel == t[c.entry].kernel &&
      (homogeneous && SizeTested(c.kernel) ==>
         seed.Some? && seed.value in catalog && c.kernel in catalog && Area(catalog[c.kernel]) > 0) &&
      p.skips[q] == SkippedForSize(homogeneous, c.kernel, seed, catalog)
  }

  /** The first loop of `fill_bin_with_overlaps`: visit the candidates in `order`, skip
    * those the homogeneous filter rejects, absorb into the cluster the compatible slices of
    * the others and record each non-empty remove list in `remove_dict`. */
  method VisitCandidates(cluster: Cluster, t: seq<KernelTrace>, nonOverlaps: seq<Candidate>, order: seq<nat>,
                         catalog: Catalog, homogeneous: bool, ghost p: GrowthPass)
    returns (removeDict: seq<(nat, seq<nat>)>)
    requires p.s0 == cluster.slices
    requires CandidatesMatchPass(p, t, nonOverlaps, order, homogeneous, cluster.seedKernel, catalog)
    modifies cluster`kernels, cluster`slices
    ensures removeDict == FullDict(p) && cluster.slices == Grown(p, |p.entries|)
    ensures cluster.kernels == old(cluster.kernels) + EntryKernels(t, removeDict)
  {
    removeDict := [];
    for q := 0 to |order|
      invariant cluster.slices == Grown(p, q)
      invariant removeDict == Dict(p, q)
      invariant cluster.kernels == old(cluster.kernels) + EntryKernels(t, removeDict)
    {
      var item := nonOverlaps[order[q]];
      VisitStep(p, q);
      if homogeneous && SizeTested(item.kernel) {
        var seedSize := Area(catalog[cluster.seedKernel.value]);
        var currentKernelSize := Area(catalog[item.kernel]);
        if !WithinSizeRatio(seedSize, currentKernelSize) {
          continue;
        }
      }
      var nonOverlapBin, nonOverlapList, removeList :=
        CheckOverlapOfBinWithOthersOnlyOne(cluster, t[item.entry].slices);
      if nonOverlapList != [] {
        cluster.ExtendKernels([item.kernel]);
        cluster.slices := nonOverlapBin;
        removeDict := removeDict + [(item.entry, removeList)];
      }
    }
  }

  /** The second loop of `fill_bin_with_overlaps`: drop from each listed key the positions
    * its remove list names. */
  method ApplyRemoveDict(td: TimingData, removeDict: seq<(nat, seq<nat>)>)
    requires DropListsOk(td.data, removeDict)
    modifies td
    ensures td.data == ApplyDrops(old(td.data), removeDict, |removeDict|)
  {
    for d := 0 to |removeDict|
      invariant td.data == ApplyDrops(old(td.data), removeDict, d)
    {
      var (key, removeList) := removeDict[d];
      StrictlyIncreasingDistinct(removeList);
      if HasDuplicates(removeList) {
        assert false;
      }
      td.data := td.data[key := KernelTrace(td.data[key].kernel, DropIndices(td.data[key].slices, removeList))];
    }
  }

  /** The facts `VisitCandidates` needs of the pass `fill_bin_with_overlaps` builds. */
  lemma FillPassVisits(t: seq<KernelTrace>, s0: seq<Slice>, k0: seq<string>, homogeneous: bool,
                       seed: Option<string>, catalog: Catalog)
    requires homogeneous ==> HomogeneousReady(seed, catalog, t)
    ensures var cands := CheckOverlapOfBinWithOthers(k0, s0, t);
      CandidatesMatchPass(FillPass(t, s0, k0, homogeneous, seed, catalog), t, cands,
                          StableOrderDesc(Lengths(cands)), homogeneous, seed, catalog)
  {
  }

  /** The pass in brief: the cluster's slices only grow, and stay free of conflicts; its
    * kernels stay free of duplicates; the store left has distinct keys, all old ones, and no
    * empty list, and lost exactly the slices the cluster gained. */
  lemma FillPassSummary(t: seq<KernelTrace>, s0: seq<Slice>, k0: seq<string>, homogeneous: bool,
                        seed: Option<string>, catalog: Catalog)
    requires DistinctKeys(t) && (homogeneous ==> HomogeneousReady(seed, catalog, t))
    ensures var p := FillPass(t, s0, k0, homogeneous, seed, catalog);
      var s2 := Grown(p, |p.entries|);
      var u := DropEmptyKeys(Drained(p));
      s0 <= s2 && (NoConflicts(s0) ==> NoConflicts(s2)) &&
      (Distinct(k0) ==> Distinct(k0 + EntryKernels(t, FullDict(p)))) &&
      DistinctKeys(u) && NoEmptyLists(u) && (forall e :: 0 <= e < |u| ==> u[e].kernel in Keys(t)) &&
      multiset(s2) + AllSlices(u) == multiset(s0) + AllSlices(t) &&
      TotalSlices(u) + |s2| == TotalSlices(t) + |s0|
  {
    var p := FillPass(t, s0, k0, homogeneous, seed, catalog);
    var s2 := Grown(p, |p.entries|);
    var u := DropEmptyKeys(Drained(p));
    assert s0 <= s2 && (NoConflicts(s0) ==> NoConflicts(s2)) by {
      FillBinNoConflicts(t, s0, k0, homogeneous, seed, catalog);
    }
    assert Distinct(k0) ==> Distinct(k0 + EntryKernels(t, FullDict(p))) by {
      FillBinKernels(t, s0, k0, homogeneous, seed, catalog);
      if Distinct(k0) {
        DistinctAppend(k0, EntryKernels(t, FullDict(p)));
      }
    }
    assert DistinctKeys(u) && NoEmptyLists(u) && (forall e :: 0 <= e < |u| ==> u[e].kernel in Keys(t)) &&
           multiset(s2) + AllSlices(u) == multiset(s0) + AllSlices(t) by {
      FillBinConserves(t, s0, k0, homogeneous, seed, catalog);
    }
    assert TotalSlices(u) + |s2| == TotalSlices(t) + |s0| by {
      AllSlicesSize(t);
      AllSlicesSize(u);
      assert |multiset(s2) + AllSlices(u)| == |multiset(s0) + AllSlices(t)|;
    }
  }

  /** `fill_bin_with_overlaps` (default mode): runs the growth pass of `FillPass`, grows the
    * cluster's kernels and slices as it does, takes the absorbed slices out of the store,
    * stops when the cluster holds two conflicting slices, and drops the emptied keys. With
    * `homogeneous`, a size-tested kernel whose area is off the seed's by more than a factor
    * of two is not visited. */
  method FillBinWithOverlaps(cluster: Cluster, td: TimingData, catalog: Catalog, homogeneous: bool)
    returns (r: Result<(), ClusteringError>)
    requires td.Valid()
    requires homogeneous ==> HomogeneousReady(cluster.seedKernel, catalog, td.data)
    modifies cluster`kernels, cluster`slices, td
    ensures r.Ok? <==> NoConflicts(old(cluster.slices))
    ensures old(cluster.slices) <= cluster.slices && old(cluster.kernels) <= cluster.kernels
    ensures Distinct(old(cluster.kernels)) ==> Distinct(cluster.kernels)
    ensures r.Ok? ==> NoConflicts(cluster.slices) && td.Valid() && NoEmptyLists(td.data)
    ensures r.Ok? ==> forall e :: 0 <= e < |td.data| ==> td.data[e].kernel in old(Keys(td.data))
    ensures r.Ok? ==> multiset(cluster.slices) + AllSlices(td.data) == old(multiset(cluster.slices) + AllSlices(td.data))
    ensures r.Ok? ==> TotalSlices(td.data) + |cluster.slices| == old(TotalSlices(td.data) + |cluster.slices|)
  {
    ghost var p := FillPass(td.data, cluster.slices, cluster.kernels, homogeneous, cluster.seedKernel, catalog);
    FillPassSummary(td.data, cluster.slices, cluster.kernels, homogeneous, cluster.seedKernel, catalog);
    var nonOverlaps := CheckOverlapOfBinWithOthers(cluster.kernels, cluster.slices, td.data);
    var sortedNonOverlaps := StableOrderDesc(Lengths(nonOverlaps));
    FillPassVisits(td.data, cluster.slices, cluster.kernels, homogeneous, cluster.seedKernel, catalog);
    FillBinNoConflicts(td.data, cluster.slices, cluster.kernels, homogeneous, cluster.seedKernel, catalog);
    var removeDict := VisitCandidates(cluster, td.data, nonOverlaps, sortedNonOverlaps, catalog, homogeneous, p);
    DictListsOk(p, |p.entries|);
    ApplyRemoveDict(td, removeDict);
    if FindOverlapsForBin(cluster.slices) != [] {
      return Err(OverlapsInBin);
    }
    td.data := DropEmptyKeys(td.data);
    r := Ok(());
  }

  /* ---------------------------------------------------------------------------------
   * The binning driver: one bin per round until the store is empty.
   * --------------------------------------------------------------------------------- */

  /** What the homogeneous size test needs of a whole store: every kernel in the catalog,
    * and every size-tested kernel with a non-zero area. */
  predicate CatalogCovers(catalog: Catalog, t: seq<KernelTrace>)
  {
    forall e :: 0 <= e < |t| ==> t[e].kernel in catalog && (SizeTested(t[e].kernel) ==> Area(catalog[t[e].kernel]) > 0)
  }

  /** A store whose kernels all come from a covered store is covered. */
  lemma CatalogCoversKeys(catalog: Catalog, t: seq<KernelTrace>, u: seq<KernelTrace>)
    requires CatalogCovers(catalog, t)
    requires forall e :: 0 <= e < |u| ==> u[e].kernel in Keys(t)
    ensures CatalogCovers(catalog, u)
  {
    forall e | 0 <= e < |u|
      ensures u[e].kernel in catalog && (SizeTested(u[e].kernel) ==> Area(catalog[u[e].kernel]) > 0)
    {
      var j := PositionOf(Keys(t), u[e].kernel);
      assert t[j].kernel == u[e].kernel;
    }
  }

  /** A store with the same keys as a covered store is covered. */
  lemma CatalogCoversSameKeys(catalog: Catalog, t: seq<KernelTrace>, u: seq<KernelTrace>)
    requires CatalogCovers(catalog, t) && Keys(u) == Keys(t)
    ensures CatalogCovers(catalog, u)
  {
    forall e | 0 <= e < |u| ensures u[e].kernel == t[e].kernel {
      assert Keys(u)[e] == Keys(t)[e];
    }
  }

  /** With a covered store, any catalogued seed passes the homogeneous test's lookups. */
  lemma CatalogCoversReady(catalog: Catalog, t: seq<KernelTrace>, seed: string)
    requires CatalogCovers(catalog, t) && seed in catalog
    ensures HomogeneousReady(Some(seed), catalog, t)
  {
  }

  /** The slices committed to a list of clusters, as a multiset. */
  ghost function ClusterSlices(cs: seq<Cluster>): multiset<Slice>
    reads cs
  {
    if cs == [] then multiset{} else ClusterSlices(cs[..|cs| - 1]) + multiset(cs[|cs| - 1].slices)
  }

  /** A cluster as the default round leaves it: its own id, the seed kernel first and no
    * kernel twice, and no two of its slices overlapping. */
  ghost predicate ClusterOk(c: Cluster, id: int)
    reads c
  {
    c.id == id && c.kernels != [] && c.seedKernel == Some(c.kernels[0]) && Distinct(c.kernels) &&
    NoConflicts(c.slices)
  }

  /** The seed's kernel is a key of the store it came from. */
  lemma SeedKey(t: seq<KernelTrace>)
    requires |t| > 0 && NoEmptyLists(t)
    ensures t[SeedIndex(t)].kernel in Keys(t)
  {
    assert Keys(t)[SeedIndex(t)] == t[SeedIndex(t)].kernel;
  }

  /** What a successful round leaves: the new bin `c` as a round leaves it, and a store
    * `t1` with distinct keys, all from `t0`, no empty list and fewer slices, that lost
    * exactly the slices `c` holds. */
  ghost predicate RoundLeaves(c: Cluster, id: int, t0: seq<KernelTrace>, t1: seq<KernelTrace>)
    reads c
  {
    ClusterOk(c, id) && DistinctKeys(t1) && NoEmptyLists(t1) && TotalSlices(t1) < TotalSlices(t0) &&
    (forall e :: 0 <= e < |t1| ==> t1[e].kernel in Keys(t0)) &&
    multiset(c.slices) + AllSlices(t1) == AllSlices(t0)
  }

  /** `unlimited_IMEM_binning` in its default mode: seed bin `binId` and fill it. The new
    * cluster is appended to `cl`, whose position is its key. The bin's seed is the store's
    * highest-ranked kernel, and its kernels and slices begin with that kernel and its
    * earliest-finish picks, whatever the filling adds after them. */
  method UnlimitedImemBinning(cl: ClusterList, td: TimingData, catalog: Catalog, homogeneous: bool, binId: int)
    returns (r: Result<int, ClusteringError>)
    requires td.Valid() && |td.data| > 0 && NoEmptyLists(td.data)
    requires binId == |cl.clusters|
    requires homogeneous ==> CatalogCovers(catalog, td.data)
    modifies cl, td
    ensures |cl.clusters| == binId + 1 && cl.clusters == old(cl.clusters) + [cl.clusters[binId]]
    ensures fresh(cl.clusters[binId])
    ensures r.Ok? ==> r.value == binId + 1 && RoundLeaves(cl.clusters[binId], binId, old(td.data), td.data)
    ensures WellFormedStore(old(td.data)) ==> r.Ok?
    ensures var e := old(td.data)[SeedIndex(old(td.data))]; var c := cl.clusters[binId];
      c.seedKernel == Some(e.kernel) && [e.kernel] <= c.kernels && Pick(e.slices, GreedyScan(e.slices)) <= c.slices
  {
    ghost var t0 := td.data;
    SeedKey(t0);
    var cluster := PutHighestRankedPersToBin(td, binId);
    cl.clusters := cl.clusters + [cluster];
    var seed := cluster.seedKernel.value;
    ghost var t1, s0 := td.data, cluster.slices;
    assert seed in Keys(t1);
    if homogeneous {
      CatalogCoversSameKeys(catalog, t0, t1);
      CatalogCoversReady(catalog, t1, seed);
    }
    var res := FillBinWithOverlaps(cluster, td, catalog, homogeneous);
    if res.Err? {
      return Err(res.error);
    }
    r := Ok(binId + 1);
  }

  /** The state `main_binning` keeps between rounds: bins numbered by position, each as a
    * round leaves it, that together with the store `t` hold the slices `total`; a store with
    * distinct keys and no empty list, still covered by the catalog when sizes are tested, and
    * still well formed when it started so. */
  ghost predicate BinsSoFar(cs: seq<Cluster>, t: seq<KernelTrace>, total: multiset<Slice>, catalog: Catalog,
                            homogeneous: bool, wellFormed: bool)
    reads cs
  {
    (forall i :: 0 <= i < |cs| ==> ClusterOk(cs[i], i)) && ClusterSlices(cs) + AllSlices(t) == total &&
    DistinctKeys(t) && NoEmptyLists(t) && (homogeneous ==> CatalogCovers(catalog, t)) &&
    (wellFormed ==> WellFormedStore(t))
  }

  /** A round that moves slices from the store into a new, well-formed bin keeps `BinsSoFar`. */
  lemma BinsSoFarStep(cs: seq<Cluster>, c: Cluster, t0: seq<KernelTrace>, t1: seq<KernelTrace>,
                      total: multiset<Slice>, catalog: Catalog, homogeneous: bool, wellFormed: bool)
    requires BinsSoFar(cs, t0, total, catalog, homogeneous, wellFormed) && RoundLeaves(c, |cs|, t0, t1)
    ensures BinsSoFar(cs + [c], t1, total, catalog, homogeneous, wellFormed)
  {
    assert (cs + [c])[..|cs|] == cs;
    if homogeneous {
      CatalogCoversKeys(catalog, t0, t1);
    }
    if wellFormed {
      forall s | s in AllSlices(t1) ensures s.start <= s.end {
        assert s in AllSlices(t0);
      }
    }
  }

  /** One pass of the loop of `main_binning`: one call of `unlimited_IMEM_binning`, which keeps
    * `BinsSoFar` and shrinks the store. */
  method BinningRound(cl: ClusterList, td: TimingData, catalog: Catalog, homogeneous: bool, binId: int,
                      ghost total: multiset<Slice>, ghost wellFormed: bool)
    returns (r: Result<int, ClusteringError>)
    requires td.Valid() && td.data != [] && binId == |cl.clusters|
    requires BinsSoFar(cl.clusters, td.data, total, catalog, homogeneous, wellFormed)
    modifies cl, td
    ensures r.Ok? ==> td.Valid() && r.value == |cl.clusters| && TotalSlices(td.data) < old(TotalSlices(td.data)) &&
                      BinsSoFar(cl.clusters, td.data, total, catalog, homogeneous, wellFormed)
    ensures wellFormed ==> r.Ok?
  {
    ghost var t0, cs0 := td.data, cl.clusters;
    r := UnlimitedImemBinning(cl, td, catalog, homogeneous, binId);
    if r.Ok? {
      assert BinsSoFar(cs0, t0, total, catalog, homogeneous, wellFormed);
      ghost var c := cl.clusters[|cs0|];
      assert RoundLeaves(c, |cs0|, t0, td.data);
      assert cl.clusters == cs0 + [c];
      BinsSoFarStep(cs0, c, t0, td.data, total, catalog, homogeneous, wellFormed);
    }
  }

  /** `main_binning`: bins the whole store, one round per bin, and reports the bins, the
    * next bin id and the slice count taken before binning. */
  method MainBinning(td: TimingData, catalog: Catalog, homogeneous: bool)
    returns (r: Result<(seq<Cluster>, int, nat), ClusteringError>)
    requires td.Valid() && NoEmptyLists(td.data)
    requires homogeneous ==> CatalogCovers(catalog, td.data)
    modifies td
    ensures r.Ok? ==> td.data == [] && r.value.2 == old(TotalSlices(td.data)) && r.value.1 == |r.value.0|
    ensures r.Ok? ==> forall i :: 0 <= i < |r.value.0| ==> ClusterOk(r.value.0[i], i)
    ensures r.Ok? ==> ClusterSlices(r.value.0) == old(AllSlices(td.data))
    ensures WellFormedStore(old(td.data)) ==> r.Ok?
  {
    ghost var total := AllSlices(td.data);
    ghost var wellFormed := WellFormedStore(td.data);
    var cl := new ClusterList();
    var binId := 0;
    var bsum := td.Length();
    while td.data != []
      invariant fresh(cl) && td.Valid() && binId == |cl.clusters|
      invariant BinsSoFar(cl.clusters, td.data, total, catalog, homogeneous, wellFormed)
      decreases TotalSlices(td.data)
    {
      var res := BinningRound(cl, td, catalog, homogeneous, binId, total, wellFormed);
      if res.Err? {
        return Err(res.error);
      }
      binId := res.value;
    }
    r := Ok((cl.clusters, binId, bsum));
  }
}
