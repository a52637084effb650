/** The Python built-ins the core relies on, as pure functions with their laws:
  * a list comprehension over `enumerate` that keeps or drops listed positions,
  * the stable `sorted(..., key=...)` (with and without `reverse=True`), and
  * `len(lst) != len(set(lst))`. */
module Lists {

  /** A list of positions as an `enumerate` scan produces it. */
  predicate StrictlyIncreasing(s: seq<nat>)
  {
    forall i, j :: 0 <= i < j < |s| ==> s[i] < s[j]
  }

  predicate InRange(idx: seq<nat>, n: nat)
  {
    forall k :: 0 <= k < |idx| ==> idx[k] < n
  }

  predicate Distinct<T(==)>(s: seq<T>)
  {
    forall i, j :: 0 <= i < j < |s| ==> s[i] != s[j]
  }

  /** A position of `x` in `s`. */
  lemma PositionOf<T>(s: seq<T>, x: T) returns (i: nat)
    requires x in s
    ensures i < |s| && s[i] == x
  {
    i :| 0 <= i < |s| && s[i] == x;
  }

  /** A sequence with prefix `a` is `a` followed by the rest. */
  lemma PrefixSplit<T>(a: seq<T>, b: seq<T>)
    requires |a| <= |b| && b[..|a|] == a
    ensures b == a + b[|a|..]
  {
  }

  /** Joining two duplicate-free lists with no element in common gives a duplicate-free list. */
  lemma DistinctAppend<T>(a: seq<T>, b: seq<T>)
    requires Distinct(a) && Distinct(b) && forall i :: 0 <= i < |b| ==> b[i] !in a
    ensures Distinct(a + b)
  {
    forall i, j | 0 <= i < j < |a + b| ensures (a + b)[i] != (a + b)[j] {
      if j >= |a| {
        assert (a + b)[j] == b[j - |a|];
        if i < |a| {
          assert (a + b)[i] == a[i];
        }
      }
    }
  }

  /** `[s[i] for i in idx]` */
  function Pick<T>(s: seq<T>, idx: seq<nat>): seq<T>
    requires InRange(idx, |s|)
  {
    seq(|idx|, k requires 0 <= k < |idx| => s[idx[k]])
  }

  /** `[x for i, x in enumerate(s) if i not in idx]` */
  function DropIndices<T>(s: seq<T>, idx: seq<nat>): seq<T>
  {
    if s == [] then []
    else DropIndices(s[..|s| - 1], idx) + (if |s| - 1 in idx then [] else [s[|s| - 1]])
  }

  lemma {:induction false} DropIndicesAgree<T>(s: seq<T>, a: seq<nat>, b: seq<nat>)
    requires forall i :: 0 <= i < |s| ==> (i in a <==> i in b)
    ensures DropIndices(s, a) == DropIndices(s, b)
  {
    if s != [] {
      DropIndicesAgree(s[..|s| - 1], a, b);
    }
  }

  /** Picking one more position appends its element ... */
  lemma PickSnoc<T>(s: seq<T>, idx: seq<nat>, j: nat)
    requires InRange(idx, |s|) && j < |s|
    ensures Pick(s, idx + [j]) == Pick(s, idx) + [s[j]]
  {
  }

  /** ... and positions of a prefix pick the same from the prefix as from the whole. */
  lemma PickPrefix<T>(s: seq<T>, n: nat, idx: seq<nat>)
    requires n <= |s| && InRange(idx, n)
    ensures Pick(s, idx) == Pick(s[..n], idx)
  {
  }

  /** Listing the last position of `s` after positions of its prefix: picking takes its
    * element last, and dropping leaves what dropping from the prefix leaves. */
  lemma PickDropLast<T>(s: seq<T>, idx: seq<nat>)
    requires s != [] && InRange(idx, |s| - 1)
    ensures Pick(s, idx + [|s| - 1]) == Pick(s[..|s| - 1], idx) + [s[|s| - 1]]
    ensures DropIndices(s, idx + [|s| - 1]) == DropIndices(s[..|s| - 1], idx)
  {
    var n := |s| - 1;
    PickSnoc(s, idx, n);
    PickPrefix(s, n, idx);
    DropIndicesAgree(s[..n], idx + [n], idx);
  }

  /** When the last position of `s` is not listed, picking ignores it and dropping keeps it. */
  lemma PickDropKeep<T>(s: seq<T>, idx: seq<nat>)
    requires s != [] && StrictlyIncreasing(idx) && InRange(idx, |s|)
    requires |idx| == 0 || idx[|idx| - 1] != |s| - 1
    ensures InRange(idx, |s| - 1)
    ensures Pick(s, idx) == Pick(s[..|s| - 1], idx)
    ensures DropIndices(s, idx) == DropIndices(s[..|s| - 1], idx) + [s[|s| - 1]]
  {
    var n := |s| - 1;
    forall k | 0 <= k < |idx| ensures idx[k] < n {
      assert idx[k] <= idx[|idx| - 1];
    }
    PickPrefix(s, n, idx);
    assert n !in idx;
  }

  /** Dropping the listed positions from `s` and picking them partition `s`. */
  lemma {:induction false} PickDropSplit<T>(s: seq<T>, idx: seq<nat>)
    requires StrictlyIncreasing(idx) && InRange(idx, |s|)
    ensures multiset(Pick(s, idx)) + multiset(DropIndices(s, idx)) == multiset(s)
  {
    if idx == [] {
      DropIndicesNone(s);
      assert Pick(s, idx) == [];
    } else {
      assert idx[0] < |s|;
      var n := |s| - 1;
      assert multiset(s) == multiset(s[..n]) + multiset{s[n]} by {
        assert s == s[..n] + [s[n]];
      }
      if idx[|idx| - 1] == n {
        var idx' := idx[..|idx| - 1];
        assert idx == idx' + [n];
        assert InRange(idx', n) by {
          forall k | 0 <= k < |idx'| ensures idx'[k] < n {
            assert idx'[k] == idx[k] < idx[|idx| - 1];
          }
        }
        PickDropLast(s, idx');
        PickDropSplit(s[..n], idx');
      } else {
        PickDropKeep(s, idx);
        PickDropSplit(s[..n], idx);
      }
    }
  }

  /** Every element left after dropping positions sits at a position that was not dropped. */
  lemma {:induction false} DropIndicesOrigin<T>(s: seq<T>, idx: seq<nat>, x: T)
    requires x in DropIndices(s, idx)
    ensures exists p :: 0 <= p < |s| && p !in idx && s[p] == x
  {
    var n := |s| - 1;
    var p := s[..n];
    if x in DropIndices(p, idx) {
      DropIndicesOrigin(p, idx, x);
      var q :| 0 <= q < |p| && q !in idx && p[q] == x;
      assert s[q] == x;
    } else {
      assert s[n] == x && n !in idx;
    }
  }

  /** Dropping no position keeps the list. */
  lemma {:induction false} DropIndicesNone<T>(s: seq<T>)
    ensures DropIndices(s, []) == s
  {
    if s != [] {
      DropIndicesNone(s[..|s| - 1]);
      assert s[..|s| - 1] + [s[|s| - 1]] == s;
    }
  }

  lemma {:induction false} DropIndicesLength<T>(s: seq<T>, idx: seq<nat>)
    ensures |DropIndices(s, idx)| <= |s|
    ensures 0 < |s| && 0 in idx ==> |DropIndices(s, idx)| < |s|
  {
    if s != [] {
      DropIndicesLength(s[..|s| - 1], idx);
    }
  }

  // ---- sorted(..., key=...) ----

  /** `x` comes before `y` in a stable ascending sort by `keys`. */
  predicate Before(keys: seq<int>, x: nat, y: nat)
    requires x < |keys| && y < |keys|
  {
    keys[x] < keys[y] || (keys[x] == keys[y] && x < y)
  }

  predicate SortedByKey(order: seq<nat>, keys: seq<int>)
    requires InRange(order, |keys|)
  {
    forall a, b :: 0 <= a < b < |order| ==> Before(keys, order[a], order[b])
  }

  /** A permutation of the positions `0 .. n-1`. */
  predicate IsPermutation(order: seq<nat>, n: nat)
  {
    |order| == n && InRange(order, n) && Distinct(order) && forall i :: 0 <= i < n ==> i in order
  }

  /** Insert position `i` after every position whose key is at most `keys[i]`. */
  function InsertStable(order: seq<nat>, i: nat, keys: seq<int>): (r: seq<nat>)
    requires i < |keys| && InRange(order, |keys|)
    ensures |r| == |order| + 1 && InRange(r, |keys|)
    ensures forall x :: x in r <==> x in order || x == i
  {
    if order == [] then [i]
    else if keys[order[0]] > keys[i] then [i] + order
    else [order[0]] + InsertStable(order[1..], i, keys)
  }

  function SortPrefix(keys: seq<int>, n: nat): (r: seq<nat>)
    requires n <= |keys|
    ensures |r| == n && InRange(r, |keys|)
  {
    if n == 0 then [] else InsertStable(SortPrefix(keys, n - 1), n - 1, keys)
  }

  /** The positions of `keys` in the order of Python's stable `sorted` by key. */
  function StableOrder(keys: seq<int>): (r: seq<nat>)
    ensures |r| == |keys| && InRange(r, |keys|)
  {
    SortPrefix(keys, |keys|)
  }

  function Negate(keys: seq<int>): (r: seq<int>)
    ensures |r| == |keys| && forall i :: 0 <= i < |keys| ==> r[i] == -keys[i]
  {
    seq(|keys|, i requires 0 <= i < |keys| => -keys[i])
  }

  /** The positions of `keys` in the order of Python's `sorted(..., reverse=True)`,
    * which sorts by descending key and keeps equal keys in their original order. */
  function StableOrderDesc(keys: seq<int>): (r: seq<nat>)
    ensures |r| == |keys| && InRange(r, |keys|)
  {
    StableOrder(Negate(keys))
  }

  lemma {:induction false} InsertStableSorted(order: seq<nat>, i: nat, keys: seq<int>)
    requires i < |keys| && InRange(order, |keys|)
    requires SortedByKey(order, keys)
    requires forall k :: 0 <= k < |order| ==> order[k] < i
    ensures SortedByKey(InsertStable(order, i, keys), keys)
  {
    var r := InsertStable(order, i, keys);
    if order == [] {
    } else if keys[order[0]] > keys[i] {
      forall b | 0 < b < |r| ensures Before(keys, r[0], r[b]) {
        assert r[b] == order[b - 1];
        if b - 1 > 0 {
          assert Before(keys, order[0], order[b - 1]);
        }
      }
    } else {
      var tail := order[1..];
      InsertStableSorted(tail, i, keys);
      forall b | 0 < b < |r| ensures Before(keys, r[0], r[b]) {
        assert r[b] in InsertStable(tail, i, keys);
        if r[b] != i {
          var k :| 0 <= k < |tail| && tail[k] == r[b];
          assert order[k + 1] == r[b];
        }
      }
    }
  }

  lemma {:induction false} InsertStableMultiset(order: seq<nat>, i: nat, keys: seq<int>)
    requires i < |keys| && InRange(order, |keys|)
    ensures multiset(InsertStable(order, i, keys)) == multiset(order) + multiset{i}
  {
    if order != [] && keys[order[0]] <= keys[i] {
      InsertStableMultiset(order[1..], i, keys);
      assert order == [order[0]] + order[1..];
    }
  }

  lemma {:induction false} SortPrefixMultiset(keys: seq<int>, n: nat)
    requires n <= |keys|
    ensures multiset(SortPrefix(keys, n)) == multiset(Range(n))
  {
    if n > 0 {
      var prev := SortPrefix(keys, n - 1);
      SortPrefixMultiset(keys, n - 1);
      InsertStableMultiset(prev, n - 1, keys);
      RangeSnoc(n - 1);
    }
  }

  lemma RangeSnoc(n: nat)
    ensures Range(n + 1) == Range(n) + [n]
  {
  }

  lemma SortPrefixInRange(keys: seq<int>, n: nat)
    requires n <= |keys|
    ensures InRange(SortPrefix(keys, n), n)
  {
    var r := SortPrefix(keys, n);
    SortPrefixMultiset(keys, n);
    RangeMembers(n);
    forall k | 0 <= k < |r| ensures r[k] < n {
      assert r[k] in multiset(r);
    }
  }

  lemma {:induction false} SortPrefixSorted(keys: seq<int>, n: nat)
    requires n <= |keys|
    ensures SortedByKey(SortPrefix(keys, n), keys)
  {
    if n > 0 {
      var prev := SortPrefix(keys, n - 1);
      SortPrefixSorted(keys, n - 1);
      SortPrefixInRange(keys, n - 1);
      InsertStableSorted(prev, n - 1, keys);
    }
  }

  lemma SortPrefixCorrect(keys: seq<int>, n: nat)
    requires n <= |keys|
    ensures |SortPrefix(keys, n)| == n
    ensures InRange(SortPrefix(keys, n), n)
    ensures SortedByKey(SortPrefix(keys, n), keys)
    ensures multiset(SortPrefix(keys, n)) == multiset(Range(n))
  {
    SortPrefixMultiset(keys, n);
    SortPrefixInRange(keys, n);
    SortPrefixSorted(keys, n);
  }

  /** Multiset union cancels. */
  lemma MultisetCancel<T>(a: multiset<T>, b: multiset<T>, c: multiset<T>)
    requires a + c == b + c
    ensures a == b
  {
    assert forall x :: a[x] == (a + c)[x] - c[x];
    assert forall x :: b[x] == (b + c)[x] - c[x];
  }

  /** `list(range(n))` */
  function Range(n: nat): (r: seq<nat>)
    ensures |r| == n && forall i :: 0 <= i < n ==> r[i] == i
  {
    seq(n, i requires 0 <= i < n => i)
  }

  lemma {:induction false} RangeMembers(n: nat)
    ensures forall x: nat :: x in multiset(Range(n)) <==> x < n
  {
    if n > 0 {
      RangeMembers(n - 1);
      assert Range(n) == Range(n - 1) + [n - 1];
      assert multiset(Range(n)) == multiset(Range(n - 1)) + multiset{(n - 1) as nat};
      forall x: nat ensures x in multiset(Range(n)) <==> x < n {
        assert x in multiset(Range(n)) <==> x in multiset(Range(n - 1)) || x == n - 1;
      }
    }
  }

  /** Python's stable `sorted` by key gives a permutation of the positions, in ascending key
    * order, with equal keys kept in their original order. */
  lemma StableOrderCorrect(keys: seq<int>)
    ensures IsPermutation(StableOrder(keys), |keys|)
    ensures SortedByKey(StableOrder(keys), keys)
  {
    var r := StableOrder(keys);
    var n := |keys|;
    SortPrefixCorrect(keys, n);
    RangeMembers(n);
    forall i | 0 <= i < n ensures i in r {
      assert i in multiset(Range(n));
    }
    forall a, b | 0 <= a < b < |r| ensures r[a] != r[b] {
      assert Before(keys, r[a], r[b]);
    }
  }

  /** With `reverse=True` the keys are descending, equal keys still in original order. */
  lemma StableOrderDescCorrect(keys: seq<int>)
    ensures IsPermutation(StableOrderDesc(keys), |keys|)
    ensures forall a, b :: 0 <= a < b < |StableOrderDesc(keys)| ==>
      var x, y := StableOrderDesc(keys)[a], StableOrderDesc(keys)[b];
      keys[x] > keys[y] || (keys[x] == keys[y] && x < y)
  {
    var r := StableOrderDesc(keys);
    StableOrderCorrect(Negate(keys));
    forall a, b | 0 <= a < b < |r|
      ensures keys[r[a]] > keys[r[b]] || (keys[r[a]] == keys[r[b]] && r[a] < r[b])
    {
      assert Before(Negate(keys), r[a], r[b]);
    }
  }

  /** The first position of a largest key among `keys[..n]`. */
  function FirstMax(keys: seq<int>, n: nat): (r: nat)
    requires 0 < n <= |keys|
    ensures r < n
  {
    if n == 1 then 0
    else
      var m := FirstMax(keys, n - 1);
      if keys[n - 1] > keys[m] then n - 1 else m
  }

  /** `FirstMax` holds a largest key, and every earlier key is strictly smaller. */
  lemma {:induction false} FirstMaxSpec(keys: seq<int>, n: nat)
    requires 0 < n <= |keys|
    ensures var r := FirstMax(keys, n);
      (forall j :: 0 <= j < n ==> keys[j] <= keys[r]) && (forall j :: 0 <= j < r ==> keys[j] < keys[r])
  {
    if n > 1 {
      FirstMaxSpec(keys, n - 1);
    }
  }

  /** The head of the descending stable order is the first largest key. */
  lemma StableOrderDescFirstMax(keys: seq<int>)
    requires |keys| > 0
    ensures |StableOrderDesc(keys)| > 0 && StableOrderDesc(keys)[0] == FirstMax(keys, |keys|)
  {
    var r := StableOrderDesc(keys);
    StableOrderDescCorrect(keys);
    forall j | 0 <= j < |keys| ensures keys[j] <= keys[r[0]] && (j < r[0] ==> keys[j] < keys[r[0]]) {
      assert j in r;
      var b :| 0 <= b < |r| && r[b] == j;
    }
    var f := FirstMax(keys, |keys|);
    FirstMaxSpec(keys, |keys|);
    assert keys[f] == keys[r[0]];
  }

  /** Picking a leading position first puts its element first. */
  lemma PickCons<T>(s: seq<T>, j: nat, idx: seq<nat>)
    requires j < |s| && InRange(idx, |s|)
    ensures Pick(s, [j] + idx) == [s[j]] + Pick(s, idx)
  {
  }

  lemma {:induction false} PickInsertMultiset<T>(s: seq<T>, order: seq<nat>, i: nat, keys: seq<int>)
    requires |s| == |keys| && i < |keys| && InRange(order, |keys|)
    ensures multiset(Pick(s, InsertStable(order, i, keys))) == multiset(Pick(s, order)) + multiset{s[i]}
  {
    if order != [] {
      var j, rest := order[0], order[1..];
      assert order == [j] + rest;
      if keys[j] > keys[i] {
        PickCons(s, i, order);
      } else {
        var inserted := InsertStable(rest, i, keys);
        assert InsertStable(order, i, keys) == [j] + inserted;
        PickCons(s, j, inserted);
        PickCons(s, j, rest);
        PickInsertMultiset(s, rest, i, keys);
      }
    }
  }

  lemma {:induction false} PickSortPrefixMultiset<T>(s: seq<T>, keys: seq<int>, n: nat)
    requires |s| == |keys| && n <= |keys|
    ensures multiset(Pick(s, SortPrefix(keys, n))) == multiset(s[..n])
  {
    if n > 0 {
      PickSortPrefixMultiset(s, keys, n - 1);
      PickInsertMultiset(s, SortPrefix(keys, n - 1), n - 1, keys);
      assert s[..n] == s[..n - 1] + [s[n - 1]];
    }
  }

  /** Sorting keeps every element: the result is a permutation of the input. */
  lemma PickStableOrderMultiset<T>(s: seq<T>, keys: seq<int>)
    requires |s| == |keys|
    ensures multiset(Pick(s, StableOrder(keys))) == multiset(s)
  {
    PickSortPrefixMultiset(s, keys, |keys|);
    assert s[..|keys|] == s;
  }

  // ---- len(lst) != len(set(lst)) ----

  function ToSet<T(==)>(s: seq<T>): set<T>
  {
    set x | x in s
  }

  lemma {:induction false} ToSetCardinality<T>(s: seq<T>)
    ensures |ToSet(s)| <= |s|
    ensures |ToSet(s)| == |s| <==> Distinct(s)
  {
    if s != [] {
      var n := |s| - 1;
      var p := s[..n];
      ToSetCardinality(p);
      assert ToSet(s) == ToSet(p) + {s[n]};
      if s[n] in p {
        assert ToSet(s) == ToSet(p);
        var k :| 0 <= k < n && p[k] == s[n];
        assert !Distinct(s);
      } else {
        assert Distinct(s) <==> Distinct(p);
      }
    }
  }
}
