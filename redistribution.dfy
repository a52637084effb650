/** Capacity redistribution of greedy_clustering/clustering.py: `bin_redistribution`, which
  * splits every bin whose summed instruction-memory footprint exceeds the capacity by moving
  * its first-inserted kernels, with all of their slices, into fresh bins, and
  * `redistribution`, which runs it and rejects a result with kernels left unbinned or with
  * overlapping slices in a bin. */
module Redistribution {
  import opened Wrappers
  import opened DataStructures
  import opened Lists
  import opened Clustering

  /** One entry of the dict `bin_redistribution` returns: `[kernels, slices, size]`. Bins are
    * kept in a sequence whose position is the dict key. */
  datatype Bin = Bin(kernels: seq<string>, slices: seq<Slice>, size: int)

  /** The fresh bin `[[], [], 0]`. */
  const EmptyBin := Bin([], [], 0)

  /** The source's failure paths: `bins` unbound when the capacity is 0, `value[0][0]` on a
    * bin left without kernels, and the two `exit()` calls of `redistribution`. */
  datatype RedistributionError = BinsUnbound | PopFromEmpty | UnbinnedKernels | OverlapsFound

  // ---------------------------------------------------------------------------
  // Footprints
  // ---------------------------------------------------------------------------

  /** Every kernel has a catalog entry. */
  predicate Covered(ks: seq<string>, catalog: Catalog)
  {
    forall k :: k in ks ==> k in catalog
  }

  /** Every kernel fits the capacity on its own. */
  predicate Fits(ks: seq<string>, catalog: Catalog, imemSize: int)
    requires Covered(ks, catalog)
  {
    forall k :: k in ks ==> catalog[k].imemBits <= imemSize
  }

  /** `sum(personality_dict[item][1] for item in kernels)`. */
  function Footprint(ks: seq<string>, catalog: Catalog): nat
    requires Covered(ks, catalog)
  {
    if ks == [] then 0 else catalog[ks[0]].imemBits + Footprint(ks[1..], catalog)
  }

  lemma {:induction false} FootprintAppend(a: seq<string>, b: seq<string>, catalog: Catalog)
    requires Covered(a, catalog) && Covered(b, catalog)
    ensures Covered(a + b, catalog) && Footprint(a + b, catalog) == Footprint(a, catalog) + Footprint(b, catalog)
  {
    assert Covered(a + b, catalog) by {
      forall k | k in a + b ensures k in catalog {
        assert k in a || k in b;
      }
    }
    if a != [] {
      assert (a + b)[0] == a[0] && (a + b)[1..] == a[1..] + b;
      assert Covered(a[1..], catalog) by {
        forall k | k in a[1..] ensures k in catalog {
          assert k in a;
        }
      }
      FootprintAppend(a[1..], b, catalog);
      assert Footprint(a + b, catalog) == catalog[a[0]].imemBits + Footprint(a[1..] + b, catalog);
    } else {
      assert a + b == b;
    }
  }

  /** A bin as the redistribution keeps it: every kernel fits on its own, and the size is
    * the footprint of its kernels. */
  predicate BinOk(b: Bin, catalog: Catalog, imemSize: int)
  {
    Covered(b.kernels, catalog) && Fits(b.kernels, catalog, imemSize) && b.size == Footprint(b.kernels, catalog)
  }

  predicate AllOk(bins: seq<Bin>, catalog: Catalog, imemSize: int)
  {
    forall j :: 0 <= j < |bins| ==> BinOk(bins[j], catalog, imemSize)
  }

  /** `all(value[2] <= IMEM_size for value in copy_bins.values())` */
  predicate WithinCapacity(bins: seq<Bin>, imemSize: int)
  {
    forall j :: 0 <= j < |bins| ==> bins[j].size <= imemSize
  }

  /** Every slice of the bin belongs to one of the bin's kernels. */
  predicate Owned(b: Bin)
  {
    forall s :: s in b.slices ==> s.kernelName in b.kernels
  }

  // ---------------------------------------------------------------------------
  // One eviction
  // ---------------------------------------------------------------------------

  /** The slices of kernel `k` (those `remove_list` indexes) and the others, each in list
    * order. */
  function SplitByKernel(ss: seq<Slice>, k: string): (r: (seq<Slice>, seq<Slice>))
    ensures multiset(r.0) + multiset(r.1) == multiset(ss)
    ensures forall s :: s in r.0 ==> s.kernelName == k
    ensures forall s :: s in r.1 ==> s.kernelName != k
  {
    if ss == [] then ([], [])
    else
      var rest := SplitByKernel(ss[1..], k);
      assert ss == [ss[0]] + ss[1..];
      if ss[0].kernelName == k then ([ss[0]] + rest.0, rest.1) else (rest.0, [ss[0]] + rest.1)
  }

  /** One pass of the inner `while`: pop the first kernel of `src`, append it to `dst`, move
    * its footprint and all of its slices with it. */
  function Evict(src: Bin, dst: Bin, catalog: Catalog): (Bin, Bin)
    requires src.kernels != [] && src.kernels[0] in catalog
  {
    var k := src.kernels[0];
    var parts := SplitByKernel(src.slices, k);
    (Bin(src.kernels[1..], parts.1, src.size - catalog[k].imemBits),
     Bin(dst.kernels + [k], dst.slices + parts.0, dst.size + catalog[k].imemBits))
  }

  /** The inner `while bin_size > IMEM_size` loop: evict from the front of `src` into `dst`
    * until `src` is within capacity; `None` when `src` runs out of kernels first. */
  function Drain(src: Bin, dst: Bin, catalog: Catalog, imemSize: int): Option<(Bin, Bin)>
    requires Covered(src.kernels, catalog)
    decreases |src.kernels|
  {
    if src.size <= imemSize then Some((src, dst))
    else if src.kernels == [] then None
    else
      var next := Evict(src, dst, catalog);
      Drain(next.0, next.1, catalog, imemSize)
  }

  lemma DrainStep(src: Bin, dst: Bin, catalog: Catalog, imemSize: int)
    requires Covered(src.kernels, catalog) && src.size > imemSize && src.kernels != []
    ensures var next := Evict(src, dst, catalog);
      Covered(next.0.kernels, catalog) &&
      Drain(src, dst, catalog, imemSize) == Drain(next.0, next.1, catalog, imemSize)
  {
    assert forall k :: k in src.kernels[1..] ==> k in src.kernels;
  }

  /** Draining keeps the kernels in order across the two bins (the evicted ones are a prefix,
    * moved first in first out), keeps their slices and footprints, leaves the source within
    * capacity and not empty, and fails exactly when the capacity is negative. */
  lemma {:induction false} DrainSpec(src: Bin, dst: Bin, catalog: Catalog, imemSize: int)
    requires BinOk(src, catalog, imemSize) && BinOk(dst, catalog, imemSize)
    ensures var r := Drain(src, dst, catalog, imemSize);
      (r.None? <==> imemSize < 0) &&
      (r.Some? ==>
        var (s, d) := r.value;
        s.size <= imemSize && BinOk(s, catalog, imemSize) && BinOk(d, catalog, imemSize) &&
        d.kernels + s.kernels == dst.kernels + src.kernels &&
        multiset(d.slices) + multiset(s.slices) == multiset(dst.slices) + multiset(src.slices) &&
        (src.kernels != [] ==> s.kernels != []) &&
        (src.size > imemSize ==> |d.kernels| > |dst.kernels|))
    decreases |src.kernels|
  {
    if src.size <= imemSize {
    } else if src.kernels == [] {
    } else {
      var k := src.kernels[0];
      var next := Evict(src, dst, catalog);
      assert src.kernels == [k] + next.0.kernels;
      FootprintAppend(dst.kernels, [k], catalog);
      assert next.1.kernels + next.0.kernels == dst.kernels + src.kernels;
      assert next.0.kernels != [] by {
        assert src.size == catalog[k].imemBits + Footprint(next.0.kernels, catalog);
        assert catalog[k].imemBits <= imemSize;
      }
      DrainSpec(next.0, next.1, catalog, imemSize);
    }
  }

  /** Draining moves every slice of an evicted kernel with it, so slices stay with their
    * kernel. */
  lemma {:induction false} DrainOwned(src: Bin, dst: Bin, catalog: Catalog, imemSize: int)
    requires Covered(src.kernels, catalog) && Owned(src) && Owned(dst)
    ensures var r := Drain(src, dst, catalog, imemSize); r.Some? ==> Owned(r.value.0) && Owned(r.value.1)
    decreases |src.kernels|
  {
    if src.size > imemSize && src.kernels != [] {
      var k := src.kernels[0];
      var next := Evict(src, dst, catalog);
      var parts := SplitByKernel(src.slices, k);
      forall s | s in next.0.slices ensures s.kernelName in next.0.kernels {
        assert s in multiset(parts.1);
        assert s in multiset(src.slices);
        assert src.kernels == [k] + next.0.kernels;
      }
      DrainOwned(next.0, next.1, catalog, imemSize);
    }
  }

  // ---------------------------------------------------------------------------
  // The outer loop
  // ---------------------------------------------------------------------------

  /** The first bin over capacity, the one the `for` loop stops at. */
  function FirstOver(bins: seq<Bin>, imemSize: int): (r: Option<nat>)
    ensures r.None? <==> WithinCapacity(bins, imemSize)
    ensures r.Some? ==> r.value < |bins| && bins[r.value].size > imemSize &&
                        WithinCapacity(bins[..r.value], imemSize)
  {
    if bins == [] then None
    else if bins[0].size > imemSize then Some(0)
    else
      var r := FirstOver(bins[1..], imemSize);
      assert forall j :: 1 <= j < |bins| ==> bins[j] == bins[1..][j - 1];
      if r.None? then None
      else
        assert bins[..r.value + 1] == [bins[0]] + bins[1..][..r.value];
        Some(r.value + 1)
  }

  /** The scan stops at the first bin over capacity. */
  lemma FirstOverAt(bins: seq<Bin>, i: nat, imemSize: int)
    requires i < |bins| && bins[i].size > imemSize
    requires forall j :: 0 <= j < i ==> bins[j].size <= imemSize
    ensures FirstOver(bins, imemSize) == Some(i)
  {
    var r := FirstOver(bins, imemSize);
    assert r.Some? ==> forall j :: 0 <= j < r.value ==> bins[..r.value][j] == bins[j];
  }

  /** The number of kernels held in bins over capacity: what each split decreases. */
  function OverCount(bins: seq<Bin>, imemSize: int): nat
  {
    if bins == [] then 0
    else OverCount(bins[..|bins| - 1], imemSize) +
         (if bins[|bins| - 1].size > imemSize then |bins[|bins| - 1].kernels| else 0)
  }

  function Over(b: Bin, imemSize: int): nat
  {
    if b.size > imemSize then |b.kernels| else 0
  }

  lemma {:induction false} OverCountUpdate(bins: seq<Bin>, i: nat, x: Bin, imemSize: int)
    requires i < |bins|
    ensures OverCount(bins[i := x], imemSize) + Over(bins[i], imemSize) ==
            OverCount(bins, imemSize) + Over(x, imemSize)
  {
    var n := |bins| - 1;
    if i < n {
      assert bins[i := x][..n] == bins[..n][i := x];
      OverCountUpdate(bins[..n], i, x, imemSize);
    } else {
      assert bins[i := x][..n] == bins[..n];
    }
  }

  /** Replacing an over-capacity bin by a bin within capacity and appending a bin with fewer
    * kernels lowers the count. */
  lemma OverCountSplit(bins: seq<Bin>, i: nat, s: Bin, d: Bin, imemSize: int)
    requires i < |bins| && bins[i].size > imemSize && s.size <= imemSize
    requires |d.kernels| < |bins[i].kernels|
    ensures OverCount(bins[i := s] + [d], imemSize) < OverCount(bins, imemSize)
  {
    OverCountUpdate(bins, i, s, imemSize);
    assert (bins[i := s] + [d])[..|bins|] == bins[i := s];
  }

  /** The slices held by a list of bins. */
  function AllBinSlices(bins: seq<Bin>): multiset<Slice>
  {
    if bins == [] then multiset{} else AllBinSlices(bins[..|bins| - 1]) + multiset(bins[|bins| - 1].slices)
  }

  /** The kernels held by a list of bins. */
  function AllBinKernels(bins: seq<Bin>): multiset<string>
  {
    if bins == [] then multiset{} else AllBinKernels(bins[..|bins| - 1]) + multiset(bins[|bins| - 1].kernels)
  }

  /** The summed sizes of a list of bins. */
  function TotalSize(bins: seq<Bin>): int
  {
    if bins == [] then 0 else TotalSize(bins[..|bins| - 1]) + bins[|bins| - 1].size
  }

  /** Two lists of bins hold the same slices, the same kernels and the same summed size. */
  predicate SameTotals(a: seq<Bin>, b: seq<Bin>)
  {
    AllBinSlices(a) == AllBinSlices(b) && AllBinKernels(a) == AllBinKernels(b) && TotalSize(a) == TotalSize(b)
  }

  lemma UnionShift<T>(x: multiset<T>, y: multiset<T>, c: multiset<T>, d: multiset<T>, e: multiset<T>)
    requires x + c == y + d
    ensures (x + e) + c == (y + e) + d
  {
    assert forall o :: ((x + e) + c)[o] == (x + c)[o] + e[o];
    assert forall o :: ((y + e) + d)[o] == (y + d)[o] + e[o];
  }

  lemma UnionCancel<T>(x: multiset<T>, y: multiset<T>, p: multiset<T>, q: multiset<T>, r: multiset<T>)
    requires x + r == y + q && p + q == r
    ensures x + p == y
  {
    forall o
      ensures (x + p)[o] == y[o]
    {
      assert (x + r)[o] == (y + q)[o] && (p + q)[o] == r[o];
    }
    assert x + p == y;
  }

  lemma UnionParts<T>(p: multiset<T>, q: multiset<T>, r: multiset<T>)
    requires p + q == r
    ensures p <= r && q <= r
  {
  }

  lemma UnionSwap<T>(z: multiset<T>, p: multiset<T>, q: multiset<T>)
    ensures (z + p) + q == (z + q) + p
  {
    assert forall o :: ((z + p) + q)[o] == ((z + q) + p)[o];
  }

  lemma {:induction false} TotalsUpdate(bins: seq<Bin>, i: nat, x: Bin)
    requires i < |bins|
    ensures AllBinSlices(bins[i := x]) + multiset(bins[i].slices) == AllBinSlices(bins) + multiset(x.slices)
    ensures AllBinKernels(bins[i := x]) + multiset(bins[i].kernels) == AllBinKernels(bins) + multiset(x.kernels)
    ensures TotalSize(bins[i := x]) + bins[i].size == TotalSize(bins) + x.size
  {
    var n, u := |bins| - 1, bins[i := x];
    assert AllBinSlices(u) == AllBinSlices(u[..n]) + multiset(u[n].slices);
    assert AllBinKernels(u) == AllBinKernels(u[..n]) + multiset(u[n].kernels);
    assert TotalSize(u) == TotalSize(u[..n]) + u[n].size;
    assert AllBinSlices(bins) == AllBinSlices(bins[..n]) + multiset(bins[n].slices);
    assert AllBinKernels(bins) == AllBinKernels(bins[..n]) + multiset(bins[n].kernels);
    assert TotalSize(bins) == TotalSize(bins[..n]) + bins[n].size;
    if i < n {
      assert u[..n] == bins[..n][i := x];
      TotalsUpdate(bins[..n], i, x);
      UnionShift(AllBinSlices(u[..n]), AllBinSlices(bins[..n]), multiset(bins[i].slices),
                 multiset(x.slices), multiset(bins[n].slices));
      UnionShift(AllBinKernels(u[..n]), AllBinKernels(bins[..n]), multiset(bins[i].kernels),
                 multiset(x.kernels), multiset(bins[n].kernels));
    } else {
      assert u[..n] == bins[..n];
      UnionSwap(AllBinSlices(bins[..n]), multiset(x.slices), multiset(bins[i].slices));
      UnionSwap(AllBinKernels(bins[..n]), multiset(x.kernels), multiset(bins[i].kernels));
    }
  }

  /** One split of bin `i` into `s` and `d`, as the outer loop does it. */
  function Split(bins: seq<Bin>, i: nat, s: Bin, d: Bin): seq<Bin>
    requires i < |bins|
  {
    bins[i := s] + [d]
  }

  /** Splitting bin `i` into two bins that share out its slices, kernels and size keeps
    * the totals. */
  lemma SplitTotals(bins: seq<Bin>, i: nat, s: Bin, d: Bin)
    requires i < |bins| && s.size + d.size == bins[i].size
    requires multiset(d.slices) + multiset(s.slices) == multiset(bins[i].slices)
    requires multiset(d.kernels) + multiset(s.kernels) == multiset(bins[i].kernels)
    ensures SameTotals(Split(bins, i, s, d), bins)
  {
    var u := bins[i := s];
    var v := u + [d];
    TotalsUpdate(bins, i, s);
    assert v[..|u|] == u && v[|u|] == d;
    assert AllBinSlices(v) == AllBinSlices(u) + multiset(d.slices);
    assert AllBinKernels(v) == AllBinKernels(u) + multiset(d.kernels);
    assert TotalSize(v) == TotalSize(u) + d.size;
    UnionCancel(AllBinSlices(u), AllBinSlices(bins), multiset(d.slices), multiset(s.slices),
                multiset(bins[i].slices));
    UnionCancel(AllBinKernels(u), AllBinKernels(bins), multiset(d.kernels), multiset(s.kernels),
                multiset(bins[i].kernels));
  }

  /** The two bins a drain of bin `i` leaves share out its kernels, in order, its slices and
    * its size. */
  lemma SplitShares(bins: seq<Bin>, i: nat, s: Bin, d: Bin, catalog: Catalog, imemSize: int)
    requires AllOk(bins, catalog, imemSize) && i < |bins|
    requires Drain(bins[i], EmptyBin, catalog, imemSize) == Some((s, d))
    ensures d.kernels + s.kernels == bins[i].kernels && s.size + d.size == bins[i].size
    ensures multiset(d.slices) + multiset(s.slices) == multiset(bins[i].slices)
    ensures multiset(d.kernels) + multiset(s.kernels) == multiset(bins[i].kernels)
  {
    var b := bins[i];
    assert BinOk(b, catalog, imemSize);
    DrainSpec(b, EmptyBin, catalog, imemSize);
    assert d.kernels + s.kernels == b.kernels;
    FootprintAppend(d.kernels, s.kernels, catalog);
    assert multiset(d.kernels + s.kernels) == multiset(d.kernels) + multiset(s.kernels);
  }

  /** A split by `Drain` keeps the bins well formed and lowers the over-capacity count. */
  lemma SplitStep(bins: seq<Bin>, i: nat, s: Bin, d: Bin, catalog: Catalog, imemSize: int)
    requires AllOk(bins, catalog, imemSize) && i < |bins| && bins[i].size > imemSize
    requires Drain(bins[i], EmptyBin, catalog, imemSize) == Some((s, d))
    ensures AllOk(Split(bins, i, s, d), catalog, imemSize)
    ensures OverCount(Split(bins, i, s, d), imemSize) < OverCount(bins, imemSize)
  {
    DrainSpec(bins[i], EmptyBin, catalog, imemSize);
    var u := Split(bins, i, s, d);
    forall j | 0 <= j < |u| ensures BinOk(u[j], catalog, imemSize) {
      if j < |bins| && j != i {
        assert u[j] == bins[j];
      }
    }
    assert |d.kernels| < |bins[i].kernels| by {
      assert d.kernels + s.kernels == bins[i].kernels;
    }
    OverCountSplit(bins, i, s, d, imemSize);
  }

  /** The dict `bin_redistribution` computes from well-formed bins: while some bin is over
    * capacity, drain the first such bin into a new bin appended at the end. `None` when a
    * drain pops from an empty kernel list. */
  function Redistribute(bins: seq<Bin>, catalog: Catalog, imemSize: int): (r: Option<seq<Bin>>)
    requires AllOk(bins, catalog, imemSize)
    ensures r.Some? ==> WithinCapacity(r.value, imemSize) && AllOk(r.value, catalog, imemSize)
    decreases OverCount(bins, imemSize)
  {
    match FirstOver(bins, imemSize)
    case None => Some(bins)
    case Some(i) =>
      match Drain(bins[i], EmptyBin, catalog, imemSize)
      case None => None
      case Some((s, d)) =>
        SplitStep(bins, i, s, d, catalog, imemSize);
        Redistribute(Split(bins, i, s, d), catalog, imemSize)
  }

  /** One round of the outer loop: drain the first bin over capacity. */
  lemma RedistributeStep(bins: seq<Bin>, i: nat, catalog: Catalog, imemSize: int)
    requires AllOk(bins, catalog, imemSize) && FirstOver(bins, imemSize) == Some(i)
    ensures var p := Drain(bins[i], EmptyBin, catalog, imemSize);
      p.Some? ==> AllOk(Split(bins, i, p.value.0, p.value.1), catalog, imemSize)
    ensures var p := Drain(bins[i], EmptyBin, catalog, imemSize);
      (p.None? ==> Redistribute(bins, catalog, imemSize).None?) &&
      (p.Some? ==> Redistribute(bins, catalog, imemSize) ==
                   Redistribute(Split(bins, i, p.value.0, p.value.1), catalog, imemSize))
  {
    var p := Drain(bins[i], EmptyBin, catalog, imemSize);
    if p.Some? {
      SplitStep(bins, i, p.value.0, p.value.1, catalog, imemSize);
    }
  }

  /** Redistribution fails exactly when the capacity is negative and there is a bin: every
    * kernel that fits a non-negative capacity leaves its bin non-empty while over it. */
  lemma {:induction false} RedistributeFails(bins: seq<Bin>, catalog: Catalog, imemSize: int)
    requires AllOk(bins, catalog, imemSize)
    ensures Redistribute(bins, catalog, imemSize).None? <==> imemSize < 0 && bins != []
    decreases OverCount(bins, imemSize)
  {
    match FirstOver(bins, imemSize)
    case None =>
      if bins != [] {
        assert BinOk(bins[0], catalog, imemSize);
      }
    case Some(i) =>
      DrainSpec(bins[i], EmptyBin, catalog, imemSize);
      match Drain(bins[i], EmptyBin, catalog, imemSize)
      case None =>
      case Some((s, d)) =>
        SplitStep(bins, i, s, d, catalog, imemSize);
        RedistributeFails(Split(bins, i, s, d), catalog, imemSize);
  }

  /** Redistribution conserves the slices, the kernels and the summed footprint. */
  lemma {:induction false} RedistributeConserves(bins: seq<Bin>, catalog: Catalog, imemSize: int)
    requires AllOk(bins, catalog, imemSize)
    ensures var r := Redistribute(bins, catalog, imemSize);
      r.Some? ==> SameTotals(r.value, bins)
    decreases OverCount(bins, imemSize)
  {
    match FirstOver(bins, imemSize)
    case None =>
    case Some(i) =>
      match Drain(bins[i], EmptyBin, catalog, imemSize)
      case None =>
      case Some((s, d)) =>
        SplitStep(bins, i, s, d, catalog, imemSize);
        SplitShares(bins, i, s, d, catalog, imemSize);
        SplitTotals(bins, i, s, d);
        RedistributeConserves(Split(bins, i, s, d), catalog, imemSize);
  }

  /** Bins that start within capacity are returned unchanged. */
  lemma RedistributeNoOp(bins: seq<Bin>, catalog: Catalog, imemSize: int)
    requires AllOk(bins, catalog, imemSize) && WithinCapacity(bins, imemSize)
    ensures Redistribute(bins, catalog, imemSize) == Some(bins)
  {
  }

  /** The original bins keep a suffix of their kernels (their first kernels are the ones
    * evicted), and only new bins are appended after them. */
  lemma {:induction false} RedistributeKeepsSuffix(bins: seq<Bin>, catalog: Catalog, imemSize: int)
    requires AllOk(bins, catalog, imemSize)
    ensures var r := Redistribute(bins, catalog, imemSize);
      r.Some? ==> (|r.value| >= |bins| &&
                   forall j :: 0 <= j < |bins| ==> IsSuffix(r.value[j].kernels, bins[j].kernels))
    decreases OverCount(bins, imemSize)
  {
    match FirstOver(bins, imemSize)
    case None =>
      forall j | 0 <= j < |bins| ensures IsSuffix(bins[j].kernels, bins[j].kernels) {
        assert bins[j].kernels[0..] == bins[j].kernels;
      }
    case Some(i) =>
      match Drain(bins[i], EmptyBin, catalog, imemSize)
      case None =>
      case Some((s, d)) =>
        SplitStep(bins, i, s, d, catalog, imemSize);
        SplitShares(bins, i, s, d, catalog, imemSize);
        var u := Split(bins, i, s, d);
        RedistributeKeepsSuffix(u, catalog, imemSize);
        var out := Redistribute(u, catalog, imemSize);
        if out.Some? {
          forall j | 0 <= j < |bins| ensures IsSuffix(out.value[j].kernels, bins[j].kernels) {
            if j == i {
              assert s.kernels == bins[i].kernels[|d.kernels|..];
            } else {
              assert u[j] == bins[j];
            }
            SuffixTrans(out.value[j].kernels, u[j].kernels, bins[j].kernels);
          }
        }
  }

  /** `a` is `b` with a prefix dropped. */
  predicate IsSuffix<T(==)>(a: seq<T>, b: seq<T>)
  {
    |a| <= |b| && a == b[|b| - |a|..]
  }

  lemma SuffixTrans<T>(a: seq<T>, b: seq<T>, c: seq<T>)
    requires IsSuffix(a, b) && IsSuffix(b, c)
    ensures IsSuffix(a, c)
  {
    assert c[|c| - |b|..][|b| - |a|..] == c[|c| - |a|..];
  }

  /** A list whose slices are a sub-multiset of a conflict-free list is conflict-free. */
  lemma NoConflictsSub(s: seq<Slice>, t: seq<Slice>)
    requires NoConflicts(s) && multiset(t) <= multiset(s)
    ensures NoConflicts(t)
  {
    forall i, j | 0 <= i < j < |t| ensures !CheckOverlapV2(t[i], t[j]) {
      if t[i] == t[j] {
        assert multiset(t)[t[i]] >= 2 by {
          assert t == t[..j] + t[j..];
          assert t[i] in t[..j] && t[j] in t[j..];
          assert multiset(t[..j])[t[i]] >= 1 && multiset(t[j..])[t[i]] >= 1;
        }
        var a, b := TwoPositions(s, t[i]);
        assert !CheckOverlapV2(s[a], s[b]);
      } else {
        assert t[i] in multiset(s) && t[j] in multiset(s);
        var a := PositionOf(s, t[i]);
        var b := PositionOf(s, t[j]);
        if a < b {
          assert !CheckOverlapV2(s[a], s[b]);
        } else {
          assert !CheckOverlapV2(s[b], s[a]);
        }
      }
    }
  }

  /** A value occurring twice has two positions. */
  lemma {:induction false} TwoPositions<T>(s: seq<T>, x: T) returns (a: nat, b: nat)
    requires multiset(s)[x] >= 2
    ensures a < b < |s| && s[a] == x && s[b] == x
  {
    assert s == [s[0]] + s[1..];
    if s[0] == x {
      assert x in multiset(s[1..]);
      var c := PositionOf(s[1..], x);
      a, b := 0, c + 1;
    } else {
      var c, d := TwoPositions(s[1..], x);
      a, b := c + 1, d + 1;
    }
  }

  predicate AllNoConflicts(bins: seq<Bin>)
  {
    forall j :: 0 <= j < |bins| ==> NoConflicts(bins[j].slices)
  }

  predicate AllOwned(bins: seq<Bin>)
  {
    forall j :: 0 <= j < |bins| ==> Owned(bins[j])
  }

  /** Splitting never creates an overlap: each new bin holds part of the slices of the bin it
    * came from. */
  lemma {:induction false} RedistributeNoConflicts(bins: seq<Bin>, catalog: Catalog, imemSize: int)
    requires AllOk(bins, catalog, imemSize) && AllNoConflicts(bins)
    ensures var r := Redistribute(bins, catalog, imemSize); r.Some? ==> AllNoConflicts(r.value)
    decreases OverCount(bins, imemSize)
  {
    match FirstOver(bins, imemSize)
    case None =>
    case Some(i) =>
      match Drain(bins[i], EmptyBin, catalog, imemSize)
      case None =>
      case Some((s, d)) =>
        SplitStep(bins, i, s, d, catalog, imemSize);
        SplitShares(bins, i, s, d, catalog, imemSize);
        var u := Split(bins, i, s, d);
        UnionParts(multiset(d.slices), multiset(s.slices), multiset(bins[i].slices));
        NoConflictsSub(bins[i].slices, s.slices);
        NoConflictsSub(bins[i].slices, d.slices);
        assert AllNoConflicts(u) by {
          forall j | 0 <= j < |u| ensures NoConflicts(u[j].slices) {
            if j < |bins| && j != i {
              assert u[j] == bins[j];
            }
          }
        }
        RedistributeNoConflicts(u, catalog, imemSize);
  }

  /** Slices stay in the bin of their kernel: an evicted kernel takes all of its slices. */
  lemma {:induction false} RedistributeOwned(bins: seq<Bin>, catalog: Catalog, imemSize: int)
    requires AllOk(bins, catalog, imemSize) && AllOwned(bins)
    ensures var r := Redistribute(bins, catalog, imemSize); r.Some? ==> AllOwned(r.value)
    decreases OverCount(bins, imemSize)
  {
    match FirstOver(bins, imemSize)
    case None =>
    case Some(i) =>
      match Drain(bins[i], EmptyBin, catalog, imemSize)
      case None =>
      case Some((s, d)) =>
        SplitStep(bins, i, s, d, catalog, imemSize);
        var u := Split(bins, i, s, d);
        DrainOwned(bins[i], EmptyBin, catalog, imemSize);
        assert AllOwned(u) by {
          forall j | 0 <= j < |u| ensures Owned(u[j]) {
            if j < |bins| && j != i {
              assert u[j] == bins[j];
            }
          }
        }
        RedistributeOwned(u, catalog, imemSize);
  }

  // ---------------------------------------------------------------------------
  // The methods
  // ---------------------------------------------------------------------------

  /** The outcome of `redistribution` on the bins copied from the clusters: no capacity is an
    * error, a kernel that cannot leave an over-capacity bin is an error, and the result is
    * rejected while the trace store `remaining` holds kernels or a bin holds overlapping slices. */
  function Redistributed(bins: seq<Bin>, catalog: Catalog, imemSize: int, remaining: seq<KernelTrace>)
    : Result<seq<Bin>, RedistributionError>
    requires imemSize != 0 ==> AllOk(bins, catalog, imemSize)
  {
    if imemSize == 0 then Err(BinsUnbound)
    else match Redistribute(bins, catalog, imemSize)
      case None => Err(PopFromEmpty)
      case Some(out) =>
        if remaining != [] then Err(UnbinnedKernels)
        else if !AllNoConflicts(out) then Err(OverlapsFound)
        else Ok(out)
  }

  /** What `redistribution` guarantees: an accepted result is within capacity, conflict-free and
    * holds exactly the original slices, kernels and footprint; it fails to empty a bin exactly
    * for a negative capacity; and conflict-free clusters with a drained trace store under a
    * positive capacity are always accepted. */
  lemma RedistributedSpec(bins: seq<Bin>, catalog: Catalog, imemSize: int, remaining: seq<KernelTrace>)
    requires imemSize != 0 ==> AllOk(bins, catalog, imemSize)
    ensures var r := Redistributed(bins, catalog, imemSize, remaining);
      (r == Err(BinsUnbound) <==> imemSize == 0) &&
      (r == Err(PopFromEmpty) <==> imemSize < 0 && bins != []) &&
      (r.Ok? ==> remaining == [] && WithinCapacity(r.value, imemSize) && AllNoConflicts(r.value) &&
                 SameTotals(r.value, bins)) &&
      (imemSize > 0 && remaining == [] && AllNoConflicts(bins) ==> r.Ok?)
  {
    if imemSize != 0 {
      RedistributeFails(bins, catalog, imemSize);
      RedistributeConserves(bins, catalog, imemSize);
      if AllNoConflicts(bins) {
        RedistributeNoConflicts(bins, catalog, imemSize);
      }
    }
  }

  /** The deep copy `[v.kernels, v.slices, footprint]` of each cluster. */
  function CopyBins(cs: seq<Cluster>, catalog: Catalog): (r: seq<Bin>)
    requires forall i :: 0 <= i < |cs| ==> Covered(cs[i].kernels, catalog)
    reads cs
    ensures |r| == |cs|
    ensures forall i :: 0 <= i < |cs| ==>
      r[i].kernels == cs[i].kernels && r[i].slices == cs[i].slices && r[i].size == Footprint(cs[i].kernels, catalog)
  {
    if cs == [] then []
    else
      var c := cs[|cs| - 1];
      var r := CopyBins(cs[..|cs| - 1], catalog) + [Bin(c.kernels, c.slices, Footprint(c.kernels, catalog))];
      assert r[..|cs| - 1] == CopyBins(cs[..|cs| - 1], catalog);
      r
  }

  /** The copy holds the slices the clusters hold. */
  lemma {:induction false} CopyBinsSlices(cs: seq<Cluster>, catalog: Catalog)
    requires forall i :: 0 <= i < |cs| ==> Covered(cs[i].kernels, catalog)
    ensures AllBinSlices(CopyBins(cs, catalog)) == ClusterSlices(cs)
  {
    if cs != [] {
      var n := |cs| - 1;
      var r := CopyBins(cs, catalog);
      CopyBinsSlices(cs[..n], catalog);
      assert r[..n] == CopyBins(cs[..n], catalog);
      assert AllBinSlices(r) == AllBinSlices(r[..n]) + multiset(r[n].slices);
      assert ClusterSlices(cs) == ClusterSlices(cs[..n]) + multiset(cs[n].slices);
    }
  }

  /** The outcome of `bin_redistribution`. */
  function Outcome(r: Option<seq<Bin>>): Result<seq<Bin>, RedistributionError>
  {
    if r.Some? then Ok(r.value) else Err(PopFromEmpty)
  }

  /** The `for` loop of `bin_redistribution`: skip the bins within capacity and stop at the
    * first one over it, or run off the end. */
  method FindOverCapacity(bins: seq<Bin>, imemSize: int) returns (i: nat)
    ensures i <= |bins| && FirstOver(bins, imemSize) == if i < |bins| then Some(i) else None
  {
    i := 0;
    while i < |bins| && bins[i].size <= imemSize
      invariant i <= |bins| && forall j :: 0 <= j < i ==> bins[j].size <= imemSize
    {
      i := i + 1;
    }
    if i < |bins| {
      FirstOverAt(bins, i, imemSize);
    }
  }

  /** The inner `while` loop of `bin_redistribution`: move kernels from the front of
    * `value` into the fresh bin `[[], [], 0]` until `value` is within capacity. */
  method DrainBin(value: Bin, catalog: Catalog, imemSize: int) returns (r: Result<(Bin, Bin), RedistributionError>)
    requires Covered(value.kernels, catalog)
    ensures r == if Drain(value, EmptyBin, catalog, imemSize).Some?
                 then Ok(Drain(value, EmptyBin, catalog, imemSize).value) else Err(PopFromEmpty)
  {
    var src, newBin := value, EmptyBin;
    while src.size > imemSize
      invariant Covered(src.kernels, catalog)
      invariant Drain(src, newBin, catalog, imemSize) == Drain(value, EmptyBin, catalog, imemSize)
      decreases |src.kernels|
    {
      if src.kernels == [] {
        return Err(PopFromEmpty);
      }
      DrainStep(src, newBin, catalog, imemSize);
      ghost var next := Evict(src, newBin, catalog);
      var k := src.kernels[0];
      var parts := SplitByKernel(src.slices, k);
      newBin := Bin(newBin.kernels + [k], newBin.slices + parts.0, newBin.size + catalog[k].imemBits);
      src := Bin(src.kernels[1..], parts.1, src.size - catalog[k].imemBits);
      assert src == next.0 && newBin == next.1;
    }
    r := Ok((src, newBin));
  }

  /** `bin_redistribution`: works on a copy taken on entry (the clusters are not modified),
    * numbers new bins from `binId` on, and returns what `Redistribute` specifies. */
  method BinRedistribution(clusters: seq<Cluster>, binId: int, catalog: Catalog, imemSize: int)
    returns (r: Result<seq<Bin>, RedistributionError>)
    requires binId == |clusters|
    requires forall i :: 0 <= i < |clusters| ==> Covered(clusters[i].kernels, catalog)
    requires forall i :: 0 <= i < |clusters| ==> Fits(clusters[i].kernels, catalog, imemSize)
    ensures r == Outcome(Redistribute(old(CopyBins(clusters, catalog)), catalog, imemSize))
  {
    var bins := CopyBins(clusters, catalog);
    ghost var start := bins;
    var id := binId - 1;
    while true
      invariant AllOk(bins, catalog, imemSize) && id == |bins| - 1
      invariant Redistribute(bins, catalog, imemSize) == Redistribute(start, catalog, imemSize)
      decreases OverCount(bins, imemSize)
    {
      var i := FindOverCapacity(bins, imemSize);
      if i < |bins| {
        id := id + 1;
        var drained := DrainBin(bins[i], catalog, imemSize);
        RedistributeStep(bins, i, catalog, imemSize);
        if drained.Err? {
          return Err(drained.error);
        }
        var (value, newBin) := drained.value;
        SplitStep(bins, i, value, newBin, catalog, imemSize);
        bins := Split(bins, i, value, newBin);
      }
      if WithinCapacity(bins, imemSize) {
        RedistributeNoOp(bins, catalog, imemSize);
        break;
      }
    }
    r := Ok(bins);
  }

  /** The checks `redistribution` makes after redistributing: the trace store must be empty
    * and no bin may hold overlapping slices. */
  method CheckBins(bins: seq<Bin>, remaining: seq<KernelTrace>)
    returns (r: Result<seq<Bin>, RedistributionError>)
    ensures r == if remaining != [] then Err(UnbinnedKernels)
                 else if !AllNoConflicts(bins) then Err(OverlapsFound)
                 else Ok(bins)
  {
    if remaining != [] {
      return Err(UnbinnedKernels);
    }
    var j := 0;
    while j < |bins|
      invariant j <= |bins| && forall k :: 0 <= k < j ==> NoConflicts(bins[k].slices)
    {
      if FindOverlapsForBin(bins[j].slices) != [] {
        return Err(OverlapsFound);
      }
      j := j + 1;
    }
    return Ok(bins);
  }

  /** `redistribution`: redistribute with capacity `imemSize`, then reject the result when the
    * trace store `remaining` still holds kernels or a bin holds overlapping slices. With a
    * capacity of 0 the source never assigns `bins`. */
  method Redistribution(clusters: seq<Cluster>, binId: int, imemSize: int, remaining: seq<KernelTrace>,
                        catalog: Catalog)
    returns (r: Result<seq<Bin>, RedistributionError>)
    requires binId == |clusters|
    requires imemSize != 0 ==> forall i :: 0 <= i < |clusters| ==> Covered(clusters[i].kernels, catalog)
    requires imemSize != 0 ==> forall i :: 0 <= i < |clusters| ==> Fits(clusters[i].kernels, catalog, imemSize)
    ensures imemSize == 0 ==> r == Err(BinsUnbound)
    ensures imemSize != 0 ==> r == Redistributed(old(CopyBins(clusters, catalog)), catalog, imemSize, remaining)
    ensures r.Ok? ==> imemSize != 0 && AllBinSlices(r.value) == old(ClusterSlices(clusters))
  {
    if imemSize == 0 {
      return Err(BinsUnbound);
    }
    ghost var start := CopyBins(clusters, catalog);
    CopyBinsSlices(clusters, catalog);
    RedistributeConserves(start, catalog, imemSize);
    var res := BinRedistribution(clusters, binId, catalog, imemSize);
    if res.Err? {
      return Err(res.error);
    }
    r := CheckBins(res.value, remaining);
  }
}
