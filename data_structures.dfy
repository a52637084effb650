/** The data model of data_structures.py: slices, the per-kernel timing-trace store and
  * clusters, plus the personality catalog they are checked against. A Python dict is
  * modelled by a sequence of entries with distinct keys, in insertion order. */
module DataStructures {
  import opened Wrappers
  import opened Lists

  /** A PE footprint `(rows, cols)`. */
  datatype Shape = Shape(rows: nat, cols: nat)

  /** One recorded activity interval of a kernel; `(start, end)` is the half-open
    * interval the source keeps in `Slice.slice`. */
  datatype Slice = Slice(kernelName: string, subbandId: int, start: int, end: int, shape: Shape)

  /** A personality catalog entry `[shape, instruction footprint in bits]`. */
  datatype Personality = Personality(shape: Shape, imemBits: nat)

  type Catalog = map<string, Personality>

  /** One `kernel: [slices]` item of a trace dict. */
  datatype KernelTrace = KernelTrace(kernel: string, slices: seq<Slice>)

  function Keys(t: seq<KernelTrace>): seq<string>
  {
    seq(|t|, i requires 0 <= i < |t| => t[i].kernel)
  }

  /** Dict keys are unique. */
  predicate DistinctKeys(t: seq<KernelTrace>)
  {
    forall i, j :: 0 <= i < j < |t| ==> t[i].kernel != t[j].kernel
  }

  /** Position of key `k` in the dict, if present. */
  function IndexOf(t: seq<KernelTrace>, k: string): (r: Option<nat>)
    ensures r.Some? ==> r.value < |t| && t[r.value].kernel == k
    ensures r.None? ==> forall i :: 0 <= i < |t| ==> t[i].kernel != k
  {
    if t == [] then None
    else if t[|t| - 1].kernel == k then Some(|t| - 1)
    else IndexOf(t[..|t| - 1], k)
  }

  lemma IndexOfUnique(t: seq<KernelTrace>, i: nat)
    requires DistinctKeys(t) && i < |t|
    ensures IndexOf(t, t[i].kernel) == Some(i)
  {
    var r := IndexOf(t, t[i].kernel);
  }

  /** `data.get(k, [])` */
  function SlicesOf(t: seq<KernelTrace>, k: string): seq<Slice>
  {
    match IndexOf(t, k)
    case Some(i) => t[i].slices
    case None => []
  }

  /** `sum(len(v) for v in data.values())` */
  function TotalSlices(t: seq<KernelTrace>): nat
  {
    if t == [] then 0 else TotalSlices(t[..|t| - 1]) + |t[|t| - 1].slices|
  }

  /** The multiset of every slice held in the dict. */
  function AllSlices(t: seq<KernelTrace>): multiset<Slice>
  {
    if t == [] then multiset{} else AllSlices(t[..|t| - 1]) + multiset(t[|t| - 1].slices)
  }

  lemma {:induction false} AllSlicesSize(t: seq<KernelTrace>)
    ensures |AllSlices(t)| == TotalSlices(t)
  {
    if t != [] {
      AllSlicesSize(t[..|t| - 1]);
    }
  }

  lemma AllSlicesAppend(t: seq<KernelTrace>, e: KernelTrace)
    ensures AllSlices(t + [e]) == AllSlices(t) + multiset(e.slices)
    ensures TotalSlices(t + [e]) == TotalSlices(t) + |e.slices|
  {
    assert (t + [e])[..|t|] == t;
  }

  /** Replacing one entry's list changes the slice multiset by exactly that list. */
  lemma {:induction false} AllSlicesUpdate(t: seq<KernelTrace>, e: nat, x: KernelTrace)
    requires e < |t|
    ensures AllSlices(t[e := x]) + multiset(t[e].slices) == AllSlices(t) + multiset(x.slices)
    ensures TotalSlices(t[e := x]) + |t[e].slices| == TotalSlices(t) + |x.slices|
  {
    var n := |t| - 1;
    var u := t[e := x];
    assert AllSlices(u) == AllSlices(u[..n]) + multiset(u[n].slices);
    assert TotalSlices(u) == TotalSlices(u[..n]) + |u[n].slices|;
    assert AllSlices(t) == AllSlices(t[..n]) + multiset(t[n].slices);
    if e < n {
      AllSlicesUpdate(t[..n], e, x);
      assert u[..n] == t[..n][e := x];
      assert t[..n][e] == t[e] && u[n] == t[n];
      calc {
        AllSlices(u) + multiset(t[e].slices);
        AllSlices(t[..n][e := x]) + multiset(t[n].slices) + multiset(t[..n][e].slices);
        AllSlices(t[..n]) + multiset(x.slices) + multiset(t[n].slices);
        AllSlices(t) + multiset(x.slices);
      }
    } else {
      assert u[..n] == t[..n];
    }
  }

  /** Splitting one entry's list into `picked` and `rest` and keeping `rest` in the store
    * moves exactly `picked` out of it. */
  lemma AllSlicesTake(t: seq<KernelTrace>, e: nat, picked: seq<Slice>, rest: seq<Slice>)
    requires e < |t| && picked != [] && multiset(picked) + multiset(rest) == multiset(t[e].slices)
    ensures var u := t[e := KernelTrace(t[e].kernel, rest)];
      multiset(picked) + AllSlices(u) == AllSlices(t) && TotalSlices(u) < TotalSlices(t)
  {
    var x := KernelTrace(t[e].kernel, rest);
    AllSlicesUpdate(t, e, x);
    MultisetCancel(multiset(picked) + AllSlices(t[e := x]), AllSlices(t), multiset(rest));
    assert |multiset(picked) + multiset(rest)| == |multiset(t[e].slices)|;
  }

  /** Replacing the list of one key leaves every other key's list as it was. */
  lemma SlicesOfUpdate(t: seq<KernelTrace>, i: nat, x: seq<Slice>)
    requires DistinctKeys(t) && i < |t|
    ensures DistinctKeys(t[i := KernelTrace(t[i].kernel, x)])
    ensures Keys(t[i := KernelTrace(t[i].kernel, x)]) == Keys(t)
    ensures SlicesOf(t[i := KernelTrace(t[i].kernel, x)], t[i].kernel) == x
    ensures forall k :: k != t[i].kernel ==> SlicesOf(t[i := KernelTrace(t[i].kernel, x)], k) == SlicesOf(t, k)
  {
    var u := t[i := KernelTrace(t[i].kernel, x)];
    assert Keys(u) == Keys(t);
    IndexOfUnique(u, i);
    forall k | k != t[i].kernel ensures SlicesOf(u, k) == SlicesOf(t, k) {
      match IndexOf(t, k)
      case Some(j) =>
        IndexOfUnique(t, j);
        IndexOfUnique(u, j);
      case None =>
        assert IndexOf(u, k).None?;
    }
  }

  /** Adding a new key leaves every other key's list as it was. */
  lemma SlicesOfAppend(t: seq<KernelTrace>, e: KernelTrace)
    requires DistinctKeys(t) && e.kernel !in Keys(t)
    ensures DistinctKeys(t + [e]) && Keys(t + [e]) == Keys(t) + [e.kernel]
    ensures SlicesOf(t + [e], e.kernel) == e.slices
    ensures forall k :: k != e.kernel ==> SlicesOf(t + [e], k) == SlicesOf(t, k)
  {
    var u := t + [e];
    assert u[..|t|] == t;
    assert Keys(u) == Keys(t) + [e.kernel];
    forall i | 0 <= i < |t| ensures t[i].kernel != e.kernel {
      assert Keys(t)[i] == t[i].kernel;
    }
  }

  lemma AllSlicesMember(t: seq<KernelTrace>, e: nat, s: Slice)
    requires e < |t| && s in t[e].slices
    ensures s in AllSlices(t)
  {
    var n := |t| - 1;
    if e < n {
      AllSlicesMember(t[..n], e, s);
    }
  }

  /** The kernel-name timing store `Timing_Data`. */
  class TimingData {
    var data: seq<KernelTrace>

    ghost predicate Valid()
      reads this
    {
      DistinctKeys(data)
    }

    constructor()
      ensures Valid() && data == []
    {
      data := [];
    }

    /** Append `s` to the list of `kernelName`, creating a singleton list for a new key. */
    method AddNewData(kernelName: string, s: Slice)
      requires Valid()
      modifies this
      ensures Valid()
      ensures SlicesOf(data, kernelName) == old(SlicesOf(data, kernelName)) + [s]
      ensures forall k :: k != kernelName ==> SlicesOf(data, k) == old(SlicesOf(data, k))
      ensures Keys(data) == if kernelName in old(Keys(data)) then old(Keys(data))
                            else old(Keys(data)) + [kernelName]
      ensures TotalSlices(data) == old(TotalSlices(data)) + 1
    {
      match IndexOf(data, kernelName)
      case Some(i) =>
        assert kernelName in Keys(data) by { assert Keys(data)[i] == kernelName; }
        var entry := KernelTrace(kernelName, data[i].slices + [s]);
        AllSlicesUpdate(data, i, entry);
        SlicesOfUpdate(data, i, entry.slices);
        IndexOfUnique(data, i);
        data := data[i := entry];
      case None =>
        assert kernelName !in Keys(data);
        AllSlicesAppend(data, KernelTrace(kernelName, [s]));
        SlicesOfAppend(data, KernelTrace(kernelName, [s]));
        data := data + [KernelTrace(kernelName, [s])];
    }

    /** `__len__`: the number of slices over all kernels. */
    method Length() returns (length: nat)
      ensures length == TotalSlices(data)
    {
      length := 0;
      for i := 0 to |data|
        invariant length == TotalSlices(data[..i])
      {
        assert data[..i + 1][..i] == data[..i];
        length := length + |data[i].slices|;
      }
      assert data[..|data|] == data;
    }
  }

  /** A cluster: its id, member kernels in insertion order, committed slices,
    * IMEM layer and seed kernel. */
  class Cluster {
    var id: int
    var kernels: seq<string>
    var slices: seq<Slice>
    var imemLayer: int
    var seedKernel: Option<string>

    /** Omitted lists default to empty, an omitted layer to -1, an omitted seed to None. */
    constructor(id: int, kernels: Option<seq<string>>, slices: Option<seq<Slice>>,
                imemLayer: Option<int>, seedKernel: Option<string>)
      ensures this.id == id && this.kernels == kernels.GetOr([]) && this.slices == slices.GetOr([])
      ensures this.imemLayer == imemLayer.GetOr(-1) && this.seedKernel == seedKernel
    {
      this.id := id;
      this.kernels := kernels.GetOr([]);
      this.slices := slices.GetOr([]);
      this.imemLayer := imemLayer.GetOr(-1);
      this.seedKernel := seedKernel;
    }

    method ExtendCluster(ks: seq<string>, ss: seq<Slice>)
      modifies this`kernels, this`slices
      ensures kernels == old(kernels) + ks && slices == old(slices) + ss
    {
      kernels := kernels + ks;
      slices := slices + ss;
    }

    method ExtendKernels(ks: seq<string>)
      modifies this`kernels
      ensures kernels == old(kernels) + ks
    {
      kernels := kernels + ks;
    }
  }

  /** `Cluster_list`: the cluster dict, keyed by cluster id 0, 1, ... (kept as a sequence
    * whose position is the key). */
  class ClusterList {
    var clusters: seq<Cluster>

    constructor()
      ensures clusters == []
    {
      clusters := [];
    }
  }
}
