/** The trace preprocessing and capacity sweep of utils.py: the raw trace, keyed by raw
  * kernel names, is reshaped into one kernel-personality trace per array, keeping only
  * slices whose shape matches the personality, dropping kernels with no slices and sorting
  * each kernel's slices by start time; and the list of IMEM capacities to sweep. */
module Utils {
  import opened Wrappers
  import opened Lists
  import opened DataStructures

  // ---- kernel_key_list ----

  /** `kernel_key_list`: each kernel-personality key with the raw trace keys it collects. */
  const KernelKeyList: Table := [
    ("Kurtosis_0", ["Kurtosis1_b1", "Kurtosis2_b1"]),
    ("AEP_det_0", ["AEPDet_b1"]),
    ("AEP_bf_0", ["AEPbf_b1"]),
    ("CPDet_0", ["CPDet1_b1"]),
    ("CPDet_1", ["CPDet1_b1"]),
    ("ChirpDet_0", ["ChirpDet_b1", "ChirpDet2_b1"]),
    ("ChirpDet_1", ["ChirpDet_b1", "ChirpDet2_b1"]),
    ("OFDMEst_0", ["OFDMEst1"]),
    ("CREst_0", ["CREst1", "CREst2"]),
    ("energy_detect_0", ["ED1_b2", "ED2_b2", "ED3_b2", "ED4_b2", "ED5_b2", "ED6_b2", "ED7_b2", "ED8_b2"]),
    ("energy_detect_1", ["ED1_b2", "ED2_b2", "ED3_b2", "ED4_b2", "ED5_b2", "ED6_b2", "ED7_b2", "ED8_b2"]),
    ("energy_detect_2", ["ED1_b2", "ED2_b2", "ED3_b2", "ED4_b2", "ED5_b2", "ED6_b2", "ED7_b2", "ED8_b2"]),
    ("energy_detect_3", ["ED1_b2", "ED2_b2", "ED3_b2", "ED4_b2", "ED5_b2", "ED6_b2", "ED7_b2", "ED8_b2"]),
    ("energy_detect_4", ["ED1_b2", "ED2_b2", "ED3_b2", "ED4_b2", "ED5_b2", "ED6_b2", "ED7_b2", "ED8_b2"]),
    ("energy_detect1_0", ["ED1_b1"]),
    ("KTInstAmp_0", ["KTInstAmp_b1"]),
    ("FSK_Est_0", ["FSK_Est_b1"]),
    ("FM_Est_0", ["FM_Est_b1"]),
    ("PSK_Est_0", ["PSK_Est_b1"]),
    ("Cumulant42_0", ["Cumulant42_b1"]),
    ("Cumulant63_0", ["Cumulant63_b1"]),
    ("FSK_Det_0", ["FSK_Det_b1"]),
    ("BPSK_Det_0", ["BPSK_Det_b1"]),
    ("BPSK_Est_0", ["BPSK_Est_b1"]),
    ("MaxPSDDet_0", ["MaxPSDDet_b1"]),
    ("InstAmp_0", ["InstAmp_b1"]),
    ("QAM_Est_0", ["QAM_Est_b1"]),
    ("SpecCentroid_0", ["SpecCentroid_b1"]),
    ("PSK_Det_0", ["PSK_Det_b1"]),
    ("Cumulant40", ["Cumulant40_b1"]),
    ("DOA", ["DOA_b1"]),
    ("ED8_atn_0", ["ED8_atn"]),
    ("PSK_Est_cyclo_0", ["PSK_Est_cyclo"]),
    ("FSK_Est_cyclo_0", ["FSK_Est_cyclo"]),
    ("OFDM_Est_cyclo_0", ["OFDM_Est_cyclo"])
  ]

  /** A kernel-key table: each kernel-personality key with the raw keys it collects. */
  type Table = seq<(string, seq<string>)>

  // ---- custom_key and sorting ----

  /** `custom_key`: a slice sorts by its start time. */
  function CustomKey(s: Slice): int
  {
    s.start
  }

  function Starts(ss: seq<Slice>): (r: seq<int>)
    ensures |r| == |ss|
  {
    seq(|ss|, i requires 0 <= i < |ss| => CustomKey(ss[i]))
  }

  /** `sorted(value, key=custom_key)` */
  function SortByStart(ss: seq<Slice>): (r: seq<Slice>)
    ensures |r| == |ss|
  {
    Pick(ss, StableOrder(Starts(ss)))
  }

  /** The sorted list holds the same slices in ascending start order; slices that start
    * together keep the order they had. */
  lemma SortByStartSpec(ss: seq<Slice>)
    ensures multiset(SortByStart(ss)) == multiset(ss)
    ensures forall x, y :: 0 <= x < y < |ss| ==> SortByStart(ss)[x].start <= SortByStart(ss)[y].start
    ensures var o := StableOrder(Starts(ss));
      IsPermutation(o, |ss|) && SortByStart(ss) == Pick(ss, o) &&
      forall x, y :: 0 <= x < y < |ss| && ss[o[x]].start == ss[o[y]].start ==> o[x] < o[y]
  {
    var keys := Starts(ss);
    var o := StableOrder(keys);
    StableOrderCorrect(keys);
    PickStableOrderMultiset(ss, keys);
    forall x, y | 0 <= x < y < |ss| ensures SortByStart(ss)[x].start <= SortByStart(ss)[y].start {
      assert Before(keys, o[x], o[y]);
    }
    forall x, y | 0 <= x < y < |ss| && ss[o[x]].start == ss[o[y]].start ensures o[x] < o[y] {
      assert Before(keys, o[x], o[y]);
    }
  }

  // ---- the raw trace ----

  /** One raw trace item `[start, end, subband, [rows, cols], array id]`. */
  datatype RawItem = RawItem(start: int, end: int, subband: int, shape: Shape, arrayId: int)

  /** One `raw key: [items]` entry of the loaded trace dict. */
  datatype RawTrace = RawTrace(key: string, items: seq<RawItem>)

  /** A dict lookup that fails: the personality of a kernel key, or the partition of an
    * array id, is missing. */
  datatype ProcessError = MissingKey

  /** `raw[rk] if rk in raw.keys()` */
  function RawLookup(raw: seq<RawTrace>, rk: string): (r: Option<seq<RawItem>>)
    ensures r.None? <==> forall i :: 0 <= i < |raw| ==> raw[i].key != rk
  {
    if raw == [] then None
    else if raw[|raw| - 1].key == rk then Some(raw[|raw| - 1].items)
    else RawLookup(raw[..|raw| - 1], rk)
  }

  function RawItems(raw: seq<RawTrace>, rk: string): seq<RawItem>
  {
    RawLookup(raw, rk).GetOr([])
  }

  /** The slice the source builds for `kernel` from a raw item. */
  function Emit(item: RawItem, kernel: string): Slice
  {
    Slice(kernel, item.subband, item.start, item.end, item.shape)
  }

  /** A raw item lands under `kernel` in array `a`: the kernel's personality has the item's
    * shape and the item names array `a`. */
  predicate Matches(item: RawItem, kernel: string, catalog: Catalog, a: int)
  {
    kernel in catalog && catalog[kernel].shape == item.shape && item.arrayId == a
  }

  /** A raw item makes the source fail under `kernel`: the kernel has no personality, or the
    * shapes agree and the item names an array that has no partition. */
  predicate ItemFails(item: RawItem, kernel: string, catalog: Catalog, n: nat)
  {
    kernel !in catalog || (catalog[kernel].shape == item.shape && !(0 <= item.arrayId < n))
  }

  predicate ItemsFail(items: seq<RawItem>, kernel: string, catalog: Catalog, n: nat)
  {
    exists i :: 0 <= i < |items| && ItemFails(items[i], kernel, catalog, n)
  }

  /** The raw keys `rks` of `kernel` make the source fail. */
  predicate KernelFails(raw: seq<RawTrace>, rks: seq<string>, kernel: string, catalog: Catalog, n: nat)
  {
    exists j :: 0 <= j < |rks| && ItemsFail(RawItems(raw, rks[j]), kernel, catalog, n)
  }

  /** Some kernel key of `table` makes the source fail. */
  predicate Fails(table: Table, raw: seq<RawTrace>, catalog: Catalog, n: nat)
  {
    exists k :: 0 <= k < |table| && KernelFails(raw, table[k].1, table[k].0, catalog, n)
  }

  /** The slices of `items` that land under `kernel` in array `a`, in trace order. */
  function Matching(items: seq<RawItem>, kernel: string, catalog: Catalog, a: int): seq<Slice>
  {
    if items == [] then []
    else
      var last := items[|items| - 1];
      Matching(items[..|items| - 1], kernel, catalog, a) + if Matches(last, kernel, catalog, a) then [Emit(last, kernel)] else []
  }

  /** The slices that land under `kernel` in array `a` from the raw keys `rks`, in order. */
  function Gathered(raw: seq<RawTrace>, rks: seq<string>, kernel: string, catalog: Catalog, a: int): seq<Slice>
  {
    if rks == [] then []
    else Gathered(raw, rks[..|rks| - 1], kernel, catalog, a) + Matching(RawItems(raw, rks[|rks| - 1]), kernel, catalog, a)
  }

  /** A slice lands under `kernel` in array `a` exactly when it is built from an item whose
    * shape is the kernel's personality shape and whose array id is `a`. */
  lemma {:induction false} MatchingOrigin(items: seq<RawItem>, kernel: string, catalog: Catalog, a: int, s: Slice)
    ensures s in Matching(items, kernel, catalog, a) <==>
      exists i :: 0 <= i < |items| && Matches(items[i], kernel, catalog, a) && s == Emit(items[i], kernel)
    ensures s in Matching(items, kernel, catalog, a) ==>
      kernel in catalog && s.kernelName == kernel && s.shape == catalog[kernel].shape
  {
    if items != [] {
      var n := |items| - 1;
      MatchingOrigin(items[..n], kernel, catalog, a, s);
      if s in Matching(items, kernel, catalog, a) && s !in Matching(items[..n], kernel, catalog, a) {
        assert Matches(items[n], kernel, catalog, a) && s == Emit(items[n], kernel);
      }
      if exists i :: 0 <= i < |items| && Matches(items[i], kernel, catalog, a) && s == Emit(items[i], kernel) {
        var i :| 0 <= i < |items| && Matches(items[i], kernel, catalog, a) && s == Emit(items[i], kernel);
        if i < n {
          assert items[..n][i] == items[i];
        }
      }
    }
  }

  /** A slice is gathered for `kernel` exactly when one of the raw keys listed for it
    * contributes the slice. */
  lemma {:induction false} GatheredOrigin(raw: seq<RawTrace>, rks: seq<string>, kernel: string, catalog: Catalog, a: int, s: Slice)
    ensures s in Gathered(raw, rks, kernel, catalog, a) <==>
      exists j :: 0 <= j < |rks| && s in Matching(RawItems(raw, rks[j]), kernel, catalog, a)
  {
    if rks != [] {
      var n := |rks| - 1;
      GatheredOrigin(raw, rks[..n], kernel, catalog, a, s);
      if exists j :: 0 <= j < |rks| && s in Matching(RawItems(raw, rks[j]), kernel, catalog, a) {
        var j :| 0 <= j < |rks| && s in Matching(RawItems(raw, rks[j]), kernel, catalog, a);
        if j < n {
          assert rks[..n][j] == rks[j];
        }
      }
      if s in Gathered(raw, rks[..n], kernel, catalog, a) {
        var j :| 0 <= j < n && s in Matching(RawItems(raw, rks[..n][j]), kernel, catalog, a);
        assert rks[..n][j] == rks[j];
      }
    }
  }

  // ---- the partitions being built ----

  /** `new_timing_data`: one trace dict per array id, as `KernelTrace` entries. */
  type Partitions = seq<seq<KernelTrace>>

  /** Every key of the table, with an empty list. */
  function EmptyTrace(table: Table): seq<KernelTrace>
  {
    seq(|table|, k requires 0 <= k < |table| => KernelTrace(table[k].0, []))
  }

  /** The partitions once kernel keys `0 .. k-1` are done and kernel `k` has taken its first
    * `j` raw keys. */
  function Stage(table: Table, raw: seq<RawTrace>, catalog: Catalog, n: nat, k: nat, j: nat): Partitions
    requires k <= |table| && (k < |table| ==> j <= |table[k].1|)
  {
    seq(n, a requires 0 <= a < n =>
      seq(|table|, k' requires 0 <= k' < |table| =>
        KernelTrace(table[k'].0,
          if k' < k then Gathered(raw, table[k'].1, table[k'].0, catalog, a)
          else if k' == k then Gathered(raw, table[k].1[..j], table[k].0, catalog, a)
          else [])))
  }

  /** `data[a][kernel].append(s)` for the entry at position `k`. */
  function AddSlice(data: Partitions, a: nat, k: nat, s: Slice): Partitions
    requires a < |data| && k < |data[a]|
  {
    data[a := data[a][k := KernelTrace(data[a][k].kernel, data[a][k].slices + [s])]]
  }

  /** Every matching item of `items` appended to entry `k` of its array. */
  function AppendedAll(data: Partitions, k: nat, items: seq<RawItem>, kernel: string, catalog: Catalog): Partitions
    requires forall a :: 0 <= a < |data| ==> k < |data[a]|
  {
    seq(|data|, a requires 0 <= a < |data| =>
      data[a][k := KernelTrace(data[a][k].kernel, data[a][k].slices + Matching(items, kernel, catalog, a))])
  }

  lemma AppendedNone(data: Partitions, k: nat, kernel: string, catalog: Catalog)
    requires forall a :: 0 <= a < |data| ==> k < |data[a]|
    ensures AppendedAll(data, k, [], kernel, catalog) == data
  {
    var d := AppendedAll(data, k, [], kernel, catalog);
    forall a | 0 <= a < |data| ensures d[a] == data[a] {
      assert data[a][k].slices + [] == data[a][k].slices;
      assert d[a][k] == data[a][k];
    }
  }

  lemma UpdateSame(es: seq<KernelTrace>, k: nat)
    requires k < |es|
    ensures es[k := KernelTrace(es[k].kernel, es[k].slices + [])] == es
  {
    assert es[k].slices + [] == es[k].slices;
  }

  lemma AppendedStep(data: Partitions, k: nat, items: seq<RawItem>, i: nat, kernel: string, catalog: Catalog)
    requires forall a :: 0 <= a < |data| ==> k < |data[a]|
    requires i < |items|
    ensures var d := AppendedAll(data, k, items[..i], kernel, catalog);
      var item := items[i];
      AppendedAll(data, k, items[..i + 1], kernel, catalog) ==
        if kernel in catalog && catalog[kernel].shape == item.shape && 0 <= item.arrayId < |data|
        then AddSlice(d, item.arrayId, k, Emit(item, kernel))
        else d
  {
    var d: Partitions := AppendedAll(data, k, items[..i], kernel, catalog);
    var d1: Partitions := AppendedAll(data, k, items[..i + 1], kernel, catalog);
    var item := items[i];
    var s := Emit(item, kernel);
    assert items[..i + 1][..i] == items[..i];
    forall a | 0 <= a < |data|
      ensures d1[a] == d[a][k := KernelTrace(d[a][k].kernel, d[a][k].slices + if Matches(item, kernel, catalog, a) then [s] else [])]
    {
      var m := Matching(items[..i], kernel, catalog, a);
      assert Matching(items[..i + 1], kernel, catalog, a) == m + if Matches(item, kernel, catalog, a) then [s] else [];
      assert data[a][k].slices + m + (if Matches(item, kernel, catalog, a) then [s] else [])
        == data[a][k].slices + (m + if Matches(item, kernel, catalog, a) then [s] else []);
    }
    if kernel in catalog && catalog[kernel].shape == item.shape && 0 <= item.arrayId < |data| {
      var e := AddSlice(d, item.arrayId, k, s);
      forall a | 0 <= a < |data| ensures d1[a] == e[a] {
        if a != item.arrayId {
          UpdateSame(d[a], k);
        }
      }
    } else {
      forall a | 0 <= a < |data| ensures d1[a] == d[a] {
        UpdateSame(d[a], k);
      }
    }
  }

  lemma StageStart(table: Table, raw: seq<RawTrace>, catalog: Catalog, n: nat)
    ensures Stage(table, raw, catalog, n, 0, 0) == seq(n, a => EmptyTrace(table))
  {
    var s := Stage(table, raw, catalog, n, 0, 0);
    forall a | 0 <= a < n ensures s[a] == EmptyTrace(table) {
      if table != [] {
        assert table[0].1[..0] == [];
      }
    }
  }

  lemma StageStep(table: Table, raw: seq<RawTrace>, catalog: Catalog, n: nat, k: nat, j: nat)
    requires k < |table| && j < |table[k].1|
    ensures AppendedAll(Stage(table, raw, catalog, n, k, j), k, RawItems(raw, table[k].1[j]), table[k].0, catalog)
      == Stage(table, raw, catalog, n, k, j + 1)
  {
    var rks := table[k].1;
    assert rks[..j + 1][..j] == rks[..j];
    var l := AppendedAll(Stage(table, raw, catalog, n, k, j), k, RawItems(raw, rks[j]), table[k].0, catalog);
    var r := Stage(table, raw, catalog, n, k, j + 1);
    forall a | 0 <= a < n ensures l[a] == r[a] {
      assert l[a][k] == r[a][k];
    }
  }

  lemma StageNext(table: Table, raw: seq<RawTrace>, catalog: Catalog, n: nat, k: nat)
    requires k < |table|
    ensures Stage(table, raw, catalog, n, k, |table[k].1|) == Stage(table, raw, catalog, n, k + 1, 0)
  {
    assert table[k].1[..|table[k].1|] == table[k].1;
    var l := Stage(table, raw, catalog, n, k, |table[k].1|);
    var r := Stage(table, raw, catalog, n, k + 1, 0);
    forall a | 0 <= a < n ensures l[a] == r[a] {
      if k + 1 < |table| {
        assert table[k + 1].1[..0] == [];
        assert l[a][k + 1] == r[a][k + 1];
      }
    }
  }

  // ---- the steps of process_timing_data ----

  /** The loop over one raw key's items: each item whose shape is the personality's is
    * appended to the entry of `kernel` in the partition its array id names. */
  method AppendMatching(data: Partitions, k: nat, kernel: string, items: seq<RawItem>, catalog: Catalog)
    returns (r: Result<Partitions, ProcessError>)
    requires forall a :: 0 <= a < |data| ==> k < |data[a]|
    ensures r.Err? <==> ItemsFail(items, kernel, catalog, |data|)
    ensures r.Ok? ==> r.value == AppendedAll(data, k, items, kernel, catalog)
  {
    var d := data;
    AppendedNone(data, k, kernel, catalog);
    for i := 0 to |items|
      invariant d == AppendedAll(data, k, items[..i], kernel, catalog)
      invariant !ItemsFail(items[..i], kernel, catalog, |data|)
    {
      var item := items[i];
      if kernel !in catalog {
        assert ItemFails(items[i], kernel, catalog, |data|);
        return Err(MissingKey);
      }
      AppendedStep(data, k, items, i, kernel, catalog);
      if catalog[kernel].shape == item.shape {
        if !(0 <= item.arrayId < |data|) {
          assert ItemFails(items[i], kernel, catalog, |data|);
          return Err(MissingKey);
        }
        d := AddSlice(d, item.arrayId, k, Emit(item, kernel));
      }
      assert !ItemFails(items[i], kernel, catalog, |data|);
      assert forall x :: 0 <= x < i + 1 ==> items[..i + 1][x] == items[x];
    }
    assert items[..|items|] == items;
    return Ok(d);
  }

  /** The loop over the raw keys of kernel key `k`: the items of every raw key present in
    * the trace are appended. */
  method GatherKernel(table: Table, data: Partitions, k: nat, raw: seq<RawTrace>, catalog: Catalog, ghost n: nat)
    returns (r: Result<Partitions, ProcessError>)
    requires k < |table| && data == Stage(table, raw, catalog, n, k, 0)
    ensures r.Err? <==> KernelFails(raw, table[k].1, table[k].0, catalog, n)
    ensures r.Ok? ==> r.value == Stage(table, raw, catalog, n, k + 1, 0)
  {
    var kernel, rks := table[k].0, table[k].1;
    var d := data;
    for j := 0 to |rks|
      invariant d == Stage(table, raw, catalog, n, k, j)
      invariant forall j' :: 0 <= j' < j ==> !ItemsFail(RawItems(raw, rks[j']), kernel, catalog, n)
    {
      StageStep(table, raw, catalog, n, k, j);
      match RawLookup(raw, rks[j])
      case Some(items) =>
        var res := AppendMatching(d, k, kernel, items, catalog);
        if res.Err? {
          return Err(res.error);
        }
        d := res.value;
      case None =>
        AppendedNone(d, k, kernel, catalog);
    }
    StageNext(table, raw, catalog, n, k);
    return Ok(d);
  }

  /** The initial `new_timing_data`: every array id with every key of the table, empty. */
  method EmptyPartitions(table: Table, n: nat) returns (data: Partitions)
    ensures data == seq(n, a => EmptyTrace(table))
  {
    data := [];
    for a := 0 to n
      invariant data == seq(a, a' => EmptyTrace(table))
    {
      var entries: seq<KernelTrace> := [];
      for k := 0 to |table|
        invariant entries == seq(k, k' requires 0 <= k' < k => KernelTrace(table[k'].0, []))
      {
        entries := entries + [KernelTrace(table[k].0, [])];
      }
      data := data + [entries];
    }
  }

  /** The entries that hold at least one slice, in order. */
  function NonEmpty(es: seq<KernelTrace>): seq<KernelTrace>
  {
    if es == [] then []
    else NonEmpty(es[..|es| - 1]) + if es[|es| - 1].slices == [] then [] else [es[|es| - 1]]
  }

  /** Exactly the entries with slices survive. */
  lemma {:induction false} NonEmptySpec(es: seq<KernelTrace>)
    ensures |NonEmpty(es)| <= |es|
    ensures forall e :: e in NonEmpty(es) <==> e in es && e.slices != []
  {
    if es != [] {
      var n := |es| - 1;
      NonEmptySpec(es[..n]);
      assert es == es[..n] + [es[n]];
    }
  }

  /** `if len(value) == 0: pop(key)` over one partition. */
  method DropEmpty(es: seq<KernelTrace>) returns (r: seq<KernelTrace>)
    ensures r == NonEmpty(es)
  {
    r := [];
    for i := 0 to |es|
      invariant r == NonEmpty(es[..i])
    {
      assert es[..i + 1][..i] == es[..i];
      if es[i].slices != [] {
        r := r + [es[i]];
      }
    }
    assert es[..|es|] == es;
  }

  /** Every entry's list sorted by start. */
  function SortAll(es: seq<KernelTrace>): seq<KernelTrace>
  {
    seq(|es|, i requires 0 <= i < |es| => KernelTrace(es[i].kernel, SortByStart(es[i].slices)))
  }

  /** `data[key] = sorted(value, key=custom_key)` over one partition. */
  method SortEntries(es: seq<KernelTrace>) returns (r: seq<KernelTrace>)
    ensures r == SortAll(es)
  {
    r := es;
    for i := 0 to |es|
      invariant |r| == |es|
      invariant forall x :: 0 <= x < i ==> r[x] == KernelTrace(es[x].kernel, SortByStart(es[x].slices))
      invariant forall x :: i <= x < |es| ==> r[x] == es[x]
    {
      r := r[i := KernelTrace(r[i].kernel, SortByStart(r[i].slices))];
    }
  }

  /** The number of partitions, `len(range(array_count))`. */
  function Count(arrayCount: int): nat
  {
    if arrayCount < 0 then 0 else arrayCount
  }

  /** `NonEmpty` over every partition. */
  function DropEach(data: Partitions): Partitions
  {
    seq(|data|, a requires 0 <= a < |data| => NonEmpty(data[a]))
  }

  /** `SortAll` over every partition. */
  function SortEach(data: Partitions): Partitions
  {
    seq(|data|, a requires 0 <= a < |data| => SortAll(data[a]))
  }

  /** The trace every partition holds once the table has been processed. */
  function Processed(table: Table, raw: seq<RawTrace>, catalog: Catalog, arrayCount: int): Partitions
  {
    SortEach(DropEach(Stage(table, raw, catalog, Count(arrayCount), |table|, 0)))
  }

  /** The loop over the table: every kernel key gathers its slices, until a lookup fails. */
  method GatherAll(table: Table, raw: seq<RawTrace>, catalog: Catalog, n: nat)
    returns (r: Result<Partitions, ProcessError>)
    ensures r.Err? <==> Fails(table, raw, catalog, n)
    ensures r.Ok? ==> r.value == Stage(table, raw, catalog, n, |table|, 0)
  {
    var data := EmptyPartitions(table, n);
    StageStart(table, raw, catalog, n);
    for k := 0 to |table|
      invariant data == Stage(table, raw, catalog, n, k, 0)
      invariant forall k' :: 0 <= k' < k ==> !KernelFails(raw, table[k'].1, table[k'].0, catalog, n)
    {
      var res := GatherKernel(table, data, k, raw, catalog, n);
      if res.Err? {
        return Err(res.error);
      }
      data := res.value;
    }
    return Ok(data);
  }

  /** The loop that pops the empty kernels of every partition (from a copy). */
  method DropAllEmpty(data: Partitions) returns (kept: Partitions)
    ensures kept == DropEach(data)
  {
    kept := [];
    for a := 0 to |data|
      invariant kept == seq(a, a' requires 0 <= a' < a => NonEmpty(data[a']))
    {
      var es := DropEmpty(data[a]);
      kept := kept + [es];
    }
  }

  /** The loop that sorts every kernel's list of every partition. */
  method SortAllPartitions(data: Partitions) returns (r: Partitions)
    ensures r == SortEach(data)
  {
    r := data;
    for a := 0 to |data|
      invariant |r| == |data|
      invariant forall a' :: 0 <= a' < a ==> r[a'] == SortAll(data[a'])
      invariant forall a' :: a <= a' < |data| ==> r[a'] == data[a']
    {
      var es := SortEntries(r[a]);
      r := r[a := es];
    }
  }

  /** The body of `process_timing_data` over a kernel-key table. */
  method Reshape(table: Table, raw: seq<RawTrace>, catalog: Catalog, arrayCount: int)
    returns (r: Result<Partitions, ProcessError>)
    ensures r.Err? <==> Fails(table, raw, catalog, Count(arrayCount))
    ensures r.Ok? ==> r.value == Processed(table, raw, catalog, arrayCount)
  {
    var gathered := GatherAll(table, raw, catalog, Count(arrayCount));
    if gathered.Err? {
      return Err(gathered.error);
    }
    var kept := DropAllEmpty(gathered.value);
    var sorted := SortAllPartitions(kept);
    return Ok(sorted);
  }

  /** `process_timing_data`: the reshaped trace, one dict per array id, that the source
    * stores back into the global timing store; `MissingKey` where a dict lookup of the
    * source fails. */
  method ProcessTimingData(raw: seq<RawTrace>, catalog: Catalog, arrayCount: int)
    returns (r: Result<Partitions, ProcessError>)
    ensures r.Err? <==> Fails(KernelKeyList, raw, catalog, Count(arrayCount))
    ensures r.Ok? ==> r.value == Processed(KernelKeyList, raw, catalog, arrayCount)
  {
    r := Reshape(KernelKeyList, raw, catalog, arrayCount);
  }

  // ---- properties of the reshaped trace ----

  /** Every entry of a partition holds slices: those gathered for one kernel key of the
    * table, sorted by start. */
  lemma ProcessedEntries(table: Table, raw: seq<RawTrace>, catalog: Catalog, arrayCount: int, a: nat)
    requires a < Count(arrayCount)
    ensures |Processed(table, raw, catalog, arrayCount)| == Count(arrayCount)
    ensures var p := Processed(table, raw, catalog, arrayCount)[a];
      forall i :: 0 <= i < |p| ==>
        p[i].slices != [] &&
        exists k :: 0 <= k < |table| && p[i].kernel == table[k].0 &&
          p[i].slices == SortByStart(Gathered(raw, table[k].1, table[k].0, catalog, a))
  {
    var g := Stage(table, raw, catalog, Count(arrayCount), |table|, 0)[a];
    var kept := NonEmpty(g);
    var p := Processed(table, raw, catalog, arrayCount)[a];
    NonEmptySpec(g);
    forall i | 0 <= i < |p|
      ensures p[i].slices != [] &&
        exists k :: 0 <= k < |table| && p[i].kernel == table[k].0 &&
          p[i].slices == SortByStart(Gathered(raw, table[k].1, table[k].0, catalog, a))
    {
      assert kept[i] in kept;
      var k :| 0 <= k < |g| && g[k] == kept[i];
      assert p[i] == KernelTrace(g[k].kernel, SortByStart(g[k].slices));
    }
  }

  /** A kernel key keeps an entry in a partition exactly when some slice was gathered for it. */
  lemma ProcessedKeys(table: Table, raw: seq<RawTrace>, catalog: Catalog, arrayCount: int, a: nat, k: nat)
    requires a < Count(arrayCount) && k < |table|
    ensures var ss := Gathered(raw, table[k].1, table[k].0, catalog, a);
      ss != [] <==> KernelTrace(table[k].0, SortByStart(ss)) in Processed(table, raw, catalog, arrayCount)[a]
  {
    var g := Stage(table, raw, catalog, Count(arrayCount), |table|, 0)[a];
    var kept := NonEmpty(g);
    var p := Processed(table, raw, catalog, arrayCount)[a];
    assert p == SortAll(kept);
    var ss := Gathered(raw, table[k].1, table[k].0, catalog, a);
    var e := KernelTrace(table[k].0, SortByStart(ss));
    NonEmptySpec(g);
    assert g[k] == KernelTrace(table[k].0, ss);
    if ss != [] {
      assert g[k] in kept;
      var i :| 0 <= i < |kept| && kept[i] == g[k];
      assert p[i] == e;
    }
    if e in p {
      var i :| 0 <= i < |p| && p[i] == e;
      assert kept[i] in kept;
      assert |SortByStart(ss)| == |kept[i].slices| > 0;
    }
  }

  /** Dropping entries keeps a dict's keys distinct. */
  lemma {:induction false} NonEmptyDistinct(es: seq<KernelTrace>)
    requires DistinctKeys(es)
    ensures DistinctKeys(NonEmpty(es))
  {
    if es != [] {
      var n := |es| - 1;
      var last := es[n];
      assert DistinctKeys(es[..n]);
      NonEmptyDistinct(es[..n]);
      var r := NonEmpty(es[..n]);
      if last.slices != [] {
        assert NonEmpty(es) == r + [last];
        NonEmptySpec(es[..n]);
        forall i | 0 <= i < |r| ensures r[i].kernel != last.kernel {
          assert r[i] in es[..n];
        }
        DistinctKeysSnoc(r, last);
      }
    }
  }

  lemma DistinctKeysSnoc(t: seq<KernelTrace>, e: KernelTrace)
    requires DistinctKeys(t) && forall i :: 0 <= i < |t| ==> t[i].kernel != e.kernel
    ensures DistinctKeys(t + [e])
  {
  }

  /** With no key repeated in the table, every partition is a dict: no kernel key repeats. */
  lemma ProcessedDistinct(table: Table, raw: seq<RawTrace>, catalog: Catalog, arrayCount: int, a: nat)
    requires a < Count(arrayCount)
    requires forall i, j :: 0 <= i < j < |table| ==> table[i].0 != table[j].0
    ensures DistinctKeys(Processed(table, raw, catalog, arrayCount)[a])
  {
    var g := Stage(table, raw, catalog, Count(arrayCount), |table|, 0)[a];
    assert forall k :: 0 <= k < |g| ==> g[k].kernel == table[k].0;
    NonEmptyDistinct(g);
    var kept := NonEmpty(g);
    var p := Processed(table, raw, catalog, arrayCount)[a];
    assert p == SortAll(kept);
    assert forall i :: 0 <= i < |p| ==> p[i].kernel == kept[i].kernel;
  }

  // ---- calculate_IMEM_sizes ----

  /** The `i`-th capacity of the sweep, in IMEM lines. */
  function ImemLines(i: nat): int
  {
    320 + i * 64
  }

  /** The sweep's capacities for `range(count)`: in bits, in lines and in kilobytes. */
  function ImemSweep(count: int): (seq<int>, seq<int>, seq<real>)
  {
    var n := Count(count);
    (seq(n, i requires 0 <= i < n => ImemLines(i) * 8),
     seq(n, i requires 0 <= i < n => ImemLines(i)),
     seq(n, i requires 0 <= i < n => (ImemLines(i) * 8) as real / 1024.0))
  }

  /** The capacities start at 320 lines and grow by 64 lines (512 bits) per step; the three
    * lists describe the same capacities. */
  lemma ImemSweepSpec(count: int)
    ensures var (bits, lines, kb) := ImemSweep(count);
      |bits| == |lines| == |kb| == Count(count) &&
      (bits != [] ==> bits[0] == 2560 && lines[0] == 320) &&
      (forall i :: 0 < i < |bits| ==> bits[i] == bits[i - 1] + 512 && lines[i] == lines[i - 1] + 64) &&
      (forall i :: 0 <= i < |bits| ==> bits[i] == lines[i] * 8 && kb[i] * 1024.0 == bits[i] as real) &&
      forall i, j :: 0 <= i < j < |bits| ==> bits[i] < bits[j]
  {
  }

  /** The global capacity lists `calculate_IMEM_sizes` appends to. */
  class ImemSizeLists {
    var bits: seq<int>
    var lines: seq<int>
    var kilobytes: seq<real>

    constructor()
      ensures bits == [] && lines == [] && kilobytes == []
    {
      bits, lines, kilobytes := [], [], [];
    }

    /** `calculate_IMEM_sizes`: appends the sweep's capacities to the three lists and returns
      * them. */
    method CalculateImemSizes(count: int) returns (b: seq<int>, l: seq<int>, kb: seq<real>)
      modifies this
      ensures (bits, lines, kilobytes) ==
        (old(bits) + ImemSweep(count).0, old(lines) + ImemSweep(count).1, old(kilobytes) + ImemSweep(count).2)
      ensures (b, l, kb) == (bits, lines, kilobytes)
    {
      var n := Count(count);
      ghost var sweep := ImemSweep(count);
      for i := 0 to n
        invariant bits == old(bits) + sweep.0[..i]
        invariant lines == old(lines) + sweep.1[..i]
        invariant kilobytes == old(kilobytes) + sweep.2[..i]
      {
        assert sweep.0[..i + 1] == sweep.0[..i] + [ImemLines(i) * 8];
        assert sweep.1[..i + 1] == sweep.1[..i] + [ImemLines(i)];
        assert sweep.2[..i + 1] == sweep.2[..i] + [(ImemLines(i) * 8) as real / 1024.0];
        bits := bits + [(320 + i * 64) * 8];
        lines := lines + [320 + i * 64];
        kilobytes := kilobytes + [((320 + i * 64) * 8) as real / 1024.0];
      }
      assert sweep.0[..n] == sweep.0 && sweep.1[..n] == sweep.1 && sweep.2[..n] == sweep.2;
      return bits, lines, kilobytes;
    }
  }
}
