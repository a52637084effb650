# K-PACT greedy clustering and placement, modelled in Dafny

K-PACT maps the kernels of a signal-processing application onto a coarse-grained
array of processing elements (PEs). A timing trace records, for each kernel, the
intervals (slices) during which it is active. The core modelled here takes that
trace and does four things:

- **Reshapes the trace** (`utils.py`). `process_timing_data` reshapes the raw trace into one
  dict per array, keyed by kernel. Each entry holds the slices whose shape matches the
  kernel's personality, sorted by start time. `calculate_IMEM_sizes` lists the
  instruction-memory (IMEM) capacities of the sweep.
- **Clusters the kernels** (`greedy_clustering/clustering.py`). The kernels are put into
  clusters (bins) of slices that never overlap in time. Each bin is seeded with the kernel
  of highest pairwise non-overlap ranking. The bin is then grown with every compatible
  slice of the other kernels.
- **Redistributes by capacity.** Any bin whose summed IMEM footprint exceeds the capacity
  is split. Its first kernels move, with all of their slices, into fresh bins.
- **Places the bins** (`greedy_clustering/placement.py`). Each bin is represented by its
  anchor rectangle: the largest height and width among its kernels. The anchors are placed
  on a grid of fixed width in first-fit row-major order, and the grid grows by rows as
  needed. Bins are placed in descending anchor area.

`data_structures.py` supplies the slice, the timing-trace store and the cluster.

The model has seven modules:

| module | file | what it models |
|---|---|---|
| `Wrappers` | `wrappers.dfy` | `Option` and `Result` |
| `Lists` | `lists.dfy` | Python's stable `sorted`, index picking and permutations |
| `DataStructures` | `data_structures.dfy` | `data_structures.py` |
| `Clustering` | `clustering.dfy` | conflicts, ranking, seeding, growth, `main_binning` |
| `Redistribution` | `redistribution.dfy` | `bin_redistribution`, `redistribution` |
| `Placement` | `placement.dfy` | `placement.py` |
| `Utils` | `utils.dfy` | the core of `utils.py` |

How the Python is represented:

- **Dicts.** A Python dict keeps insertion order, so it is modelled as a sequence of
  entries with distinct keys. A dict keyed by `0, 1, ...` (bins, arrays) is a sequence
  whose position is the key.
- **Globals.**
  - The timing store `common.timing_data`, which the functions mutate, is a `TimingData`
    object passed in.
  - `common.personality_dict` is a `Catalog` map passed in.
  - `common.homogeneous` is a boolean parameter.
  - The grid `place_kernel` grows is a `Grid` object.
- **Errors.** Every `exit()` and every failing dict lookup or string concatenation becomes
  an `Err` result. So does the out-of-range index that drawing a placement raises when a
  rectangle reaches outside the trimmed grid (`OffGrid`).

## Model

| member | source | states |
|---|---|---|
| DataStructures.TimingData.AddNewData | data_structures.py:19-23 | the kernel's list gains the slice at its end; no other list changes; a new kernel becomes the last key; the slice count grows by one; keys stay distinct |
| DataStructures.TimingData.Length | data_structures.py:33-37 | the result is the number of slices over all kernels |
| DataStructures.Cluster.constructor | data_structures.py:44-65 | omitted kernels and slices default to empty lists, an omitted IMEM layer to -1 |
| DataStructures.Cluster.ExtendCluster | data_structures.py:67-69 | kernels and slices are extended at their ends by the given lists |
| DataStructures.Cluster.ExtendKernels | data_structures.py:71-72 | kernels are extended at the end by the given list |
| DataStructures.ClusterList.constructor | data_structures.py:80-81 | a new cluster list is empty |
| Clustering.CheckConflict | greedy_clustering/clustering.py:11-25 | two half-open intervals conflict exactly when each starts before the other ends (touching intervals do not) |
| Clustering.CheckConflictSliceVsSlices | greedy_clustering/clustering.py:27-40 | true exactly when some slice of the list conflicts with the interval |
| Clustering.CheckOverlapV2 | greedy_clustering/clustering.py:193-204 | the same test as `check_conflict`, and symmetric in its arguments |
| Clustering.OverlapsFrom | greedy_clustering/clustering.py:216 | the position pairs `(i, j)`, `i < j`, of exactly the overlapping slices, each once, in the order of the two nested loops |
| Clustering.FindOverlapsForBin | greedy_clustering/clustering.py:206-216 | the list holds the slice pairs at the positions the nested loops visit, in their order, and is empty exactly when no two slices of the bin overlap |
| Clustering.OverlapsFromEmpty | greedy_clustering/clustering.py:216 | no position pair is listed exactly when no two slices overlap |
| Clustering.FindOverlapsForBinPairs | greedy_clustering/clustering.py:206-216 | a pair is listed exactly when it is the pair of slices at two positions `i < j` that overlap |
| Clustering.HasDuplicates | greedy_clustering/clustering.py:100-110 | true exactly when two positions of the list hold the same value |
| Clustering.CheckOverlapWithinPersonality | greedy_clustering/clustering.py:68-98 | an empty list is the error exit; otherwise the accepted positions are those of the greedy scan, and the accepted slices are the slices at those positions |
| Clustering.GreedyScanAccepted | greedy_clustering/clustering.py:88-96 | the scan accepts position 0 first, then strictly increasing positions, each starting at or after the end of the slice accepted before it |
| Clustering.GreedyScanRejected | greedy_clustering/clustering.py:88-96 | every position the scan rejects starts before the end of the slice accepted last before it |
| Clustering.WithinPersonalityNoConflicts | greedy_clustering/clustering.py:68-98 | the slices accepted from a list of proper intervals never overlap |
| Clustering.SortedByEndCorrect | greedy_clustering/clustering.py:56 | sorting by end keeps the same multiset of slices and puts the ends in non-decreasing order |
| Clustering.MaxNonOverlappingSound | greedy_clustering/clustering.py:42-66 | the earliest-finish set is non-empty, sorted by end, pairwise non-overlapping, and drawn from the input without repetition |
| Clustering.GreedyFromMaximal | greedy_clustering/clustering.py:62-65 | over slices sorted by end and of positive length, the greedy scan from a position keeps at least as many slices as any non-overlapping selection from the rest that starts after the last end |
| Clustering.MaxNonOverlappingMaximal | greedy_clustering/clustering.py:42-66 | over slices of positive length, no non-overlapping selection from the input is larger than the earliest-finish set: it is a maximum set, as the docstring promises |
| Clustering.MaxNonOverlappingZeroLength | greedy_clustering/clustering.py:56-65 | with a zero-length slice the earliest-finish set can be smaller than a non-overlapping pair: `[5,5)` and `[0,5)` do not overlap, yet only one is kept |
| Clustering.FindMaxNonOverlappingSet | greedy_clustering/clustering.py:42-66 | two empty lists are the error exit; otherwise the result is the earliest-finish set of both lists together |
| Clustering.PairScoresAt | greedy_clustering/clustering.py:131-140 | each entry of the score matrix is the score of its pair of kernels |
| Clustering.PairScoreBound | greedy_clustering/clustering.py:136-140 | a pair scores at most both lists together, and never exactly the length of either list |
| Clustering.RankingZero | greedy_clustering/clustering.py:112-141 | a kernel ranks zero exactly when none of its pairs with another kernel scores |
| Clustering.GetNewMaxNonOverlappingSet | greedy_clustering/clustering.py:112-141 | the ranking of every kernel is the sum of the scores of its pairs with every other kernel |
| Clustering.SeedIsFirstMax | greedy_clustering/clustering.py:290-293 | the seed has the highest ranking, and every kernel before it in insertion order ranks strictly lower |
| Clustering.SeedTake | greedy_clustering/clustering.py:294-296 | taking the seed's accepted slices out of the store keeps the keys, removes exactly those slices and at least one, and the taken slices do not conflict |
| Clustering.PutHighestRankedPersToBin | greedy_clustering/clustering.py:266-296 | the new cluster holds the seed kernel and its accepted slices; the store keeps its keys and loses exactly those slices; the cluster is conflict-free when the store's slices are proper intervals |
| Clustering.AbsorbIncreasing | greedy_clustering/clustering.py:169-191 | the absorbed positions strictly increase |
| Clustering.AbsorbNoConflicts | greedy_clustering/clustering.py:169-191 | absorbing keeps a conflict-free cluster conflict-free |
| Clustering.AbsorbSaturates | greedy_clustering/clustering.py:169-191 | every slice not absorbed conflicts with the grown cluster |
| Clustering.CheckOverlapOfBinWithOthersOnlyOne | greedy_clustering/clustering.py:169-191 | the remove list is the absorbed positions; the non-overlap list is the slices at those positions; the cluster's slices become the old slices followed by them |
| Clustering.Compatible | greedy_clustering/clustering.py:161-163 | a slice is kept exactly when it is in the list and conflicts with no slice of the cluster |
| Clustering.CheckOverlapOfBinWithOthers | greedy_clustering/clustering.py:143-167 | nothing for an empty store or a cluster without slices; otherwise one candidate per kernel outside the cluster, in store order, each holding its compatible slices |
| Clustering.CandidatesComplete | greedy_clustering/clustering.py:143-167 | every kernel of the store outside the cluster is a candidate when the store and the cluster's slices are non-empty |
| Clustering.WithinSizeRatio | greedy_clustering/clustering.py:241-245 | the integer test holds exactly when 0.5 <= seed_size / kernel_size <= 2.0 over the reals |
| Clustering.DropEmptyKeysKeeps | greedy_clustering/clustering.py:264 | dropping the emptied keys keeps the keys distinct and every slice |
| Clustering.DropEmptyKeysSlicesOf | greedy_clustering/clustering.py:264 | dropping the emptied keys leaves every kernel's list of slices unchanged |
| Clustering.VisitCandidates | greedy_clustering/clustering.py:236-251 | the remove dict and the grown slices are those of the growth pass; the cluster's kernels gain the kernels of the remove dict in visiting order |
| Clustering.ApplyRemoveDict | greedy_clustering/clustering.py:253-257 | each listed kernel's list loses exactly the positions its remove list names |
| Clustering.FillPassSummary | greedy_clustering/clustering.py:218-264 | the cluster's slices only grow and stay conflict-free; its kernels stay distinct; the store left has distinct old keys and no empty list, and lost exactly the slices the cluster gained |
| Clustering.FillBinNoConflicts | greedy_clustering/clustering.py:218-264 | a conflict-free cluster stays conflict-free through the pass |
| Clustering.FillBinKernels | greedy_clustering/clustering.py:218-264 | the kernels the pass adds are keys of the store, outside the cluster, and distinct |
| Clustering.FillBinConserves | greedy_clustering/clustering.py:218-264 | cluster and store together hold exactly the slices they held before |
| Clustering.FillBinUntouched | greedy_clustering/clustering.py:218-264 | a kernel the cluster took nothing from keeps its whole list |
| Clustering.FillBinSaturates | greedy_clustering/clustering.py:218-264 | every slice left under a kernel outside the cluster that the size filter does not skip conflicts with the grown cluster |
| Clustering.FillBinWithOverlaps | greedy_clustering/clustering.py:218-264 | succeeds exactly when the cluster's slices before the pass are conflict-free; then the cluster grows conflict-free, the store keeps distinct old keys with no empty list, and no slice is lost or duplicated |
| Clustering.UnlimitedImemBinning | greedy_clustering/clustering.py:298-337 | appends bin `binId` seeded by the store's highest-ranked kernel, whose kernels and slices begin with that kernel and its earliest-finish picks; returns `binId + 1`; the store shrinks by exactly the bin's slices; succeeds whenever the store's slices are proper intervals |
| Clustering.BinningRound | greedy_clustering/clustering.py:394-395 | one round keeps the bins-so-far invariant and strictly shrinks the store |
| Clustering.MainBinning | greedy_clustering/clustering.py:379-397 | empties the store; each bin has its own id, seed first, no repeated kernel and no overlap; the bins hold exactly the original slices; the count taken before binning is returned |
| Redistribution.DrainSpec | greedy_clustering/clustering.py:363-370 | draining moves a prefix of the kernels, in order, with their slices and footprints; leaves the source within capacity and non-empty; fails exactly for a negative capacity |
| Redistribution.DrainOwned | greedy_clustering/clustering.py:364-369 | every slice stays in the bin of its kernel |
| Redistribution.FindOverCapacity | greedy_clustering/clustering.py:356-359 | stops at the first bin over capacity, or runs off the end when every bin is within capacity |
| Redistribution.DrainBin | greedy_clustering/clustering.py:362-370 | the inner loop's result is the drain into a fresh empty bin, or the pop-from-empty error |
| Redistribution.Redistribute | greedy_clustering/clustering.py:355-375 | a result is within capacity and every bin stays well formed |
| Redistribution.RedistributeFails | greedy_clustering/clustering.py:355-375 | redistribution fails exactly when the capacity is negative and there is a bin |
| Redistribution.RedistributeConserves | greedy_clustering/clustering.py:355-375 | the bins keep the same slices, the same kernels and the same summed footprint |
| Redistribution.RedistributeNoOp | greedy_clustering/clustering.py:374-375 | bins already within capacity are returned unchanged |
| Redistribution.RedistributeKeepsSuffix | greedy_clustering/clustering.py:361-365 | the original bins keep a suffix of their kernels, and new bins come only after them |
| Redistribution.RedistributeNoConflicts | greedy_clustering/clustering.py:355-375 | splitting conflict-free bins never creates an overlap |
| Redistribution.RedistributeOwned | greedy_clustering/clustering.py:355-375 | slices stay with the bin of their kernel |
| Redistribution.CopyBinsSlices | greedy_clustering/clustering.py:352 | the copied bins hold the slices the clusters hold |
| Redistribution.BinRedistribution | greedy_clustering/clustering.py:339-377 | the result is the redistribution of the copied bins; the clusters are not modified |
| Redistribution.CheckBins | greedy_clustering/clustering.py:422-430 | rejects a result while the store holds kernels or a bin holds overlapping slices, and accepts it otherwise |
| Redistribution.RedistributedSpec | greedy_clustering/clustering.py:399-434 | an accepted result is within capacity, conflict-free and holds the original slices, kernels and footprint; conflict-free bins with an empty store and a positive capacity are always accepted |
| Redistribution.Redistribution | greedy_clustering/clustering.py:399-434 | capacity 0 is the unbound-bins error; otherwise the checked redistribution of the copied clusters, whose accepted bins hold exactly the clusters' slices |
| Placement.Grid.constructor | greedy_clustering/placement.py:133 | a new grid has no rows |
| Placement.Grid.PlaceAt | greedy_clustering/placement.py:67-83 | the rectangle's cells hold the name and every other cell is unchanged |
| Placement.FitFromSpec | greedy_clustering/placement.py:47-65 | the scan finds a position where the rectangle fits and no earlier position fits; when it finds none, no position fits |
| Placement.Grid.Scan | greedy_clustering/placement.py:26-31 | the two nested loops find the first row-major position where the rectangle fits |
| Placement.Grid.PlaceKernel | greedy_clustering/placement.py:9-45 | the grid and the position are those of the first-fit placement, growing by `h` rows once when nothing fits |
| Placement.PlaceKernelSpecProps | greedy_clustering/placement.py:9-45 | grows by `h` rows exactly when the rectangle does not fit as it is; overwrites no named cell; a fitting rectangle is painted on free cells and nothing else changes; one wider than the grid is not painted and sits at column 0 of the grown height |
| Placement.FindFactors | greedy_clustering/placement.py:128-129 | fails exactly for `k < 1`; otherwise a factor pair `i * j == k` with `1 <= i <= j`, where `i` is the largest divisor not above the square root |
| Placement.FactorsClosest | greedy_clustering/placement.py:129 | the divisor found counting down from the integer square root divides `k`, lies at or below the root, and no larger divisor does |
| Placement.AnchorUpToSpec | greedy_clustering/placement.py:138-148 | the anchor is the largest height and the largest width among the members; each name is present exactly when its maximum is positive, and names the first member reaching it |
| Placement.AnchorOf | greedy_clustering/placement.py:141-147 | the loop computes the anchor of the members |
| Placement.TrimSpec | greedy_clustering/placement.py:154 | trimming keeps exactly the rows that hold a name |
| Placement.PlaceAllSpec | greedy_clustering/placement.py:137-152 | placing every bin's anchor with `place_kernel` in turn keeps the grid `width` wide, never shrinks it, and gives one position per bin |
| Placement.PlaceAllSpecStep | greedy_clustering/placement.py:137-152 | placing one more bin extends that fold by one `place_kernel` step |
| Placement.PlaceBin | greedy_clustering/placement.py:138-152 | fails exactly when the anchor has no name, leaving the grid as it was; otherwise the grid and position are those of `place_kernel` for the anchor named `tallest-widest`, and the placement stays well formed |
| Placement.PlaceBins | greedy_clustering/placement.py:137-152 | fails exactly when some bin has no anchor name; otherwise the grid and the positions are those of placing the bins in order by first fit, one location per bin with its size and anchor, all rectangles separated and occupied |
| Placement.DescribeMembers | greedy_clustering/placement.py:159-160 | one record per member, in member order |
| Placement.Describe | greedy_clustering/placement.py:155-160 | with distinct coordinates, each bin keeps its location and is described by its members' records |
| Placement.DistinctCoordinates | greedy_clustering/placement.py:151-158 | two placed bins never share a coordinate key |
| Placement.TrimmedEmpty | greedy_clustering/placement.py:154-162 | the trimmed grid is empty exactly when no anchor fits the width; otherwise its rows are the grid's width |
| Placement.PlaceToArrayGivenCount | greedy_clustering/placement.py:131-170 | fails on a missing anchor name; on an empty grid exactly when no anchor fits the width; with the off-grid error exactly when every bin is anchored, some anchor fits and another does not (the drawing step then indexes outside the grid); never takes the missing-bins exit; otherwise every anchor fits and every rectangle lies inside the reported size, every bin is described in order at the first-fit positions of placing them in that order, rectangles are separated, and the size is `(rows, width)` where rows is the row count of the trimmed first-fit grid |
| Placement.CheckDrawable | greedy_clustering/placement.py:101-112 | the drawing loop stays inside the grid exactly when every non-empty rectangle lies within the grid size |
| Placement.DrawableExactly | greedy_clustering/placement.py:154-164 | on the trimmed first-fit grid, every placed rectangle is drawable exactly when every anchor fits the width |
| Placement.PackedTrim | greedy_clustering/placement.py:154 | on a grid whose free rows all come after its used rows, trimming keeps every used row |
| Placement.PackedPlace | greedy_clustering/placement.py:9-45 | placing a non-empty kernel that fits keeps the free rows after the used rows |
| Placement.FoldPacked | greedy_clustering/placement.py:137-152 | when every anchor fits, the first-fit grid of all bins keeps its free rows after its used rows |
| Placement.AreasOf | greedy_clustering/placement.py:186-198 | every bin's anchor area, or failure exactly when an anchor has no name |
| Placement.InAreaOrder | greedy_clustering/placement.py:205 | descriptions in the sorted order come in non-increasing anchor area |
| Placement.SortedSame | greedy_clustering/placement.py:199-232 | reordering the bins keeps whether all are anchored, whether some anchor fits and whether every anchor fits |
| Placement.Place | greedy_clustering/placement.py:172-236 | every input bin is placed exactly once, in non-increasing anchor area with ties in input order; fails exactly as the fixed-order placement does (missing anchor name, no anchor fits, some but not every anchor fits); on success every anchor fits and every rectangle lies inside the reported size; positions and size are those of the first-fit placement of the sorted bins, size reported as `(width, rows)` of its trimmed grid |
| Utils.SortByStartSpec | utils.py:50-54 | sorting by `custom_key` keeps the slices, puts the starts in ascending order, and keeps equal starts in input order |
| Utils.MatchingOrigin | utils.py:70-74 | a slice is emitted for a kernel and an array exactly when some raw item of that array has the kernel's catalog shape; it carries the kernel's name and shape |
| Utils.GatheredOrigin | utils.py:67-74 | a slice is gathered for a kernel exactly when one of the raw keys listed for it contributes the slice |
| Utils.AppendMatching | utils.py:70-74 | fails exactly when the kernel is missing from the catalog or a matching item names a missing array; otherwise appends every matching item to its array |
| Utils.GatherKernel | utils.py:67-74 | one kernel key's raw keys are gathered, with the same failure conditions |
| Utils.EmptyPartitions | utils.py:60-65 | every array id holds every key of the table with an empty list |
| Utils.GatherAll | utils.py:56-74 | fails exactly under the lookup failures; otherwise every kernel key of the table is gathered |
| Utils.NonEmptySpec | utils.py:78-81 | exactly the entries with slices survive, in order |
| Utils.NonEmptyDistinct | utils.py:78-81 | dropping entries keeps a dict's keys distinct |
| Utils.DropEmpty | utils.py:78-81 | one partition loses its empty entries |
| Utils.DropAllEmpty | utils.py:76-83 | every partition loses its empty entries |
| Utils.SortEntries | utils.py:88-89 | every entry of a partition is sorted by start |
| Utils.SortAllPartitions | utils.py:87-89 | every entry of every partition is sorted by start |
| Utils.Reshape | utils.py:56-89 | fails exactly under the lookup failures; otherwise the processed trace |
| Utils.ProcessTimingData | utils.py:56-89 | the same, over the kernel-key table of the source |
| Utils.ProcessedEntries | utils.py:56-89 | one partition per array id; each entry is non-empty and is the start-sorted gathered slices of one table key |
| Utils.ProcessedKeys | utils.py:56-89 | a kernel key keeps an entry in a partition exactly when some slice was gathered for it there |
| Utils.ProcessedDistinct | utils.py:56-89 | with distinct table keys, no kernel key repeats in a partition |
| Utils.ImemSweepSpec | utils.py:152-157 | the capacities start at 320 lines (2560 bits) and grow by 64 lines (512 bits) per step; bits are 8 times lines and 1024 times kilobytes; the lists strictly increase |
| Utils.ImemSizeLists.CalculateImemSizes | utils.py:152-157 | the three lists gain the sweep's capacities at their ends and are returned |

## Left out

- The `ED_kurtosis_mode` branches of `put_highest_ranked_pers_to_bin`, `unlimited_IMEM_binning`
  and `place` are not modelled; only the default mode is. These branches hard-code the kernel names
  `energy_detect1_0` and `Kurtosis_0`.
- `visualize_placement`: only its index bounds are modelled (Placement.CheckDrawable, the off-grid error).
  The image it draws and the file it writes are left out.
- `preprocess` is not modelled; it reads files. `IMEM_area_calculation`, `PE_array_area_calculation`
  and `row_buffer_area_calculation` are floating-point cost formulas and are not modelled. The `print_*`
  helpers are output only.
- `main.py` and the sweep scripts are callers, not part of this model.
- Python's `print` output before each `exit()` is not modelled. Each `exit()` is an `Err` value.
- `redistribution` compares `asum` with `bsum` only to assign an unused variable, so that check is
  left out. Conservation of slices is proved instead.
- `place_to_array_given_count` fills `slices_to_append`, but nothing reads it, so it is left out.
- Placement.Place: grouping the bins by anchor area and then sorting the groups by descending area
  is modelled as one stable sort by descending area. The two are the same order.
- Placement.FindFactors: `int(math.sqrt(k))` is modelled as the exact integer square root. Floating
  point rounding for very large `k` is not modelled.
- Clustering.HasDuplicates: the duplicate check in `fill_bin_with_overlaps` is modelled, but its
  `exit()` cannot fire, because remove lists are strictly increasing.
- Clustering.WithinSizeRatio: the real-valued ratio test is computed over integers and proved equal
  to the real test. A kernel of area 0, where the source would divide by zero, is excluded by the
  requirement below.
- Clustering.MainBinning, Clustering.UnlimitedImemBinning and Clustering.FillBinWithOverlaps: with
  the homogeneous filter on, they require every kernel in the catalog and every size-tested kernel
  to have a non-zero area. The source would raise `KeyError` or `ZeroDivisionError` otherwise.
- Clustering.MaxNonOverlappingMaximal: maximality is proved for slices of positive length only. A
  zero-length slice can make the earliest-finish set smaller than a maximum one, as
  Clustering.MaxNonOverlappingZeroLength shows; timing slices are expected to have positive length.
- Clustering.FillBinWithOverlaps, Clustering.UnlimitedImemBinning and Clustering.MainBinning: the
  fill's contract states the pass's summary (growth, conservation, no conflicts) rather than the
  exact new state. The exact state is stated on Clustering.VisitCandidates and
  Clustering.ApplyRemoveDict, which the fill calls. The two binning methods inherit this: they state
  the seed exactly but not which slices the fill adds after it.
- Redistribution.BinRedistribution: it requires every kernel in the catalog and every kernel to fit
  the capacity on its own. Otherwise the source loops forever or raises `KeyError`. Under a negative
  capacity only bins with no kernels meet this, and such a bin takes the modelled pop-from-empty
  error.
- Placement.PlaceToArrayGivenCount and Placement.Place require every member kernel to be in the
  catalog, where the source would raise `KeyError`.
- Redistribution.Redistribution: `copy.deepcopy` of the clusters is modelled by reading their
  values on entry; object identity of the copies is not modelled.
- Utils.ProcessTimingData:
  - The timing store is reassigned as a global in the source. Here the method returns the new
    value.
  - `custom_key`'s branch for list items is not modelled, because the store holds only `Slice`
    objects. Times are integers here.
  - The `int(...)` conversions of subband and shape width are identities on integers.
  - `KeyError` on a missing personality and on an array id out of range is the `MissingKey` error.
- Utils.ProcessedDistinct takes distinct table keys as a premise. It does not prove this over the
  35-entry literal, which is a Python dict literal and therefore has distinct keys.
