# Storage and index introspection of a MongoDB server, modelled in Dafny

This project models two diagnostic commands of the MongoDB server, together
with the streaming quantile estimator they use for their statistics.

- **`storageDetails`** splits an extent into chunks and reports aggregates
  for each chunk.
  - The `diskStorage` analysis reports, per chunk: the live records' share,
    their bytes, and the share of deleted records on each free list.
  - The `memInCore` analysis reports, per chunk, the fraction of its pages
    that the operating system holds in memory.
- **`indexStats`** does two things:
  - It walks an index's B-tree and collects per-tree, per-level and
    per-expanded-node statistics.
  - On request, it sums up the index's extents in wrapping `unsigned int`
    accumulators.
- **`DistributionEstimators`** is the P² (piecewise-parabolic) quantile
  estimator. It keeps `2Q+3` markers: their heights, their actual positions
  and their desired positions.
- **`ceilingDiv`** is the rounded-up unsigned division that the chunk plan
  and the page count rely on.

Each module follows one source component:

| module | component |
|---|---|
| `Common` | C++ `int` and `unsigned` arithmetic, and truncating division |
| `MongoMath` | `ceilingDiv` |
| `StorageParams` | the subcommand names, the extent lookup, and the chunk plan of `runInternal` |
| `RecordPosition` | `RecPos::from` and the `ChunkIterator` class |
| `DiskStorage` | `DiskStorageData`, `processRecord`, `processDeletedRecord`, `analyzeDiskStorage`, `analyzeMemInCore` and `runInternal` |
| `BtreeModel` | the B-tree walk as a function over tree values |
| `IndexStats` | the `BtreeStats` and `BtreeInspector` classes, which perform that walk in place, and the command's `runInternal` |
| `DescriptiveStats` | the estimator class, its update step and its accessors |

How the source's behaviour is represented:

- **Signed 32-bit overflow.** Signed overflow is undefined in C++. Here it
  becomes an explicit `Err(SignedOverflow)`.
- **Unsigned arithmetic.** It wraps modulo 2^32.
- **Division.** C++ division truncates toward zero. It is written out as
  `TruncDiv`.
- **Record placement.** The `diskStorage` analysis takes a flag,
  `asWritten`. When it is true, records are placed with the program's
  truncating `RecPos::from`. When it is false, they are placed with the
  corrected floor division of the finding below. Every contract of the
  analysis holds for both, and the two differ only for records that start
  before `startOfs`.
- **Streaming estimator.** It is a class over three arrays. Its
  steady-phase step is specified by the value-level function `SteadyStep`,
  and an invariant, `SteadyState`, is proved to be preserved by every step.
  The invariant states:
  - the heights are sorted;
  - the end markers are the exact minimum and maximum of the samples seen;
  - the positions are strictly increasing, from 1 to the sample count;
  - every desired position is its target rank.

Where the header comment and the code disagree, the model follows the code:

- **`icdf`.** The header comment says it returns the quantile "with
  probability < prob". The code truncates `prob*(Q+1)`. It therefore
  returns quantile `k` for every `prob` in `[k/(Q+1), (k+1)/(Q+1))`,
  including `prob == k/(Q+1)` itself (`IcdfPicksBand`).
- **`median()` for even `Q`.** It reads marker `Q`, whose desired position
  lies below the median rank (`MedianMarker`). Only for odd `Q` does it
  read the marker that tracks rank `(n+1)/2`. The statistics in
  `index_stats.cpp` use `Q = 99`, so they read the central marker.

## Model

| member | source | states |
|---|---|---|
| `Common.TruncDiv` | src/mongo/db/commands/storage_details.cpp:379-380 | The quotient truncates toward zero. For a non-negative dividend the remainder lies in `[0, abs(b))`. For a negative one it lies in `(-abs(b), 0]`. |
| `Common.TruncDivOfNonNegative` | src/mongo/db/commands/storage_details.cpp:379-380 | For a non-negative dividend and a positive divisor, C++ division agrees with floor division. |
| `Common.Checked` | src/mongo/db/commands/storage_details.cpp:370-371 | A 32-bit `int` operation gives its exact value exactly when that value fits. Otherwise it is an overflow. |
| `Common.ToU32` | src/mongo/db/commands/storage_details.cpp:752 | Converting `int` to `unsigned` keeps a non-negative value and adds 2^32 to a negative one. |
| `Common.ToI32` | src/mongo/db/commands/storage_details.cpp:752 | Converting `unsigned` back to `int` keeps values up to `INT_MAX`. Larger values become negative, congruent modulo 2^32. |
| `MongoMath.CeilingDiv` | src/mongo/util/mongoutils/math.h:27-29 | When `dividend + divisor - 1` does not wrap, the result is the least `q` with `q * divisor >= dividend`. |
| `MongoMath.CeilingDivOfMultiple` | src/mongo/util/mongoutils/math.h:27-29 | An exact multiple `k*b` divides back to `k`. In particular `ceilingDiv(0, b) == 0`. |
| `MongoMath.CeilingDivMonotone` | src/mongo/util/mongoutils/math.h:27-29 | For a fixed divisor and no wrap, a larger dividend never gives a smaller quotient. |
| `MongoMath.CeilingDivWrapsBelow` | src/mongo/util/mongoutils/math.h:22-29 | The header's overflow warning: once the numerator wraps, `q * divisor` falls short of the dividend. |
| `MongoMath.CeilingDivWrapExample` | src/mongo/util/mongoutils/math.h:22-29 | A concrete wrap: `ceilingDiv(2^32 - 1, 2) == 0`. |
| `StorageParams.SubCommandFromStr` | src/mongo/db/commands/storage_details.cpp:327-337 | `"diskStorage"` maps to `1 << 0` and `"memInCore"` to `1 << 1`, each in both directions. Every other name maps to 0. |
| `StorageParams.GetExtentNum` | src/mongo/db/commands/storage_details.cpp:560-572 | The result is the `extentNum`-th extent when it exists. It is none for a short list or a negative number. |
| `StorageParams.PlanShape` | src/mongo/db/commands/storage_details.cpp:742-754 | A plan with a positive length and granularity has the range clamped to `[max(0, start), min(end, extent length))`. Its chunks tile that range, and the last chunk holds between 1 and granularity bytes. |
| `StorageParams.ChunkCountTiles` | src/mongo/db/commands/storage_details.cpp:752-754 | The chunk count is `ceilingDiv(length, granularity)` and lies in `[1, length]`. `lastChunkLength` lies in `[1, granularity]`. |
| `StorageParams.PlanFromGranularity` | src/mongo/db/commands/storage_details.cpp:742-754 | An explicit positive granularity over a non-empty range always yields a usable plan, and that plan keeps the granularity. |
| `StorageParams.PlanFromChunkCount` | src/mongo/db/commands/storage_details.cpp:748-754 | A requested chunk count over a non-empty range yields a usable plan with at most that many chunks. |
| `StorageParams.GranularityForCount` | src/mongo/db/commands/storage_details.cpp:749-750 | `(length + n - 1) / n` is the rounded-up share of the length: at least 1, and n of them cover the length. |
| `RecordPosition.Place` | src/mongo/db/commands/storage_details.cpp:381-393 | For given first and last chunk numbers, the position has the following properties. (1) The first chunk gets the bytes up to its end. (2) Middle chunks get one granularity each. (3) The last chunk gets the rest, clamped at 0. (4) Every ratio is its byte count over the record length. (5) Nothing is negative once the first chunk ends after the record's start. |
| `RecordPosition.FromAsWritten` | src/mongo/db/commands/storage_details.cpp:367-395 | `RecPos::from` with truncating division. A record is out of range exactly when it ends before `startOfs` or starts at or after `endOfs`. Chunk numbers are the truncated quotients, and sizes and ratios are as in `Place`. |
| `RecordPosition.From` | src/mongo/db/commands/storage_details.cpp:367-395 | Corrected `from`, with floor division. It has the same range test and sizes, and the chunk numbers are the chunks of the record's first byte and of its end. |
| `RecordPosition.Placement` | src/mongo/db/commands/storage_details.cpp:367-395 | The placement the analyses use: `asWritten` selects the program's truncating `from` or the corrected one. Either way, a record is out of range exactly when `from` says so, the chunk count is the plan's, nothing is negative, and the only error is an overflow. For records starting at or after `startOfs`, the two agree. |
| `RecordPosition.FromAgreesInRange` | src/mongo/db/commands/storage_details.cpp:379-380 | For records starting at or after `startOfs`, the as-written and the corrected `from` are equal. |
| `RecordPosition.SingleChunkGetsWholeRecord` | src/mongo/db/commands/storage_details.cpp:381-383 | A record whose first and last chunk coincide gets all its bytes in that chunk, also as written. |
| `RecordPosition.ChunksVisitedExactlyCovered` | src/mongo/db/commands/storage_details.cpp:397-436 | The chunks the iterator visits are strictly increasing. A chunk is visited exactly when it lies in `[max(first, 0), min(last, numberOfChunks - 1)]` of an in-range position. |
| `RecordPosition.SizeIsOverlap` | src/mongo/db/commands/storage_details.cpp:379-392 | With floor chunk numbers, the size reported for chunk `c` is exactly the number of the record's bytes inside `[c*g, (c+1)*g)`. |
| `RecordPosition.SizeSumIsOverlap` | src/mongo/db/commands/storage_details.cpp:379-392 | Summed over consecutive chunks, the sizes are the record's bytes inside their union. |
| `RecordPosition.RatioSumIsSizeSum` | src/mongo/db/commands/storage_details.cpp:391-393 | The reported ratios sum to the sizes' sum divided by the record length. |
| `RecordPosition.VisitedSizesSumToLength` | src/mongo/db/commands/storage_details.cpp:367-436 | A record inside the chunks' span is handed out in full: the visited sizes sum to its length and the visited ratios to 1. |
| `RecordPosition.CoveredSpanIsWholeRecord` | src/mongo/db/commands/storage_details.cpp:397-436 | The same statement, for any position that has the floor sizes. |
| `RecordPosition.ChunkIterator.constructor` | src/mongo/db/commands/storage_details.cpp:165-167 | The iterator starts at `firstChunkNum`, or at 0 when that is negative. Its current chunk is not yet filled. |
| `RecordPosition.ChunkIterator.End` | src/mongo/db/commands/storage_details.cpp:397-400 | `end()` holds exactly when the current chunk is not covered: the position is out of range, or the chunk is past `numberOfChunks - 1` or past `lastChunkNum`. |
| `RecordPosition.ChunkIterator.Current` | src/mongo/db/commands/storage_details.cpp:406-430 | `operator->` yields the current chunk with the first-, last- or middle-chunk size and ratio. Both are non-negative, so the source's `verify` holds. |
| `RecordPosition.ChunkIterator.Next` | src/mongo/db/commands/storage_details.cpp:432-436 | `operator++` moves to the next chunk and marks it not yet filled. |
| `RecordPosition.IterateChunks` | src/mongo/db/commands/storage_details.cpp:618-630 | Stepping from the start until `end()` visits exactly `ChunksVisited`, in order, and reports each chunk's size and ratio. |
| `RecordPosition.TruncationMisplacesBytes` | src/mongo/db/commands/storage_details.cpp:372-393 | Counterexample: the record `[80, 100)` before a range starting at 100, with granularity 50, puts all 20 bytes and ratio 1.0 in chunk 0, although none of its bytes lie there. |
| `RecordPosition.FloorPlacesNoBytes` | src/mongo/db/commands/storage_details.cpp:372-393 | The corrected `from` gives chunk 0 no bytes and ratio 0 for that record. |
| `DiskStorage.NewData` | src/mongo/db/commands/storage_details.cpp:92-95 | A fresh aggregate is zero except for its on-disk size, with one zero count per free-list bucket. |
| `DiskStorage.AddAssign` | src/mongo/db/commands/storage_details.cpp:339-353 | `operator+=` adds every field, and the free-record counts bucket by bucket. It returns the value before the addition. |
| `DiskStorage.TotalIsSum` | src/mongo/db/commands/storage_details.cpp:490-502 | The extent total's `recSize`, `onDiskSize` and `numEntries` are the sums over the chunks. |
| `DiskStorage.TotalOf` | src/mongo/db/commands/storage_details.cpp:490-502 | The closing loop computes `Total`, the chunks added in order into a zero aggregate. |
| `DiskStorage.ChunkSizesSumToLength` | src/mongo/db/commands/storage_details.cpp:446-448 | Chunks of granularity size, with the last of `lastChunkLength`, have on-disk sizes that sum to the plan's length. |
| `DiskStorage.DeletedInExtent` | src/mongo/db/commands/storage_details.cpp:581-586 | A deleted record is considered exactly when it is in the extent's file, ends at or after the extent's start, and starts before its end. The tests short-circuit in order. The result is an overflow exactly when a sum that is actually evaluated overflows: the record's end, for a record of the extent's file, and the extent's end, once the record ends at or after the extent's start. |
| `DiskStorage.ProcessRecord` | src/mongo/db/commands/storage_details.cpp:605-651 | Each visited chunk gets the record's ratio, size and shares. Other chunks are unchanged. The result says whether any chunk was visited, and an overflow in `from` changes nothing. |
| `DiskStorage.ProcessDeletedRecord` | src/mongo/db/commands/storage_details.cpp:574-603 | A record of another file or outside the extent changes nothing. Otherwise each visited chunk gets the record's ratio in the record's bucket. |
| `DiskStorage.AfterRecordAddsVisitedBytes` | src/mongo/db/commands/storage_details.cpp:618-630 | Processing a record raises the chunks' `recSize` sum by exactly the bytes the iterator hands out. |
| `DiskStorage.AfterRecordAddsVisitedShare` | src/mongo/db/commands/storage_details.cpp:618-651 | Processing a record raises the chunks' `numEntries` sum by exactly the ratios the iterator hands out. |
| `DiskStorage.AfterRecords` | src/mongo/db/commands/storage_details.cpp:458-463 | The chunks after the live-record walk: every record folded in with `processRecord`, in order. Only record aggregates change; the free-record counts and on-disk sizes stay. |
| `DiskStorage.AfterRecordsSums` | src/mongo/db/commands/storage_details.cpp:458-463 | The live-record walk keeps the chunk layout. Summed over the chunks, `recSize` grows by the bytes handed out and `numEntries` by the ratios handed out. |
| `DiskStorage.FoldRecords` | src/mongo/db/commands/storage_details.cpp:457-463 | The live-record walk keeps the chunk layout and leaves the free-record counts alone. It succeeds exactly when every record can be placed. The chunks are then exactly `AfterRecords` of the chunks before, and their `recSize` sum grows by the bytes handed out. |
| `DiskStorage.FoldDeletedList` | src/mongo/db/commands/storage_details.cpp:480-485 | One free list is folded in, stopping at the first overflow. In every chunk only this bucket's free-record count changes. The result is OK exactly when every entry can be placed. The chunks are then exactly `AfterDeletedList` of the chunks before, and this bucket's count, summed over the chunks, grows by the shares handed out for the list's entries. |
| `DiskStorage.AfterDeletedList` | src/mongo/db/commands/storage_details.cpp:480-485 | The chunks after one bucket's free-list walk: each deleted record of the extent folded into that bucket with `processDeletedRecord`, in order. Every other field and bucket stays. |
| `DiskStorage.AfterDeletedListAddsShares` | src/mongo/db/commands/storage_details.cpp:480-485 | One bucket's walk raises that bucket's count, summed over the chunks, by exactly the shares handed out for its list. |
| `DiskStorage.AfterDeletedLists` | src/mongo/db/commands/storage_details.cpp:477-487 | The chunks after the whole free-list walk, bucket by bucket. Only free-record counts change. |
| `DiskStorage.AfterDeletedListsBucket` | src/mongo/db/commands/storage_details.cpp:477-487 | After the whole walk, each bucket's count, summed over the chunks, has grown by exactly the shares handed out for its own list. |
| `DiskStorage.FoldDeleted` | src/mongo/db/commands/storage_details.cpp:477-487 | Every bucket's free list, in bucket order. Only free-record counts change. The result is OK exactly when every entry of every list can be placed. The chunks are then exactly `AfterDeletedLists` of the chunks before, and each bucket's count, summed over the chunks, grows by the shares handed out for its own list. |
| `DiskStorage.DeletedSharesAreCounts` | src/mongo/db/commands/storage_details.cpp:574-603 | When every deleted record that lies in the extent also lies within the analysed range, each adds exactly 1 to its bucket's free-record total: the total is the number of such records. |
| `DiskStorage.InitialChunks` | src/mongo/db/commands/storage_details.cpp:446-448 | The chunks as created: the plan's chunk sizes, one zero count per bucket, and nothing counted yet. |
| `DiskStorage.DiskChunks` | src/mongo/db/commands/storage_details.cpp:446-487 | The reported chunks: the initial chunks, then every live record, then every bucket's free list. They keep the plan's layout. |
| `DiskStorage.DiskChunksSums` | src/mongo/db/commands/storage_details.cpp:446-487 | Summed over the reported chunks, `recSize` is the bytes handed out for the live records, `numEntries` their ratios, and each bucket's free-record count the shares handed out for its list. |
| `DiskStorage.DiskChunksTotal` | src/mongo/db/commands/storage_details.cpp:490-502 | The total of the reported chunks has the plan's length on disk, the live records' bytes and ratios, and each bucket's shares. |
| `DiskStorage.AnalyzeDiskStorage` | src/mongo/db/commands/storage_details.cpp:438-505 | The result is OK exactly when every live and deleted record can be placed and the collection is not capped. A capped collection is refused after the live-record walk. The reported chunks are exactly `DiskChunks`: the created chunks, then every live record, then every free list. The total is `Total` of the chunks. Its on-disk size is the plan's length, its `recSize` the bytes handed out, its `numEntries` the ratios handed out, and each bucket's free-record count the shares handed out for that bucket's list. |
| `DiskStorage.RecordsBytesAreLengths` | src/mongo/db/commands/storage_details.cpp:605-630 | When every record lies within the analysed range, the bytes handed out are exactly the records' lengths. |
| `DiskStorage.RecordsSharesAreCount` | src/mongo/db/commands/storage_details.cpp:618-651 | When every record lies within the analysed range, each is handed out with ratio 1 in total. |
| `DiskStorage.EntriesAreRecordCount` | src/mongo/db/commands/storage_details.cpp:438-505 | When every record lies within the analysed range, the total's `numEntries` is the number of live records. |
| `DiskStorage.PagesCoverChunk` | src/mongo/db/commands/storage_details.cpp:515-520 | In a plan that tiles its range, `pagesInChunk` is at least 1. Its pages cover the chunk, and one page fewer would not. |
| `DiskStorage.NoPagesExactly` | src/mongo/db/commands/storage_details.cpp:515-520 | In any plan, `pagesInChunk` is 0 exactly when the chunk's length lies in `(-pageSize, 0]`. The ratio is then `0/0`. |
| `DiskStorage.CountResident` | src/mongo/db/commands/storage_details.cpp:522-532 | The inner loop counts exactly the resident pages among the chunk's pages. |
| `DiskStorage.InMemRatioInUnit` | src/mongo/db/commands/storage_details.cpp:515-533 | In a plan that tiles its range, every chunk's resident share is defined, finite and in `[0, 1]`. |
| `DiskStorage.AnalyzeMemInCore` | src/mongo/db/commands/storage_details.cpp:507-538 | Any plan is accepted. The result is OK exactly when no chunk's `chunk * granularity` overflows before its first page is looked up. It then has one entry per chunk: the resident-page count over `pagesInChunk`, NaN for a chunk without pages, and 0 for a negative page count. In a plan that tiles its range, every entry is finite and in `[0, 1]`. |
| `DiskStorage.RunInternal` | src/mongo/db/commands/storage_details.cpp:742-767 | The plan is derived and the subcommand dispatched. An unknown subcommand is an error. `diskStorage` succeeds exactly when the plan tiles its range, every record can be placed and the collection is not capped. Its report is `AnalyzeDiskStorage`'s: the chunks are `DiskChunks`, and the total covers the plan's length, the bytes, the ratios and the free-list shares handed out. `memInCore` succeeds exactly when every chunk's ratio is defined. It reports the page size and one `InMemRatio` per chunk. |
| `BtreeModel.NodeInfoOf` | src/mongo/db/commands/index_stats.cpp:318-335 | `firstKey` is present exactly when slot 0 is used. `lastKey` is present exactly when the last slot is used and is not slot 0. `usedKeyCount` equals `keyCount`, as written at line 331. |
| `BtreeModel.Visit` | src/mongo/db/commands/index_stats.cpp:255-345 | The walk only appends branch levels and never resizes them. It opens a level only for a node it expands. |
| `BtreeModel.VisitAt` | src/mongo/db/commands/index_stats.cpp:255-345 | A bucket's call is its entry, its children loop from slot 0, and its fold into the statistics. |
| `BtreeModel.VisitWholeTreeBuckets` | src/mongo/db/commands/index_stats.cpp:316 | The whole-tree statistics gain one bucket per inspected bucket. |
| `BtreeModel.VisitWholeTreeKeys` | src/mongo/db/commands/index_stats.cpp:287-316 | The whole tree observes the inspected buckets' key counts, children before parents, in walk order. |
| `BtreeModel.VisitLevels` | src/mongo/db/commands/index_stats.cpp:338-342 | The per-level statistics together gain one bucket per inspected bucket. |
| `BtreeModel.VisitDepth` | src/mongo/db/commands/index_stats.cpp:270 | The recorded depth becomes the depth of the deepest inspected bucket. |
| `BtreeModel.VisitLevelCount` | src/mongo/db/commands/index_stats.cpp:338-339 | The per-level list grows to one level past the deepest inspected bucket. |
| `BtreeModel.VisitBranchEntry` | src/mongo/db/commands/index_stats.cpp:312-315 | Each existing branch entry gains the buckets of the subtrees whose expanded ancestor it is. |
| `BtreeModel.VisitNodeInfo` | src/mongo/db/commands/index_stats.cpp:318-335 | A call leaves the `nodeInfo` of every existing branch entry alone, except that a child of an expanded node sets its own entry to `NodeInfoOf` itself. |
| `BtreeModel.ExpandedLevel` | src/mongo/db/commands/index_stats.cpp:279-304 | The call for an expanded bucket leaves a new branch level below it with one entry per slot. Each entry describes the child inspected from that slot and counts the buckets strictly below it. It stays empty for an unused slot or a null child. |
| `BtreeModel.VisitPathLevel` | src/mongo/db/commands/index_stats.cpp:255-345 | The same holds at every depth along the expansion path: for each bucket the call expands, the level below it describes its children. Later siblings and the ancestors' folds leave that level alone. |
| `BtreeModel.LeaveKeepsDeeper` | src/mongo/db/commands/index_stats.cpp:308-336 | Folding a bucket into the statistics changes no branch level below its own. |
| `BtreeModel.AddToAncestorsEntry` | src/mongo/db/commands/index_stats.cpp:312-315 | Folding into the ancestors adds one bucket exactly to the entries the ancestors name. Their `nodeInfo` is untouched. |
| `BtreeModel.InspectTotals` | src/mongo/db/commands/index_stats.cpp:228-232 | After inspecting a non-empty tree: the whole tree and the levels count every bucket, the depth is the deepest bucket's, and there is one level per depth. |
| `BtreeModel.InspectRootEntry` | src/mongo/db/commands/index_stats.cpp:228-232 | The root's branch entry describes the root and counts every bucket below it. |
| `BtreeModel.InspectBranchLevel` | src/mongo/db/commands/index_stats.cpp:228-232 | After inspecting a tree with an expanded root: for every bucket expanded at depth `d`, level `d + 1` of the branch table has one entry per slot of that bucket. Each entry is `NodeInfoOf` the child inspected from that slot, with that child's strict descendants as its bucket count, or empty when no child is inspected from the slot. |
| `BtreeModel.InspectEmpty` | src/mongo/db/commands/index_stats.cpp:258 | Inspecting a null root changes nothing. |
| `BtreeModel.NoExpansionKeepsRootOnly` | src/mongo/db/commands/index_stats.cpp:279-281 | With no nodes to expand, the branch table keeps its single root entry. |
| `IndexStats.BtreeStats.constructor` | src/mongo/db/commands/index_stats.cpp:134-136 | Depth 0, no levels, and one branch level holding a single entry. |
| `IndexStats.BtreeStats.NewBranchLevel` | src/mongo/db/commands/index_stats.cpp:143-146 | Requires the branch to be exactly `depth_ + 1` levels deep. It appends `childrenCount` empty entries and changes nothing else. |
| `IndexStats.BtreeStats.AddToAncestorEntries` | src/mongo/db/commands/index_stats.cpp:312-315 | `addStats` on `nodeAt(d, ancestors[d])` for every `d`, and nothing else changes. |
| `IndexStats.BtreeStats.AddToLevel` | src/mongo/db/commands/index_stats.cpp:338-342 | Pads the per-level list up to `depth_ + 1` entries, then applies `addStats` on level `depth_`. |
| `IndexStats.BtreeInspector.Inspect` | src/mongo/db/commands/index_stats.cpp:228-232 | Starting from fresh statistics, the result is `BtreeModel.Inspect` of the root. |
| `IndexStats.BtreeInspector.InspectBucket` | src/mongo/db/commands/index_stats.cpp:255-345 | The in-place walk has exactly `Visit`'s effect on the statistics. |
| `IndexStats.BtreeInspector.InspectChildren` | src/mongo/db/commands/index_stats.cpp:285-304 | The children loop has `VisitChildren`'s effect. It counts the used slots, and notes the first and last key slots when they are used. |
| `IndexStats.BtreeInspector.FoldBucket` | src/mongo/db/commands/index_stats.cpp:310-342 | It folds the bucket into the statistics exactly as `Leave` does. |
| `IndexStats.LastNamed` | src/mongo/db/commands/index_stats.cpp:362-366 | The result is none exactly when no index has the name. Otherwise it is a match with no later match. |
| `IndexStats.FindIndex` | src/mongo/db/commands/index_stats.cpp:362-366 | The lookup loop keeps the last index with the requested name. |
| `IndexStats.ScanRecords` | src/mongo/db/commands/index_stats.cpp:394-403 | The record loop yields the entry count and record bytes, and the running totals, each modulo 2^32. |
| `IndexStats.SummarizeExtents` | src/mongo/db/commands/index_stats.cpp:378-416 | One usage per extent. `numRecords`, `totRecLen` and `totExtentSpace` are the exact sums modulo 2^32. |
| `IndexStats.EntriesAgreeWithTotal` | src/mongo/db/commands/index_stats.cpp:396-414 | The wrapped total record count equals the wrapped sum of the per-extent entry counts. |
| `IndexStats.RecLensAgreeWithTotal` | src/mongo/db/commands/index_stats.cpp:396-414 | The same for record bytes. |
| `IndexStats.RunInternal` | src/mongo/db/commands/index_stats.cpp:359-433 | A missing index is an error, and so is a version other than 0 or 1. Versions 0 and 1 always succeed. The report has the last matching index's name and version and its walk's statistics. When requested, it adds the storage summary: the per-extent usages and the wrapped record count, record bytes and extent space. |
| `DescriptiveStats.ConstructorDesired` | src/mongo/util/descriptive_stats-inl.h:61-65 | The constructor's desired position `1 + 2(Q+1)*increment(i)` is exactly the rank `i + 1`. |
| `DescriptiveStats.EndRanks` | src/mongo/util/descriptive_stats-inl.h:163-166 | The first marker's target rank is always 1 and the last marker's is `n`: they track the minimum and the maximum. |
| `DescriptiveStats.DesiredAdvance` | src/mongo/util/descriptive_stats-inl.h:110-113 | Adding the increment moves a desired position from its rank for `n` samples to its rank for `n + 1`. |
| `DescriptiveStats.Bumped` | src/mongo/util/descriptive_stats-inl.h:104-107 | Exactly the positions from `cell` on grow by one. Strictly increasing positions stay so. |
| `DescriptiveStats.SortSamples` | src/mongo/util/descriptive_stats-inl.h:78 | The ordering that `std::sort` establishes: a sorted permutation. |
| `DescriptiveStats.SortedEnds` | src/mongo/util/descriptive_stats-inl.h:76-79 | The first and last elements of a sorted permutation of the samples are their minimum and maximum. |
| `DescriptiveStats.FirstAbove` | src/mongo/util/descriptive_stats-inl.h:96-100 | The `std::upper_bound` index: everything before it is at most `x`, and the element there is above `x`. |
| `DescriptiveStats.SplitIsFirstAbove` | src/mongo/util/descriptive_stats-inl.h:96-100 | Any index that splits a sequence into elements at most `x` and elements above `x` is `FirstAbove`. |
| `DescriptiveStats.UpperBound` | src/mongo/util/descriptive_stats-inl.h:96-100 | Binary search over a sorted array returns `FirstAbove`. |
| `DescriptiveStats.PlaceSample` | src/mongo/util/descriptive_stats-inl.h:82-101 | The heights stay sorted. `h[cell-1] <= x < h[cell]`, or `x` is the new maximum in the last cell. The end markers become the new minimum and maximum, and interior markers are unchanged. |
| `DescriptiveStats.NewHeight` | src/mongo/util/descriptive_stats-inl.h:127-154 | A moved marker's new height stays between its neighbours' heights. |
| `DescriptiveStats.AdjustAt` | src/mongo/util/descriptive_stats-inl.h:118-156 | A marker moves exactly when `(d >= 1 && dp > 1) \|\| (d <= -1 && dm < -1)`. It then moves one rank toward its desired position, and otherwise nothing changes. Heights stay sorted and positions strictly increasing. |
| `DescriptiveStats.AdjustFrom` | src/mongo/util/descriptive_stats-inl.h:116-157 | The adjustment loop leaves the end markers alone, keeps the heights sorted and keeps the positions strictly increasing. |
| `DescriptiveStats.SteadyStep` | src/mongo/util/descriptive_stats-inl.h:81-158 | One sample in the steady phase. The end heights become the minimum and maximum with `x`. The first position stays and the last grows by one. Every desired position advances by its increment. |
| `DescriptiveStats.EndPositionsAdvance` | src/mongo/util/descriptive_stats-inl.h:104-113 | The first marker's actual and desired positions stay, and the last marker's both grow by one. |
| `DescriptiveStats.SteadyStepPreserves` | src/mongo/util/descriptive_stats-inl.h:81-158 | The steady invariant holds again after each sample, now over one more sample. |
| `DescriptiveStats.FillCompletes` | src/mongo/util/descriptive_stats-inl.h:73-79 | Sorting the full buffer, with the constructor's positions, establishes the steady invariant. |
| `DescriptiveStats.TruncToInt` | src/mongo/util/descriptive_stats.h:148 | `int(x)` truncates toward zero. |
| `DescriptiveStats.DistributionEstimators.constructor` | src/mongo/util/descriptive_stats-inl.h:52-66 | No samples. The actual positions are `1..NumMarkers`, and the desired positions are the same ranks. |
| `DescriptiveStats.DistributionEstimators.Observe` | src/mongo/util/descriptive_stats-inl.h:68-161 | While filling, the sample is stored at `_count`. When the buffer becomes full, the heights are a sorted permutation of the samples. Afterwards every sample applies `SteadyStep`, and the invariant is kept. |
| `DescriptiveStats.DistributionEstimators.ObserveFilling` | src/mongo/util/descriptive_stats-inl.h:73-80 | Stores the sample, and sorts the buffer once it is full. |
| `DescriptiveStats.DistributionEstimators.ObserveSteady` | src/mongo/util/descriptive_stats-inl.h:81-158 | Applies `SteadyStep` to the arrays and keeps the steady invariant. |
| `DescriptiveStats.DistributionEstimators.StepMarkers` | src/mongo/util/descriptive_stats-inl.h:82-157 | The four loops in place equal `SteadyStep` on the old arrays. |
| `DescriptiveStats.DistributionEstimators.SortMarkers` | src/mongo/util/descriptive_stats-inl.h:78 | After the sort, the heights are sorted and a permutation of the old heights. |
| `DescriptiveStats.DistributionEstimators.FindCell` | src/mongo/util/descriptive_stats-inl.h:82-101 | The cell search equals `PlaceSample`. |
| `DescriptiveStats.DistributionEstimators.BumpPositions` | src/mongo/util/descriptive_stats-inl.h:104-107 | The loop equals `Bumped`. |
| `DescriptiveStats.DistributionEstimators.AdvanceDesired` | src/mongo/util/descriptive_stats-inl.h:110-113 | Every desired position advances by its increment. |
| `DescriptiveStats.DistributionEstimators.AdjustMarkers` | src/mongo/util/descriptive_stats-inl.h:116-157 | The loop equals `AdjustFrom` from marker 1. |
| `DescriptiveStats.DistributionEstimators.AdjustMarker` | src/mongo/util/descriptive_stats-inl.h:118-156 | One iteration equals `AdjustAt`. |
| `DescriptiveStats.DistributionEstimators.Quantile` | src/mongo/util/descriptive_stats.h:114-117 | A number exactly when `i <= Q + 1`, and then marker `2i`. Otherwise NaN, written `None`. |
| `DescriptiveStats.DistributionEstimators.MinEstimate` | src/mongo/util/descriptive_stats.h:124-126 | Marker 0. |
| `DescriptiveStats.DistributionEstimators.MaxEstimate` | src/mongo/util/descriptive_stats.h:133-135 | The last marker. |
| `DescriptiveStats.DistributionEstimators.Icdf` | src/mongo/util/descriptive_stats.h:147-150 | A number exactly when `int(prob*(Q+1))` lies in `0..Q+1`. A negative index turns into a huge `size_t`, which gives NaN. |
| `DescriptiveStats.DistributionEstimators.Median` | src/mongo/util/descriptive_stats.h:140-142 | Marker `2*((Q+1)/2)`. |
| `DescriptiveStats.DistributionEstimators.QuantilesAreEvenMarkers` | src/mongo/util/descriptive_stats.h:114-117 | Every even marker is a quantile, and quantiles read no other marker. |
| `DescriptiveStats.DistributionEstimators.QuantilesAreOrdered` | src/mongo/util/descriptive_stats.h:114-117 | Once the buffer is full, `quantile(i) <= quantile(j)` for `i <= j`. |
| `DescriptiveStats.DistributionEstimators.ExtremesAreExact` | src/mongo/util/descriptive_stats.h:119-135 | Once the buffer is full, `min()` and `max()` are the exact minimum and maximum of all samples seen. |
| `DescriptiveStats.DistributionEstimators.IcdfDefinedRange` | src/mongo/util/descriptive_stats.h:147-150 | `icdf(prob)` is a number exactly when `-1 < prob*(Q+1) < Q+2`. |
| `DescriptiveStats.DistributionEstimators.IcdfPicksBand` | src/mongo/util/descriptive_stats.h:144-150 | For `prob` in `[k/(Q+1), (k+1)/(Q+1))`, `icdf(prob)` is `quantile(k)`. |
| `DescriptiveStats.DistributionEstimators.IcdfEnds` | src/mongo/util/descriptive_stats.h:124-150 | `icdf(0) == min()` and `icdf(1) == max()`. |
| `DescriptiveStats.DistributionEstimators.MedianMarker` | src/mongo/util/descriptive_stats.h:140-142 | Marker `Q+1` targets rank `(n+1)/2`. `median()` reads it for odd `Q`. For even `Q` it reads marker `Q`, whose target is below `(n+1)/2`. |

## Left out

- Command parsing (`run` in both commands) and all BSON output. The model starts from parsed parameters and returns values in place of builders. The same holds for the `showRecords` record lists, `extractCharactFieldValue`, `appendTo` and `appendToBSONObjBuilder`.
- `killCurrentOp.checkForInterrupt()`: interruption is not modelled.
- The on-disk structures. An extent's live records and the collection's free lists are given as sequences. A deleted record's file and offset, and a record's BSON size and characteristic value, are inputs.
- `mongo::Buckets` is not part of this model. The number of free-list buckets is the number of lists given.
- `Extent::HeaderSize()` is not part of this model. It is a parameter of `IndexStats.RunInternal`.
- `ProcessInfo::blockInMemory` and `ProcessInfo::pageSize` are operating-system calls. They are an oracle `int -> bool` over offsets within the extent and a page-size parameter.
- `DiskStorage.AnalyzeMemInCore`: requires a page size between 1 and `INT_MAX`. The operating system's page size is such a value, and the source's `(int) pageSize` cast is not modelled beyond it.
- `DiskStorage.RunInternal`: `diskStorage` on a plan that does not tile its range is reported as `DegeneratePlan`. Such a plan has an empty or negative length or a negative granularity. The source goes on with such a plan. With no chunks it writes out of bounds at `chunkData[numberOfChunks - 1]`. With a negative chunk count the `vector` constructor fails. Otherwise it runs over chunks whose sizes do not tile the range. `memInCore` is modelled on every plan. A zero granularity is `DivisionByZero` for both, where the source divides by zero in `ceilingDiv`.
- `DiskStorage.ProcessRecord`: `numEntries`, `bsonSize`, `charactSum` and `charactCount` are exact reals. The source accumulates `long double`, `double` and `long long` values with rounding.
- `RecordPosition.FromAsWritten`: requires a positive record length and a non-zero granularity. Otherwise the source divides by zero or produces NaN ratios.
- `StorageParams.PlanFromChunkCount`: requires that `endOfs - startOfs + numberOfChunks` does not overflow. When it does, `PlanChunks` reports the overflow.
- The per-record `chunkNum` arithmetic of the iterator is unbounded. The source's `int` cannot overflow there, because chunk numbers never exceed `numberOfChunks`.
- `BtreeModel.Visit`: `AreaStats` keeps the raw `keyCount` and `usedKeyCount` observations in order instead of feeding them into `SummaryEstimators`. `bsonRatio`, `fillRatio` and `keyNodeRatio` are left out because they depend on the bucket's byte layout. `bucketBodyBytes` and the difference between the V0 and V1 bucket layouts are left out for the same reason. With those left out, the two versions behave the same.
- `BtreeModel.NodeInfoOf`: `usedKeyCount` is `getN()`, equal to `keyCount`, as written, and not the counted used keys. `diskLoc` is the bucket's address, and `fillRatio` is left out.
- `BtreeModel.Visit`: the walk requires that every expanded ancestor names an existing branch entry, which is the `dassert` in `nodeAt`. The source does not check it in release builds.
- `IndexStats.RunInternal`: the `usage` and `overallStorageUsage` doubles are not modelled. Only their integer numerators and denominators are.
- `DescriptiveStats.DistributionEstimators.Observe`: heights and desired positions are exact reals without floating-point rounding. Actual positions are integers, whereas the source stores them in `double`s that only ever hold integers. NaN samples are not modelled.
- `DescriptiveStats.DistributionEstimators.Icdf`: `int(prob*(Q+1))` is mathematical truncation. The undefined conversion of values outside `int` is not modelled.
- `DescriptiveStats.DistributionEstimators.SortMarkers`: `std::sort` is modelled by its contract, a sorted permutation, computed by an insertion sort.
- Before the buffer fills, `heights` beyond `_count` are uninitialised in the source. The model leaves them unspecified too, and its accessors may read them, as the source's do.
- The class is templated on `NumQuantiles`, and on `Sample` in the `-inl.h` definitions. The model has one natural-number `Q` and real samples.
- `BasicEstimators`, `SummaryEstimators` and `DensityFromDistributionEstimators` (descriptive_stats.h) are not part of the core modelled here.

## Findings

| source | as written | input that shows it | evidently intended | confidence | as-written member | corrected member |
|---|---|---|---|---|---|---|
| src/mongo/db/commands/storage_details.cpp:379-380 | `firstChunkNum` and `lastChunkNum` use C++ truncating division. A record starting less than one granularity before `startOfs` therefore gets chunk 0 as its first chunk, and chunk 0 is credited with the bytes that lie before the range. | Range `[100, 200)`, granularity 50, extent at offset 0, record `[80, 100)`: it is in range because it ends at `startOfs`, and chunk 0 receives all 20 bytes and ratio 1.0. | Floor division: chunk 0 receives only the record's bytes inside `[100, 150)`, here none. `processRecord`'s `DEV verify` (lines 636-638) expects records that straddle `startOfs`. | not executed | `RecordPosition.TruncationMisplacesBytes` | `RecordPosition.From` |
