# med scanning engine, modelled in Dafny

This project models the memory-scanning core of **med**, a memory editor for
Linux processes, and proves properties of that model. The core has three parts:

- **Known-value scan and filter** (`MemScanner`). `scan` walks every mapped
  region of the target page by page. It slides a `size`-byte window over each
  page one byte at a time (`STEP = 1`) and records a candidate (`Pem`: an
  address, the bytes read there, a scan type) wherever `memCompare` accepts
  the window. `filter` splits an existing candidate list into chunks of
  `CHUNK_SIZE = 128`. It re-reads every candidate and keeps those whose fresh
  bytes still compare. Both return their result sorted by address.
- **Region-snapshot diffing** (`Snapshot`, module `SnapshotDiff`). `save`
  keeps the memory blocks pulled from the process. `compare` pulls a second
  set and pairs each saved block with the first current block that
  `isBlockMatched` accepts. For each pair, it slides a window of the scan
  type's width over the saved block and compares old and new bytes at the
  same absolute address. `SnapshotDiff.CompareAsWritten` keeps that pairing.
  `SnapshotDiff.Compare` pairs with the first current block that shares a
  byte with the saved one instead, which corrects the two pairing faults
  listed under "## Findings".
- **Byte-block containers** (`Bytes`, `MemoryBlock`, `MemoryBlocks`, module
  `ByteBlocks`). A data pointer with a size, a block with a start address,
  and an append-only list of blocks.

Modelling choices:

- The target's memory is a map from address to byte (`MemIO.Memory`). A seek
  followed by a read of `n` bytes is one step, which succeeds exactly when
  all `n` addresses are mapped (`MemIO.Read`). The source's seek and read
  are two steps on a descriptor that all tasks share (`SharedOffset`).
- `memCompare` is an uninterpreted parameter `cmp(op, bytes, value)`.
- The page size and the list of mapped regions are parameters.
- The blocks `pullMemory` returns are parameters of `Save` and `Compare`.
- Every batch that the thread pool runs in parallel is a sequential fold
  (`Folds.FlatMap`) over its tasks. Separate lemmas show that any list
  holding the same elements as that fold sorts to the same result. This
  covers any task order and any element-by-element interleaving of locked
  appends (`SharedAppend.Interleave`), as long as each task's seek and read
  stay together.
- Blocks, snapshots and block lists are immutable values. Each C++ mutator
  of them is a function from the old value to the new one. Candidates
  (`Pem`) are values too, though the C++ shares them through `shared_ptr`;
  see "## Left out".

The model follows the code in these places:

- `filterByChunk` only sets a survivor's scan type. The bytes a candidate
  was found with are kept, not refreshed (`src/mem/MemScanner.cpp:157-160`).
- `compare` does not clear the saved blocks.
- `isBlockMatched` tests only the second block's two end points against the
  first block's closed span. It does not test either block's start against
  the other's span.
- The result is sorted by address unconditionally.

Files:

- `wrappers.dfy`: `Option`.
- `folds.dfy`: `FlatMap` and its lemmas.
- `bytes.dfy`: `ByteBlocks`.
- `memio.dfy`: memory, `Read`, `OpType`, the comparator type.
- `memlist.dfy`: `Pem`, sorting by address.
- `memscanner.dfy`: `MemScanner`.
- `snapshot.dfy`: `SnapshotDiff`.
- `appends.dfy`: `SharedAppend`, appends to a vector shared by parallel tasks.
- `sharedfd.dfy`: `SharedOffset`, seeks and reads on a descriptor shared by parallel tasks.

## Model

| member | source | states |
|---|---|---|
| ByteBlocks.NewBytes | src/med/Bytes.cpp:8-11 | A default `Bytes` has null data and size 0. |
| ByteBlocks.SetData | src/med/Bytes.cpp:15-34 | After `setData`, `getData` and `getSize` return exactly the pointer and size given. |
| ByteBlocks.Free | src/med/Bytes.cpp:20-26 | After `free` the pointer is null. Freeing non-null data resets the size to 0. Freeing null data changes nothing. |
| ByteBlocks.FreeIdempotent | src/med/Bytes.cpp:20-26 | Freeing twice is the same as freeing once. |
| ByteBlocks.SetAddress | src/med/Bytes.cpp:43-49 | `getAddress` returns the address set, and the bytes are untouched. |
| ByteBlocks.SetDataWithAddress | src/med/Bytes.cpp:51-54 | Sets data, size and address together. |
| ByteBlocks.NewMemoryBlocks | src/med/Bytes.cpp:59-78 | A new block list has `getSize() == 0`. |
| ByteBlocks.Push | src/med/Bytes.cpp:67-69 | `push` appends exactly one block at the end. `getSize` grows by one and every earlier block is unchanged. |
| ByteBlocks.FreeAll | src/med/Bytes.cpp:61-65 | `MemoryBlocks::free` frees every block's buffer and keeps the number, order and addresses of the blocks. |
| ByteBlocks.Clear | src/med/Bytes.cpp:71-74 | After `clear`, `getSize() == 0`. |
| ByteBlocks.PushAllThenData | src/med/Bytes.cpp:67-82 | `getData` returns the blocks in push order, and `getSize` counts them. |
| MemIO.Read | src/mem/MemScanner.cpp:83-91 | A seek and read of `n` bytes succeeds exactly when every address is mapped, and then yields those `n` bytes in order. |
| MemIO.ReadSlice | src/mem/MemScanner.cpp:108-109 | Re-reading a sub-range of a page that was read yields that slice of the page. |
| MemList.SortByAddress | src/mem/MemScanner.cpp:70 | `sortByAddress` returns the same candidates (a permutation) in ascending address order. |
| MemList.SortIdempotent | src/mem/MemScanner.cpp:136 | Sorting a list that is already sorted leaves it unchanged. |
| MemList.SortCanonical | src/mem/MemScanner.cpp:70 | Two lists with the same candidates and distinct addresses sort to the same list, so the order in which tasks appended does not matter. |
| MemScanner.ScanWindows | src/mem/MemScanner.cpp:106-117 | From window offset `k` on, every reported address is at least `start + k`. Each report is a window hit whose bytes `memio->read` returned, tagged with the scan type. Reports come in strictly increasing order. |
| MemScanner.ScanWindowsComplete | src/mem/MemScanner.cpp:106-112 | For every offset `j >= k`, `start + j` is reported exactly when the window at `j` fits in the page, compares, and can be read back. |
| MemScanner.ScanPage | src/mem/MemScanner.cpp:98-118 | Only offsets with `k + size <= pagesize` are tested, so every reported window lies inside the page. `start + k` is reported iff that window compares and reads back. Each report carries the read bytes and the requested scan type, in strictly increasing order. |
| MemScanner.WindowHitOfReadPage | src/mem/MemScanner.cpp:106-109 | When the page buffer is what memory holds, a window hit is a match of memory at `start + k`. The bytes read back are the window's bytes. |
| MemScanner.ScanOnePage | src/mem/MemScanner.cpp:83-92 | A page whose seek or read fails yields nothing. Otherwise an address is reported exactly when the page is readable and holds a matching window there. |
| MemScanner.ScanPageList | src/mem/MemScanner.cpp:82-95 | Walking several pages reports only read-back windows at or after the first page, sorted by address. The order is strict for non-empty windows. |
| MemScanner.ScanPageListSound | src/mem/MemScanner.cpp:82-95 | Every reported address is a hit of one of the walked pages. |
| MemScanner.ScanPageListComplete | src/mem/MemScanner.cpp:83-92 | Every hit of every walked page is reported, even when earlier pages failed to read. A failed page skips only itself. |
| MemScanner.PageStarts | src/mem/MemScanner.cpp:82 | The `for` loop over `j` visits no page exactly when `end <= start`. Otherwise the first page starts at `start`, each next one exactly `pagesize` later, every start lies in `[start, end)`, and the last page reaches `end`. |
| MemScanner.StridedCovers | src/mem/MemScanner.cpp:82 | Every address of `[start, end)` lies in exactly one visited page. |
| MemScanner.ScanMap | src/mem/MemScanner.cpp:73-96 | `scanMap` reports `a` exactly when some visited page of the region is readable and holds a matching window at `a`. Reports lie at or after the region start, sorted, and strictly increasing for non-empty windows. |
| MemScanner.StraddlingWindowMissed | src/mem/MemScanner.cpp:87-106 | A window that crosses the end of its page is never reported. |
| MemScanner.RegionHitWithin | src/mem/MemScanner.cpp:82-92 | A region's hits lie inside the pages read for that region. |
| MemScanner.ScanRegions | src/mem/MemScanner.cpp:60-66 | One `scanMap` task per region, with results joined in queue order. Every report is read-back data with the requested scan type. |
| MemScanner.ScanRegionsHits | src/mem/MemScanner.cpp:60-68 | The joined task results report exactly the addresses that some region's visited pages hit. |
| MemScanner.HitsApart | src/mem/MemScanner.cpp:60-68 | Two regions whose read page ranges do not overlap never both hit the same address. |
| MemScanner.ScanRegionsDistinct | src/mem/MemScanner.cpp:60-68 | When windows are non-empty and different regions' pages do not overlap, no address is reported twice. |
| MemScanner.Scan | src/mem/MemScanner.cpp:51-71 | `scan` returns the tasks' results sorted by address, as a permutation of them. It reports exactly the addresses where a visited page of some region holds a matching window. |
| MemScanner.ScanRegionsIsFold | src/mem/MemScanner.cpp:60-66 | Queueing one task per region and running them is the fold of `scanMap` over the regions. |
| MemScanner.ScanTaskOrderIrrelevant | src/mem/MemScanner.cpp:60-70 | Any list holding the same hits as the region tasks run in queue order (any task order, any interleaving of appends that loses none) sorts to the result of `scan`. |
| MemScanner.ScanLockedInterleaving | src/mem/MemScanner.cpp:60-70 | Corrected `scan`, with each hit of `scanPage` (line 112) appended under a lock: every element-by-element interleaving of the region tasks that lets them all finish sorts to the result of `scan`. |
| MemScanner.FilterRange | src/mem/MemScanner.cpp:149-164 | The loop over `[lo, hi)` passes on at most `hi - lo` candidates. |
| MemScanner.FilterRangeMembers | src/mem/MemScanner.cpp:149-164 | A candidate is passed on, with the new scan type and its old bytes, exactly when it is in the range and its address still reads and compares. |
| MemScanner.FilterRangeSubMultiset | src/mem/MemScanner.cpp:149-164 | Each candidate of the range is passed on at most once. |
| MemScanner.FilterRangeSplit | src/mem/MemScanner.cpp:149 | Filtering two adjacent index ranges is filtering their union. |
| MemScanner.FilterRangeStrict | src/mem/MemScanner.cpp:149-164 | Filtering keeps a strictly increasing list strictly increasing. |
| MemScanner.FilterByChunk | src/mem/MemScanner.cpp:139-167 | The chunk task at `listIndex` keeps exactly the candidates with index in `[listIndex, listIndex + 128)` below the list length whose fresh read compares. |
| MemScanner.ChunkStarts | src/mem/MemScanner.cpp:126 | The `for` loop over `i` queues no chunk exactly when the list is empty. Otherwise the first chunk starts at 0, each next one exactly 128 later, every start lies below the list length, and the last chunk reaches the end of the list. |
| MemScanner.ChunksPartition | src/mem/MemScanner.cpp:126-149 | Every index of the list belongs to exactly one queued chunk. |
| MemScanner.ChunkTasksFromCover | src/mem/MemScanner.cpp:126-149 | The chunk tasks from one start onwards, run in queue order, filter the whole tail of the list in index order. |
| MemScanner.ChunkTasksCover | src/mem/MemScanner.cpp:120-133 | All chunk tasks, run in queue order, filter the whole list in index order. |
| MemScanner.Filter | src/mem/MemScanner.cpp:120-137 | `filter` returns a sorted result with at most `|list|` elements. A candidate survives, retagged, exactly when its fresh bytes compare. No candidate is duplicated. |
| MemScanner.FilterOfIncreasing | src/mem/MemScanner.cpp:136 | On a strictly increasing input (such as a scan result), the final sort changes nothing, and survivors keep the list order. |
| MemScanner.FilterTaskOrderIrrelevant | src/mem/MemScanner.cpp:126-136 | On a strictly increasing input, any list holding the same survivors as the chunk tasks run in queue order sorts to the result of `filter`. |
| MemScanner.FilterLockedInterleaving | src/mem/MemScanner.cpp:126-163 | On a strictly increasing input, every element-by-element interleaving of the chunk tasks' locked appends that lets them all finish sorts to the result of `filter`. |
| SnapshotDiff.IsBlockMatched | src/med/Snapshot.cpp:64-71 | For blocks of non-negative size, `isBlockMatched(b1, b2)` holds iff the closed spans meet, except when `b1` lies strictly inside `b2`. |
| SnapshotDiff.BlockMatchedReflexive | src/med/Snapshot.cpp:64-71 | Every block of non-negative size matches itself. |
| SnapshotDiff.BlockMatchedNotSymmetric | src/med/Snapshot.cpp:64-71 | A block strictly inside another is matched by it but does not match it. |
| SnapshotDiff.TouchingBlocksMatch | src/med/Snapshot.cpp:69-70 | Two blocks where one ends where the other starts share no byte, yet each matches the other. |
| SnapshotDiff.IsBlockOverlapping | src/med/Snapshot.cpp:64-71 | Corrected matcher: true exactly when the two blocks share at least one byte. |
| SnapshotDiff.OverlappingSymmetric | src/med/Snapshot.cpp:64-71 | The corrected matcher does not depend on argument order. |
| SnapshotDiff.OverlappingReflexive | src/med/Snapshot.cpp:64-71 | A non-empty block overlaps itself. |
| SnapshotDiff.MatchedIsOverlapOrTouch | src/med/Snapshot.cpp:64-71 | On non-empty blocks, `isBlockMatched` is the overlap test, plus touching blocks, minus a first block strictly inside the second. |
| SnapshotDiff.FirstMatchFrom | src/med/Snapshot.cpp:53-58 | The inner loop from index `k` finds the lowest index at or after `k` whose block matches. It finds none only when no block from `k` on matches. |
| SnapshotDiff.FirstMatch | src/med/Snapshot.cpp:53-58 | The inner loop breaks at the lowest-index matching current block, and finds none exactly when none matches. |
| SnapshotDiff.PairOf | src/med/Snapshot.cpp:53-59 | A saved block yields one pair exactly when some current block matches it, and the pair is with its first match. |
| SnapshotDiff.CreatePairs | src/med/Snapshot.cpp:48-62 | At most one pair per saved block, so `|pairs| <= |prev|`. Each pair is a saved block with its lowest-index matching current block. |
| SnapshotDiff.CreatePairsAppend | src/med/Snapshot.cpp:52-60 | The pairs follow the order of the saved blocks. |
| SnapshotDiff.CreatePairsComplete | src/med/Snapshot.cpp:52-60 | Every saved block that some current block matches gets a pair. |
| SnapshotDiff.FirstMatchIs | src/med/Snapshot.cpp:53-58 | When block `j` matches and no earlier block does, the inner loop breaks at `j`. |
| SnapshotDiff.CreatePairsSound | src/med/Snapshot.cpp:52-60 | Every pair made is some saved block with its first match. |
| SnapshotDiff.CreatePairsFirstMatch | src/med/Snapshot.cpp:52-60 | Every saved block with a first match is paired with exactly that block. |
| SnapshotDiff.Window | src/med/Snapshot.cpp:95-97 | The window at address `a` exists exactly when the block holds every byte `a .. a + n - 1`, and it lists those bytes. |
| SnapshotDiff.CompareFrom | src/med/Snapshot.cpp:94-101 | From offset `k` on, reported addresses lie in `[first + k, first + size)` in strictly increasing order. |
| SnapshotDiff.CompareFromHits | src/med/Snapshot.cpp:94-101 | From offset `k` on, an address is reported exactly when the loop walks it and both blocks hold a whole value there that compares. |
| SnapshotDiff.ComparePair | src/med/Snapshot.cpp:85-103 | Corrected `comparePair`: addresses `first + i` for `0 <= i < size`, strictly increasing, each reported iff both blocks hold the whole value at that same absolute address and old compares with new. |
| SnapshotDiff.ComparePairInBounds | src/med/Snapshot.cpp:97 | Every value compared lies wholly inside both buffers. |
| SnapshotDiff.CompareFromAsWritten | src/med/Snapshot.cpp:94-101 | The loop as written, indexing `firstData[i]` and `secondData[offset + i]`, reports addresses from `first + k` on. |
| SnapshotDiff.ComparePairAsWritten | src/med/Snapshot.cpp:85-103 | `comparePair` as written, where its accesses stay in bounds, reports addresses at or after the saved block's start. |
| SnapshotDiff.CompareFromAsWrittenAgrees | src/med/Snapshot.cpp:88-97 | Where in bounds, `offset + i` addresses the same absolute byte as `i` does in the saved block, so the as-written loop equals the checked one. |
| SnapshotDiff.ComparePairAsWrittenAgrees | src/med/Snapshot.cpp:85-103 | Where in bounds, `comparePair` as written reports what the corrected one reports. |
| SnapshotDiff.ComparePairOverrunsOwnBlock | src/med/Snapshot.cpp:89-97 | An 8-byte block compared with itself as int32 reads past the end of the buffer. |
| SnapshotDiff.ComparePairReadsBeforeBuffer | src/med/Snapshot.cpp:88-97 | A matched current block that starts 4 bytes after the saved one gives `offset = -4`, so the first access reads before the buffer. |
| SnapshotDiff.Filter | src/med/Snapshot.cpp:73-82 | An address is in the result exactly when some pair's comparison reports it. |
| SnapshotDiff.FilterAppend | src/med/Snapshot.cpp:75-79 | The per-pair results are concatenated in pair order. |
| SnapshotDiff.NewSnapshot | src/med/Snapshot.cpp:12-14 | A fresh snapshot reports `isUnknown() == false` and holds no blocks. |
| SnapshotDiff.Save | src/med/Snapshot.cpp:19-30 | `save` always attaches the process. With an empty pid, the saved blocks and the unknown flag are unchanged. Otherwise the pulled blocks replace the saved ones and `isUnknown()` becomes true. |
| SnapshotDiff.UnknownAfterSaves | src/med/Snapshot.cpp:19-29 | After a run of saves, `isUnknown()` (lines 105-107) is true exactly when it was before or some save had a non-empty pid. Nothing clears it. |
| SnapshotDiff.ComparePaired | src/med/Snapshot.cpp:42-44 | Pairing then filtering reports a scan exactly when some saved block's first match reports it. |
| SnapshotDiff.PairedScanSound | src/med/Snapshot.cpp:42-44 | Every scan of the filtered pairs comes from some saved block's first match. |
| SnapshotDiff.PairedScanComplete | src/med/Snapshot.cpp:42-44 | Every scan that a saved block's first match reports is in the filtered result. |
| SnapshotDiff.CompareAsWritten | src/med/Snapshot.cpp:32-46 | `compare` with the source's `isBlockMatched` pairing: an empty pid or no saved blocks gives an empty result. Otherwise a scan is reported exactly when some saved block's first `isBlockMatched` partner holds a whole value there that compares. |
| SnapshotDiff.Compare | src/med/Snapshot.cpp:32-46 | Corrected pairing (shared byte, not `isBlockMatched`): an empty pid or no saved blocks gives an empty result. Otherwise a scan is reported exactly when some saved block's first overlapping partner holds a whole value there that compares. |
| SnapshotDiff.SelfPaired | src/med/Snapshot.cpp:48-62 | Corrected pairing: with disjoint blocks, a well-formed block's first overlapping partner in its own list is itself, so pairing a capture with itself pairs that block with itself. |
| SnapshotDiff.SelfPairedAsWritten | src/med/Snapshot.cpp:48-71 | With `isBlockMatched`, the same holds when the well-formed blocks also do not touch. |
| SnapshotDiff.SelfPairReports | src/med/Snapshot.cpp:85-103 | A block compared with itself reports every whole value it holds when the operator holds between a value and itself. |
| SnapshotDiff.UnchangedRoundTrip | src/med/Snapshot.cpp:32-46 | Corrected pairing: saving and then comparing with unchanged memory, under an operator that holds between a value and itself, reports every whole value of every saved block. |
| SnapshotDiff.UnchangedRoundTripAsWritten | src/med/Snapshot.cpp:32-46 | The same round trip through `compare` as written, for saved blocks that neither overlap nor touch. |
| SnapshotDiff.TouchingBlockStealsPair | src/med/Snapshot.cpp:52-70 | With touching blocks `[0,4)` and `[4,8)` in both captures, `isBlockMatched` pairs the second saved block with the first current block, and that pair's reads fall outside the buffer. |
| SnapshotDiff.TouchingBlocksPairedByOverlap | src/med/Snapshot.cpp:52-70 | With the same two touching blocks in both captures, the overlap test pairs each block with itself. |
| SnapshotDiff.ContainedBlockUnpaired | src/med/Snapshot.cpp:52-70 | A saved block strictly inside the only current block gets no pair under `isBlockMatched`. The overlap test pairs it. |
| SnapshotDiff.ContainedBlockCompareDiffers | src/med/Snapshot.cpp:32-70 | For that saved block and unchanged memory, `compare` as written reports nothing, and the corrected `compare` reports its first address. |
| SharedAppend.StoreAt | src/mem/MemScanner.cpp:112 | The store half of `push_back`: the element lands in the slot read earlier, and everything below that slot is kept. |
| SharedAppend.RacyAppendsLoseOne | src/mem/MemScanner.cpp:112 | Two unlocked `push_back`s that both read the size before either stores leave only the second element. The first is lost. |
| SharedAppend.LockedPush | src/mem/MemScanner.cpp:161-163 | A `push_back` under the mutex appends exactly one element at the end and keeps the rest. |
| SharedAppend.Interleave | src/mem/MemScanner.cpp:161-163 | Locked pushes never overwrite: whatever the schedule, the shared list keeps everything it held before as its prefix, and there are as many pending lists as tasks. |
| SharedOffset.ReadFd | src/mem/MemScanner.cpp:153 | `read` on the descriptor yields the `n` bytes at its current offset, not at any address the task asked for, and moves the offset past them; it fails when a byte there is unmapped. |
| SharedOffset.SeekRead | src/mem/MemScanner.cpp:150-153 | Corrected seek-and-read: with no other seek between them, the bytes read are the bytes at the address sought, whatever the offset was before. |
| SharedOffset.RacySeekReadsOtherAddress | src/mem/MemScanner.cpp:150-155 | When a second task seeks between a task's seek and its read, the first task reads at the second task's address. With byte 0 at 0 and byte 1 at 1, the task that sought 0 reads 1. |
| SharedAppend.InterleaveKeepsAll | src/mem/MemScanner.cpp:161-163 | However the tasks' locked pushes interleave, the shared list plus what the tasks still hold is what there was to push. |
| SharedAppend.LockedBatchKeepsAll | src/mem/MemScanner.cpp:126-163 | When every task finishes, the shared list holds exactly the elements of the tasks run one after another. |

## Left out

- Thread pool and mutexes (`threadManager`, `filterMutex`). Each queued task is one step of a sequential fold. `filterByChunk` appends under `filterMutex` (`src/mem/MemScanner.cpp:161-163`), so its appends can only be reordered, and `MemScanner.FilterLockedInterleaving` shows that sorting removes any such order. Its seeks and reads are not locked (see the next line). `scanPage` appends with no lock (`src/mem/MemScanner.cpp:112`), so concurrent `scanMap` tasks can lose or corrupt appends. Only the lost append is modelled (`SharedAppend.RacyAppendsLoseOne`); a torn vector is not. `MemScanner.Scan` models the corrected, locked appends (see "## Findings").
- `MemScanner.Filter` returns new candidate values. The source retags each survivor in place through its `shared_ptr` (`src/mem/MemScanner.cpp:158-159`), so the same entry in the input list changes scan type too. That aliasing is not modelled.
- System I/O.
  - `lseek`/`read` on `/proc/<pid>/mem` become `MemIO.Read` on an abstract memory. A read that returns fewer bytes than asked is not modelled.
  - Each `lseek` and the `read` after it are modelled as one atomic step. `scan` and `filter` hand one `memFd` to every task (`src/mem/MemScanner.cpp:55-62`, `src/mem/MemScanner.cpp:122-128`), and the tasks seek and read on it with no lock (`src/mem/MemScanner.cpp:83-89`, `src/mem/MemScanner.cpp:150-155`). Another task's seek can therefore come between a seek and its read, and the read then returns bytes from the wrong address. `SharedOffset.RacySeekReadsOtherAddress` shows this for two tasks; `MemScanner.Scan` and `MemScanner.Filter` do not model it (see "## Findings").
  - `getMaps` becomes the list of regions, and `getpagesize()` becomes the page-size parameter.
  - `getMem` is not modelled, and neither are `memio->read`'s exceptions beyond "the window is skipped".
  - `Process::pullMemory` becomes a parameter.
- `memCompare`: uninterpreted. Integer and floating-point decoding are not modelled.
- `MemList::sortByAddress` and `scanTypeToSize` are not part of this model's sources.
  - The sort is modelled as a stable ascending sort. `MemList.SortCanonical` shows that any ascending sort gives the same result when addresses are distinct.
  - The widths 1, 2, 4, 4, 8 are the usual widths of int8, int16, int32, float32 and float64.
- `SnapshotScan::toMedScans`, `Pem` and `Mem` internals. A snapshot match is kept as its address, and a candidate as (address, bytes, scan type).
- Machine integers.
  - Addresses are unbounded, so `start + k`, `getAddress() + getSize()` and the `j += getpagesize()` step never wrap.
  - The `int offset` at `src/med/Snapshot.cpp:88`, which truncates a 64-bit difference, is not modelled.
  - The `int` loop counters are not modelled.
- Manual memory management.
  - Not modelled: `new[]`/`delete[]`, the page buffer leaked on the `continue` paths, and the buffers that copies of a `MemoryBlocks` share, which `clear` and the `Snapshot` destructor free.
  - `ByteBlocks.Clear` drops the blocks after `FreeAll`'s effect, which is not observable once the list is empty.
- Error reporting. The `MedException` objects that `save` and `compare` construct but never throw are modelled as a silent return. The message printed to `cerr` in `scanPage` is not modelled.
- `SnapshotDiff.Compare` requires the process pointer to have been set by a `save`. A fresh `Snapshot` leaves it uninitialised, and `compare` on it reads an indeterminate pointer.
- Scanner construction and configuration (`MemScanner` constructors, `initialize` with 8 threads, `setPid`, `getPid`, `getMemIO`), and the GUI, including the 800-result display threshold.
- MemScanner.ScanTaskOrderIrrelevant: proved only for non-empty windows and regions whose visited pages do not overlap. Otherwise one address can be reported twice, and sorting equal addresses keeps task order. It covers lists that lose no append, not the unlocked appends of the source.
- MemScanner.ScanLockedInterleaving: has the same limits, and only covers schedules that let every task finish. Each task's seek and read are one step, so the shared-offset race on `memFd` is not covered.
- MemScanner.FilterTaskOrderIrrelevant: proved only for a strictly increasing input list, such as a scan result with a non-empty window. Otherwise equal addresses keep task order.
- MemScanner.FilterLockedInterleaving: has the same limit, and only covers schedules that let every task finish. Each task's seek and read are one step, so the shared-offset race on `memFd` is not covered.
- SnapshotDiff.Compare: states the corrected pairing, not the source's. `SnapshotDiff.CompareAsWritten` states the source's pairing; the two differ on touching and contained blocks (`SnapshotDiff.ContainedBlockCompareDiffers`).
- SnapshotDiff.SelfPaired: states the corrected pairing. Under the source's `isBlockMatched` it needs blocks that do not touch either (`SnapshotDiff.SelfPairedAsWritten`), and it fails for touching blocks (`SnapshotDiff.TouchingBlockStealsPair`).
- SnapshotDiff.UnchangedRoundTrip: states the corrected pairing. Through the source's `compare` it needs blocks that do not touch either (`SnapshotDiff.UnchangedRoundTripAsWritten`).
- SnapshotDiff.BlockMatchedReflexive: needs a non-negative size. A block whose `int size` is negative does not match itself.

## Findings

| source | as written | input that shows it | evidently intended | confidence | as-written member | corrected member |
|---|---|---|---|---|---|---|
| src/med/Snapshot.cpp:69-70 | The span test is closed at the end (`lastAddress1 >= firstAddress2`, `firstAddress1 <= lastAddress2`), so blocks that only touch match. First-match-wins then pairs a saved block with the touching block before it. | Saved = current = [4 bytes at 0, 4 bytes at 4]. The block at 4 is paired with the block at 0 instead of itself, and its reads `secondData[4 + i]` fall past that 4-byte buffer. | Pair blocks that share at least one byte. | medium, not executed | SnapshotDiff.TouchingBlockStealsPair | SnapshotDiff.IsBlockOverlapping |
| src/med/Snapshot.cpp:69-70 | Only the second block's end points are tested against the first block's span. | Saved [4 bytes at 4], current [12 bytes at 0]. No pair is made, so no byte of the saved block is ever compared. | Pair whenever the blocks share a byte, whichever contains the other. | medium, not executed | SnapshotDiff.ContainedBlockUnpaired | SnapshotDiff.IsBlockOverlapping |
| src/med/Snapshot.cpp:94-97 | The loop runs `i` up to the block size and reads `typeSize` bytes at `firstData[i]` and `secondData[offset + i]`, with no bound. | An 8-byte block compared with itself as int32: offsets 5 to 7 read 1 to 3 bytes past the end. | Compare only where both blocks hold the whole value. | high, not executed | SnapshotDiff.ComparePairOverrunsOwnBlock | SnapshotDiff.ComparePair |
| src/med/Snapshot.cpp:88-97 | `offset = first.getAddress() - second.getAddress()` is negative when the matched current block starts later, and `secondData[offset + i]` is then read for every `i`. | Saved 8 bytes at 16, current 8 bytes at 20 (matched). `offset = -4`, so `i = 0` reads 4 bytes before the buffer. | Start comparing at the first address both blocks hold. | high, not executed | SnapshotDiff.ComparePairReadsBeforeBuffer | SnapshotDiff.ComparePair |
| src/mem/MemScanner.cpp:112 | `scanPage` calls `list.push_back(mem)` on the vector shared by every `scanMap` task with no lock, while `filterByChunk` locks `filterMutex` around the same call. | Two regions, each with one hit, scanned by two threads. Both read the vector's size before either stores, so the second store overwrites the first and one hit is lost. | Append under a mutex, as `filterByChunk` does. | medium, not executed | SharedAppend.RacyAppendsLoseOne | MemScanner.ScanLockedInterleaving |
| src/mem/MemScanner.cpp:150-155 | Every chunk task calls `lseek(fd, address)` and then `read(fd, buf, size)` on the one `memFd` that `filter` shares among them, with no lock. `scanMap` does the same with `scan`'s `memFd` (lines 83-89). | Two tasks: the first seeks to 0, the second seeks to 1, then the first reads one byte. With byte 0 at address 0 and byte 1 at address 1, the first task compares the 1 from address 1 as if it were the value at 0. | Seek and read as one step: under a lock, or with one `pread` at the address. | medium, not executed | SharedOffset.RacySeekReadsOtherAddress | SharedOffset.SeekRead |
