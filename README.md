# Buffer pool manager with an LRU-K replacer

This project models the buffer pool of a small Java storage engine. The pool
maps page ids to in-memory frames. It hands out page ids for new pages and
pins a page while a read or write guard holds it. It writes dirty pages back
to a page store, and it asks an LRU-K replacer for a victim frame when every
slot is taken. The model covers:

- `LruK` (`lru_k_replacer.dfy`): the replacer. It has a logical clock, a
  bounded access history per frame index and a set of evictable frame
  indices. `ReplacerState` and the functions over it are the specification.
  The class `LRUKReplacer` keeps the same state in fields, and each of its
  methods is proved to move that state as the matching function does.
- `Frames` (`frame_header.dfy`): a frame. It holds a page-sized byte array,
  a pin count, a dirty flag and a `pageId` field. It is a class whose
  methods update those fields, with a value view `FrameView`.
- `Disk` (`disk_manager.dfy`): the page store. It is a map from page id to a
  block of bytes; a write stores a copy, and a read of an unwritten page
  yields zeros.
- `PoolModel` (`pool_model.dfy`): the pool as a state machine over values,
  `PoolState`. The state is the page table (page id to `FrameView`), the
  page-id counter, the replacer state and the store. Each public operation
  is a function from the old state to the new state and its result.
- `BufferPool` (`buffer_pool_manager.dfy`): the class `BufferPoolManager`,
  and the `ReadPageGuard` and `WritePageGuard` classes it returns. Every
  public method of the manager is proved to follow the matching `PoolModel`
  function and to keep the pool invariant. The private helper
  `GenerateNewPageId` has no function of its own: it returns the counter
  and advances it, and `AllocateNewPage` is proved against `Allocated`
  through it.

The model follows the code as written, including where it behaves
differently from what a reader of its comments would expect:

- A frame's `pageId` field is set to the frame index by the constructor and
  is never changed. The replacer, `deletePage` and the guards are therefore
  all handed the frame index, not the page id. A guard's `drop` unpins the
  page whose page id equals that frame index, which is a different page
  whenever the two numbers differ (`PoolModel.WriteGuardTargetsFrameIndex`).
- `markDirty(b)` sets the flag whatever `b` is. `flushPage` calls
  `markDirty(false)`, so a flushed page stays dirty, and every later flush
  writes it again (`PoolModel.FlushPageTwice`).
- The backward distance in `evict` is measured from the newest timestamp
  of a history holding at least k entries, not from the k-th most recent
  one (`LruK.NewestTimestampExample`).
- `newPage` looks for a free slot by testing whether the numbers
  0 .. poolSize-1 are keys of the page table. Those keys are page ids, not
  frame indices.
- On the victim branch of `newPage`, the evicted frame's page is neither
  written back nor removed from the page table. Its entry stays, next to
  the new page that reuses the same frame index.
- `evict` reads the history of every evictable frame. A frame that is
  evictable but has no history makes the source fail with a null
  dereference. The pool can reach that state. With a pool of one frame:
  `newPage`, `unpinPage(0)`, `newPage` (evicts frame 0, page 1),
  `unpinPage(1)`, `newPage` (page 2), `deletePage(1)`, `unpinPage(2)`, and
  then `newPage` scans frame 0 with no history
  (`PoolModel.NullHistoryReachable`).
  - `LRUKReplacer.Evict` requires `Scannable`: every evictable frame has a
    non-empty history.
  - `BufferPoolManager.NewPage` requires `NewPageSafe`: either a slot is
    free, or the replacer is scannable.
- Pin counts are kept per page-table entry, evictability per frame index.
  Several entries can share a frame index, so a page that still holds a pin
  can have an evictable frame index, against the comment on `unpinPage`
  that only an unpinned page becomes evictable. With a pool of one frame:
  `newPage`, `unpinPage(0)`, `newPage` (evicts frame 0, page 1),
  `checkedReadPage(0)`, `unpinPage(1)`. Page 0 holds one pin, frame index 0
  is evictable, and the next `newPage` hands frame index 0 to page 2
  (`PoolModel.PinnedPageFrameEvictable`).

## Model

| member | source | states |
|---|---|---|
| Frames.NewFrameIsClean | src/main/java/org/example/FrameHeader.java:12-18 | a new frame holds the given index in `pageId`, pin count 0, is clean, and holds one page of zero bytes |
| Frames.PinCounting | src/main/java/org/example/FrameHeader.java:24-32 | pin adds exactly one; unpin subtracts one only from a positive count, so the count is never negative; unpin undoes a pin |
| Frames.MarkDirtyIgnoresArgument | src/main/java/org/example/FrameHeader.java:42-48 | `markDirty` leaves the frame dirty whatever its argument, `markDirty(false)` equals `markDirty(true)`, and `resetDirty` cleans it |
| Frames.MetadataOperationsKeepIdentity | src/main/java/org/example/FrameHeader.java:24-48 | pin, unpin, markDirty and resetDirty change neither the frame's `pageId` nor its bytes; pin and unpin leave the dirty flag, and markDirty and resetDirty leave the pin count |
| Frames.FrameHeader.constructor | src/main/java/org/example/FrameHeader.java:12-18 | allocates a fresh buffer, and the frame's view is the new frame for that index |
| Frames.FrameHeader.GetData | src/main/java/org/example/FrameHeader.java:20-22 | returns the frame's own buffer, not a copy, so writes through it change the frame |
| Frames.FrameHeader.Pin | src/main/java/org/example/FrameHeader.java:24-26 | the pin count rises by one and nothing else changes; a valid frame stays valid |
| Frames.FrameHeader.Unpin | src/main/java/org/example/FrameHeader.java:28-32 | the pin count falls by one if positive and otherwise stays; nothing else changes; a valid frame stays valid |
| Frames.FrameHeader.GetPinCount | src/main/java/org/example/FrameHeader.java:34-36 | returns the pin count, which is never negative |
| Frames.FrameHeader.IsDirty | src/main/java/org/example/FrameHeader.java:38-40 | returns the dirty flag |
| Frames.FrameHeader.MarkDirty | src/main/java/org/example/FrameHeader.java:42-44 | the frame becomes dirty for either argument; nothing else changes; a valid frame stays valid |
| Frames.FrameHeader.ResetDirty | src/main/java/org/example/FrameHeader.java:46-48 | the frame becomes clean; nothing else changes; a valid frame stays valid |
| Frames.FrameHeader.GetPageId | src/main/java/org/example/FrameHeader.java:50-52 | returns the `pageId` field |
| Frames.FrameHeader.SetPageId | src/main/java/org/example/FrameHeader.java:54-56 | replaces the `pageId` field and nothing else; a valid frame stays valid |
| LruK.PrecedesTransitive | src/main/java/org/example/LRUKReplacer.java:38 | the scan's replacement test (farther, or as far with an older first access) is transitive |
| LruK.TopRankedExists | src/main/java/org/example/LRUKReplacer.java:33-43 | every non-empty set of frames with histories contains a frame that no member of the set outranks |
| LruK.VictimUnique | src/main/java/org/example/LRUKReplacer.java:33-43 | under the replacer invariant at most one evictable frame is outranked by none, so the scan's result does not depend on the set's iteration order |
| LruK.Victim | src/main/java/org/example/LRUKReplacer.java:23-53 | the frame `evict` picks is evictable and outranked by no other evictable frame |
| LruK.VictimRule | src/main/java/org/example/LRUKReplacer.java:33-43 | the victim's distance is the largest; among equal distances its first access is the oldest; if any evictable frame has fewer than k accesses, so does the victim |
| LruK.TrimmedAppendOk | src/main/java/org/example/LRUKReplacer.java:58-62 | appending the new tick and dropping at most one oldest entry keeps a history increasing, within the clock and within k entries |
| LruK.AccessedKeepsInv | src/main/java/org/example/LRUKReplacer.java:55-66 | `recordAccess` keeps the replacer invariant: every history well formed, no timestamp shared between frames |
| LruK.AccessedKeepsDisjoint | src/main/java/org/example/LRUKReplacer.java:58-62 | after `recordAccess` no two frames share a timestamp |
| LruK.RemovedKeepsInv | src/main/java/org/example/LRUKReplacer.java:68-76 | `remove`, and the removal of the victim in `evict`, keep the replacer invariant |
| LruK.AccessedAppendsNewest | src/main/java/org/example/LRUKReplacer.java:55-66 | `recordAccess(f)` ticks the clock once and makes the tick f's newest entry; the oldest entry is dropped only when k were held; no other frame changes |
| LruK.EvictableAndRemoveFrames | src/main/java/org/example/LRUKReplacer.java:68-89 | `setEvictable` changes only the named frame's membership, and `remove` forgets only the named frame; neither moves the clock |
| LruK.InfiniteDistanceExample | src/main/java/org/example/LRUKReplacer.java:35 | a frame with fewer than k accesses is chosen over a frame with k accesses |
| LruK.NewestTimestampExample | src/main/java/org/example/LRUKReplacer.java:35 | the distance runs from the newest access: a frame that the k-th-most-recent rule would keep is the victim |
| LruK.TieBreakExample | src/main/java/org/example/LRUKReplacer.java:36-42 | between two frames with infinite distance, the one with the older first access is the victim |
| LruK.LRUKReplacer.constructor | src/main/java/org/example/LRUKReplacer.java:14-21 | starts with empty histories, nothing evictable and the clock at 0 |
| LruK.LRUKReplacer.ScanForVictim | src/main/java/org/example/LRUKReplacer.java:26-43 | returns nothing exactly when no frame is evictable, and otherwise an evictable frame outranked by none |
| LruK.LRUKReplacer.Evict | src/main/java/org/example/LRUKReplacer.java:23-53 | with nothing evictable, returns empty and changes nothing; otherwise returns the victim and removes its history and its evictable mark |
| LruK.LRUKReplacer.RecordAccess | src/main/java/org/example/LRUKReplacer.java:55-66 | the new state is the recorded access of the old one, and the invariant holds |
| LruK.LRUKReplacer.Remove | src/main/java/org/example/LRUKReplacer.java:68-76 | the new state forgets the frame's history and evictable mark, and the invariant holds |
| LruK.LRUKReplacer.SetEvictable | src/main/java/org/example/LRUKReplacer.java:78-89 | adds the frame to, or removes it from, the evictable set; the invariant holds |
| LruK.LRUKReplacer.Size | src/main/java/org/example/LRUKReplacer.java:91-98 | returns the number of evictable frames |
| Disk.ReadUnwritten | src/main/java/org/example/DiskManager.java:9-12 | reading a page that was never written yields zeros |
| Disk.ReadAfterWrite | src/main/java/org/example/DiskManager.java:9-16 | reading back a written page into a buffer of the same length yields the written bytes |
| Disk.WriteLeavesOtherPages | src/main/java/org/example/DiskManager.java:14-16 | a write leaves what every other page reads unchanged |
| Disk.DiskManager.constructor | src/main/java/org/example/DiskManager.java:7 | the store starts empty |
| Disk.DiskManager.ReadPage | src/main/java/org/example/DiskManager.java:9-12 | the buffer receives the first buffer-length bytes of the stored block, or zeros for an unwritten page |
| Disk.DiskManager.WritePage | src/main/java/org/example/DiskManager.java:14-16 | the store maps the page to the buffer's contents at the time of the call, and every other page is unchanged |
| Disk.WriteCopiesThenReadBack | src/main/java/org/example/DiskManager.java:14-16 | the store keeps a copy: changing the caller's buffer after a write does not change what a read returns |
| PoolModel.FreeSlotFrom | src/main/java/org/example/BufferPoolManager.java:28-32 | the slot search finds the lowest number below the pool size that is not a page-table key, or none when all are keys |
| PoolModel.AllocatedKeepsInv | src/main/java/org/example/BufferPoolManager.java:57-65 | `allocateNewPage` keeps the pool invariant |
| PoolModel.NewPageKeepsInv | src/main/java/org/example/BufferPoolManager.java:25-55 | `newPage` keeps the pool invariant on both branches |
| PoolModel.DeletePageKeepsInv | src/main/java/org/example/BufferPoolManager.java:72-86 | `deletePage` keeps the pool invariant |
| PoolModel.AcquiredKeepsInv | src/main/java/org/example/BufferPoolManager.java:131-168 | the checked fetches keep the pool invariant |
| PoolModel.FlushKeepsInv | src/main/java/org/example/BufferPoolManager.java:97-119 | `flushPage` and `flushAllPages` keep the pool invariant |
| PoolModel.UnpinKeepsInv | src/main/java/org/example/BufferPoolManager.java:170-190 | `unpinPage` keeps the pool invariant |
| PoolModel.NewPageWithFreeSlot | src/main/java/org/example/BufferPoolManager.java:25-65 | with a free slot, `newPage` uses the lowest one as frame index and returns the counter's value as a new page id. That page is pinned once, clean and zeroed. The replacer state becomes that frame index made non-evictable with one access recorded for it, and nothing else in the replacer changes; the store is untouched |
| PoolModel.NewPageExhausted | src/main/java/org/example/BufferPoolManager.java:28-36 | with every slot taken and nothing evictable, `newPage` returns null and changes nothing |
| PoolModel.NewPageFromVictim | src/main/java/org/example/BufferPoolManager.java:33-50 | with every slot taken, `newPage` reuses the victim's frame index for a new pinned page. Every old entry stays and nothing is written to the store; the victim's history restarts with one access: the clock advances by one, the victim leaves the evictable set, and nothing else in the replacer changes |
| PoolModel.NewPageIdsIncrease | src/main/java/org/example/BufferPoolManager.java:57-70 | a new page id is the counter's value and was not a key before; on failure nothing changes; the next `newPage` returns a larger id |
| PoolModel.TraceFirstPage | src/main/java/org/example/BufferPoolManager.java:25-31 | from an empty pool of one frame, `newPage` returns page 0 in frame 0, and `unpinPage(0)` makes frame 0 evictable |
| PoolModel.TraceSecondPage | src/main/java/org/example/BufferPoolManager.java:33-50 | with that one slot taken, `newPage` evicts frame 0 for page 1 and leaves page 0's entry; `unpinPage(1)` makes frame 0 evictable again |
| PoolModel.TraceThirdPage | src/main/java/org/example/BufferPoolManager.java:72-86 | after a third `newPage` (page 2), `deletePage(1)` succeeds and forgets frame 0's history; `unpinPage(2)` marks frame 0 evictable |
| PoolModel.TraceEvictForPageOne | src/main/java/org/example/BufferPoolManager.java:25-53 | after `newPage`, `unpinPage(0)` on one frame, `newPage` evicts frame 0 for page 1, which is pinned; page 0 keeps its entry and frame 0 is no longer evictable |
| PoolModel.TraceReadThenUnpinOther | src/main/java/org/example/BufferPoolManager.java:131-190 | `checkedReadPage(0)` pins page 0 and makes frame index 0 non-evictable; `unpinPage(1)` then unpins page 1 and makes the same index evictable while page 0 holds its pin |
| PoolModel.TraceEvictPinnedFrame | src/main/java/org/example/BufferPoolManager.java:25-53 | that state meets the pool invariant with page 0 holding one pin and its frame index 0 evictable; `newPage` then evicts frame index 0 for page 2, and page 0 keeps its pin in the table |
| PoolModel.PinnedPageFrameEvictable | src/main/java/org/example/BufferPoolManager.java:182-185 | after those five calls from an empty pool the invariant holds, page 0 holds one pin with frame index 0, index 0 is evictable, and the next `newPage` gives index 0 to page 2 while page 0 stays pinned |
| PoolModel.NullHistoryReachable | src/main/java/org/example/LRUKReplacer.java:33-36 | after those seven calls from an empty pool the invariant holds, frame 0 is evictable with no history and no slot is free, so the next `newPage` reaches the scan's null dereference |
| PoolModel.UnpinAdmitsExactlyOneMore | src/main/java/org/example/BufferPoolManager.java:170-190 | with a full pool of pinned pages `newPage` fails; after one unpin exactly one more `newPage` succeeds |
| PoolModel.DeletePageOutcome | src/main/java/org/example/BufferPoolManager.java:72-86 | `deletePage` succeeds exactly for a resident page with no pins. Then it drops the page from the table and the frame index from the replacer, and nothing else changes; otherwise nothing changes |
| PoolModel.DeleteThenNewPage | src/main/java/org/example/BufferPoolManager.java:72-86 | in a full pool, deleting an unpinned page frees a `newPage` slot exactly when its page id is below the pool size |
| PoolModel.FlushPageOutcome | src/main/java/org/example/BufferPoolManager.java:97-108 | `flushPage` succeeds exactly for a dirty resident page. It then writes that page's bytes under its id and leaves the page dirty; otherwise nothing changes |
| PoolModel.FlushPageTwice | src/main/java/org/example/BufferPoolManager.java:106 | a page flushed once is still dirty, so flushing it again succeeds and changes nothing further |
| PoolModel.WrittenBackStep | src/main/java/org/example/BufferPoolManager.java:113-115 | each step of the `flushAllPages` loop adds exactly the one flushed page to the written-back store |
| PoolModel.FlushAllOutcome | src/main/java/org/example/BufferPoolManager.java:110-119 | `flushAllPages` stores every dirty resident page's bytes and leaves every other block, the table and the replacer as they were |
| PoolModel.PinCountSentinel | src/main/java/org/example/BufferPoolManager.java:121-129 | `getPinCount` returns -1 exactly for a page not in the table, and otherwise the page's non-negative pin count |
| PoolModel.CheckedFetchOutcome | src/main/java/org/example/BufferPoolManager.java:131-168 | for a resident page the fetches add one pin, mark the page dirty for a write, make its frame index non-evictable with one more access, and return that index; otherwise nothing changes |
| PoolModel.UnpinOutcome | src/main/java/org/example/BufferPoolManager.java:170-190 | `unpinPage` removes one pin from a pinned resident page and makes its frame index evictable when the last pin goes; otherwise nothing changes |
| PoolModel.FetchThenUnpin | src/main/java/org/example/BufferPoolManager.java:131-190 | a fetch followed by one unpin restores the pin count, and the frame index is evictable exactly when no pin is left |
| PoolModel.WriteGuardCloseWritesBack | src/main/java/org/example/WritePageGuard.java:25-29 | closing a write guard on a dirty pinned page stores the page's bytes and removes one pin |
| PoolModel.WriteGuardTargetsFrameIndex | src/main/java/org/example/BufferPoolManager.java:150-168 | a write guard for page 5 held in frame 2 carries 2, so closing it unpins page 2 and leaves page 5 pinned |
| BufferPool.BufferPoolManager.constructor | src/main/java/org/example/BufferPoolManager.java:15-23 | for a non-negative pool size, starts with an empty page table and the counter at 0 over the given replacer and store |
| BufferPool.BufferPoolManager.NewPage | src/main/java/org/example/BufferPoolManager.java:25-55 | the new state and result are those of `newPage` on the old state, and the pool invariant holds |
| BufferPool.BufferPoolManager.AllocateNewPage | src/main/java/org/example/BufferPoolManager.java:57-65 | maps the next page id to a fresh pinned frame with the given index, which is made non-evictable with one access recorded |
| BufferPool.BufferPoolManager.GenerateNewPageId | src/main/java/org/example/BufferPoolManager.java:68-70 | returns the counter and advances it by one |
| BufferPool.BufferPoolManager.DeletePage | src/main/java/org/example/BufferPoolManager.java:72-86 | follows `deletePage` on the pool state and keeps the invariant |
| BufferPool.BufferPoolManager.FlushPage | src/main/java/org/example/BufferPoolManager.java:88-95 | follows `flushPage` on the pool state and keeps the invariant |
| BufferPool.BufferPoolManager.FlushPageUnsafe | src/main/java/org/example/BufferPoolManager.java:97-108 | writes a dirty resident page's bytes to the store under its page id and keeps the invariant |
| BufferPool.BufferPoolManager.FlushAllPages | src/main/java/org/example/BufferPoolManager.java:110-119 | after the loop over the table's keys, the store holds every dirty resident page's bytes |
| BufferPool.BufferPoolManager.GetPinCount | src/main/java/org/example/BufferPoolManager.java:121-129 | returns the pin count of a resident page, and -1 exactly when the page is absent |
| BufferPool.BufferPoolManager.CheckedReadPage | src/main/java/org/example/BufferPoolManager.java:131-148 | pins a resident page and returns a fresh live guard carrying the frame index; for an absent page it returns empty and changes nothing |
| BufferPool.BufferPoolManager.CheckedWritePage | src/main/java/org/example/BufferPoolManager.java:150-168 | pins a resident page, marks it dirty and returns a fresh live guard carrying the frame index; for an absent page it returns empty |
| BufferPool.BufferPoolManager.UnpinPage | src/main/java/org/example/BufferPoolManager.java:170-190 | follows `unpinPage` on the pool state and keeps the invariant |
| BufferPool.ReadPageGuard.constructor | src/main/java/org/example/ReadPageGuard.java:7-10 | the guard holds the manager and the id it was given |
| BufferPool.ReadPageGuard.Drop | src/main/java/org/example/ReadPageGuard.java:12-17 | a live guard unpins its id once and lets go of the manager; a released guard does nothing |
| BufferPool.ReadPageGuard.Close | src/main/java/org/example/ReadPageGuard.java:19-22 | same effect as `drop` |
| BufferPool.WritePageGuard.constructor | src/main/java/org/example/WritePageGuard.java:7-10 | the guard holds the manager and the id it was given |
| BufferPool.WritePageGuard.Flush | src/main/java/org/example/WritePageGuard.java:12-16 | a live guard flushes its id and stays live; a released guard does nothing |
| BufferPool.WritePageGuard.Drop | src/main/java/org/example/WritePageGuard.java:18-23 | a live guard unpins its id once and lets go of the manager; a released guard does nothing |
| BufferPool.WritePageGuard.Close | src/main/java/org/example/WritePageGuard.java:25-29 | a live guard flushes its id, then unpins it; a released guard does nothing |
| BufferPool.ReleaseReadGuardTwice | src/main/java/org/example/ReadPageGuard.java:12-17 | dropping and then closing a read guard unpins its page exactly once |
| BufferPool.CloseWriteGuardTwice | src/main/java/org/example/WritePageGuard.java:18-29 | closing a write guard twice flushes and unpins exactly once |

## Left out

- `DiskScheduler` and `DiskRequest` are not part of this model. They sit between the pool and the store and queue requests. Here a flush calls `DiskManager.WritePage` directly and waits for nothing.
- Locks (`ReentrantLock`, `synchronized`) and concurrency: every operation runs as one atomic step.
- The messages `unpinPage` prints for an absent or already unpinned page: both cases change nothing, and the text is not modelled.
- BufferPool.BufferPoolManager.DeletePage: the write to the `frames` list (which nothing reads) is left out. The source's write throws for a frame index outside `[0, poolSize)`; the model's constructor accepts any valid replacer, so such an index can reach `DeletePage`, which then succeeds where the source throws.
- `FrameHeader.getLock` and its lock, and the replacer's `capacity` field, which is stored but never read.
- The `long` clock and the `int` page-id counter, pin count and frame indices are unbounded integers here: overflow after 2^63 accesses or 2^31 pages or pins is not modelled.
- The iteration order of the evictable `HashSet` in `evict` and of the page table's key set in `flushAllPages` is modelled by an arbitrary choice. For `evict` the choice cannot change the result (`LruK.VictimUnique`).
- LruK.LRUKReplacer.Evict: requires every evictable frame to have a history. The source dereferences a null history otherwise, and that state is reachable from the pool (trace above).
- LruK.LRUKReplacer.ScanForVictim: requires every evictable frame to have a history, for the same null dereference, so the scan over a frame with no history is not modelled.
- BufferPool.BufferPoolManager.NewPage: requires `NewPageSafe` for the same reason, so the null dereference itself is not modelled.
- The victim branch of `newPage` repeats the steps of `allocateNewPage` inline, creating the frame before taking the page id. The model calls `AllocateNewPage`; the two steps are independent, so the outcome is the same.
- Disk.DiskManager.ReadPage: requires a stored block at least as long as the buffer. The source's copy throws for a shorter block; every block the pool writes is one page.
- BufferPool.BufferPoolManager.constructor: requires a non-negative pool size. The source throws `IllegalArgumentException` for a negative one when it builds its `frames` list, and the exception is not modelled.
