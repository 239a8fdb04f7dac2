/**
 * The buffer pool manager as a state machine over values: the page table
 * (page id -> frame), the page-id counter, the replacer's state and the page
 * store. Every public operation of the manager is a function from the old
 * state to the new state and its result; the class BufferPoolManager is
 * proved to follow these functions.
 *
 * A frame's `pageId` field holds the frame index it was created with, so
 * the replacer and the guards are handed that index.
 */
module PoolModel {
  import opened Common
  import opened Frames
  import opened LruK

  datatype PoolState = PoolState(
    poolSize: int,
    table: map<int, FrameView>,
    nextPageId: int,
    replacer: ReplacerState,
    store: map<int, seq<byte>>)

  /**
   * The pool's invariant: the replacer's own, every page id in the table was
   * issued by the counter, and every frame has a non-negative pin count and
   * a full page of bytes.
   */
  ghost predicate PoolInv(s: PoolState) {
    Inv(s.replacer) && 0 <= s.nextPageId &&
    forall p :: p in s.table ==> 0 <= p < s.nextPageId && FrameOk(s.table[p])
  }

  /**
   * The loop of `newPage`: the lowest i, from `i` up to `n`, that is not a
   * key of the page table. The test is on page ids, not on frame use.
   */
  function FreeSlotFrom(keys: set<int>, n: int, i: int): (r: Option<int>)
    requires 0 <= i
    decreases n - i
    ensures r.Some? ==> i <= r.value < n && r.value !in keys && forall j :: i <= j < r.value ==> j in keys
    ensures r.None? ==> forall j :: i <= j < n ==> j in keys
  {
    if i >= n then None
    else if i !in keys then Some(i)
    else FreeSlotFrom(keys, n, i + 1)
  }

  function FirstFreeSlot(s: PoolState): Option<int> {
    FreeSlotFrom(s.table.Keys, s.poolSize, 0)
  }

  /**
   * `allocateNewPage(frameId)`, and the same steps on the victim branch:
   * take the next page id, map it to a fresh pinned frame with index
   * `frameId`, make the index non-evictable and record one access.
   */
  function Allocated(s: PoolState, frameId: int): (PoolState, int) {
    var id := s.nextPageId;
    (s.(table := s.table[id := Pinned(NewFrame(frameId))],
        nextPageId := id + 1,
        replacer := Accessed(WithEvictable(s.replacer, frameId, false), frameId)),
     id)
  }

  /** `newPage` reaches the replacer's scan only when no slot is free; the scan must then not meet an untracked frame. */
  ghost predicate NewPageSafe(s: PoolState) {
    FirstFreeSlot(s).Some? || Scannable(s.replacer)
  }

  /**
   * `newPage`. On the victim branch the victim's history is gone and its
   * index is reused, but its old page-table entry stays and nothing is
   * written to the store.
   */
  ghost function AfterNewPage(s: PoolState): (PoolState, Option<int>)
    requires NewPageSafe(s)
  {
    match FirstFreeSlot(s)
    case Some(i) =>
      var (t, id) := Allocated(s, i); (t, Some(id))
    case None =>
      if s.replacer.evictable == {} then (s, None)
      else
        var v := Victim(s.replacer);
        var (t, id) := Allocated(s.(replacer := Removed(s.replacer, v)), v);
        (t, Some(id))
  }

  /** `deletePage(p)`. The replacer is told to forget the frame index, not the page id. */
  function AfterDeletePage(s: PoolState, p: int): (PoolState, bool) {
    if p !in s.table || s.table[p].pinCount > 0 then (s, false)
    else (s.(replacer := Removed(s.replacer, s.table[p].pageId), table := s.table - {p}), true)
  }

  /** `flushPage(p)`: a dirty resident page is written to the store; `markDirty(false)` leaves it dirty. */
  function AfterFlushPage(s: PoolState, p: int): (PoolState, bool) {
    if p !in s.table || !s.table[p].dirty then (s, false)
    else (s.(store := s.store[p := s.table[p].data], table := s.table[p := DirtyMarked(s.table[p], false)]), true)
  }

  /** The store after every dirty page of `pages` has been written. */
  function WrittenBack(store: map<int, seq<byte>>, table: map<int, FrameView>, pages: set<int>): map<int, seq<byte>> {
    map q | q in store.Keys + (set p | p in pages && p in table && table[p].dirty) ::
      if q in pages && q in table && table[q].dirty then table[q].data else store[q]
  }

  /** `flushAllPages`: flush every key of the page table. */
  function AfterFlushAll(s: PoolState): PoolState {
    s.(store := WrittenBack(s.store, s.table, s.table.Keys))
  }

  /** `getPinCount(p)`, with -1 for a page that is not in the table. */
  function PinCountOf(s: PoolState, p: int): int {
    if p in s.table then s.table[p].pinCount else -1
  }

  /**
   * The common steps of `checkedReadPage` and `checkedWritePage`: pin the
   * frame (and for a write mark it dirty), make its index non-evictable,
   * record an access, and hand the guard the frame index.
   */
  function Acquired(s: PoolState, p: int, write: bool): (PoolState, Option<int>) {
    if p !in s.table then (s, None)
    else
      var v := s.table[p];
      var frame := if write then DirtyMarked(Pinned(v), true) else Pinned(v);
      (s.(table := s.table[p := frame],
          replacer := Accessed(WithEvictable(s.replacer, v.pageId, false), v.pageId)),
       Some(v.pageId))
  }

  function AfterCheckedRead(s: PoolState, p: int): (PoolState, Option<int>) {
    Acquired(s, p, false)
  }

  function AfterCheckedWrite(s: PoolState, p: int): (PoolState, Option<int>) {
    Acquired(s, p, true)
  }

  /** `unpinPage(p)`: decrement a positive pin count; on reaching zero make the frame index evictable. */
  function AfterUnpin(s: PoolState, p: int): PoolState {
    if p !in s.table || s.table[p].pinCount <= 0 then s
    else
      var v := Unpinned(s.table[p]);
      s.(table := s.table[p := v],
         replacer := if v.pinCount == 0 then WithEvictable(s.replacer, v.pageId, true) else s.replacer)
  }

  /** `close` of a live write guard holding id `g`: `flushPage(g)` then `unpinPage(g)`. */
  function AfterWriteGuardClose(s: PoolState, g: int): PoolState {
    AfterUnpin(AfterFlushPage(s, g).0, g)
  }

  // ---------------------------------------------------------------------
  // The invariant is kept by every operation.
  // ---------------------------------------------------------------------

  lemma AllocatedKeepsInv(s: PoolState, frameId: int)
    requires PoolInv(s)
    ensures PoolInv(Allocated(s, frameId).0)
  {
    AccessedKeepsInv(WithEvictable(s.replacer, frameId, false), frameId);
  }

  lemma NewPageKeepsInv(s: PoolState)
    requires PoolInv(s) && NewPageSafe(s)
    ensures PoolInv(AfterNewPage(s).0)
  {
    match FirstFreeSlot(s)
    case Some(i) =>
      AllocatedKeepsInv(s, i);
    case None =>
      if s.replacer.evictable != {} {
        var v := Victim(s.replacer);
        RemovedKeepsInv(s.replacer, v);
        AllocatedKeepsInv(s.(replacer := Removed(s.replacer, v)), v);
      }
  }

  lemma DeletePageKeepsInv(s: PoolState, p: int)
    requires PoolInv(s)
    ensures PoolInv(AfterDeletePage(s, p).0)
  {
    if p in s.table && s.table[p].pinCount <= 0 {
      RemovedKeepsInv(s.replacer, s.table[p].pageId);
    }
  }

  lemma AcquiredKeepsInv(s: PoolState, p: int, write: bool)
    requires PoolInv(s)
    ensures PoolInv(Acquired(s, p, write).0)
  {
    if p in s.table {
      AccessedKeepsInv(WithEvictable(s.replacer, s.table[p].pageId, false), s.table[p].pageId);
    }
  }

  lemma FlushKeepsInv(s: PoolState, p: int)
    requires PoolInv(s)
    ensures PoolInv(AfterFlushPage(s, p).0)
    ensures PoolInv(AfterFlushAll(s))
  {
  }

  lemma UnpinKeepsInv(s: PoolState, p: int)
    requires PoolInv(s)
    ensures PoolInv(AfterUnpin(s, p))
  {
  }

  // ---------------------------------------------------------------------
  // newPage
  // ---------------------------------------------------------------------

  /**
   * With a free slot, `newPage` uses the lowest i in [0, poolSize) that is
   * not a page id in the table, returns the old counter value as the new page
   * id, maps it to a fresh frame with index i, pin count 1, clean, and makes
   * i non-evictable with one more recorded access. The store is untouched.
   */
  lemma NewPageWithFreeSlot(s: PoolState)
    requires PoolInv(s) && FirstFreeSlot(s).Some?
    ensures var i := FirstFreeSlot(s).value; var (t, r) := AfterNewPage(s);
      0 <= i < s.poolSize && i !in s.table && (forall j :: 0 <= j < i ==> j in s.table) &&
      r == Some(s.nextPageId) && t.nextPageId == s.nextPageId + 1 &&
      s.nextPageId !in s.table &&
      t.table == s.table[s.nextPageId := FrameView(i, 1, false, Zeros(PAGE_SIZE))] &&
      t.replacer == Accessed(WithEvictable(s.replacer, i, false), i) &&
      i !in t.replacer.evictable && i in t.replacer.history &&
      t.replacer.clock == s.replacer.clock + 1 &&
      t.store == s.store
  {
  }

  /** With every slot taken and nothing evictable, `newPage` returns null and changes nothing. */
  lemma NewPageExhausted(s: PoolState)
    requires forall i :: 0 <= i < s.poolSize ==> i in s.table
    requires s.replacer.evictable == {}
    ensures NewPageSafe(s) && AfterNewPage(s) == (s, None)
  {
    assert FirstFreeSlot(s).None?;
  }

  /**
   * With every slot taken and an evictable frame, `newPage` evicts the
   * replacer's victim v and maps a new page id to a fresh pinned frame with
   * index v. Every old entry stays, the victim's own among them, and nothing
   * is written to the store. The victim's history restarts with one access.
   */
  lemma NewPageFromVictim(s: PoolState)
    requires PoolInv(s)
    requires forall i :: 0 <= i < s.poolSize ==> i in s.table
    requires Scannable(s.replacer) && s.replacer.evictable != {}
    ensures var v := Victim(s.replacer); var (t, r) := AfterNewPage(s);
      v in s.replacer.evictable &&
      r == Some(s.nextPageId) && s.nextPageId !in s.table && t.nextPageId == s.nextPageId + 1 &&
      t.table == s.table[s.nextPageId := FrameView(v, 1, false, Zeros(PAGE_SIZE))] &&
      t.store == s.store &&
      t.replacer == Accessed(WithEvictable(Removed(s.replacer, v), v, false), v) &&
      t.replacer.evictable == s.replacer.evictable - {v} &&
      t.replacer.clock == s.replacer.clock + 1 &&
      t.replacer.history[v] == [t.replacer.clock] &&
      forall g :: g != v ==> HistoryOf(t.replacer, g) == HistoryOf(s.replacer, g)
  {
    assert FirstFreeSlot(s).None?;
  }

  /**
   * Page ids come only from the counter: a returned id is not already a key,
   * is the old counter value, and every key stays below the counter; so a
   * second `newPage` returns a strictly larger id.
   */
  lemma NewPageIdsIncrease(s: PoolState)
    requires PoolInv(s) && NewPageSafe(s)
    ensures var (t, r) := AfterNewPage(s);
      PoolInv(t) &&
      (r.Some? ==> r.value == s.nextPageId && r.value !in s.table && r.value in t.table && t.nextPageId == r.value + 1) &&
      (r.None? ==> t == s) &&
      (r.Some? && NewPageSafe(t) && AfterNewPage(t).1.Some? ==> r.value < AfterNewPage(t).1.value)
  {
    NewPageKeepsInv(s);
  }

  /**
   * With every slot taken and every page pinned once, `newPage` fails.
   * Unpinning one page makes exactly one further `newPage` succeed, after
   * which it fails again.
   */
  lemma UnpinAdmitsExactlyOneMore(s: PoolState, p: int)
    requires PoolInv(s) && s.replacer.k >= 1
    requires forall i :: 0 <= i < s.poolSize ==> i in s.table
    requires s.replacer.evictable == {}
    requires p in s.table && s.table[p].pinCount == 1 && s.table[p].pageId in s.replacer.history
    ensures NewPageSafe(s) && AfterNewPage(s).1 == None
    ensures var s1 := AfterUnpin(s, p);
      NewPageSafe(s1) && AfterNewPage(s1).1.Some? &&
      NewPageSafe(AfterNewPage(s1).0) && AfterNewPage(AfterNewPage(s1).0).1 == None
  {
    NewPageExhausted(s);
    var f := s.table[p].pageId;
    var s1 := AfterUnpin(s, p);
    assert s1.replacer.evictable == {f};
    assert HistoryOk(s1.replacer.history[f], s1.replacer.k, s1.replacer.clock);
    assert Scannable(s1.replacer);
    assert FirstFreeSlot(s1).None?;
    var (s2, r2) := AfterNewPage(s1);
    assert Victim(s1.replacer) == f;
    assert s2.replacer.evictable == {};
    assert forall i :: 0 <= i < s2.poolSize ==> i in s2.table;
    NewPageExhausted(s2);
  }

  /** A frame with index 0, clean and zeroed, pinned `pins` times: the only frame of the trace below. */
  function TraceFrame(pins: int): FrameView {
    FrameView(0, pins, false, Zeros(PAGE_SIZE))
  }

  /** The trace's first steps: `newPage` takes the free slot 0 for page 0, then `unpinPage(0)`. */
  lemma TraceFirstPage()
    ensures var s0 := PoolState(1, map[], 0, ReplacerState(2, map[], {}, 0), map[]);
      NewPageSafe(s0) && AfterNewPage(s0).1 == Some(0) &&
      AfterUnpin(AfterNewPage(s0).0, 0) ==
        PoolState(1, map[0 := TraceFrame(0)], 1, ReplacerState(2, map[0 := [1]], {0}, 1), map[])
  {
    var s0 := PoolState(1, map[], 0, ReplacerState(2, map[], {}, 0), map[]);
    assert FirstFreeSlot(s0) == Some(0);
    assert Trimmed([] + [1], 2) == [1];
  }

  /** `newPage` evicts frame 0 for page 1 (page 0 keeps its entry), then `unpinPage(1)`. */
  lemma TraceSecondPage()
    ensures var s1 := PoolState(1, map[0 := TraceFrame(0)], 1, ReplacerState(2, map[0 := [1]], {0}, 1), map[]);
      NewPageSafe(s1) && AfterNewPage(s1).1 == Some(1) &&
      AfterUnpin(AfterNewPage(s1).0, 1) ==
        PoolState(1, map[0 := TraceFrame(0), 1 := TraceFrame(0)], 2,
                  ReplacerState(2, map[0 := [2]], {0}, 2), map[])
  {
    var s1 := PoolState(1, map[0 := TraceFrame(0)], 1, ReplacerState(2, map[0 := [1]], {0}, 1), map[]);
    assert FirstFreeSlot(s1).None?;
    assert Victim(s1.replacer) == 0;
    assert Trimmed([] + [2], 2) == [2];
  }

  /** `newPage` evicts frame 0 again for page 2, then `deletePage(1)` forgets frame 0 and `unpinPage(2)` marks it evictable. */
  lemma TraceThirdPage()
    ensures var s2 := PoolState(1, map[0 := TraceFrame(0), 1 := TraceFrame(0)], 2,
                                ReplacerState(2, map[0 := [2]], {0}, 2), map[]);
      NewPageSafe(s2) && AfterNewPage(s2).1 == Some(2) &&
      AfterDeletePage(AfterNewPage(s2).0, 1).1 &&
      AfterUnpin(AfterDeletePage(AfterNewPage(s2).0, 1).0, 2) ==
        PoolState(1, map[0 := TraceFrame(0), 2 := TraceFrame(0)], 3, ReplacerState(2, map[], {0}, 3), map[])
  {
    var s2 := PoolState(1, map[0 := TraceFrame(0), 1 := TraceFrame(0)], 2,
                        ReplacerState(2, map[0 := [2]], {0}, 2), map[]);
    assert FirstFreeSlot(s2).None?;
    assert Victim(s2.replacer) == 0;
    assert Trimmed([] + [3], 2) == [3];
    var a2 := AfterNewPage(s2).0;
    assert a2.table == map[0 := TraceFrame(0), 1 := TraceFrame(0), 2 := TraceFrame(1)];
    var s3 := AfterDeletePage(a2, 1).0;
    assert s3.table == map[0 := TraceFrame(0), 2 := TraceFrame(1)];
  }

  /**
   * The state `evict` cannot handle is reachable. With one frame and k = 2:
   * newPage (page 0), unpinPage(0), newPage (evicts frame 0, page 1),
   * unpinPage(1), newPage (page 2), deletePage(1), unpinPage(2). Page 0
   * still holds the only slot, and frame 0 is evictable with no history,
   * so the next `newPage` would scan a frame whose history is null.
   */
  lemma NullHistoryReachable()
    ensures var s0 := PoolState(1, map[], 0, ReplacerState(2, map[], {}, 0), map[]);
      PoolInv(s0) && NewPageSafe(s0) && AfterNewPage(s0).1 == Some(0) &&
      (var s1 := AfterUnpin(AfterNewPage(s0).0, 0);
       NewPageSafe(s1) && AfterNewPage(s1).1 == Some(1) &&
       (var s2 := AfterUnpin(AfterNewPage(s1).0, 1);
        NewPageSafe(s2) && AfterNewPage(s2).1 == Some(2) &&
        (var (s3, deleted) := AfterDeletePage(AfterNewPage(s2).0, 1);
         var s4 := AfterUnpin(s3, 2);
         deleted && PoolInv(s4) &&
         0 in s4.replacer.evictable && 0 !in s4.replacer.history && !NewPageSafe(s4))))
  {
    TraceFirstPage();
    TraceSecondPage();
    TraceThirdPage();
    var s4 := PoolState(1, map[0 := TraceFrame(0), 2 := TraceFrame(0)], 3, ReplacerState(2, map[], {0}, 3), map[]);
    assert FirstFreeSlot(s4).None?;
    assert !Scannable(s4.replacer);
  }

  /** From the state after `newPage`, `unpinPage(0)`: `newPage` evicts frame 0 for page 1, which stays pinned. */
  lemma TraceEvictForPageOne()
    ensures var s1 := PoolState(1, map[0 := TraceFrame(0)], 1, ReplacerState(2, map[0 := [1]], {0}, 1), map[]);
      NewPageSafe(s1) && AfterNewPage(s1) ==
        (PoolState(1, map[0 := TraceFrame(0), 1 := TraceFrame(1)], 2, ReplacerState(2, map[0 := [2]], {}, 2), map[]),
         Some(1))
  {
    var s1 := PoolState(1, map[0 := TraceFrame(0)], 1, ReplacerState(2, map[0 := [1]], {0}, 1), map[]);
    assert FirstFreeSlot(s1).None?;
    assert Victim(s1.replacer) == 0;
    assert Trimmed([] + [2], 2) == [2];
    var r := Removed(s1.replacer, 0);
    assert r == ReplacerState(2, map[], {}, 1);
    assert Accessed(WithEvictable(r, 0, false), 0) == ReplacerState(2, map[0 := [2]], {}, 2);
    assert Pinned(NewFrame(0)) == TraceFrame(1);
  }

  /**
   * `checkedReadPage(0)` pins page 0 and marks frame index 0 non-evictable;
   * `unpinPage(1)` then brings page 1's count to zero and marks the same
   * index evictable again, while page 0 is still pinned.
   */
  lemma TraceReadThenUnpinOther()
    ensures var a := PoolState(1, map[0 := TraceFrame(0), 1 := TraceFrame(1)], 2, ReplacerState(2, map[0 := [2]], {}, 2), map[]);
      AfterCheckedRead(a, 0).1 == Some(0) &&
      AfterUnpin(AfterCheckedRead(a, 0).0, 1) ==
        PoolState(1, map[0 := TraceFrame(1), 1 := TraceFrame(0)], 2, ReplacerState(2, map[0 := [2, 3]], {0}, 3), map[])
  {
    assert Trimmed([2] + [3], 2) == [2, 3];
  }

  /**
   * That state meets the pool invariant while pinned page 0's frame index 0
   * is evictable, and `newPage` evicts frame index 0 for page 2.
   */
  lemma TraceEvictPinnedFrame()
    ensures var s := PoolState(1, map[0 := TraceFrame(1), 1 := TraceFrame(0)], 2, ReplacerState(2, map[0 := [2, 3]], {0}, 3), map[]);
      PoolInv(s) && 0 in s.table && s.table[0].pinCount == 1 && s.table[0].pageId == 0 && 0 in s.replacer.evictable &&
      NewPageSafe(s) && AfterNewPage(s).1 == Some(2) &&
      AfterNewPage(s).0.table == map[0 := TraceFrame(1), 1 := TraceFrame(0), 2 := TraceFrame(1)]
  {
    var s := PoolState(1, map[0 := TraceFrame(1), 1 := TraceFrame(0)], 2, ReplacerState(2, map[0 := [2, 3]], {0}, 3), map[]);
    assert HistoryOk(s.replacer.history[0], 2, 3);
    assert FirstFreeSlot(s).None?;
    assert Victim(s.replacer) == 0;
  }

  /**
   * Pin counts are kept per page-table entry, evictability per frame index,
   * so a pinned page's frame index can be evictable. With one frame and
   * k = 2: newPage (page 0), unpinPage(0), newPage (evicts frame 0, page 1),
   * checkedReadPage(0), unpinPage(1). Page 0 holds a pin and its frame
   * index 0 is evictable, so the next `newPage` hands frame index 0 to
   * page 2 while page 0 is still pinned.
   */
  lemma PinnedPageFrameEvictable()
    ensures var s0 := PoolState(1, map[], 0, ReplacerState(2, map[], {}, 0), map[]);
      NewPageSafe(s0) && AfterNewPage(s0).1 == Some(0) &&
      (var s1 := AfterUnpin(AfterNewPage(s0).0, 0);
       NewPageSafe(s1) && AfterNewPage(s1).1 == Some(1) &&
       (var (a, g) := AfterCheckedRead(AfterNewPage(s1).0, 0);
        var s := AfterUnpin(a, 1);
        g == Some(0) && PoolInv(s) &&
        0 in s.table && s.table[0].pinCount == 1 && s.table[0].pageId == 0 && 0 in s.replacer.evictable &&
        NewPageSafe(s) && AfterNewPage(s).1 == Some(2) &&
        (var t := AfterNewPage(s).0;
         2 in t.table && t.table[2].pageId == 0 && 0 in t.table && t.table[0].pinCount == 1)))
  {
    var s0 := PoolState(1, map[], 0, ReplacerState(2, map[], {}, 0), map[]);
    TraceFirstPage();
    var s1 := AfterUnpin(AfterNewPage(s0).0, 0);
    assert s1 == PoolState(1, map[0 := TraceFrame(0)], 1, ReplacerState(2, map[0 := [1]], {0}, 1), map[]);
    TraceEvictForPageOne();
    var n1 := AfterNewPage(s1).0;
    assert n1 == PoolState(1, map[0 := TraceFrame(0), 1 := TraceFrame(1)], 2, ReplacerState(2, map[0 := [2]], {}, 2), map[]);
    TraceReadThenUnpinOther();
    var s := AfterUnpin(AfterCheckedRead(n1, 0).0, 1);
    assert s == PoolState(1, map[0 := TraceFrame(1), 1 := TraceFrame(0)], 2, ReplacerState(2, map[0 := [2, 3]], {0}, 3), map[]);
    TraceEvictPinnedFrame();
  }

  // ---------------------------------------------------------------------
  // deletePage
  // ---------------------------------------------------------------------

  /**
   * `deletePage(p)` fails and changes nothing when p is absent or pinned;
   * otherwise it drops p from the table and the frame index from the
   * replacer, touches nothing else, and succeeds.
   */
  lemma DeletePageOutcome(s: PoolState, p: int)
    ensures var (t, ok) := AfterDeletePage(s, p);
      (ok <==> p in s.table && s.table[p].pinCount <= 0) &&
      (!ok ==> t == s) &&
      (ok ==> t.table == s.table - {p} && p !in t.table &&
              t.replacer == Removed(s.replacer, s.table[p].pageId) &&
              s.table[p].pageId !in t.replacer.evictable && s.table[p].pageId !in t.replacer.history &&
              t.nextPageId == s.nextPageId && t.store == s.store)
  {
  }

  /**
   * Deleting an unpinned page frees a slot for `newPage` exactly when its id
   * is below the pool size; the next `newPage` then uses that id as frame index.
   */
  lemma DeleteThenNewPage(s: PoolState, p: int)
    requires PoolInv(s)
    requires forall i :: 0 <= i < s.poolSize ==> i in s.table
    requires p in s.table && s.table[p].pinCount == 0
    ensures var t := AfterDeletePage(s, p).0;
      (0 <= p < s.poolSize ==>
         FirstFreeSlot(t) == Some(p) && AfterNewPage(t).0.table[AfterNewPage(t).1.value].pageId == p) &&
      (p >= s.poolSize ==> FirstFreeSlot(t).None?)
  {
    var t := AfterDeletePage(s, p).0;
    if 0 <= p < s.poolSize {
      var r := FirstFreeSlot(t);
      assert r.Some? && r.value == p;
    } else {
      assert FirstFreeSlot(t).None?;
    }
  }

  // ---------------------------------------------------------------------
  // flushPage, flushAllPages
  // ---------------------------------------------------------------------

  /**
   * `flushPage(p)` fails without touching the store when p is absent or
   * clean. Otherwise the store maps p to the frame's bytes, nothing else
   * changes, and the page is still dirty afterwards.
   */
  lemma FlushPageOutcome(s: PoolState, p: int)
    ensures var (t, ok) := AfterFlushPage(s, p);
      (ok <==> p in s.table && s.table[p].dirty) &&
      (!ok ==> t == s) &&
      (ok ==> t.store == s.store[p := s.table[p].data] && t.table == s.table &&
              t.table[p].dirty && t.replacer == s.replacer && t.nextPageId == s.nextPageId)
  {
  }

  /** Because the flag is never cleared, a second flush of the same page writes again and succeeds. */
  lemma FlushPageTwice(s: PoolState, p: int)
    requires AfterFlushPage(s, p).1
    ensures var t := AfterFlushPage(s, p).0;
      AfterFlushPage(t, p).1 && AfterFlushPage(t, p).0 == t
  {
  }

  /** Flushing one more page of the table extends the written-back store by that page alone. */
  lemma WrittenBackStep(store: map<int, seq<byte>>, table: map<int, FrameView>, done: set<int>, p: int)
    requires p !in done
    ensures WrittenBack(store, table, done + {p}) ==
      if p in table && table[p].dirty then WrittenBack(store, table, done)[p := table[p].data]
      else WrittenBack(store, table, done)
  {
  }

  /** `flushAllPages` writes each dirty resident page's bytes and leaves every other block as it was. */
  lemma FlushAllOutcome(s: PoolState, q: int)
    ensures var t := AfterFlushAll(s);
      t.table == s.table && t.replacer == s.replacer && t.nextPageId == s.nextPageId &&
      (q in s.table && s.table[q].dirty ==> q in t.store && t.store[q] == s.table[q].data) &&
      (!(q in s.table && s.table[q].dirty) ==> (q in t.store <==> q in s.store) &&
                                               (q in s.store ==> t.store[q] == s.store[q]))
  {
  }

  // ---------------------------------------------------------------------
  // getPinCount, checkedReadPage, checkedWritePage, unpinPage
  // ---------------------------------------------------------------------

  /** Pin counts are never negative, so -1 tells exactly that a page is not in the table. */
  lemma PinCountSentinel(s: PoolState, p: int)
    requires PoolInv(s)
    ensures PinCountOf(s, p) == -1 <==> p !in s.table
    ensures p in s.table ==> PinCountOf(s, p) == s.table[p].pinCount >= 0
  {
  }

  /**
   * The checked fetches return nothing and change nothing for an absent page.
   * For a resident page they add one pin, make the frame index non-evictable
   * with one more recorded access, mark the frame dirty for a write, and
   * return the frame index for the guard.
   */
  lemma CheckedFetchOutcome(s: PoolState, p: int, write: bool)
    ensures var (t, g) := Acquired(s, p, write);
      (p !in s.table ==> t == s && g == None) &&
      (p in s.table ==>
        var v := s.table[p];
        g == Some(v.pageId) &&
        t.table == s.table[p := v.(pinCount := v.pinCount + 1, dirty := v.dirty || write)] &&
        v.pageId !in t.replacer.evictable &&
        t.replacer == Accessed(WithEvictable(s.replacer, v.pageId, false), v.pageId) &&
        t.nextPageId == s.nextPageId && t.store == s.store)
  {
  }

  /**
   * `unpinPage(p)` changes nothing for an absent page or a zero pin count.
   * Otherwise it removes one pin and, when none is left, makes the frame
   * index evictable.
   */
  lemma UnpinOutcome(s: PoolState, p: int)
    ensures var t := AfterUnpin(s, p);
      (p !in s.table || s.table[p].pinCount <= 0 ==> t == s) &&
      (p in s.table && s.table[p].pinCount > 0 ==>
        t.table == s.table[p := s.table[p].(pinCount := s.table[p].pinCount - 1)] &&
        (s.table[p].pinCount == 1 ==> t.replacer == WithEvictable(s.replacer, s.table[p].pageId, true)) &&
        (s.table[p].pinCount > 1 ==> t.replacer == s.replacer) &&
        t.store == s.store && t.nextPageId == s.nextPageId)
  {
  }

  /** A pin from a checked fetch is undone by one unpin of the same page, up to the access it recorded. */
  lemma FetchThenUnpin(s: PoolState, p: int, write: bool)
    requires PoolInv(s) && p in s.table
    ensures var t := AfterUnpin(Acquired(s, p, write).0, p);
      t.table[p].pinCount == s.table[p].pinCount &&
      (t.table[p].pinCount == 0 <==> s.table[p].pageId in t.replacer.evictable)
  {
  }

  // ---------------------------------------------------------------------
  // Write guard release
  // ---------------------------------------------------------------------

  /**
   * Closing a live write guard whose id names a dirty, pinned page leaves the
   * frame's bytes in the store under that id and one pin fewer on it.
   */
  lemma WriteGuardCloseWritesBack(s: PoolState, g: int)
    requires PoolInv(s) && g in s.table && s.table[g].dirty && s.table[g].pinCount >= 1
    ensures var t := AfterWriteGuardClose(s, g);
      g in t.store && t.store[g] == s.table[g].data &&
      g in t.table && t.table[g].pinCount == s.table[g].pinCount - 1 && t.table[g].dirty
  {
  }

  /**
   * The guard receives the frame index, not the page id. Here page 5 lives
   * in frame 2 and page 2 in frame 2 as well (left behind by an eviction):
   * fetching page 5 for writing and closing the guard unpins page 2 and
   * leaves page 5 pinned.
   */
  lemma WriteGuardTargetsFrameIndex()
    ensures var z := Zeros(PAGE_SIZE);
      var s := PoolState(3, map[2 := FrameView(2, 1, false, z), 5 := FrameView(2, 0, false, z)], 6,
                         ReplacerState(2, map[2 := [1]], {}, 1), map[]);
      var (t, g) := AfterCheckedWrite(s, 5);
      g == Some(2) &&
      AfterWriteGuardClose(t, 2).table[5].pinCount == 1 &&
      AfterWriteGuardClose(t, 2).table[2].pinCount == 0
  {
  }
}
