/**
 * The buffer pool manager and the two page guards it hands out. The guards
 * live in this module because the manager constructs them and they hold a
 * reference back to the manager.
 *
 * Every operation runs as one atomic step: the pool's lock, the replacer's
 * lock and the frames' synchronized methods are not modelled. The request
 * queue to the page store is replaced by a direct call to DiskManager.
 */
module BufferPool {
  import opened Common
  import opened Frames
  import opened LruK
  import opened Disk
  import opened PoolModel

  class BufferPoolManager {
    const poolSize: int
    const disk: DiskManager
    const replacer: LRUKReplacer
    var pageTable: map<int, FrameHeader>
    var nextPageId: int
    ghost var Repr: set<object>

    /** The heap shape: the objects the state is read from, and no frame shared by two page ids. */
    ghost predicate Shape()
      reads this, Repr
    {
      this in Repr && replacer in Repr && disk in Repr &&
      (forall p :: p in pageTable ==> pageTable[p] in Repr && pageTable[p].data in Repr) &&
      (forall p, q :: p in pageTable && q in pageTable && p != q ==> pageTable[p] != pageTable[q])
    }

    ghost function Table(): (t: map<int, FrameView>)
      reads this, Repr
      requires Shape()
      ensures t.Keys == pageTable.Keys
    {
      map p | p in pageTable :: pageTable[p].View()
    }

    ghost function State(): PoolState
      reads this, Repr
      requires Shape()
    {
      PoolState(poolSize, Table(), nextPageId, replacer.State(), disk.storage)
    }

    ghost predicate Valid()
      reads this, Repr
    {
      Shape() && PoolInv(State())
    }

    /**
     * The view of the page table after page id `id` was put or its frame
     * changed, while every other entry kept its frame and that frame's fields.
     */
    twostate lemma TableUpdated(id: int)
      requires old(Shape()) && Shape() && id in pageTable
      requires pageTable.Keys == old(pageTable).Keys + {id}
      requires forall p :: p in pageTable && p != id ==>
        pageTable[p] == old(pageTable[p]) && unchanged(pageTable[p], pageTable[p].data)
      ensures Table() == old(Table())[id := pageTable[id].View()]
    {
      forall p | p in pageTable && p != id
        ensures p in old(pageTable) && Table()[p] == old(Table())[p]
      {
        var f := pageTable[p];
        assert f == old(pageTable[p]);
        assert f.View() == old(f.View());
      }
    }

    /** The source's `Collections.nCopies(poolSize, null)` rejects a negative pool size. */
    constructor (poolSize: int, disk: DiskManager, replacer: LRUKReplacer)
      requires poolSize >= 0 && replacer.Valid()
      ensures Valid() && fresh(Repr - {replacer, disk})
      ensures State() == PoolState(poolSize, map[], 0, replacer.State(), disk.storage)
    {
      this.poolSize := poolSize;
      this.disk := disk;
      this.replacer := replacer;
      pageTable := map[];
      nextPageId := 0;
      Repr := {this, replacer, disk};
    }

    method NewPage() returns (pageId: Option<int>)
      requires Valid() && NewPageSafe(State())
      modifies Repr
      ensures Valid() && fresh(Repr - old(Repr))
      ensures (State(), pageId) == AfterNewPage(old(State()))
    {
      ghost var s := State();
      var i := 0;
      while i < poolSize
        invariant 0 <= i
        invariant unchanged(this) && unchanged(Repr)
        invariant Valid() && State() == s
        invariant FreeSlotFrom(pageTable.Keys, poolSize, i) == FirstFreeSlot(s)
      {
        if i !in pageTable {
          var id := AllocateNewPage(i);
          return Some(id);
        }
        i := i + 1;
      }
      var victimFrame := replacer.Evict();
      assert Table() == s.table;
      if victimFrame.None? {
        assert FirstFreeSlot(s).None? && s.replacer.evictable == {};
        return None;
      }
      assert State() == s.(replacer := Removed(s.replacer, victimFrame.value));
      // The source repeats the steps of allocateNewPage here inline, creating
      // the frame before taking the page id; the two steps are independent.
      var id := AllocateNewPage(victimFrame.value);
      pageId := Some(id);
    }

    method AllocateNewPage(frameId: int) returns (newPageId: int)
      requires Valid()
      modifies Repr
      ensures Valid()
      ensures fresh(Repr - old(Repr))
      ensures (State(), newPageId) == Allocated(old(State()), frameId)
    {
      ghost var s := State();
      newPageId := GenerateNewPageId();
      var newFrame := new FrameHeader(frameId);
      pageTable := pageTable[newPageId := newFrame];
      Repr := Repr + {newFrame, newFrame.data};
      assert fresh(Repr - old(Repr));
      newFrame.Pin();
      replacer.SetEvictable(frameId, false);
      replacer.RecordAccess(frameId);
      assert Shape();
      TableUpdated(newPageId);
      assert State() == Allocated(s, frameId).0;
      AllocatedKeepsInv(s, frameId);
    }

    method GenerateNewPageId() returns (id: int)
      modifies this`nextPageId
      ensures id == old(nextPageId) && nextPageId == id + 1
    {
      id := nextPageId;
      nextPageId := nextPageId + 1;
    }

    method DeletePage(pageId: int) returns (ok: bool)
      requires Valid()
      modifies Repr
      ensures Valid() && Repr == old(Repr)
      ensures (State(), ok) == AfterDeletePage(old(State()), pageId)
    {
      if pageId !in pageTable {
        return false;
      }
      var frame := pageTable[pageId];
      assert frame.View() == Table()[pageId];
      if frame.GetPinCount() > 0 {
        return false;
      }
      ghost var s := State();
      replacer.Remove(frame.GetPageId());
      pageTable := pageTable - {pageId};
      ok := true;
      assert Table() == s.table - {pageId};
      DeletePageKeepsInv(s, pageId);
    }

    method FlushPage(pageId: int) returns (ok: bool)
      requires Valid()
      modifies Repr
      ensures Valid() && Repr == old(Repr)
      ensures (State(), ok) == AfterFlushPage(old(State()), pageId)
    {
      ok := FlushPageUnsafe(pageId);
    }

    method FlushPageUnsafe(pageId: int) returns (ok: bool)
      requires Valid()
      modifies Repr
      ensures Valid() && Repr == old(Repr)
      ensures (State(), ok) == AfterFlushPage(old(State()), pageId)
    {
      if pageId !in pageTable || !pageTable[pageId].IsDirty() {
        return false;
      }
      ghost var s := State();
      var frame := pageTable[pageId];
      disk.WritePage(pageId, frame.GetData());
      frame.MarkDirty(false);
      ok := true;
      TableUpdated(pageId);
      FlushKeepsInv(s, pageId);
    }

    method FlushAllPages()
      requires Valid()
      modifies Repr
      ensures Valid() && Repr == old(Repr)
      ensures State() == AfterFlushAll(old(State()))
    {
      ghost var s := State();
      var toFlush := pageTable.Keys;
      ghost var done: set<int> := {};
      while toFlush != {}
        invariant Valid() && Repr == old(Repr)
        invariant toFlush + done == s.table.Keys && toFlush !! done
        invariant State() == s.(store := WrittenBack(s.store, s.table, done))
        decreases toFlush
      {
        ghost var next := Choose(toFlush);
        var pageId :| pageId in toFlush;
        ghost var before := State();
        var flushed := FlushPageUnsafe(pageId);
        FlushPageOutcome(before, pageId);
        WrittenBackStep(s.store, s.table, done, pageId);
        toFlush := toFlush - {pageId};
        done := done + {pageId};
      }
    }

    method GetPinCount(pageId: int) returns (n: int)
      requires Valid()
      ensures n == PinCountOf(State(), pageId)
      ensures n == -1 <==> pageId !in State().table
    {
      if pageId in pageTable {
        assert pageTable[pageId].View() == Table()[pageId];
        n := pageTable[pageId].GetPinCount();
      } else {
        n := -1;
      }
      PinCountSentinel(State(), pageId);
    }

    method CheckedReadPage(pageId: int) returns (guard: Option<ReadPageGuard>)
      requires Valid()
      modifies Repr
      ensures Valid() && Repr == old(Repr)
      ensures State() == AfterCheckedRead(old(State()), pageId).0
      ensures guard.Some? <==> AfterCheckedRead(old(State()), pageId).1.Some?
      ensures guard.Some? ==>
        fresh(guard.value) && guard.value.Valid() && guard.value.bufferPoolManager == this &&
        guard.value.pageId == AfterCheckedRead(old(State()), pageId).1.value
    {
      if pageId !in pageTable {
        return None;
      }
      ghost var s := State();
      var frame := pageTable[pageId];
      frame.Pin();
      replacer.SetEvictable(frame.GetPageId(), false);
      replacer.RecordAccess(frame.GetPageId());
      var g := new ReadPageGuard(this, frame.GetPageId());
      guard := Some(g);
      TableUpdated(pageId);
      AcquiredKeepsInv(s, pageId, false);
    }

    method CheckedWritePage(pageId: int) returns (guard: Option<WritePageGuard>)
      requires Valid()
      modifies Repr
      ensures Valid() && Repr == old(Repr)
      ensures State() == AfterCheckedWrite(old(State()), pageId).0
      ensures guard.Some? <==> AfterCheckedWrite(old(State()), pageId).1.Some?
      ensures guard.Some? ==>
        fresh(guard.value) && guard.value.Valid() && guard.value.bufferPoolManager == this &&
        guard.value.pageId == AfterCheckedWrite(old(State()), pageId).1.value
    {
      if pageId !in pageTable {
        return None;
      }
      ghost var s := State();
      var frame := pageTable[pageId];
      frame.Pin();
      frame.MarkDirty(true);
      replacer.SetEvictable(frame.GetPageId(), false);
      replacer.RecordAccess(frame.GetPageId());
      var g := new WritePageGuard(this, frame.GetPageId());
      guard := Some(g);
      TableUpdated(pageId);
      AcquiredKeepsInv(s, pageId, true);
    }

    /** The two diagnostics the source prints (absent page, already unpinned) are no-ops here. */
    method UnpinPage(pageId: int)
      requires Valid()
      modifies Repr
      ensures Valid() && Repr == old(Repr)
      ensures State() == AfterUnpin(old(State()), pageId)
    {
      if pageId !in pageTable {
        return;
      }
      ghost var s := State();
      var frame := pageTable[pageId];
      assert frame.View() == s.table[pageId];
      var currentPinCount := frame.GetPinCount();
      if currentPinCount > 0 {
        frame.Unpin();
        assert frame.Valid();
        if frame.GetPinCount() == 0 {
          replacer.SetEvictable(frame.GetPageId(), true);
        }
        TableUpdated(pageId);
      }
      assert State() == AfterUnpin(s, pageId);
      UnpinKeepsInv(s, pageId);
    }
  }

  /** A read guard: releasing it unpins its page id once; later releases do nothing. */
  class ReadPageGuard {
    var bufferPoolManager: BufferPoolManager?
    const pageId: int

    ghost predicate Valid()
      reads this, bufferPoolManager, if bufferPoolManager != null then bufferPoolManager.Repr else {}
    {
      bufferPoolManager != null ==> this !in bufferPoolManager.Repr && bufferPoolManager.Valid()
    }

    constructor (bpm: BufferPoolManager, pageId: int)
      ensures bufferPoolManager == bpm && this.pageId == pageId
    {
      bufferPoolManager := bpm;
      this.pageId := pageId;
    }

    method Drop()
      requires Valid()
      modifies this, if bufferPoolManager != null then bufferPoolManager.Repr else {}
      ensures bufferPoolManager == null
      ensures old(bufferPoolManager) != null ==>
        old(bufferPoolManager).Valid() && old(bufferPoolManager).Repr == old(bufferPoolManager.Repr) &&
        old(bufferPoolManager).State() == AfterUnpin(old(bufferPoolManager.State()), pageId)
      ensures old(bufferPoolManager) == null ==> unchanged(this)
    {
      if bufferPoolManager != null {
        bufferPoolManager.UnpinPage(pageId);
        bufferPoolManager := null;
      }
    }

    method Close()
      requires Valid()
      modifies this, if bufferPoolManager != null then bufferPoolManager.Repr else {}
      ensures bufferPoolManager == null
      ensures old(bufferPoolManager) != null ==>
        old(bufferPoolManager).Valid() && old(bufferPoolManager).Repr == old(bufferPoolManager.Repr) &&
        old(bufferPoolManager).State() == AfterUnpin(old(bufferPoolManager.State()), pageId)
      ensures old(bufferPoolManager) == null ==> unchanged(this)
    {
      Drop();
    }
  }

  /** A write guard: `Flush` writes its page id back while live; `Close` flushes, then unpins once. */
  class WritePageGuard {
    var bufferPoolManager: BufferPoolManager?
    const pageId: int

    ghost predicate Valid()
      reads this, bufferPoolManager, if bufferPoolManager != null then bufferPoolManager.Repr else {}
    {
      bufferPoolManager != null ==> this !in bufferPoolManager.Repr && bufferPoolManager.Valid()
    }

    constructor (bpm: BufferPoolManager, pageId: int)
      ensures bufferPoolManager == bpm && this.pageId == pageId
    {
      bufferPoolManager := bpm;
      this.pageId := pageId;
    }

    method Flush()
      requires Valid()
      modifies if bufferPoolManager != null then bufferPoolManager.Repr else {}
      ensures Valid() && unchanged(this)
      ensures bufferPoolManager != null ==>
        bufferPoolManager.Repr == old(bufferPoolManager.Repr) &&
        bufferPoolManager.State() == AfterFlushPage(old(bufferPoolManager.State()), pageId).0
    {
      if bufferPoolManager != null {
        var flushed := bufferPoolManager.FlushPage(pageId);
      }
    }

    method Drop()
      requires Valid()
      modifies this, if bufferPoolManager != null then bufferPoolManager.Repr else {}
      ensures bufferPoolManager == null
      ensures old(bufferPoolManager) != null ==>
        old(bufferPoolManager).Valid() && old(bufferPoolManager).Repr == old(bufferPoolManager.Repr) &&
        old(bufferPoolManager).State() == AfterUnpin(old(bufferPoolManager.State()), pageId)
      ensures old(bufferPoolManager) == null ==> unchanged(this)
    {
      if bufferPoolManager != null {
        bufferPoolManager.UnpinPage(pageId);
        bufferPoolManager := null;
      }
    }

    method Close()
      requires Valid()
      modifies this, if bufferPoolManager != null then bufferPoolManager.Repr else {}
      ensures bufferPoolManager == null
      ensures old(bufferPoolManager) != null ==>
        old(bufferPoolManager).Valid() && old(bufferPoolManager).Repr == old(bufferPoolManager.Repr) &&
        old(bufferPoolManager).State() == AfterWriteGuardClose(old(bufferPoolManager.State()), pageId)
      ensures old(bufferPoolManager) == null ==> unchanged(this)
    {
      Flush();
      Drop();
    }
  }

  /** A caller that releases a read guard twice: the page is unpinned exactly once. */
  method ReleaseReadGuardTwice(guard: ReadPageGuard)
    requires guard.Valid() && guard.bufferPoolManager != null
    modifies guard, guard.bufferPoolManager.Repr
    ensures guard.bufferPoolManager == null
    ensures var bpm := old(guard.bufferPoolManager);
      bpm.Valid() && bpm.State() == AfterUnpin(old(bpm.State()), guard.pageId)
  {
    guard.Drop();
    guard.Close();
  }

  /** A caller that closes a write guard twice: one flush and one unpin, as if closed once. */
  method CloseWriteGuardTwice(guard: WritePageGuard)
    requires guard.Valid() && guard.bufferPoolManager != null
    modifies guard, guard.bufferPoolManager.Repr
    ensures guard.bufferPoolManager == null
    ensures var bpm := old(guard.bufferPoolManager);
      bpm.Valid() && bpm.State() == AfterWriteGuardClose(old(bpm.State()), guard.pageId)
  {
    guard.Close();
    guard.Close();
  }
}
