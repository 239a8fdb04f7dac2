/**
 * A frame: one page-sized byte buffer with its pin count, dirty flag and the
 * `pageId` field. The constructor stores its `frameId` argument in `pageId`
 * and nothing in the pool ever calls `SetPageId`, so inside the pool the
 * field always holds the frame index.
 */
module Frames {
  import opened Common

  /** The observable contents of a frame. */
  datatype FrameView = FrameView(pageId: int, pinCount: int, dirty: bool, data: seq<byte>)

  /** A frame's own invariant: the pin count is never negative and the buffer is one page. */
  ghost predicate FrameOk(v: FrameView) {
    v.pinCount >= 0 && |v.data| == PAGE_SIZE
  }

  /** What `new FrameHeader(frameId)` holds. */
  function NewFrame(frameId: int): FrameView {
    FrameView(frameId, 0, false, Zeros(PAGE_SIZE))
  }

  function Pinned(v: FrameView): FrameView {
    v.(pinCount := v.pinCount + 1)
  }

  function Unpinned(v: FrameView): FrameView {
    if v.pinCount > 0 then v.(pinCount := v.pinCount - 1) else v
  }

  /** `markDirty(b)` sets the flag whatever `b` is. */
  function DirtyMarked(v: FrameView, b: bool): FrameView {
    v.(dirty := true)
  }

  function DirtyReset(v: FrameView): FrameView {
    v.(dirty := false)
  }

  lemma NewFrameIsClean(frameId: int)
    ensures var v := NewFrame(frameId);
      FrameOk(v) && v.pinCount == 0 && !v.dirty && v.pageId == frameId &&
      forall i :: 0 <= i < |v.data| ==> v.data[i] == 0
  {
  }

  /** The pin count moves by exactly one, never below zero, and an unpin undoes a pin. */
  lemma PinCounting(v: FrameView)
    requires FrameOk(v)
    ensures FrameOk(Pinned(v)) && Pinned(v).pinCount == v.pinCount + 1
    ensures FrameOk(Unpinned(v))
    ensures Unpinned(v).pinCount == if v.pinCount > 0 then v.pinCount - 1 else 0
    ensures Unpinned(Pinned(v)) == v
  {
  }

  /** `markDirty(false)` does not clean a frame: both arguments have the same effect. */
  lemma MarkDirtyIgnoresArgument(v: FrameView, b: bool)
    ensures DirtyMarked(v, b).dirty
    ensures DirtyMarked(v, false) == DirtyMarked(v, true)
    ensures !DirtyReset(DirtyMarked(v, b)).dirty
  {
  }

  /**
   * Pin, unpin and the dirty operations change neither the page id nor the
   * bytes; pin and unpin leave the dirty flag, the dirty operations leave the
   * pin count.
   */
  lemma MetadataOperationsKeepIdentity(v: FrameView, b: bool)
    ensures Pinned(v).pageId == v.pageId && Pinned(v).data == v.data && Pinned(v).dirty == v.dirty
    ensures Unpinned(v).pageId == v.pageId && Unpinned(v).data == v.data && Unpinned(v).dirty == v.dirty
    ensures DirtyMarked(v, b).pageId == v.pageId && DirtyMarked(v, b).data == v.data && DirtyMarked(v, b).pinCount == v.pinCount
    ensures DirtyReset(v).pageId == v.pageId && DirtyReset(v).data == v.data && DirtyReset(v).pinCount == v.pinCount
  {
  }

  class FrameHeader {
    const data: array<byte>
    var pinCount: int
    var isDirty: bool
    var pageId: int

    ghost function View(): FrameView
      reads this, data
    {
      FrameView(pageId, pinCount, isDirty, data[..])
    }

    ghost predicate Valid()
      reads this, data
    {
      FrameOk(View())
    }

    constructor (frameId: int)
      ensures Valid() && fresh(data)
      ensures View() == NewFrame(frameId)
    {
      data := new byte[PAGE_SIZE](_ => 0);
      pinCount := 0;
      isDirty := false;
      pageId := frameId;
      new;
      assert data[..] == Zeros(PAGE_SIZE);
    }

    function GetData(): (d: array<byte>)
      ensures d == data
    {
      data
    }

    method Pin()
      requires Valid()
      modifies this
      ensures Valid()
      ensures View() == Pinned(old(View()))
    {
      pinCount := pinCount + 1;
    }

    method Unpin()
      requires Valid()
      modifies this
      ensures Valid()
      ensures View() == Unpinned(old(View()))
    {
      if pinCount > 0 {
        pinCount := pinCount - 1;
      }
    }

    function GetPinCount(): (n: int)
      reads this, data
      requires Valid()
      ensures n >= 0 && n == View().pinCount
    {
      pinCount
    }

    function IsDirty(): (b: bool)
      reads this, data
      ensures b == View().dirty
    {
      isDirty
    }

    method MarkDirty(b: bool)
      requires Valid()
      modifies this
      ensures Valid()
      ensures View() == DirtyMarked(old(View()), b)
    {
      isDirty := true;
    }

    method ResetDirty()
      requires Valid()
      modifies this
      ensures Valid()
      ensures View() == DirtyReset(old(View()))
    {
      isDirty := false;
    }

    function GetPageId(): (id: int)
      reads this, data
      ensures id == View().pageId
    {
      pageId
    }

    method SetPageId(id: int)
      requires Valid()
      modifies this
      ensures Valid()
      ensures View() == old(View()).(pageId := id)
      ensures GetPageId() == id
    {
      pageId := id;
    }
  }
}
