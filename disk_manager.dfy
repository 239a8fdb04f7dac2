/**
 * The in-memory page store: a map from page id to a stored block. The
 * asynchronous request queue in front of it is collapsed into direct,
 * synchronous calls.
 */
module Disk {
  import opened Common

  /** What `readPage(pageId, buffer)` leaves in a buffer of length `n`. */
  function ReadBlock(storage: map<int, seq<byte>>, pageId: int, n: nat): seq<byte>
    requires pageId in storage ==> |storage[pageId]| >= n
  {
    if pageId in storage then storage[pageId][..n] else Zeros(n)
  }

  /** A page that was never written reads back as zeros. */
  lemma ReadUnwritten(storage: map<int, seq<byte>>, pageId: int, n: nat)
    requires pageId !in storage
    ensures |ReadBlock(storage, pageId, n)| == n
    ensures forall i :: 0 <= i < n ==> ReadBlock(storage, pageId, n)[i] == 0
  {
  }

  /** Writing a block and reading it back into a buffer of the same length gives the block. */
  lemma ReadAfterWrite(storage: map<int, seq<byte>>, pageId: int, d: seq<byte>)
    ensures ReadBlock(storage[pageId := d], pageId, |d|) == d
  {
  }

  /** A write to one page leaves what every other page reads unchanged. */
  lemma WriteLeavesOtherPages(storage: map<int, seq<byte>>, pageId: int, d: seq<byte>, other: int, n: nat)
    requires other != pageId
    requires other in storage ==> |storage[other]| >= n
    ensures ReadBlock(storage[pageId := d], other, n) == ReadBlock(storage, other, n)
  {
  }

  class DiskManager {
    var storage: map<int, seq<byte>>

    constructor ()
      ensures storage == map[]
    {
      storage := map[];
    }

    /**
     * Copies the first `buffer.Length` bytes of the stored block, or zeros
     * for a page never written. A stored block shorter than the buffer makes
     * the source's copy fail, so the caller must not ask for that.
     */
    method ReadPage(pageId: int, buffer: array<byte>)
      requires pageId in storage ==> |storage[pageId]| >= buffer.Length
      modifies buffer
      ensures buffer[..] == ReadBlock(storage, pageId, buffer.Length)
    {
      var data := if pageId in storage then storage[pageId] else Zeros(buffer.Length);
      forall i | 0 <= i < buffer.Length {
        buffer[i] := data[i];
      }
    }

    /** Stores a copy of the caller's bytes: later changes to `data` do not reach the store. */
    method WritePage(pageId: int, data: array<byte>)
      modifies this
      ensures storage == old(storage)[pageId := data[..]]
    {
      storage := storage[pageId := data[..]];
    }
  }

  /**
   * A client of the store: write a buffer, scribble over the buffer, then read
   * the page into a second buffer of the same length. The read returns the
   * bytes as they were when written.
   */
  method WriteCopiesThenReadBack(disk: DiskManager, pageId: int, data: array<byte>, buffer: array<byte>)
    requires data != buffer && data.Length == buffer.Length && data.Length > 0
    modifies disk, data, buffer
    ensures buffer[..] == old(data[..])
    ensures disk.storage == old(disk.storage)[pageId := old(data[..])]
  {
    disk.WritePage(pageId, data);
    data[0] := data[0] + 1;
    disk.ReadPage(pageId, buffer);
    ReadAfterWrite(old(disk.storage), pageId, old(data[..]));
  }
}
