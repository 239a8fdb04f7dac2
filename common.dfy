/** Definitions shared by every part of the buffer pool model. */
module Common {

  /** A byte of page data (Java's `byte`, taken as an opaque 8-bit value). */
  type byte = bv8

  /** Size in bytes of every page: the frame buffer and every block of the page store. */
  const PAGE_SIZE: nat := 4096

  /** Java's `Long.MIN_VALUE` and `Long.MAX_VALUE`, used as the replacer's initial search bounds. */
  const LONG_MIN: int := -0x8000_0000_0000_0000
  const LONG_MAX: int := 0x7FFF_FFFF_FFFF_FFFF

  /** Java's `Optional` and nullable returns. */
  datatype Option<T> = None | Some(value: T)

  /** Some member of a non-empty set: how a loop over a Java set takes its next element. */
  lemma Choose<T>(s: set<T>) returns (x: T)
    requires s != {}
    ensures x in s
  {
    if forall y :: y !in s {
      assert false;
    }
    x :| x in s;
  }

  /** A block of `n` zero bytes, what `new byte[n]` holds. */
  function Zeros(n: nat): (r: seq<byte>)
    ensures |r| == n
    ensures forall i :: 0 <= i < n ==> r[i] == 0
  {
    seq(n, _ => 0)
  }
}
