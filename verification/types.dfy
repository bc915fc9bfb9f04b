/**
 * The public types of the ring buffer component: the status every operation
 * returns and the configuration a caller hands to initialisation.
 */
module RingBufferTypes {

  /** The outcome of every ring buffer operation (errors are returned, never raised). */
  datatype Status =
    | Ok
    | Error                 // the "false" answer of IsEmpty and IsFull
    | ErrorInputArgs
    | ErrorNotInitialized
    | ErrorInvalidIndex
    | ErrorBufferEmpty
    | ErrorBufferFull
    | ErrorOverflow         // declared, never returned
    | StatusMax             // declared, never returned

  /**
   * The configuration. `buffer` is the caller's memory block, borrowed and
   * never freed; null stands for a null pointer. `bufferSize` is the number of
   * its bytes the ring may use, `elementSize` the number of bytes per element,
   * and `overwrite` chooses between rejecting and evicting when full.
   */
  datatype Conf = Conf(buffer: array?<bv8>, bufferSize: nat, elementSize: nat, overwrite: bool)
}

/**
 * The component's private helpers: early-return argument guards and the
 * byte loops that stand in for memset and memcpy.
 */
module RingBufferMacros {
  import opened RingBufferTypes

  /** What an argument guard decides: fall through, or return `status` at once. */
  datatype Check = Continue | Return(status: Status)

  /** Returns `action` exactly when the pointer is null; otherwise falls through. */
  function CheckArgsNullPtr(ptr: object?, action: Status): (c: Check)
    ensures c.Return? <==> ptr == null
    ensures c.Return? ==> c.status == action
  {
    if ptr == null then Return(action) else Continue
  }

  /** Returns `action` exactly when `value` equals `check`; otherwise falls through. */
  function CheckArgsSize(value: nat, check: nat, action: Status): (c: Check)
    ensures c.Return? <==> value == check
    ensures c.Return? ==> c.status == action
  {
    if check == value then Return(action) else Continue
  }

  /**
   * Sets the first `len` bytes of `dst` to `val` converted to an unsigned
   * byte (reduced modulo 256); does nothing when `dst` is null.
   */
  method MemSet(dst: array?<bv8>, val: int, len: nat)
    requires dst != null ==> len <= dst.Length
    modifies dst
    ensures dst != null ==> forall i :: 0 <= i < dst.Length ==>
      dst[i] == if i < len then (val % 256) as bv8 else old(dst[i])
  {
    if dst != null {
      var b := (val % 256) as bv8;
      for i := 0 to len
        invariant forall k :: 0 <= k < dst.Length ==> dst[k] == if k < i then b else old(dst[k])
      {
        dst[i] := b;
      }
    }
  }

  /**
   * The block `dst` after `len` bytes of `src` starting at `srcOff` have been
   * copied over it starting at `off`: the bytes in [off, off + len) come from
   * `src`, every other byte is kept.
   */
  function Copied(dst: seq<bv8>, off: nat, src: seq<bv8>, srcOff: nat, len: nat): (r: seq<bv8>)
    requires off + len <= |dst| && srcOff + len <= |src|
    ensures |r| == |dst|
    ensures forall i :: 0 <= i < |r| ==> r[i] == if off <= i < off + len then src[srcOff + (i - off)] else dst[i]
  {
    dst[..off] + src[srcOff..srcOff + len] + dst[off + len..]
  }

  /**
   * Copies `len` bytes from `src` at `srcOff` to `dst` at `dstOff`, one byte
   * at a time from the lowest address; does nothing when either pointer is
   * null (and copies nothing when `len` is 0). The two blocks are distinct
   * arrays: every caller copies between the ring region and caller memory.
   */
  method MemCpy(dst: array?<bv8>, dstOff: nat, src: array?<bv8>, srcOff: nat, len: nat)
    requires dst != null && src != null ==> dst != src && dstOff + len <= dst.Length && srcOff + len <= src.Length
    modifies dst
    ensures dst != null && src != null ==> dst[..] == Copied(old(dst[..]), dstOff, src[..], srcOff, len)
    ensures dst != null && src == null ==> dst[..] == old(dst[..])
  {
    if src != null && dst != null {
      for i := 0 to len
        invariant forall k :: 0 <= k < dst.Length ==>
          dst[k] == if dstOff <= k < dstOff + i then src[srcOff + (k - dstOff)] else old(dst[k])
      {
        dst[dstOff + i] := src[srcOff + i];
      }
      ghost var r := Copied(old(dst[..]), dstOff, src[..], srcOff, len);
      assert forall k :: 0 <= k < dst.Length ==> dst[k] == r[k];
    }
  }
}
