/**
 * The ring buffer engine: a fixed-capacity FIFO of fixed-size elements kept
 * in a caller-supplied byte region, with head/tail byte offsets, an element
 * count and two capacity policies (reject when full, or overwrite the oldest).
 *
 * The API operations are free-standing methods that take the handle as a
 * possibly-null reference, as the C functions take a possibly-null pointer,
 * and caller memory as possibly-null arrays. Every operation checks, in
 * order, the handle, the caller pointer, initialisation, emptiness and the
 * index, and returns before changing anything when a check fails.
 */
module RingBuffer {
  import opened RingBufferTypes
  import opened RingBufferMacros
  import opened RingLayout

  /** The ring buffer object: its configuration and its cursors. */
  class Ring {
    var conf: Conf
    var head: nat         // byte offset where the next element is written
    var tail: nat         // byte offset where the oldest element starts
    var count: nat        // number of stored elements
    var maxElements: nat  // bufferSize / elementSize

    /** A ring buffer object whose bytes are all zero, i.e. not initialised. */
    constructor ()
      ensures Zeroed()
    {
      conf := Conf(null, 0, 0, false);
      head, tail, count, maxElements := 0, 0, 0, 0;
    }

    /** Every field is zero: the state before Init and after DeInit. */
    ghost predicate Zeroed()
      reads this
    {
      conf == Conf(null, 0, 0, false) && head == 0 && tail == 0 && count == 0 && maxElements == 0
    }

    /**
     * The object invariant. An initialised ring has a valid configuration, at
     * most maxElements elements, head inside the region, tail inside the
     * region or exactly at its end (Retrieve does not fold it back), and head
     * exactly count elements past tail, modulo the region size.
     */
    ghost predicate Valid()
      reads this
    {
      if conf.buffer == null then Zeroed()
      else
        && 0 < conf.elementSize <= conf.bufferSize <= conf.buffer.Length
        && maxElements == conf.bufferSize / conf.elementSize
        && count <= maxElements
        && head < conf.bufferSize
        && tail <= conf.bufferSize
        && head == ElementStart(conf.bufferSize, conf.elementSize, tail, count)
    }

    /**
     * The stored elements, oldest first: byte j of element i is the region
     * byte at offset (tail + i * elementSize + j) % bufferSize.
     */
    ghost function Elements(): (e: seq<seq<bv8>>)
      reads this, conf.buffer
      requires Valid()
      ensures |e| == count
      ensures forall i :: 0 <= i < |e| ==> |e[i]| == conf.elementSize
    {
      if conf.buffer == null then []
      else Live(conf.buffer[..], conf.bufferSize, conf.elementSize, tail, count)
    }

    /** Sets every field to zero (the memset of the whole object). */
    method Clear()
      modifies this
      ensures Zeroed()
    {
      conf := Conf(null, 0, 0, false);
      head, tail, count, maxElements := 0, 0, 0, 0;
    }
  }

  /** The region of an initialised ring, or null: what Insert and Replace write to. */
  function RegionOf(rb: Ring?): array?<bv8>
    reads rb
  {
    if rb == null then null else rb.conf.buffer
  }

  /**
   * Init validates the configuration and, when it is valid, resets the object
   * and stores it: an empty ring with room for bufferSize / elementSize elements.
   * On any error nothing changes.
   */
  method Init(rb: Ring?, conf: Conf) returns (s: Status)
    requires conf.buffer != null ==> conf.bufferSize <= conf.buffer.Length
    modifies rb
    ensures s == if rb == null || conf.buffer == null || conf.bufferSize == 0 || conf.elementSize == 0
                    || conf.bufferSize < conf.elementSize
                 then ErrorInputArgs else Ok
    ensures s != Ok && rb != null ==> unchanged(rb)
    ensures s == Ok ==> rb != null && rb.Valid() && rb.conf == conf
    ensures s == Ok ==> rb.head == 0 && rb.tail == 0 && rb.count == 0
    ensures s == Ok ==> rb.maxElements == conf.bufferSize / conf.elementSize && rb.Elements() == []
  {
    var c := CheckArgsNullPtr(rb, ErrorInputArgs);
    if c.Return? { return c.status; }
    c := CheckArgsNullPtr(conf.buffer, ErrorInputArgs);
    if c.Return? { return c.status; }
    c := CheckArgsSize(conf.bufferSize, 0, ErrorInputArgs);
    if c.Return? { return c.status; }
    c := CheckArgsSize(conf.elementSize, 0, ErrorInputArgs);
    if c.Return? { return c.status; }
    if conf.bufferSize < conf.elementSize {
      return ErrorInputArgs;
    }

    rb.Clear();
    rb.conf := conf;
    rb.maxElements := rb.conf.bufferSize / rb.conf.elementSize;
    return Ok;
  }

  /** DeInit zeroes the whole object, after which every operation but Init reports it not initialised. */
  method DeInit(rb: Ring?) returns (s: Status)
    modifies rb
    ensures s == if rb == null then ErrorInputArgs else if old(rb.conf.buffer) == null then ErrorNotInitialized else Ok
    ensures s != Ok && rb != null ==> unchanged(rb)
    ensures s == Ok ==> rb != null && rb.Zeroed() && rb.Valid()
  {
    var c := CheckArgsNullPtr(rb, ErrorInputArgs);
    if c.Return? { return c.status; }
    c := CheckArgsNullPtr(rb.conf.buffer, ErrorNotInitialized);
    if c.Return? { return c.status; }

    rb.Clear();
    return Ok;
  }

  /**
   * Copies one element of `elementSize` bytes from `data` into the region at
   * offset `pos`: in one piece when it fits before the end of the region,
   * otherwise the part that fits at the end first and the rest from offset 0.
   * Returns the offset just past the copied element as the copy computes it.
   */
  method WriteWrapped(buffer: array<bv8>, size: nat, pos: nat, data: array<bv8>, elementSize: nat) returns (next: nat)
    requires 0 < size <= buffer.Length && pos < size && elementSize <= size
    requires data != buffer && elementSize <= data.Length
    modifies buffer
    ensures buffer[..] == WriteAt(old(buffer[..]), size, pos, data[..elementSize])
    ensures next == if pos + elementSize <= size then pos + elementSize else pos + elementSize - size
  {
    ghost var mem := buffer[..];
    var endSpace := size - pos;
    if endSpace >= elementSize {
      MemCpy(buffer, pos, data, 0, elementSize);
      ContiguousWriteIsWriteAt(mem, size, pos, data[..], elementSize);
      next := pos + elementSize;
    } else {
      MemCpy(buffer, pos, data, 0, endSpace);
      MemCpy(buffer, 0, data, endSpace, elementSize - endSpace);
      SplitWriteIsWriteAt(mem, size, pos, data[..], elementSize);
      next := elementSize - endSpace;
    }
  }

  /**
   * Copies the element of `elementSize` bytes at offset `pos` of the region
   * into the front of `data`, split the same way; the rest of `data` is kept.
   * `pos` may equal `size`, in which case the first part is empty.
   */
  method ReadWrapped(buffer: array<bv8>, size: nat, pos: nat, data: array<bv8>, elementSize: nat) returns (next: nat)
    requires 0 < size <= buffer.Length && pos <= size && elementSize <= size
    requires data != buffer && elementSize <= data.Length
    modifies data
    ensures data[..elementSize] == ReadAt(buffer[..], size, pos, elementSize)
    ensures data[elementSize..] == old(data[elementSize..])
    ensures next == if pos + elementSize <= size then pos + elementSize else pos + elementSize - size
  {
    ghost var mem, out := buffer[..], data[..];
    var endSpace := size - pos;
    if endSpace >= elementSize {
      MemCpy(data, 0, buffer, pos, elementSize);
      ContiguousReadIsReadAt(mem, out, size, pos, elementSize);
      next := pos + elementSize;
    } else {
      MemCpy(data, 0, buffer, pos, endSpace);
      MemCpy(data, endSpace, buffer, 0, elementSize - endSpace);
      SplitReadIsReadAt(mem, out, size, pos, elementSize);
      next := elementSize - endSpace;
    }
  }

  /**
   * Insert copies one element from `data` into the region at head, splitting
   * the copy at the end of the region, and advances head by one element
   * modulo the region size. With room left it counts one more element. On a
   * full ring with overwrite it also advances tail by one element, which drops
   * the oldest element; without overwrite a full ring is an error.
   */
  method Insert(rb: Ring?, data: array?<bv8>) returns (s: Status)
    requires rb != null ==> rb.Valid()
    requires rb != null && data != null && rb.conf.buffer != null ==>
               data != rb.conf.buffer && rb.conf.elementSize <= data.Length
    modifies rb, RegionOf(rb)
    ensures s == if rb == null || data == null then ErrorInputArgs
                 else if old(rb.conf.buffer) == null then ErrorNotInitialized
                 else if !rb.conf.overwrite && old(rb.count) >= rb.maxElements then ErrorBufferFull
                 else Ok
    ensures rb != null ==> rb.Valid() && rb.conf == old(rb.conf) && rb.maxElements == old(rb.maxElements)
    ensures s != Ok && rb != null ==> unchanged(rb) && (rb.conf.buffer != null ==> unchanged(rb.conf.buffer))
    ensures s == Ok ==> rb != null && data != null && rb.conf.buffer != null
    ensures s == Ok ==> rb.head == (old(rb.head) + rb.conf.elementSize) % rb.conf.bufferSize
    ensures s == Ok && old(rb.count) < rb.maxElements ==>
              rb.count == old(rb.count) + 1 && rb.tail == old(rb.tail)
              && rb.Elements() == old(rb.Elements()) + [data[..rb.conf.elementSize]]
    ensures s == Ok && old(rb.count) >= rb.maxElements ==>
              rb.count == rb.maxElements && rb.tail == (old(rb.tail) + rb.conf.elementSize) % rb.conf.bufferSize
              && rb.Elements() == old(rb.Elements())[1..] + [data[..rb.conf.elementSize]]
    ensures s == Ok ==> WrittenAt(old(rb.conf.buffer[..]), rb.conf.buffer[..], rb.conf.bufferSize, old(rb.head),
                                  data[..rb.conf.elementSize])
  {
    var c := CheckArgsNullPtr(rb, ErrorInputArgs);
    if c.Return? { return c.status; }
    c := CheckArgsNullPtr(data, ErrorInputArgs);
    if c.Return? { return c.status; }
    c := CheckArgsNullPtr(rb.conf.buffer, ErrorNotInitialized);
    if c.Return? { return c.status; }

    if !rb.conf.overwrite && rb.count >= rb.maxElements {
      return ErrorBufferFull;
    }

    var buffer, size, es := rb.conf.buffer, rb.conf.bufferSize, rb.conf.elementSize;
    ghost var mem, src := buffer[..], data[..es];
    var head, tail, count := rb.head, rb.tail, rb.count;

    var next := WriteWrapped(buffer, size, head, data, es);
    head := next;
    if head >= size {
      head := 0;
    }

    if rb.conf.overwrite {
      if count >= rb.maxElements {
        tail := (tail + es) % size;
      }
    }

    if count < rb.maxElements {
      count := count + 1;
    }

    InsertLayout(mem, size, es, rb.tail, rb.count, src, next, head, tail, count);
    rb.head, rb.tail, rb.count := head, tail, count;

    return Ok;
  }

  /**
   * Where a successful insert leaves things. With room left, tail stays, the
   * count grows by one and the new element is appended; on a full ring, tail
   * moves one element forward and the new element replaces the oldest one at
   * the other end. Either way the new head, one element past the old one, is
   * again count elements past tail.
   */
  lemma {:induction false} InsertLayout(mem: seq<bv8>, size: nat, es: nat, tail: nat, count: nat, src: seq<bv8>,
                                         next: nat, newHead: nat, newTail: nat, newCount: nat)
    requires Region(mem, size) && 0 < es <= size && count <= size / es && |src| == es
    requires var head := ElementStart(size, es, tail, count);
             next == if head + es <= size then head + es else head + es - size
    requires newHead == if next >= size then 0 else next
    requires count < size / es ==> newTail == tail && newCount == count + 1
    requires count >= size / es ==> newTail == (tail + es) % size && newCount == count
    ensures newCount <= size / es
    ensures newHead == (ElementStart(size, es, tail, count) + es) % size
    ensures newHead == ElementStart(size, es, newTail, newCount)
    ensures Live(WriteAt(mem, size, ElementStart(size, es, tail, count), src), size, es, newTail, newCount)
            == if count < size / es then Live(mem, size, es, tail, count) + [src]
               else Live(mem, size, es, tail, count)[1..] + [src]
  {
    CapacityFits(count, size, es);
    WrapOnce(ElementStart(size, es, tail, count) + es, size);
    AdvanceHead(tail, count, es, size);
    if count < size / es {
      LiveAfterAppend(mem, size, es, tail, count, src);
    } else {
      ModAddMod(tail + es, 0, size);
      AdvanceTail(tail, newTail, count, es, size);
      LiveAfterOverwrite(mem, size, es, tail, count, src);
    }
  }

  /**
   * Retrieve copies the oldest element into `data` and removes it: tail
   * advances by one element, landing exactly on the end of the region when
   * the element ended there, or wrapping past offset 0 after a split copy.
   */
  method Retrieve(rb: Ring?, data: array?<bv8>) returns (s: Status)
    requires rb != null ==> rb.Valid()
    requires rb != null && data != null && rb.conf.buffer != null ==>
               data != rb.conf.buffer && rb.conf.elementSize <= data.Length
    modifies rb, data
    ensures s == if rb == null || data == null then ErrorInputArgs
                 else if old(rb.conf.buffer) == null then ErrorNotInitialized
                 else if old(rb.count) == 0 then ErrorBufferEmpty
                 else Ok
    ensures rb != null ==> rb.Valid() && rb.conf == old(rb.conf) && rb.maxElements == old(rb.maxElements)
    ensures rb != null ==> rb.head == old(rb.head)
    ensures s != Ok && rb != null ==> unchanged(rb)
    ensures s != Ok && data != null ==> unchanged(data)
    ensures s == Ok ==> rb != null && data != null && rb.conf.buffer != null
    ensures s == Ok ==> data[..rb.conf.elementSize] == old(rb.Elements())[0]
                        && data[rb.conf.elementSize..] == old(data[rb.conf.elementSize..])
    ensures s == Ok ==> rb.count == old(rb.count) - 1 && rb.Elements() == old(rb.Elements())[1..]
    ensures s == Ok ==> rb.tail == if old(rb.tail) + rb.conf.elementSize <= rb.conf.bufferSize
                                   then old(rb.tail) + rb.conf.elementSize
                                   else old(rb.tail) + rb.conf.elementSize - rb.conf.bufferSize
  {
    var c := CheckArgsNullPtr(rb, ErrorInputArgs);
    if c.Return? { return c.status; }
    c := CheckArgsNullPtr(data, ErrorInputArgs);
    if c.Return? { return c.status; }
    c := CheckArgsNullPtr(rb.conf.buffer, ErrorNotInitialized);
    if c.Return? { return c.status; }
    c := CheckArgsSize(rb.count, 0, ErrorBufferEmpty);
    if c.Return? { return c.status; }

    var buffer, size, es := rb.conf.buffer, rb.conf.bufferSize, rb.conf.elementSize;
    var tail := ReadWrapped(buffer, size, rb.tail, data, es);

    RetrieveLayout(buffer[..], size, es, rb.tail, rb.count, tail);
    rb.tail, rb.count := tail, rb.count - 1;

    return Ok;
  }

  /**
   * Where a successful retrieve leaves things: the bytes read at tail are the
   * oldest element, and with tail moved one element forward (folded back only
   * when the element was split) the head is still count - 1 elements past the
   * new tail and the remaining elements are the old ones without the first.
   */
  lemma {:induction false} RetrieveLayout(mem: seq<bv8>, size: nat, es: nat, tail: nat, count: nat, newTail: nat)
    requires Region(mem, size) && 0 < es <= size && 0 < count && tail <= size
    requires newTail == if tail + es <= size then tail + es else tail + es - size
    ensures newTail <= size
    ensures ReadAt(mem, size, tail, es) == Live(mem, size, es, tail, count)[0]
    ensures ElementStart(size, es, newTail, count - 1) == ElementStart(size, es, tail, count)
    ensures Live(mem, size, es, newTail, count - 1) == Live(mem, size, es, tail, count)[1..]
  {
    ReadAtReduced(mem, size, tail, es);
    assert Live(mem, size, es, tail, count)[0] == ReadAt(mem, size, (tail + 0 * es) % size, es);
    ModShift(newTail, 1, size);
    AdvanceTail(tail, newTail, count - 1, es, size);
    LiveAfterRemove(mem, size, es, tail, count, newTail);
  }

  /**
   * Peek copies element `index` (0 is the oldest) into `data`, splitting the
   * copy at the end of the region; it changes neither the object nor the region.
   */
  method Peek(rb: Ring?, index: nat, data: array?<bv8>) returns (s: Status)
    requires rb != null ==> rb.Valid()
    requires rb != null && data != null && rb.conf.buffer != null ==>
               data != rb.conf.buffer && rb.conf.elementSize <= data.Length
    modifies data
    ensures s == if rb == null || data == null then ErrorInputArgs
                 else if rb.conf.buffer == null then ErrorNotInitialized
                 else if rb.count == 0 then ErrorBufferEmpty
                 else if index >= rb.count then ErrorInvalidIndex
                 else Ok
    ensures s != Ok && data != null ==> unchanged(data)
    ensures s == Ok ==> rb != null && data != null && rb.Valid() && index < |rb.Elements()|
    ensures s == Ok ==> data[..rb.conf.elementSize] == rb.Elements()[index]
                        && data[rb.conf.elementSize..] == old(data[rb.conf.elementSize..])
  {
    var c := CheckArgsNullPtr(rb, ErrorInputArgs);
    if c.Return? { return c.status; }
    c := CheckArgsNullPtr(data, ErrorInputArgs);
    if c.Return? { return c.status; }
    c := CheckArgsNullPtr(rb.conf.buffer, ErrorNotInitialized);
    if c.Return? { return c.status; }
    c := CheckArgsSize(rb.count, 0, ErrorBufferEmpty);
    if c.Return? { return c.status; }

    if index >= rb.count {
      return ErrorInvalidIndex;
    }

    var buffer, size, es := rb.conf.buffer, rb.conf.bufferSize, rb.conf.elementSize;
    var elementPos := (rb.tail + index * es) % size;
    var _ := ReadWrapped(buffer, size, elementPos, data, es);

    return Ok;
  }

  /**
   * Replace overwrites element `index` in place with the bytes of `data`,
   * splitting the copy at the end of the region; head, tail, count and every
   * other element stay as they were.
   */
  method Replace(rb: Ring?, index: nat, data: array?<bv8>) returns (s: Status)
    requires rb != null ==> rb.Valid()
    requires rb != null && data != null && rb.conf.buffer != null ==>
               data != rb.conf.buffer && rb.conf.elementSize <= data.Length
    modifies RegionOf(rb)
    ensures s == if rb == null || data == null then ErrorInputArgs
                 else if rb.conf.buffer == null then ErrorNotInitialized
                 else if rb.count == 0 then ErrorBufferEmpty
                 else if index >= rb.count then ErrorInvalidIndex
                 else Ok
    ensures rb != null ==> rb.Valid()
    ensures s != Ok && rb != null && rb.conf.buffer != null ==> unchanged(rb.conf.buffer)
    ensures s == Ok ==> rb != null && data != null && index < |old(rb.Elements())|
    ensures s == Ok ==> rb.Elements() == old(rb.Elements())[index := data[..rb.conf.elementSize]]
    ensures s == Ok ==> WrittenAt(old(rb.conf.buffer[..]), rb.conf.buffer[..], rb.conf.bufferSize,
                                  (rb.tail + index * rb.conf.elementSize) % rb.conf.bufferSize,
                                  data[..rb.conf.elementSize])
  {
    var c := CheckArgsNullPtr(rb, ErrorInputArgs);
    if c.Return? { return c.status; }
    c := CheckArgsNullPtr(data, ErrorInputArgs);
    if c.Return? { return c.status; }
    c := CheckArgsNullPtr(rb.conf.buffer, ErrorNotInitialized);
    if c.Return? { return c.status; }
    c := CheckArgsSize(rb.count, 0, ErrorBufferEmpty);
    if c.Return? { return c.status; }

    if index >= rb.count {
      return ErrorInvalidIndex;
    }

    var buffer, size, es := rb.conf.buffer, rb.conf.bufferSize, rb.conf.elementSize;
    ghost var mem := buffer[..];
    CapacityFits(rb.count, size, es);

    var elementPos := (rb.tail + index * es) % size;
    var _ := WriteWrapped(buffer, size, elementPos, data, es);
    LiveAfterReplace(mem, size, es, rb.tail, rb.count, index, data[..es]);

    return Ok;
  }

  /** The answer of a query that writes a size to a caller location; `result` is meaningful only with Ok. */
  datatype Reply = Reply(status: Status, result: nat)

  /** IsEmpty answers Ok for an empty ring and Error for a non-empty one. */
  function IsEmpty(rb: Ring?): (s: Status)
    requires rb != null ==> rb.Valid()
    reads rb, RegionOf(rb)
    ensures rb == null ==> s == ErrorInputArgs
    ensures rb != null && rb.conf.buffer == null ==> s == ErrorNotInitialized
    ensures rb != null && rb.conf.buffer != null ==> (s == Ok <==> rb.Elements() == []) && (s == Error <==> rb.Elements() != [])
  {
    if rb == null then ErrorInputArgs
    else if rb.conf.buffer == null then ErrorNotInitialized
    else if 0 == rb.count then Ok
    else Error
  }

  /** IsFull answers Ok when the ring holds bufferSize / elementSize elements and Error otherwise. */
  function IsFull(rb: Ring?): (s: Status)
    requires rb != null ==> rb.Valid()
    reads rb, RegionOf(rb)
    ensures rb == null ==> s == ErrorInputArgs
    ensures rb != null && rb.conf.buffer == null ==> s == ErrorNotInitialized
    ensures rb != null && rb.conf.buffer != null ==>
              (s == Ok <==> |rb.Elements()| == rb.conf.bufferSize / rb.conf.elementSize)
              && (s == Error <==> |rb.Elements()| < rb.conf.bufferSize / rb.conf.elementSize)
  {
    if rb == null then ErrorInputArgs
    else if rb.conf.buffer == null then ErrorNotInitialized
    else if rb.maxElements == rb.count then Ok
    else Error
  }

  /**
   * GetFreeElements reports how many more elements fit before the ring is
   * full. `hasResult` is false when the caller's result pointer is null.
   */
  function GetFreeElements(rb: Ring?, hasResult: bool): (r: Reply)
    requires rb != null ==> rb.Valid()
    reads rb, RegionOf(rb)
    ensures r.status == if rb == null || !hasResult then ErrorInputArgs
                        else if rb.conf.buffer == null then ErrorNotInitialized
                        else Ok
    ensures r.status == Ok ==> r.result + |rb.Elements()| == rb.conf.bufferSize / rb.conf.elementSize
  {
    if rb == null || !hasResult then Reply(ErrorInputArgs, 0)
    else if rb.conf.buffer == null then Reply(ErrorNotInitialized, 0)
    else Reply(Ok, rb.maxElements - rb.count)
  }

  /**
   * GetElementSize reports the configured element size, the length of every
   * stored element. `hasResult` is false when the caller's result pointer is null.
   */
  function GetElementSize(rb: Ring?, hasResult: bool): (r: Reply)
    requires rb != null ==> rb.Valid()
    reads rb, RegionOf(rb)
    ensures r.status == if rb == null || !hasResult then ErrorInputArgs
                        else if rb.conf.buffer == null then ErrorNotInitialized
                        else Ok
    ensures r.status == Ok ==> r.result == rb.conf.elementSize > 0
    ensures r.status == Ok ==> forall i :: 0 <= i < |rb.Elements()| ==> |rb.Elements()[i]| == r.result
  {
    if rb == null || !hasResult then Reply(ErrorInputArgs, 0)
    else if rb.conf.buffer == null then Reply(ErrorNotInitialized, 0)
    else Reply(Ok, rb.conf.elementSize)
  }
}
