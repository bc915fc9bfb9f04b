/**
 * Client programs that drive the ring buffer through the API contracts only,
 * replaying the situations the repository's unit tests exercise. Each returns
 * what its calls answered and promises the answers those tests expect; the
 * general FIFO property is stated for every sequence of elements that fits.
 */
module RingBufferScenarios {
  import opened RingBufferTypes
  import opened RingBuffer

  /** A fresh caller block holding `bytes`. */
  method Block(bytes: seq<bv8>) returns (a: array<bv8>)
    ensures fresh(a) && a[..] == bytes
  {
    a := new bv8[|bytes|](i requires 0 <= i < |bytes| => bytes[i]);
  }

  /** A fresh, initialised ring over a fresh region of `size` bytes. */
  method NewRing(size: nat, elementSize: nat, overwrite: bool) returns (rb: Ring)
    requires 0 < elementSize <= size
    ensures fresh(rb) && rb.conf.buffer != null && fresh(rb.conf.buffer)
    ensures rb.Valid() && rb.Elements() == []
    ensures rb.conf == Conf(rb.conf.buffer, size, elementSize, overwrite)
    ensures rb.maxElements == size / elementSize && rb.head == 0 && rb.tail == 0 && rb.count == 0
  {
    var region := new bv8[size];
    rb := new Ring();
    var s := Init(rb, Conf(region, size, elementSize, overwrite));
  }

  /**
   * Peek into a fresh caller block: answers what Peek answers and, on Ok,
   * the bytes of element `index` (0 is the oldest). A building block of the
   * scenarios below: returning the bytes as a value keeps the caller's block
   * out of their frames.
   */
  method Look(rb: Ring, index: nat) returns (s: Status, bytes: seq<bv8>)
    requires rb.Valid()
    ensures s == if rb.conf.buffer == null then ErrorNotInitialized
                 else if rb.count == 0 then ErrorBufferEmpty
                 else if index >= rb.count then ErrorInvalidIndex
                 else Ok
    ensures s == Ok ==> index < |rb.Elements()| && bytes == rb.Elements()[index]
  {
    var read := new bv8[rb.conf.elementSize];
    s := Peek(rb, index, read);
    bytes := read[..rb.conf.elementSize];
  }

  /**
   * Peek changes neither the ring nor its region, so two peeks at the same
   * index answer the same status and, on Ok, the same bytes.
   */
  method PeekTwice(rb: Ring, index: nat) returns (s1: Status, first: seq<bv8>, s2: Status, second: seq<bv8>)
    requires rb.Valid()
    ensures s1 == s2
    ensures s1 == Ok ==> index < |rb.Elements()| && first == second == rb.Elements()[index]
  {
    s1, first := Look(rb, index);
    s2, second := Look(rb, index);
  }

  /**
   * Inserting elements one by one into a ring with room for all of them
   * appends them, in order, after the elements already stored.
   */
  method InsertAll(rb: Ring, items: seq<seq<bv8>>)
    requires rb.Valid() && rb.conf.buffer != null
    requires rb.count + |items| <= rb.maxElements
    requires forall i :: 0 <= i < |items| ==> |items[i]| == rb.conf.elementSize
    modifies rb, rb.conf.buffer
    ensures rb.Valid() && rb.conf == old(rb.conf) && rb.maxElements == old(rb.maxElements)
    ensures rb.Elements() == old(rb.Elements()) + items
  {
    ghost var conf, start := rb.conf, rb.Elements();
    var es := rb.conf.elementSize;
    var i := 0;
    while i < |items|
      invariant i <= |items|
      invariant rb.Valid() && rb.conf == conf && rb.maxElements == old(rb.maxElements)
      invariant rb.count == old(rb.count) + i && rb.Elements() == start + items[..i]
    {
      var d := Block(items[i]);
      var s := Insert(rb, d);
      assert d[..es] == items[i];
      assert items[..i + 1] == items[..i] + [items[i]];
      i := i + 1;
    }
    assert items[..i] == items;
  }

  /** Retrieving until the ring is empty hands back every stored element, oldest first. */
  method RetrieveAll(rb: Ring) returns (out: seq<seq<bv8>>)
    requires rb.Valid() && rb.conf.buffer != null
    modifies rb
    ensures rb.Valid() && rb.conf == old(rb.conf) && rb.Elements() == []
    ensures out == old(rb.Elements())
  {
    ghost var conf, start := rb.conf, rb.Elements();
    var es := rb.conf.elementSize;
    var scratch := new bv8[es];
    out := [];
    while rb.count > 0
      invariant rb.Valid() && rb.conf == conf
      invariant out + rb.Elements() == start
      decreases rb.count
    {
      ghost var before := rb.Elements();
      var s := Retrieve(rb, scratch);
      out := out + [scratch[..es]];
      assert before == [before[0]] + before[1..];
    }
  }

  /**
   * Whatever fits is handed back in insertion order: inserting up to
   * bufferSize / elementSize elements into an empty ring and then retrieving
   * until it is empty returns exactly the inserted elements.
   */
  method FifoRoundTrip(rb: Ring, items: seq<seq<bv8>>) returns (out: seq<seq<bv8>>)
    requires rb.Valid() && rb.conf.buffer != null && rb.Elements() == []
    requires |items| <= rb.maxElements
    requires forall i :: 0 <= i < |items| ==> |items[i]| == rb.conf.elementSize
    modifies rb, rb.conf.buffer
    ensures out == items
    ensures rb.Valid() && rb.Elements() == []
  {
    InsertAll(rb, items);
    assert [] + items == items;
    out := RetrieveAll(rb);
  }

  /**
   * A 5-byte region holding 2-byte elements with overwrite: two inserts fill
   * it, and a third lands split across offsets 4 and 0 and evicts the oldest.
   * Peeking at index 1 then answers the third element, both bytes in order.
   */
  method PeekAcrossTheEnd() returns (s: Status, wrapped: seq<bv8>, rb: Ring)
    ensures rb.Valid() && rb.Elements() == [[0x44, 0x33], [0x22, 0x11]]
    ensures rb.head == 1 && rb.tail == 2
    ensures s == Ok && wrapped == [0x22, 0x11]
  {
    rb := NewRing(5, 2, true);
    ghost var conf := rb.conf;
    var data3 := Block([0x22, 0x11]);
    var data4 := Block([0x44, 0x33]);
    assert data3[..2] == [0x22, 0x11] && data4[..2] == [0x44, 0x33];
    s := Insert(rb, data3);
    assert rb.conf == conf && rb.head == (0 + 2) % 5;
    assert rb.Elements() == [[0x22, 0x11]];
    s := Insert(rb, data4);
    assert rb.conf == conf && rb.head == (2 + 2) % 5 && rb.count == 2;
    assert rb.Elements() == [[0x22, 0x11], [0x44, 0x33]];
    s := Insert(rb, data3);
    assert rb.head == (4 + 2) % 5 && rb.tail == (0 + 2) % 5;
    s, wrapped := Look(rb, 1);
  }

  /**
   * Insert on a region that holds exactly one element (the 1-byte region of
   * 1-byte elements is the smallest), without overwrite: the first insert is
   * accepted, the second answers ErrorBufferFull and leaves the ring as it was.
   */
  method InsertIntoFullRing(first: seq<bv8>, second: seq<bv8>) returns (s1: Status, s2: Status, rb: Ring)
    requires 0 < |first| == |second|
    ensures s1 == Ok && s2 == ErrorBufferFull
    ensures rb.Valid() && rb.count == 1 && rb.head == 0 && rb.tail == 0
    ensures rb.Elements() == [first]
  {
    var n := |first|;
    rb := NewRing(n, n, false);
    var data1 := Block(first);
    var data2 := Block(second);
    assert data1[..n] == first;
    s1 := Insert(rb, data1);
    assert rb.head == (0 + n) % n;
    s2 := Insert(rb, data2);
  }

  /**
   * The same with overwrite: the second insert is accepted too and replaces
   * the stored element, head and tail both wrapping back to offset 0.
   */
  method OverwriteFullRing(first: seq<bv8>, second: seq<bv8>) returns (s1: Status, s2: Status, rb: Ring)
    requires 0 < |first| == |second|
    ensures s1 == Ok && s2 == Ok
    ensures rb.Valid() && rb.count == 1 && rb.head == 0 && rb.tail == 0
    ensures rb.Elements() == [second]
  {
    var n := |first|;
    rb := NewRing(n, n, true);
    var data1 := Block(first);
    var data2 := Block(second);
    assert data2[..n] == second;
    s1 := Insert(rb, data1);
    assert rb.head == (0 + n) % n && rb.count == 1;
    s2 := Insert(rb, data2);
    assert rb.tail == (0 + n) % n;
  }

  /**
   * On a region of at least two bytes: Retrieve answers ErrorBufferEmpty on a
   * fresh ring, hands back an inserted byte with tail advanced to 1, and then
   * answers ErrorBufferEmpty again.
   */
  method RetrieveUntilEmpty(size: nat) returns (s1: Status, s2: Status, got: bv8, tail: nat, s3: Status)
    requires size >= 2
    ensures s1 == ErrorBufferEmpty && s2 == Ok && got == 0xAA && tail == 1 && s3 == ErrorBufferEmpty
  {
    var rb := NewRing(size, 1, false);
    var data := Block([0xAA]);
    var read := new bv8[1];
    s1 := Retrieve(rb, read);
    var s := Insert(rb, data);
    assert data[..1] == [0xAA];
    s2 := Retrieve(rb, read);
    assert read[..1] == [0xAA];
    got := read[0];
    tail := rb.tail;
    s3 := Retrieve(rb, read);
  }

  /**
   * A 10-byte region of 1-byte elements is full after ten inserts, and with
   * overwrite it stays full after an eleventh.
   */
  method StaysFullWithOverwrite() returns (full1: Status, full2: Status, free: Reply)
    ensures full1 == Ok && full2 == Ok && free == Reply(Ok, 0)
  {
    var rb := NewRing(10, 1, true);
    ghost var conf := rb.conf;
    var data := Block([0xAA]);
    for i := 0 to 10
      invariant rb.Valid() && rb.conf == conf && rb.maxElements == 10 && rb.count == i
    {
      var s := Insert(rb, data);
    }
    full1 := IsFull(rb);
    var s := Insert(rb, data);
    full2 := IsFull(rb);
    free := GetFreeElements(rb, true);
  }

  /**
   * Replacing element `index` of a non-empty ring and reading every element
   * back with Peek: Peek(index) answers the new bytes, and the elements read
   * are the old ones with only that one replaced.
   */
  method ReplaceAndReadBack(rb: Ring, index: nat, bytes: seq<bv8>) returns (s: Status, replaced: seq<bv8>, all: seq<seq<bv8>>)
    requires rb.Valid() && rb.conf.buffer != null && index < rb.count && |bytes| == rb.conf.elementSize
    modifies rb.conf.buffer
    ensures s == Ok && replaced == bytes
    ensures all == old(rb.Elements())[index := bytes]
  {
    var data := Block(bytes);
    assert data[..rb.conf.elementSize] == bytes;
    s := Replace(rb, index, data);
    ghost var stored := rb.Elements();
    var p;
    p, replaced := Look(rb, index);
    all := [];
    for j := 0 to rb.count
      invariant rb.Valid() && rb.Elements() == stored
      invariant all == stored[..j]
    {
      var element;
      p, element := Look(rb, j);
      all := all + [element];
    }
    assert stored[..rb.count] == stored;
  }

  /**
   * Replacing index 2 of five stored bytes changes what Peek answers at index
   * 2 and nothing else; the ring still holds five elements.
   */
  method ReplaceThenPeek() returns (s: Status, replaced: seq<bv8>, all: seq<seq<bv8>>)
    ensures s == Ok && replaced == [0xBB]
    ensures all == [[0xAA], [0xAA], [0xBB], [0xAA], [0xAA]]
  {
    var rb := NewRing(10, 1, false);
    InsertAll(rb, [[0xAA], [0xAA], [0xAA], [0xAA], [0xAA]]);
    s, replaced, all := ReplaceAndReadBack(rb, 2, [0xBB]);
  }

  /**
   * After Init and DeInit the handle is back to its zeroed state, and every
   * operation on it answers ErrorNotInitialized.
   */
  method UseAfterDeInit(size: nat) returns (statuses: seq<Status>, rb: Ring)
    requires size >= 1
    ensures rb.Zeroed()
    ensures statuses == [Ok, ErrorNotInitialized, ErrorNotInitialized, ErrorNotInitialized,
                         ErrorNotInitialized, ErrorNotInitialized, ErrorNotInitialized,
                         ErrorNotInitialized, ErrorNotInitialized, ErrorNotInitialized]
  {
    rb := NewRing(size, 1, false);
    var data := new bv8[1];
    var d := DeInit(rb);
    var again := DeInit(rb);
    var ins := Insert(rb, data);
    var ret := Retrieve(rb, data);
    var peek := Peek(rb, 0, data);
    var repl := Replace(rb, 0, data);
    statuses := [d, again, ins, ret, peek, repl, IsEmpty(rb), IsFull(rb),
                 GetFreeElements(rb, true).status, GetElementSize(rb, true).status];
  }
}
