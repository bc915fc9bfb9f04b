/**
 * Byte layout of the ring region.
 *
 * The region is the first `size` bytes of a caller-supplied memory block. A
 * read or a write of `len` bytes that starts at offset `start` touches the
 * bytes start, start + 1, ... up to the end of the region and continues at
 * offset 0 (the "split copy"), so it wraps at most once. Logical element i of
 * a ring whose oldest element starts at `tail` begins at byte offset
 * (tail + i * elementSize) modulo `size`.
 */
module RingLayout {
  import opened RingBufferMacros

  // ---------------------------------------------------------------------------
  // Modular arithmetic on byte offsets
  // ---------------------------------------------------------------------------

  /** Quotient and remainder are unique: any decomposition x == q*m + r with 0 <= r < m is Dafny's. */
  lemma ModUnique(x: int, q: int, r: int, m: int)
    requires m > 0 && 0 <= r < m && x == q * m + r
    ensures x % m == r && x / m == q
  {
    var k := q - x / m;
    assert k * m == x % m - r;
  }

  /** Adding whole turns of the region does not move an offset. */
  lemma ModShift(x: int, k: int, m: int)
    requires m > 0
    ensures (x + k * m) % m == x % m
  {
    assert x == (x / m) * m + x % m;
    assert x + k * m == (x / m + k) * m + x % m;
    ModUnique(x + k * m, x / m + k, x % m, m);
  }

  /** Reducing an offset before adding to it does not change the position. */
  lemma ModAddMod(x: int, y: int, m: int)
    requires m > 0
    ensures (x % m + y) % m == (x + y) % m
  {
    assert x == (x / m) * m + x % m;
    assert x + y == (x % m + y) + (x / m) * m;
    ModShift(x % m + y, x / m, m);
  }

  /** Offsets that name the same position still do after moving both by the same amount. */
  lemma ModCongruent(x: int, y: int, j: int, m: int)
    requires m > 0 && x % m == y % m
    ensures (x + j) % m == (y + j) % m
  {
    ModAddMod(x, j, m);
    ModAddMod(y, j, m);
  }

  // ---------------------------------------------------------------------------
  // Wrapped reads and writes
  // ---------------------------------------------------------------------------

  /** Is `size` a usable region size for the memory block `mem`? */
  predicate Region(mem: seq<bv8>, size: nat)
  {
    0 < size <= |mem|
  }

  /** The offset reached from a position below two turns, wrapping once at the end of the region. */
  function Wrap(x: nat, size: nat): (k: nat)
    requires x < 2 * size
    ensures k < size && (k == x || k == x - size)
  {
    if x < size then x else x - size
  }

  /** How many bytes forward, going round the region, offset `to` lies from offset `from`. */
  function Forward(from: nat, to: nat, size: nat): (d: nat)
    requires from < size && to < size
    ensures d < size && Wrap(from + d, size) == to
  {
    if from <= to then to - from else to + size - from
  }

  /** The `len` bytes that start at offset `start`, wrapping at the end of the region. */
  function ReadAt(mem: seq<bv8>, size: nat, start: nat, len: nat): (r: seq<bv8>)
    requires Region(mem, size) && start <= size && len <= size
    ensures |r| == len
  {
    seq(len, j requires 0 <= j < len => mem[Wrap(start + j, size)])
  }

  /**
   * The memory block after writing `src` at offset `pos`, wrapping at the end
   * of the region: the byte d places forward from `pos` receives src[d] when
   * d is below |src|; every other byte keeps its value.
   */
  function WriteAt(mem: seq<bv8>, size: nat, pos: nat, src: seq<bv8>): (r: seq<bv8>)
    requires Region(mem, size) && pos < size && |src| <= size
    ensures |r| == |mem|
  {
    seq(|mem|, k requires 0 <= k < |mem| =>
      if k < size && Forward(pos, k, size) < |src| then src[Forward(pos, k, size)] else mem[k])
  }

  /**
   * `after` is the block `before` once `src` has been written at offset `pos`
   * of a region of `size` bytes, wrapping at its end: the bytes of the run
   * change and no other byte does.
   */
  predicate WrittenAt(before: seq<bv8>, after: seq<bv8>, size: nat, pos: nat, src: seq<bv8>)
  {
    Region(before, size) && pos < size && |src| <= size && after == WriteAt(before, size, pos, src)
  }

  /** A write that fits before the end of the region is a plain contiguous copy. */
  lemma {:induction false} ContiguousWriteIsWriteAt(mem: seq<bv8>, size: nat, pos: nat, src: seq<bv8>, len: nat)
    requires Region(mem, size) && pos < size && pos + len <= size && len <= |src|
    ensures Copied(mem, pos, src, 0, len) == WriteAt(mem, size, pos, src[..len])
  {
    var c, w := Copied(mem, pos, src, 0, len), WriteAt(mem, size, pos, src[..len]);
    forall k | 0 <= k < |mem|
      ensures c[k] == w[k]
    {
    }
  }

  /**
   * A write that runs past the end of the region is a copy of its first
   * size - pos bytes to [pos, size) followed by a copy of the rest to [0, ...).
   */
  lemma {:induction false} SplitWriteIsWriteAt(mem: seq<bv8>, size: nat, pos: nat, src: seq<bv8>, len: nat)
    requires Region(mem, size) && pos < size < pos + len && len <= size && len <= |src|
    ensures Copied(Copied(mem, pos, src, 0, size - pos), 0, src, size - pos, len - (size - pos))
            == WriteAt(mem, size, pos, src[..len])
  {
    var c1 := Copied(mem, pos, src, 0, size - pos);
    var c, w := Copied(c1, 0, src, size - pos, len - (size - pos)), WriteAt(mem, size, pos, src[..len]);
    forall k | 0 <= k < |mem|
      ensures c[k] == w[k]
    {
    }
  }

  /**
   * A read that fits before the end of the region is a plain contiguous copy
   * into the front of `out`; the rest of `out` is kept.
   */
  lemma {:induction false} ContiguousReadIsReadAt(mem: seq<bv8>, out: seq<bv8>, size: nat, pos: nat, len: nat)
    requires Region(mem, size) && pos + len <= size && len <= |out|
    ensures Copied(out, 0, mem, pos, len)[..len] == ReadAt(mem, size, pos, len)
    ensures Copied(out, 0, mem, pos, len)[len..] == out[len..]
  {
    var c, r := Copied(out, 0, mem, pos, len), ReadAt(mem, size, pos, len);
    forall j | 0 <= j < len
      ensures c[j] == r[j]
    {
      assert r[j] == mem[Wrap(pos + j, size)];
    }
  }

  /**
   * A read that runs past the end of the region is a copy of [pos, size)
   * followed by a copy of the rest from offset 0. With pos == size the first
   * part is empty.
   */
  lemma {:induction false} SplitReadIsReadAt(mem: seq<bv8>, out: seq<bv8>, size: nat, pos: nat, len: nat)
    requires Region(mem, size) && pos <= size < pos + len && len <= size && len <= |out|
    ensures Copied(Copied(out, 0, mem, pos, size - pos), size - pos, mem, 0, len - (size - pos))[..len]
            == ReadAt(mem, size, pos, len)
    ensures Copied(Copied(out, 0, mem, pos, size - pos), size - pos, mem, 0, len - (size - pos))[len..] == out[len..]
  {
    var c1 := Copied(out, 0, mem, pos, size - pos);
    var c, r := Copied(c1, size - pos, mem, 0, len - (size - pos)), ReadAt(mem, size, pos, len);
    forall j | 0 <= j < len
      ensures c[j] == r[j]
    {
      assert r[j] == mem[Wrap(pos + j, size)];
    }
  }

  /** Reading at the very end of the region is reading at offset 0; below it, offsets are already reduced. */
  lemma {:induction false} ReadAtReduced(mem: seq<bv8>, size: nat, start: nat, len: nat)
    requires Region(mem, size) && start <= size && len <= size
    ensures ReadAt(mem, size, start, len) == ReadAt(mem, size, start % size, len)
  {
    if start < size {
      ModUnique(start, 0, start, size);
    } else {
      ModUnique(start, 1, 0, size);
      var a, b := ReadAt(mem, size, start, len), ReadAt(mem, size, 0, len);
      forall j | 0 <= j < len
        ensures a[j] == b[j]
      {
        assert a[j] == mem[Wrap(start + j, size)];
        assert b[j] == mem[Wrap(0 + j, size)];
      }
    }
  }

  /** Reading back what was just written at the same offset gives the written bytes. */
  lemma {:induction false} ReadAfterWrite(mem: seq<bv8>, size: nat, pos: nat, src: seq<bv8>)
    requires Region(mem, size) && pos < size && |src| <= size
    ensures ReadAt(WriteAt(mem, size, pos, src), size, pos, |src|) == src
  {
    var w := WriteAt(mem, size, pos, src);
    var r := ReadAt(w, size, pos, |src|);
    forall j | 0 <= j < |src|
      ensures r[j] == src[j]
    {
      assert Forward(pos, Wrap(pos + j, size), size) == j;
    }
  }

  /**
   * A write leaves a read alone when the two runs do not meet: the read
   * starts at least |src| bytes forward of the write and the write at least
   * `len` bytes forward of the read.
   */
  lemma {:induction false} ReadPastWrite(mem: seq<bv8>, size: nat, start: nat, len: nat, pos: nat, src: seq<bv8>)
    requires Region(mem, size) && start < size && len <= size && pos < size && |src| <= size
    requires Forward(pos, start, size) >= |src| && Forward(start, pos, size) >= len
    ensures ReadAt(WriteAt(mem, size, pos, src), size, start, len) == ReadAt(mem, size, start, len)
  {
    var w := WriteAt(mem, size, pos, src);
    var after, before := ReadAt(w, size, start, len), ReadAt(mem, size, start, len);
    forall j | 0 <= j < len
      ensures after[j] == before[j]
    {
      assert Forward(pos, Wrap(start + j, size), size) >= |src|;
    }
  }

  // ---------------------------------------------------------------------------
  // Offsets of elements
  // ---------------------------------------------------------------------------

  /** An offset below two turns wraps at most once. */
  lemma WrapOnce(x: int, size: nat)
    requires 0 <= x < 2 * size
    ensures x % size == if x < size then x else x - size
  {
    if x < size {
      ModUnique(x, 0, x, size);
    } else {
      ModUnique(x, 1, x - size, size);
    }
  }

  /** Element i of n ends no later than element n begins. */
  lemma {:induction false} ElementBefore(i: nat, n: nat, e: nat)
    requires i < n
    ensures i * e + e <= n * e
    decreases n - i
  {
    if i + 1 < n {
      ElementBefore(i, n - 1, e);
    }
  }

  /** Element i + 1 starts one element after element i. */
  lemma NextElement(i: nat, e: nat)
    ensures (i + 1) * e == i * e + e
  {
  }

  /** The elements from lo up to hi span (hi - lo) elements. */
  lemma ElementSpan(lo: nat, hi: nat, e: nat)
    requires lo <= hi
    ensures (hi - lo) * e + lo * e == hi * e
  {
  }

  /**
   * Capacity: at most size / elementSize whole elements fit in the region, and
   * while fewer are stored there is room for one more. At least one fits when
   * the element is no larger than the region.
   */
  lemma {:induction false} CapacityFits(count: nat, size: nat, elementSize: nat)
    requires 0 < elementSize && count <= size / elementSize
    ensures count * elementSize <= size
    ensures count < size / elementSize ==> count * elementSize + elementSize <= size
    ensures elementSize <= size ==> size / elementSize >= 1
  {
    var max := size / elementSize;
    assert size == max * elementSize + size % elementSize;
    if count < max {
      ElementBefore(count, max, elementSize);
    }
  }

  /** One element past the slot after `count` elements is the slot after `count + 1`. */
  lemma AdvanceHead(tail: nat, count: nat, elementSize: nat, size: nat)
    requires size > 0
    ensures ((tail + count * elementSize) % size + elementSize) % size == (tail + (count + 1) * elementSize) % size
  {
    var x := tail + count * elementSize;
    ModAddMod(x, elementSize, size);
    NextElement(count, elementSize);
    assert x + elementSize == tail + (count + 1) * elementSize;
  }

  /** Counting `count` elements from a tail moved one element forward reaches the slot after `count + 1`. */
  lemma AdvanceTail(tail: nat, newTail: nat, count: nat, elementSize: nat, size: nat)
    requires size > 0 && newTail % size == (tail + elementSize) % size
    ensures (newTail + count * elementSize) % size == (tail + (count + 1) * elementSize) % size
  {
    var x := count * elementSize;
    ModCongruent(newTail, tail + elementSize, x, size);
    NextElement(count, elementSize);
    assert tail + elementSize + x == tail + (count + 1) * elementSize;
  }

  // ---------------------------------------------------------------------------
  // The live elements of a ring
  // ---------------------------------------------------------------------------

  /** The byte offset where logical element i begins. */
  function ElementStart(size: nat, elementSize: nat, tail: nat, i: nat): (p: nat)
    requires size > 0
    ensures p < size
  {
    (tail + i * elementSize) % size
  }

  /** Moving d bytes forward, with d below a turn, moves the position d bytes forward round the region. */
  lemma {:induction false} ForwardOfMod(a: nat, d: nat, size: nat)
    requires d < size
    ensures Forward(a % size, (a + d) % size, size) == d
  {
    var x, p := a % size, a / size;
    assert a == p * size + x;
    if x + d < size {
      ModUnique(a + d, p, x + d, size);
    } else {
      ModUnique(a + d, p + 1, x + d - size, size);
    }
  }

  /**
   * Two elements less than a turn apart are at least one element apart going
   * forward from either: element hi lies (hi - lo) elements after element lo,
   * and element lo lies the rest of the turn after element hi.
   */
  lemma {:induction false} ElementsApart(size: nat, elementSize: nat, tail: nat, lo: nat, hi: nat)
    requires 0 < elementSize && lo < hi && (hi - lo) * elementSize + elementSize <= size
    ensures Forward(ElementStart(size, elementSize, tail, lo), ElementStart(size, elementSize, tail, hi), size) >= elementSize
    ensures Forward(ElementStart(size, elementSize, tail, hi), ElementStart(size, elementSize, tail, lo), size) >= elementSize
  {
    var a, b := tail + lo * elementSize, tail + hi * elementSize;
    var d := (hi - lo) * elementSize;
    ElementSpan(lo, hi, elementSize);
    ElementBefore(0, hi - lo, elementSize);
    ForwardOfMod(a, d, size);
    ForwardOfMod(b, size - d, size);
    ModShift(a, 1, size);
  }

  /** Logical element i of a ring whose oldest element starts at `tail`. */
  function Element(mem: seq<bv8>, size: nat, elementSize: nat, tail: nat, i: nat): (e: seq<bv8>)
    requires Region(mem, size) && elementSize <= size
    ensures |e| == elementSize
  {
    ReadAt(mem, size, ElementStart(size, elementSize, tail, i), elementSize)
  }

  /** The `count` live elements, oldest first. */
  function Live(mem: seq<bv8>, size: nat, elementSize: nat, tail: nat, count: nat): (r: seq<seq<bv8>>)
    requires Region(mem, size) && elementSize <= size
    ensures |r| == count
  {
    seq(count, i requires 0 <= i < count => Element(mem, size, elementSize, tail, i))
  }

  /** Writing element c leaves any other element less than a turn away untouched. */
  lemma {:induction false} ElementPastWrite(mem: seq<bv8>, size: nat, elementSize: nat, tail: nat, i: nat, c: nat, src: seq<bv8>)
    requires Region(mem, size) && 0 < elementSize <= size && |src| == elementSize && i != c
    requires i < c ==> (c - i) * elementSize + elementSize <= size
    requires c < i ==> (i - c) * elementSize + elementSize <= size
    ensures Element(WriteAt(mem, size, ElementStart(size, elementSize, tail, c), src), size, elementSize, tail, i)
         == Element(mem, size, elementSize, tail, i)
  {
    if i < c {
      ElementsApart(size, elementSize, tail, i, c);
    } else {
      ElementsApart(size, elementSize, tail, c, i);
    }
    ReadPastWrite(mem, size, ElementStart(size, elementSize, tail, i), elementSize,
                  ElementStart(size, elementSize, tail, c), src);
  }

  /** The element just written holds the written bytes. */
  lemma {:induction false} ElementJustWritten(mem: seq<bv8>, size: nat, elementSize: nat, tail: nat, i: nat, src: seq<bv8>)
    requires Region(mem, size) && |src| == elementSize <= size
    ensures Element(WriteAt(mem, size, ElementStart(size, elementSize, tail, i), src), size, elementSize, tail, i) == src
  {
    ReadAfterWrite(mem, size, ElementStart(size, elementSize, tail, i), src);
  }

  /** Writing a new element at the head of a ring that has room for it appends it. */
  lemma {:induction false} LiveAfterAppend(mem: seq<bv8>, size: nat, elementSize: nat, tail: nat, count: nat, src: seq<bv8>)
    requires Region(mem, size) && 0 < elementSize && |src| == elementSize
    requires count * elementSize + elementSize <= size
    ensures Live(WriteAt(mem, size, ElementStart(size, elementSize, tail, count), src), size, elementSize, tail, count + 1)
         == Live(mem, size, elementSize, tail, count) + [src]
  {
    var w := WriteAt(mem, size, ElementStart(size, elementSize, tail, count), src);
    var before, after := Live(mem, size, elementSize, tail, count), Live(w, size, elementSize, tail, count + 1);
    forall i | 0 <= i < count + 1
      ensures after[i] == (before + [src])[i]
    {
      if i < count {
        ElementSpan(i, count, elementSize);
        ElementPastWrite(mem, size, elementSize, tail, i, count, src);
      } else {
        ElementJustWritten(mem, size, elementSize, tail, count, src);
      }
    }
  }

  /** Element i of a ring whose tail moved one element forward is element i + 1 of the old ring. */
  lemma {:induction false} ElementAfterAdvance(mem: seq<bv8>, size: nat, elementSize: nat, tail: nat, newTail: nat, i: nat)
    requires Region(mem, size) && elementSize <= size && newTail % size == (tail + elementSize) % size
    ensures Element(mem, size, elementSize, newTail, i) == Element(mem, size, elementSize, tail, i + 1)
  {
    AdvanceTail(tail, newTail, i, elementSize, size);
  }

  /**
   * On a full ring, writing a new element at the head and moving the tail one
   * element forward drops the oldest element and appends the new one, also
   * when the new element lands on the bytes of the dropped one.
   */
  lemma {:induction false} LiveAfterOverwrite(mem: seq<bv8>, size: nat, elementSize: nat, tail: nat, count: nat, src: seq<bv8>)
    requires Region(mem, size) && 0 < elementSize <= size && |src| == elementSize
    requires 0 < count && count * elementSize <= size
    ensures Live(WriteAt(mem, size, ElementStart(size, elementSize, tail, count), src), size, elementSize,
                 (tail + elementSize) % size, count)
         == Live(mem, size, elementSize, tail, count)[1..] + [src]
  {
    var w := WriteAt(mem, size, ElementStart(size, elementSize, tail, count), src);
    var newTail := (tail + elementSize) % size;
    var before, after := Live(mem, size, elementSize, tail, count), Live(w, size, elementSize, newTail, count);
    ModAddMod(tail + elementSize, 0, size);
    forall i | 0 <= i < count
      ensures after[i] == (before[1..] + [src])[i]
    {
      ElementAfterAdvance(w, size, elementSize, tail, newTail, i);
      if i + 1 < count {
        ElementSpan(i + 1, count, elementSize);
        ElementSpan(1, count, elementSize);
        ElementPastWrite(mem, size, elementSize, tail, i + 1, count, src);
      } else {
        ElementJustWritten(mem, size, elementSize, tail, count, src);
      }
    }
  }

  /** Writing over element `index` replaces that element and no other. */
  lemma {:induction false} LiveAfterReplace(mem: seq<bv8>, size: nat, elementSize: nat, tail: nat, count: nat, index: nat, src: seq<bv8>)
    requires Region(mem, size) && 0 < elementSize && |src| == elementSize
    requires index < count && count * elementSize <= size
    ensures Live(WriteAt(mem, size, ElementStart(size, elementSize, tail, index), src), size, elementSize, tail, count)
         == Live(mem, size, elementSize, tail, count)[index := src]
  {
    var w := WriteAt(mem, size, ElementStart(size, elementSize, tail, index), src);
    var before, after := Live(mem, size, elementSize, tail, count), Live(w, size, elementSize, tail, count);
    ElementBefore(index, count, elementSize);
    forall i | 0 <= i < count
      ensures after[i] == before[index := src][i]
    {
      if i < index {
        SpanWithin(i, index, count, elementSize);
        ElementPastWrite(mem, size, elementSize, tail, i, index, src);
      } else if i > index {
        SpanWithin(index, i, count, elementSize);
        ElementPastWrite(mem, size, elementSize, tail, i, index, src);
      } else {
        ElementJustWritten(mem, size, elementSize, tail, index, src);
      }
    }
  }

  /** Two different elements of a ring of `count` are at most count - 1 elements apart. */
  lemma {:induction false} SpanWithin(lo: nat, hi: nat, count: nat, e: nat)
    requires lo < hi < count
    ensures (hi - lo) * e + e <= count * e
  {
    ElementBefore(hi - lo, count, e);
  }

  /** Moving the tail one element forward (to any offset congruent to it) drops the oldest element. */
  lemma {:induction false} LiveAfterRemove(mem: seq<bv8>, size: nat, elementSize: nat, tail: nat, count: nat, newTail: nat)
    requires Region(mem, size) && elementSize <= size && 0 < count && newTail % size == (tail + elementSize) % size
    ensures Live(mem, size, elementSize, newTail, count - 1) == Live(mem, size, elementSize, tail, count)[1..]
  {
    var before, after := Live(mem, size, elementSize, tail, count), Live(mem, size, elementSize, newTail, count - 1);
    forall i | 0 <= i < count - 1
      ensures after[i] == before[1..][i]
    {
      ElementAfterAdvance(mem, size, elementSize, tail, newTail, i);
      assert after[i] == Element(mem, size, elementSize, newTail, i);
      assert before[1..][i] == before[i + 1] == Element(mem, size, elementSize, tail, i + 1);
    }
  }
}
