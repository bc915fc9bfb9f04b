# Ring buffer: a verified Dafny model

This project models the fixed-capacity byte ring buffer of the `ring-buffer`
C library and proves what its operations do to the elements it stores.

A caller lends the ring a memory block of `buffer_size` bytes and fixes an
`element_size`. The ring then holds up to `buffer_size / element_size`
elements in FIFO order. Each element is stored byte by byte at consecutive
offsets modulo `buffer_size`: when an element does not fit before the end of
the region, its copy is split and continues at offset 0. The handle records:
- `head`, where the next insert writes;
- `tail`, where the oldest element starts;
- `count`, the number of elements stored;
- `max_elements`, the capacity.

With overwrite enabled, inserting into a full ring drops the oldest element.
Every operation answers a status code, checks its arguments in a fixed order,
and returns before changing anything when a check fails.

The files:
- `types.dfy`:
  - module `RingBufferTypes`: the status enumeration and the configuration record;
  - module `RingBufferMacros`: the argument-check guards and the byte loops behind `MEMSET` and `MEMCPY`.
- `layout.dfy`, module `RingLayout`: the pure byte layout of the region.
  - `ReadAt` and `WriteAt` describe a copy that wraps at the end of the region.
  - `ElementStart` is the offset `(tail + i * element_size) % buffer_size` of logical element `i`.
  - `Live` is the sequence of live elements, oldest first.
  - Lemmas state how appending, overwriting, replacing and removing an element change that sequence.
- `ring_buffer.dfy`, module `RingBuffer`, the API:
  - class `Ring` holds the handle's fields and the borrowed region (`conf.buffer`, an `array<bv8>`).
  - `Ring.Valid()` is the invariant every operation keeps. When the ring is uninitialised, every field is zero and the region is null. Otherwise:
    - `0 < element_size <= buffer_size`;
    - `max_elements == buffer_size / element_size`;
    - `count <= max_elements`;
    - `head < buffer_size`;
    - `tail <= buffer_size`;
    - `head == (tail + count * element_size) % buffer_size`.
  - `Ring.Elements()` reads the live elements off the region. Each operation's contract states the new `Elements()` in terms of the old.
- `scenarios.dfy`, module `RingBufferScenarios`: client programs that drive the API through its contracts only. They replay the situations of the repository's unit tests and state the general FIFO round trip.

Bytes at the end of the region that cannot hold a whole element are not
skipped: an element that does not fit before the end is split and continues
at offset 0, also when `element_size` does not divide `buffer_size`. The unit
test at `tests/ctest/src/tests/main.c:489-514` exercises that case: a 5-byte
region holds 2-byte elements, and the third element lands on offsets 4 and 0.

The copy blocks that `Insert` and `Replace` inline (contiguous copy, or copy
up to the end and then from offset 0) are one method here, `WriteWrapped`.
The copy blocks of `Retrieve` and `Peek` are `ReadWrapped`. Both call
`MemCpy` exactly as the C code calls `MEMCPY`.

## Model

| member | source | states |
|---|---|---|
| RingBufferMacros.CheckArgsNullPtr | inc/ring_buffer/ring_buffer_ptypes.h:31-35 | the guard returns the given status exactly when the pointer is null and falls through otherwise |
| RingBufferMacros.CheckArgsSize | inc/ring_buffer/ring_buffer_ptypes.h:42-46 | the guard returns the given status exactly when the value equals the checked value |
| RingBufferMacros.MemSet | inc/ring_buffer/ring_buffer_ptypes.h:54-65 | with a non-null block, the first `len` bytes become `val` truncated to a byte (`val % 256`) and every other byte is unchanged; a null block is left alone |
| RingBufferMacros.Copied | inc/ring_buffer/ring_buffer_ptypes.h:73-85 | the block after a copy keeps its length: bytes in `[off, off+len)` come from the source at the matching offset, all others are kept |
| RingBufferMacros.MemCpy | inc/ring_buffer/ring_buffer_ptypes.h:73-85 | with both blocks non-null, the destination becomes `Copied` of its old contents (nothing changes when `len` is 0); with either block null nothing changes |
| RingLayout.ContiguousWriteIsWriteAt | src/ring_buffer.c:89-93 | a copy that fits before the end of the region is the wrapped write of the element at `head` |
| RingLayout.SplitWriteIsWriteAt | src/ring_buffer.c:94-99 | the two copies of a split insert (`end_space` bytes at `head`, the rest at offset 0) are the wrapped write of the whole element |
| RingLayout.ContiguousReadIsReadAt | src/ring_buffer.c:132-136 | a copy out of the region that fits before its end is the wrapped read, and the caller bytes past the element are kept |
| RingLayout.SplitReadIsReadAt | src/ring_buffer.c:137-142 | the two copies of a split read are the wrapped read, including the case `tail == buffer_size`, where the first copy is empty |
| RingLayout.ReadAtReduced | src/ring_buffer.c:129-141 | reading at offset `buffer_size` (a tail that `Retrieve` left unnormalised) reads the same bytes as reading at offset 0 |
| RingLayout.ReadAfterWrite | src/ring_buffer.c:190-202 | reading back a wrapped write at the same offset gives the written bytes |
| RingLayout.ReadPastWrite | src/ring_buffer.c:190-202 | a wrapped write leaves alone a wrapped read whose run it does not meet, going round the region in either direction |
| RingLayout.CapacityFits | src/ring_buffer.c:61 | at most `buffer_size / element_size` elements fit in the region; while fewer are stored there is room for one more; at least one fits when `element_size <= buffer_size` |
| RingLayout.AdvanceHead | src/ring_buffer.c:92-104 | the slot one element after the slot behind `count` elements is the slot behind `count + 1` elements |
| RingLayout.AdvanceTail | src/ring_buffer.c:110 | counting `count` elements from a tail moved one element forward reaches the slot behind `count + 1` elements of the old tail |
| RingLayout.ElementStart | src/ring_buffer.c:161 | element `i` starts at an offset inside the region |
| RingLayout.ElementsApart | src/ring_buffer.c:161 | two elements less than a turn apart are at least one element apart going round the region in both directions, so their bytes never overlap |
| RingLayout.ElementPastWrite | src/ring_buffer.c:194-202 | writing one element leaves every other element of the ring unchanged |
| RingLayout.ElementJustWritten | src/ring_buffer.c:194-202 | the element just written reads back as the written bytes |
| RingLayout.LiveAfterAppend | src/ring_buffer.c:87-117 | on a ring with room, writing at `head` appends the new element to the live sequence |
| RingLayout.LiveAfterOverwrite | src/ring_buffer.c:106-112 | on a full ring, writing at `head` and moving `tail` one element forward drops the oldest element and appends the new one, also when the new bytes land on the dropped element |
| RingLayout.LiveAfterReplace | src/ring_buffer.c:190-202 | writing over element `index` replaces that element and no other |
| RingLayout.LiveAfterRemove | src/ring_buffer.c:129-144 | moving `tail` one element forward, to `buffer_size` or any offset that names the same position, drops the oldest element |
| RingBuffer.Ring.constructor | inc/ring_buffer/ring_buffer_gtypes.h:57-64 | a new handle is the all-zero, uninitialised handle |
| RingBuffer.Ring.Elements | src/ring_buffer.c:161 | a valid ring holds exactly `count` elements, each `element_size` bytes long |
| RingBuffer.Ring.Clear | src/ring_buffer.c:71 | zeroing the handle leaves every field zero and the region null |
| RingBuffer.Init | src/ring_buffer.c:46-64 | `ErrorInputArgs`, with nothing changed, for a null handle, a null region, `buffer_size == 0`, `element_size == 0` or `buffer_size < element_size`; otherwise `Ok` with the given configuration, head, tail and count 0, capacity `buffer_size / element_size` and no elements |
| RingBuffer.DeInit | src/ring_buffer.c:66-74 | `ErrorInputArgs` for a null handle and `ErrorNotInitialized` when uninitialised, with nothing changed; otherwise `Ok` with the handle zeroed |
| RingBuffer.WriteWrapped | src/ring_buffer.c:87-99 | copying an element into the region at `pos` is the wrapped write; the offset reached is `pos + element_size`, less `buffer_size` after a split copy |
| RingBuffer.ReadWrapped | src/ring_buffer.c:129-142 | copying an element out of the region at `pos` yields the wrapped read and keeps the caller bytes past the element; the offset reached is as for `WriteWrapped` |
| RingBuffer.Insert | src/ring_buffer.c:76-120 | statuses in the source's order (null handle or data, uninitialised, full without overwrite); on error nothing changes; on `Ok` the region becomes the wrapped write of the data at the old head (no other byte changes), head becomes `(head + element_size) % buffer_size`, and the data is appended (count grows) or, when full with overwrite, the oldest element is dropped and tail advances `(tail + element_size) % buffer_size`; the invariant is kept |
| RingBuffer.InsertLayout | src/ring_buffer.c:87-117 | the head, tail and count that the code computes keep `head == (tail + count * element_size) % buffer_size` and `count <= max_elements`, and the bytes written make the new element the newest |
| RingBuffer.Retrieve | src/ring_buffer.c:122-147 | statuses in the source's order (null handle or data, uninitialised, empty); on error nothing changes; on `Ok` the caller receives the oldest element, it leaves the ring, count drops by one, and tail advances by `element_size`, wrapping only after a split copy (so it may equal `buffer_size`) |
| RingBuffer.RetrieveLayout | src/ring_buffer.c:129-144 | the read at an unnormalised tail is the oldest element, and the tail the code computes keeps the invariant and leaves the remaining elements in order |
| RingBuffer.Peek | src/ring_buffer.c:149-176 | statuses in the source's order (null handle or data, uninitialised, empty, index not below count); only the caller block changes; on `Ok` it receives element `index` |
| RingBuffer.Replace | src/ring_buffer.c:178-205 | the same statuses as `Peek`; on error the region is unchanged; on `Ok` the region becomes the wrapped write of the data at element `index`'s offset (no other byte changes), element `index` becomes the data, and every other element, head, tail and count are unchanged |
| RingBuffer.IsEmpty | src/ring_buffer.c:207-218 | `Ok` exactly when no element is stored and `Error` exactly when one is; `ErrorInputArgs` / `ErrorNotInitialized` for a null or uninitialised handle |
| RingBuffer.IsFull | src/ring_buffer.c:220-231 | `Ok` exactly when `buffer_size / element_size` elements are stored and `Error` exactly when fewer are |
| RingBuffer.GetFreeElements | src/ring_buffer.c:233-242 | on `Ok` the free slots plus the stored elements make the capacity; the error statuses in the source's order |
| RingBuffer.GetElementSize | src/ring_buffer.c:244-253 | on `Ok` the result is the (positive) length of every stored element; the error statuses in the source's order |
| RingBufferScenarios.Look | src/ring_buffer.c:149-176 | peeking into a fresh block answers Peek's status and, on `Ok`, element `index` |
| RingBufferScenarios.PeekTwice | src/ring_buffer.c:149-176 | two peeks at the same index agree on status and bytes |
| RingBufferScenarios.InsertAll | src/ring_buffer.c:76-120 | inserting elements into a ring with room for them appends them, in order, to the stored elements; the configuration and `max_elements` are unchanged |
| RingBufferScenarios.RetrieveAll | src/ring_buffer.c:122-147 | retrieving until the ring is empty hands back every stored element, oldest first, and leaves no element stored |
| RingBufferScenarios.FifoRoundTrip | src/ring_buffer.c:76-147 | inserting up to `max_elements` elements into an empty ring and then retrieving until it is empty hands them back in insertion order |
| RingBufferScenarios.PeekAcrossTheEnd | tests/ctest/src/tests/main.c:489-514 | on a 5-byte overwrite ring of 2-byte elements, the third insert is split across offsets 4 and 0, evicts the oldest, leaves head 1 and tail 2, and Peek(1) answers its bytes in order |
| RingBufferScenarios.InsertIntoFullRing | tests/ctest/src/tests/main.c:294-327 | on a ring with room for one element and no overwrite, the second insert answers `ErrorBufferFull` and the first element stays, with head and tail 0 |
| RingBufferScenarios.OverwriteFullRing | tests/ctest/src/tests/main.c:329-357 | the same with overwrite: both inserts answer `Ok`, the second element replaces the first, and head and tail wrap to 0 |
| RingBufferScenarios.RetrieveUntilEmpty | tests/ctest/src/tests/main.c:408-437 | Retrieve answers `ErrorBufferEmpty` on a fresh ring; after one insert it answers `Ok` with the inserted byte and tail 1; then `ErrorBufferEmpty` again |
| RingBufferScenarios.StaysFullWithOverwrite | tests/ctest/src/tests/main.c:907-939 | ten inserts fill a 10-byte ring of 1-byte elements, and with overwrite an eleventh keeps it full with no free slot |
| RingBufferScenarios.ReplaceAndReadBack | src/ring_buffer.c:178-205 | replacing element `index` of a non-empty ring answers `Ok`; Peek at `index` then answers the new bytes, and peeking at every index reads the old elements with only that one replaced |
| RingBufferScenarios.ReplaceThenPeek | tests/ctest/src/tests/main.c:662-694 | replacing index 2 of five stored bytes makes Peek(2) answer the new byte, and the other four stay as they were |
| RingBufferScenarios.UseAfterDeInit | tests/ctest/src/tests/main.c:241-267 | after Init and DeInit the handle is zeroed, a second DeInit and every other operation answer `ErrorNotInitialized` |

## Left out

- FreeRTOS and tracing hooks (src/ring_buffer.c:30-38): they have no logic in this code, and concurrency is not modelled.
- The example applications, the performance test and the empty static-analysis entry point: they only call the API, print, delay or time.
- `size_t` width: offsets and counts are unbounded naturals, so a wrap-around of `tail + index * element_size` (src/ring_buffer.c:161, 190) is not modelled.
- Pointers:
  - a null handle, region or data pointer is a null reference;
  - a null result pointer of `GetFreeElements` / `GetElementSize` is the flag `hasResult == false`.
- `GetFreeElements`, `GetElementSize`: they return a `Reply` whose `result` is meaningful only with `Ok`. The C code then leaves the caller's location untouched; the model reports 0 there.
- Caller blocks are assumed distinct from the ring's region (a `requires` on `Insert`, `Retrieve`, `Peek` and `Replace`). The C code does not check this, and overlapping copies are not modelled.
- Init: requires the region to be at least `buffer_size` bytes long. The C code trusts the caller on this, since it cannot check the length of the block behind a pointer.
- Caller blocks are arrays at least `element_size` long. C cannot check the length of the block behind a `void *`.
- An uninitialised handle is the all-zero handle (`Ring.constructor`). A stack handle that was never initialised holds indeterminate bytes in C, and reading them is undefined.
- `MEMSET(rb, 0, sizeof(ring_buffer_t))` on the handle (src/ring_buffer.c:58, 71) is `Ring.Clear`, which zeroes every field. Struct padding has no counterpart. `MemSet` itself is modelled on byte arrays.
- The status values `ErrorOverflow` and `StatusMax` are kept in the enumeration, though no operation returns them.
- Documentation comments in the public header that speak of allocating and freeing memory, or of elements of varying size, describe nothing the code does, so nothing models them.
