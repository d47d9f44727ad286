# ring.IO ring engine in Dafny

This project models the ring engine of ring.IO. The engine is a fixed-capacity
byte ring that lives in a shared-memory segment. `struct ring` holds `head`
(the next byte to read), `tail` (the next byte to write), the capacity `size`
and the data area. `ring_buffer_write` and `ring_buffer_read` move bytes in
and out in bulk. Each transfer is clamped to the free or available space. A
transfer that crosses the end of the data area is split into two `memcpy`
calls. One slot of the area is never used, so `head == tail` means empty and
`tail + 1 == head (mod size)` means full.

The project has three modules:

- `RingSpec` (ring_spec.dfy) holds the pure side. It defines the free and
  available counts, the modular cursor advance, and the clamped transfer
  sizes. It defines the data area after a write (`WriteAt`) and the bytes a
  read delivers (`Window`). `Queued` is the abstract queue: the bytes waiting
  to be read, oldest first. The lemmas prove that a write appends to that
  queue and a read takes from its front. Other lemmas prove that the one- and
  two-`memcpy` paths both equal the modular write or read. A byte-at-a-time
  reference (`PushEach`, `PopEach`) moves one byte and wheels the cursor by
  one. Two induction lemmas prove that the bulk transfers equal it.
- `SizeT` (size_t.dfy) evaluates the cursor expressions the way C does, with
  every `size_t` `+` and `-` wrapping modulo 2^64. It proves that the wrapped
  values equal the unbounded ones used everywhere else.
- `RingBuffer` (ring.dfy) holds the imperative side. It has `memcpy` as
  `Copy` and the class `Ring`: a `const size`, a `const data: array<byte>` and
  mutable `head` and `tail`. The class has a ghost `Contents()`, which is
  `Queued` of the current state. Each method ties its new state to the old
  one through the `RingSpec` functions. `EndToEnd` is a client that runs a
  capacity-8 scenario through those contracts: write "ABCDEFG", read 3,
  write "XY" across the end of the area, read 6.

`ring_buffer_write` and `ring_buffer_read` each have a transfer block: the
`if (writable > 0)` / `if (readable > 0)` body, with its `memcpy` calls and
wheel call on every branch. In the model that block is its own method
(`StoreAtTail`, `FetchAtHead`). It keeps the same three branches and the same
calls, and the outer method computes the clamp and calls it.

`struct ring` (ring.c:7-12) holds `head`, `tail` and `size`, followed by the
data area. The model keeps them as abstract class fields and gives them no
byte layout.

## Model

| member | source | states |
|---|---|---|
| RingSpec.Free | ring.c:77 | the free count plus the available count is always `size - 1`: one slot is sacrificed |
| RingSpec.Available | ring.c:106 | available bytes are below `size`; they are zero exactly when `head == tail`; advancing `head` by them reaches `tail` |
| RingSpec.CountsAreMod | ring.c:77-106 | available is `(tail - head) mod size` and free is `(head - tail - 1) mod size`, the two branches of each C expression being one modular distance |
| RingSpec.FullIff | ring.c:77-79 | there is no free space exactly when wheeling `tail` one byte forward would make it equal `head` |
| RingSpec.Writable | ring.c:77-79 | a write takes `min(len, free)`: no more than asked, no more than free, one of the two, never more than `size - 1`, and zero exactly when `len == 0` or the ring is full |
| RingSpec.Readable | ring.c:106-108 | a read delivers `min(len, available)`, never more than `size - 1`, and zero exactly when `len == 0` or the ring is empty |
| RingSpec.Saturation | ring.c:77-79 | offering `size` bytes to an empty ring takes `size - 1`; the ring is then full and a further 1-byte write takes 0 |
| RingSpec.Advance | ring.c:63-71 | a wheeled cursor always lands inside the data area |
| RingSpec.AdvanceIsSlot | ring.c:63-66 | wheeling by at most one lap with `%` equals going to the end of the area and on from offset 0 |
| RingSpec.Slot | ring.c:84-91 | the index `i` bytes after `start`, going round the end at most once, lies inside the area |
| RingSpec.SlotIsMod | ring.c:84-91 | that split index is `(start + i) % size` |
| RingSpec.Dist | ring.c:80-91 | the forward distance from `start` to an index lies below `size`, and going that far from `start` reaches the index again |
| RingSpec.DistIsMod | ring.c:80-91 | that forward distance is `(j - start) % size` |
| RingSpec.Splice | ring.c:81 | one `memcpy` into an area keeps the area's length; `SplicePlaces` gives its bytes |
| RingSpec.SplicePlaces | ring.c:81 | one `memcpy` into an area puts the copied bytes on its run and leaves every other byte unchanged |
| RingSpec.WriteAt | ring.c:80-92 | the data area after a write keeps its length; `WriteAtPlaces` gives its bytes |
| RingSpec.WriteAtPlaces | ring.c:80-92 | after a write, `data[(tail + i) % size] == buf[i]` for every `i < n`, and every byte outside that run is unchanged |
| RingSpec.WriteNothing | ring.c:79 | a write of zero bytes leaves the data area as it was |
| RingSpec.Window | ring.c:109-121 | a read of `n` bytes delivers exactly `n` bytes; `WindowPlaces` gives them |
| RingSpec.WindowPlaces | ring.c:109-121 | a read delivers `out[i] == data[(head + i) % size]` for every `i < n` |
| RingSpec.Queued | ring.c:7-12 | the queued bytes number exactly the available count, fewer than `size` |
| RingSpec.ContiguousWrite | ring.c:80-87 | when the run fits before the end of the area, the single `memcpy` at `tail` is the modular write |
| RingSpec.SplitWrite | ring.c:88-91 | when it does not fit, `to_end` bytes at `tail` then the rest at offset 0 is the modular write |
| RingSpec.ContiguousRead | ring.c:109-116 | when the run lies before the end of the area, the single `memcpy` from `head` fills the front of `buf` with the modular window and leaves the rest of `buf` alone |
| RingSpec.SplitRead | ring.c:117-120 | when it does not, `to_end` bytes from `head` then the rest from offset 0 give the same window, and the rest of `buf` is untouched |
| RingSpec.AdvanceTail | ring.c:82-91 | wheeling `tail` by at most the free space raises the available count by exactly that much |
| RingSpec.AdvanceHead | ring.c:111-120 | wheeling `head` by at most the available count lowers it by exactly that much |
| RingSpec.WriteAppends | ring.c:73-100 | a write appends in FIFO order: the queue after it is the old queue followed by the bytes taken |
| RingSpec.ReadTakesFront | ring.c:102-129 | a read takes from the front: it delivers the first `n` queued bytes, and the queue after it is the rest, in order |
| RingSpec.PushEach | ring.c:79-94 | pushing bytes one at a time keeps the data area's length and the write cursor inside it |
| RingSpec.BulkWriteIsBytewise | ring.c:79-94 | the bulk write, with its one or two copies and one wheel of `tail` by the count, leaves the same data area and cursor as storing each byte at `tail` and wheeling `tail` by one, byte after byte |
| RingSpec.PopEach | ring.c:108-123 | draining bytes one at a time yields exactly as many bytes as asked for |
| RingSpec.BulkReadIsBytewise | ring.c:108-123 | the bulk read, with its one or two copies, delivers the same bytes in the same order as taking the byte at `head` and wheeling `head` by one, byte after byte |
| SizeT.Add | ring.c:77 | `size_t` addition wraps once past 2^64 |
| SizeT.Sub | ring.c:77 | `size_t` subtraction wraps once below 0 |
| SizeT.FreeC | ring.c:77 | the free-space expression, evaluated left to right with each `size_t` `+` and `-` wrapping, is the unbounded expression reduced modulo 2^64 |
| SizeT.AvailableC | ring.c:106 | the available-bytes expression, evaluated the same way, is the unbounded expression reduced modulo 2^64 |
| SizeT.WheelC | ring.c:63-71 | the `size_t` wheel always lands inside the data area, and equals the modular advance whenever `cur + p` does not wrap |
| SizeT.FreeCExact | ring.c:77 | the free expression evaluated in `size_t` equals the true free count while `head, tail < size`, even when `size + head` wraps, so it never underflows to a huge value |
| SizeT.AvailableCExact | ring.c:106 | the available expression evaluated in `size_t` equals the true count while `head, tail < size` |
| SizeT.WheelCExact | ring.c:63-71 | the `size_t` wheel equals the modular advance for every transfer the ring makes, given a capacity of at most 2^63 |
| SizeT.ZeroCapacityFreeWraps | ring.c:77 | with capacity 0 the free expression of an empty ring is `2^64 - 1` |
| RingBuffer.Copy | ring.c:89-90 | `memcpy` between distinct arrays: the destination becomes the old destination with the source run spliced in |
| RingBuffer.Ring.constructor | ring.c:37-44 | creation records `size` and resets: both cursors at 0, the ring empty, free space `size - 1` |
| RingBuffer.Ring.Reset | ring.c:31-35 | `head` and `tail` become 0, `size` and the data bytes are unchanged, the ring is empty with `size - 1` free |
| RingBuffer.Ring.WheelTail | ring.c:63-66 | keeps the ring valid; `tail` becomes `(tail + p) % size` and is returned; `head` is untouched |
| RingBuffer.Ring.WheelHead | ring.c:68-71 | keeps the ring valid; `head` becomes `(head + p) % size` and is returned; `tail` is untouched |
| RingBuffer.Ring.Write | ring.c:73-100 | returns `min(len, free)`, leaves `head` alone, wheels `tail` by that count, writes exactly that run of `data`, and appends those bytes to the queue; a zero result changes nothing |
| RingBuffer.Ring.StoreAtTail | ring.c:79-94 | the one- or two-`memcpy` transfer and tail wheel leave `data` equal to the modular write and `tail` past it |
| RingBuffer.Ring.Read | ring.c:102-129 | returns `min(len, available)`, leaves `tail` and `data` alone, fills `buf[..n]` with the first `n` queued bytes and nothing else of `buf`, wheels `head` by `n`, and drops those bytes from the queue; a zero result changes nothing |
| RingBuffer.Ring.FetchAtHead | ring.c:108-123 | the one- or two-`memcpy` transfer and head wheel fill the front of `buf` with the modular window and move `head` past it |
| RingBuffer.EndToEnd | ring.c:73-129 | on capacity 8: "ABCDEFG" then read 3 gives "ABC"; "XY" then read 6 gives "DEFGXY"; both cursors end at 1, so the ring is empty |

## Left out

- `open_shm` (ring.c:14-25) draws random keys with `rand()` and allocates and maps the segment with `shmget`/`shmat`. It is operating-system I/O with an unbounded retry loop, so it is not modelled.
- `ring_buffer_attach`, `ring_buffer_detach` and `ring_buffer_destroy` (ring.c:46-61) are shared-memory plumbing (`shmget`, `shmat`, `shmdt`, `shmctl`, `malloc`), so they are not modelled. Of `ring_buffer_create` only the part that records `size` and resets is modelled.
- `get_ring_from_rd` (ring.c:27-29) is a pointer cast, so it is not modelled. The descriptor and the ring are one object in the model.
- The byte layout of `struct ring` (ring.c:7-12) is not modelled: its fields are abstract class fields.
- The `__DEBUG_RING__` `printf` blocks (ring.c:95-98, 124-127) are output only, so they are not modelled.
- Producer and consumer run concurrently in two processes, with no atomics or fences. This is not modelled: each call is one atomic sequential step.
- ring.h is not part of this model. It holds only typedefs and prototypes, and its semaphore types are never used.
- `buf` must hold at least `len` bytes and be distinct from the data area. This is the caller's `memcpy` obligation in C, and the model states it as a precondition.
- RingSpec.Advance: byte counts and cursors are unbounded `nat` in the class. `size_t` wrap-around is covered separately in `SizeT`.
- SizeT.WheelCExact: it assumes a capacity of at most 2^63. Above that, `tail + p` could wrap before the `%`. No shared-memory segment can be that large, so this is not treated as a defect.

## Findings

| source | as written | input that shows it | evidently intended | confidence | as-written member | corrected member |
|---|---|---|---|---|---|---|
| ring.c:37-42 | `ring_buffer_create` accepts capacity 0. With head = tail = 0, the free-space expression at ring.c:77 (`r->size + head - tail - 1`) wraps to SIZE_MAX. | `ring_buffer_create(0)`, then `ring_buffer_write(rd, buf, 5)`. Free evaluates to 2^64 - 1, so 5 bytes are accepted and copied into a zero-byte data area. `ring_wheel_tail` then computes `% 0`. | A ring has at least one byte of capacity, so free space never exceeds `size - 1` and every cursor stays inside the area. | medium, not executed | SizeT.ZeroCapacityFreeWraps | RingBuffer.Ring.constructor |
