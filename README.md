# Ring buffers: a double-mapped one and a copy-based one

This project models the two byte ring buffers of the `virtualringbuffer`
library in Dafny and proves properties of the models.

- **`VirtualRingBuffer`** maps the same physical pages twice, one copy right
  after the other. A caller can then reach the up to `size()` stored bytes
  from the read offset, and the up to `capacity() - size()` free bytes from
  the write offset, each with a single contiguous copy. The
  buffer is driven through a write pointer with `commit`, and through a read
  pointer with `decommit`. There are also two helpers that move bytes between
  the buffer and a file descriptor.
- **`RingBuffer`** is a plain array of `capacity` bytes. `write` and `read`
  copy in and out in two parts when a transfer passes the end of the array.

How the model is built:

- The double mapping of `B = bufferSize` bytes is modelled by the `B` physical
  bytes behind it. Offset `o` of the mapping, for `0 <= o < 2B`, reaches cell
  `o mod B` (`Circular.Cell`).
- The caller's `memcpy` through the pointers becomes `WriteMapped` and
  `ReadMapped`. These are loops over the cells, proved against the
  sequence-level `Circular.WriteAt` and `Circular.ReadAt`.
- The stored bytes of either buffer are a ghost sequence, oldest first. For the
  double-mapped buffer this is `Contents()`: the `write - read` bytes from the
  read offset. For the copy-based buffer it is the `Contents` field, tied to
  the array by `Represents`.
- Within the caller's contract (no more committed than the free space, no
  more decommitted than `size()`), commit and decommit are proved to act on
  that sequence as a first-in first-out queue: a commit appends, a decommit
  removes from the front. The copy-based buffer's write and read clamp their
  counts themselves, so they are proved to act as that queue on every call.
  Outside the contract the model states only how the offsets and cells
  change: the wrapped test commits more than the free space and overwrites
  older bytes. The descriptor helpers as written are not first-in first-out
  (see "## Findings").

`sysconf(_SC_PAGESIZE)` becomes a `pageSize` parameter, which must be a power
of two. The results of `read(2)` and `write(2)` become parameters of the
descriptor helpers.

The test program calls `reserve()` and `take()`. The class declares
`writePointer()` and `readPointer()` for the same two pointers. The model uses
the declared names.

## Model

| member | source | states |
|---|---|---|
| PageRounding.RoundUpToPage | virtualringbuffer.cpp:34-38 | a capacity of 0 counts as 1; the result is a multiple of the page size, at least the capacity and less than one page above it |
| PageRounding.BitAndLowMask | virtualringbuffer.cpp:38 | for a power-of-two page size p, `x & (p - 1)` is `x mod p`, which is why the subtraction rounds down to a page boundary |
| PageRounding.RoundUpExample | virtualringbuffer.cpp:34-38 | with 4096-byte pages a capacity of 8000 becomes 8192 |
| VirtualRing.VirtualRingBuffer.constructor | virtualringbuffer.cpp:28-38 | both offsets start at 0, the size is the rounded capacity, and the buffer is empty |
| VirtualRing.VirtualRingBuffer.Capacity | virtualringbuffer.h:31 | the capacity is the rounded buffer size, at least 1, and bounds size() while callers keep to the contract |
| VirtualRing.VirtualRingBuffer.Size | virtualringbuffer.cpp:114-124 | the result is in [0, B], congruent to `write - read` modulo B, and equal to `write - read` when at most B bytes are outstanding |
| VirtualRing.VirtualRingBuffer.WritePointer | virtualringbuffer.cpp:68-71 | the write pointer is the end of the stored bytes, and all the free space after it lies inside the mapping |
| VirtualRing.VirtualRingBuffer.ReadPointer | virtualringbuffer.cpp:89-92 | the read pointer is in the first half of the mapping, and all size() stored bytes after it lie inside the mapping |
| VirtualRing.VirtualRingBuffer.WriteMapped | virtualringbuffer.cpp:40-49 | a copy through the mapping at offset o writes cell (o + i) mod B for each byte i; at the write pointer, within the free space, it leaves the stored bytes alone and reads back as written |
| VirtualRing.VirtualRingBuffer.ReadMapped | virtualringbuffer.cpp:40-49 | a copy out of the mapping from offset o reads cell (o + i) mod B; from the read pointer it yields the oldest stored bytes |
| VirtualRing.VirtualRingBuffer.Commit | virtualringbuffer.cpp:78-81 | commit(n) moves only the write offset, by n, and touches no byte; within the free space it appends the n bytes at the write pointer to the stored bytes |
| VirtualRing.VirtualRingBuffer.Decommit | virtualringbuffer.cpp:99-107 | decommit(n) advances the read offset, and when it reaches the second half both offsets move back by B; the offsets keep their difference less n and keep their cells; within size() it removes the oldest n stored bytes |
| VirtualRing.VirtualRingBuffer.FreeBound | virtualringbuffer.cpp:156 | count cut down to the free space B - size(): the bound writeToDescriptor puts on write(2), and the one a read(2) into the buffer needs |
| VirtualRing.VirtualRingBuffer.StoredBound | virtualringbuffer.cpp:135 | count cut down to size(): the bound readFromDescriptor puts on read(2), and the one a write(2) from the buffer needs |
| VirtualRing.VirtualRingBuffer.ReadFromDescriptor | virtualringbuffer.cpp:133-145 | the bytes read(2) delivers land at the write pointer; the write offset moves only when exactly one byte was read; the result is read(2)'s result |
| VirtualRing.VirtualRingBuffer.WriteToDescriptor | virtualringbuffer.cpp:154-166 | write(2) is handed the bytes from the read pointer; unless it returns 0 or -1 that many bytes are decommitted; the result is write(2)'s result |
| VirtualRing.VirtualRingBuffer.FillFromDescriptor | virtualringbuffer.cpp:133-145 | corrected readFromDescriptor: the bytes read are appended to the stored bytes |
| VirtualRing.VirtualRingBuffer.DrainToDescriptor | virtualringbuffer.cpp:154-166 | corrected writeToDescriptor: the bytes sent are the oldest stored ones, and exactly those are removed |
| VirtualRing.SkipsCommitAsWritten | virtualringbuffer.cpp:139 | the early-return test `numRead == 0 \|\| numRead -1` holds for every result except 1 |
| VirtualRing.SkipsCommit | virtualringbuffer.cpp:160 | for results of -1 or more, the transfer is skipped exactly when it moved no byte |
| Circular.Cell | virtualringbuffer.cpp:40-49 | offset o of the double mapping reaches cell o mod B |
| Circular.Distance | virtualringbuffer.cpp:40-49 | how far past offset o a copy reaches cell c, which is (c - o) mod B |
| Circular.ReadBack | virtualringbuffer.cpp:40-49 | bytes copied in at an offset read back unchanged from that offset |
| Circular.ReadUntouched | virtualringbuffer.cpp:40-49 | a copy into the free space leaves the stored bytes unchanged |
| Circular.ReadSplit | virtualringbuffer.cpp:78-81 | reading m + n bytes is reading m and then the n after them |
| Circular.ReadAlias | virtualringbuffer.cpp:103-106 | offsets o and o - B read the same bytes, which is why shifting both offsets is harmless |
| Circular.WriteAlias | virtualringbuffer.cpp:103-106 | offsets o and o - B write the same cells |
| Circular.AppendAt | virtualringbuffer.cpp:68-81 | bytes copied right after the stored bytes and committed extend them |
| Circular.AppendAtCell | ringbuffer.cpp:41-57 | bytes copied in at the end cell extend the bytes stored from the begin cell |
| Circular.ReadFromCell | ringbuffer.cpp:67-85 | the bytes after the first n removed are those read from cell (begin + n) mod capacity |
| Circular.WriteContiguous | ringbuffer.cpp:41-46 | a write that fits before the end of the array is one block copy |
| Circular.WriteWrapping | ringbuffer.cpp:47-55 | a write that passes the end of the array fills the tail and then the head |
| Circular.ReadContiguous | ringbuffer.cpp:69-74 | a read that fits before the end of the array is one block copy |
| Circular.ReadWrapping | ringbuffer.cpp:75-83 | a read that passes the end of the array takes the tail and then the head |
| Circular.OnePartWrite | ringbuffer.cpp:41-42 | one memcpy at the end offset is the circular write when it fits |
| Circular.TwoPartWrite | ringbuffer.cpp:48-52 | the two memcpy calls of a wrapping write together make the circular write |
| Circular.OnePartRead | ringbuffer.cpp:69-70 | one memcpy from the begin offset is the circular read when it fits |
| Circular.TwoPartRead | ringbuffer.cpp:76-80 | the two memcpy calls of a wrapping read together make the circular read |
| CopyRing.CopyInto | ringbuffer.cpp:42 | memcpy into an array replaces exactly the destination range |
| CopyRing.AppendKeeps | ringbuffer.cpp:41-57 | copying at the end cell keeps the abstraction, with the bytes appended and the end moved past them |
| CopyRing.RemoveKeeps | ringbuffer.cpp:67-85 | the bytes from the begin cell are the oldest stored ones; removing them keeps the abstraction |
| CopyRing.RingBuffer.constructor | ringbuffer.cpp:19-26 | a new buffer of the given capacity is empty with begin, end and size at 0 |
| CopyRing.RingBuffer.Size | ringbuffer.h:23 | size() is the number of stored bytes, at most the capacity |
| CopyRing.RingBuffer.Capacity | ringbuffer.h:24 | capacity() is the array length and bounds the stored bytes |
| CopyRing.RingBuffer.CopyAtEnd | ringbuffer.cpp:41-55 | the copy step of write puts the bytes at cells (end + i) mod capacity and moves end past them, to 0 when it lands on the capacity |
| CopyRing.RingBuffer.Write | ringbuffer.cpp:33-60 | write returns min(size, free space), appends exactly those bytes to the stored ones, grows size by as much, and changes nothing when asked for 0 bytes |
| CopyRing.RingBuffer.CopyFromBegin | ringbuffer.cpp:69-83 | the copy step of read fills the front of the destination from cells (begin + i) mod capacity and moves begin past them |
| CopyRing.RingBuffer.Read | ringbuffer.cpp:62-88 | read returns min(size, stored bytes), hands over the oldest bytes, removes them, leaves the rest of the destination and the array as they were, and changes nothing when asked for 0 bytes |
| Driver.WrappedOverwrite | main.cpp:39-63 | after five 2000-byte blocks '0'..'4' in an 8192-byte buffer, the first 1808 bytes from the start are '4' and the 192 after them are '0' |
| Driver.WrappedChain | main.cpp:43-47 | the loop of five commits from the wrapped test leaves the same two runs as WrappedOverwrite: 1808 bytes of '4' then 192 of '0' |
| Driver.RoundTripAny | virtualringbuffer.cpp:68-107 | any block of at most capacity() bytes, copied in at the write pointer of an empty buffer, committed, copied out at the read pointer and decommitted, comes back unchanged and leaves the buffer empty |
| Driver.RoundTrip | main.cpp:14-37 | a block copied in, committed, copied out and decommitted compares equal, and both offsets move on by 2000 modulo 8192 |
| Driver.WrappedTest | main.cpp:39-63 | the wrapped test's two comparisons succeed |
| Driver.TestProgram | main.cpp:7-63 | the simple, loop and wrapped tests all succeed on an 8000-byte buffer with 4096-byte pages |
| Driver.CommitSkippedExample | virtualringbuffer.cpp:139-142 | a 5-byte read leaves size() at 2000 as written, where the corrected helper reaches 2005 |
| Driver.EmptyBoundsExample | virtualringbuffer.cpp:135 | on an empty buffer the bound readFromDescriptor uses is 0 bytes and the one writeToDescriptor uses is 100 |
| Driver.OverwriteUnreadExample | virtualringbuffer.cpp:133-145 | with 6000 unread bytes of value 1 stored, a 6000-byte read(2) of value 2, which the size() bound allows, overwrites them: the oldest byte taken from the read pointer is 2 |
| Driver.OverrunBoundExample | virtualringbuffer.cpp:135-137 | after commit 5000, decommit 5000 and commit 8000, the read(2) request is 8000 bytes while 3384 bytes of mapping remain after the write pointer |
| Driver.OverReleaseExample | virtualringbuffer.cpp:154-166 | on an empty buffer a 100-byte write(2) sends bytes never stored and leaves size() at 8092 |
| Driver.CopyRingExample | ringbuffer.cpp:33-88 | on 4 cells: a write clamped to the free space and wrapping past the end, then reads that return bytes in the order written |

## Left out

- The mmap, remap_file_pages and munmap calls are not modelled, nor their failure paths or the destructor. The model treats the mapping as always established. Its aliasing is what `Circular` models.
- sysconf, read(2) and write(2) are not modelled. The page size and the syscall results are parameters, bounded by what the kernel can return: at most the requested count, or -1.
- Raw pointers become integer offsets into the mapping. Pointer arithmetic past the mapping is ruled out by preconditions.
- The integer widths are not modelled. That covers the `int` offsets, the `size_t` counts, the `capacity + pageSize - 1` overflow and the conversion of a negative `size()` to `size_t`.
- VirtualRing.VirtualRingBuffer.Commit: requires `write + count <= 2B`. The source lets the write offset leave the mapping, and the next copy would then be out of bounds.
- VirtualRing.VirtualRingBuffer.Decommit: requires `count <= B` and `read + count <= write + B`. Outside these bounds the read offset leaves the first half after the single subtraction, and size() needs more than one correction.
- VirtualRing.VirtualRingBuffer.WriteToDescriptor: inherits Decommit's bounds.
- VirtualRing.VirtualRingBuffer.ReadFromDescriptor: requires the delivered bytes to fit in the mapping after the write pointer. The source's own request, `min(count, size())`, breaks this bound in states callers reach within the contract. With read offset 5000, write offset 13000 and count 8000 it asks read(2) for 8000 bytes where only 3384 remain, a buffer overrun in the source (`Driver.OverrunBoundExample`). The model leaves that overrun out.
- VirtualRing.VirtualRingBuffer.WriteMapped: takes at most B bytes. A longer memcpy through the mapping would write some cells twice, and the result would depend on copy order.
- Driver.WrappedOverwrite: assumes the start offset plus 2000 lies within the first half of the mapping. In the test program it is 5392.
- The `size` argument of `RingBuffer::write` and `RingBuffer::read` is the length of the input sequence or of the destination array. The bytes of the destination past the count read are proved unchanged.
- The copy constructor and assignment operator of `RingBuffer` are private and have no body, so there is nothing to model.
- Concurrency between a producer and a consumer is not modelled. Neither class synchronises.

## Findings

| source | as written | input that shows it | evidently intended | confidence | as-written member | corrected member |
|---|---|---|---|---|---|---|
| virtualringbuffer.cpp:139 | `numRead == 0 \|\| numRead -1` returns before the commit for every result except 1 | after 2000 bytes are stored, read(2) returns 5: the bytes land but size() stays 2000 | return early only for 0 and -1, as writeToDescriptor does | high (not executed) | VirtualRing.VirtualRingBuffer.ReadFromDescriptor, Driver.CommitSkippedExample | VirtualRing.VirtualRingBuffer.FillFromDescriptor |
| virtualringbuffer.cpp:135 | read(2) is asked for StoredBound(count) = min(count, size()) bytes | an empty buffer asks for 0 bytes, so nothing can ever be read in; with 6000 unread bytes stored, a 6000-byte read wraps onto them and the oldest stored byte taken is the new data; with read offset 5000 and write offset 13000, a request for 8000 bytes runs 4616 bytes past the end of the mapping | FreeBound(count), the free space | high (not executed) | VirtualRing.VirtualRingBuffer.ReadFromDescriptor, Driver.EmptyBoundsExample, Driver.OverwriteUnreadExample, Driver.OverrunBoundExample | VirtualRing.VirtualRingBuffer.FillFromDescriptor |
| virtualringbuffer.cpp:156 | write(2) is offered FreeBound(count) = min(count, capacity() - size()) bytes | an empty buffer offers 100 bytes that were never stored; decommitting them leaves size() at 8092 | StoredBound(count), the stored bytes | high (not executed) | VirtualRing.VirtualRingBuffer.WriteToDescriptor, Driver.EmptyBoundsExample, Driver.OverReleaseExample | VirtualRing.VirtualRingBuffer.DrainToDescriptor |
