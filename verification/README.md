# Producer-consumer block ring, modelled in Dafny

This project models the sequential core of a C++ benchmark of single-writer / many-reader block ring buffers.

Every strategy holds `num_blocks × block_size` elements in an over-aligned `aligned_array`, plus a write cursor:

- `write(src, size)` checks the pointer and the block size, copies one block to the cursor, and moves the cursor on.
- `read(dst, size, offset)` checks the same way, then copies the block at `offset` into `dst`.

The strategies differ in how they protect the copies:

- `bad_solution` does nothing.
- `unsynchronised_solution` runs over a pluggable storage: the aliases `unsync_solution` and `memcpy_solution`.
- `synchronised_solution` keeps one mutex per block: the aliases `shared_solution` and `exclusive_solution`.
- `shared_mutex_solution` keeps one `std::shared_mutex` per block.
- `seqlock_solution` keeps one sequence counter per block.

The model is a functional state machine: each object is an immutable datatype, each member function a pure function.

- An exception is the `Err` of a `Result`. A call that throws produces no new state, so the old state stands.
- Reads return the new contents of the destination buffer.
- Raw pointers are `Null` or `NonNull(buffer)`.
- `memcpy` is `Memory.CopyInto`.
- The indeterminate contents of `new T[n]` come from a parameter `unspecified: nat -> int`.
- Elements are `int`, and `data_type{}` is `0`.
- Undefined behaviour the code can reach becomes a precondition of the call. This covers three cases: a `memcpy` past the end of the buffer, a division by a zero block size, and indexing `mus` or `cursors` out of range.

Modules follow the source files:

- `Memory`: errors, results, pointers and `memcpy`.
- `Aligned`: `aligned_array.hpp`.
- `Storage`: `storage.hpp`.
- `Ring`: the block addressing the strategies share.
- `BadSolution`, `Unsynchronised`, `Synchronised`, `SharedMutex` and `Seqlock`: one module per strategy header.
- `shared_mutex_solution.hpp` has the module `SharedMutex`, which holds only `New` and `FirstWriteThenRead`. Its `size`, `fill`, `write` and `read` (`src/benchmarks/shared_mutex_solution.hpp:28-63`) repeat `shared_solution`'s, so the `Synchronised` members with the `SharedLocks` policy model them.
- `SeqlockInterleaving`: the seqlock protocol of one block, with a writer's and readers' steps interleaved under sequential consistency.

Behaviour of the code that is easy to misread, kept as written:

- In `synchronised_solution`, `shared_mutex_solution` and `seqlock_solution`, `read` indexes `mus[offset / size]` or `cursors[offset / size]` before `aligned_array::offset` checks the bounds. An offset at or past the capacity is therefore undefined behaviour, not an `out_of_range` exception. The model makes `offset / size < num_blocks` a precondition. `Synchronised.ReadLockIndexInRange` shows that this is the same as `offset < capacity`.
- `read` checks only that the offset is below the capacity (`src/benchmarks/seqlock_solution.hpp:65-72` and the other `read`s). It never checks that the offset is a multiple of the block size, so an unaligned read goes through. The model accepts it (`Seqlock.UnalignedReadSpansTwoBlocks`).
- `storage.hpp` and `synchronised_solution.hpp` call `fill_array`, which neither they nor `aligned_array.hpp` define. It is modelled as the free function `fill` of `aligned_array.hpp`.

## Model

| member | source | states |
|---|---|---|
| Memory.CopyInto | src/benchmarks/bad_solution.hpp:35 | `memcpy` of a block into a buffer keeps its length, puts the block at the target position and changes no other element |
| Aligned.AlignmentBitTestIsPowerOfTwo | src/benchmarks/aligned_array.hpp:10-13 | for a positive alignment, `alignment & (alignment - 1) == 0` holds exactly when the alignment is a power of two (both directions, over a bit-by-bit AND) |
| Aligned.ValidByteAlignment | src/benchmarks/aligned_array.hpp:10-13 | the concept as written: the element fits in one alignment unit, the alignment is positive, and `alignment & (alignment - 1)` is 0 |
| Aligned.ValidByteAlignmentMeaning | src/benchmarks/aligned_array.hpp:10-13 | the concept admits exactly the positive powers of two that are at least the element size |
| Aligned.Default | src/benchmarks/aligned_array.hpp:23 | a default-constructed array has size 0 |
| Aligned.Sized | src/benchmarks/aligned_array.hpp:24-25 | a sized construction with `n` has size `n` |
| Aligned.Copy | src/benchmarks/aligned_array.hpp:27-31 | the copy has the source's count and equal elements, whatever the fresh allocation held |
| Aligned.CopyIgnoresAllocation | src/benchmarks/aligned_array.hpp:27-53 | the `memcpy` overwrites the whole fresh allocation, so neither a copy nor a reallocating copy assignment depends on what `new T[n]` left there: both yield the source's value |
| Aligned.CopyAssign | src/benchmarks/aligned_array.hpp:38-53 | after copy assignment, with or without reallocation, the target has the source's count and elements |
| Aligned.MoveConstruct | src/benchmarks/aligned_array.hpp:33-36 | the target takes the source's count and elements; the moved-from array has size 0 |
| Aligned.MoveAssign | src/benchmarks/aligned_array.hpp:55-63 | move assignment swaps the two arrays' counts and elements |
| Aligned.Size | src/benchmarks/aligned_array.hpp:70 | `size()` is the element count, the length of the modelled storage |
| Aligned.Offset | src/benchmarks/aligned_array.hpp:72-79 | `offset(d)` succeeds exactly when `d < size()` and then designates element `d`; otherwise it fails with `out_of_range` |
| Aligned.OffsetBoundary | src/tests/test_aligned_array.cpp:18-26 | `offset(0)` and `offset(n - 1)` succeed, `offset(n)` throws `out_of_range` |
| Aligned.LastIndex | src/benchmarks/aligned_array.hpp:91 | `dst.size() - 1` is the last valid index exactly when the array is non-empty; on an empty array it wraps to `SIZE_MAX`, which is no valid index |
| Aligned.Fill | src/benchmarks/aligned_array.hpp:88-93 | on a non-empty array every element becomes the value and the size stays; on an empty array `offset(0)` throws `out_of_range` |
| Storage.NewRingBuffer | src/benchmarks/storage.hpp:15-18 | a ring buffer holds `num_elements` elements |
| Storage.NewMemcpyTestBuffer | src/benchmarks/storage.hpp:46-51 | both arrays hold `num_elements` elements and the read side is all zero; with no elements, the fill in the constructor throws |
| Storage.Fill | src/benchmarks/storage.hpp:53-56 | both back ends fill every write-side element, keep the capacity, and leave a test buffer's read side untouched; an empty storage throws `out_of_range` |
| Storage.WriteOffset | src/benchmarks/storage.hpp:58-61 | `write_offset(d)` designates element `d` exactly when `d` is below the capacity, otherwise it throws `out_of_range` |
| Storage.ReadOffset | src/benchmarks/storage.hpp:63-66 | `read_offset(d)` designates element `d` of the read side exactly when `d` is below the capacity, otherwise it throws `out_of_range` |
| Storage.Store | src/benchmarks/unsynchronised_solution.hpp:36 | a block copied through `write_offset` changes only the write side, and a test buffer's read side stays as it was |
| Storage.RingBufferOffsetsAgree | src/benchmarks/storage.hpp:25-33 | in a `ring_buffer` the two offsets designate the same element of the same array and both reject `d >= num_elements` |
| Storage.RingBufferReadsItsWrites | src/benchmarks/storage.hpp:25-33 | what a `ring_buffer` stores at an offset is what a read there sees |
| Storage.MemcpyTestBufferIsolatesReads | src/benchmarks/storage.hpp:53-66 | in a `memcpy_test_buffer`, neither a store nor `fill` changes what `read_offset` sees |
| Ring.ValidCall | src/benchmarks/bad_solution.hpp:33 | the guard every `write` and `read` shares: a non-null pointer and a size equal to the block size |
| Ring.SourceHoldsBlock | src/benchmarks/bad_solution.hpp:35 | what a call that passes the guard needs from its caller: the source holds at least `size` elements for the `memcpy` |
| Ring.Advance | src/benchmarks/bad_solution.hpp:36-37 | `(cursor + block_size) % capacity` stays below the capacity; it is `cursor + block_size` when that is below the capacity and wraps by one capacity when it is not beyond twice the capacity |
| Ring.AdvanceKeepsCursorOk | src/benchmarks/bad_solution.hpp:36-37 | the update `(cursor + block_size) % capacity` keeps the cursor block-aligned and below the capacity, and moves it to the next block round the ring |
| Ring.CursorAfterClosedForm | src/benchmarks/bad_solution.hpp:36-37 | after `k` writes from 0 the cursor is `(k mod num_blocks) · block_size`, which equals `(k · block_size) mod capacity` |
| Ring.CursorWrapsAfterEveryBlock | src/benchmarks/bad_solution.hpp:36-37 | the cursor returns to 0 after exactly `num_blocks` writes and not before |
| Ring.StoreAndAdvanceKeepLayout | src/benchmarks/bad_solution.hpp:35-37 | a store that keeps the array's size, followed by the cursor update, keeps the ring layout: capacity `num_blocks · block_size` and a block-aligned cursor below it |
| Ring.CursorBlockFits | src/benchmarks/bad_solution.hpp:35 | under the cursor invariant, the block written at the cursor fits in the buffer |
| Ring.StoreBlock | src/benchmarks/bad_solution.hpp:35 | `memcpy(a.offset(at), src, size)` fails with `out_of_range` exactly when `at` is not below the capacity; otherwise it copies the block and changes nothing else |
| Ring.LoadBlock | src/benchmarks/bad_solution.hpp:47 | `memcpy(dst, a.offset(at), size)` fails with `out_of_range` exactly when `at` is not below the capacity; otherwise `dst` starts with the block and keeps the rest |
| BadSolution.New | src/benchmarks/bad_solution.hpp:15-21 | the constructor gives `num_blocks · block_size` elements and cursor 0 |
| BadSolution.Size | src/benchmarks/bad_solution.hpp:24 | `size()` equals the storage length |
| BadSolution.Fill | src/benchmarks/bad_solution.hpp:26-29 | a non-empty ring gets every element set to the value and keeps the cursor; an empty one throws `out_of_range` |
| BadSolution.Write | src/benchmarks/bad_solution.hpp:31-41 | a null pointer or a wrong size throws `runtime_error`; an empty ring throws `out_of_range`; otherwise the block is copied to the cursor, nothing else changes, and the cursor becomes `(cursor + block_size) mod capacity` |
| BadSolution.Read | src/benchmarks/bad_solution.hpp:43-51 | a null pointer or a wrong size throws `runtime_error`; an offset at or past the capacity throws `out_of_range`; otherwise `dst` receives the block at the offset |
| BadSolution.WriteThenReadRoundTrip | src/benchmarks/bad_solution.hpp:31-51 | reading the offset a write just used returns exactly the block written |
| BadSolution.CursorAfterWrites | src/benchmarks/bad_solution.hpp:36-37 | after any `k` valid writes from construction, the cursor is at block `k mod num_blocks` |
| Unsynchronised.NewUnsyncSolution | src/benchmarks/unsynchronised_solution.hpp:55-58 | `unsync_solution` starts with a ring buffer of `num_blocks · block_size` elements and cursor 0 |
| Unsynchronised.NewMemcpySolution | src/benchmarks/unsynchronised_solution.hpp:60-63 | `memcpy_solution` starts with an all-zero read side, or throws `out_of_range` when the capacity is 0 |
| Unsynchronised.Size | src/benchmarks/unsynchronised_solution.hpp:25 | `size()` equals the storage capacity |
| Unsynchronised.Fill | src/benchmarks/unsynchronised_solution.hpp:27-30 | `fill` fills the write side through the storage, keeps the cursor and never changes a test buffer's read side |
| Unsynchronised.PrecedenceAdvance | src/benchmarks/unsynchronised_solution.hpp:38 | the update as written yields a multiple of the block size whose block index is `(cursor + block_size) mod num_blocks`, a byte offset reduced modulo a block count |
| Unsynchronised.PrecedenceAdvanceInRange | src/benchmarks/unsynchronised_solution.hpp:38 | the literal update `offset_write % n_blocks * b_size` is still block-aligned and below the capacity |
| Unsynchronised.Write | src/benchmarks/unsynchronised_solution.hpp:32-42 | invalid calls throw as in `bad_solution`; otherwise the block goes to `write_offset(cursor)`, a test buffer's read side is untouched, and the cursor becomes `((cursor + block_size) mod num_blocks) · block_size` |
| Unsynchronised.WriteIntended | src/benchmarks/unsynchronised_solution.hpp:37-38 | with the update `(cursor + size) % size()`, the block index advances by exactly one round the ring |
| Unsynchronised.Read | src/benchmarks/unsynchronised_solution.hpp:44-52 | invalid calls throw `runtime_error`; an offset past the capacity throws `out_of_range`; otherwise `dst` receives the block at `read_offset(offset)` |
| Unsynchronised.UnsyncWriteThenReadRoundTrip | src/benchmarks/unsynchronised_solution.hpp:32-52 | over a `ring_buffer`, reading the offset a write just used returns the block written |
| Unsynchronised.Run | src/benchmarks/unsynchronised_solution.hpp:27-42 | any sequence of writes and fills keeps the object valid and leaves a test buffer's read side as it was |
| Unsynchronised.ReadOfZeroSideIsZero | src/benchmarks/unsynchronised_solution.hpp:44-52 | `read` copies from `read_offset`, so when the read side is all zero every successful read returns zeros |
| Unsynchronised.MemcpySolutionReadsZero | src/benchmarks/unsynchronised_solution.hpp:60-63 | whatever is written or filled, every successful read of a `memcpy_solution` returns zeros |
| Unsynchronised.PrecedenceCursorSkipsBlocks | src/benchmarks/unsynchronised_solution.hpp:38 | with 10 blocks of 16, the first write moves the cursor to 96, not 16, and the cursor only ever visits 0, 32, 64, 96 and 128 |
| Unsynchronised.IntendedCursorVisitsEveryBlock | src/benchmarks/unsynchronised_solution.hpp:37-38 | with the intended update, the first `num_blocks` writes visit blocks 0, 1, …, `num_blocks - 1` in order |
| Synchronised.New | src/benchmarks/synchronised_solution.hpp:19-26 | one lock per block, `num_blocks · block_size` elements, cursor 0 |
| Synchronised.Size | src/benchmarks/synchronised_solution.hpp:29 | `size()` equals the storage length |
| Synchronised.Fill | src/benchmarks/synchronised_solution.hpp:31-34 | a non-empty ring gets every element set to the value and keeps the cursor; an empty one throws `out_of_range` |
| Synchronised.WriteLockIndexInRange | src/benchmarks/synchronised_solution.hpp:40-42 | under the cursor invariant the write's lock index `cursor / block_size` is below `num_blocks` |
| Synchronised.Write | src/benchmarks/synchronised_solution.hpp:36-50 | a null pointer or a wrong size throws `runtime_error`; otherwise the block is copied to the cursor, nothing else changes, and the cursor advances modulo the capacity |
| Synchronised.ReadLockIndexInRange | src/benchmarks/synchronised_solution.hpp:56-59 | the read's lock index is in range exactly when the offset is below the capacity |
| Synchronised.Read | src/benchmarks/synchronised_solution.hpp:52-64 | a null pointer or a wrong size throws `runtime_error`; otherwise `dst` receives the block at the offset |
| Synchronised.SynchronisedWriteThenReadRoundTrip | src/benchmarks/synchronised_solution.hpp:36-64 | reading the offset a write just used returns the block written |
| Synchronised.LockPolicyIsInvisible | src/benchmarks/synchronised_solution.hpp:67-79 | `shared_solution` and `exclusive_solution` write the same storage and cursor and read the same blocks |
| SharedMutex.New | src/benchmarks/shared_mutex_solution.hpp:18-25 | moving the temporary array in yields exactly the object `shared_solution` constructs: one lock per block, `num_blocks · block_size` elements, cursor 0 |
| SharedMutex.FirstWriteThenRead | src/benchmarks/shared_mutex_solution.hpp:35-63 | from construction, a write then a read of offset 0 returns the block written, and the cursor moves to the second block (to 0 with one block) |
| Seqlock.PaddingLength | src/benchmarks/seqlock_solution.hpp:8-14 | for a range larger than the counter, counter plus padding fill exactly one false-sharing range |
| Seqlock.DefaultCursorPadding | src/benchmarks/seqlock_solution.hpp:8-21 | the `cursor<>` that `seqlock_solution` holds uses the default range of 128 bytes, so after the 8-byte counter its padding is 120 bytes |
| Seqlock.New | src/benchmarks/seqlock_solution.hpp:26-33 | one counter per block, every counter 0, cursor 0 |
| Seqlock.Size | src/benchmarks/seqlock_solution.hpp:36 | `size()` equals the storage length |
| Seqlock.Fill | src/benchmarks/seqlock_solution.hpp:38-41 | a non-empty ring gets every element set to the value and keeps counters and cursor; an empty one throws `out_of_range` |
| Seqlock.WriteIndexInRange | src/benchmarks/seqlock_solution.hpp:47-48 | under the cursor invariant the write's counter index is below `num_blocks` |
| Seqlock.BeginWrite | src/benchmarks/seqlock_solution.hpp:48-49 | while the copy runs, the target block's counter is odd and larger than before, and no other counter has changed |
| Seqlock.Write | src/benchmarks/seqlock_solution.hpp:43-59 | a null pointer or a wrong size throws `runtime_error`; otherwise the target counter rises by 2, the others stay, only the target block changes, counters stay even, and the cursor advances modulo the capacity |
| Seqlock.ReadIndexInRange | src/benchmarks/seqlock_solution.hpp:65-70 | the read's counter index is in range exactly when the offset is below the capacity |
| Seqlock.Attempt | src/benchmarks/seqlock_solution.hpp:68-75 | one pass of the reader loop copies the block at the offset into `dst` |
| Seqlock.Retry | src/benchmarks/seqlock_solution.hpp:75 | the loop condition `seq0 != seq1 \|\| seq0 & 1`: the counter moved during the copy, or a write was in flight at the first load |
| Seqlock.SingleThreadedReadNeverRetries | src/benchmarks/seqlock_solution.hpp:68-75 | with no writer running, the retry test `seq0 != seq1 \|\| seq0 & 1` is false on the first pass |
| Seqlock.Read | src/benchmarks/seqlock_solution.hpp:61-80 | a null pointer or a wrong size throws `runtime_error`; otherwise `dst` receives the block at the offset |
| Seqlock.UnalignedReadSpansTwoBlocks | src/benchmarks/seqlock_solution.hpp:63-75 | `read` accepts an offset that is not a multiple of the block size; its copy then covers the tail of block `offset / size` and the head of the next block, and both counter loads read the first block's counter only |
| Seqlock.SeqlockWriteThenReadRoundTrip | src/benchmarks/seqlock_solution.hpp:43-80 | write a block, then read the block it landed in: the reader gets exactly what was written |
| Seqlock.CountersCountWrites | src/benchmarks/seqlock_solution.hpp:47-55 | after any `k` writes from construction, the cursor is at block `k mod num_blocks` and each counter is twice the number of writes that targeted its block |
| Seqlock.WriteKeepsFirstBlock | src/benchmarks/seqlock_solution.hpp:51-55 | a write of `src` keeps `src` in block 0 once it is there: at cursor 0 it rewrites the block, anywhere else it leaves block 0 alone |
| Seqlock.RepeatedWritesKeepFirstBlock | src/benchmarks/seqlock_solution.hpp:51-55 | writing one source any positive number of times from a zero cursor leaves it in block 0 |
| Seqlock.RepeatedWriteThenReadFirstBlock | src/tests/test_seqlock_solution.cpp:24-34 | on every repetition of "write `src`, read offset 0", the reader gets `src` |
| SeqlockInterleaving.Enabled | src/benchmarks/seqlock_solution.hpp:43-80 | when each step of `write` (counter store, element copy, final store) and of `read` (first load, element copy, second load, retry or return) can run |
| SeqlockInterleaving.Next | src/benchmarks/seqlock_solution.hpp:43-80 | one step's effect: a writer step leaves every reader where it was, a reader step changes that reader only, and finished values are never forgotten |
| SeqlockInterleaving.Init | src/benchmarks/seqlock_solution.hpp:26-33 | one block just after the constructor: counter 0 (even, no write in flight), the initial contents as the only complete value, and every reader idle |
| SeqlockInterleaving.InitSatisfiesInv | src/benchmarks/seqlock_solution.hpp:26-33 | a new block (counter 0, no write in flight) satisfies the protocol invariant |
| SeqlockInterleaving.WriterCopyKeepsWriter | src/benchmarks/seqlock_solution.hpp:51 | copying one more element keeps the block equal to the source's copied prefix followed by the last complete value |
| SeqlockInterleaving.WriterEndKeepsWriter | src/benchmarks/seqlock_solution.hpp:53 | storing `seq0 + 2` after the full copy publishes the source as the next complete value with counter `2 · writes` |
| SeqlockInterleaving.WriterStepKeepsReader | src/benchmarks/seqlock_solution.hpp:47-53 | no writer step can make a reader's even first load equal the counter while its copy disagrees with the block |
| SeqlockInterleaving.ReaderStepKeepsReader | src/benchmarks/seqlock_solution.hpp:68-75 | each reader step keeps that reader's part of the invariant: an even unchanged counter means the copy so far matches the block |
| SeqlockInterleaving.NextPreservesInv | src/benchmarks/seqlock_solution.hpp:43-80 | every writer or reader step preserves the protocol invariant |
| SeqlockInterleaving.RunPreservesInv | src/benchmarks/seqlock_solution.hpp:43-80 | any schedule of steps preserves the protocol invariant |
| SeqlockInterleaving.RunKeepsInitialValue | src/benchmarks/seqlock_solution.hpp:26-33 | the record of complete values always starts with the initial contents |
| SeqlockInterleaving.AcceptedReadIsCompleteWrite | src/benchmarks/seqlock_solution.hpp:68-75 | under any interleaving of one writer and any readers, a copy the retry test accepts equals the complete value after write number `seq0 / 2` (the initial contents when `seq0` is 0), never a torn mix |

## Left out

- Memory ordering, `atomic_signal_fence`, acquire/release, and real mutex blocking are not modelled. Locks are no-ops, because they do not change what a sequence of calls computes. Only the seqlock protocol is interleaved, and only under sequential consistency.
- Seqlock liveness under a concurrent writer (a reader may retry forever) is not modelled.
- `SeqlockInterleaving` models one block. A write touches one block's counter and elements only, and a read at a block-aligned offset copies exactly the block whose counter it loads, so one block covers every such pair of calls. Reads at other offsets are outside it.
- SeqlockInterleaving.AcceptedReadIsCompleteWrite: holds for reads at block-aligned offsets only. `read` admits any offset below the capacity, and an unaligned one copies from two blocks while loading the first block's counter (`Seqlock.UnalignedReadSpansTwoBlocks`). A write to the second block during the copy leaves that counter unchanged, so a torn copy can be accepted.
- Seqlock.Read: models one pass of the retry loop. With a single thread that pass is always accepted (`Seqlock.SingleThreadedReadNeverRetries`). The concurrent loop lives in `SeqlockInterleaving`.
- Seqlock.Write: counters are unbounded naturals. The 64-bit wrap-around of `std::size_t` after 2^63 writes to one block is not modelled.
- BadSolution.New: `num_blocks * block_size` is not reduced modulo 2^64. A product that overflows `std::size_t` in C++ is not modelled. The same holds for the other constructors.
- Physical alignment of the allocation, `operator new`/`delete`, destructors, ownership, leaks and double frees are not modelled: they are raw memory management. The `ValidByteAlignment` predicate is modelled; the address alignment the tests observe is not.
- Aligned.CopyAssign: the missing `return *this` is not modelled, nor is `delete[]` receiving a `size_t` where an `align_val_t` belongs. Aligned.MoveAssign: the missing `return *this` is not modelled either. Only the resulting object values are.
- Object identity is not modelled, so self-assignment is the value-level no-op it produces.
- `aligned_array::data()` is left out: it exposes a raw pointer and holds no logic.
- The element type is `int`. `sizeof(std::atomic<std::size_t>)` is fixed at 8, as on the 64-bit targets.
- A `memcpy` that runs past the end of the buffer is a precondition of `read`, not modelled behaviour. Only the start offset is checked, so a non-block-aligned offset near the end would over-read.
- The benchmark harness, ZeroMQ transport and plotting are outside the core, because they are I/O, threads and timing: `benchmark.hpp`, `main.cpp`, `zmq_benchmark.hpp`, `test_zmq.cpp` and `plot_results.py`.
- `test_bad_solution.cpp` calls `read` with two arguments, which does not match the three-argument class. It is read only as evidence of the intended round trip.

## Findings

| source | as written | input that shows it | evidently intended | confidence | as-written member | corrected member |
|---|---|---|---|---|---|---|
| src/benchmarks/unsynchronised_solution.hpp:38 | `offset_write = offset_write % n_blocks * b_size` parses as `(offset_write % n_blocks) * b_size`, after `offset_write += size` | `num_blocks = 10`, `block_size = 16`: the first write moves the cursor from 0 to 96 instead of 16, and the cursor only ever visits 0, 32, 64, 96, 128, so blocks 1, 3, 5, 7 and 9 are never written | `offset_write % (n_blocks * b_size)`, i.e. `% size()` as in the other strategies: the cursor steps one block round the ring | high (not executed) | Unsynchronised.Write, Unsynchronised.PrecedenceCursorSkipsBlocks | Unsynchronised.WriteIntended, Unsynchronised.IntendedCursorVisitsEveryBlock |
