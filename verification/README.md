# Zipper block pipeline, modelled in Dafny

Zipper compresses a file in fixed-size blocks on several threads and writes a
framed archive. This project models the sequential logic of that pipeline. The
threads and the GZip codec are left out. Two generations of the pipeline are
modelled.

- **All-in-one compressor** (`GZip/ParallelCompressor.cs`).
  - `ReadUncompressed` cuts the input into numbered blocks.
  - `DoCompress` / `DoDecompress` transform blocks on worker threads.
  - `WriteCompressed` restores block order and frames the blocks.
  - `ReadCompressed` checks the signature and every frame's checksum.
  - `WriteDecompressed` restores block order and writes the raw payloads.
- **Newer split jobs** (`GZip/Compression/`).
  - The compressor's `JobStart` is the same reader as above.
  - Its `ParallelizableJob` retries compression with a doubling buffer.
  - Its `JobEnd` writes frames in dequeue order, after an extra input-length header field.
  - The decompressor's `JobStart` parses frames and its `JobEnd` restores block order.

Shared pieces:

- the block checksum (`HashCalculator.GetDataBlockHashCode`);
- the bounded blocking queue, as a state machine;
- the object pool, as a multiset.

The modules follow the program's structure.

- `Int32`: C# `int` arithmetic. `Wrap` reduces an exact result to the signed 32-bit value that unchecked arithmetic leaves.
- `LittleEndian`: bytes and the `BitConverter` encodings.
- `HashCalculator`: the block checksum and its detection properties.
- `Blocks`: blocks, errors, `GetBlocksCount` and the reader loop.
- `BlockingQueue`: the queue. A wait loop becomes an enabledness predicate, and runs of operations are folds.
- `ObjectPool`: the pool.
- `ReorderWriter`: the reorder-and-flush writer, as a fold over the arrival order.
- `Framing`: frames, archive headers, readers and writers of both generations.
- `CompressJob`: the per-block transforms and the worker loop.
- `Pipeline`: the stages composed, ending in round-trip theorems that hold for every arrival order the workers can produce.

Every exception that ends a run is a `Blocks.Error` value in a `Result`.

## Model

| member | source | states |
|---|---|---|
| Int32.Wrap | GZip/Infrastructure/HashCalculator.cs:8-15 | an exact integer result is reduced to the unique `int` congruent to it mod 2^32 (C# unchecked wrap-around) |
| Int32.WrapStepInjective | GZip/Infrastructure/HashCalculator.cs:12 | one hash step `h*31 + c` with wrap-around is injective in `h`, because 31 is invertible mod 2^32 |
| Int32.WrapStepSeparates | GZip/Infrastructure/HashCalculator.cs:12 | one hash step separates two added values that differ by less than 2^32 |
| LittleEndian.Int32Bytes | GZip/Compression/ParallelCompressor.cs:94-97 | `BitConverter.GetBytes(int)` writes four bytes, the two's-complement bit pattern of the value, least significant byte first |
| LittleEndian.Int64Bytes | GZip/Compression/ParallelCompressor.cs:89-90 | `BitConverter.GetBytes(long)` writes eight bytes, the two's-complement bit pattern of the value, least significant byte first |
| LittleEndian.ReadInt32 | GZip/Compression/ParallelDecompressor.cs:61-70 | `BitConverter.ToInt32` returns the `int` whose two's-complement bit pattern the four bytes spell, least significant byte first |
| LittleEndian.ReadInt64 | GZip/Compression/ParallelDecompressor.cs:53 | `BitConverter.ToInt64` returns the `long` whose two's-complement bit pattern the eight bytes spell, least significant byte first |
| LittleEndian.Int32RoundTrip | GZip/ParallelCompressor.cs:125-129 | `BitConverter.ToInt32` reads back every `int` that `GetBytes` wrote |
| LittleEndian.Int64RoundTrip | GZip/ParallelCompressor.cs:116-118 | `BitConverter.ToInt64` reads back every `long` that `GetBytes` wrote |
| LittleEndian.Int32BytesOfRead | GZip/ParallelCompressor.cs:125-126 | writing back the `int` read from four bytes gives the same four bytes |
| LittleEndian.Int64BytesOfRead | GZip/ParallelCompressor.cs:116-118 | writing back the `long` read from eight bytes gives the same eight bytes |
| LittleEndian.ReadInt32Injective | GZip/ParallelCompressor.cs:134-135 | distinct four-byte fields read as distinct `int` values |
| HashCalculator.Checksum | GZip/Infrastructure/HashCalculator.cs:5-16 | the checksum is the exact polynomial `(((17·31^n + Σ data[i]·31^(n-1-i))·31 + length)·31 + number)·31`, wrapped to 32 bits; a negative length runs no iterations |
| HashCalculator.Horner | GZip/Infrastructure/HashCalculator.cs:7-13 | the unchecked loop from 17, wrapping at every step, stays congruent mod 2^32 to the exact fold of the bytes |
| HashCalculator.Tail | GZip/Infrastructure/HashCalculator.cs:15 | the last line, wrapping after every operation, stays congruent mod 2^32 to `((hash·31 + length)·31 + number)·31` computed exactly |
| HashCalculator.WrappedTailIsWrappedPolynomial | GZip/Infrastructure/HashCalculator.cs:15 | wrapping after every operation of the last line equals wrapping the exact result once |
| HashCalculator.HornerAgrees | GZip/Infrastructure/HashCalculator.cs:10-13 | the loop depends only on the bytes it visits |
| HashCalculator.ChecksumIgnoresSlack | GZip/Infrastructure/HashCalculator.cs:10 | buffer bytes at or beyond `length` do not affect the checksum |
| HashCalculator.ChecksumOfEmpty | GZip/Infrastructure/HashCalculator.cs:7-15 | for length 0 the checksum is `(16337 + number)·31` wrapped, whatever the buffer holds |
| HashCalculator.ChecksumSeparatesNumbers | GZip/Infrastructure/HashCalculator.cs:15 | for the same bytes and length, distinct block numbers give distinct checksums |
| HashCalculator.HornerSeparates | GZip/Infrastructure/HashCalculator.cs:10-13 | changing one visited byte changes the loop's result |
| HashCalculator.TailInjective | GZip/Infrastructure/HashCalculator.cs:15 | the last line is injective in the loop's result |
| HashCalculator.ChecksumDetectsByteChange | GZip/Infrastructure/HashCalculator.cs:10-15 | changing any single byte inside `[0, length)` changes the checksum |
| Blocks.BlocksCount | GZip/Compression/ParallelCompressor.cs:133-137 | the count is zero exactly when the input is empty |
| Blocks.BlocksCountBounds | GZip/Compression/ParallelCompressor.cs:133-137 | the count is the ceiling of length / blockSize: `count·blockSize >= length` and `(count-1)·blockSize < length` |
| Blocks.BlocksCountAtMost | GZip/ParallelCompressor.cs:93-94 | there are never more blocks than input bytes |
| Blocks.ChunksIsBlocksCount | GZip/ParallelCompressor.cs:93-98 | taking one full-or-final read per iteration uses exactly `GetBlocksCount` iterations |
| Blocks.ReadChunk | GZip/ParallelCompressor.cs:97-98 | a full read returns min(blockSize, remaining) bytes |
| Blocks.ReadFrom | GZip/ParallelCompressor.cs:95-105 | the loop from iteration i makes one block per remaining read, numbered i, i+1, … |
| Blocks.ReadFromSizes | GZip/ParallelCompressor.cs:97-102 | no block is empty and none is longer than blockSize |
| Blocks.ReadFromFull | GZip/ParallelCompressor.cs:97-102 | every block but the last holds exactly blockSize bytes |
| Blocks.ReadFromConcat | GZip/ParallelCompressor.cs:97-104 | the blocks' payloads, in order, are the bytes read |
| Blocks.ReadBlocks | GZip/Compression/ParallelCompressor.cs:48-63 | `JobStart` / `ReadUncompressed` produce `GetBlocksCount` blocks numbered 0..n-1 whose payloads are non-empty, at most blockSize long, full except the last, and concatenate to the input |
| BlockingQueue.Enqueue | GZip/BlockingQueue.cs:24-37 | returns false exactly on a disposed queue, leaving the items alone; otherwise it appends at the back, even after `Finish`; the capacity bound is kept |
| BlockingQueue.Dequeue | GZip/BlockingQueue.cs:39-55 | yields a value exactly when the queue is not disposed and not empty, so a disposed queue yields nothing even with items left; the value is the front item; flags and capacity are unchanged |
| BlockingQueue.StepBlocksIff | GZip/BlockingQueue.cs:28-45 | an operation waits exactly when its wait-loop condition holds: an enqueue on a live full queue, or a dequeue on a live, unfinished, empty queue |
| BlockingQueue.RunKeepsValid | GZip/BlockingQueue.cs:28-33 | no run of operations takes the item count above the capacity |
| BlockingQueue.StepIsFifo | GZip/BlockingQueue.cs:33-51 | one operation adds at the back or removes from the front |
| BlockingQueue.RunIsFifo | GZip/BlockingQueue.cs:33-51 | over any run, items before plus values accepted equal values delivered plus items left, so takers see values in the order they were put |
| BlockingQueue.RunFlagsMonotone | GZip/BlockingQueue.cs:57-73 | the flags never reset and the capacity never changes; after `Dispose` nothing is accepted or delivered and the items stay as they are |
| BlockingQueue.Finish | GZip/BlockingQueue.cs:57-64 | `Finish` sets the finished flag and changes nothing else: items, capacity and the disposed flag stay |
| BlockingQueue.Dispose | GZip/BlockingQueue.cs:66-73 | `Dispose` sets the disposed flag and changes nothing else: items, capacity and the finished flag stay |
| BlockingQueue.FlagsIdempotent | GZip/BlockingQueue.cs:57-73 | `Finish` and `Dispose` are idempotent and leave the items untouched |
| ObjectPool.Get | GZip/ObjectPool.cs:17 | an empty pool hands out the generator's object and stays empty; otherwise it hands out a pooled object and loses exactly one occurrence of it |
| ObjectPool.Return | GZip/ObjectPool.cs:19 | the pool grows by exactly the returned object, without any bound |
| ObjectPool.ReturnThenGet | GZip/ObjectPool.cs:17-19 | an object returned to an empty pool is the next one handed out |
| ObjectPool.GetAfterReturn | GZip/ObjectPool.cs:17-19 | a return followed by a get leaves the pool plus the object in hand unchanged |
| ReorderWriter.Least | GZip/Compression/ParallelDecompressor.cs:123 | the least key of a non-empty key set is in the set and below every other key |
| ReorderWriter.SortedKeys | GZip/Compression/ParallelDecompressor.cs:123 | `OrderBy(x => x.Key)` lists each key exactly once, strictly ascending |
| ReorderWriter.Flush | GZip/Compression/ParallelDecompressor.cs:123-128 | one block per key still held |
| ReorderWriter.FlushAscending | GZip/Compression/ParallelDecompressor.cs:123-128 | the final flush writes the held blocks in ascending number, all at or above the next expected number |
| ReorderWriter.FlushContents | GZip/Compression/ParallelDecompressor.cs:123-128 | the final flush writes exactly the blocks still held |
| ReorderWriter.Arrive | GZip/Compression/ParallelDecompressor.cs:110-121 | one iteration throws exactly when the number is already held, naming that number; otherwise it writes at most one block (an `if`, not a `while`) and never rewrites earlier output |
| ReorderWriter.Drain | GZip/Compression/ParallelDecompressor.cs:108-121 | the dequeue loop stops at the first exception, which names the number of one of the arrivals; blocks once written stay written |
| ReorderWriter.DrainAppend | GZip/Compression/ParallelDecompressor.cs:108-121 | draining two stretches of arrivals in turn is draining them together, and an exception in the first stretch ends the loop |
| ReorderWriter.Reorder | GZip/Compression/ParallelDecompressor.cs:105-128 | the writer's output, or an exception naming the number of one of the arrivals |
| ReorderWriter.WriteDecompressed | GZip/ParallelCompressor.cs:218-245 | `WriteDecompressed` writes the reordered payloads, or raises an exception naming the number of one of the arrivals |
| ReorderWriter.ArriveKeepsInv | GZip/Compression/ParallelDecompressor.cs:108-121 | one arrival with a fresh, non-negative number succeeds and keeps the writer's invariant: blocks 0..next-1 written in order, the rest held by number, every arrival accounted for once |
| ReorderWriter.DrainKeepsInv | GZip/Compression/ParallelDecompressor.cs:108-121 | the dequeue loop over arrivals with distinct numbers never throws and keeps the invariant |
| ReorderWriter.FinalOutput | GZip/Compression/ParallelDecompressor.cs:105-128 | written blocks followed by the flush are ascending and hold exactly the arrivals |
| ReorderWriter.ReorderSorts | GZip/Compression/ParallelDecompressor.cs:105-128 | for any arrival order of distinct non-negative numbers, the writer emits every block exactly once, in ascending number order |
| ReorderWriter.ReorderKeepsCount | GZip/Compression/ParallelDecompressor.cs:105-128 | a writer that does not throw emits as many blocks as arrived |
| ReorderWriter.AscendingUnique | GZip/Compression/ParallelDecompressor.cs:123 | two ascending block sequences with the same elements are equal, so the output order is determined |
| ReorderWriter.ReorderRestoresNumbering | GZip/ParallelCompressor.cs:187-214 | any permutation of blocks numbered 0..n-1 comes out as exactly those blocks in number order |
| ReorderWriter.WriteDecompressedRestoresInput | GZip/ParallelCompressor.cs:218-245 | for any permutation of blocks numbered 0..n-1, `WriteDecompressed` writes their payloads concatenated in number order, each exactly once, unframed |
| ReorderWriter.DuplicateOfHeldIsCaught | GZip/Compression/ParallelDecompressor.cs:110 | after any arrivals that leave a number held, a further block with that number makes `dict.Add` throw, whatever would have arrived after it |
| ReorderWriter.DuplicateOfWrittenIsRewritten | GZip/Compression/ParallelDecompressor.cs:110-128 | in any writer state reached with distinct numbers, a further block with the number of a block already written passes `dict.Add`; if the remaining arrivals do not throw, the output keeps the earlier blocks and also carries the new copy after them, so that number is written twice |
| Framing.Frame | GZip/ParallelCompressor.cs:195-198 | a frame is 12 bytes longer than its payload, and the payload sits at offset 8 |
| Framing.Frames | GZip/Compression/ParallelCompressor.cs:92-100 | the frames of n blocks take `12·n + Σ length_i` bytes |
| Framing.FramesCons | GZip/Compression/ParallelCompressor.cs:92-97 | the frames are written one after another in order |
| Framing.ParseFrame | GZip/ParallelCompressor.cs:125-142 | a parsed frame is exactly `Frame(block)` followed by the rest of the stream; errors are truncation, a negative length or a checksum mismatch |
| Framing.ParseFrameMismatch | GZip/ParallelCompressor.cs:141-142 | a frame whose stored checksum differs from the recomputed one raises for that block number, before anything is enqueued |
| Framing.ParseFrames | GZip/ParallelCompressor.cs:123-145 | parsing `count` frames yields exactly `count` blocks (none for a negative count), whose frames are a prefix of the stream |
| Framing.ParseFrameOfFrame | GZip/ParallelCompressor.cs:125-142 | the parser recovers the number, length and payload of every written frame, and its checksum check passes |
| Framing.ParseFramesOfFrames | GZip/ParallelCompressor.cs:123-145 | parsing the frames of n blocks with count n gives the blocks back, in order |
| Framing.ReadHeaderAndFrames | GZip/Compression/ParallelDecompressor.cs:44-82 | a wrong signature raises; on success the header fields are there and the blocks' frames follow them |
| Framing.ReadArchive | GZip/ParallelCompressor.cs:109-147 | `ReadCompressed` rejects a wrong signature and reads one 8-byte count right after it, then the frames |
| Framing.ReadArchiveWithLength | GZip/Compression/ParallelCompressor.cs:88-90 | a reader for the newer layout: rejects a wrong signature, skips the 8-byte input length, then reads the count and the frames |
| Framing.CountAndFramesRoundTrip | GZip/ParallelCompressor.cs:116-123 | an 8-byte count followed by that many frames reads back as the framed blocks |
| Framing.WriteCompressed | GZip/ParallelCompressor.cs:177-216 | `WriteCompressed` fails exactly when the reorder writer throws; its output is signature, count and one frame per arrival |
| Framing.WriteArchiveWithLength | GZip/Compression/ParallelCompressor.cs:84-103 | `JobEnd` writes `|signature| + 16 + Σ(12 + length_i)` bytes, frames in dequeue order |
| Framing.WriteCompressedRoundTrip | GZip/ParallelCompressor.cs:184-198 | when the header's count matches the blocks written, `ReadCompressed` returns exactly the blocks `WriteCompressed` emitted, in order |
| Framing.WriteArchiveWithLengthRoundTrip | GZip/Compression/ParallelCompressor.cs:88-97 | the newer layout read by a reader that skips the length field returns the dequeued blocks, in dequeue order |
| Framing.NewerPairMisreads | GZip/Compression/ParallelDecompressor.cs:51-53 | the newer decompressor reads the newer compressor's archive of a one-byte input as a frame numbered 1 and raises a checksum mismatch |
| CompressJob.FirstFit | GZip/Compression/ParallelCompressor.cs:111-131 | the retry loop returns at the first attempt whose capacity the oracle accepts; it reports failure only when all four attempts failed |
| CompressJob.CapacityDoubles | GZip/Compression/ParallelCompressor.cs:113-125 | while 8L fits in an `int`, the capacities tried are L, 2L, 4L and 8L |
| CompressJob.SecondAttemptOverflows | GZip/Compression/ParallelCompressor.cs:124 | from 2^30 bytes on, `arrayLength *= 2` wraps negative and the second attempt always fails |
| CompressJob.CompressBlock | GZip/Compression/ParallelCompressor.cs:65-77 | a block compresses exactly when one of the four attempts fits; then its number is kept and its payload replaced, otherwise it raises `Cannot compress data block n` |
| CompressJob.CompressBlockOnce | GZip/ParallelCompressor.cs:149-161 | `DoCompress` succeeds exactly when the wrapped capacity `Length * 2` fits, keeping the number |
| CompressJob.RetryAcceptsMore | GZip/Compression/ParallelCompressor.cs:111-131 | every block that the single attempt compresses, the retry loop compresses the same way |
| CompressJob.DecompressBlock | GZip/Compression/ParallelDecompressor.cs:84-96 | decompression keeps the number and replaces the payload by the codec's output |
| CompressJob.BlockRoundTrip | GZip/ParallelCompressor.cs:149-175 | with a codec that round-trips, decompressing a compressed block gives the original block |
| CompressJob.TransformAll | GZip/ParallelCompressor.cs:149-175 | all blocks passed through a transform keep their count |
| CompressJob.TransformAllPointwise | GZip/ParallelCompressor.cs:151-160 | the transform of a block sequence succeeds exactly when every block transforms, and then block k of the result is the transform of block k |
| CompressJob.TransformAllFirstError | GZip/Compression/ParallelCompressor.cs:69-70 | a failed transform raises the error of its first failing block |
| CompressJob.TransformAllAppend | GZip/Compression/ParallelCompressor.cs:65-77 | transforming two stretches of blocks in turn is transforming them together: it succeeds exactly when both do, with the results concatenated |
| CompressJob.TransformAllPermutes | GZip/Compression/ParallelCompressor.cs:65-77 | the order blocks reach the workers changes only the order of the results: a permutation of the blocks transforms, and into a permutation of the results |
| CompressJob.DecompressAll | GZip/Compression/ParallelDecompressor.cs:84-96 | decompressing a whole sequence never fails, and gives the result of transforming each block in turn |
| CompressJob.WorkerStep | GZip/Compression/ParallelCompressor.cs:65-77 | one loop iteration forwards the front block transformed, exactly when the input queue is live and non-empty, the transform succeeds and the output queue is live; a failure raises with the output untouched, whether or not the output queue has room |
| CompressJob.WorkerLoop | GZip/Compression/ParallelCompressor.cs:67-76 | a lone worker whose input queue is finished, and whose output queue is disposed or has room for every remaining block, ends stopped or failed |
| CompressJob.WorkerForwardsInOrder | GZip/Compression/ParallelCompressor.cs:65-77 | a lone worker, once the reader has finished and with room in the live output queue for every remaining block (no writer dequeuing meanwhile), forwards every remaining block transformed, in queue order, then stops; or raises the first failure |
| CompressJob.WorkerStopsOnDisposed | GZip/Compression/ParallelCompressor.cs:74-75 | once the output queue is disposed the worker forwards nothing |
| Pipeline.TransformKeepsNumbering | GZip/ParallelCompressor.cs:149-161 | transforms that keep block numbers keep blocks numbered from zero |
| Pipeline.DecompressUndoesCompress | GZip/ParallelCompressor.cs:149-175 | with a codec that round-trips, decompressing the compressed blocks gives back the blocks that were read |
| Pipeline.DecompressUndoes | GZip/Compression/ParallelDecompressor.cs:84-96 | decompressing blocks compressed by a step whose every success decompression undoes gives back the original blocks, in order |
| Pipeline.CompressDecompressRoundTrip | GZip/ParallelCompressor.cs:50-58 | for fewer than 2^31 blocks and any delivery order of both worker pools (the decompressors' output a permutation of the decompressed archive), compressing and then decompressing reproduces the input; the archive's reader returns the compressed blocks in block order |
| Pipeline.NewerRoundTrip | GZip.UnitTests/ParallelCompressorTests.cs:14-38 | for fewer than 2^31 blocks, the newer compressor, with a reader that skips its length field, loses no block in any delivery order; the decompressing workers turn what the reader returns into a permutation of the blocks that were read, and for any delivery order of their output the writer reproduces the input |

## Left out

- Threads, `JobRunner`, `ThreadRunner` and `DoParallel` are left out: worker scheduling shows up only as an arbitrary arrival order, which every ordering and round-trip lemma quantifies over.
- The `Monitor.Wait` / `Pulse` mechanics are left out. The queue model has no blocking, only enabledness.
- The exception handlers `OnException`, `EmergencyStop` and `Dispose` of the jobs are left out. So is returning a buffer to the pool before hashing it (`GZip/ParallelCompressor.cs:211-212`). These matter only when the pools are used concurrently.
- The GZip codec (`GZip/Compressor.cs`) is an abstract `CompressJob.Codec`: compression, decompression and a "buffer big enough" oracle. The round-trip theorems assume `CompressJob.RoundTrips`: decompressing the compression of any block payload (fewer than 2^31 bytes) gives it back. `CompressJob.IdentityRoundTrips` shows that a codec can meet this assumption.
- `ArrayPool<byte>` is left out. `Rent` may return a longer buffer than asked for; the oracle judges the requested capacity, and only the `Length` valid bytes of a buffer are modelled.
- `Stream` is a byte sequence. Reads are assumed to be full. Where the source ignores a short read while parsing an archive, the model reports `Truncated`, and that includes an archive shorter than its signature.
- Framing.ParseFrames: on an error the model returns only the error. The blocks enqueued before it, which the source has already handed to the workers, are not part of the result.
- Blocks.ReadBlocks: requires fewer than 2^31 blocks. The source's loop counter is an `int` compared with a `long` count (`GZip/ParallelCompressor.cs:95`, `GZip/Compression/ParallelCompressor.cs:51`): with 2^31 blocks or more, `i++` wraps to `int.MinValue` after block 2^31 - 1 and the loop never exits, enqueuing empty blocks with negative numbers. A reader that does not terminate is not modelled.
- Pipeline.CompressDecompressRoundTrip: requires fewer than 2^31 blocks, for the reason given for `Blocks.ReadBlocks`; for more the source's reader never finishes.
- Pipeline.NewerRoundTrip: requires fewer than 2^31 blocks, for the reason given for `Blocks.ReadBlocks`.
- Framing.ParseFrames: for an archive count of 2^31 or more the model reads exactly `count` frames. The source's `int` counter (`GZip/ParallelCompressor.cs:123`, `GZip/Compression/ParallelDecompressor.cs:58`) wraps negative before reaching such a count, so its loop does not stop after `count` frames; it keeps reading frames until a read or checksum fails.
- ReorderWriter.Reorder: on a duplicate number the model returns only the error. The blocks the source's writer has already written to the output stream before `dict.Add` throws (`GZip/Compression/ParallelDecompressor.cs:110-115`) are not part of the result; `ReorderWriter.DrainAppend` and `ReorderWriter.DuplicateOfHeldIsCaught` describe the writer's state at that point.
- ReorderWriter.WriteDecompressed: on a duplicate number the model returns only the error. The payloads the source has already written (`GZip/ParallelCompressor.cs:225-230`) are not part of the result.
- Framing.WriteCompressed: on a duplicate number the model returns only the error. The signature, count and frames the source has already written (`GZip/ParallelCompressor.cs:184-198`) are not part of the result.
- Blocks.ReadBlocks: requires a block size of at least 1. The source divides by it and would throw `DivideByZeroException`.
- CompressJob.DecompressBlock: never fails for lack of capacity. The source never checks the capacity of the decompression buffer (`Length * 2` in the newer job, `blockSize` in the older one), so the model asserts no bound.
- The maximum output size, progress reporting (`GetProgress`) and `GZip/Program.cs` (arguments, console, file system, logging) are left out as I/O.
- CompressJob.FirstFit: the first capacity is the block length L, as in the code. A first capacity of 2·L is not modelled.
- The reader's queue operations are not composed into a run of the queue model: `Blocks.ReadBlocks` gives the blocks in the order `JobStart` enqueues them, and `BlockingQueue.RunIsFifo` gives the order in which workers take them, but no lemma runs the enqueues and the final `Finish` through `BlockingQueue.Run`.
- Constructors and their wiring are left out; they come from several revisions of the repository.

## Findings

| source | as written | input that shows it | evidently intended | confidence | as-written member | corrected member |
|---|---|---|---|---|---|---|
| GZip/Compression/ParallelDecompressor.cs:51-53 | the newer compressor writes the input length and then the block count after the signature (GZip/Compression/ParallelCompressor.cs:89-90), but the newer decompressor reads only one 8-byte field before the frames | a one-byte input with block size 1: the length field 1 is read as the count, and the count field is read as frame number 1 with length 0, so the checksum check raises | the reader skips the 8-byte length field before reading the count | medium; not executed; the two files may come from different revisions | Framing.NewerPairMisreads | Framing.ReadArchiveWithLength |
