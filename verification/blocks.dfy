/** Blocks, the errors the pipeline can raise, and the reader stage that cuts the input
    into numbered blocks (`ReadUncompressed`, and the newer `JobStart` of the compressor). */
module Blocks {
  import opened Int32
  import opened LittleEndian

  /** The valid bytes of a buffer: a C# `int` `Length` bounds them below 2^31. */
  type Payload = s: seq<byte> | |s| < TWO_31

  /** A `DataBlock`: its number and the `Length` valid bytes of its rented buffer. */
  datatype Block = Block(number: int32, payload: Payload)

  /** The exceptions the sequential logic raises; each ends the whole run. */
  datatype Error =
    | BadSignature                    // header differs from the expected one (InvalidDataException)
    | ChecksumMismatch(block: int32)  // recomputed checksum differs (InvalidDataException, same message)
    | Truncated                       // the archive ends inside a field
    | NegativeLength(block: int32)    // `ArrayPool.Rent` of a negative length
    | DuplicateNumber(block: int32)   // `Dictionary.Add` of a key already held
    | CannotCompress(block: int32)    // every retry of the compressor found its buffer too small
    | BufferTooSmall(block: int32)    // the single-attempt compressor's buffer was too small (ArgumentException)

  datatype Result<T> = Ok(value: T) | Err(error: Error)

  /** The payloads of the blocks, in sequence order. */
  function Concat(blocks: seq<Block>): seq<byte> {
    if |blocks| == 0 then [] else Concat(blocks[..|blocks| - 1]) + blocks[|blocks| - 1].payload
  }

  /** Block i of the sequence has number i. */
  predicate NumberedFromZero(blocks: seq<Block>) {
    forall i :: 0 <= i < |blocks| ==> blocks[i].number == i
  }

  /** `GetBlocksCount`: `length / blockSize + (length % blockSize == 0 ? 0 : 1)` on
      non-negative operands, where C#'s truncating division agrees with Dafny's. */
  function BlocksCount(length: nat, blockSize: nat): (count: nat)
    requires blockSize > 0
    ensures length == 0 <==> count == 0
  {
    length / blockSize + if length % blockSize == 0 then 0 else 1
  }

  /** The count is the least number of blocks of `blockSize` bytes that hold `length` bytes. */
  lemma BlocksCountBounds(length: nat, blockSize: nat)
    requires blockSize > 0
    ensures BlocksCount(length, blockSize) * blockSize >= length
    ensures BlocksCount(length, blockSize) > 0 ==> (BlocksCount(length, blockSize) - 1) * blockSize < length
  {
    var q := length / blockSize;
    var count := BlocksCount(length, blockSize);
    assert length == q * blockSize + length % blockSize;
    assert count * blockSize == q * blockSize + (if length % blockSize == 0 then 0 else blockSize);
  }

  /** `Stream.Read(data, 0, blockSize)` on a stream positioned at `pos`: the model assumes
      the read is full, returning min(blockSize, remaining) bytes. */
  function ReadChunk(input: seq<byte>, pos: nat, blockSize: nat): (chunk: seq<byte>)
    requires pos <= |input|
    ensures |chunk| == if |input| - pos < blockSize then |input| - pos else blockSize
  {
    if |input| - pos < blockSize then input[pos..] else input[pos..pos + blockSize]
  }

  /** The number of reads the loop makes on `length` remaining bytes, counted one read at
      a time; `ChunksIsBlocksCount` shows it is `GetBlocksCount`. */
  function Chunks(length: nat, blockSize: nat): nat
    requires blockSize > 0
    decreases length
  {
    if length == 0 then 0 else if length <= blockSize then 1 else 1 + Chunks(length - blockSize, blockSize)
  }

  lemma {:induction false} ChunksIsBlocksCount(length: nat, blockSize: nat)
    requires blockSize > 0
    ensures Chunks(length, blockSize) == BlocksCount(length, blockSize)
    decreases length
  {
    if length > 0 {
      BlocksCountStep(length, blockSize);
      if length > blockSize {
        ChunksIsBlocksCount(length - blockSize, blockSize);
      }
    }
  }

  /** There are never more blocks than bytes, so the count fits wherever the length does. */
  lemma BlocksCountAtMost(length: nat, blockSize: nat)
    requires blockSize > 0
    ensures BlocksCount(length, blockSize) <= length
  {
    ChunksIsBlocksCount(length, blockSize);
    ChunksAtMost(length, blockSize);
  }

  lemma {:induction false} ChunksAtMost(length: nat, blockSize: nat)
    requires blockSize > 0
    ensures Chunks(length, blockSize) <= length
    decreases length
  {
    if length > blockSize {
      ChunksAtMost(length - blockSize, blockSize);
    }
  }

  /** The reader loop from iteration i on, with `rest` the bytes not read yet. */
  function ReadFrom(rest: seq<byte>, blockSize: nat, i: nat): (blocks: seq<Block>)
    requires 0 < blockSize < TWO_31
    requires i + Chunks(|rest|, blockSize) <= TWO_31
    ensures |blocks| == Chunks(|rest|, blockSize)
    ensures forall k :: 0 <= k < |blocks| ==> blocks[k].number == i + k
    decreases |rest|
  {
    if |rest| == 0 then
      []
    else
      var chunk := ReadChunk(rest, 0, blockSize);
      [Block(i, chunk)] + ReadFrom(rest[|chunk|..], blockSize, i + 1)
  }

  /** No block is empty or longer than `blockSize`. */
  lemma {:induction false} ReadFromSizes(rest: seq<byte>, blockSize: nat, i: nat)
    requires 0 < blockSize < TWO_31
    requires i + Chunks(|rest|, blockSize) <= TWO_31
    ensures forall b :: b in ReadFrom(rest, blockSize, i) ==> 0 < |b.payload| <= blockSize
    decreases |rest|
  {
    if |rest| > 0 {
      var chunk := ReadChunk(rest, 0, blockSize);
      ReadFromSizes(rest[|chunk|..], blockSize, i + 1);
      assert ReadFrom(rest, blockSize, i) == [Block(i, chunk)] + ReadFrom(rest[|chunk|..], blockSize, i + 1);
    }
  }

  /** Every block but the last is full. */
  lemma {:induction false} ReadFromFull(rest: seq<byte>, blockSize: nat, i: nat)
    requires 0 < blockSize < TWO_31
    requires i + Chunks(|rest|, blockSize) <= TWO_31
    ensures forall k :: 0 <= k < |ReadFrom(rest, blockSize, i)| - 1 ==>
      |ReadFrom(rest, blockSize, i)[k].payload| == blockSize
    decreases |rest|
  {
    if |rest| > 0 {
      var chunk := ReadChunk(rest, 0, blockSize);
      var tail := ReadFrom(rest[|chunk|..], blockSize, i + 1);
      ReadFromFull(rest[|chunk|..], blockSize, i + 1);
      var blocks := [Block(i, chunk)] + tail;
      assert ReadFrom(rest, blockSize, i) == blocks;
      forall k | 0 <= k < |blocks| - 1
        ensures |blocks[k].payload| == blockSize
      {
        if k > 0 {
          assert blocks[k] == tail[k - 1];
        } else {
          assert |rest[|chunk|..]| != 0;
        }
      }
    }
  }

  /** The blocks' payloads put back together are the bytes read. */
  lemma {:induction false} ReadFromConcat(rest: seq<byte>, blockSize: nat, i: nat)
    requires 0 < blockSize < TWO_31
    requires i + Chunks(|rest|, blockSize) <= TWO_31
    ensures Concat(ReadFrom(rest, blockSize, i)) == rest
    decreases |rest|
  {
    if |rest| > 0 {
      var chunk := ReadChunk(rest, 0, blockSize);
      var tail := ReadFrom(rest[|chunk|..], blockSize, i + 1);
      ReadFromConcat(rest[|chunk|..], blockSize, i + 1);
      ConcatCons(Block(i, chunk), tail);
      assert rest == chunk + rest[|chunk|..];
    }
  }

  /** Reading one block leaves one block fewer to read. */
  lemma BlocksCountStep(length: nat, blockSize: nat)
    requires blockSize > 0 && length > 0
    ensures length <= blockSize ==> BlocksCount(length, blockSize) == 1
    ensures length > blockSize ==> BlocksCount(length, blockSize) == 1 + BlocksCount(length - blockSize, blockSize)
  {
    var c := BlocksCount(length, blockSize);
    BlocksCountBounds(length, blockSize);
    if length <= blockSize {
      CountUnique(length, blockSize, c, 1);
    } else {
      var c1 := BlocksCount(length - blockSize, blockSize);
      BlocksCountBounds(length - blockSize, blockSize);
      assert (c1 + 1) * blockSize == c1 * blockSize + blockSize;
      CountUnique(length, blockSize, c, c1 + 1);
    }
  }

  /** At most one count c has (c - 1) * blockSize < length <= c * blockSize. */
  lemma CountUnique(length: nat, blockSize: nat, c: nat, c': nat)
    requires blockSize > 0 && length > 0
    requires c * blockSize >= length && c > 0 && (c - 1) * blockSize < length
    requires c' * blockSize >= length && c' > 0 && (c' - 1) * blockSize < length
    ensures c == c'
  {
    if c < c' {
      MulMonotone(c, c' - 1, blockSize);
    } else if c' < c {
      MulMonotone(c', c - 1, blockSize);
    }
  }

  lemma MulMonotone(a: nat, b: nat, k: nat)
    requires a <= b
    ensures a * k <= b * k
  {
  }

  /** `ReadUncompressed` / `JobStart` of the compressor: the blocks it enqueues, in order,
      before it calls `Finish`. Block numbers are C# `int` loop indices compared with a `long`
      count: from 2^31 blocks on the index wraps negative and the loop never ends, so fewer
      blocks than that. */
  function ReadBlocks(input: seq<byte>, blockSize: nat): (blocks: seq<Block>)
    requires 0 < blockSize < TWO_31
    requires BlocksCount(|input|, blockSize) < TWO_31
    ensures |blocks| == BlocksCount(|input|, blockSize)
    ensures NumberedFromZero(blocks)
    ensures forall b :: b in blocks ==> 0 < |b.payload| <= blockSize
    ensures forall k :: 0 <= k < |blocks| - 1 ==> |blocks[k].payload| == blockSize
    ensures Concat(blocks) == input
  {
    ChunksIsBlocksCount(|input|, blockSize);
    ReadFromSizes(input, blockSize, 0);
    ReadFromFull(input, blockSize, 0);
    ReadFromConcat(input, blockSize, 0);
    ReadFrom(input, blockSize, 0)
  }

  lemma {:induction false} ConcatCons(b: Block, rest: seq<Block>)
    ensures Concat([b] + rest) == b.payload + Concat(rest)
    decreases |rest|
  {
    if |rest| > 0 {
      var s := [b] + rest;
      assert s[..|s| - 1] == [b] + rest[..|rest| - 1];
      ConcatCons(b, rest[..|rest| - 1]);
    } else {
      assert [b] + rest == [b];
      assert [b][..0] == [];
    }
  }
}
