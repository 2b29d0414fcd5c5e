/** The stages composed in one sequential interleaving: reader, workers, writer, and back.
    Worker threads hand blocks to the writer in any order; the lemmas take that order as a
    parameter and ask only that it be a permutation of what the workers produced. */
module Pipeline {
  import opened Int32
  import opened LittleEndian
  import opened Blocks
  import opened BlockingQueue
  import opened ReorderWriter
  import opened Framing
  import opened CompressJob

  // ---------------------------------------------------------------------------
  // The all-in-one compressor and its matching reader

  /** Transformed blocks keep their numbers, so they stay numbered from zero. */
  lemma TransformKeepsNumbering(step: Block -> Result<Block>, blocks: seq<Block>)
    requires NumberedFromZero(blocks)
    requires forall b :: step(b).Ok? ==> step(b).value.number == b.number
    requires TransformAll(step, blocks).Ok?
    ensures NumberedFromZero(TransformAll(step, blocks).value)
  {
    TransformAllPointwise(step, blocks);
  }

  /** Decompressing the compressed blocks gives back the blocks that were read. */
  lemma DecompressUndoesCompress(codec: Codec, blocks: seq<Block>, compressed: seq<Block>)
    requires RoundTrips(codec)
    requires TransformAll(CompressOnceStep(codec), blocks) == Ok(compressed)
    ensures TransformAll(DecompressStep(codec), compressed) == Ok(blocks)
  {
    OnceUndone(codec);
    DecompressUndoes(codec, CompressOnceStep(codec), blocks, compressed);
  }

  /** Decompression undoes any compressing step whose every success it undoes, run over a
      whole sequence of blocks. */
  lemma DecompressUndoes(codec: Codec, step: Block -> Result<Block>, blocks: seq<Block>, compressed: seq<Block>)
    requires forall b :: step(b).Ok? ==> DecompressBlock(codec, step(b).value) == Ok(b)
    requires TransformAll(step, blocks) == Ok(compressed)
    ensures DecompressAll(codec, compressed) == blocks
  {
    TransformAllPointwise(step, blocks);
    TransformAllPointwise(DecompressStep(codec), compressed);
    var back := DecompressAll(codec, compressed);
    forall k | 0 <= k < |blocks|
      ensures back[k] == blocks[k]
    {
      assert step(blocks[k]) == Ok(compressed[k]);
      assert DecompressStep(codec)(compressed[k]) == Ok(back[k]);
    }
    assert back == blocks;
  }

  lemma OnceUndone(codec: Codec)
    requires RoundTrips(codec)
    ensures forall b :: CompressOnceStep(codec)(b).Ok? ==>
      DecompressBlock(codec, CompressOnceStep(codec)(b).value) == Ok(b)
  {
    forall b | CompressOnceStep(codec)(b).Ok?
      ensures DecompressBlock(codec, CompressOnceStep(codec)(b).value) == Ok(b)
    {
      assert codec.decompress(codec.compress(b.payload)) == b.payload;
    }
  }

  lemma RetryUndone(codec: Codec)
    requires RoundTrips(codec)
    ensures forall b :: CompressStep(codec)(b).Ok? ==>
      DecompressBlock(codec, CompressStep(codec)(b).value) == Ok(b)
  {
    forall b | CompressStep(codec)(b).Ok?
      ensures DecompressBlock(codec, CompressStep(codec)(b).value) == Ok(b)
    {
      BlockRoundTrip(codec, b);
    }
  }

  /** `CompressParallel` then `DecompressParallel` of the all-in-one compressor: whatever order
      the compressing workers deliver in, the archive holds the compressed blocks in block
      order and its reader gets them back; decompressing them gives the blocks that were read;
      and whatever order the decompressing workers deliver in, the writer reproduces the
      input. */
  lemma CompressDecompressRoundTrip(codec: Codec, sig: seq<byte>, input: seq<byte>, blockSize: nat,
                                    compressedArrivals: seq<Block>, decompressedArrivals: seq<Block>)
    requires RoundTrips(codec)
    requires 0 < blockSize < TWO_31 && |input| < TWO_63 && BlocksCount(|input|, blockSize) < TWO_31
    requires TransformAll(CompressOnceStep(codec), ReadBlocks(input, blockSize)).Ok?
    requires multiset(compressedArrivals) ==
             multiset(TransformAll(CompressOnceStep(codec), ReadBlocks(input, blockSize)).value)
    requires multiset(decompressedArrivals) ==
             multiset(DecompressAll(codec, TransformAll(CompressOnceStep(codec), ReadBlocks(input, blockSize)).value))
    ensures WriteCompressed(sig, |input|, blockSize, compressedArrivals).Ok?
    ensures ReadArchive(sig, WriteCompressed(sig, |input|, blockSize, compressedArrivals).value) ==
            TransformAll(CompressOnceStep(codec), ReadBlocks(input, blockSize))
    ensures TransformAll(DecompressStep(codec), TransformAll(CompressOnceStep(codec), ReadBlocks(input, blockSize)).value) ==
            Ok(ReadBlocks(input, blockSize))
    ensures WriteDecompressed(decompressedArrivals) == Ok(input)
  {
    var blocks := ReadBlocks(input, blockSize);
    var compressed := TransformAll(CompressOnceStep(codec), blocks).value;
    TransformKeepsNumbering(CompressOnceStep(codec), blocks);
    ReorderRestoresNumbering(compressed, compressedArrivals);
    assert |compressedArrivals| == |multiset(compressed)| == |blocks|;
    WriteCompressedRoundTrip(sig, |input|, blockSize, compressedArrivals);
    DecompressUndoesCompress(codec, blocks, compressed);
    assert DecompressAll(codec, compressed) == blocks;
    WriteDecompressedRestoresInput(blocks, decompressedArrivals);
  }

  // ---------------------------------------------------------------------------
  // The newer compressor with the reader its layout calls for

  /** The newer compressor writes frames in the order its workers deliver them; a reader
      that skips the input-length field gets exactly those blocks back; the decompressing
      workers turn them into a permutation of the blocks that were read; and the
      decompressor's reorder writer reproduces the input from any delivery order of their
      output. */
  lemma NewerRoundTrip(codec: Codec, sig: seq<byte>, input: seq<byte>, blockSize: nat,
                       compressedArrivals: seq<Block>, decompressedArrivals: seq<Block>)
    requires RoundTrips(codec)
    requires 0 < blockSize < TWO_31 && |input| < TWO_63 && BlocksCount(|input|, blockSize) < TWO_31
    requires TransformAll(CompressStep(codec), ReadBlocks(input, blockSize)).Ok?
    requires multiset(compressedArrivals) ==
             multiset(TransformAll(CompressStep(codec), ReadBlocks(input, blockSize)).value)
    requires multiset(decompressedArrivals) == multiset(DecompressAll(codec, compressedArrivals))
    ensures ReadArchiveWithLength(sig, WriteArchiveWithLength(sig, |input|, blockSize, compressedArrivals)) ==
            Ok(compressedArrivals)
    ensures multiset(DecompressAll(codec, compressedArrivals)) == multiset(ReadBlocks(input, blockSize))
    ensures WriteDecompressed(decompressedArrivals) == Ok(input)
  {
    var blocks := ReadBlocks(input, blockSize);
    var compressed := TransformAll(CompressStep(codec), blocks).value;
    assert |compressedArrivals| == |multiset(compressed)| == |blocks|;
    WriteArchiveWithLengthRoundTrip(sig, |input|, blockSize, compressedArrivals);
    RetryUndone(codec);
    DecompressUndoes(codec, CompressStep(codec), blocks, compressed);
    TransformAllPermutes(DecompressStep(codec), compressed, compressedArrivals);
    assert multiset(DecompressAll(codec, compressedArrivals)) == multiset(blocks);
    WriteDecompressedRestoresInput(blocks, decompressedArrivals);
  }
}
