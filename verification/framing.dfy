/** The archive layout: the signature, one or two 8-byte little-endian header fields, then
    one frame per block, `number(4) | length(4) | payload | checksum(4)`, every integer as
    `BitConverter` writes it. The readers of both generations share the frame parser. */
module Framing {
  import opened Int32
  import opened LittleEndian
  import opened HashCalculator
  import opened Blocks
  import opened ReorderWriter

  /** The four writes that frame one block. */
  function Frame(b: Block): (s: seq<byte>)
    ensures |s| == 12 + |b.payload|
    ensures s[8..8 + |b.payload|] == b.payload
  {
    Int32Bytes(b.number) + Int32Bytes(|b.payload|) + b.payload + Int32Bytes(BlockChecksum(b.payload, b.number))
  }

  /** The frames of the blocks, in sequence order. */
  function Frames(blocks: seq<Block>): (s: seq<byte>)
    ensures |s| == 12 * |blocks| + |Concat(blocks)|
  {
    if |blocks| == 0 then
      []
    else
      ConcatCons(blocks[0], blocks[1..]);
      assert blocks == [blocks[0]] + blocks[1..];
      Frame(blocks[0]) + Frames(blocks[1..])
  }

  lemma FramesCons(b: Block, rest: seq<Block>)
    ensures Frames([b] + rest) == Frame(b) + Frames(rest)
  {
    assert ([b] + rest)[1..] == rest;
  }

  // ---------------------------------------------------------------------------
  // Reading frames back

  /** One iteration of the reader loop: the block and the bytes after its frame, or the
      exception it raises. A negative length makes `ArrayPool.Rent` throw before the payload
      is read; the checksum is compared before the block is enqueued. */
  function ParseFrame(s: seq<byte>): (r: Result<(Block, seq<byte>)>)
    ensures r.Ok? ==> s == Frame(r.value.0) + r.value.1
    ensures r.Err? ==> r.error.Truncated? || r.error.NegativeLength? || r.error.ChecksumMismatch?
  {
    if |s| < 8 then
      Err(Truncated)
    else
      var number := ReadInt32(s[..4]);
      var length := ReadInt32(s[4..8]);
      if length < 0 then
        Err(NegativeLength(number))
      else if |s| < 12 + length then
        Err(Truncated)
      else
        var payload: Payload := s[8..8 + length];
        if ReadInt32(s[8 + length..12 + length]) != BlockChecksum(payload, number) then
          Err(ChecksumMismatch(number))
        else
          FrameFields(s, length);
          Ok((Block(number, payload), s[12 + length..]))
  }

  /** Bytes whose fields carry a consistent length and checksum are a frame. */
  lemma FrameFields(s: seq<byte>, length: nat)
    requires |s| >= 12 + length && length < TWO_31
    requires ReadInt32(s[4..8]) == length
    requires ReadInt32(s[8 + length..12 + length]) == BlockChecksum(s[8..8 + length], ReadInt32(s[..4]))
    ensures s == Frame(Block(ReadInt32(s[..4]), s[8..8 + length])) + s[12 + length..]
  {
    var payload := s[8..8 + length];
    var b := Block(ReadInt32(s[..4]), payload);
    Int32BytesOfRead(s[..4]);
    Int32BytesOfRead(s[4..8]);
    Int32BytesOfRead(s[8 + length..12 + length]);
    assert Frame(b) == s[..4] + s[4..8] + payload + s[8 + length..12 + length];
    SplitAt(s, 12 + length);
    assert s[..12 + length] == s[..4] + s[4..8] + payload + s[8 + length..12 + length];
  }

  lemma SplitAt(s: seq<byte>, k: nat)
    requires k <= |s|
    ensures s == s[..k] + s[k..]
  {
  }

  /** Fields that parse but whose checksum field differs from the recomputed checksum make
      the reader throw, naming the number it read. */
  lemma ParseFrameMismatch(s: seq<byte>, number: int32, length: nat)
    requires |s| >= 12 + length && length < TWO_31
    requires ReadInt32(s[..4]) == number && ReadInt32(s[4..8]) == length
    requires ReadInt32(s[8 + length..12 + length]) != BlockChecksum(s[8..8 + length], number)
    ensures ParseFrame(s) == Err(ChecksumMismatch(number))
    ensures ParseFrames(s, 1) == Err(ChecksumMismatch(number))
  {
    var payload: Payload := s[8..8 + length];
    assert ParseFrame(s) == Err(ChecksumMismatch(number));
  }

  /** The loop `for (var i = 0; i < blocksCount; i++)`: no frames for a count of zero or
      less, otherwise exactly `count` frames; bytes after them are never read. */
  function ParseFrames(s: seq<byte>, count: int): (r: Result<seq<Block>>)
    ensures r.Ok? ==> |r.value| == (if count < 0 then 0 else count)
    ensures r.Ok? ==> Frames(r.value) <= s
    decreases if count < 0 then 0 else count
  {
    if count <= 0 then
      Ok([])
    else
      match ParseFrame(s)
      case Err(e) => Err(e)
      case Ok((b, rest)) =>
        match ParseFrames(rest, count - 1)
        case Err(e) => Err(e)
        case Ok(bs) =>
          FramesCons(b, bs);
          Ok([b] + bs)
  }

  /** Parsing the frames of some blocks gives the blocks back, whatever follows them. */
  lemma ParseFrameOfFrame(b: Block, rest: seq<byte>)
    ensures ParseFrame(Frame(b) + rest) == Ok((b, rest))
  {
    var s := Frame(b) + rest;
    var n := |b.payload|;
    assert s[..4] == Int32Bytes(b.number);
    assert s[4..8] == Int32Bytes(n);
    assert s[8..8 + n] == b.payload;
    assert s[8 + n..12 + n] == Int32Bytes(BlockChecksum(b.payload, b.number));
    assert s[12 + n..] == rest;
    Int32RoundTrip(b.number);
    Int32RoundTrip(n);
    Int32RoundTrip(BlockChecksum(b.payload, b.number));
  }

  lemma {:induction false} ParseFramesOfFrames(blocks: seq<Block>, rest: seq<byte>)
    ensures ParseFrames(Frames(blocks) + rest, |blocks|) == Ok(blocks)
    decreases |blocks|
  {
    if |blocks| > 0 {
      var tail := blocks[1..];
      var after := Frames(tail) + rest;
      FramesUnfold(blocks, rest);
      ParseFrameOfFrame(blocks[0], after);
      ParseFramesOfFrames(tail, rest);
      ParseFramesStep(Frame(blocks[0]) + after, blocks[0], after, tail);
      assert [blocks[0]] + tail == blocks;
    }
  }

  lemma FramesUnfold(blocks: seq<Block>, rest: seq<byte>)
    requires |blocks| > 0
    ensures Frames(blocks) + rest == Frame(blocks[0]) + (Frames(blocks[1..]) + rest)
  {
    var head, tail := Frame(blocks[0]), Frames(blocks[1..]);
    assert Frames(blocks) == head + tail;
    AppendAssoc(head, tail, rest);
  }

  lemma AppendAssoc(a: seq<byte>, b: seq<byte>, c: seq<byte>)
    ensures (a + b) + c == a + (b + c)
  {
  }

  lemma ParseFramesStep(s: seq<byte>, b: Block, after: seq<byte>, tail: seq<Block>)
    requires ParseFrame(s) == Ok((b, after))
    requires ParseFrames(after, |tail|) == Ok(tail)
    ensures ParseFrames(s, |tail| + 1) == Ok([b] + tail)
  {
  }

  // ---------------------------------------------------------------------------
  // Archives

  /** The reader of either generation: the signature, then the header fields and frames
      that follow it. A stream shorter than the signature is reported as `Truncated`. */
  function ReadHeaderAndFrames(sig: seq<byte>, s: seq<byte>, skipped: nat): (r: Result<seq<Block>>)
    ensures |s| >= |sig| && s[..|sig|] != sig ==> r == Err(BadSignature)
    ensures r.Ok? ==> |s| >= |sig| + skipped + 8 && s[..|sig|] == sig
    ensures r.Ok? ==> Frames(r.value) <= s[|sig| + skipped + 8..]
  {
    if |s| < |sig| then
      Err(Truncated)
    else if s[..|sig|] != sig then
      Err(BadSignature)
    else
      var t := s[|sig|..];
      assert |t| >= skipped + 8 ==> t[skipped + 8..] == s[|sig| + skipped + 8..];
      ReadCountAndFrames(t, skipped)
  }

  /** After the signature: `skipped` header bytes the reader reads past, the 8-byte count,
      then that many frames. */
  function ReadCountAndFrames(t: seq<byte>, skipped: nat): (r: Result<seq<Block>>)
    ensures r.Ok? ==> |t| >= skipped + 8 && Frames(r.value) <= t[skipped + 8..]
  {
    if |t| < skipped + 8 then
      Err(Truncated)
    else
      ParseFrames(t[skipped + 8..], ReadInt64(t[skipped..skipped + 8]))
  }

  /** `ReadCompressed` and the newer decompressor's `JobStart`: the signature, then one
      8-byte count. */
  function ReadArchive(sig: seq<byte>, s: seq<byte>): (r: Result<seq<Block>>)
    ensures |s| >= |sig| && s[..|sig|] != sig ==> r == Err(BadSignature)
    ensures r.Ok? ==> |s| >= |sig| + 8 && s[..|sig|] == sig && Frames(r.value) <= s[|sig| + 8..]
  {
    ReadHeaderAndFrames(sig, s, 0)
  }

  /** The reader the newer writer's layout calls for: the signature, the 8-byte input
      length (read past), the 8-byte count, then the frames. */
  function ReadArchiveWithLength(sig: seq<byte>, s: seq<byte>): (r: Result<seq<Block>>)
    ensures |s| >= |sig| && s[..|sig|] != sig ==> r == Err(BadSignature)
    ensures r.Ok? ==> |s| >= |sig| + 16 && s[..|sig|] == sig && Frames(r.value) <= s[|sig| + 16..]
  {
    ReadHeaderAndFrames(sig, s, 8)
  }

  lemma SignatureAccepted(sig: seq<byte>, t: seq<byte>, skipped: nat)
    ensures ReadHeaderAndFrames(sig, sig + t, skipped) == ReadCountAndFrames(t, skipped)
  {
    assert (sig + t)[..|sig|] == sig && (sig + t)[|sig|..] == t;
  }

  lemma SliceAfter(a: seq<byte>, b: seq<byte>, c: seq<byte>)
    requires |b| == 8
    ensures (a + (b + c))[|a|..|a| + 8] == b && (a + (b + c))[|a| + 8..] == c
  {
  }

  lemma CountAndFramesUnfold(t: seq<byte>, skipped: nat)
    requires |t| >= skipped + 8
    ensures ReadCountAndFrames(t, skipped) == ParseFrames(t[skipped + 8..], ReadInt64(t[skipped..skipped + 8]))
  {
  }

  /** The count and frames after any `skipped` bytes give the blocks back. */
  lemma CountAndFramesRoundTrip(skippedBytes: seq<byte>, blocks: seq<Block>)
    requires |blocks| < TWO_63
    ensures ReadCountAndFrames(skippedBytes + (Int64Bytes(|blocks|) + Frames(blocks)), |skippedBytes|) == Ok(blocks)
  {
    var k := |skippedBytes|;
    var n := |blocks|;
    var t := skippedBytes + (Int64Bytes(n) + Frames(blocks));
    SliceAfter(skippedBytes, Int64Bytes(n), Frames(blocks));
    Int64RoundTrip(n);
    ParseFramesOfFrames(blocks, []);
    assert Frames(blocks) + [] == Frames(blocks);
    CountAndFramesUnfold(t, k);
  }

  // ---------------------------------------------------------------------------
  // Writers

  /** `WriteCompressed` of the all-in-one compressor: the signature, the block count of the
      input, then the frames in the order the reorder writer emits them. */
  function WriteCompressed(sig: seq<byte>, inputLength: nat, blockSize: nat, arrivals: seq<Block>): (r: Result<seq<byte>>)
    requires blockSize > 0 && inputLength < TWO_63
    ensures r.Ok? <==> Reorder(arrivals).Ok?
    ensures r.Ok? ==> |r.value| == |sig| + 8 + 12 * |arrivals| + |Concat(Reorder(arrivals).value)|
  {
    match Reorder(arrivals)
    case Err(e) => Err(e)
    case Ok(out) =>
      BlocksCountAtMost(inputLength, blockSize);
      ReorderKeepsCount(arrivals);
      Ok(sig + (Int64Bytes(BlocksCount(inputLength, blockSize)) + Frames(out)))
  }

  /** The newer compressor's `JobEnd`: the signature, the input length, the block count,
      then the frames in dequeue order, with no reordering. */
  function WriteArchiveWithLength(sig: seq<byte>, inputLength: nat, blockSize: nat, dequeued: seq<Block>): (s: seq<byte>)
    requires blockSize > 0 && inputLength < TWO_63
    ensures |s| == |sig| + 16 + 12 * |dequeued| + |Concat(dequeued)|
  {
    BlocksCountAtMost(inputLength, blockSize);
    sig + (Int64Bytes(inputLength) + (Int64Bytes(BlocksCount(inputLength, blockSize)) + Frames(dequeued)))
  }

  /** The all-in-one pair: whenever the header's count is the number of blocks written,
      `ReadCompressed` gets back exactly the blocks `WriteCompressed` emitted, in order. */
  lemma WriteCompressedRoundTrip(sig: seq<byte>, inputLength: nat, blockSize: nat, arrivals: seq<Block>)
    requires blockSize > 0 && inputLength < TWO_63
    requires |arrivals| == BlocksCount(inputLength, blockSize)
    requires Reorder(arrivals).Ok?
    ensures ReadArchive(sig, WriteCompressed(sig, inputLength, blockSize, arrivals).value) == Reorder(arrivals)
  {
    var out := Reorder(arrivals).value;
    ReorderKeepsCount(arrivals);
    BlocksCountAtMost(inputLength, blockSize);
    var t := Int64Bytes(|out|) + Frames(out);
    assert WriteCompressed(sig, inputLength, blockSize, arrivals).value == sig + t;
    SignatureAccepted(sig, t, 0);
    assert [] + t == t;
    CountAndFramesRoundTrip([], out);
  }

  /** The newer writer with the reader its layout calls for: every block comes back, in
      dequeue order, when the count matches the blocks written. */
  lemma WriteArchiveWithLengthRoundTrip(sig: seq<byte>, inputLength: nat, blockSize: nat, dequeued: seq<Block>)
    requires blockSize > 0 && inputLength < TWO_63
    requires |dequeued| == BlocksCount(inputLength, blockSize)
    ensures ReadArchiveWithLength(sig, WriteArchiveWithLength(sig, inputLength, blockSize, dequeued)) == Ok(dequeued)
  {
    BlocksCountAtMost(inputLength, blockSize);
    var t := Int64Bytes(inputLength) + (Int64Bytes(|dequeued|) + Frames(dequeued));
    SignatureAccepted(sig, t, 8);
    CountAndFramesRoundTrip(Int64Bytes(inputLength), dequeued);
  }

  /** The newer decompressor reads the input-length field as the count and the count field
      as the first frame's number and length: a one-byte input, whatever its compressed
      block 0 holds, fails the checksum of a block numbered 1. */
  lemma NewerPairMisreads(sig: seq<byte>, b: Block)
    requires b.number == 0
    ensures ReadArchive(sig, WriteArchiveWithLength(sig, 1, 1, [b])) == Err(ChecksumMismatch(1))
  {
    var body := Int64Bytes(1) + Frame(b);
    OneBlockNewerLayout(sig, b);
    SignatureAccepted(sig, Int64Bytes(1) + body, 0);
    CountOfOne(body);
    FrameStartsWithNumber(b);
    MisreadFrame(Frame(b));
  }

  lemma OneBlockNewerLayout(sig: seq<byte>, b: Block)
    ensures WriteArchiveWithLength(sig, 1, 1, [b]) == sig + (Int64Bytes(1) + (Int64Bytes(1) + Frame(b)))
  {
    assert BlocksCount(1, 1) == 1;
    FramesCons(b, []);
    assert [b] + [] == [b];
  }

  lemma CountOfOne(body: seq<byte>)
    ensures ReadCountAndFrames(Int64Bytes(1) + body, 0) == ParseFrames(body, 1)
  {
    var t := Int64Bytes(1) + body;
    CountAndFramesUnfold(t, 0);
    assert t[0..8] == Int64Bytes(1) && t[8..] == body;
    Int64RoundTrip(1);
  }

  lemma FrameStartsWithNumber(b: Block)
    ensures Frame(b)[..4] == Int32Bytes(b.number)
  {
  }

  /** The count 1 as 8 bytes reads as number 1 followed by length 0. */
  lemma OneAsTwoInt32()
    ensures Int64Bytes(1)[..4] == Int32Bytes(1) && Int64Bytes(1)[4..] == Int32Bytes(0)
  {
    SmallInt32Bytes();
    Int64OneBytes();
    assert [1, 0, 0, 0, 0, 0, 0, 0][..4] == [1, 0, 0, 0];
    assert [1, 0, 0, 0, 0, 0, 0, 0][4..] == [0, 0, 0, 0];
  }

  lemma Int64OneBytes()
    ensures Int64Bytes(1) == [1, 0, 0, 0, 0, 0, 0, 0]
  {
    assert Unsigned64(1) == 1;
    var zeros := Encode(0, 7);
    EncodeZero(7);
    assert Encode(1, 8) == [1] + zeros;
  }

  lemma {:induction false} EncodeZero(n: nat)
    ensures forall i :: 0 <= i < n ==> Encode(0, n)[i] == 0
  {
    if n > 0 {
      EncodeZero(n - 1);
      assert Encode(0, n) == [0] + Encode(0, n - 1);
    }
  }

  /** A frame whose number and length fields hold the count 1 as 8 bytes and whose
      checksum field holds block number 0. */
  lemma MisreadFrame(rest: seq<byte>)
    requires |rest| >= 4 && rest[..4] == Int32Bytes(0)
    ensures ParseFrames(Int64Bytes(1) + rest, 1) == Err(ChecksumMismatch(1))
  {
    OneAsTwoInt32();
    MisreadSplit(Int64Bytes(1), rest);
  }

  lemma MisreadSplit(one: seq<byte>, rest: seq<byte>)
    requires |one| == 8 && one[..4] == Int32Bytes(1) && one[4..] == Int32Bytes(0)
    requires |rest| >= 4 && rest[..4] == Int32Bytes(0)
    ensures ParseFrames(one + rest, 1) == Err(ChecksumMismatch(1))
  {
    var body := one + rest;
    assert body[..4] == one[..4];
    assert body[4..8] == one[4..];
    assert body[8..12] == rest[..4];
    MisreadFields(body);
  }

  lemma MisreadFields(body: seq<byte>)
    requires |body| >= 12
    requires body[..4] == Int32Bytes(1) && body[4..8] == Int32Bytes(0) && body[8..12] == Int32Bytes(0)
    ensures ParseFrames(body, 1) == Err(ChecksumMismatch(1))
  {
    Int32RoundTrip(1);
    Int32RoundTrip(0);
    assert ReadInt32(body[..4]) == 1 && ReadInt32(body[4..8]) == 0 && ReadInt32(body[8..12]) == 0;
    assert body[8..8] == [];
    EmptyChecksumOfOne();
    ParseFrameMismatch(body, 1, 0);
  }

  lemma SmallInt32Bytes()
    ensures Int32Bytes(0) == [0, 0, 0, 0] && Int32Bytes(1) == [1, 0, 0, 0]
  {
    assert Unsigned32(0) == 0 && Unsigned32(1) == 1;
  }

  lemma EmptyChecksumOfOne()
    ensures BlockChecksum([], 1) == 506478
  {
    ChecksumOfEmpty([], 1);
    WrapIdentity(506478);
  }
}
