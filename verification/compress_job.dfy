/** The per-block transform stage between the reader and the writer: `TryCompress` with its
    retry-with-doubling capacity search and the worker loop `ParallelizableJob` of the newer
    compressor, and the single-attempt `DoCompress` / `DoDecompress` of the all-in-one
    compressor. The GZip codec itself is abstract. */
module CompressJob {
  import opened Int32
  import opened LittleEndian
  import opened Blocks
  import opened BlockingQueue
  import opened Wrappers

  /** The codec as the pipeline sees it: what `Compress` and `Decompress` produce, and
      whether `Compress` finds a destination buffer of the given capacity big enough (it
      throws `ArgumentException` when it is not). */
  datatype Codec = Codec(
    compress: seq<byte> -> Payload,
    decompress: seq<byte> -> Payload,
    fits: (seq<byte>, int) -> bool)

  /** Decompressing what was compressed gives the data back, for every block payload. */
  ghost predicate RoundTrips(codec: Codec) {
    forall data: Payload :: codec.decompress(codec.compress(data)) == data
  }

  /** The identity codec on payloads; it shows that a codec can meet `RoundTrips`. */
  function Identity(s: seq<byte>): (r: Payload)
    ensures |s| < TWO_31 ==> r == s
  {
    if |s| < TWO_31 then s else []
  }

  lemma IdentityRoundTrips()
    ensures RoundTrips(Codec(Identity, Identity, (data, capacity) => true))
  {
  }

  /** `retryCount`. */
  const RETRY_COUNT: nat := 4

  /** The capacity of attempt k: the block length, doubled in C# `int` arithmetic
      (`arrayLength *= 2`, which wraps) after every failed attempt. */
  function Capacity(length: int32, attempt: nat): int32 {
    if attempt == 0 then length else Wrap(Capacity(length, attempt - 1) * 2)
  }

  /** Attempt k succeeds when `ArrayPool.Rent` accepts the capacity (a negative one throws
      `ArgumentOutOfRangeException`, an `ArgumentException` the retry loop catches like the
      codec's own) and the codec's output fits in it. */
  predicate AttemptSucceeds(codec: Codec, data: Payload, attempt: nat) {
    var capacity := Capacity(|data|, attempt);
    capacity >= 0 && codec.fits(data, capacity)
  }

  /** The retry loop of `TryCompress` from iteration `attempt` on: the index of the attempt
      that returns, or None when the loop runs out. */
  function FirstFit(codec: Codec, data: Payload, attempt: nat): (r: Option<nat>)
    requires attempt <= RETRY_COUNT
    ensures r.Some? ==> attempt <= r.value < RETRY_COUNT && AttemptSucceeds(codec, data, r.value)
    ensures r.Some? ==> forall k :: attempt <= k < r.value ==> !AttemptSucceeds(codec, data, k)
    ensures r.None? <==> forall k :: attempt <= k < RETRY_COUNT ==> !AttemptSucceeds(codec, data, k)
    decreases RETRY_COUNT - attempt
  {
    if attempt == RETRY_COUNT then None
    else if AttemptSucceeds(codec, data, attempt) then Some(attempt)
    else FirstFit(codec, data, attempt + 1)
  }

  /** The capacities tried are L, 2L, 4L and 8L as long as 8L fits in an `int`. */
  lemma CapacityDoubles(length: int32)
    requires 0 <= length && 8 * length < TWO_31
    ensures Capacity(length, 0) == length
    ensures Capacity(length, 1) == 2 * length
    ensures Capacity(length, 2) == 4 * length
    ensures Capacity(length, 3) == 8 * length
  {
    WrapIdentity(2 * length);
    WrapIdentity(4 * length);
    WrapIdentity(8 * length);
  }

  /** From 2^30 bytes on, doubling overflows into a negative capacity: the second attempt
      fails whatever the codec does. */
  lemma SecondAttemptOverflows(codec: Codec, data: Payload)
    requires |data| >= TWO_31 / 2
    ensures Capacity(|data|, 1) < 0
    ensures !AttemptSucceeds(codec, data, 1)
  {
    var c := 2 * |data| - TWO_32;
    assert Congruent(2 * |data|, c) by {
      MultipleIsCongruent(2 * |data| - c, 1);
    }
    WrapUnique(2 * |data|, c);
  }

  /** One pass of `ParallelizableJob`'s loop body: `TryCompress` and, on success, the block
      with its number kept and its payload replaced; `InvalidDataException` otherwise. */
  function CompressBlock(codec: Codec, b: Block): (r: Result<Block>)
    ensures r.Ok? <==> exists k :: 0 <= k < RETRY_COUNT && AttemptSucceeds(codec, b.payload, k)
    ensures r.Ok? ==> r.value.number == b.number && r.value.payload == codec.compress(b.payload)
    ensures r.Err? ==> r.error == CannotCompress(b.number)
  {
    match FirstFit(codec, b.payload, 0)
    case None => Err(CannotCompress(b.number))
    case Some(_) => Ok(Block(b.number, codec.compress(b.payload)))
  }

  /** `DoCompress` of the all-in-one compressor: a single attempt with capacity
      `dataBlock.Length * 2` (C# `int`, wrapping), whose failure escapes the worker. */
  function CompressBlockOnce(codec: Codec, b: Block): (r: Result<Block>)
    ensures r.Ok? <==> AttemptSucceeds(codec, b.payload, 1)
    ensures r.Ok? ==> r.value.number == b.number && r.value.payload == codec.compress(b.payload)
    ensures r.Err? ==> r.error == BufferTooSmall(b.number)
  {
    var capacity := Wrap(|b.payload| * 2);
    assert capacity == Capacity(|b.payload|, 1);
    if capacity >= 0 && codec.fits(b.payload, capacity) then Ok(Block(b.number, codec.compress(b.payload)))
    else Err(BufferTooSmall(b.number))
  }

  /** The retry loop accepts every block the single attempt accepts, with the same result. */
  lemma RetryAcceptsMore(codec: Codec, b: Block)
    requires CompressBlockOnce(codec, b).Ok?
    ensures CompressBlock(codec, b) == CompressBlockOnce(codec, b)
  {
    assert AttemptSucceeds(codec, b.payload, 1);
  }

  /** `DoDecompress` and the decompressor's `ParallelizableJob`: the number kept, the payload
      decompressed. The capacity of the rented buffer is never checked. */
  function DecompressBlock(codec: Codec, b: Block): (r: Result<Block>)
    ensures r.Ok? && r.value.number == b.number && r.value.payload == codec.decompress(b.payload)
  {
    Ok(Block(b.number, codec.decompress(b.payload)))
  }

  /** A block that compresses comes back unchanged from decompression. */
  lemma BlockRoundTrip(codec: Codec, b: Block)
    requires RoundTrips(codec)
    requires CompressBlock(codec, b).Ok?
    ensures DecompressBlock(codec, CompressBlock(codec, b).value) == Ok(b)
  {
  }

  // ---------------------------------------------------------------------------
  // The worker loop

  /** Every block passed through one transform, stopping at the first failure. This is what
      the workers together hand to the writer, in some order. */
  function TransformAll(step: Block -> Result<Block>, blocks: seq<Block>): (r: Result<seq<Block>>)
    ensures r.Ok? ==> |r.value| == |blocks|
    decreases |blocks|
  {
    if |blocks| == 0 then Ok([])
    else
      match step(blocks[0])
      case Err(e) => Err(e)
      case Ok(b) =>
        match TransformAll(step, blocks[1..])
        case Err(e) => Err(e)
        case Ok(rest) => Ok([b] + rest)
  }

  /** The run succeeds exactly when every block transforms, and then block k of the result
      is the transform of block k. */
  lemma {:induction false} TransformAllPointwise(step: Block -> Result<Block>, blocks: seq<Block>)
    ensures TransformAll(step, blocks).Ok? <==> forall k :: 0 <= k < |blocks| ==> step(blocks[k]).Ok?
    ensures TransformAll(step, blocks).Ok? ==>
      forall k :: 0 <= k < |blocks| ==> step(blocks[k]) == Ok(TransformAll(step, blocks).value[k])
    decreases |blocks|
  {
    if |blocks| > 0 {
      TransformAllPointwise(step, blocks[1..]);
      var r := TransformAll(step, blocks);
      if step(blocks[0]).Ok? && TransformAll(step, blocks[1..]).Ok? {
        var rest := TransformAll(step, blocks[1..]).value;
        assert r.value == [step(blocks[0]).value] + rest;
        forall k | 0 <= k < |blocks|
          ensures step(blocks[k]) == Ok(r.value[k])
        {
          if k > 0 {
            assert blocks[k] == blocks[1..][k - 1];
          }
        }
      } else if step(blocks[0]).Ok? {
        var k :| 0 <= k < |blocks[1..]| && !step(blocks[1..][k]).Ok?;
        assert blocks[1..][k] == blocks[k + 1];
      }
    }
  }

  /** A failed run raises the error of its first block that fails. */
  lemma {:induction false} TransformAllFirstError(step: Block -> Result<Block>, blocks: seq<Block>)
    requires TransformAll(step, blocks).Err?
    ensures exists k :: 0 <= k < |blocks| && step(blocks[k]) == Err(TransformAll(step, blocks).error)
                        && forall j :: 0 <= j < k ==> step(blocks[j]).Ok?
    decreases |blocks|
  {
    if step(blocks[0]).Ok? {
      TransformAllFirstError(step, blocks[1..]);
      var k :| 0 <= k < |blocks[1..]| && step(blocks[1..][k]) == Err(TransformAll(step, blocks[1..]).error)
               && forall j :: 0 <= j < k ==> step(blocks[1..][j]).Ok?;
      assert step(blocks[k + 1]) == Err(TransformAll(step, blocks).error);
      forall j | 0 <= j < k + 1
        ensures step(blocks[j]).Ok?
      {
        if j > 0 {
          assert blocks[j] == blocks[1..][j - 1];
        }
      }
    } else {
      assert step(blocks[0]) == Err(TransformAll(step, blocks).error);
    }
  }

  /** Running two stretches of blocks one after the other is running them together. */
  lemma {:induction false} TransformAllAppend(step: Block -> Result<Block>, a: seq<Block>, b: seq<Block>)
    ensures TransformAll(step, a + b).Ok? <==> TransformAll(step, a).Ok? && TransformAll(step, b).Ok?
    ensures TransformAll(step, a + b).Ok? ==>
      TransformAll(step, a + b).value == TransformAll(step, a).value + TransformAll(step, b).value
    decreases |a|
  {
    if |a| == 0 {
      assert a + b == b;
    } else {
      assert (a + b)[0] == a[0] && (a + b)[1..] == a[1..] + b;
      TransformAllAppend(step, a[1..], b);
      if step(a[0]).Ok? && TransformAll(step, a + b).Ok? {
        var x := step(a[0]).value;
        assert TransformAll(step, a + b).value == [x] + TransformAll(step, a[1..] + b).value;
        assert TransformAll(step, a).value == [x] + TransformAll(step, a[1..]).value;
      }
    }
  }

  /** The order blocks are handed to the workers in does not change what comes out, only
      its order: a permutation of the blocks transforms into a permutation of the results. */
  lemma {:induction false} TransformAllPermutes(step: Block -> Result<Block>, xs: seq<Block>, ys: seq<Block>)
    requires multiset(xs) == multiset(ys)
    requires TransformAll(step, xs).Ok?
    ensures TransformAll(step, ys).Ok?
    ensures multiset(TransformAll(step, ys).value) == multiset(TransformAll(step, xs).value)
    decreases |xs|
  {
    if |xs| == 0 {
      assert |ys| == |multiset(ys)| == 0;
    } else {
      var x := xs[0];
      assert x in multiset(ys);
      var j :| 0 <= j < |ys| && ys[j] == x;
      var before, after := ys[..j], ys[j + 1..];
      assert ys == before + ([x] + after);
      RemoveMatching(xs, ys, j);
      var fx := step(x).value;
      TransformAllUnfold(step, xs, fx);
      var rest := TransformAll(step, xs[1..]).value;
      assert TransformAll(step, xs) == Ok([fx] + rest);
      TransformAllPermutes(step, xs[1..], before + after);
      TransformAllSplice(step, before, x, after, fx);
      ConsMultiset(fx, rest);
    }
  }

  lemma ConsMultiset(x: Block, s: seq<Block>)
    ensures multiset([x] + s) == multiset(s) + multiset{x}
  {
  }

  lemma RemoveMatching(xs: seq<Block>, ys: seq<Block>, j: nat)
    requires multiset(xs) == multiset(ys) && |xs| > 0 && j < |ys| && ys[j] == xs[0]
    ensures multiset(ys[..j] + ys[j + 1..]) == multiset(xs[1..])
  {
    assert xs == [xs[0]] + xs[1..];
    assert multiset(xs) == multiset{xs[0]} + multiset(xs[1..]);
    assert ys == ys[..j] + [ys[j]] + ys[j + 1..];
    assert multiset(ys) == multiset(ys[..j]) + multiset{ys[j]} + multiset(ys[j + 1..]);
    assert multiset(ys[..j] + ys[j + 1..]) == multiset(ys[..j]) + multiset(ys[j + 1..]);
    assert multiset(xs[1..]) == multiset(xs) - multiset{xs[0]};
    assert multiset(ys[..j]) + multiset(ys[j + 1..]) == multiset(ys) - multiset{ys[j]};
  }

  /** Putting one more block into a run adds its transform to what comes out. */
  lemma TransformAllSplice(step: Block -> Result<Block>, before: seq<Block>, x: Block, after: seq<Block>, fx: Block)
    requires step(x) == Ok(fx) && TransformAll(step, before + after).Ok?
    ensures TransformAll(step, before + ([x] + after)).Ok?
    ensures multiset(TransformAll(step, before + ([x] + after)).value) ==
            multiset(TransformAll(step, before + after).value) + multiset{fx}
  {
    TransformAllAppend(step, before, after);
    TransformAllAppend(step, before, [x] + after);
    assert ([x] + after)[0] == x && ([x] + after)[1..] == after;
    TransformAllUnfold(step, [x] + after, fx);
    var vb, va := TransformAll(step, before).value, TransformAll(step, after).value;
    assert TransformAll(step, [x] + after).value == [fx] + va;
    assert multiset(vb + ([fx] + va)) == multiset(vb + va) + multiset{fx};
  }

  /** The transforms the three kinds of worker apply. */
  function CompressStep(codec: Codec): Block -> Result<Block> {
    b => CompressBlock(codec, b)
  }

  function CompressOnceStep(codec: Codec): Block -> Result<Block> {
    b => CompressBlockOnce(codec, b)
  }

  function DecompressStep(codec: Codec): Block -> Result<Block> {
    b => DecompressBlock(codec, b)
  }

  /** The decompressing workers' output in input order: decompression never fails, so every
      run of it succeeds, and block k of the result is block k decompressed. */
  function DecompressAll(codec: Codec, blocks: seq<Block>): (r: seq<Block>)
    ensures TransformAll(DecompressStep(codec), blocks) == Ok(r)
  {
    TransformAllPointwise(DecompressStep(codec), blocks);
    var r := seq(|blocks|, k requires 0 <= k < |blocks| => DecompressBlock(codec, blocks[k]).value);
    assert TransformAll(DecompressStep(codec), blocks).value == r;
    r
  }

  datatype Status = Running | Stopped | Failed(error: Error)

  /** One iteration of a worker loop (`ParallelizableJob`, `DoCompress`, `DoDecompress`): take
      a block, transform it and pass it on. The worker stops when `Dequeue` returns false or
      the output queue refuses the block; a failed transform raises. */
  function WorkerStep(step: Block -> Result<Block>, input: Queue<Block>, output: Queue<Block>)
    : (r: (Queue<Block>, Queue<Block>, Status))
    requires DequeueEnabled(input)
    requires !input.disposed && |input.items| > 0 && step(input.items[0]).Ok? ==> EnqueueEnabled(output)
    ensures r.2.Running? <==>
      !input.disposed && |input.items| > 0 && step(input.items[0]).Ok? && !output.disposed
    ensures r.2.Running? ==>
      r.0.items == input.items[1..] && r.1.items == output.items + [step(input.items[0]).value]
    ensures r.2.Failed? ==>
      |input.items| > 0 && step(input.items[0]) == Err(r.2.error) && r.1 == output
    ensures r.2.Stopped? ==> r.1 == output
    ensures r.0.finished == input.finished && r.0.disposed == input.disposed
    ensures r.1.capacity == output.capacity && r.1.finished == output.finished && r.1.disposed == output.disposed
  {
    var (input', taken) := Dequeue(input);
    match taken
    case None => (input', output, Stopped)
    case Some(b) =>
      match step(b)
      case Err(e) => (input', output, Failed(e))
      case Ok(b') =>
        var (output', accepted) := Enqueue(output, b');
        (input', output', if accepted then Running else Stopped)
  }

  /** A worker running on its own once the reader has finished, with room for everything
      in the output queue. */
  function WorkerLoop(step: Block -> Result<Block>, input: Queue<Block>, output: Queue<Block>)
    : (r: (Queue<Block>, Queue<Block>, Status))
    requires input.finished
    requires output.disposed || |output.items| + |input.items| <= output.capacity
    ensures !r.2.Running?
    decreases |input.items|
  {
    var (input', output', status) := WorkerStep(step, input, output);
    if status.Running? then WorkerLoop(step, input', output') else (input', output', status)
  }

  /** The worker forwards every remaining block, transformed, in queue order, and then stops;
      or raises the first failure. */
  lemma {:induction false} WorkerForwardsInOrder(step: Block -> Result<Block>, input: Queue<Block>, output: Queue<Block>)
    requires input.finished && !input.disposed && !output.disposed
    requires |output.items| + |input.items| <= output.capacity
    ensures var (input', output', status) := WorkerLoop(step, input, output);
      match TransformAll(step, input.items)
      case Ok(out) => status == Stopped && input'.items == [] && output'.items == output.items + out
      case Err(e) => status == Failed(e)
    decreases |input.items|
  {
    if |input.items| == 0 {
      assert TransformAll(step, input.items) == Ok([]);
    } else {
      var (input1, output1, status) := WorkerStep(step, input, output);
      var first := step(input.items[0]);
      if first.Ok? {
        assert status.Running? && input1.items == input.items[1..];
        WorkerForwardsInOrder(step, input1, output1);
        TransformAllUnfold(step, input.items, first.value);
        var tail := TransformAll(step, input1.items);
        if tail.Ok? {
          assert output1.items + tail.value == output.items + ([first.value] + tail.value);
        }
      } else {
        assert TransformAll(step, input.items) == Err(first.error);
      }
    }
  }

  lemma TransformAllUnfold(step: Block -> Result<Block>, items: seq<Block>, b: Block)
    requires |items| > 0 && step(items[0]) == Ok(b)
    ensures TransformAll(step, items) ==
      match TransformAll(step, items[1..])
      case Err(e) => Err(e)
      case Ok(rest) => Ok([b] + rest)
  {
  }

  /** Once the output queue is disposed the worker forwards nothing and stops at its first
      block that transforms. */
  lemma WorkerStopsOnDisposed(step: Block -> Result<Block>, input: Queue<Block>, output: Queue<Block>)
    requires input.finished && output.disposed
    ensures WorkerLoop(step, input, output).1 == output
    ensures WorkerLoop(step, input, output).2 != Running
  {
  }
}
