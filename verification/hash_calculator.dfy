/** The per-block checksum `HashCalculator.GetDataBlockHashCode(data, length, number)`:
    a Horner fold with base 31 over the first `length` bytes, seeded with 17, followed by
    the length and the block number, all in wrapping 32-bit `int` arithmetic. */
module HashCalculator {
  import opened Int32
  import opened LittleEndian

  /** The value of `hash` after the first k iterations of the loop, as C# computes it:
      wrapping at every step keeps the low 32 bits of the exact fold. */
  function Horner(data: seq<byte>, k: nat): (h: int32)
    requires k <= |data|
    ensures Congruent(h, ExactFold(data, k))
  {
    if k == 0 then
      MultipleIsCongruent(0, 0);
      17
    else
      WrapStepCongruent(Horner(data, k - 1), ExactFold(data, k - 1), data[k - 1]);
      Wrap(Horner(data, k - 1) * 31 + data[k - 1])
  }

  /** The number of loop iterations: none for a negative length. */
  function Iterations(length: int32): nat {
    if length < 0 then 0 else length
  }

  /** `GetDataBlockHashCode(data, length, number)`. The buffer may be longer than `length`;
      indexing past its end would throw, so `length` must not exceed it. */
  function Checksum(data: seq<byte>, length: int32, number: int32): (r: int32)
    requires length <= |data|
    ensures r == Wrap(Polynomial(data, length, number))
  {
    WrappedTailIsWrappedPolynomial(Horner(data, Iterations(length)), ExactFold(data, Iterations(length)), length, number);
    Tail(Horner(data, Iterations(length)), length, number)
  }

  /** The statement after the loop: `((hash * 31 + length) * 31 + number) * 31`, every
      operation wrapping. */
  function Tail(h: int32, length: int32, number: int32): (r: int32)
    ensures Congruent(r, ((h * 31 + length) * 31 + number) * 31)
  {
    var h1 := Wrap(h * 31 + length);
    var h2 := Wrap(h1 * 31 + number);
    MultipleIsCongruent(h - h, 0);
    WrapStepCongruent(h, h, length);
    WrapStepCongruent(h1, h * 31 + length, number);
    WrapStepCongruent(h2, (h * 31 + length) * 31 + number, 0);
    Wrap(h2 * 31 + 0)
  }

  /** The checksum of a block whose payload is exactly its valid bytes. */
  function BlockChecksum(payload: seq<byte>, number: int32): int32
    requires |payload| < TWO_31
  {
    Checksum(payload, |payload|, number)
  }

  // ---------------------------------------------------------------------------
  // Reference definition: the same polynomial over unbounded integers

  /** The Horner fold without wrap-around. */
  function ExactFold(data: seq<byte>, k: nat): int
    requires k <= |data|
  {
    if k == 0 then 17 else ExactFold(data, k - 1) * 31 + data[k - 1]
  }

  /** ((fold * 31 + length) * 31 + number) * 31 over the integers. */
  function Polynomial(data: seq<byte>, length: int32, number: int32): int
    requires length <= |data|
  {
    ((ExactFold(data, Iterations(length)) * 31 + length) * 31 + number) * 31
  }

  lemma {:induction false} WrappedTailIsWrappedPolynomial(h: int32, e: int, length: int32, number: int32)
    requires Congruent(h, e)
    ensures Tail(h, length, number) == Wrap(((e * 31 + length) * 31 + number) * 31)
  {
    var h1: int := Wrap(h * 31 + length);
    var h2: int := Wrap(h1 * 31 + number);
    WrapStepCongruent(h, e, length);
    WrapStepCongruent(h1, e * 31 + length, number);
    WrapStepCongruent(h2, (e * 31 + length) * 31 + number, 0);
    CongruentSym(Wrap(h2 * 31 + 0), ((e * 31 + length) * 31 + number) * 31 + 0);
    WrapUnique(((e * 31 + length) * 31 + number) * 31, Wrap(h2 * 31 + 0));
  }

  // ---------------------------------------------------------------------------
  // Properties

  lemma {:induction false} HornerAgrees(data: seq<byte>, data': seq<byte>, k: nat)
    requires k <= |data| && k <= |data'|
    requires data[..k] == data'[..k]
    ensures Horner(data, k) == Horner(data', k)
  {
    if k > 0 {
      assert data[..k - 1] == data[..k][..k - 1] && data'[..k - 1] == data'[..k][..k - 1];
      assert data[k - 1] == data[..k][k - 1] && data'[k - 1] == data'[..k][k - 1];
      HornerAgrees(data, data', k - 1);
    }
  }

  /** Only the first `length` bytes of the buffer matter; the rest of a rented buffer is ignored. */
  lemma ChecksumIgnoresSlack(data: seq<byte>, data': seq<byte>, length: int32, number: int32)
    requires length <= |data| && length <= |data'|
    requires data[..Iterations(length)] == data'[..Iterations(length)]
    ensures Checksum(data, length, number) == Checksum(data', length, number)
  {
    HornerAgrees(data, data', Iterations(length));
  }

  /** With no bytes the checksum is (16337 + number) * 31 in wrapping arithmetic. */
  lemma ChecksumOfEmpty(data: seq<byte>, number: int32)
    ensures Checksum(data, 0, number) == Wrap((16337 + number) * 31)
  {
    assert ExactFold(data, 0) == 17;
  }

  /** Renumbering a block always changes its checksum: 31 is invertible modulo 2^32. */
  lemma {:induction false} ChecksumSeparatesNumbers(data: seq<byte>, length: int32, n1: int32, n2: int32)
    requires length <= |data|
    requires n1 != n2
    ensures Checksum(data, length, n1) != Checksum(data, length, n2)
  {
    var h1 := Wrap(Horner(data, Iterations(length)) * 31 + length);
    if Checksum(data, length, n1) == Checksum(data, length, n2) {
      WrapStepInjective(Wrap(h1 * 31 + n1), Wrap(h1 * 31 + n2), 0);
      WrapEqualIff(h1 * 31 + n1, h1 * 31 + n2);
      assert (h1 * 31 + n1) - (h1 * 31 + n2) == n1 - n2;
      CongruentInRange(n1, n2);
    }
  }

  /** Once a byte differs, every later Horner value differs: each step is injective. */
  lemma {:induction false} HornerSeparates(data: seq<byte>, data': seq<byte>, i: nat, k: nat)
    requires |data| == |data'| && i < k <= |data|
    requires data[i] != data'[i]
    requires forall j :: 0 <= j < |data| && j != i ==> data[j] == data'[j]
    ensures Horner(data, k) != Horner(data', k)
  {
    if k == i + 1 {
      assert data[..i] == data'[..i];
      HornerAgrees(data, data', i);
      WrapStepSeparates(Horner(data, i), data[i], data'[i]);
    } else {
      HornerSeparates(data, data', i, k - 1);
      assert data[k - 1] == data'[k - 1];
      SeparatesNext(data, data', k);
    }
  }

  /** Once the loop values differ, equal bytes keep them apart. */
  lemma SeparatesNext(data: seq<byte>, data': seq<byte>, k: nat)
    requires 0 < k <= |data| && k <= |data'| && data[k - 1] == data'[k - 1]
    requires Horner(data, k - 1) != Horner(data', k - 1)
    ensures Horner(data, k) != Horner(data', k)
  {
    if Horner(data, k) == Horner(data', k) {
      WrapStepInjective(Horner(data, k - 1), Horner(data', k - 1), data[k - 1]);
    }
  }

  /** The tail is injective in the folded value. */
  lemma {:induction false} TailInjective(h: int32, h': int32, length: int32, number: int32)
    requires Tail(h, length, number) == Tail(h', length, number)
    ensures h == h'
  {
    WrapStepInjective(Wrap(Wrap(h * 31 + length) * 31 + number), Wrap(Wrap(h' * 31 + length) * 31 + number), 0);
    WrapStepInjective(Wrap(h * 31 + length), Wrap(h' * 31 + length), number);
    WrapStepInjective(h, h', length);
  }

  /** Changing any single byte among the first `length` changes the checksum. */
  lemma {:induction false} ChecksumDetectsByteChange(data: seq<byte>, data': seq<byte>, length: int32, number: int32, i: nat)
    requires |data| == |data'| && i < length <= |data|
    requires data[i] != data'[i]
    requires forall j :: 0 <= j < |data| && j != i ==> data[j] == data'[j]
    ensures Checksum(data, length, number) != Checksum(data', length, number)
  {
    HornerSeparates(data, data', i, length);
    if Checksum(data, length, number) == Checksum(data', length, number) {
      TailInjective(Horner(data, length), Horner(data', length), length, number);
    }
  }
}
