/** Fixed-width integers as C# sees them: `int` and `long` are two's-complement
    values, and unchecked arithmetic keeps the low 32 bits of the exact result. */
module Int32 {

  const TWO_31: int := 0x8000_0000
  const TWO_32: int := 0x1_0000_0000
  const TWO_63: int := 0x8000_0000_0000_0000

  /** The multiplicative inverse of 31 modulo 2^32: 31 * INV_31 == 1 + 23 * 2^32. */
  const INV_31: int := 3186588639

  type int32 = x: int | -0x8000_0000 <= x < 0x8000_0000
  type int64 = x: int | -0x8000_0000_0000_0000 <= x < 0x8000_0000_0000_0000

  /** x and y agree in their low 32 bits. */
  predicate Congruent(x: int, y: int) {
    (x - y) % TWO_32 == 0
  }

  /** The `int` value unchecked C# arithmetic leaves behind when the exact result is x. */
  function Wrap(x: int): (r: int32)
    ensures Congruent(x, r)
  {
    var r := (x + TWO_31) % TWO_32 - TWO_31;
    assert x - r == TWO_32 * ((x + TWO_31) / TWO_32);
    MultipleIsCongruent(x - r, (x + TWO_31) / TWO_32);
    r
  }

  lemma MultipleIsCongruent(d: int, k: int)
    requires d == TWO_32 * k
    ensures d % TWO_32 == 0
  {
  }

  lemma CongruentWitness(x: int, y: int) returns (k: int)
    requires Congruent(x, y)
    ensures x - y == TWO_32 * k
  {
    k := (x - y) / TWO_32;
  }

  lemma CongruentTrans(x: int, y: int, z: int)
    requires Congruent(x, y) && Congruent(y, z)
    ensures Congruent(x, z)
  {
    var k1 := CongruentWitness(x, y);
    var k2 := CongruentWitness(y, z);
    MultipleIsCongruent(x - z, k1 + k2);
  }

  lemma CongruentSym(x: int, y: int)
    requires Congruent(x, y)
    ensures Congruent(y, x)
  {
    var k := CongruentWitness(x, y);
    MultipleIsCongruent(y - x, -k);
  }

  /** Two 32-bit values with the same low 32 bits are equal. */
  lemma CongruentInRange(a: int32, b: int32)
    requires Congruent(a, b)
    ensures a == b
  {
    var k := CongruentWitness(a, b);
  }

  /** Wrap is the only 32-bit value congruent to its argument. */
  lemma {:induction false} WrapUnique(x: int, r: int32)
    requires Congruent(x, r)
    ensures Wrap(x) == r
  {
    CongruentSym(x, Wrap(x));
    CongruentTrans(Wrap(x), x, r);
    CongruentInRange(Wrap(x), r);
  }

  /** Wrapping is the identity on values that already fit. */
  lemma WrapIdentity(x: int32)
    ensures Wrap(x) == x
  {
    MultipleIsCongruent(x - x, 0);
    WrapUnique(x, x);
  }

  /** Wrap respects the low-32-bit equivalence in both directions. */
  lemma {:induction false} WrapEqualIff(x: int, y: int)
    ensures Wrap(x) == Wrap(y) <==> Congruent(x, y)
  {
    if Wrap(x) == Wrap(y) {
      CongruentSym(y, Wrap(y));
      CongruentTrans(x, Wrap(x), y);
    } else if Congruent(x, y) {
      CongruentTrans(y, x, Wrap(x));
      CongruentSym(x, y);
      CongruentTrans(y, x, Wrap(x));
      WrapUnique(y, Wrap(x));
      assert false;
    }
  }

  /** One Horner step x*k + c preserves congruence. */
  lemma {:induction false} CongruentMulAdd(a: int, b: int, k: int, c: int)
    requires Congruent(a, b)
    ensures Congruent(a * k + c, b * k + c)
  {
    var q := CongruentWitness(a, b);
    calc {
      (a * k + c) - (b * k + c);
      (a - b) * k;
      TWO_32 * q * k;
    }
    MultipleIsCongruent((a * k + c) - (b * k + c), q * k);
  }

  /** One wrapping Horner step keeps the low 32 bits of the exact step. */
  lemma WrapStepCongruent(h: int, e: int, c: int)
    requires Congruent(h, e)
    ensures Congruent(Wrap(h * 31 + c), e * 31 + c)
  {
    CongruentMulAdd(h, e, 31, c);
    WrapCongruentTo(h * 31 + c, e * 31 + c);
  }

  /** Wrapping keeps a value's low 32 bits. */
  lemma WrapCongruentTo(x: int, y: int)
    requires Congruent(x, y)
    ensures Congruent(Wrap(x), y)
  {
    CongruentSym(Wrap(x), x);
    CongruentTrans(Wrap(x), x, y);
  }

  /** 31 is odd, hence invertible modulo 2^32: multiplying by it loses no low bits. */
  lemma {:induction false} CancelThirtyOne(d: int)
    requires (31 * d) % TWO_32 == 0
    ensures d % TWO_32 == 0
  {
    var k := (31 * d) / TWO_32;
    assert 31 * d == TWO_32 * k;
    assert 31 * INV_31 == 1 + 23 * TWO_32;
    calc {
      d;
      d * (31 * INV_31) - d * 23 * TWO_32;
      (31 * d) * INV_31 - d * 23 * TWO_32;
      TWO_32 * k * INV_31 - d * 23 * TWO_32;
      TWO_32 * (k * INV_31 - d * 23);
    }
    MultipleIsCongruent(d, k * INV_31 - d * 23);
  }

  /** The Horner step h |-> h*31 + c, wrapped to 32 bits, is injective on 32-bit values. */
  lemma {:induction false} WrapStepInjective(a: int32, b: int32, c: int)
    requires Wrap(a * 31 + c) == Wrap(b * 31 + c)
    ensures a == b
  {
    WrapEqualIff(a * 31 + c, b * 31 + c);
    assert (a * 31 + c) - (b * 31 + c) == 31 * (a - b);
    CancelThirtyOne(a - b);
    CongruentInRange(a, b);
  }

  /** Different addends that differ by less than 2^32 give different step results. */
  lemma {:induction false} WrapStepSeparates(h: int, c: int, c': int)
    requires c != c' && -TWO_32 < c - c' < TWO_32
    ensures Wrap(h * 31 + c) != Wrap(h * 31 + c')
  {
    WrapEqualIff(h * 31 + c, h * 31 + c');
    if Congruent(h * 31 + c, h * 31 + c') {
      var k := CongruentWitness(h * 31 + c, h * 31 + c');
    }
  }
}
