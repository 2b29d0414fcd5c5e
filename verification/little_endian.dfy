/** Bytes and the little-endian encodings `BitConverter.GetBytes` / `BitConverter.ToInt32`
    / `BitConverter.ToInt64` produce and consume on a little-endian machine. */
module LittleEndian {
  import opened Int32

  type byte = b: int | 0 <= b < 256

  function Pow256(n: nat): (p: nat)
    ensures p > 0
  {
    if n == 0 then 1 else 256 * Pow256(n - 1)
  }

  lemma Pow256Widths()
    ensures Pow256(4) == TWO_32
    ensures Pow256(8) == TWO_32 * TWO_32
  {
    assert Pow256(1) == 256;
    assert Pow256(2) == 65536;
    assert Pow256(3) == 16777216;
    assert Pow256(4) == 4294967296;
    assert Pow256(5) == 1099511627776;
    assert Pow256(6) == 281474976710656;
    assert Pow256(7) == 72057594037927936;
  }

  /** The unsigned number whose little-endian digits (base 256) are s. */
  function Value(s: seq<byte>): nat {
    if |s| == 0 then 0 else s[0] + 256 * Value(s[1..])
  }

  /** The n least significant base-256 digits of v, least significant first. */
  function Encode(v: nat, n: nat): (s: seq<byte>)
    ensures |s| == n
  {
    if n == 0 then [] else [v % 256] + Encode(v / 256, n - 1)
  }

  lemma {:induction false} ValueBound(s: seq<byte>)
    ensures Value(s) < Pow256(|s|)
  {
    if |s| > 0 {
      ValueBound(s[1..]);
    }
  }

  /** Decoding an encoding gives back every value that fits in n bytes. */
  lemma {:induction false} ValueOfEncode(v: nat, n: nat)
    requires v < Pow256(n)
    ensures Value(Encode(v, n)) == v
  {
    if n > 0 {
      ValueOfEncode(v / 256, n - 1);
      assert Encode(v, n)[1..] == Encode(v / 256, n - 1);
    }
  }

  /** Encoding a decoded byte string gives back the same bytes. */
  lemma {:induction false} EncodeOfValue(s: seq<byte>)
    ensures Encode(Value(s), |s|) == s
  {
    if |s| > 0 {
      EncodeOfValue(s[1..]);
      var v := Value(s);
      assert v % 256 == s[0] && v / 256 == Value(s[1..]);
    }
  }

  /** Two's complement bit pattern of a 32-bit value. */
  function Unsigned32(x: int32): (u: nat)
    ensures u < TWO_32 && Congruent(x, u)
  {
    if x < 0 then
      MultipleIsCongruent(x - (x + TWO_32), -1);
      x + TWO_32
    else
      MultipleIsCongruent(x - x, 0);
      x
  }

  function Signed32(u: nat): (x: int32)
    requires u < TWO_32
    ensures Unsigned32(x) == u
  {
    if u < TWO_31 then u else u - TWO_32
  }

  function Unsigned64(x: int64): (u: nat)
    ensures u < TWO_32 * TWO_32
    ensures x >= 0 ==> u == x
  {
    if x < 0 then x + TWO_32 * TWO_32 else x
  }

  function Signed64(u: nat): (x: int64)
    requires u < TWO_32 * TWO_32
    ensures Unsigned64(x) == u
  {
    if u < TWO_31 * TWO_32 then u else u - TWO_32 * TWO_32
  }

  /** `BitConverter.GetBytes(int)`: the two's-complement bit pattern, least significant
      byte first. */
  function Int32Bytes(x: int32): (s: seq<byte>)
    ensures |s| == 4
    ensures Value(s) == Unsigned32(x)
  {
    Pow256Widths();
    ValueOfEncode(Unsigned32(x), 4);
    Encode(Unsigned32(x), 4)
  }

  /** `BitConverter.GetBytes(long)`: the two's-complement bit pattern, least significant
      byte first. */
  function Int64Bytes(x: int64): (s: seq<byte>)
    ensures |s| == 8
    ensures Value(s) == Unsigned64(x)
  {
    Pow256Widths();
    ValueOfEncode(Unsigned64(x), 8);
    Encode(Unsigned64(x), 8)
  }

  /** `BitConverter.ToInt32` on exactly four bytes: the value whose two's-complement bit
      pattern the bytes spell, least significant byte first. */
  function ReadInt32(s: seq<byte>): (x: int32)
    requires |s| == 4
    ensures Unsigned32(x) == Value(s)
  {
    Pow256Widths();
    ValueBound(s);
    Signed32(Value(s))
  }

  /** `BitConverter.ToInt64` on exactly eight bytes: the value whose two's-complement bit
      pattern the bytes spell, least significant byte first. */
  function ReadInt64(s: seq<byte>): (x: int64)
    requires |s| == 8
    ensures Unsigned64(x) == Value(s)
  {
    Pow256Widths();
    ValueBound(s);
    Signed64(Value(s))
  }

  lemma Int32RoundTrip(x: int32)
    ensures ReadInt32(Int32Bytes(x)) == x
  {
    Pow256Widths();
    ValueOfEncode(Unsigned32(x), 4);
  }

  lemma Int64RoundTrip(x: int64)
    ensures ReadInt64(Int64Bytes(x)) == x
  {
    Pow256Widths();
    ValueOfEncode(Unsigned64(x), 8);
  }

  /** Reading four bytes and writing the value back gives the same bytes. */
  lemma Int32BytesOfRead(t: seq<byte>)
    requires |t| == 4
    ensures Int32Bytes(ReadInt32(t)) == t
  {
    EncodeOfValue(t);
  }

  /** Reading eight bytes and writing the value back gives the same bytes. */
  lemma Int64BytesOfRead(t: seq<byte>)
    requires |t| == 8
    ensures Int64Bytes(ReadInt64(t)) == t
  {
    EncodeOfValue(t);
  }

  /** Distinct four-byte strings read as distinct `int` values. */
  lemma {:induction false} ReadInt32Injective(s: seq<byte>, t: seq<byte>)
    requires |s| == 4 && |t| == 4 && s != t
    ensures ReadInt32(s) != ReadInt32(t)
  {
    EncodeOfValue(s);
    EncodeOfValue(t);
  }
}
