/** Fixed-width integers of the C++ <cstdint> types used by the BMP headers,
    and their little-endian byte serialisation (least significant byte first). */
module LittleEndian {

  type Byte = b: int | 0 <= b < 0x100
  type UInt16 = x: int | 0 <= x < 0x1_0000
  type UInt32 = x: int | 0 <= x < 0x1_0000_0000
  type Int32 = x: int | -0x8000_0000 <= x < 0x8000_0000

  const INT32_MAX: int := 0x7FFF_FFFF

  /** The value of a little-endian byte string, whatever its length. */
  function Value(s: seq<Byte>): nat
  {
    if s == [] then 0 else s[0] as int + 0x100 * Value(s[1..])
  }

  lemma ValueOfTwo(s: seq<Byte>)
    requires |s| == 2
    ensures Value(s) == s[0] as int + 0x100 * s[1] as int
  {
    assert s[1..][1..] == [];
    assert Value(s[1..]) == s[1] as int + 0x100 * Value(s[1..][1..]);
  }

  lemma ValueOfFour(s: seq<Byte>)
    requires |s| == 4
    ensures Value(s) == s[0] as int + 0x100 * s[1] as int + 0x1_0000 * s[2] as int + 0x100_0000 * s[3] as int
  {
    ValueOfTwo(s[2..]);
    assert s[1..][1..] == s[2..];
  }

  lemma ValueOfTwoThenRest(low: seq<Byte>, high: seq<Byte>)
    requires |low| == 2
    ensures Value(low + high) == Value(low) + 0x1_0000 * Value(high)
  {
    var s := low + high;
    assert s[1..][1..] == high;
    ValueOfTwo(low);
  }

  function EncodeU16(v: UInt16): (r: seq<Byte>)
    ensures |r| == 2 && Value(r) == v
  {
    var r := [v % 0x100, v / 0x100];
    ValueOfTwo(r);
    r
  }

  function DecodeU16(s: seq<Byte>): (v: UInt16)
    requires |s| == 2
    ensures v == Value(s)
  {
    ValueOfTwo(s);
    s[0] as int + 0x100 * s[1] as int
  }

  function EncodeU32(v: UInt32): (r: seq<Byte>)
    ensures |r| == 4 && Value(r) == v
  {
    var low, high := EncodeU16(v % 0x1_0000), EncodeU16(v / 0x1_0000);
    ValueOfTwoThenRest(low, high);
    low + high
  }

  function DecodeU32(s: seq<Byte>): (v: UInt32)
    requires |s| == 4
    ensures v == Value(s)
  {
    ValueOfFour(s);
    s[0] as int + 0x100 * s[1] as int + 0x1_0000 * s[2] as int + 0x100_0000 * s[3] as int
  }

  /** Two's complement reinterpretation of an int32_t as the uint32_t with the same bits. */
  function ToBits32(v: Int32): UInt32
  {
    if v < 0 then v + 0x1_0000_0000 else v
  }

  /** The stored bits agree with the value modulo 2^32, and the top bit is the sign. */
  lemma TwosComplementBits(v: Int32)
    ensures ToBits32(v) % 0x1_0000_0000 == v % 0x1_0000_0000
    ensures ToBits32(v) >= 0x8000_0000 <==> v < 0
  {
  }

  function FromBits32(u: UInt32): (v: Int32)
    ensures ToBits32(v) == u
  {
    if u < 0x8000_0000 then u else u - 0x1_0000_0000
  }

  function EncodeI32(v: Int32): (r: seq<Byte>)
    ensures |r| == 4 && Value(r) == ToBits32(v)
  {
    EncodeU32(ToBits32(v))
  }

  function DecodeI32(s: seq<Byte>): (v: Int32)
    requires |s| == 4
    ensures ToBits32(v) == Value(s)
  {
    FromBits32(DecodeU32(s))
  }

  /** Little-endian value of a byte string determines the string: two strings
      of the same length with the same value are equal. */
  lemma {:induction false} ValueInjective(s: seq<Byte>, t: seq<Byte>)
    requires |s| == |t| && Value(s) == Value(t)
    ensures s == t
  {
    if s != [] {
      assert s[0] == Value(s) % 0x100 && t[0] == Value(t) % 0x100;
      ValueInjective(s[1..], t[1..]);
      assert s == [s[0]] + s[1..] && t == [t[0]] + t[1..];
    }
  }

  lemma DecodeEncodeU16(v: UInt16)
    ensures DecodeU16(EncodeU16(v)) == v
  {
  }

  lemma EncodeDecodeU16(s: seq<Byte>)
    requires |s| == 2
    ensures EncodeU16(DecodeU16(s)) == s
  {
    ValueInjective(EncodeU16(DecodeU16(s)), s);
  }

  lemma DecodeEncodeU32(v: UInt32)
    ensures DecodeU32(EncodeU32(v)) == v
  {
  }

  lemma EncodeDecodeU32(s: seq<Byte>)
    requires |s| == 4
    ensures EncodeU32(DecodeU32(s)) == s
  {
    ValueInjective(EncodeU32(DecodeU32(s)), s);
  }

  lemma DecodeEncodeI32(v: Int32)
    ensures DecodeI32(EncodeI32(v)) == v
  {
    DecodeEncodeU32(ToBits32(v));
  }

  lemma EncodeDecodeI32(s: seq<Byte>)
    requires |s| == 4
    ensures EncodeI32(DecodeI32(s)) == s
  {
    EncodeDecodeU32(s);
  }
}
