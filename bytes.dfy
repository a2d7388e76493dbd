/** Bytes, fixed-width unsigned integers and their big-endian encodings,
    as the BMS serial protocol uses them. */
module Bytes {

  type byte = b: int | 0 <= b < 0x100
  type u16 = x: int | 0 <= x < 0x1_0000
  type u32 = x: int | 0 <= x < 0x1_0000_0000

  datatype Option<+T> = None | Some(value: T)

  /** Sum of a sequence of integers. */
  function Sum(s: seq<int>): int
  {
    if s == [] then 0 else s[0] + Sum(s[1..])
  }

  lemma {:induction false} SumAppend(a: seq<int>, b: seq<int>)
    ensures Sum(a + b) == Sum(a) + Sum(b)
  {
    if a == [] {
      assert a + b == b;
    } else {
      assert (a + b)[1..] == a[1..] + b;
      SumAppend(a[1..], b);
    }
  }

  /** Adding one more element at the end adds its value: the sum of a prefix is
      what a front-to-back accumulating loop holds. */
  lemma SumPrefixStep(s: seq<int>, i: nat)
    requires i < |s|
    ensures Sum(s[..i + 1]) == Sum(s[..i]) + s[i]
  {
    assert s[..i + 1] == s[..i] + [s[i]];
    SumAppend(s[..i], [s[i]]);
  }

  /** A sum of bytes never exceeds 255 per byte, and is never negative. */
  lemma {:induction false} SumBytesBounds(s: seq<byte>)
    ensures 0 <= Sum(s) <= 0xFF * |s|
  {
    if s != [] {
      SumBytesBounds(s[1..]);
    }
  }

  /** Two bytes read as a big-endian 16-bit value. */
  function Be16(hi: byte, lo: byte): u16
  {
    hi as int * 0x100 + lo
  }

  /** The big-endian encoding of a 16-bit value. */
  function Be16Bytes(v: u16): (r: seq<byte>)
    ensures |r| == 2 && Be16(r[0], r[1]) == v
  {
    [v / 0x100, v % 0x100]
  }

  /** Encoding the value two bytes denote gives back those bytes. */
  lemma Be16RoundTrip(hi: byte, lo: byte)
    ensures Be16Bytes(Be16(hi, lo)) == [hi, lo]
  {
    DivModByte(hi, lo);
  }

  /** Four bytes read as a big-endian 32-bit value. */
  function Be32(s: seq<byte>): (r: u32)
    requires |s| == 4
    ensures r / 0x100_0000 == s[0] && r % 0x100 == s[3]
  {
    ((s[0] as int * 0x100 + s[1]) * 0x100 + s[2]) * 0x100 + s[3]
  }

  /** Splitting a number into its low byte and the rest is unique. */
  lemma DivModByte(q: int, r: byte)
    ensures (q * 0x100 + r) / 0x100 == q && (q * 0x100 + r) % 0x100 == r
  {
  }

  /** The big-endian encoding of a 32-bit value. */
  function Be32Bytes(v: u32): (r: seq<byte>)
    ensures |r| == 4 && Be32(r) == v
  {
    [v / 0x100 / 0x100 / 0x100, v / 0x100 / 0x100 % 0x100, v / 0x100 % 0x100, v % 0x100]
  }

  /** Decoding and encoding are inverse: every 4-byte field is the encoding of its value. */
  lemma Be32RoundTrip(s: seq<byte>)
    requires |s| == 4
    ensures Be32Bytes(Be32(s)) == s
  {
    var a := s[0] as int * 0x100 + s[1];
    var b := a * 0x100 + s[2];
    DivModByte(b, s[3]);
    DivModByte(a, s[2]);
    DivModByte(s[0], s[1]);
  }

  /** A 16-bit value read as a two's-complement signed integer. */
  function Signed16(v: u16): (r: int)
    ensures -0x8000 <= r < 0x8000
    ensures r % 0x1_0000 == v
    ensures r < 0 <==> v >= 0x8000
  {
    if v < 0x8000 then v else v - 0x1_0000
  }
}
