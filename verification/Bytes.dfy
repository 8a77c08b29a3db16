/** Unsigned machine integers and their little-endian byte images (x86, packed structures). */
module Bytes {
  type byte = x: int | 0 <= x < 0x100
  type u16 = x: int | 0 <= x < 0x1_0000
  type u32 = x: int | 0 <= x < 0x1_0000_0000

  function Zeros(n: nat): (z: seq<byte>)
    ensures |z| == n && forall i :: 0 <= i < n ==> z[i] == 0
  {
    seq(n, _ => 0)
  }

  function EncodeU16(x: u16): (b: seq<byte>)
    ensures |b| == 2
  {
    [x % 0x100, x / 0x100]
  }

  function DecodeU16(b: seq<byte>): u16
    requires |b| == 2
  {
    b[0] as int + 0x100 * b[1] as int
  }

  function EncodeU32(x: u32): (b: seq<byte>)
    ensures |b| == 4
  {
    [x % 0x100, x / 0x100 % 0x100, x / 0x1_0000 % 0x100, x / 0x100_0000]
  }

  function DecodeU32(b: seq<byte>): u32
    requires |b| == 4
  {
    b[0] as int + 0x100 * b[1] as int + 0x1_0000 * b[2] as int + 0x100_0000 * b[3] as int
  }

  lemma U16RoundTrip(x: u16, b: seq<byte>)
    requires |b| == 2
    ensures DecodeU16(EncodeU16(x)) == x
    ensures EncodeU16(DecodeU16(b)) == b
  {
  }

  lemma U32Split(b0: byte, b1: byte, b2: byte, b3: byte)
    ensures var x := b0 + 0x100 * b1 + 0x1_0000 * b2 + 0x100_0000 * b3;
            x % 0x100 == b0 && x / 0x100 % 0x100 == b1 && x / 0x1_0000 % 0x100 == b2 && x / 0x100_0000 == b3
  {
    var x := b0 + 0x100 * b1 + 0x1_0000 * b2 + 0x100_0000 * b3;
    assert x / 0x100 == b1 + 0x100 * b2 + 0x1_0000 * b3;
    assert x / 0x1_0000 == b2 + 0x100 * b3;
    assert x / 0x100_0000 == b3;
  }

  lemma U32Join(x: u32)
    ensures x == x % 0x100 + 0x100 * (x / 0x100 % 0x100) + 0x1_0000 * (x / 0x1_0000 % 0x100)
                 + 0x100_0000 * (x / 0x100_0000)
  {
    assert x / 0x1_0000 == x / 0x100 / 0x100 && x / 0x100_0000 == x / 0x1_0000 / 0x100;
  }

  lemma U32RoundTrip(x: u32, b: seq<byte>)
    requires |b| == 4
    ensures DecodeU32(EncodeU32(x)) == x
    ensures EncodeU32(DecodeU32(b)) == b
  {
    U32Join(x);
    U32Split(b[0], b[1], b[2], b[3]);
  }

  /** Length of the C string starting at the head of `b`; |b| when it is not terminated within `b`. */
  function StrLen(b: seq<byte>): (n: nat)
    ensures n <= |b| && (n < |b| ==> b[n] == 0)
    ensures forall k :: 0 <= k < n ==> b[k] != 0
  {
    if b == [] || b[0] == 0 then 0 else 1 + StrLen(b[1..])
  }
}
