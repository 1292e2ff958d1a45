/** Octets, machine-integer bounds and fixed-width big-endian integers. */
module Bytes {

  type byte = x: int | 0 <= x < 256

  /** Identifiers and digests of fixed width. */
  type Id16 = b: seq<byte> | |b| == 16 witness seq(16, _ => 0)
  type Digest32 = b: seq<byte> | |b| == 32 witness seq(32, _ => 0)

  const U8_MAX: nat := 0xFF
  const U32_MAX: nat := 0xFFFF_FFFF
  const U64_MAX: nat := 0xFFFF_FFFF_FFFF_FFFF
  const I64_MAX: nat := 0x7FFF_FFFF_FFFF_FFFF

  type u8 = x: nat | x <= 0xFF
  type u32 = x: nat | x <= 0xFFFF_FFFF
  type u64 = x: nat | x <= 0xFFFF_FFFF_FFFF_FFFF

  function Min(a: nat, b: nat): nat {
    if a < b then a else b
  }

  function Max(a: nat, b: nat): nat {
    if a < b then b else a
  }

  /** `to_be_bytes` at a given width. */
  function BigEndian(value: nat, width: nat): (b: seq<byte>)
    ensures |b| == width
  {
    if width == 0 then [] else BigEndian(value / 256, width - 1) + [value % 256]
  }

  /** `from_be_bytes` at the width of the input. */
  function FromBigEndian(b: seq<byte>): nat {
    if b == [] then 0 else FromBigEndian(b[..|b| - 1]) * 256 + b[|b| - 1]
  }

  function Pow256(width: nat): (p: nat)
    ensures p > 0
  {
    if width == 0 then 1 else 256 * Pow256(width - 1)
  }

  lemma MachineWidths()
    ensures Pow256(2) == 0x1_0000
    ensures Pow256(4) == U32_MAX + 1
    ensures Pow256(8) == U64_MAX + 1
  {
    assert Pow256(2) == 256 * (256 * Pow256(0));
    assert Pow256(4) == 256 * (256 * Pow256(2));
    assert Pow256(6) == 256 * (256 * Pow256(4));
    assert Pow256(8) == 256 * (256 * Pow256(6));
  }

  lemma {:induction false} DecodeOfEncode(value: nat, width: nat)
    requires value < Pow256(width)
    ensures FromBigEndian(BigEndian(value, width)) == value
  {
    if width > 0 {
      DecodeOfEncode(value / 256, width - 1);
      var b := BigEndian(value, width);
      assert b[..|b| - 1] == BigEndian(value / 256, width - 1);
    }
  }

  lemma {:induction false} EncodeOfDecode(b: seq<byte>)
    ensures FromBigEndian(b) < Pow256(|b|)
    ensures BigEndian(FromBigEndian(b), |b|) == b
  {
    if b != [] {
      EncodeOfDecode(b[..|b| - 1]);
      assert b == b[..|b| - 1] + [b[|b| - 1]];
      assert (FromBigEndian(b[..|b| - 1]) * 256 + b[|b| - 1]) / 256 == FromBigEndian(b[..|b| - 1]);
    }
  }

  function U32Bytes(value: u32): (b: seq<byte>)
    ensures |b| == 4
  {
    BigEndian(value, 4)
  }

  function U64Bytes(value: u64): (b: seq<byte>)
    ensures |b| == 8
  {
    BigEndian(value, 8)
  }

  /** The first octet is the most significant one. */
  lemma {:induction false} FirstOctetLeads(b: seq<byte>)
    requires b != []
    ensures FromBigEndian(b) == b[0] * Pow256(|b| - 1) + FromBigEndian(b[1..])
  {
    if |b| > 1 {
      var front := b[..|b| - 1];
      FirstOctetLeads(front);
      assert front[1..] == b[1..][..|b| - 2];
      ShiftOctet(b[0], Pow256(|b| - 2), FromBigEndian(front[1..]), b[|b| - 1]);
    }
  }

  lemma ShiftOctet(first: nat, p: nat, middle: nat, last: nat)
    ensures (first * p + middle) * 256 + last == first * (256 * p) + (middle * 256 + last)
  {
  }

  lemma U32RoundTrip(value: u32)
    ensures FromBigEndian(U32Bytes(value)) == value
  {
    MachineWidths();
    DecodeOfEncode(value, 4);
  }

  lemma U64RoundTrip(value: u64)
    ensures FromBigEndian(U64Bytes(value)) == value
  {
    MachineWidths();
    DecodeOfEncode(value, 8);
  }

  lemma U32Range(b: seq<byte>)
    requires |b| == 4
    ensures FromBigEndian(b) <= U32_MAX && U32Bytes(FromBigEndian(b)) == b
  {
    MachineWidths();
    EncodeOfDecode(b);
  }

  lemma U64Range(b: seq<byte>)
    requires |b| == 8
    ensures FromBigEndian(b) <= U64_MAX && U64Bytes(FromBigEndian(b)) == b
  {
    MachineWidths();
    EncodeOfDecode(b);
  }

  /** Splitting equal concatenations whose heads have the same length. */
  lemma SplitEqual<T>(a: seq<T>, x: seq<T>, b: seq<T>, y: seq<T>)
    requires |a| == |b| && a + x == b + y
    ensures a == b && x == y
  {
    assert a == (a + x)[..|a|];
    assert b == (b + y)[..|b|];
    assert x == (a + x)[|a|..];
    assert y == (b + y)[|b|..];
  }
}
