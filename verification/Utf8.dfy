/** The UTF-8 form of Rust strings: `str::len`, `str::as_bytes` and `str::from_utf8`. */
module Utf8 {
  import opened Wrappers
  import opened Bytes

  /** Table 3-6 of the Unicode Standard: the octets of one scalar value. */
  function EncodeChar(c: char): (b: seq<byte>)
    ensures 1 <= |b| <= 4
  {
    var v := c as int;
    if v < 0x80 then [v]
    else if v < 0x800 then [0xC0 + v / 64, 0x80 + v % 64]
    else if v < 0x10000 then [0xE0 + v / 4096, 0x80 + v / 64 % 64, 0x80 + v % 64]
    else [0xF0 + v / 262144, 0x80 + v / 4096 % 64, 0x80 + v / 64 % 64, 0x80 + v % 64]
  }

  function Encode(s: string): (b: seq<byte>) {
    if s == [] then [] else EncodeChar(s[0]) + Encode(s[1..])
  }

  /** `str::len` counts octets. */
  function Len(s: string): nat {
    |Encode(s)|
  }

  predicate Continuation(b: byte) {
    0x80 <= b < 0xC0
  }

  /** The scalar value carried by a lead payload and three, two or one continuation payloads. */
  function Scalar(x: int, w: int, y: int, z: int): int {
    ((x * 64 + w) * 64 + y) * 64 + z
  }

  /** The first scalar value of a well-formed octet string (Table 3-7). */
  function DecodeChar(b: seq<byte>): (r: Option<(char, nat)>)
    ensures r.Some? ==> 1 <= r.value.1 <= |b|
  {
    if |b| >= 1 && b[0] < 0x80 then
      Some((b[0] as char, 1))
    else if |b| >= 2 && 0xC2 <= b[0] < 0xE0 && Continuation(b[1]) then
      var v := Scalar(0, 0, b[0] - 0xC0, b[1] - 0x80);
      Some((v as char, 2))
    else if |b| >= 3 && 0xE0 <= b[0] < 0xF0 && Continuation(b[1]) && Continuation(b[2]) then
      var v := Scalar(0, b[0] - 0xE0, b[1] - 0x80, b[2] - 0x80);
      if v < 0x800 || 0xD800 <= v < 0xE000 then None else Some((v as char, 3))
    else if |b| >= 4 && 0xF0 <= b[0] < 0xF5 && Continuation(b[1]) && Continuation(b[2]) && Continuation(b[3]) then
      var v := Scalar(b[0] - 0xF0, b[1] - 0x80, b[2] - 0x80, b[3] - 0x80);
      if v < 0x10000 || v >= 0x110000 then None else Some((v as char, 4))
    else
      None
  }

  function Decode(b: seq<byte>): (r: Option<string>) {
    if b == [] then Some([])
    else
      match DecodeChar(b)
      case None => None
      case Some((c, n)) =>
        match Decode(b[n..])
        case None => None
        case Some(rest) => Some([c] + rest)
  }

  lemma DivisionChain(v: nat)
    ensures v / 4096 == v / 64 / 64 && v / 262144 == v / 64 / 64 / 64
    ensures v == Scalar(v / 262144, v / 4096 % 64, v / 64 % 64, v % 64)
  {
  }

  lemma ScalarParts(x: nat, w: nat, y: nat, z: nat)
    requires w < 64 && y < 64 && z < 64
    ensures var v := Scalar(x, w, y, z);
            v >= 0 && v / 262144 == x && v / 4096 % 64 == w && v / 64 % 64 == y && v % 64 == z
  {
    var v := Scalar(x, w, y, z);
    DivisionChain(v);
    assert v / 64 == (x * 64 + w) * 64 + y;
    assert v / 64 / 64 == x * 64 + w;
  }

  lemma DecodeCharOfEncode(c: char, rest: seq<byte>)
    ensures DecodeChar(EncodeChar(c) + rest) == Some((c, |EncodeChar(c)|))
  {
    var v := c as int;
    var e := EncodeChar(c);
    var b := e + rest;
    DivisionChain(v);
    assert forall i :: 0 <= i < |e| ==> b[i] == e[i];
    if v >= 0x80 {
      if v < 0x800 {
        assert Scalar(0, 0, e[0] - 0xC0, e[1] - 0x80) == v;
      } else if v < 0x10000 {
        assert Scalar(0, e[0] - 0xE0, e[1] - 0x80, e[2] - 0x80) == v;
      } else {
        assert Scalar(e[0] - 0xF0, e[1] - 0x80, e[2] - 0x80, e[3] - 0x80) == v;
      }
    }
  }

  lemma EncodeOfTwo(b: seq<byte>)
    requires DecodeChar(b).Some? && DecodeChar(b).value.1 == 2
    ensures EncodeChar(DecodeChar(b).value.0) == b[..2]
  {
    ScalarParts(0, 0, b[0] - 0xC0, b[1] - 0x80);
  }

  lemma EncodeOfThree(b: seq<byte>)
    requires DecodeChar(b).Some? && DecodeChar(b).value.1 == 3
    ensures EncodeChar(DecodeChar(b).value.0) == b[..3]
  {
    ScalarParts(0, b[0] - 0xE0, b[1] - 0x80, b[2] - 0x80);
  }

  lemma EncodeOfFour(b: seq<byte>)
    requires DecodeChar(b).Some? && DecodeChar(b).value.1 == 4
    ensures EncodeChar(DecodeChar(b).value.0) == b[..4]
  {
    ScalarParts(b[0] - 0xF0, b[1] - 0x80, b[2] - 0x80, b[3] - 0x80);
  }

  lemma EncodeOfDecodeChar(b: seq<byte>)
    requires DecodeChar(b).Some?
    ensures EncodeChar(DecodeChar(b).value.0) == b[..DecodeChar(b).value.1]
  {
    var n := DecodeChar(b).value.1;
    if n == 2 {
      EncodeOfTwo(b);
    } else if n == 3 {
      EncodeOfThree(b);
    } else if n == 4 {
      EncodeOfFour(b);
    }
  }

  lemma {:induction false} DecodeOfEncode(s: string)
    ensures Decode(Encode(s)) == Some(s)
  {
    if s != [] {
      var e := EncodeChar(s[0]);
      DecodeCharOfEncode(s[0], Encode(s[1..]));
      assert Encode(s)[|e|..] == Encode(s[1..]);
      DecodeOfEncode(s[1..]);
      assert s == [s[0]] + s[1..];
    }
  }

  /** The first character of a well-formed octet string, and the octets after it. */
  lemma FirstChar(b: seq<byte>) returns (c: char, rest: seq<byte>)
    requires b != [] && Decode(b).Some?
    ensures |rest| < |b| && Decode(rest).Some? && Decode(b).value == [c] + Decode(rest).value
    ensures b == EncodeChar(c) + rest
  {
    var n := DecodeChar(b).value.1;
    c, rest := DecodeChar(b).value.0, b[n..];
    EncodeOfDecodeChar(b);
    assert b == b[..n] + b[n..];
  }

  lemma EncodeCons(c: char, s: string)
    ensures Encode([c] + s) == EncodeChar(c) + Encode(s)
  {
    assert ([c] + s)[1..] == s;
  }

  lemma {:induction false} EncodeOfDecode(b: seq<byte>)
    requires Decode(b).Some?
    ensures Encode(Decode(b).value) == b
    decreases |b|
  {
    if b != [] {
      var c, rest := FirstChar(b);
      EncodeOfDecode(rest);
      EncodeCons(c, Decode(rest).value);
    }
  }

  /** One octet for each ASCII character. */
  lemma {:induction false} AsciiLength(s: string)
    requires forall i :: 0 <= i < |s| ==> s[i] < 128 as char
    ensures Len(s) == |s|
  {
    if s != [] {
      AsciiLength(s[1..]);
    }
  }

  /** `char::is_control`: the general category Cc. */
  predicate IsControl(c: char) {
    c as int < 0x20 || 0x7F <= c as int < 0xA0
  }

  predicate HasControl(s: string) {
    exists i :: 0 <= i < |s| && IsControl(s[i])
  }

  /** What is left without control characters. */
  lemma ControlFreeIff(s: string)
    ensures !HasControl(s) <==> forall i :: 0 <= i < |s| ==> 32 <= s[i] as int <= 126 || s[i] as int >= 160
  {
  }

  /** `char::is_whitespace`: the property White_Space. */
  predicate IsWhitespace(c: char) {
    var v := c as int;
    || 0x09 <= v <= 0x0D || v == 0x20 || v == 0x85 || v == 0xA0 || v == 0x1680
    || 0x2000 <= v <= 0x200A || v == 0x2028 || v == 0x2029 || v == 0x202F || v == 0x205F || v == 0x3000
  }
}
