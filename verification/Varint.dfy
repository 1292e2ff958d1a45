/** Base 128 varints of at most 64 bits, as read and written by the reserve code. */
module Varint {
  import opened Wrappers
  import opened Bytes

  datatype EnvelopeError = InvalidField

  const MAX_VARINT_LEN: nat := 10

  /** The canonical encoding: seven bits per octet, least significant first. */
  function Encode(value: nat): (b: seq<byte>)
    ensures |b| >= 1
  {
    if value < 128 then [value] else [value % 128 + 128] + Encode(value / 128)
  }

  /** Value and length of the varint at the head of `b`, given that `k` octets of it came before. */
  function Decode(b: seq<byte>, k: nat): (r: Option<(nat, nat)>)
    ensures r.Some? ==> 1 <= r.value.1 <= |b|
  {
    if k >= MAX_VARINT_LEN || b == [] || (k == MAX_VARINT_LEN - 1 && b[0] > 1) then None
    else if b[0] < 128 then Some((b[0], 1))
    else
      match Decode(b[1..], k + 1)
      case None => None
      case Some((high, n)) => Some((b[0] - 128 + 128 * high, n + 1))
  }

  /** The values that still fit 64 bits after `k` octets. */
  function Capacity(k: nat): nat
    requires k < MAX_VARINT_LEN
    decreases MAX_VARINT_LEN - k
  {
    if k == MAX_VARINT_LEN - 1 then 2 else 128 * Capacity(k + 1)
  }

  lemma FullCapacity()
    ensures Capacity(0) == U64_MAX + 1
  {
    assert Capacity(8) == 128 * Capacity(9);
    assert Capacity(6) == 128 * Capacity(7) && Capacity(7) == 128 * Capacity(8);
    assert Capacity(4) == 128 * Capacity(5) && Capacity(5) == 128 * Capacity(6);
    assert Capacity(2) == 128 * Capacity(3) && Capacity(3) == 128 * Capacity(4);
    assert Capacity(0) == 128 * Capacity(1) && Capacity(1) == 128 * Capacity(2);
  }

  lemma {:induction false} DecodeOfEncodeFrom(value: nat, k: nat, suffix: seq<byte>)
    requires k < MAX_VARINT_LEN && value < Capacity(k)
    ensures Decode(Encode(value) + suffix, k) == Some((value, |Encode(value)|))
  {
    var b := Encode(value) + suffix;
    if value < 128 {
      assert b[0] == value;
    } else {
      assert k < MAX_VARINT_LEN - 1;
      assert value / 128 < Capacity(k + 1);
      DecodeOfEncodeFrom(value / 128, k + 1, suffix);
      GroupFirst(value, suffix);
    }
  }

  lemma GroupFirst(value: nat, suffix: seq<byte>)
    requires value >= 128
    ensures var b := Encode(value) + suffix;
            b[0] == value % 128 + 128 && b[1..] == Encode(value / 128) + suffix
  {
    OctetFirst(value % 128 + 128, Encode(value / 128), suffix);
  }

  lemma OctetFirst(octet: byte, rest: seq<byte>, suffix: seq<byte>)
    ensures var b := [octet] + rest + suffix;
            b[0] == octet && b[1..] == rest + suffix
  {
  }

  /** Reading what was written returns every 64-bit value and stops exactly after it. */
  lemma DecodeOfEncode(value: u64, suffix: seq<byte>)
    ensures Decode(Encode(value) + suffix, 0) == Some((value, |Encode(value)|))
  {
    FullCapacity();
    DecodeOfEncodeFrom(value, 0, suffix);
  }

  /** A successful read takes one to ten octets and never exceeds 64 bits. */
  lemma {:induction false} DecodeBounds(b: seq<byte>, k: nat)
    requires k < MAX_VARINT_LEN && Decode(b, k).Some?
    ensures Decode(b, k).value.0 < Capacity(k)
    ensures 1 <= Decode(b, k).value.1 <= MAX_VARINT_LEN - k
  {
    if b[0] >= 128 {
      DecodeBounds(b[1..], k + 1);
      var high := Decode(b[1..], k + 1).value.0;
      assert 128 * high + 127 < 128 * Capacity(k + 1);
    } else if k < MAX_VARINT_LEN - 1 {
      CapacityAtLeast128(k);
    }
  }

  lemma {:induction false} CapacityAtLeast128(k: nat)
    requires k < MAX_VARINT_LEN - 1
    ensures Capacity(k) >= 128
    decreases MAX_VARINT_LEN - k
  {
    if k < MAX_VARINT_LEN - 2 {
      CapacityAtLeast128(k + 1);
    }
  }

  /** `value << (7 * k)`. */
  function Shift(value: nat, k: nat): nat {
    if k == 0 then value else 128 * Shift(value, k - 1)
  }

  lemma {:induction false} ShiftSum(a: nat, b: nat, k: nat)
    ensures Shift(a + b, k) == Shift(a, k) + Shift(b, k)
  {
    if k > 0 {
      ShiftSum(a, b, k - 1);
    }
  }

  lemma {:induction false} ShiftGroup(value: nat, k: nat)
    ensures Shift(128 * value, k) == Shift(value, k + 1)
  {
    if k > 0 {
      ShiftGroup(value, k - 1);
    }
  }

  /** A group shifted into place lies above the bits read before and below the next group. */
  lemma GroupFits(value: nat, k: nat, group: nat)
    requires value < Shift(1, k) && group < 128
    ensures value + Shift(group, k) < Shift(1, k + 1)
  {
    ShiftSum(group, 1, k);
    ShiftSum(group + 1, 127 - group, k);
    ShiftGroup(1, k);
  }

  /** `a | b`, bit by bit. */
  function Or(a: nat, b: nat): nat
    decreases a + b
  {
    if a == 0 && b == 0 then 0
    else 2 * Or(a / 2, b / 2) + (if a % 2 == 1 || b % 2 == 1 then 1 else 0)
  }

  /** `value << s` */
  function Doubled(value: nat, s: nat): nat {
    if s == 0 then value else 2 * Doubled(value, s - 1)
  }

  lemma {:induction false} OrOfNothing(b: nat)
    ensures Or(0, b) == b
  {
    if b > 0 {
      OrOfNothing(b / 2);
    }
  }

  /** The or of a number below bit `s` and one at or above it is their sum. */
  lemma {:induction false} OrOfDisjoint(a: nat, b: nat, s: nat)
    requires a < Doubled(1, s)
    ensures Or(a, Doubled(b, s)) == a + Doubled(b, s)
    decreases s
  {
    if s == 0 {
      OrOfNothing(b);
    } else {
      assert a / 2 < Doubled(1, s - 1);
      OrOfDisjoint(a / 2, b, s - 1);
    }
  }

  lemma {:induction false} ShiftIsDoubled(value: nat, k: nat)
    ensures Shift(value, k) == Doubled(value, 7 * k)
  {
    if k > 0 {
      ShiftIsDoubled(value, k - 1);
      var s := 7 * (k - 1);
      assert Doubled(value, s + 2) == 4 * Doubled(value, s);
      assert Doubled(value, s + 4) == 4 * Doubled(value, s + 2);
      assert Doubled(value, s + 6) == 4 * Doubled(value, s + 4);
      assert Doubled(value, s + 7) == 2 * Doubled(value, s + 6);
    }
  }

  /** Putting a group above the bits read so far, by the or of the source, adds it. */
  lemma OrIsAddition(value: nat, group: nat, k: nat)
    requires value < Shift(1, k)
    ensures Or(value, Shift(group, k)) == value + Shift(group, k)
  {
    ShiftIsDoubled(1, k);
    ShiftIsDoubled(group, k);
    OrOfDisjoint(value, group, 7 * k);
  }

  /** The bits below `7 * k` already read, then the decoding of what follows. */
  function Combine(value: nat, k: nat, rest: Option<(nat, nat)>): Option<(nat, nat)> {
    match rest
    case None => None
    case Some((high, n)) => Some((value + Shift(high, k), n + k))
  }

  lemma CombineStep(value: nat, b: seq<byte>, k: nat)
    requires k < MAX_VARINT_LEN - 1 && b != [] && b[0] >= 128
    ensures Combine(value, k, Decode(b, k)) == Combine(value + Shift(b[0] - 128, k), k + 1, Decode(b[1..], k + 1))
  {
    if Decode(b[1..], k + 1).Some? {
      var high := Decode(b[1..], k + 1).value.0;
      ShiftSum(b[0] - 128, 128 * high, k);
      ShiftGroup(high, k);
    }
  }

  lemma LastGroup(value: nat, b: seq<byte>, k: nat)
    requires k < MAX_VARINT_LEN && b != [] && b[0] < 128
    requires k == MAX_VARINT_LEN - 1 ==> b[0] <= 1
    ensures Combine(value, k, Decode(b, k)) == Some((value + Shift(b[0], k), k + 1))
  {
  }

  lemma PlaceGroup(value: nat, group: nat, k: nat)
    requires value < Shift(1, k) && group < 128
    ensures Or(value, Shift(group, k)) == value + Shift(group, k) < Shift(1, k + 1)
  {
    GroupFits(value, k, group);
    OrIsAddition(value, group, k);
  }

  /** One turn of the reader: the next group placed, and what decoding the rest makes of it. */
  lemma TakeGroup(value: nat, b: seq<byte>, k: nat)
    requires k < MAX_VARINT_LEN && value < Shift(1, k) && b != [] && (k == MAX_VARINT_LEN - 1 ==> b[0] <= 1)
    ensures var next := Or(value, Shift(b[0] % 128, k));
            && next < Shift(1, k + 1)
            && (b[0] < 128 ==> Combine(value, k, Decode(b, k)) == Some((next, k + 1)))
            && (b[0] >= 128 ==> Combine(value, k, Decode(b, k)) == Combine(next, k + 1, Decode(b[1..], k + 1)))
  {
    var group := b[0] % 128;
    PlaceGroup(value, group, k);
    if b[0] < 128 {
      assert b[0] == group;
      LastGroup(value, b, k);
    } else {
      assert b[0] - 128 == group;
      CombineStep(value, b, k);
    }
  }

  lemma DecodeIsU64(b: seq<byte>)
    requires Decode(b, 0).Some?
    ensures Decode(b, 0).value.0 <= U64_MAX
  {
    FullCapacity();
    DecodeBounds(b, 0);
  }

  /** The reader: shifts each group into place and combines it with the bits before it by a bitwise or. */
  method Read(encoded: seq<byte>, offset: nat) returns (r: Result<u64, EnvelopeError>, after: nat)
    requires offset <= |encoded|
    ensures r.Ok? ==> Decode(encoded[offset..], 0) == Some((r.value, after - offset)) && offset < after <= |encoded|
    ensures r.Err? ==> Decode(encoded[offset..], 0).None?
  {
    var value: nat := 0;
    after := offset;
    var i := 0;
    ghost var whole := Decode(encoded[offset..], 0);
    while i < MAX_VARINT_LEN
      invariant 0 <= i <= MAX_VARINT_LEN && after == offset + i <= |encoded|
      invariant value < Shift(1, i)
      invariant whole == Combine(value, i, Decode(encoded[after..], i))
    {
      ghost var rest := encoded[after..];
      if after >= |encoded| {
        return Err(InvalidField), after;
      }
      var octet := encoded[after];
      assert rest != [] && rest[0] == octet && rest[1..] == encoded[after + 1..];
      after := after + 1;
      if i == MAX_VARINT_LEN - 1 && octet > 1 {
        return Err(InvalidField), after;
      }
      TakeGroup(value, rest, i);
      value := Or(value, Shift(octet % 128, i));
      if octet < 128 {
        DecodeIsU64(encoded[offset..]);
        return Ok(value), after;
      }
      i := i + 1;
    }
    r := Err(InvalidField);
  }

  method Put(v: u64, output: seq<byte>) returns (r: seq<byte>)
    ensures r == output + Encode(v)
  {
    var value := v;
    r := output;
    while value >= 128
      invariant r + Encode(value) == output + Encode(v)
    {
      r := r + [value % 128 + 128];
      value := value / 128;
    }
    r := r + [value];
  }
}
