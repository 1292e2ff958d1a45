/** Splicing the account identity into an opaque protobuf reserve. */
module MarkedReserve {
  import opened Wrappers
  import opened Bytes
  import opened FieldList
  import opened Sequences
  import Utf8
  import Varint

  type Error = Varint.EnvelopeError

  const ACCOUNT_IDENTITY_FIELD: nat := 16
  const MAX_IDENTITY_LEN: nat := 256

  /** Octets of the field body of a given wire type at the head of `b`. */
  function BodyLen(b: seq<byte>, wire: nat): (r: Option<nat>)
    ensures r.Some? ==> r.value <= |b|
  {
    if wire == 0 then
      match Varint.Decode(b, 0)
      case None => None
      case Some((_, n)) => Some(n)
    else if wire == 1 then
      if |b| < 8 then None else Some(8)
    else if wire == 2 then
      match Varint.Decode(b, 0)
      case None => None
      case Some((length, n)) => if n + length > |b| then None else Some(n + length)
    else if wire == 5 then
      if |b| < 4 then None else Some(4)
    else
      None
  }

  /** The field at the head of `b`: a key of number and wire type, then its body. */
  function Head(b: seq<byte>): Option<Field> {
    match Varint.Decode(b, 0)
    case None => None
    case Some((key, n)) =>
      if key / 8 > U32_MAX || key / 8 == 0 then None
      else
        match BodyLen(b[n..], key % 8)
        case None => None
        case Some(m) => Some(Field(key / 8, key % 8, b[..n + m]))
  }

  // ---- the reader is local ----

  lemma {:induction false} VarintIsLocal(b: seq<byte>, k: nat, n: nat, suffix: seq<byte>)
    requires Varint.Decode(b, k).Some? && Varint.Decode(b, k).value.1 <= n <= |b|
    ensures Varint.Decode(b[..n] + suffix, k) == Varint.Decode(b, k)
  {
    if b[0] >= 128 {
      VarintIsLocal(b[1..], k + 1, n - 1, suffix);
      assert (b[..n] + suffix)[1..] == b[1..][..n - 1] + suffix;
    }
  }

  lemma BodyIsLocal(b: seq<byte>, wire: nat, suffix: seq<byte>)
    requires BodyLen(b, wire).Some?
    ensures BodyLen(b[..BodyLen(b, wire).value] + suffix, wire) == BodyLen(b, wire)
  {
    if wire == 0 || wire == 2 {
      VarintIsLocal(b, 0, BodyLen(b, wire).value, suffix);
    }
  }

  lemma HeadRecognises(b: seq<byte>)
    requires Head(b).Some?
    ensures Recognises(Head, b)
  {
    var (key, n) := Varint.Decode(b, 0).value;
    var m := BodyLen(b[n..], key % 8).value;
    var raw := b[..n + m];
    forall suffix ensures Head(raw + suffix) == Head(b) {
      VarintIsLocal(b, 0, n + m, suffix);
      BodyIsLocal(b[n..], key % 8, suffix);
      assert (raw + suffix)[n..] == b[n..][..m] + suffix;
      assert (raw + suffix)[..n + m] == raw;
    }
  }

  lemma HeadIsALocalReader()
    ensures Local(Head)
  {
    forall b | Head(b).Some? ensures Recognises(Head, b) {
      HeadRecognises(b);
    }
  }

  // ---- what the reader makes of printed fields ----

  /** The body of a field, as the protobuf encoding defines it for each wire type in use. */
  datatype Body =
    | Number(value: u64)
    | Eight(octets: seq<byte>)
    | Octets(octets: seq<byte>)
    | Four(octets: seq<byte>)

  predicate ValidBody(body: Body) {
    match body
    case Number(_) => true
    case Eight(octets) => |octets| == 8
    case Octets(octets) => |octets| <= U64_MAX
    case Four(octets) => |octets| == 4
  }

  function WireType(body: Body): (wire: nat)
    ensures wire < 8
  {
    match body
    case Number(_) => 0
    case Eight(_) => 1
    case Octets(_) => 2
    case Four(_) => 5
  }

  function PrintBody(body: Body): seq<byte> {
    match body
    case Number(value) => Varint.Encode(value)
    case Eight(octets) => octets
    case Octets(octets) => Varint.Encode(|octets|) + octets
    case Four(octets) => octets
  }

  function PrintedField(number: nat, body: Body): Field {
    Field(number, WireType(body), Varint.Encode(8 * number + WireType(body)) + PrintBody(body))
  }

  lemma BodyEnds(body: Body, rest: seq<byte>)
    requires ValidBody(body)
    ensures BodyLen(PrintBody(body) + rest, WireType(body)) == Some(|PrintBody(body)|)
  {
    match body
    case Number(value) => Varint.DecodeOfEncode(value, rest);
    case Eight(_) =>
    case Octets(octets) =>
      Varint.DecodeOfEncode(|octets|, octets + rest);
      assert PrintBody(body) + rest == Varint.Encode(|octets|) + (octets + rest);
    case Four(_) =>
  }

  lemma HeadOfKey(key: u64, rest: seq<byte>)
    ensures var b := Varint.Encode(key) + rest;
            && Varint.Decode(b, 0) == Some((key, |Varint.Encode(key)|))
            && b[|Varint.Encode(key)|..] == rest
  {
    Varint.DecodeOfEncode(key, rest);
  }

  /** A printed field is read as exactly itself, whatever follows it. */
  lemma HeadReadsPrintedField(number: nat, body: Body, rest: seq<byte>)
    requires 1 <= number <= U32_MAX && ValidBody(body)
    ensures Head(PrintedField(number, body).raw + rest) == Some(PrintedField(number, body))
  {
    var f := PrintedField(number, body);
    var key, printed := 8 * number + WireType(body), PrintBody(body);
    assert f.raw + rest == Varint.Encode(key) + (printed + rest);
    HeadOfKey(key, printed + rest);
    BodyEnds(body, rest);
    assert (f.raw + rest)[..|f.raw|] == f.raw;
  }

  /** A locale of 2052, for one, is the octets 0x58, 0x84, 0x10. */
  lemma LocaleReads()
    ensures PrintedField(11, Number(2052)).raw == [0x58, 0x84, 0x10]
    ensures Head([0x58, 0x84, 0x10]) == Some(Field(11, 0, [0x58, 0x84, 0x10]))
  {
    assert Varint.Encode(88) == [0x58];
    assert Varint.Encode(16) == [0x10];
    assert Varint.Encode(2052) == [0x84] + Varint.Encode(16);
    HeadReadsPrintedField(11, Number(2052), []);
    assert PrintedField(11, Number(2052)).raw + [] == PrintedField(11, Number(2052)).raw;
  }

  /** A field is refused if its number is zero or too large, its wire type unknown, or its body cut short. */
  lemma HeadRefuses(number: nat, wire: nat, rest: seq<byte>)
    requires wire < 8 && 8 * number + wire <= U64_MAX
    requires number == 0 || number > U32_MAX || wire in {3, 4, 6, 7}
          || (wire == 0 && forall i :: 0 <= i < |rest| ==> rest[i] >= 128)
          || (wire == 1 && |rest| < 8) || (wire == 5 && |rest| < 4)
    ensures Head(Varint.Encode(8 * number + wire) + rest).None?
  {
    HeadOfKey(8 * number + wire, rest);
    QuotientOfKey(number, wire);
    if wire == 0 && forall i :: 0 <= i < |rest| ==> rest[i] >= 128 {
      UnendedVarint(rest, 0);
    }
    var n := |Varint.Encode(8 * number + wire)|;
    assert BodyLen((Varint.Encode(8 * number + wire) + rest)[n..], wire) == BodyLen(rest, wire);
  }

  lemma QuotientOfKey(number: nat, wire: nat)
    requires wire < 8
    ensures (8 * number + wire) / 8 == number && (8 * number + wire) % 8 == wire
  {
  }

  lemma {:induction false} UnendedVarint(b: seq<byte>, k: nat)
    requires forall i :: 0 <= i < |b| ==> b[i] >= 128
    ensures Varint.Decode(b, k).None?
  {
    if b != [] {
      UnendedVarint(b[1..], k + 1);
    }
  }

  lemma HeadRefusesShortOctets(number: nat, length: u64, rest: seq<byte>)
    requires 8 * number + 2 <= U64_MAX && |rest| < length
    ensures Head(Varint.Encode(8 * number + 2) + (Varint.Encode(length) + rest)).None?
  {
    HeadOfKey(8 * number + 2, Varint.Encode(length) + rest);
    Varint.DecodeOfEncode(length, rest);
  }

  function PrintedFields(numbers: seq<nat>, bodies: seq<Body>): (fields: seq<Field>)
    requires |numbers| == |bodies|
    ensures |fields| == |numbers|
  {
    seq(|numbers|, i requires 0 <= i < |numbers| => PrintedField(numbers[i], bodies[i]))
  }

  /** A message of printed fields parses to exactly these fields. */
  lemma {:induction false} ParseOfPrintedFields(numbers: seq<nat>, bodies: seq<Body>)
    requires |numbers| == |bodies|
    requires forall i :: 0 <= i < |numbers| ==> 1 <= numbers[i] <= U32_MAX && ValidBody(bodies[i])
    ensures Parse(Head, Print(PrintedFields(numbers, bodies))) == Some(PrintedFields(numbers, bodies))
  {
    if numbers != [] {
      var fields := PrintedFields(numbers, bodies);
      assert fields[1..] == PrintedFields(numbers[1..], bodies[1..]);
      ParseOfPrintedFields(numbers[1..], bodies[1..]);
      HeadReadsPrintedField(numbers[0], bodies[0], Print(fields[1..]));
      ParseCons(Head, fields[0], Print(fields[1..]));
      assert fields == [fields[0]] + fields[1..];
    }
  }

  // ---- the scanner of the source ----

  method SkipField(encoded: seq<byte>, offset: nat, wire: nat) returns (r: Result<(), Error>, after: nat)
    requires offset <= |encoded|
    ensures r.Ok? ==> BodyLen(encoded[offset..], wire) == Some(after - offset) && offset <= after <= |encoded|
    ensures r.Err? ==> BodyLen(encoded[offset..], wire).None?
  {
    after := offset;
    var length: nat := 0;
    if wire == 0 {
      var value;
      value, after := Varint.Read(encoded, offset);
      return if value.Ok? then Ok(()) else Err(Varint.InvalidField), after;
    } else if wire == 1 {
      length := 8;
    } else if wire == 2 {
      var value;
      value, after := Varint.Read(encoded, offset);
      if value.Err? {
        return Err(Varint.InvalidField), after;
      }
      length := value.value;
    } else if wire == 5 {
      length := 4;
    } else {
      return Err(Varint.InvalidField), after;
    }
    if after + length > |encoded| {
      return Err(Varint.InvalidField), after;
    }
    after := after + length;
    r := Ok(());
  }

  /** `head` is the reader below, under a name that keeps its definition out of the scanner's proof. */
  ghost predicate Reads(head: Reader) {
    forall b {:trigger Head(b)} :: Head(b) == head(b)
  }

  /** Key and body of the field at `offset`. */
  method ReadField(encoded: seq<byte>, offset: nat, ghost head: Reader) returns (r: Result<u64, Error>, after: nat)
    requires offset < |encoded| && Reads(head)
    ensures r.Err? ==> head(encoded[offset..]).None?
    ensures r.Ok? ==> offset <= after <= |encoded| && head(encoded[offset..]).Some?
    ensures r.Ok? ==> head(encoded[offset..]).value.number == r.value
    ensures r.Ok? ==> head(encoded[offset..]).value.raw == encoded[offset..after]
  {
    ghost var rest := encoded[offset..];
    assert Head(rest) == head(rest);
    var key, afterKey := Varint.Read(encoded, offset);
    after := afterKey;
    if key.Err? {
      return Err(Varint.InvalidField), after;
    }
    assert encoded[afterKey..] == rest[afterKey - offset..];
    var number := key.value / 8;
    if number > U32_MAX || number == 0 {
      return Err(Varint.InvalidField), after;
    }
    var skipped;
    skipped, after := SkipField(encoded, afterKey, key.value % 8);
    if skipped.Err? {
      return Err(Varint.InvalidField), after;
    }
    assert rest[..after - offset] == encoded[offset..after];
    r := Ok(number);
  }

  method InsertionOffset(encoded: seq<byte>, target: nat, ghost head: Reader) returns (r: Result<nat, Error>)
    requires Reads(head) && Local(head)
    ensures r.Ok? <==> Parse(head, encoded).Some? && Lacks(Parse(head, encoded).value, target)
    ensures r.Ok? ==>
      var fields := Parse(head, encoded).value;
      r.value == |Print(fields[..Before(fields, target)])|
  {
    var offset: nat := 0;
    var insertion: nat := |encoded|;
    ghost var fields: seq<Field> := [];
    while offset < |encoded|
      invariant Scanned(head, encoded, target, offset, insertion, fields)
    {
      var number, after := ReadField(encoded, offset, head);
      if number.Err? {
        ScanFails(head, encoded, offset, fields);
        return Err(Varint.InvalidField);
      }
      ghost var f := head(encoded[offset..]).value;
      if number.value == target {
        ScanStep(head, encoded, offset, fields);
        PrefixIsKept(head, encoded, after, fields, f);
        return Err(Varint.InvalidField);
      }
      assert Recognises(head, encoded[offset..]);
      ScanPasses(head, encoded, target, offset, insertion, fields, f);
      if number.value > target && insertion == |encoded| {
        insertion := offset;
      }
      fields := fields + [f];
      offset := after;
    }
    ScanEnds(head, encoded, target, insertion, fields);
    r := Ok(insertion);
  }

  // ---- attaching the identity ----

  predicate ValidIdentity(identity: string) {
    identity != [] && Utf8.Len(identity) <= MAX_IDENTITY_LEN && !Utf8.HasControl(identity)
  }

  /** The identity as field 16, length-delimited. */
  function IdentityField(identity: string): Field {
    var text := Utf8.Encode(identity);
    Field(ACCOUNT_IDENTITY_FIELD, 2, Varint.Encode(ACCOUNT_IDENTITY_FIELD * 8 + 2) + Varint.Encode(|text|) + text)
  }

  /** The fields of the result: everything as before, with the identity before the first higher number. */
  function Attached(fields: seq<Field>, identity: string): seq<Field> {
    Inserted(fields, IdentityField(identity))
  }

  /** Fails exactly for a bad identity, a malformed reserve or one that already has field 16. */
  method AttachAccountIdentity(reserve: seq<byte>, identity: string) returns (r: Result<seq<byte>, Error>)
    ensures r.Ok? <==>
      && identity != "" && Utf8.Len(identity) <= 256 && !Utf8.HasControl(identity)
      && Parse(Head, reserve).Some? && Lacks(Parse(Head, reserve).value, 16)
    ensures r.Ok? ==> r.value == Print(Attached(Parse(Head, reserve).value, identity))
  {
    if !ValidIdentity(identity) {
      return Err(Varint.InvalidField);
    }
    HeadIsALocalReader();
    var insertion := InsertionOffset(reserve, ACCOUNT_IDENTITY_FIELD, Head);
    if insertion.Err? {
      return Err(Varint.InvalidField);
    }
    var text := Utf8.Encode(identity);
    var field := Varint.Put(ACCOUNT_IDENTITY_FIELD * 8 + 2, []);
    field := Varint.Put(|text|, field);
    field := field + text;
    assert field == IdentityField(identity).raw;
    AttachedParses(reserve, identity);
    r := Ok(reserve[..insertion.value] + field + reserve[insertion.value..]);
  }

  lemma IdentityFieldParses(identity: string)
    requires ValidIdentity(identity)
    ensures Parse(Head, IdentityField(identity).raw) == Some([IdentityField(identity)])
  {
    var f := IdentityField(identity);
    IdentityFieldIsPrinted(identity);
    HeadReadsPrintedField(ACCOUNT_IDENTITY_FIELD, Octets(Utf8.Encode(identity)), []);
    assert f.raw + [] == f.raw;
    HeadIsALocalReader();
    ParseSingle(Head, f.raw);
  }

  /**
   * The result parses to the input's fields with exactly the identity inserted, and stays ascending
   * if it was. It no longer lacks the field, so a second attach fails.
   */
  lemma AttachedParses(reserve: seq<byte>, identity: string)
    requires ValidIdentity(identity) && Parse(Head, reserve).Some?
    ensures var fields := Parse(Head, reserve).value;
            var n := |Print(fields[..Before(fields, ACCOUNT_IDENTITY_FIELD)])|;
            && n <= |reserve|
            && Print(Attached(fields, identity)) == reserve[..n] + IdentityField(identity).raw + reserve[n..]
            && Parse(Head, Print(Attached(fields, identity))) == Some(Attached(fields, identity))
            && !Lacks(Attached(fields, identity), ACCOUNT_IDENTITY_FIELD)
            && (Ascending(fields) ==> Ascending(Attached(fields, identity)))
  {
    var fields := Parse(Head, reserve).value;
    var k := Before(fields, ACCOUNT_IDENTITY_FIELD);
    HeadIsALocalReader();
    IdentityFieldParses(identity);
    assert fields == fields[..k] + fields[k..];
    SpliceParses(Head, reserve, fields[..k], fields[k..], IdentityField(identity));
    InsertedInOrder(fields, IdentityField(identity));
  }

  /**
   * On a reserve of printed fields, the method's condition is that the identity is valid and no number is 16;
   * its result is the printed fields with the identity's in place.
   */
  lemma PrintedReserveTakesIdentity(numbers: seq<nat>, bodies: seq<Body>, identity: string)
    requires |numbers| == |bodies| && ValidIdentity(identity)
    requires forall i :: 0 <= i < |numbers| ==> 1 <= numbers[i] <= U32_MAX && ValidBody(bodies[i])
    ensures var reserve := Print(PrintedFields(numbers, bodies));
            && Parse(Head, reserve).Some?
            && (Lacks(Parse(Head, reserve).value, ACCOUNT_IDENTITY_FIELD) <==> ACCOUNT_IDENTITY_FIELD !in numbers)
            && Attached(Parse(Head, reserve).value, identity)
               == Inserted(PrintedFields(numbers, bodies),
                           PrintedField(ACCOUNT_IDENTITY_FIELD, Octets(Utf8.Encode(identity))))
  {
    ParseOfPrintedFields(numbers, bodies);
    PrintedNumbers(numbers, bodies);
    IdentityFieldIsPrinted(identity);
  }

  lemma PrintedNumbers(numbers: seq<nat>, bodies: seq<Body>)
    requires |numbers| == |bodies|
    ensures Lacks(PrintedFields(numbers, bodies), ACCOUNT_IDENTITY_FIELD) <==> ACCOUNT_IDENTITY_FIELD !in numbers
  {
    var fields := PrintedFields(numbers, bodies);
    assert forall i :: 0 <= i < |fields| ==> fields[i].number == numbers[i];
  }

  lemma IdentityFieldIsPrinted(identity: string)
    ensures IdentityField(identity) == PrintedField(ACCOUNT_IDENTITY_FIELD, Octets(Utf8.Encode(identity)))
  {
    var text := Utf8.Encode(identity);
    Regroup(Varint.Encode(ACCOUNT_IDENTITY_FIELD * 8 + 2), Varint.Encode(|text|), text);
  }

  /** The identity itself is readable back from the field. */
  lemma IdentityRecovered(identity: string)
    requires ValidIdentity(identity)
    ensures var raw := IdentityField(identity).raw;
            var n := |raw| - Utf8.Len(identity);
            0 <= n && Utf8.Decode(raw[n..]) == Some(identity)
  {
    var raw := IdentityField(identity).raw;
    assert raw[|raw| - Utf8.Len(identity)..] == Utf8.Encode(identity);
    Utf8.DecodeOfEncode(identity);
  }
}
