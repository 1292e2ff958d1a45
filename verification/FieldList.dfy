/**
 * Messages as lists of fields, for any reader of the first field. What is proved here needs only
 * that the reader is local: a field is recognised by its own octets, whatever follows them.
 */
module FieldList {
  import opened Wrappers
  import opened Bytes
  import opened Sequences

  /** One field of a message: its number, its wire type and all of its octets, key included. */
  datatype Field = Field(number: nat, wire: nat, raw: seq<byte>)

  type Reader = seq<byte> -> Option<Field>

  ghost predicate Recognises(head: Reader, b: seq<byte>)
    requires head(b).Some?
  {
    && 0 < |head(b).value.raw| <= |b|
    && head(b).value.raw == b[..|head(b).value.raw|]
    && forall suffix :: head(head(b).value.raw + suffix) == head(b)
  }

  ghost predicate Local(head: Reader) {
    forall b {:trigger Recognises(head, b)} :: head(b).Some? ==> Recognises(head, b)
  }

  function Prepend(f: Field, rest: Option<seq<Field>>): Option<seq<Field>> {
    if rest.Some? then Some([f] + rest.value) else None
  }

  function Join(a: seq<Field>, rest: Option<seq<Field>>): Option<seq<Field>> {
    if rest.Some? then Some(a + rest.value) else None
  }

  /** A message as its list of fields. */
  function Parse(head: Reader, b: seq<byte>): (r: Option<seq<Field>>)
    decreases |b|
  {
    if b == [] then Some([])
    else
      match head(b)
      case None => None
      case Some(f) => if 0 < |f.raw| <= |b| then Prepend(f, Parse(head, b[|f.raw|..])) else None
  }

  function Print(fields: seq<Field>): seq<byte> {
    if fields == [] then [] else fields[0].raw + Print(fields[1..])
  }

  lemma HeadIsLocal(head: Reader, b: seq<byte>, suffix: seq<byte>)
    requires Local(head) && head(b).Some?
    ensures Recognises(head, b) && head(b + suffix) == head(b)
  {
    assert Recognises(head, b);
    var raw := head(b).value.raw;
    assert b + suffix == raw + (b[|raw|..] + suffix);
  }

  lemma {:induction false} ParseConcat(head: Reader, a: seq<byte>, b: seq<byte>)
    requires Local(head) && Parse(head, a).Some?
    ensures Parse(head, a + b) == Join(Parse(head, a).value, Parse(head, b))
    decreases |a|
  {
    if a == [] {
      assert a + b == b;
      assert Parse(head, b).Some? ==> [] + Parse(head, b).value == Parse(head, b).value;
    } else {
      var f := head(a).value;
      var tail := a[|f.raw|..];
      ParseConcat(head, tail, b);
      HeadIsLocal(head, a, b);
      assert (a + b)[|f.raw|..] == tail + b;
      if Parse(head, b).Some? {
        Regroup([f], Parse(head, tail).value, Parse(head, b).value);
      }
    }
  }

  /** A field in front of a message. */
  lemma ParseCons(head: Reader, f: Field, rest: seq<byte>)
    requires f.raw != [] && head(f.raw + rest) == Some(f) && Parse(head, rest).Some?
    ensures Parse(head, f.raw + rest) == Some([f] + Parse(head, rest).value)
  {
    assert (f.raw + rest)[|f.raw|..] == rest;
  }

  /** A field's own octets are a message of that field alone. */
  lemma ParseSingle(head: Reader, b: seq<byte>)
    requires Local(head) && head(b).Some?
    ensures Parse(head, head(b).value.raw) == Some([head(b).value])
  {
    var f := head(b).value;
    assert Recognises(head, b);
    assert head(f.raw + []) == head(b);
    assert f.raw + [] == f.raw;
    assert f.raw[|f.raw|..] == [];
    assert Parse(head, f.raw) == Prepend(f, Parse(head, []));
    assert [f] + [] == [f];
  }

  /** No octet is lost: the fields print back to the message. */
  lemma {:induction false} PrintOfParse(head: Reader, b: seq<byte>)
    requires Local(head) && Parse(head, b).Some?
    ensures Print(Parse(head, b).value) == b
    decreases |b|
  {
    if b != [] {
      var f := head(b).value;
      assert Recognises(head, b);
      PrintOfParse(head, b[|f.raw|..]);
      assert Parse(head, b).value[1..] == Parse(head, b[|f.raw|..]).value;
      assert b == b[..|f.raw|] + b[|f.raw|..];
    }
  }

  lemma {:induction false} PrintConcat(a: seq<Field>, b: seq<Field>)
    ensures Print(a + b) == Print(a) + Print(b)
  {
    if a == [] {
      assert a + b == b;
    } else {
      PrintConcat(a[1..], b);
      assert (a + b)[1..] == a[1..] + b;
      Regroup(a[0].raw, Print(a[1..]), Print(b));
    }
  }

  /** Cutting a message between two fields leaves two messages. */
  lemma {:induction false} SplitMessage(head: Reader, b: seq<byte>, front: seq<Field>, back: seq<Field>)
    returns (rest: seq<byte>)
    requires Local(head) && Parse(head, b) == Some(front + back)
    ensures b == Print(front) + rest
    ensures Parse(head, Print(front)) == Some(front) && Parse(head, rest) == Some(back)
    decreases |front|
  {
    if front == [] {
      assert front + back == back;
      rest := b;
    } else {
      var f := head(b).value;
      assert Recognises(head, b);
      var tail := b[|f.raw|..];
      assert front + back == [f] + Parse(head, tail).value;
      assert front[0] == (front + back)[0] && front[1..] + back == (front + back)[1..];
      rest := SplitMessage(head, tail, front[1..], back);
      assert b == f.raw + tail;
      ParseSingle(head, b);
      ParseConcat(head, f.raw, Print(front[1..]));
      assert [f] + front[1..] == front;
    }
  }

  /** Inserting a whole field between two fields inserts it in the parsed list, and nothing else changes. */
  lemma SpliceParses(head: Reader, b: seq<byte>, front: seq<Field>, back: seq<Field>, field: Field)
    requires Local(head) && Parse(head, b) == Some(front + back)
    requires Parse(head, field.raw) == Some([field])
    ensures var n := |Print(front)|;
            && n <= |b|
            && Print(front + [field] + back) == b[..n] + field.raw + b[n..]
            && Parse(head, Print(front + [field] + back)) == Some(front + [field] + back)
  {
    var rest := SplitMessage(head, b, front, back);
    PrintOfParse(head, rest);
    PrintThree(front, field, back);
    ParseThree(head, Print(front), field.raw, rest);
  }

  lemma PrintThree(front: seq<Field>, field: Field, back: seq<Field>)
    ensures Print(front + [field] + back) == Print(front) + field.raw + Print(back)
  {
    PrintConcat(front + [field], back);
    PrintConcat(front, [field]);
    assert Print([field]) == field.raw + Print([]);
  }

  lemma ParseThree(head: Reader, a: seq<byte>, b: seq<byte>, c: seq<byte>)
    requires Local(head) && Parse(head, a).Some? && Parse(head, b).Some? && Parse(head, c).Some?
    ensures Parse(head, a + b + c) == Some(Parse(head, a).value + Parse(head, b).value + Parse(head, c).value)
  {
    ParseConcat(head, a, b);
    ParseConcat(head, a + b, c);
  }

  // ---- scanning from the left ----

  /** One more field recognised at `offset`. */
  lemma ScanStep(head: Reader, b: seq<byte>, offset: nat, done: seq<Field>)
    requires Local(head) && offset < |b| && head(b[offset..]).Some?
    requires Parse(head, b[..offset]) == Some(done)
    ensures var f := head(b[offset..]).value;
            var next := offset + |f.raw|;
            && offset < next <= |b|
            && Parse(head, b[..next]) == Some(done + [f])
            && Print(done + [f]) == b[..next]
  {
    var f := head(b[offset..]).value;
    assert Recognises(head, b[offset..]);
    var next := offset + |f.raw|;
    ParseSingle(head, b[offset..]);
    ParseConcat(head, b[..offset], f.raw);
    assert b[..next] == b[..offset] + f.raw;
    PrintOfParse(head, b[..next]);
  }

  /** No field at `offset`: the whole is no message. */
  lemma ScanFails(head: Reader, b: seq<byte>, offset: nat, done: seq<Field>)
    requires Local(head) && offset < |b| && head(b[offset..]).None?
    requires Parse(head, b[..offset]) == Some(done)
    ensures Parse(head, b).None?
  {
    ParseConcat(head, b[..offset], b[offset..]);
    assert b == b[..offset] + b[offset..];
  }

  predicate Lacks(fields: seq<Field>, target: nat) {
    forall i :: 0 <= i < |fields| ==> fields[i].number != target
  }

  /** How many fields come before the first one numbered above `target`. */
  function Before(fields: seq<Field>, target: nat): (k: nat)
    ensures k <= |fields|
  {
    if fields == [] || fields[0].number > target then 0 else 1 + Before(fields[1..], target)
  }

  lemma {:induction false} BeforeSplits(fields: seq<Field>, target: nat)
    ensures var k := Before(fields, target);
            && (forall i :: 0 <= i < k ==> fields[i].number <= target)
            && (k < |fields| ==> fields[k].number > target)
  {
    if fields != [] && fields[0].number <= target {
      BeforeSplits(fields[1..], target);
    }
  }

  lemma {:induction false} BeforeConcat(a: seq<Field>, b: seq<Field>, target: nat)
    ensures Before(a + b, target) == if Before(a, target) < |a| then Before(a, target) else |a| + Before(b, target)
  {
    if a == [] {
      assert a + b == b;
    } else if a[0].number <= target {
      BeforeConcat(a[1..], b, target);
      assert (a + b)[1..] == a[1..] + b;
    }
  }

  /** Where the first field numbered above `target` begins, or `end` when there is none. */
  function Point(fields: seq<Field>, target: nat, end: nat): nat {
    var k := Before(fields, target);
    if k < |fields| then |Print(fields[..k])| else end
  }

  lemma PointStep(fields: seq<Field>, f: Field, target: nat, end: nat)
    requires f.number != target && |Print(fields)| < end
    ensures Point(fields + [f], target, end)
         == if f.number > target && Point(fields, target, end) == end then |Print(fields)|
            else Point(fields, target, end)
  {
    var k := Before(fields, target);
    BeforeConcat(fields, [f], target);
    assert Before([f], target) == if f.number > target then 0 else 1 + Before([f][1..], target);
    assert (fields + [f])[..k] == fields[..k];
    if k < |fields| {
      assert fields == fields[..k] + fields[k..];
      PrintConcat(fields[..k], fields[k..]);
    } else {
      assert fields[..k] == fields;
    }
  }

  /** The scan up to `offset`: the fields so far and the insertion point among them. */
  ghost predicate Scanned(head: Reader, b: seq<byte>, target: nat, offset: nat, insertion: nat, fields: seq<Field>) {
    && offset <= |b|
    && Parse(head, b[..offset]) == Some(fields) && Print(fields) == b[..offset]
    && Lacks(fields, target)
    && insertion == Point(fields, target, |b|)
  }

  lemma ScanPasses(head: Reader, b: seq<byte>, target: nat, offset: nat, insertion: nat, fields: seq<Field>, f: Field)
    requires Local(head) && Scanned(head, b, target, offset, insertion, fields)
    requires offset < |b| && head(b[offset..]) == Some(f) && f.number != target
    ensures Scanned(head, b, target, offset + |f.raw|,
                    if f.number > target && insertion == |b| then offset else insertion, fields + [f])
  {
    ScanStep(head, b, offset, fields);
    PointStep(fields, f, target, |b|);
  }

  /** A refused number among the fields so far is a refused number of the whole. */
  lemma PrefixIsKept(head: Reader, b: seq<byte>, next: nat, fields: seq<Field>, f: Field)
    requires Local(head) && next <= |b| && Parse(head, b[..next]) == Some(fields + [f])
    ensures Parse(head, b).Some? ==> !Lacks(Parse(head, b).value, f.number)
  {
    ParseConcat(head, b[..next], b[next..]);
    assert b == b[..next] + b[next..];
    if Parse(head, b).Some? {
      assert Parse(head, b).value[|fields|] == f;
    }
  }

  lemma ScanEnds(head: Reader, b: seq<byte>, target: nat, insertion: nat, fields: seq<Field>)
    requires Scanned(head, b, target, |b|, insertion, fields)
    ensures Parse(head, b) == Some(fields)
    ensures insertion == |Print(fields[..Before(fields, target)])|
  {
    assert b[..|b|] == b;
    assert fields[..|fields|] == fields;
  }

  ghost predicate Ascending(fields: seq<Field>) {
    forall i, j :: 0 <= i < j < |fields| ==> fields[i].number <= fields[j].number
  }

  /** `fields` with `f` before the first field numbered above it. */
  function Inserted(fields: seq<Field>, f: Field): seq<Field> {
    var k := Before(fields, f.number);
    fields[..k] + [f] + fields[k..]
  }

  lemma InsertedInOrder(fields: seq<Field>, f: Field)
    ensures !Lacks(Inserted(fields, f), f.number)
    ensures Ascending(fields) ==> Ascending(Inserted(fields, f))
  {
    BeforeSplits(fields, f.number);
    assert Inserted(fields, f)[Before(fields, f.number)] == f;
  }
}
