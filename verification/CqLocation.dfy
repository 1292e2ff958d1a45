/** Codes whose values are partly printed as they are, and the location code, which is one. */
module CqLocation {
  import opened Wrappers
  import opened Sequences
  import opened CqText
  import opened CqParser
  import Utf8

  /** A value that reads as itself although it is printed without escaping. */
  predicate Verbatim(value: string) {
    ',' !in value && ']' !in value && !HasCode(value)
  }

  // ---- reading a field whose value was not escaped ----

  /** The longest beginning without a comma or a closing bracket. */
  function Clean(value: string): (c: string)
    ensures |c| <= |value| && ',' !in c && ']' !in c
    ensures c == value <==> ',' !in value && ']' !in value
    ensures c <= value
    ensures |c| < |value| ==> value[|c|] == ',' || value[|c|] == ']'
  {
    if value == [] || value[0] == ',' || value[0] == ']' then [] else [value[0]] + Clean(value[1..])
  }

  predicate Delimited(rest: string) {
    rest == [] || rest[0] == ','
  }

  /** The closing bracket is found past a beginning without one. */
  lemma FindPast(p: string, x: string)
    requires ']' !in p && ']' in x
    ensures var end := Find(p + x, "]");
            end.Some? && |p| <= end.value < |p + x| && (p + x)[..end.value] == p + x[..end.value - |p|]
    ensures ']' !in (p + x)[..Find(p + x, "]").value] && (p + x)[Find(p + x, "]").value] == ']'
  {
    FindChar(p + x, ']');
    forall k | 0 <= k < |p| ensures (p + x)[k] != ']' {
      assert p[k] in p;
    }
  }

  /** The pieces after a delimited rest. */
  function MorePieces(rest: string): seq<string>
    requires Delimited(rest)
  {
    if rest == [] then [] else Split(rest[1..], ',')
  }

  lemma SplitHead(head: string, rest: string)
    requires ',' !in head && Delimited(rest)
    ensures Split(head + rest, ',') == [head] + MorePieces(rest)
  {
    if rest == [] {
      assert head + rest == head;
      SplitWhole(head, ',');
    } else {
      assert head + rest == head + [','] + rest[1..];
      SplitFirst(head, ',', rest[1..]);
    }
  }

  /** Splitting printed fields that are followed by more, or by nothing. */
  lemma {:induction false} SplitPrintedThen(head: string, fields: seq<Field>, rest: string)
    requires ',' !in head && PrintableFields(fields) && Delimited(rest)
    ensures Split(head + PrintFields(fields) + rest, ',') == [head] + Pieces(fields) + MorePieces(rest)
    decreases |fields|
  {
    if fields == [] {
      assert head + [] == head && [head] + [] == [head];
      SplitHead(head, rest);
    } else {
      var piece := Piece(fields[0]);
      PieceHasNoComma(fields[0]);
      SplitPrintedThen(piece, fields[1..], rest);
      var tail := piece + PrintFields(fields[1..]) + rest;
      SplitFirst(head, ',', tail);
      FirstPiece(head, fields, rest);
      OnePieceMore(head, piece, Pieces(fields[1..]), MorePieces(rest));
    }
  }

  lemma FirstPiece(head: string, fields: seq<Field>, rest: string)
    requires fields != []
    ensures head + PrintFields(fields) + rest == head + [','] + (Piece(fields[0]) + PrintFields(fields[1..]) + rest)
  {
    var a, b := Piece(fields[0]), PrintFields(fields[1..]);
    assert PrintFields(fields) == [','] + (a + b);
    Regroup(head, [','], a + b);
    Regroup(head + [','], a + b, rest);
  }

  lemma OnePieceMore(head: string, piece: string, pieces: seq<string>, more: seq<string>)
    ensures [head] + ([piece] + pieces + more) == [head] + ([piece] + pieces) + more
  {
  }

  lemma {:induction false} AddFieldsConcat(add: Adder, data: map<string, string>, a: seq<string>, b: seq<string>)
    ensures AddFields(add, data, a + b)
         == match AddFields(add, data, a) case None => None case Some(next) => AddFields(add, next, b)
    decreases |a|
  {
    if a == [] {
      assert a + b == b;
    } else {
      assert (a + b)[0] == a[0] && (a + b)[1..] == a[1..] + b;
      if add(data, a[0]).Some? {
        AddFieldsConcat(add, add(data, a[0]).value, a[1..], b);
      }
    }
  }

  /** Adding a field never changes the value of a key that has one. */
  ghost predicate NeverOverwrites(add: Adder) {
    forall data: map<string, string>, field: string, key: string {:trigger add(data, field), key in data} ::
      key in data && add(data, field).Some? ==>
        key in add(data, field).value && add(data, field).value[key] == data[key]
  }

  lemma AddFieldNeverOverwrites()
    ensures NeverOverwrites(AddField)
  {
  }

  lemma {:induction false} FieldsNeverChange(add: Adder, data: map<string, string>, fields: seq<string>, key: string)
    requires NeverOverwrites(add) && AddFields(add, data, fields).Some? && key in data
    ensures key in AddFields(add, data, fields).value && AddFields(add, data, fields).value[key] == data[key]
    decreases |fields|
  {
    if fields != [] {
      FieldsNeverChange(add, add(data, fields[0]).value, fields[1..], key);
    }
  }

  lemma LastValue(done: seq<Field>, f: Field)
    requires PrintableFields(done + [f])
    ensures f.key in DataOf(done + [f]) && DataOf(done + [f])[f.key] == Unescape(f.raw, true)
  {
    forall i | 0 <= i < |done| ensures done[i].key != f.key {
      assert (done + [f])[i] == done[i] && (done + [f])[|done|] == f;
    }
    DataOfMore(done, f);
  }

  lemma FieldsThenMore(add: Adder, fields: seq<Field>, more: seq<string>, key: string)
    requires NeverOverwrites(add) && key in DataOf(fields)
    requires AddFields(add, map[], Pieces(fields)) == Some(DataOf(fields))
    requires AddFields(add, map[], Pieces(fields) + more).Some?
    ensures var data := AddFields(add, map[], Pieces(fields) + more).value;
            key in data && data[key] == DataOf(fields)[key]
  {
    AddFieldsConcat(add, map[], Pieces(fields), more);
    FieldsNeverChange(add, DataOf(fields), more, key);
  }

  lemma ParseOfPieces(body: string, kind: string, pieces: seq<string>)
    requires Split(body, ',') == [kind] + pieces && ParseCode(body).Some?
    ensures AddFields(AddField, map[], pieces).Some?
    ensures ParseCode(body).value == Segment(kind, AddFields(AddField, map[], pieces).value)
  {
    assert ([kind] + pieces)[1..] == pieces;
  }

  lemma CodeReads(body: string, kind: string, fields: seq<Field>, more: seq<string>, key: string)
    requires Split(body, ',') == [kind] + (Pieces(fields) + more) && ParseCode(body).Some?
    requires AddFields(AddField, map[], Pieces(fields)) == Some(DataOf(fields)) && key in DataOf(fields)
    ensures var segment := ParseCode(body).value;
            segment.kind == kind && key in segment.data && segment.data[key] == DataOf(fields)[key]
  {
    ParseOfPieces(body, kind, Pieces(fields) + more);
    AddFieldNeverOverwrites();
    FieldsThenMore(AddField, fields, more, key);
  }

  lemma SplitBody(kind: string, fields: seq<Field>, rest: string)
    requires ',' !in kind && PrintableFields(fields) && Delimited(rest)
    ensures Split(kind + PrintFields(fields) + rest, ',') == [kind] + (Pieces(fields) + MorePieces(rest))
  {
    SplitPrintedThen(kind, fields, rest);
    OneKindMore(kind, Pieces(fields), MorePieces(rest));
  }

  lemma OneKindMore(kind: string, pieces: seq<string>, more: seq<string>)
    ensures [kind] + pieces + more == [kind] + (pieces + more)
  {
  }

  /** The body of a code, given its first fields: each of them has the value it was printed with. */
  lemma BodyKeepsFields(kind: string, fields: seq<Field>, rest: string, key: string)
    requires ValidKind(kind) && PrintableFields(fields) && Delimited(rest) && key in DataOf(fields)
    requires ParseCode(kind + PrintFields(fields) + rest).Some?
    ensures var segment := ParseCode(kind + PrintFields(fields) + rest).value;
            segment.kind == kind && key in segment.data && segment.data[key] == DataOf(fields)[key]
  {
    SplitBody(kind, fields, rest);
    PiecesAddUp(fields);
    CodeReads(kind + PrintFields(fields) + rest, kind, fields, MorePieces(rest), key);
  }

  lemma {:induction false} ScanKeeps(next: Turns, parse: Codes, segments: seq<Segment>, remaining: string)
    requires Scan(next, parse, segments, remaining).Some?
    ensures segments <= Scan(next, parse, segments, remaining).value
    decreases |remaining|
  {
    match next(remaining)
    case Done =>
    case Unclosed =>
    case Found(before, body, rest) =>
      if parse(body).Some? {
        var found := TextBefore(segments, before) + [parse(body).value];
        if |rest| < |remaining| && |found| <= MAX_SEGMENTS {
          ScanKeeps(next, parse, found, rest);
        }
      }
  }

  lemma ScanFirst(next: Turns, parse: Codes, remaining: string, body: string, rest: string)
    requires next(remaining) == Found([], body, rest) && Scan(next, parse, [], remaining).Some?
    ensures parse(body).Some? && [parse(body).value] <= Scan(next, parse, [], remaining).value
  {
    ScanKeeps(next, parse, [] + [parse(body).value], rest);
  }

  lemma RetainHead(segments: seq<Segment>)
    requires segments != [] && !IsEmptyText(segments[0])
    ensures Retain(segments) != [] && Retain(segments)[0] == segments[0]
  {
  }

  /** A message that begins with a code yields that code's segment first. */
  lemma FirstSegment(body: string, rest: string)
    requires ']' !in body && Parse(Joined([], body, rest)).Some?
    ensures ParseCode(body).Some?
    ensures var segment := ParseCode(body).value;
            var segments := Parse(Joined([], body, rest)).value;
            !IsEmptyText(segment) ==> segments != [] && segments[0] == segment
  {
    NoMarkerInNothing();
    Layout([], body, rest);
    ScanFirst(NextTurn, ParseCode, Joined([], body, rest), body, rest);
    var all := Scan(NextTurn, ParseCode, [], Joined([], body, rest)).value;
    if !IsEmptyText(all[0]) {
      RetainHead(all);
    }
  }

  /** The text of a message whose first code continues with a field printed as it is. */
  function Opening(kind: string, done: seq<Field>, key: string, value: string, x: string): string {
    MARKER + (kind + PrintFields(done + [Field(key, value)]) + x)
  }

  ghost predicate ReadsFirst(input: string, kind: string, key: string, value: string) {
    Parse(input).Some? ==>
      var segments := Parse(input).value;
      && segments != [] && segments[0].kind == kind
      && key in segments[0].data && segments[0].data[key] == value
  }

  /** The first code of an opening ends inside what follows the clean part, or right at its end. */
  lemma OpeningEnds(kind: string, done: seq<Field>, key: string, value: string, x: string)
    returns (rest: string, after: string)
    requires ValidKind(kind) && PrintableFields(done + [Field(key, Clean(value))])
    requires ']' in x && (x[0] == ',' || x[0] == ']')
    ensures Delimited(rest)
    ensures var body := kind + PrintFields(done + [Field(key, Clean(value))]) + rest;
            ']' !in body && Opening(kind, done, key, value, x) == Joined([], body, after)
    ensures value[|Clean(value)|..] + x == rest + "]" + after
  {
    var p := kind + PrintFields(done + [Field(key, Clean(value))]);
    var tail := value[|Clean(value)|..] + x;
    FieldsLackBracket(done + [Field(key, Clean(value))]);
    Opened(kind, done, key, value, x);
    rest, after := EndOf(p, tail);
    StartsDelimited(value, x, |rest|);
    Enclosed(p + rest, after);
    CancelHead(p, tail, rest, after);
  }

  lemma CancelHead(p: string, tail: string, rest: string, after: string)
    requires p + tail == p + rest + "]" + after
    ensures tail == rest + "]" + after
  {
    assert p + rest + "]" + after == p + (rest + "]" + after);
    assert tail == (p + tail)[|p|..] && rest + "]" + after == (p + (rest + "]" + after))[|p|..];
  }

  lemma EndOf(p: string, tail: string) returns (rest: string, after: string)
    requires ']' !in p && ']' in tail
    ensures ']' !in p + rest && p + tail == p + rest + "]" + after && |rest| <= |tail| && rest == tail[..|rest|]
  {
    FindPast(p, tail);
    var end := Find(p + tail, "]").value;
    rest, after := tail[..end - |p|], (p + tail)[end + 1..];
    CutAt(p + tail, end);
  }

  lemma CutAt(s: string, end: nat)
    requires end < |s| && s[end] == ']'
    ensures s == s[..end] + "]" + s[end + 1..]
  {
  }

  /** Whatever follows it, a field printed without escaping is read as its clean beginning, unescaped. */
  lemma UnescapedFieldReads(kind: string, done: seq<Field>, key: string, value: string, x: string)
    requires ValidKind(kind) && kind != "text" && PrintableFields(done + [Field(key, Clean(value))])
    requires ']' in x && (x[0] == ',' || x[0] == ']')
    ensures ReadsFirst(Opening(kind, done, key, value, x), kind, key, Unescape(Clean(value), true))
  {
    var fields := done + [Field(key, Clean(value))];
    var rest, after := OpeningEnds(kind, done, key, value, x);
    LastValue(done, Field(key, Clean(value)));
    BodyReads(kind, fields, rest, after, key);
  }

  lemma BodyReads(kind: string, fields: seq<Field>, rest: string, after: string, key: string)
    requires ValidKind(kind) && kind != "text" && PrintableFields(fields) && Delimited(rest) && key in DataOf(fields)
    requires ']' !in kind + PrintFields(fields) + rest
    ensures ReadsFirst(Joined([], kind + PrintFields(fields) + rest, after), kind, key, DataOf(fields)[key])
  {
    var body := kind + PrintFields(fields) + rest;
    if Parse(Joined([], body, after)).Some? {
      FirstSegment(body, after);
      BodyKeepsFields(kind, fields, rest, key);
    }
  }

  lemma Enclosed(body: string, after: string)
    ensures MARKER + (body + "]" + after) == Joined([], body, after)
  {
    assert Joined([], body, after) == MARKER + body + "]" + after;
  }

  lemma StartsDelimited(value: string, x: string, n: nat)
    requires x != [] && (x[0] == ',' || x[0] == ']')
    requires n <= |value[|Clean(value)|..] + x| && ']' !in (value[|Clean(value)|..] + x)[..n]
    ensures Delimited((value[|Clean(value)|..] + x)[..n])
  {
    var tail := value[|Clean(value)|..] + x;
    assert tail[0] == ',' || tail[0] == ']';
    if n > 0 {
      assert tail[0] == tail[..n][0] && tail[0] in tail[..n];
    }
  }

  /** The rest of a value that is not clean belongs to what follows. */
  lemma Opened(kind: string, done: seq<Field>, key: string, value: string, x: string)
    ensures Opening(kind, done, key, value, x)
         == MARKER + (kind + PrintFields(done + [Field(key, Clean(value))]) + (value[|Clean(value)|..] + x))
  {
    var c, v := Clean(value), value[|Clean(value)|..];
    PrintOneMore(done, Field(key, c));
    PrintOneMore(done, Field(key, value));
    var a := PrintFields(done) + "," + key + "=";
    PieceOf(PrintFields(done) + ",", key, c);
    PieceOf(PrintFields(done) + ",", key, value);
    assert value == c + v;
    assert kind + (a + value) + x == kind + (a + c) + (v + x);
  }

  lemma PieceOf(head: string, key: string, raw: string)
    ensures head + Piece(Field(key, raw)) == head + key + "=" + raw
  {
  }

  lemma {:induction false} PrintOneMore(done: seq<Field>, f: Field)
    ensures PrintFields(done + [f]) == PrintFields(done) + "," + Piece(f)
  {
    if done == [] {
      assert [f][1..] == [] && [] + [f] == [f];
      assert Piece(f) + [] == Piece(f);
    } else {
      assert (done + [f])[1..] == done[1..] + [f];
      PrintOneMore(done[1..], f);
    }
  }

  // ---- codes with values printed as they are or escaped ----

  /** A value in a code, and how it is printed. */
  datatype Value = Plain(key: string, text: string) | Escaped(key: string, text: string)

  function FieldOf(v: Value): Field {
    Field(v.key, if v.Plain? then v.text else EscapeParameter(v.text))
  }

  function FieldsOf(values: seq<Value>): (fields: seq<Field>)
    ensures |fields| == |values|
    ensures forall i :: 0 <= i < |values| ==> fields[i] == FieldOf(values[i])
  {
    seq(|values|, i requires 0 <= i < |values| => FieldOf(values[i]))
  }

  function TextMap(values: seq<Value>): map<string, string> {
    if values == [] then map[]
    else TextMap(values[..|values| - 1])[values[|values| - 1].key := values[|values| - 1].text]
  }

  ghost predicate ProperKeys(values: seq<Value>) {
    && (forall i :: 0 <= i < |values| ==> PrintableKey(values[i].key))
    && forall i, j :: 0 <= i < j < |values| ==> values[i].key != values[j].key
  }

  predicate Faithful(v: Value) {
    v.Escaped? || Verbatim(v.text)
  }

  /** The clean beginning of what is printed unescapes to the value itself exactly when the value is faithful. */
  lemma FaithfulReadsBack(v: Value)
    ensures Unescape(Clean(FieldOf(v).raw), true) == v.text <==> Faithful(v)
    ensures Faithful(v) ==> Clean(FieldOf(v).raw) == FieldOf(v).raw
  {
    if v.Plain? {
      UnescapeFixedIffNoCode(Clean(v.text));
    } else {
      EscapedIsDelimiterFree(v.text);
      UnescapeOfEscape(v.text);
    }
  }

  lemma {:induction false} TextMapAt(values: seq<Value>, i: nat)
    requires ProperKeys(values) && i < |values|
    ensures values[i].key in TextMap(values) && TextMap(values)[values[i].key] == values[i].text
    decreases |values|
  {
    var last := |values| - 1;
    if i < last {
      assert values[i].key != values[last].key;
      FrontIsProper(values);
      TextMapAt(values[..last], i);
    }
  }

  lemma FrontIsProper(values: seq<Value>)
    requires ProperKeys(values) && values != []
    ensures ProperKeys(values[..|values| - 1])
  {
    var front := values[..|values| - 1];
    assert forall j :: 0 <= j < |front| ==> front[j] == values[j];
  }

  lemma {:induction false} FaithfulData(values: seq<Value>)
    requires forall i :: 0 <= i < |values| ==> Faithful(values[i])
    ensures DataOf(FieldsOf(values)) == TextMap(values)
  {
    if values != [] {
      var last := |values| - 1;
      FaithfulData(values[..last]);
      assert FieldsOf(values)[..last] == FieldsOf(values[..last]);
      FaithfulReadsBack(values[last]);
    }
  }

  lemma FaithfulPrints(values: seq<Value>)
    requires ProperKeys(values) && forall i :: 0 <= i < |values| ==> Faithful(values[i])
    ensures PrintableFields(FieldsOf(values))
  {
    forall i | 0 <= i < |values| ensures PrintableField(FieldsOf(values)[i]) {
      FaithfulReadsBack(values[i]);
      assert FieldsOf(values)[i] == FieldOf(values[i]);
    }
  }

  lemma {:induction false} PrintFieldsConcat(a: seq<Field>, b: seq<Field>)
    ensures PrintFields(a + b) == PrintFields(a) + PrintFields(b)
  {
    if a == [] {
      assert a + b == b;
    } else {
      assert (a + b)[0] == a[0] && (a + b)[1..] == a[1..] + b;
      PrintFieldsConcat(a[1..], b);
      var piece := Piece(a[0]);
      var x, y := PrintFields(a[1..]), PrintFields(b);
      assert "," + (piece + (x + y)) == "," + (piece + x) + y;
    }
  }

  /** Any field of a printed code can be looked at as the one whose reading is in question. */
  lemma CodeOpensAt(kind: string, fields: seq<Field>, i: nat)
    requires i < |fields|
    ensures PrintItem(Code(kind, fields))
         == Opening(kind, fields[..i], fields[i].key, fields[i].raw, PrintFields(fields[i + 1..]) + "]")
  {
    var a, b := fields[..i] + [fields[i]], fields[i + 1..];
    assert fields == a + b && Field(fields[i].key, fields[i].raw) == fields[i];
    PrintFieldsConcat(a, b);
    Rebracket(MARKER, kind, PrintFields(a), PrintFields(b));
  }

  lemma Rebracket(marker: string, kind: string, a: string, b: string)
    ensures marker + (kind + (a + b)) + "]" == marker + (kind + a + (b + "]"))
  {
  }

  lemma AfterField(fields: seq<Field>)
    ensures var x := PrintFields(fields) + "]"; ']' in x && (x[0] == ',' || x[0] == ']')
  {
    var x := PrintFields(fields) + "]";
    assert x[|x| - 1] == ']';
  }

  ghost predicate ReadsBack(kind: string, values: seq<Value>) {
    Parse(PrintItem(Code(kind, FieldsOf(values)))) == Some([Segment(kind, TextMap(values))])
  }

  /** If the first values are faithful and the code reads back, so is the next one. */
  lemma NextIsFaithful(kind: string, values: seq<Value>, i: nat)
    requires ValidKind(kind) && kind != "text" && ProperKeys(values) && ReadsBack(kind, values) && i < |values|
    requires forall j :: 0 <= j < i ==> Faithful(values[j])
    ensures Faithful(values[i])
  {
    var fields := FieldsOf(values);
    var v, f := values[i], fields[i];
    assert FieldsOf(values[..i]) == fields[..i];
    FaithfulPrints(values[..i]);
    CleanFieldPrints(fields[..i], f, values, i);
    AfterField(fields[i + 1..]);
    CodeOpensAt(kind, fields, i);
    UnescapedFieldReads(kind, fields[..i], f.key, f.raw, PrintFields(fields[i + 1..]) + "]");
    TextMapAt(values, i);
    FaithfulReadsBack(v);
  }

  lemma CleanFieldPrints(done: seq<Field>, f: Field, values: seq<Value>, i: nat)
    requires ProperKeys(values) && i < |values| && f.key == values[i].key
    requires |done| == i && PrintableFields(done) && forall j :: 0 <= j < i ==> done[j].key == values[j].key
    ensures PrintableFields(done + [Field(f.key, Clean(f.raw))])
  {
    assert PrintableKey(values[i].key);
    forall j | 0 <= j < i ensures done[j].key != f.key {
      assert values[j].key != values[i].key;
    }
  }

  lemma {:induction false} StrongInduction(n: nat, ok: nat -> bool)
    requires forall i: nat {:trigger ok(i)} :: i < n && (forall j: nat :: j < i ==> ok(j)) ==> ok(i)
    ensures forall i: nat :: i < n ==> ok(i)
  {
    if n > 0 {
      StrongInduction(n - 1, ok);
    }
  }

  /** A printed code reads back to its values exactly when every value that is not escaped is verbatim. */
  lemma ReadsBackIffFaithful(kind: string, values: seq<Value>)
    requires ValidKind(kind) && kind != "text" && ProperKeys(values)
    ensures ReadsBack(kind, values) <==> forall i :: 0 <= i < |values| ==> Faithful(values[i])
  {
    if ReadsBack(kind, values) {
      AllAreFaithful(kind, values);
    }
    if forall i :: 0 <= i < |values| ==> Faithful(values[i]) {
      FaithfulPrints(values);
      FaithfulData(values);
      ParseOfOneCode(kind, FieldsOf(values));
    }
  }

  lemma AllAreFaithful(kind: string, values: seq<Value>)
    requires ValidKind(kind) && kind != "text" && ProperKeys(values) && ReadsBack(kind, values)
    ensures forall i :: 0 <= i < |values| ==> Faithful(values[i])
  {
    var ok := (i: nat) => i < |values| && Faithful(values[i]);
    forall i: nat | i < |values| && (forall j: nat :: j < i ==> ok(j)) ensures ok(i) {
      forall j | 0 <= j < i ensures Faithful(values[j]) {
        assert ok(j);
      }
      NextIsFaithful(kind, values, i);
    }
    StrongInduction(|values|, ok);
    forall i | 0 <= i < |values| ensures Faithful(values[i]) {
      assert ok(i);
    }
  }

  // ---- the location code ----

  const NAMES: seq<string> := ["location", "lat", "lon", "title", "content"]

  /** The coordinates come from the peer unvalidated, and only the two texts are escaped. */
  function LocationValues(names: seq<string>, latitude: string, longitude: string, title: string, content: string)
    : seq<Value>
    requires |names| == 5
  {
    [Plain(names[1], latitude), Plain(names[2], longitude), Escaped(names[3], title), Escaped(names[4], content)]
  }

  function PrintLocation(latitude: string, longitude: string, title: string, content: string): string {
    "[CQ:location,lat=" + latitude + ",lon=" + longitude + ",title=" + EscapeParameter(title)
    + ",content=" + EscapeParameter(content) + "]"
  }

  /** A name in lower-case letters can stand as a kind or as a key. */
  predicate SimpleName(name: string) {
    1 <= |name| <= MAX_KIND_BYTES && forall i :: 0 <= i < |name| ==> 'a' <= name[i] <= 'z'
  }

  lemma SimpleNamePrints(name: string)
    requires SimpleName(name)
    ensures ValidKind(name) && PrintableKey(name)
  {
    Utf8.AsciiLength(name);
  }

  ghost predicate GoodNames(names: seq<string>) {
    && |names| == 5 && names[0] != "text"
    && (forall i :: 0 <= i < 5 ==> SimpleName(names[i]))
    && forall i, j :: 0 <= i < j < 5 ==> names[i] != names[j]
  }

  lemma TheNamesAreGood()
    ensures GoodNames(NAMES)
  {
    assert |NAMES[0]| == 8 && |NAMES[1]| == 3 && |NAMES[2]| == 3 && |NAMES[3]| == 5 && |NAMES[4]| == 7;
    assert NAMES[1][1] == 'a' && NAMES[2][1] == 'o';
  }

  lemma LocationKeys(names: seq<string>, latitude: string, longitude: string, title: string, content: string)
    requires GoodNames(names)
    ensures ValidKind(names[0]) && ProperKeys(LocationValues(names, latitude, longitude, title, content))
  {
    forall i | 0 <= i < 5 ensures ValidKind(names[i]) && PrintableKey(names[i]) {
      SimpleNamePrints(names[i]);
    }
    var values := LocationValues(names, latitude, longitude, title, content);
    assert forall i :: 0 <= i < 4 ==> values[i].key == names[i + 1];
  }

  lemma Appended(head: string, done: seq<Field>, f: Field)
    ensures head + PrintFields(done + [f]) == head + PrintFields(done) + ("," + f.key + "=") + f.raw
  {
    PrintOneMore(done, f);
    var printed := PrintFields(done);
    PieceOf(printed + ",", f.key, f.raw);
    assert head + (printed + "," + f.key + "=" + f.raw) == head + printed + ("," + f.key + "=") + f.raw;
  }

  lemma FourFields(kind: string, f: seq<Field>)
    requires |f| == 4
    ensures PrintItem(Code(kind, f))
         == MARKER + kind + ("," + f[0].key + "=") + f[0].raw + ("," + f[1].key + "=") + f[1].raw
            + ("," + f[2].key + "=") + f[2].raw + ("," + f[3].key + "=") + f[3].raw + "]"
  {
    var head := MARKER + kind;
    assert f == f[..3] + [f[3]] && f[..3] == f[..2] + [f[2]] && f[..2] == f[..1] + [f[1]] && f[..1] == [] + [f[0]];
    Appended(head, f[..3], f[3]);
    Appended(head, f[..2], f[2]);
    Appended(head, f[..1], f[1]);
    Appended(head, [], f[0]);
    assert head + PrintFields([]) == head;
    KindFirst(kind, PrintFields(f));
  }

  lemma KindFirst(kind: string, fields: string)
    ensures MARKER + (kind + fields) + "]" == MARKER + kind + fields + "]"
  {
    assert MARKER + (kind + fields) == MARKER + kind + fields;
  }

  lemma LocationLabels()
    ensures MARKER + NAMES[0] + ("," + NAMES[1] + "=") == "[CQ:location,lat="
    ensures "," + NAMES[2] + "=" == ",lon=" && "," + NAMES[3] + "=" == ",title=" && "," + NAMES[4] + "=" == ",content="
  {
  }

  lemma LocationIsACode(latitude: string, longitude: string, title: string, content: string)
    ensures PrintLocation(latitude, longitude, title, content)
         == PrintItem(Code(NAMES[0], FieldsOf(LocationValues(NAMES, latitude, longitude, title, content))))
  {
    LocationLabels();
    FourFields(NAMES[0], FieldsOf(LocationValues(NAMES, latitude, longitude, title, content)));
  }

  lemma ValuesReadBack(names: seq<string>, latitude: string, longitude: string, title: string, content: string)
    requires GoodNames(names)
    ensures ReadsBack(names[0], LocationValues(names, latitude, longitude, title, content))
       <==> Verbatim(latitude) && Verbatim(longitude)
  {
    var values := LocationValues(names, latitude, longitude, title, content);
    LocationKeys(names, latitude, longitude, title, content);
    ReadsBackIffFaithful(names[0], values);
    assert Faithful(values[0]) <==> Verbatim(latitude);
    assert Faithful(values[1]) <==> Verbatim(longitude);
    assert Faithful(values[2]) && Faithful(values[3]);
  }

  /** A location reads back to its four values exactly when both coordinates are verbatim. */
  lemma LocationReadsBackIffVerbatim(latitude: string, longitude: string, title: string, content: string)
    ensures Parse(PrintLocation(latitude, longitude, title, content))
            == Some([Segment(NAMES[0], TextMap(LocationValues(NAMES, latitude, longitude, title, content)))])
       <==> Verbatim(latitude) && Verbatim(longitude)
  {
    TheNamesAreGood();
    LocationIsACode(latitude, longitude, title, content);
    ValuesReadBack(NAMES, latitude, longitude, title, content);
  }

  // ---- a comma in a coordinate ----

  lemma {:induction false} CleanBeforeComma(a: string, b: string)
    requires ',' !in a && ']' !in a
    ensures Clean(a + "," + b) == a
  {
    var value := a + "," + b;
    if a != [] {
      assert value[0] == a[0] && a[0] in a;
      assert value[1..] == a[1..] + "," + b;
      CleanBeforeComma(a[1..], b);
    }
  }

  /** What is left of `"," + b + x` before its first closing bracket starts with `"," + b`. */
  lemma RestHasPiece(b: string, x: string, rest: string, after: string)
    requires ']' !in b && x != [] && x[0] == ',' && ("," + b) + x == rest + "]" + after
    ensures |rest| >= 1 + |b| && rest[1..] == b + x[..|rest| - 1 - |b|] && rest[0] == ','
    ensures Delimited(x[..|rest| - 1 - |b|])
  {
    var tail := ("," + b) + x;
    assert tail[|rest|] == ']';
    forall i | 0 <= i < 1 + |b| ensures tail[i] != ']' {
      if i > 0 {
        assert tail[i] == b[i - 1] && b[i - 1] in b;
      }
    }
    assert rest == tail[..|rest|];
  }

  lemma NoKeyNoField(data: map<string, string>, b: string)
    requires '=' !in b
    ensures AddField(data, b) == None
  {
    FindChar(b, '=');
  }

  lemma PieceWithoutKeyFails(fields: seq<Field>, b: string, more: seq<string>)
    requires PrintableFields(fields) && '=' !in b
    ensures AddFields(AddField, map[], Pieces(fields) + ([b] + more)) == None
  {
    PiecesAddUp(fields);
    AddFieldsConcat(AddField, map[], Pieces(fields), [b] + more);
    NoKeyNoField(DataOf(fields), b);
  }

  lemma BodyWithoutKeyFails(kind: string, fields: seq<Field>, b: string, y: string)
    requires ValidKind(kind) && PrintableFields(fields) && ',' !in b && '=' !in b && Delimited(y)
    ensures ParseCode(kind + PrintFields(fields) + ("," + (b + y))) == None
  {
    var rest := "," + (b + y);
    SplitBody(kind, fields, rest);
    assert rest[1..] == b + y;
    SplitHead(b, y);
    var pieces := Pieces(fields) + ([b] + MorePieces(y));
    assert ([kind] + pieces)[1..] == pieces;
    PieceWithoutKeyFails(fields, b, MorePieces(y));
  }

  lemma FailedCodeFailsTheMessage(body: string, after: string)
    requires ']' !in body && ParseCode(body) == None
    ensures Parse(Joined([], body, after)) == None
  {
    if Parse(Joined([], body, after)).Some? {
      FirstSegment(body, after);
    }
  }

  lemma CommaInTheMiddle(a: string, b: string)
    ensures (a + "," + b)[|a|..] == "," + b
  {
  }

  /** A comma in a value printed as it is, with no key behind it, makes the whole message unreadable. */
  lemma CommaRejectsTheMessage(kind: string, done: seq<Field>, key: string, a: string, b: string, x: string)
    requires ValidKind(kind) && PrintableFields(done + [Field(key, a)]) && ']' in x && x[0] == ','
    requires ',' !in a && ']' !in a && ',' !in b && ']' !in b && '=' !in b
    ensures Parse(Opening(kind, done, key, a + "," + b, x)) == None
  {
    var fields := done + [Field(key, a)];
    CleanBeforeComma(a, b);
    CommaInTheMiddle(a, b);
    var rest, after := OpeningEnds(kind, done, key, a + "," + b, x);
    RestHasPiece(b, x, rest, after);
    var y := x[..|rest| - 1 - |b|];
    assert rest == "," + (b + y);
    BodyWithoutKeyFails(kind, fields, b, y);
    FailedCodeFailsTheMessage(kind + PrintFields(fields) + rest, after);
  }

  lemma CommaInAField(kind: string, fields: seq<Field>, i: nat, a: string, b: string)
    requires ValidKind(kind) && i + 1 < |fields| && fields[i].raw == a + "," + b
    requires PrintableFields(fields[..i] + [Field(fields[i].key, a)])
    requires ',' !in a && ']' !in a && ',' !in b && ']' !in b && '=' !in b
    ensures Parse(PrintItem(Code(kind, fields))) == None
  {
    CodeOpensAt(kind, fields, i);
    AfterField(fields[i + 1..]);
    FieldsBegin(fields[i + 1..]);
    CommaRejectsTheMessage(kind, fields[..i], fields[i].key, a, b, PrintFields(fields[i + 1..]) + "]");
  }

  lemma CommaInACoordinate(names: seq<string>, latitude: string, longitude: string, title: string, content: string,
                           i: nat, a: string, b: string)
    requires GoodNames(names) && i < 2 && (if i == 0 then latitude else longitude) == a + "," + b
    requires i == 1 ==> ',' !in latitude && ']' !in latitude
    requires ',' !in a && ']' !in a && ',' !in b && ']' !in b && '=' !in b
    ensures var values := LocationValues(names, latitude, longitude, title, content);
            Parse(PrintItem(Code(names[0], FieldsOf(values)))) == None
  {
    var values := LocationValues(names, latitude, longitude, title, content);
    LocationKeys(names, latitude, longitude, title, content);
    assert PrintableKey(values[0].key) && PrintableKey(values[1].key) && values[0].key != values[1].key;
    CommaInAField(names[0], FieldsOf(values), i, a, b);
  }

  /**
   * A peer that writes a coordinate with a decimal comma makes the printed location unreadable as a whole; for
   * the longitude, unless a latitude with a delimiter of its own has ended its field before.
   */
  lemma DecimalCommaRejectsTheLocation(
    latitude: string, longitude: string, title: string, content: string, a: string, b: string)
    requires latitude == a + "," + b || (longitude == a + "," + b && ',' !in latitude && ']' !in latitude)
    requires ',' !in a && ']' !in a && ',' !in b && ']' !in b && '=' !in b
    ensures Parse(PrintLocation(latitude, longitude, title, content)) == None
  {
    TheNamesAreGood();
    LocationIsACode(latitude, longitude, title, content);
    CommaInACoordinate(
      NAMES, latitude, longitude, title, content, if latitude == a + "," + b then 0 else 1, a, b);
  }

  lemma FieldsBegin(fields: seq<Field>)
    requires fields != []
    ensures PrintFields(fields) != [] && (PrintFields(fields) + "]")[0] == ','
  {
  }

  /** Such a pair of coordinates, for one. */
  lemma OneTwoIsRejected(other: string, title: string, content: string)
    ensures Parse(PrintLocation("1,2", other, title, content)) == None
    ensures ',' !in other && ']' !in other ==> Parse(PrintLocation(other, "1,2", title, content)) == None
  {
    assert "1,2" == "1" + "," + "2";
    DecimalCommaRejectsTheLocation("1,2", other, title, content, "1", "2");
    if ',' !in other && ']' !in other {
      DecimalCommaRejectsTheLocation(other, "1,2", title, content, "1", "2");
    }
  }
}
