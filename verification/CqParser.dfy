/** The scanning parser of CQ strings and the printers it inverts. */
module CqParser {
  import opened Wrappers
  import opened CqText
  import opened Sequences
  import Utf8

  const MAX_SEGMENTS: nat := 256
  const MAX_KIND_BYTES: nat := 128
  const MARKER: string := "[CQ:"

  datatype ParseError = ParseError

  /** A segment; parsed data values are strings. */
  datatype Segment = Segment(kind: string, data: map<string, string>)

  function TextSegment(text: string): Segment {
    Segment("text", map["text" := text])
  }

  /** `str::find`. */
  function Find(s: string, pattern: string): (r: Option<nat>)
    ensures r.Some? ==> r.value + |pattern| <= |s| && s[r.value..r.value + |pattern|] == pattern
  {
    if pattern <= s then Some(0)
    else if s == [] then None
    else
      match Find(s[1..], pattern)
      case None => None
      case Some(i) => Some(i + 1)
  }

  /** `str::split` on one character. */
  function Split(s: string, c: char): (pieces: seq<string>)
    ensures pieces != []
  {
    if s == [] then [[]]
    else if s[0] == c then [[]] + Split(s[1..], c)
    else
      var rest := Split(s[1..], c);
      [[s[0]] + rest[0]] + rest[1..]
  }

  predicate ValidKind(kind: string) {
    && kind != [] && Utf8.Len(kind) <= MAX_KIND_BYTES && !Utf8.HasControl(kind)
    && ',' !in kind && '[' !in kind && ']' !in kind
  }

  predicate ValidKey(key: string) {
    key != [] && Utf8.Len(key) <= MAX_KIND_BYTES && !Utf8.HasControl(key) && ',' !in key
  }

  /** One `key=value` piece added to the data. */
  function AddField(data: map<string, string>, field: string): Option<map<string, string>> {
    match Find(field, "=")
    case None => None
    case Some(i) =>
      var key, value := field[..i], field[i + 1..];
      if !ValidKey(key) || key in data then None else Some(data[key := Unescape(value, true)])
  }

  type Adder = (map<string, string>, string) -> Option<map<string, string>>

  function AddFields(add: Adder, data: map<string, string>, fields: seq<string>): Option<map<string, string>>
    decreases |fields|
  {
    if fields == [] then Some(data)
    else
      match add(data, fields[0])
      case None => None
      case Some(next) => AddFields(add, next, fields[1..])
  }

  function ParseCode(input: string): Option<Segment> {
    var pieces := Split(input, ',');
    if !ValidKind(pieces[0]) then None
    else
      match AddFields(AddField, map[], pieces[1..])
      case None => None
      case Some(data) => Some(Segment(pieces[0], data))
  }

  /** How a stretch of input begins: no code, an unclosed one, or text, a code's body and the rest. */
  datatype Turn = Done | Unclosed | Found(before: string, body: string, rest: string)

  function NextTurn(remaining: string): (turn: Turn)
    ensures turn.Found? ==> |turn.rest| < |remaining|
  {
    match Find(remaining, MARKER)
    case None => Done
    case Some(start) =>
      var code := remaining[start + 4..];
      match Find(code, "]")
      case None => Unclosed
      case Some(end) => Found(remaining[..start], code[..end], code[end + 1..])
  }

  function TextBefore(segments: seq<Segment>, text: string): seq<Segment> {
    if text == [] then segments else segments + [TextSegment(Unescape(text, false))]
  }

  /** The readers the scan is built from. */
  type Turns = string -> Turn
  type Codes = string -> Option<Segment>

  /** The segments found from `remaining` on, after those found before it. */
  function Scan(next: Turns, parse: Codes, segments: seq<Segment>, remaining: string): Option<seq<Segment>>
    decreases |remaining|
  {
    match next(remaining)
    case Done => Some(TextBefore(segments, remaining))
    case Unclosed => None
    case Found(before, body, rest) =>
      match parse(body)
      case None => None
      case Some(segment) =>
        var found := TextBefore(segments, before) + [segment];
        if |found| > MAX_SEGMENTS || |rest| >= |remaining| then None else Scan(next, parse, found, rest)
  }

  predicate IsEmptyText(s: Segment) {
    s.kind == "text" && "text" in s.data && s.data["text"] == ""
  }

  function Retain(segments: seq<Segment>): seq<Segment> {
    if segments == [] then []
    else if IsEmptyText(segments[0]) then Retain(segments[1..])
    else [segments[0]] + Retain(segments[1..])
  }

  function Parse(input: string): Option<seq<Segment>> {
    match Scan(NextTurn, ParseCode, [], input)
    case None => None
    case Some(segments) => Some(Retain(segments))
  }

  // ---- the loops of the source ----

  /** `add` is `AddField`, under a name that keeps its definition out of the loop's proof. */
  ghost predicate Adds(add: Adder) {
    forall data: map<string, string>, field: string {:trigger AddField(data, field)} ::
      AddField(data, field) == add(data, field)
  }

  method ParseField(data: map<string, string>, field: string, ghost add: Adder)
    returns (r: Option<map<string, string>>)
    requires Adds(add)
    ensures r == add(data, field)
  {
    assert AddField(data, field) == add(data, field);
    var separator := Find(field, "=");
    if separator.None? {
      return None;
    }
    var key, value := field[..separator.value], field[separator.value + 1..];
    if !ValidKey(key) || key in data {
      return None;
    }
    r := Some(data[key := Unescape(value, true)]);
  }

  method ParseFields(fields: seq<string>, ghost add: Adder) returns (r: Option<map<string, string>>)
    requires Adds(add)
    ensures r == AddFields(add, map[], fields)
  {
    var data: map<string, string> := map[];
    var i := 0;
    assert fields[0..] == fields;
    while i < |fields|
      invariant 0 <= i <= |fields|
      invariant AddFields(add, data, fields[i..]) == AddFields(add, map[], fields)
    {
      assert fields[i..][0] == fields[i] && fields[i..][1..] == fields[i + 1..];
      var next := ParseField(data, fields[i], add);
      if next.None? {
        return None;
      }
      data := next.value;
      i := i + 1;
    }
    r := Some(data);
  }

  method ParseCqCode(input: string) returns (r: Result<Segment, ParseError>)
    ensures r.Ok? <==> ParseCode(input).Some?
    ensures r.Ok? ==> ParseCode(input) == Some(r.value)
  {
    var fields := Split(input, ',');
    var kind := fields[0];
    if !ValidKind(kind) {
      return Err(ParseError.ParseError);
    }
    var data := ParseFields(fields[1..], AddField);
    r := if data.Some? then Ok(Segment(kind, data.value)) else Err(ParseError.ParseError);
  }

  method ParseCq(input: string) returns (r: Result<seq<Segment>, ParseError>)
    ensures r.Ok? <==> Parse(input).Some?
    ensures r.Ok? ==> Parse(input) == Some(r.value)
  {
    var segments: seq<Segment> := [];
    var remaining := input;
    var start := Find(remaining, MARKER);
    while start.Some?
      invariant start == Find(remaining, MARKER)
      invariant Scan(NextTurn, ParseCode, segments, remaining) == Scan(NextTurn, ParseCode, [], input)
      decreases |remaining|
    {
      if start.value != 0 {
        segments := segments + [TextSegment(Unescape(remaining[..start.value], false))];
      }
      var code := remaining[start.value + 4..];
      var end := Find(code, "]");
      if end.None? {
        return Err(ParseError.ParseError);
      }
      var segment := ParseCqCode(code[..end.value]);
      if segment.Err? {
        return Err(ParseError.ParseError);
      }
      segments := segments + [segment.value];
      remaining := code[end.value + 1..];
      if |segments| > MAX_SEGMENTS {
        return Err(ParseError.ParseError);
      }
      start := Find(remaining, MARKER);
    }
    if remaining != [] {
      segments := segments + [TextSegment(Unescape(remaining, false))];
    }
    r := Ok(Retain(segments));
  }

  // ---- printing ----

  /** A key and the text printed for its value. */
  datatype Field = Field(key: string, raw: string)

  /** A code with its fields in order, or raw text between codes. */
  datatype Item = Code(kind: string, fields: seq<Field>) | Text(raw: string)

  function Piece(f: Field): string {
    f.key + "=" + f.raw
  }

  function PrintFields(fields: seq<Field>): string {
    if fields == [] then [] else "," + (Piece(fields[0]) + PrintFields(fields[1..]))
  }

  function PrintItem(item: Item): string {
    match item
    case Code(kind, fields) => MARKER + (kind + PrintFields(fields)) + "]"
    case Text(raw) => raw
  }

  function Print(items: seq<Item>): string {
    if items == [] then [] else PrintItem(items[0]) + Print(items[1..])
  }

  function DataOf(fields: seq<Field>): map<string, string> {
    if fields == [] then map[]
    else DataOf(fields[..|fields| - 1])[fields[|fields| - 1].key := Unescape(fields[|fields| - 1].raw, true)]
  }

  function SegmentOf(item: Item): Segment {
    match item
    case Code(kind, fields) => Segment(kind, DataOf(fields))
    case Text(raw) => TextSegment(Unescape(raw, false))
  }

  function SegmentsOf(items: seq<Item>): (segments: seq<Segment>)
    ensures |segments| == |items|
  {
    if items == [] then [] else [SegmentOf(items[0])] + SegmentsOf(items[1..])
  }

  /** A field the parser can tell from its neighbours. */
  predicate PrintableField(f: Field) {
    ValidKey(f.key) && '=' !in f.key && ']' !in f.key && ',' !in f.raw && ']' !in f.raw
  }

  ghost predicate DistinctKeys(fields: seq<Field>) {
    forall i, j :: 0 <= i < j < |fields| ==> fields[i].key != fields[j].key
  }

  ghost predicate PrintableFields(fields: seq<Field>) {
    (forall i :: 0 <= i < |fields| ==> PrintableField(fields[i])) && DistinctKeys(fields)
  }

  ghost predicate PrintableItem(item: Item) {
    match item
    case Code(kind, fields) => ValidKind(kind) && PrintableFields(fields)
    case Text(raw) => raw != [] && !Occurs(MARKER, raw)
  }

  /** Text never follows text: the parser could not tell the two apart. */
  ghost predicate PrintableItems(items: seq<Item>) {
    && (forall i :: 0 <= i < |items| ==> PrintableItem(items[i]))
    && forall i :: 0 <= i < |items| - 1 ==> items[i].Code? || items[i + 1].Code?
  }

  // ---- searching in concatenations ----

  lemma {:induction false} FindAbsent(s: string, pattern: string)
    requires pattern != []
    ensures Find(s, pattern).None? <==> !Occurs(pattern, s)
  {
    assert s[0..] == s;
    if !(pattern <= s) && s != [] {
      FindAbsent(s[1..], pattern);
      if Occurs(pattern, s) {
        var i :| 0 <= i <= |s| && pattern <= s[i..];
        assert s[i..] == s[1..][i - 1..];
      }
      if Occurs(pattern, s[1..]) {
        var i :| 0 <= i <= |s[1..]| && pattern <= s[1..][i..];
        assert s[1..][i..] == s[i + 1..];
      }
    }
  }

  /** A single character is found right after a stretch that lacks it. */
  lemma {:induction false} FindAfter(t: string, c: char, rest: string)
    requires c !in t
    ensures Find(t + [c] + rest, [c]) == Some(|t|)
  {
    var s := t + [c] + rest;
    if t != [] {
      assert s[0] == t[0] && t[0] in t;
      assert s[1..] == t[1..] + [c] + rest;
      FindAfter(t[1..], c, rest);
    }
  }

  lemma {:induction false} FindChar(s: string, c: char)
    ensures c in s ==> Find(s, [c]).Some?
    ensures Find(s, [c]).Some? ==> s[Find(s, [c]).value] == c && c !in s[..Find(s, [c]).value]
  {
    if s != [] && s[0] != c {
      FindChar(s[1..], c);
      assert s == [s[0]] + s[1..];
      if Find(s[1..], [c]).Some? {
        var i := Find(s[1..], [c]).value;
        assert s[..i + 1] == [s[0]] + s[1..][..i];
      }
    }
  }

  /** The marker does not begin inside a text that lacks it: it cannot overlap itself. */
  lemma NoMarkerAtHead(t: string, rest: string)
    requires t != [] && !Occurs(MARKER, t)
    ensures !(MARKER <= t + MARKER + rest)
  {
    var s := t + MARKER + rest;
    if |t| >= 4 {
      assert t[0..] == t;
      assert !(MARKER <= t[0..]);
      assert s[..4] == t[..4];
    } else {
      assert s[|t|] == MARKER[0] && MARKER[|t|] != MARKER[0];
    }
  }

  /** The marker is found right after a text that lacks it. */
  lemma {:induction false} FindMarkerAfter(t: string, rest: string)
    requires !Occurs(MARKER, t)
    ensures Find(t + MARKER + rest, MARKER) == Some(|t|)
  {
    var s := t + MARKER + rest;
    if t == [] {
      assert s == MARKER + rest;
    } else {
      NoMarkerAtHead(t, rest);
      assert s[1..] == t[1..] + MARKER + rest;
      forall i | 0 <= i <= |t[1..]| ensures !(MARKER <= t[1..][i..]) {
        assert t[1..][i..] == t[i + 1..];
      }
      FindMarkerAfter(t[1..], rest);
    }
  }

  lemma {:induction false} SplitWhole(t: string, c: char)
    requires c !in t
    ensures Split(t, c) == [t]
  {
    if t != [] {
      assert t[0] in t;
      SplitWhole(t[1..], c);
      assert t == [t[0]] + t[1..];
    }
  }

  lemma {:induction false} SplitFirst(t: string, c: char, rest: string)
    requires c !in t
    ensures Split(t + [c] + rest, c) == [t] + Split(rest, c)
  {
    var s := t + [c] + rest;
    if t == [] {
      assert s[1..] == rest;
    } else {
      assert s[0] == t[0] && t[0] in t;
      assert s[1..] == t[1..] + [c] + rest;
      SplitFirst(t[1..], c, rest);
      assert t == [t[0]] + t[1..];
    }
  }

  // ---- one code ----

  function Pieces(fields: seq<Field>): (p: seq<string>)
    ensures |p| == |fields|
  {
    if fields == [] then [] else [Piece(fields[0])] + Pieces(fields[1..])
  }

  lemma PieceHasNoComma(f: Field)
    requires PrintableField(f)
    ensures ',' !in Piece(f) && ']' !in Piece(f)
  {
  }

  lemma JoinFirst(head: string, rest: string, fields: seq<Field>)
    requires fields != [] && rest == Piece(fields[0]) + PrintFields(fields[1..])
    ensures head + PrintFields(fields) == head + [','] + rest
  {
  }

  /** The printed body splits into the kind and the printed fields. */
  lemma {:induction false} SplitPrinted(head: string, fields: seq<Field>)
    requires ',' !in head && PrintableFields(fields)
    ensures Split(head + PrintFields(fields), ',') == [head] + Pieces(fields)
    decreases |fields|
  {
    if fields == [] {
      assert head + [] == head;
      SplitWhole(head, ',');
    } else {
      var piece := Piece(fields[0]);
      PieceHasNoComma(fields[0]);
      SplitPrinted(piece, fields[1..]);
      SplitFirst(head, ',', piece + PrintFields(fields[1..]));
      JoinFirst(head, piece + PrintFields(fields[1..]), fields);
    }
  }

  lemma AddPrintedField(data: map<string, string>, f: Field)
    requires PrintableField(f) && f.key !in data
    ensures AddField(data, Piece(f)) == Some(data[f.key := Unescape(f.raw, true)])
  {
    assert Piece(f) == f.key + ['='] + f.raw;
    FindAfter(f.key, '=', f.raw);
    assert Piece(f)[..|f.key|] == f.key && Piece(f)[|f.key| + 1..] == f.raw;
  }

  lemma {:induction false} DataKeys(fields: seq<Field>, key: string)
    ensures key in DataOf(fields) <==> exists i :: 0 <= i < |fields| && fields[i].key == key
  {
    if fields != [] {
      var front := fields[..|fields| - 1];
      DataKeys(front, key);
      assert forall i :: 0 <= i < |front| ==> front[i] == fields[i];
    }
  }

  lemma DataOfMore(done: seq<Field>, f: Field)
    requires forall i :: 0 <= i < |done| ==> done[i].key != f.key
    ensures f.key !in DataOf(done) && DataOf(done + [f]) == DataOf(done)[f.key := Unescape(f.raw, true)]
  {
    DataKeys(done, f.key);
    assert (done + [f])[..|done|] == done;
  }

  /** What adding an acceptable field has to do for the pieces to add up to the data. */
  ghost predicate AddsPieces(add: Adder, ok: Field -> bool) {
    forall data: map<string, string>, f: Field {:trigger add(data, Piece(f))} ::
      ok(f) && f.key !in data ==> add(data, Piece(f)) == Some(data[f.key := Unescape(f.raw, true)])
  }

  lemma {:induction false} AddPrintedFields(add: Adder, ok: Field -> bool, done: seq<Field>, rest: seq<Field>)
    requires AddsPieces(add, ok) && DistinctKeys(done + rest)
    requires forall i :: 0 <= i < |rest| ==> ok(rest[i])
    ensures AddFields(add, DataOf(done), Pieces(rest)) == Some(DataOf(done + rest))
    decreases |rest|
  {
    if rest == [] {
      assert done + rest == done;
    } else {
      var f := rest[0];
      assert (done + rest)[|done|] == f;
      assert forall i :: 0 <= i < |done| ==> done[i] == (done + rest)[i];
      DataOfMore(done, f);
      assert done + [f] + rest[1..] == done + rest;
      AddPrintedFields(add, ok, done + [f], rest[1..]);
      assert Pieces(rest)[1..] == Pieces(rest[1..]);
    }
  }

  lemma PiecesAddUp(fields: seq<Field>)
    requires PrintableFields(fields)
    ensures AddFields(AddField, map[], Pieces(fields)) == Some(DataOf(fields))
  {
    forall data: map<string, string>, f: Field | PrintableField(f) && f.key !in data
      ensures AddField(data, Piece(f)) == Some(data[f.key := Unescape(f.raw, true)])
    {
      AddPrintedField(data, f);
    }
    assert [] + fields == fields;
    AddPrintedFields(AddField, PrintableField, [], fields);
  }

  lemma CodeParses(kind: string, fields: seq<Field>)
    requires ValidKind(kind) && PrintableFields(fields)
    ensures ParseCode(kind + PrintFields(fields)) == Some(Segment(kind, DataOf(fields)))
  {
    SplitPrinted(kind, fields);
    assert ([kind] + Pieces(fields))[1..] == Pieces(fields);
    PiecesAddUp(fields);
  }

  lemma {:induction false} FieldsLackBracket(fields: seq<Field>)
    requires PrintableFields(fields)
    ensures ']' !in PrintFields(fields)
  {
    if fields != [] {
      PieceHasNoComma(fields[0]);
      FieldsLackBracket(fields[1..]);
    }
  }

  // ---- whole messages ----

  /** A text, a code with this body, and what follows. */
  function Joined(t: string, body: string, rest: string): string {
    t + (MARKER + body + "]" + rest)
  }

  lemma Layout(t: string, body: string, rest: string)
    requires !Occurs(MARKER, t) && ']' !in body
    ensures NextTurn(Joined(t, body, rest)) == Found(t, body, rest)
  {
    var remaining := Joined(t, body, rest);
    var tail := body + [']'] + rest;
    assert remaining == t + MARKER + tail;
    FindMarkerAfter(t, tail);
    assert remaining[..|t|] == t && remaining[|t| + 4..] == tail;
    FindAfter(body, ']', rest);
    assert tail[..|body|] == body && tail[|body| + 1..] == rest;
  }

  function Body(kind: string, fields: seq<Field>): string {
    kind + PrintFields(fields)
  }

  /** What the two readers have to do for the scan to invert printing. */
  ghost predicate ReadTurns(next: Turns) {
    && (forall t, body, rest {:trigger Joined(t, body, rest)} ::
          !Occurs(MARKER, t) && ']' !in body ==> next(Joined(t, body, rest)) == Found(t, body, rest))
    && (forall t {:trigger next(t)} :: !Occurs(MARKER, t) ==> next(t) == Done)
  }

  ghost predicate ReadCodes(parse: Codes) {
    forall kind, fields {:trigger Body(kind, fields)} ::
      ValidKind(kind) && PrintableFields(fields) ==>
        parse(Body(kind, fields)) == Some(Segment(kind, DataOf(fields))) && ']' !in Body(kind, fields)
  }

  lemma TheReadersRead()
    ensures ReadTurns(NextTurn) && ReadCodes(ParseCode)
  {
    forall t, body, rest | !Occurs(MARKER, t) && ']' !in body
      ensures NextTurn(Joined(t, body, rest)) == Found(t, body, rest)
    {
      Layout(t, body, rest);
    }
    forall t | !Occurs(MARKER, t) ensures NextTurn(t) == Done {
      FindAbsent(t, MARKER);
    }
    forall kind, fields | ValidKind(kind) && PrintableFields(fields)
      ensures ParseCode(Body(kind, fields)) == Some(Segment(kind, DataOf(fields))) && ']' !in Body(kind, fields)
    {
      CodeParses(kind, fields);
      FieldsLackBracket(fields);
    }
  }

  /** Scanning past a possibly empty text and the code after it. */
  lemma ScanTextCode(next: Turns, parse: Codes, segments: seq<Segment>, t: string, kind: string, fields: seq<Field>,
                     rest: string)
    requires ReadTurns(next) && ReadCodes(parse)
    requires !Occurs(MARKER, t) && ValidKind(kind) && PrintableFields(fields)
    requires |TextBefore(segments, t)| < MAX_SEGMENTS
    ensures Scan(next, parse, segments, t + (PrintItem(Code(kind, fields)) + rest))
         == Scan(next, parse, TextBefore(segments, t) + [Segment(kind, DataOf(fields))], rest)
  {
    var body := Body(kind, fields);
    assert t + (PrintItem(Code(kind, fields)) + rest) == Joined(t, body, rest);
    assert next(Joined(t, body, rest)) == Found(t, body, rest);
  }

  predicate EndsInCode(items: seq<Item>) {
    items == [] || items[|items| - 1].Code?
  }

  /** Scanning past printed items that end in a code, whatever follows. */
  lemma {:induction false} ScanPast(next: Turns, parse: Codes, segments: seq<Segment>, items: seq<Item>, tail: string)
    requires ReadTurns(next) && ReadCodes(parse)
    requires PrintableItems(items) && EndsInCode(items) && |segments| + |items| <= MAX_SEGMENTS
    ensures Scan(next, parse, segments, Print(items) + tail)
         == Scan(next, parse, segments + SegmentsOf(items), tail)
    decreases |items|
  {
    if items == [] {
      assert [] + tail == tail && segments + [] == segments;
    } else if items[0].Code? {
      assert PrintableItem(items[0]);
      NoMarkerInNothing();
      var rest := Print(items[1..]) + tail;
      ScanTextCode(next, parse, segments, [], items[0].kind, items[0].fields, rest);
      assert [] + (PrintItem(items[0]) + rest) == Print(items) + tail;
      ScanPast(next, parse, segments + [SegmentOf(items[0])], items[1..], tail);
      AppendFirst(segments, items);
    } else {
      ScanPastText(next, parse, segments, items, tail);
    }
  }

  lemma TailLast(t: string, code: string, printed: string, tail: string)
    ensures t + (code + printed) + tail == t + (code + (printed + tail))
  {
  }

  lemma ScanPastText(next: Turns, parse: Codes, segments: seq<Segment>, items: seq<Item>, tail: string)
    requires ReadTurns(next) && ReadCodes(parse)
    requires PrintableItems(items) && EndsInCode(items) && |segments| + |items| <= MAX_SEGMENTS
    requires items != [] && items[0].Text?
    ensures Scan(next, parse, segments, Print(items) + tail)
         == Scan(next, parse, segments + SegmentsOf(items), tail)
    decreases |items|, 0
  {
    assert PrintableItem(items[0]) && |items| > 1 && PrintableItem(items[1]) && items[1].Code?;
    var t, code := items[0].raw, items[1];
    var rest := Print(items[2..]) + tail;
    assert items[1..][0] == code && items[1..][1..] == items[2..];
    ScanTextCode(next, parse, segments, t, code.kind, code.fields, rest);
    TailLast(t, PrintItem(code), Print(items[2..]), tail);
    assert PrintableItems(items[2..]);
    ScanPast(next, parse, segments + [SegmentOf(items[0])] + [SegmentOf(code)], items[2..], tail);
    AppendFirst(segments, items);
    AppendFirst(segments + [SegmentOf(items[0])], items[1..]);
  }

  lemma ScanLastText(next: Turns, parse: Codes, segments: seq<Segment>, t: string)
    requires ReadTurns(next) && t != [] && !Occurs(MARKER, t)
    ensures Scan(next, parse, segments, t) == Some(segments + [SegmentOf(Text(t))])
  {
    assert next(t) == Done;
  }

  lemma NoMarkerInNothing()
    ensures !Occurs(MARKER, [])
  {
  }

  lemma AppendFirst(segments: seq<Segment>, items: seq<Item>)
    requires items != []
    ensures segments + [SegmentOf(items[0])] + SegmentsOf(items[1..]) == segments + SegmentsOf(items)
  {
  }

  lemma {:induction false} PrintBoth(a: seq<Item>, b: seq<Item>)
    ensures Print(a + b) == Print(a) + Print(b)
  {
    if a == [] {
      assert a + b == b;
    } else {
      assert (a + b)[1..] == a[1..] + b;
      PrintBoth(a[1..], b);
      Regroup(PrintItem(a[0]), Print(a[1..]), Print(b));
    }
  }

  lemma {:induction false} SegmentsAppend(items: seq<Item>, item: Item)
    ensures SegmentsOf(items + [item]) == SegmentsOf(items) + [SegmentOf(item)]
  {
    if items == [] {
      assert [item][1..] == [] && [] + [item] == [item];
    } else {
      assert (items + [item])[1..] == items[1..] + [item];
      SegmentsAppend(items[1..], item);
      Regroup([SegmentOf(items[0])], SegmentsOf(items[1..]), [SegmentOf(item)]);
    }
  }

  lemma ScanPrinted(next: Turns, parse: Codes, items: seq<Item>)
    requires ReadTurns(next) && ReadCodes(parse) && PrintableItems(items) && Fits(items)
    ensures Scan(next, parse, [], Print(items)) == Some(SegmentsOf(items))
  {
    if EndsInCode(items) {
      ScanPast(next, parse, [], items, []);
      NoMarkerInNothing();
      assert next([]) == Done;
      assert Print(items) + [] == Print(items) && [] + SegmentsOf(items) == SegmentsOf(items);
    } else {
      var front, last := items[..|items| - 1], items[|items| - 1];
      assert items == front + [last] && PrintableItem(last);
      ScanTextLast(next, parse, front, last.raw);
    }
  }

  lemma FrontIsPrintable(front: seq<Item>, t: string)
    requires PrintableItems(front + [Text(t)])
    ensures PrintableItems(front) && EndsInCode(front) && t != [] && !Occurs(MARKER, t)
  {
    var items := front + [Text(t)];
    assert PrintableItem(items[|front|]);
    assert forall i :: 0 <= i < |front| ==> front[i] == items[i];
  }

  lemma ScanTextLast(next: Turns, parse: Codes, front: seq<Item>, t: string)
    requires ReadTurns(next) && ReadCodes(parse) && |front| <= MAX_SEGMENTS
    requires PrintableItems(front + [Text(t)])
    ensures Scan(next, parse, [], Print(front + [Text(t)])) == Some(SegmentsOf(front + [Text(t)]))
  {
    FrontIsPrintable(front, t);
    PrintBoth(front, [Text(t)]);
    PrintOne(Text(t));
    SegmentsAppend(front, Text(t));
    ScanPast(next, parse, [], front, t);
    assert [] + SegmentsOf(front) == SegmentsOf(front);
    ScanLastText(next, parse, SegmentsOf(front), t);
  }

  // ---- too many segments ----

  /** Only a code is refused for coming too late: text may follow the last of 256 segments. */
  predicate Fits(items: seq<Item>) {
    |items| <= MAX_SEGMENTS || (|items| == MAX_SEGMENTS + 1 && !EndsInCode(items))
  }

  /** A code behind 256 segments. */
  lemma ScanFull(next: Turns, parse: Codes, segments: seq<Segment>, t: string, kind: string, fields: seq<Field>,
                 rest: string)
    requires ReadTurns(next) && ReadCodes(parse)
    requires !Occurs(MARKER, t) && ValidKind(kind) && PrintableFields(fields)
    requires |TextBefore(segments, t)| >= MAX_SEGMENTS
    ensures Scan(next, parse, segments, t + (PrintItem(Code(kind, fields)) + rest)).None?
  {
    var body := Body(kind, fields);
    assert t + (PrintItem(Code(kind, fields)) + rest) == Joined(t, body, rest);
    assert next(Joined(t, body, rest)) == Found(t, body, rest);
  }

  /** The items up to the first code that comes too late, and what is printed from there on. */
  lemma TooManyFails(next: Turns, parse: Codes, items: seq<Item>)
    requires ReadTurns(next) && ReadCodes(parse) && PrintableItems(items) && !Fits(items)
    ensures Scan(next, parse, [], Print(items)).None?
  {
    var k := if items[MAX_SEGMENTS - 1].Code? then MAX_SEGMENTS else MAX_SEGMENTS - 1;
    var front, back := items[..k], items[k..];
    assert PrintableItems(front) && PrintableItems(back) && items == front + back;
    assert items[k - 1].Code? && EndsInCode(front);
    PrintBoth(front, back);
    LateCodeFails(next, parse, front, back);
  }

  lemma LateCodeFails(next: Turns, parse: Codes, front: seq<Item>, back: seq<Item>)
    requires ReadTurns(next) && ReadCodes(parse) && PrintableItems(front) && PrintableItems(back) && back != []
    requires EndsInCode(front) && |front| <= MAX_SEGMENTS && (|back| > 1 || back[0].Code?)
    requires |front| >= if back[0].Code? then MAX_SEGMENTS else MAX_SEGMENTS - 1
    ensures Scan(next, parse, [], Print(front) + Print(back)).None?
  {
    ScanPast(next, parse, [], front, Print(back));
    assert [] + SegmentsOf(front) == SegmentsOf(front);
    assert PrintableItem(back[0]);
    if back[0].Code? {
      NoMarkerInNothing();
      ScanFull(next, parse, SegmentsOf(front), [], back[0].kind, back[0].fields, Print(back[1..]));
      assert [] + Print(back) == Print(back);
    } else {
      assert |back| > 1 && PrintableItem(back[1]) && back[1].Code?;
      assert back[1..][0] == back[1] && back[1..][1..] == back[2..];
      ScanFull(next, parse, SegmentsOf(front), back[0].raw, back[1].kind, back[1].fields, Print(back[2..]));
    }
  }

  /** A printable message parses back to exactly its segments, empty texts dropped, if it is not too long; else not. */
  lemma ParseOfPrint(items: seq<Item>)
    requires PrintableItems(items)
    ensures Parse(Print(items)) == if Fits(items) then Some(Retain(SegmentsOf(items))) else None
  {
    TheReadersRead();
    if Fits(items) {
      ScanPrinted(NextTurn, ParseCode, items);
    } else {
      TooManyFails(NextTurn, ParseCode, items);
    }
  }

  // ---- codes that cannot be read ----

  /** One code that is not closed or cannot be read fails the whole message, whatever comes before or after it. */
  lemma BrokenCodeFailsTheMessage(items: seq<Item>, t: string, body: string, rest: string)
    requires PrintableItems(items) && EndsInCode(items) && |items| <= MAX_SEGMENTS
    requires !Occurs(MARKER, t) && ']' !in body
    ensures Parse(Print(items) + (t + (MARKER + body))).None?
    ensures ParseCode(body).None? ==> Parse(Print(items) + Joined(t, body, rest)).None?
  {
    TheReadersRead();
    UnclosedTurn(t, body);
    ScanBroken(NextTurn, ParseCode, items, t + (MARKER + body));
    if ParseCode(body).None? {
      assert NextTurn(Joined(t, body, rest)) == Found(t, body, rest);
      ScanBroken(NextTurn, ParseCode, items, Joined(t, body, rest));
    }
  }

  lemma UnclosedTurn(t: string, body: string)
    requires !Occurs(MARKER, t) && ']' !in body
    ensures NextTurn(t + (MARKER + body)) == Unclosed
  {
    var open := t + (MARKER + body);
    assert open == t + MARKER + body;
    FindMarkerAfter(t, body);
    assert open[|t| + 4..] == body;
    FindChar(body, ']');
  }

  lemma ScanBroken(next: Turns, parse: Codes, items: seq<Item>, tail: string)
    requires ReadTurns(next) && ReadCodes(parse)
    requires PrintableItems(items) && EndsInCode(items) && |items| <= MAX_SEGMENTS
    requires next(tail).Unclosed? || (next(tail).Found? && parse(next(tail).body).None?)
    ensures Scan(next, parse, [], Print(items) + tail).None?
  {
    ScanPast(next, parse, [], items, tail);
  }

  /** A `key=value` piece with a key that may stand. */
  predicate GoodPiece(piece: string) {
    Find(piece, "=").Some? && ValidKey(KeyOf(piece))
  }

  /** What comes before the first equals sign. */
  function KeyOf(piece: string): string {
    match Find(piece, "=")
    case None => piece
    case Some(i) => piece[..i]
  }

  ghost predicate GoodPieces(pieces: seq<string>) {
    && (forall i :: 0 <= i < |pieces| ==> GoodPiece(pieces[i]))
    && forall i, j :: 0 <= i < j < |pieces| ==> KeyOf(pieces[i]) != KeyOf(pieces[j])
  }

  lemma {:induction false} PiecesReadIff(data: map<string, string>, pieces: seq<string>)
    ensures AddFields(AddField, data, pieces).Some?
       <==> GoodPieces(pieces) && forall i :: 0 <= i < |pieces| ==> KeyOf(pieces[i]) !in data
    decreases |pieces|
  {
    if pieces != [] {
      var rest := pieces[1..];
      assert forall i :: 1 <= i < |pieces| ==> pieces[i] == rest[i - 1];
      match AddField(data, pieces[0])
      case None =>
      case Some(next) =>
        PiecesReadIff(next, rest);
        assert next.Keys == data.Keys + {KeyOf(pieces[0])};
        PiecesSplit(data, pieces);
    }
  }

  lemma PiecesSplit(data: map<string, string>, pieces: seq<string>)
    requires pieces != []
    ensures GoodPieces(pieces) && (forall i :: 0 <= i < |pieces| ==> KeyOf(pieces[i]) !in data)
       <==> && GoodPiece(pieces[0]) && KeyOf(pieces[0]) !in data && GoodPieces(pieces[1..])
            && forall i :: 0 <= i < |pieces[1..]| ==>
                 KeyOf(pieces[1..][i]) !in data && KeyOf(pieces[1..][i]) != KeyOf(pieces[0])
  {
    assert forall i :: 0 <= i < |pieces[1..]| ==> pieces[1..][i] == pieces[i + 1];
  }

  /** A code is read exactly if its kind may stand, every other piece has a key that may, and no key comes twice. */
  lemma CodeReadsIff(body: string)
    ensures var pieces := Split(body, ',');
            && (ParseCode(body).Some? <==> ValidKind(pieces[0]) && GoodPieces(pieces[1..]))
            && (ParseCode(body).Some? ==> ParseCode(body).value.kind == pieces[0])
  {
    PiecesReadIff(map[], Split(body, ',')[1..]);
  }

  /** One printed code parses to its kind and data, unless it is a text segment with empty text. */
  lemma ParseOfOneCode(kind: string, fields: seq<Field>)
    requires ValidKind(kind) && PrintableFields(fields)
    ensures var segment := Segment(kind, DataOf(fields));
            Parse(PrintItem(Code(kind, fields))) == Some(if IsEmptyText(segment) then [] else [segment])
  {
    var items := [Code(kind, fields)];
    assert PrintableItem(items[0]);
    PrintOne(items[0]);
    ParseOfPrint(items);
    var segment := SegmentOf(items[0]);
    assert SegmentsOf(items) == [segment] + SegmentsOf([]);
    assert [segment] + [] == [segment];
    RetainOne(segment);
  }

  // ---- escaped values ----

  datatype Entry = Entry(key: string, value: string)

  predicate PrintableKey(key: string) {
    ValidKey(key) && '=' !in key && ']' !in key
  }

  /** Each value printed in escaped form. */
  function EscapedFields(entries: seq<Entry>): (fields: seq<Field>)
    ensures |fields| == |entries|
    ensures forall i :: 0 <= i < |entries| ==> fields[i] == Field(entries[i].key, EscapeParameter(entries[i].value))
  {
    seq(|entries|, i requires 0 <= i < |entries| => Field(entries[i].key, EscapeParameter(entries[i].value)))
  }

  function EntryMap(entries: seq<Entry>): map<string, string> {
    if entries == [] then map[]
    else EntryMap(entries[..|entries| - 1])[entries[|entries| - 1].key := entries[|entries| - 1].value]
  }

  lemma {:induction false} EscapedData(entries: seq<Entry>)
    ensures DataOf(EscapedFields(entries)) == EntryMap(entries)
  {
    if entries != [] {
      var front := entries[..|entries| - 1];
      EscapedData(front);
      assert EscapedFields(entries)[..|front|] == EscapedFields(front);
      UnescapeOfEscape(entries[|front|].value);
    }
  }

  /** A code with escaped values parses back to its kind and those very values, whatever they are. */
  lemma {:induction false} ParseOfEscapedCode(kind: string, entries: seq<Entry>)
    requires ValidKind(kind) && forall i :: 0 <= i < |entries| ==> PrintableKey(entries[i].key)
    requires forall i, j :: 0 <= i < j < |entries| ==> entries[i].key != entries[j].key
    ensures var segment := Segment(kind, EntryMap(entries));
            Parse(PrintItem(Code(kind, EscapedFields(entries)))) == Some(if IsEmptyText(segment) then [] else [segment])
  {
    forall i | 0 <= i < |entries| ensures PrintableField(EscapedFields(entries)[i]) {
      EscapedIsDelimiterFree(entries[i].value);
    }
    EscapedData(entries);
    ParseOfOneCode(kind, EscapedFields(entries));
  }

  // ---- whole messages of escaped parts ----

  /** What a sender has to say: text, or a code with values; both escaped on the wire. */
  datatype Part = Said(text: string) | Coded(kind: string, entries: seq<Entry>)

  function ItemOf(part: Part): Item {
    match part
    case Said(text) => Text(EscapeText(text))
    case Coded(kind, entries) => Code(kind, EscapedFields(entries))
  }

  function ItemsOf(parts: seq<Part>): (items: seq<Item>)
    ensures |items| == |parts| && forall i :: 0 <= i < |parts| ==> items[i] == ItemOf(parts[i])
  {
    seq(|parts|, i requires 0 <= i < |parts| => ItemOf(parts[i]))
  }

  function SegmentOfPart(part: Part): Segment {
    match part
    case Said(text) => TextSegment(text)
    case Coded(kind, entries) => Segment(kind, EntryMap(entries))
  }

  function SegmentsOfParts(parts: seq<Part>): (segments: seq<Segment>)
    ensures |segments| == |parts| && forall i :: 0 <= i < |parts| ==> segments[i] == SegmentOfPart(parts[i])
  {
    seq(|parts|, i requires 0 <= i < |parts| => SegmentOfPart(parts[i]))
  }

  ghost predicate SayablePart(part: Part) {
    match part
    case Said(text) => text != []
    case Coded(kind, entries) =>
      && ValidKind(kind)
      && (forall i :: 0 <= i < |entries| ==> PrintableKey(entries[i].key))
      && forall i, j :: 0 <= i < j < |entries| ==> entries[i].key != entries[j].key
  }

  ghost predicate Sayable(parts: seq<Part>) {
    && (forall i :: 0 <= i < |parts| ==> SayablePart(parts[i]))
    && forall i :: 0 <= i < |parts| - 1 ==> parts[i].Coded? || parts[i + 1].Coded?
  }

  lemma PartPrints(part: Part)
    requires SayablePart(part)
    ensures PrintableItem(ItemOf(part)) && SegmentOf(ItemOf(part)) == SegmentOfPart(part)
  {
    match part
    case Said(text) =>
      EscapedTextHasNoBracket(text);
      UnescapeOfEscapedText(text);
      NoBracketNoMarker(EscapeText(text));
    case Coded(kind, entries) =>
      forall i | 0 <= i < |entries| ensures PrintableField(EscapedFields(entries)[i]) {
        EscapedIsDelimiterFree(entries[i].value);
      }
      EscapedData(entries);
  }

  lemma NoBracketNoMarker(t: string)
    requires '[' !in t
    ensures !Occurs(MARKER, t)
  {
    forall i | 0 <= i <= |t| ensures !(MARKER <= t[i..]) {
      if i < |t| {
        assert t[i..][0] == t[i] && t[i] in t;
      }
    }
  }

  lemma {:induction false} SegmentsOfItems(parts: seq<Part>)
    requires forall i :: 0 <= i < |parts| ==> SayablePart(parts[i])
    ensures SegmentsOf(ItemsOf(parts)) == SegmentsOfParts(parts)
  {
    if parts != [] {
      PartPrints(parts[0]);
      assert ItemsOf(parts)[1..] == ItemsOf(parts[1..]);
      SegmentsOfItems(parts[1..]);
    }
  }

  /** A message of escaped parts, printed one after the other, parses back to these very parts. */
  lemma ParseOfEscapedMessage(parts: seq<Part>)
    requires Sayable(parts)
    ensures Parse(Print(ItemsOf(parts)))
         == if Fits(ItemsOf(parts)) then Some(Retain(SegmentsOfParts(parts))) else None
  {
    forall i | 0 <= i < |parts| ensures PrintableItem(ItemsOf(parts)[i]) {
      PartPrints(parts[i]);
    }
    SegmentsOfItems(parts);
    ParseOfPrint(ItemsOf(parts));
  }

  /** Any nonempty text, escaped, parses back to itself. */
  lemma ParseOfEscapedText(text: string)
    requires text != []
    ensures Parse(EscapeText(text)) == Some([TextSegment(text)])
  {
    var parts := [Said(text)];
    ParseOfEscapedMessage(parts);
    assert ItemsOf(parts) == [Text(EscapeText(text))];
    PrintOne(Text(EscapeText(text)));
    assert SegmentsOfParts(parts) == [TextSegment(text)];
    RetainOne(TextSegment(text));
  }

  lemma PrintOne(item: Item)
    ensures Print([item]) == PrintItem(item)
  {
    assert [item][1..] == [] && PrintItem(item) + [] == PrintItem(item);
  }

  /** Dropping empty texts is done segment by segment. */
  lemma {:induction false} RetainBoth(a: seq<Segment>, b: seq<Segment>)
    ensures Retain(a + b) == Retain(a) + Retain(b)
  {
    if a == [] {
      assert a + b == b;
    } else {
      assert (a + b)[1..] == a[1..] + b;
      RetainBoth(a[1..], b);
    }
  }

  lemma RetainOne(segment: Segment)
    ensures Retain([segment]) == if IsEmptyText(segment) then [] else [segment]
  {
    assert [segment][1..] == [] && [segment] + [] == [segment];
  }
}
