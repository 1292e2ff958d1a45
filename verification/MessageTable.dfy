/** Insert-or-replace with pruning to the newest rows, and what it retains over every run. */
module MessageTable {
  import opened Wrappers
  import opened Bytes
  import Extremes
  import opened QuoteElements
  import opened MessageRow

  const MAX_MESSAGES: nat := 4_096

  type Table = map<u32, Row>

  /** `ORDER BY inserted_at_ms DESC, message_id DESC`: `a` comes strictly before `b`. */
  predicate Precedes(t: Table, a: u32, b: u32)
    requires a in t && b in t
  {
    t[a].insertedAt > t[b].insertedAt || (t[a].insertedAt == t[b].insertedAt && a > b)
  }

  /** The rows in front of `id`; their number is its offset in the order. */
  function InFront(t: Table, id: u32): set<u32>
    requires id in t
  {
    set x | x in t && Precedes(t, x, id)
  }

  /** Deleting everything at offset `cap` and beyond. */
  function Newest(t: Table, cap: nat): Table {
    map id | id in t && |InFront(t, id)| < cap :: t[id]
  }

  function PutRow(t: Table, id: u32, row: Row, cap: nat): Table {
    Newest(t[id := row], cap)
  }

  lemma SubsetSize<T>(a: set<T>, b: set<T>)
    requires a <= b
    ensures |a| <= |b|
  {
    if a != {} {
      var x :| x in a;
      SubsetSize(a - {x}, b - {x});
    }
  }

  /** The last of a nonempty set of rows. */
  lemma LastOf(t: Table, s: set<u32>) returns (m: u32)
    requires s != {} && s <= t.Keys
    ensures m in s && forall x :: x in s && x != m ==> Precedes(t, x, m)
  {
    m := Extremes.FirstOf(s, (a, b) => a in t && b in t && Precedes(t, b, a));
  }

  /** If at least `cap` rows are in front of `id`, then `cap` retained rows are. */
  lemma {:induction false} RetainedInFront(t: Table, id: u32, cap: nat) returns (top: set<u32>)
    requires id in t && |InFront(t, id)| >= cap
    ensures top <= InFront(t, id) && top <= Newest(t, cap).Keys && |top| == cap
    decreases |InFront(t, id)|
  {
    var front := InFront(t, id);
    if |front| == cap {
      top := front;
      forall x | x in front ensures |InFront(t, x)| < cap {
        assert InFront(t, x) <= front - {x};
        SubsetSize(InFront(t, x), front - {x});
      }
    } else {
      var m := LastOf(t, front);
      assert InFront(t, m) == front - {m};
      top := RetainedInFront(t, m, cap);
    }
  }

  /** Pruning never keeps more than `cap` rows. */
  lemma NewestSize(t: Table, cap: nat)
    ensures |Newest(t, cap)| <= cap
  {
    var kept := Newest(t, cap).Keys;
    if kept != {} {
      var m := LastOf(t, kept);
      assert kept <= InFront(t, m) + {m};
      SubsetSize(kept, InFront(t, m) + {m});
    }
    assert |Newest(t, cap)| == |kept|;
  }

  /** A replaced row may not move back in time. */
  ghost predicate NotOlder(t: Table, id: u32, row: Row) {
    id in t ==> t[id].insertedAt <= row.insertedAt
  }

  /**
   * The put moves a retained row back behind a row that is the first one pruned: that row should come
   * back, but once pruned it is gone.
   */
  ghost predicate Loses(t: Table, id: u32, row: Row, cap: nat) {
    && id in t && |InFront(t, id)| < cap
    && exists x :: x in t && |InFront(t, x)| == cap && Precedes(t[id := row], x, id)
  }

  lemma NotOlderLosesNothing(t: Table, id: u32, row: Row, cap: nat)
    requires NotOlder(t, id, row)
    ensures !Loses(t, id, row, cap)
  {
    forall x | x in t && |InFront(t, x)| == cap && id in t && |InFront(t, id)| < cap
      ensures !Precedes(t[id := row], x, id)
    {
      FewerInFrontPrecedes(t, id, x);
    }
  }

  lemma FewerInFrontPrecedes(t: Table, a: u32, b: u32)
    requires a in t && b in t && |InFront(t, a)| < |InFront(t, b)|
    ensures Precedes(t, a, b)
  {
    if !Precedes(t, a, b) && a != b {
      SubsetSize(InFront(t, b), InFront(t, a));
    }
  }

  /** A row retained after the put, other than the new one, was retained before it. */
  lemma RetainedBefore(t: Table, id: u32, row: Row, cap: nat, x: u32)
    requires !Loses(t, id, row, cap) && x in PutRow(t, id, row, cap) && x != id
    ensures x in Newest(t, cap)
  {
    var after := t[id := row];
    var front := InFront(t, x);
    assert front - {id} <= InFront(after, x);
    SubsetSize(front - {id}, InFront(after, x));
    if id in front && !Precedes(after, id, x) {
      assert InFront(t, id) <= front - {id};
      SubsetSize(InFront(t, id), front - {id});
      assert Precedes(after, x, id);
    } else {
      assert front <= InFront(after, x);
      SubsetSize(front, InFront(after, x));
    }
  }

  /** Pruning before a put that loses nothing does not change what is retained after it. */
  lemma PruneThenPut(t: Table, id: u32, row: Row, cap: nat)
    requires !Loses(t, id, row, cap)
    ensures PutRow(Newest(t, cap), id, row, cap) == PutRow(t, id, row, cap)
  {
    var after := t[id := row];
    var pruned := Newest(t, cap)[id := row];
    forall x | x in Newest(after, cap) ensures x in Newest(pruned, cap) {
      if x != id {
        RetainedBefore(t, id, row, cap, x);
      }
      assert InFront(pruned, x) <= InFront(after, x);
      SubsetSize(InFront(pruned, x), InFront(after, x));
    }
    forall x | x in Newest(pruned, cap) ensures x in Newest(after, cap) {
      if |InFront(after, x)| >= cap {
        var top := RetainedInFront(after, x, cap);
        forall y | y in top ensures y in InFront(pruned, x) {
          if y != id {
            RetainedBefore(t, id, row, cap, y);
          }
        }
        SubsetSize(top, InFront(pruned, x));
      }
    }
  }

  lemma LostRowIsMissed(t: Table, id: u32, row: Row, cap: nat)
    requires Loses(t, id, row, cap)
    ensures PutRow(Newest(t, cap), id, row, cap) != PutRow(t, id, row, cap)
  {
    var after := t[id := row];
    var x :| x in t && |InFront(t, x)| == cap && Precedes(after, x, id);
    FewerInFrontPrecedes(t, id, x);
    assert InFront(after, x) == InFront(t, x) - {id};
    assert x in PutRow(t, id, row, cap);
    assert x !in PutRow(Newest(t, cap), id, row, cap);
  }

  /** Pruning before a put is harmless exactly when the put loses nothing. */
  lemma PruningIsHarmlessIff(t: Table, id: u32, row: Row, cap: nat)
    ensures PutRow(Newest(t, cap), id, row, cap) == PutRow(t, id, row, cap) <==> !Loses(t, id, row, cap)
  {
    if Loses(t, id, row, cap) {
      LostRowIsMissed(t, id, row, cap);
    } else {
      PruneThenPut(t, id, row, cap);
    }
  }

  // ---- runs of puts ----

  datatype PutCall = PutCall(id: u32, row: Row)

  /** The latest version of every row ever put. */
  function Latest(puts: seq<PutCall>): Table {
    if puts == [] then map[]
    else Latest(puts[..|puts| - 1])[puts[|puts| - 1].id := puts[|puts| - 1].row]
  }

  /** What the store holds after the same puts, pruning after each one. */
  function Incremental(puts: seq<PutCall>, cap: nat): Table {
    if puts == [] then map[]
    else
      var last := puts[|puts| - 1];
      PutRow(Incremental(puts[..|puts| - 1], cap), last.id, last.row, cap)
  }

  ghost predicate NeverBack(puts: seq<PutCall>) {
    puts == [] ||
    (NeverBack(puts[..|puts| - 1]) && NotOlder(Latest(puts[..|puts| - 1]), puts[|puts| - 1].id, puts[|puts| - 1].row))
  }

  /** No put of the run loses a row, judged on the latest versions of everything put before it. */
  ghost predicate NeverLoses(puts: seq<PutCall>, cap: nat) {
    puts == [] ||
    (&& NeverLoses(puts[..|puts| - 1], cap)
     && !Loses(Latest(puts[..|puts| - 1]), puts[|puts| - 1].id, puts[|puts| - 1].row, cap))
  }

  /** At every moment of the run the store holds the newest `cap` among the latest versions. */
  ghost predicate AlwaysGlobal(puts: seq<PutCall>, cap: nat) {
    && Incremental(puts, cap) == Newest(Latest(puts), cap)
    && (puts == [] || AlwaysGlobal(puts[..|puts| - 1], cap))
  }

  /** Incremental pruning is global selection throughout a run exactly when no put loses a row. */
  lemma {:induction false} AlwaysGlobalIffNothingLost(puts: seq<PutCall>, cap: nat)
    ensures AlwaysGlobal(puts, cap) <==> NeverLoses(puts, cap)
  {
    if puts != [] {
      var before, last := puts[..|puts| - 1], puts[|puts| - 1];
      AlwaysGlobalIffNothingLost(before, cap);
      PruningIsHarmlessIff(Latest(before), last.id, last.row, cap);
    }
  }

  lemma {:induction false} NeverBackLosesNothing(puts: seq<PutCall>, cap: nat)
    requires NeverBack(puts)
    ensures NeverLoses(puts, cap)
  {
    if puts != [] {
      var before, last := puts[..|puts| - 1], puts[|puts| - 1];
      NeverBackLosesNothing(before, cap);
      NotOlderLosesNothing(Latest(before), last.id, last.row, cap);
    }
  }

  /** In particular when no row is put again with an older time. */
  lemma IncrementalIsGlobal(puts: seq<PutCall>, cap: nat)
    requires NeverBack(puts)
    ensures Incremental(puts, cap) == Newest(Latest(puts), cap)
  {
    NeverBackLosesNothing(puts, cap);
    AlwaysGlobalIffNothingLost(puts, cap);
  }

  /** The identifiers 1 to `n`. */
  function Ids(n: nat): (s: set<u32>)
    requires n <= U32_MAX
    ensures |s| == n && forall id :: id in s <==> 1 <= id <= n
  {
    if n == 0 then {} else Ids(n - 1) + {n}
  }

  /**
   * The condition is needed at every capacity: after `cap + 1` rows have pushed row 1 out, putting the
   * newest one back at an older time leaves a place that row 1 should have and no longer can get.
   */
  lemma OlderReputLosesARow(t: Table, cap: nat, row: Row, older: Row)
    requires 1 <= cap < U32_MAX
    requires t.Keys == Ids(cap + 1)
    requires forall id :: id in t ==> t[id].insertedAt == id + 1
    requires older.insertedAt == 1
    ensures var last: u32 := cap + 1;
            && 1 !in PutRow(Newest(t, cap), last, older, cap)
            && 1 in PutRow(t, last, older, cap)
  {
    var last: u32 := cap + 1;
    assert InFront(t, 1) == t.Keys - {1};
    assert |InFront(t, 1)| == cap;
    var after := t[last := older];
    assert InFront(after, 1) == t.Keys - {1, last};
    assert t.Keys - {1, last} == (t.Keys - {1}) - {last};
  }

  // ---- the store ----

  datatype Op<V> = Put(record: Record<V>) | Remove(id: u32) | Reopen

  function Step<V>(json: JsonCodec<V>, t: Table, op: Op<V>): Table {
    match op
    case Put(r) => if RowOf(json, r).Ok? then PutRow(t, r.messageId, RowOf(json, r).value, MAX_MESSAGES) else t
    case Remove(id) => t - {id}
    case Reopen => Newest(t, MAX_MESSAGES)
  }

  function Run<V>(json: JsonCodec<V>, ops: seq<Op<V>>): Table {
    if ops == [] then map[] else Step(json, Run(json, ops[..|ops| - 1]), ops[|ops| - 1])
  }

  /** The record most recently accepted under `id` and not removed since. */
  function LastPut<V>(ops: seq<Op<V>>, id: u32): Option<Record<V>> {
    if ops == [] then None
    else
      match ops[|ops| - 1]
      case Put(r) => if r.messageId == id && r.insertedAt <= I64_MAX then Some(r) else LastPut(ops[..|ops| - 1], id)
      case Remove(gone) => if gone == id then None else LastPut(ops[..|ops| - 1], id)
      case Reopen => LastPut(ops[..|ops| - 1], id)
  }

  ghost predicate AllValid<V>(json: JsonCodec<V>, ops: seq<Op<V>>) {
    forall i :: 0 <= i < |ops| && ops[i].Put? ==> ValidRecord(json, ops[i].record)
  }

  function Lookup<V>(json: JsonCodec<V>, t: Table, id: u32): Result<Option<Record<V>>, MessageStoreError> {
    if id !in t then Ok(None)
    else
      match RecordOf(json, id, t[id])
      case Err(e) => Err(e)
      case Ok(r) => Ok(Some(r))
  }

  /** Every run of puts, removals and reopens holds at most 4096 rows. */
  lemma {:induction false} AtMostMaxMessages<V>(json: JsonCodec<V>, ops: seq<Op<V>>)
    ensures |Run(json, ops)| <= MAX_MESSAGES
  {
    if ops != [] {
      var before := Run(json, ops[..|ops| - 1]);
      AtMostMaxMessages(json, ops[..|ops| - 1]);
      match ops[|ops| - 1] {
        case Put(r) =>
          if RowOf(json, r).Ok? {
            NewestSize(before[r.messageId := RowOf(json, r).value], MAX_MESSAGES);
          }
        case Remove(id) =>
          SubsetSize((before - {id}).Keys, before.Keys);
          assert |before - {id}| == |(before - {id}).Keys| && |before| == |before.Keys|;
        case Reopen => NewestSize(before, MAX_MESSAGES);
      }
    }
  }

  lemma {:induction false} RowIsLastPut<V>(json: JsonCodec<V>, ops: seq<Op<V>>, id: u32)
    requires id in Run(json, ops)
    ensures LastPut(ops, id).Some? && RowOf(json, LastPut(ops, id).value) == Ok(Run(json, ops)[id])
    ensures exists i :: 0 <= i < |ops| && ops[i] == Put(LastPut(ops, id).value)
    ensures LastPut(ops, id).value.messageId == id
  {
    var last := ops[|ops| - 1];
    if last.Put? && last.record.messageId == id && last.record.insertedAt <= I64_MAX {
      assert ops[|ops| - 1] == Put(last.record);
    } else {
      RowIsLastPut(json, ops[..|ops| - 1], id);
      var i :| 0 <= i < |ops| - 1 && ops[..|ops| - 1][i] == Put(LastPut(ops, id).value);
      assert ops[i] == Put(LastPut(ops, id).value);
    }
  }

  /** In every run, a lookup finds nothing or exactly the record last put under that identifier. */
  lemma LookupReturnsLastPut<V(!new)>(json: JsonCodec<V>, ops: seq<Op<V>>, id: u32)
    requires Faithful(json) && AllValid(json, ops)
    ensures var found := Lookup(json, Run(json, ops), id);
            && found.Ok?
            && (found.value.Some? <==> id in Run(json, ops))
            && (found.value.Some? ==> found.value == LastPut(ops, id))
  {
    if id in Run(json, ops) {
      RowIsLastPut(json, ops, id);
      var r := LastPut(ops, id).value;
      var i :| 0 <= i < |ops| && ops[i] == Put(r);
      assert ValidRecord(json, ops[i].record);
      RecordRoundTrip(json, r);
    }
  }

  /** The other rows that are newer than time `at` and, at that very time, have a larger identifier than `id`. */
  function NewerThan(t: Table, id: u32, at: int): set<u32> {
    set x | x in t && x != id && (t[x].insertedAt > at || (t[x].insertedAt == at && x > id))
  }

  /** A put that is accepted is found again exactly if fewer than 4096 rows are newer; as the newest row it is. */
  lemma PutIsFoundIff<V(!new)>(json: JsonCodec<V>, ops: seq<Op<V>>, r: Record<V>)
    requires Faithful(json) && ValidRecord(json, r) && r.insertedAt <= I64_MAX
    ensures Lookup(json, Run(json, ops + [Put(r)]), r.messageId)
         == Ok(if |NewerThan(Run(json, ops), r.messageId, r.insertedAt)| < 4_096 then Some(r) else None)
    ensures (forall x :: x in Run(json, ops) ==> Run(json, ops)[x].insertedAt < r.insertedAt) ==>
      Lookup(json, Run(json, ops + [Put(r)]), r.messageId) == Ok(Some(r))
  {
    var held, id := Run(json, ops), r.messageId;
    var row := RowOf(json, r).value;
    assert (ops + [Put(r)])[..|ops|] == ops;
    assert Run(json, ops + [Put(r)]) == PutRow(held, id, row, MAX_MESSAGES);
    assert row.insertedAt == r.insertedAt;
    assert InFront(held[id := row], id) == NewerThan(held, id, r.insertedAt);
    RecordRoundTrip(json, r);
    if forall x :: x in held ==> held[x].insertedAt < r.insertedAt {
      assert NewerThan(held, id, r.insertedAt) == {};
    }
  }

  // ---- the store's runs and incremental pruning ----

  /** The rows of the accepted puts, in order. */
  function PutCalls<V>(json: JsonCodec<V>, ops: seq<Op<V>>): seq<PutCall> {
    if ops == [] then []
    else
      var before := PutCalls(json, ops[..|ops| - 1]);
      match ops[|ops| - 1]
      case Put(r) => if RowOf(json, r).Ok? then before + [PutCall(r.messageId, RowOf(json, r).value)] else before
      case Remove(_) => before
      case Reopen => before
  }

  /** A table within its bound is not pruned. */
  lemma SmallTableIsKept(t: Table, cap: nat)
    requires |t| <= cap
    ensures Newest(t, cap) == t
  {
    assert |t| == |t.Keys|;
    forall id | id in t ensures |InFront(t, id)| < cap {
      assert InFront(t, id) <= t.Keys - {id};
      SubsetSize(InFront(t, id), t.Keys - {id});
    }
  }

  /** Without removals, what the store holds is what pruning after every accepted put leaves. */
  lemma {:induction false} RunIsIncremental<V>(json: JsonCodec<V>, ops: seq<Op<V>>)
    requires forall i :: 0 <= i < |ops| ==> !ops[i].Remove?
    ensures Run(json, ops) == Incremental(PutCalls(json, ops), MAX_MESSAGES)
  {
    if ops != [] {
      var front, last := ops[..|ops| - 1], ops[|ops| - 1];
      RunIsIncremental(json, front);
      var puts := PutCalls(json, front);
      if last.Put? && RowOf(json, last.record).Ok? {
        var call := PutCall(last.record.messageId, RowOf(json, last.record).value);
        assert (puts + [call])[..|puts|] == puts;
      } else if last.Reopen? {
        AtMostMaxMessages(json, front);
        SmallTableIsKept(Run(json, front), MAX_MESSAGES);
      }
    }
  }

  /** So without removals, and if no put loses a row, the store holds the newest 4096 of the latest versions. */
  lemma StoreHoldsTheNewest<V>(json: JsonCodec<V>, ops: seq<Op<V>>)
    requires forall i :: 0 <= i < |ops| ==> !ops[i].Remove?
    requires NeverLoses(PutCalls(json, ops), MAX_MESSAGES)
    ensures Run(json, ops) == Newest(Latest(PutCalls(json, ops)), MAX_MESSAGES)
  {
    RunIsIncremental(json, ops);
    AlwaysGlobalIffNothingLost(PutCalls(json, ops), MAX_MESSAGES);
  }

  class MessageStore {
    var rows: Table

    constructor (existing: Table)
      ensures rows == Newest(existing, MAX_MESSAGES) && |rows| <= MAX_MESSAGES
    {
      rows := Newest(existing, MAX_MESSAGES);
      new;
      NewestSize(existing, MAX_MESSAGES);
    }

    method PutRecord<V>(json: JsonCodec<V>, record: Record<V>) returns (r: Result<(), MessageStoreError>)
      requires record.quote.Some? ==> ValidQuote(record.quote.value)
      modifies this
      ensures rows == Step(json, old(rows), Put(record))
      ensures r.Ok? <==> record.insertedAt <= I64_MAX
      ensures r.Ok? ==> |rows| <= MAX_MESSAGES
    {
      var quoteElements := None;
      if record.quote.Some? {
        var blob := EncodeElements(record.quote.value);
        assert blob.Ok?;
        quoteElements := Some(blob.value);
      }
      if record.insertedAt > I64_MAX {
        return Err(Configuration);
      }
      var row := RecallColumns(record.insertedAt, json.render(record.response), record.recall);
      if record.quote.Some? {
        var q := record.quote.value;
        row := row.(quoteSequence := Some(q.sequence), quoteMessageUid := Some(U64Bytes(q.messageUid)),
                    quoteSenderUin := Some(q.senderUin), quoteSenderUid := Some(q.senderUid),
                    quoteTimestamp := Some(q.timestamp), quoteElements := quoteElements);
      }
      NewestSize(rows[record.messageId := row], MAX_MESSAGES);
      rows := rows[record.messageId := row];
      rows := Newest(rows, MAX_MESSAGES);
      r := Ok(());
    }

    method GetRecord<V>(json: JsonCodec<V>, id: u32) returns (r: Result<Option<Record<V>>, MessageStoreError>)
      ensures r == Lookup(json, rows, id)
    {
      if id !in rows {
        return Ok(None);
      }
      var loaded := RecordOf(json, id, rows[id]);
      r := if loaded.Ok? then Ok(Some(loaded.value)) else Err(loaded.error);
    }

    method RemoveRow(id: u32)
      modifies this
      ensures rows == old(rows) - {id}
    {
      rows := rows - {id};
    }
  }
}
