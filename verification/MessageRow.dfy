/** One retained message and its flattened table row. */
module MessageRow {
  import opened Wrappers
  import opened Bytes
  import opened QuoteElements
  import Utf8

  const MAX_JSON_BYTES: nat := 64 * 1024
  const MAX_MESSAGE_ID: nat := 0x7FFF_FFFF

  /** The JSON library, as far as the store uses it. */
  datatype JsonCodec<!V> = JsonCodec(render: V -> string, parse: string -> Option<V>, isObject: V -> bool)

  ghost predicate Faithful<V(!new)>(json: JsonCodec<V>) {
    forall v :: json.parse(json.render(v)) == Some(v)
  }

  datatype RecallTarget =
    | Group(groupCode: u32, sequence: u64, random: Option<u32>)
    | Private(uid: string, peerUin: Option<u32>, sequence: u64, clientSequence: u64, privateRandom: u32, timestamp: u32)
    | Unavailable

  datatype Record<V> = Record(
    messageId: u32, insertedAt: u64, response: V, recall: RecallTarget, quote: Option<QuoteTarget>)

  predicate AbsentOrNonZero(x: Option<u32>) {
    x.Some? ==> x.value != 0
  }

  predicate ValidRecall(t: RecallTarget) {
    match t
    case Group(groupCode, sequence, random) => groupCode != 0 && sequence != 0 && AbsentOrNonZero(random)
    case Private(uid, peerUin, sequence, clientSequence, random, timestamp) =>
      && uid != [] && Utf8.Len(uid) <= MAX_UID_BYTES && !Utf8.HasControl(uid) && AbsentOrNonZero(peerUin)
      && sequence != 0 && clientSequence != 0 && random != 0 && timestamp != 0
    case Unavailable => true
  }

  function NewRecord<V>(json: JsonCodec<V>, messageId: u32, insertedAt: u64, response: V, recall: RecallTarget)
    : Result<Record<V>, MessageStoreError>
  {
    if messageId == 0 || messageId > MAX_MESSAGE_ID || insertedAt == 0 || !json.isObject(response)
       || Utf8.Len(json.render(response)) > MAX_JSON_BYTES || !ValidRecall(recall)
    then Err(Configuration)
    else Ok(Record(messageId, insertedAt, response, recall, None))
  }

  /** A record is accepted exactly for these, and holds what it was given. */
  lemma RecordAcceptedIff<V>(json: JsonCodec<V>, messageId: u32, insertedAt: u64, response: V, recall: RecallTarget)
    ensures var r := NewRecord(json, messageId, insertedAt, response, recall);
            && (r.Ok? <==>
                  && 1 <= messageId <= 2_147_483_647 && 1 <= insertedAt
                  && json.isObject(response) && Utf8.Len(json.render(response)) <= 65_536
                  && (recall.Group? ==>
                        recall.groupCode > 0 && recall.sequence > 0 && recall.random != Some(0))
                  && (recall.Private? ==>
                        && 1 <= |recall.uid| && Utf8.Len(recall.uid) <= 128 && !Utf8.HasControl(recall.uid)
                        && recall.peerUin != Some(0) && recall.sequence > 0 && recall.clientSequence > 0
                        && recall.privateRandom > 0 && recall.timestamp > 0))
            && (r.Ok? ==>
                  && r.value.messageId == messageId && r.value.insertedAt == insertedAt && r.value.response == response
                  && r.value.recall == recall && r.value.quote.None?)
  {
  }

  /** Records that `NewRecord` builds, with or without independently validated quote material. */
  ghost predicate ValidRecord<V>(json: JsonCodec<V>, r: Record<V>) {
    && NewRecord(json, r.messageId, r.insertedAt, r.response, r.recall) == Ok(r.(quote := None))
    && (r.quote.Some? ==> ValidQuote(r.quote.value))
  }

  /** The columns besides the key; integers are the signed 64-bit values of the table. */
  datatype Row = Row(
    insertedAt: int,
    responseJson: string,
    kind: int,
    groupCode: Option<int>,
    uid: Option<string>,
    peerUin: Option<int>,
    sequence: Option<seq<byte>>,
    clientSequence: Option<seq<byte>>,
    random: Option<int>,
    timestamp: Option<int>,
    quoteSequence: Option<int>,
    quoteMessageUid: Option<seq<byte>>,
    quoteSenderUin: Option<int>,
    quoteSenderUid: Option<string>,
    quoteTimestamp: Option<int>,
    quoteElements: Option<seq<byte>>)

  function Signed(x: Option<u32>): Option<int> {
    if x.Some? then Some(x.value) else None
  }

  /** The row with its recall columns; the quote columns come next. */
  function RecallColumns(insertedAt: int, json: string, t: RecallTarget): Row {
    match t
    case Group(groupCode, sequence, random) =>
      Row(insertedAt, json, 1, Some(groupCode), None, None, Some(U64Bytes(sequence)), None, Signed(random), None,
          None, None, None, None, None, None)
    case Private(uid, peerUin, sequence, clientSequence, random, timestamp) =>
      Row(insertedAt, json, 2, None, Some(uid), Signed(peerUin), Some(U64Bytes(sequence)),
          Some(U64Bytes(clientSequence)), Some(random), Some(timestamp), None, None, None, None, None, None)
    case Unavailable =>
      Row(insertedAt, json, 0, None, None, None, None, None, None, None, None, None, None, None, None, None)
  }

  function QuoteColumns(row: Row, quote: Option<QuoteTarget>): Row {
    match quote
    case None => row
    case Some(q) =>
      row.(quoteSequence := Some(q.sequence), quoteMessageUid := Some(U64Bytes(q.messageUid)),
           quoteSenderUin := Some(q.senderUin), quoteSenderUid := Some(q.senderUid),
           quoteTimestamp := Some(q.timestamp), quoteElements := Some(Encoded(q.elements)))
  }

  function RowOf<V>(json: JsonCodec<V>, r: Record<V>): Result<Row, MessageStoreError> {
    if r.insertedAt > I64_MAX then Err(Configuration)
    else Ok(QuoteColumns(RecallColumns(r.insertedAt, json.render(r.response), r.recall), r.quote))
  }

  // ---- reading a row back ----

  function ToU32(x: Option<int>): Result<u32, MessageStoreError> {
    if x.Some? && 0 <= x.value <= U32_MAX then Ok(x.value) else Err(Configuration)
  }

  function ToOptionalU32(x: Option<int>): Result<Option<u32>, MessageStoreError> {
    if x.None? then Ok(None)
    else if 0 <= x.value <= U32_MAX then Ok(Some(x.value))
    else Err(Configuration)
  }

  function ToU64(x: Option<seq<byte>>): Result<u64, MessageStoreError> {
    if x.Some? && |x.value| == 8 then
      U64Range(x.value);
      Ok(FromBigEndian(x.value))
    else Err(Configuration)
  }

  function LoadRecall(row: Row): Result<RecallTarget, MessageStoreError> {
    if row.kind == 0 && row.groupCode.None? && row.uid.None? && row.peerUin.None? && row.sequence.None?
       && row.clientSequence.None? && row.random.None? && row.timestamp.None? then
      Ok(Unavailable)
    else if row.kind == 1 && row.uid.None? && row.clientSequence.None? && row.timestamp.None? then
      var groupCode :- ToU32(row.groupCode);
      var sequence :- ToU64(row.sequence);
      var random :- ToOptionalU32(row.random);
      Ok(Group(groupCode, sequence, random))
    else if row.kind == 2 && row.groupCode.None? then
      if row.uid.None? then Err(Configuration)
      else
        var peerUin :- ToOptionalU32(row.peerUin);
        var sequence :- ToU64(row.sequence);
        var clientSequence :- ToU64(row.clientSequence);
        var random :- ToU32(row.random);
        var timestamp :- ToU32(row.timestamp);
        Ok(Private(row.uid.value, peerUin, sequence, clientSequence, random, timestamp))
    else
      Err(Configuration)
  }

  function LoadQuote(row: Row): Result<Option<QuoteTarget>, MessageStoreError> {
    if row.quoteSequence.None? && row.quoteMessageUid.None? && row.quoteSenderUin.None?
       && row.quoteSenderUid.None? && row.quoteTimestamp.None? && row.quoteElements.None? then
      Ok(None)
    else if row.quoteSequence.None? || row.quoteMessageUid.None? || row.quoteSenderUin.None?
            || row.quoteSenderUid.None? || row.quoteTimestamp.None? || row.quoteElements.None? then
      Err(Configuration)
    else
      var sequence :- ToU32(row.quoteSequence);
      var messageUid :- ToU64(row.quoteMessageUid);
      var senderUin :- ToU32(row.quoteSenderUin);
      var timestamp :- ToU32(row.quoteTimestamp);
      if !AcceptedBlob(row.quoteElements.value) then Err(Configuration)
      else
        var q :- NewQuote(sequence, messageUid, senderUin, row.quoteSenderUid.value, timestamp,
                          Decoded(row.quoteElements.value, 0).value);
        Ok(Some(q))
  }

  function RecordOf<V>(json: JsonCodec<V>, messageId: u32, row: Row): Result<Record<V>, MessageStoreError> {
    var quote :- LoadQuote(row);
    var recall :- LoadRecall(row);
    match json.parse(row.responseJson)
    case None => Err(Configuration)
    case Some(response) =>
      if row.insertedAt < 0 || row.insertedAt > U64_MAX then Err(Configuration)
      else
        var r :- NewRecord(json, messageId, row.insertedAt, response, recall);
        Ok(r.(quote := quote))
  }

  lemma RecallRoundTrip(insertedAt: int, json: string, t: RecallTarget, quote: Option<QuoteTarget>)
    ensures LoadRecall(QuoteColumns(RecallColumns(insertedAt, json, t), quote)) == Ok(t)
  {
    if !t.Unavailable? {
      U64RoundTrip(t.sequence);
    }
    if t.Private? {
      U64RoundTrip(t.clientSequence);
    }
  }

  lemma QuoteRoundTrip(insertedAt: int, json: string, t: RecallTarget, quote: Option<QuoteTarget>)
    requires quote.Some? ==> ValidQuote(quote.value)
    ensures LoadQuote(QuoteColumns(RecallColumns(insertedAt, json, t), quote)) == Ok(quote)
  {
    if quote.Some? {
      var q := quote.value;
      U64RoundTrip(q.messageUid);
      QuoteBlobRoundTrip(q);
    }
  }

  /** Every valid record with a storable time reads back identically, recall and quote included. */
  lemma RecordRoundTrip<V(!new)>(json: JsonCodec<V>, r: Record<V>)
    requires Faithful(json) && ValidRecord(json, r)
    ensures r.insertedAt <= I64_MAX <==> RowOf(json, r).Ok?
    ensures r.insertedAt <= I64_MAX ==> RecordOf(json, r.messageId, RowOf(json, r).value) == Ok(r)
  {
    if r.insertedAt <= I64_MAX {
      RecallRoundTrip(r.insertedAt, json.render(r.response), r.recall, r.quote);
      QuoteRoundTrip(r.insertedAt, json.render(r.response), r.recall, r.quote);
    }
  }

  /** Whatever reads back is a valid record: corrupt rows never produce one. */
  lemma ReadRecordsAreValid<V(!new)>(json: JsonCodec<V>, messageId: u32, row: Row)
    requires RecordOf(json, messageId, row).Ok?
    ensures ValidRecord(json, RecordOf(json, messageId, row).value)
    ensures RecordOf(json, messageId, row).value.messageId == messageId
  {
  }
}
