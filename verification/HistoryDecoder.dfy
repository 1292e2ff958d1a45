/** Bounded history pages, decoded through a fresh duplicate window. */
module HistoryDecoder {
  import opened Wrappers
  import opened Bytes
  import opened Sequences
  import opened DuplicateWindow
  import Utf8

  const MAX_HISTORY_MESSAGES: nat := 100

  datatype HistoricalMessage<R> = HistoricalMessage(envelope: Envelope, richText: Option<R>)

  /** Decoders and the hash this module relies on. */
  datatype Codecs<R> = Codecs(
    body: seq<byte> -> Option<PushBody>,
    richText: seq<byte> -> Option<R>,
    sha256: seq<byte> -> Digest32
  )

  datatype GroupResponse = GroupResponse(
    result: u32,
    groupId: u32,
    startSequence: u32,
    endSequence: u32,
    messages: seq<seq<byte>>
  )

  datatype FriendResponse = FriendResponse(peerUid: string, messages: seq<seq<byte>>)

  // ---- one message ----

  datatype Entry<R> = Entry(key: DedupKey, message: HistoricalMessage<R>)

  /** A message that passes every check which does not depend on its neighbours. */
  function ReadEntry<R>(codecs: Codecs<R>, accepts: Envelope -> bool, encoded: seq<byte>): Option<Entry<R>> {
    if !ValidInput(encoded) then None
    else
      match codecs.body(encoded)
      case None => None
      case Some(body) =>
        match Check(codecs.sha256, body)
        case None => None
        case Some(c) =>
          if !accepts(c.envelope) then None
          else
            match c.envelope.payload.richText
            case None => Some(Entry(c.key, HistoricalMessage(c.envelope, None)))
            case Some(bytes) =>
              match codecs.richText(bytes)
              case None => None
              case Some(text) => Some(Entry(c.key, HistoricalMessage(c.envelope, Some(text))))
  }

  /** Every message reads, and no two have one key. */
  ghost predicate GoodPage<R>(codecs: Codecs<R>, accepts: Envelope -> bool, messages: seq<seq<byte>>) {
    && (forall i :: 0 <= i < |messages| ==> ReadEntry(codecs, accepts, messages[i]).Some?)
    && forall i, j :: 0 <= i < j < |messages| ==>
         ReadEntry(codecs, accepts, messages[i]).value.key != ReadEntry(codecs, accepts, messages[j]).value.key
  }

  ghost function PageOf<R>(codecs: Codecs<R>, accepts: Envelope -> bool, messages: seq<seq<byte>>)
    : (p: seq<HistoricalMessage<R>>)
    requires GoodPage(codecs, accepts, messages)
    ensures |p| == |messages|
  {
    seq(|messages|, i requires 0 <= i < |messages| => ReadEntry(codecs, accepts, messages[i]).value.message)
  }

  ghost function KeysOf<R>(codecs: Codecs<R>, accepts: Envelope -> bool, messages: seq<seq<byte>>)
    : (keys: seq<DedupKey>)
    requires forall i :: 0 <= i < |messages| ==> ReadEntry(codecs, accepts, messages[i]).Some?
    ensures |keys| == |messages|
    ensures forall i :: 0 <= i < |messages| ==> keys[i] == ReadEntry(codecs, accepts, messages[i]).value.key
  {
    seq(|messages|, i requires 0 <= i < |messages| => ReadEntry(codecs, accepts, messages[i]).value.key)
  }

  /** `decode_embedded`, the page's own checks, and the rich text, in the source's order. */
  method DecodeOne<R>(codecs: Codecs<R>, decoder: MessageDecoder, accepts: Envelope -> bool, encoded: seq<byte>)
    returns (r: Result<HistoricalMessage<R>, DecodeError>)
    requires decoder.Valid() && decoder.sha256 == codecs.sha256 && |decoder.admitted| < MAX_HISTORY_MESSAGES
    modifies decoder
    ensures decoder.Valid()
    ensures var e := ReadEntry(codecs, accepts, encoded);
            && (r.Ok? <==> e.Some? && e.value.key !in old(decoder.admitted))
            && (r.Ok? ==> r.value == e.value.message && decoder.admitted == old(decoder.admitted) + [e.value.key])
  {
    if !ValidInput(encoded) {
      return Err(DecodeError.DecodeError);
    }
    var body := codecs.body(encoded);
    if body.None? {
      return Err(DecodeError.DecodeError);
    }
    var disposition :- decoder.Admit(body.value);
    if disposition.Duplicate? {
      return Err(DecodeError.DecodeError);
    }
    var envelope := disposition.envelope;
    if !accepts(envelope) {
      return Err(DecodeError.DecodeError);
    }
    if envelope.payload.richText.None? {
      return Ok(HistoricalMessage(envelope, None));
    }
    var text := codecs.richText(envelope.payload.richText.value);
    r := if text.Some? then Ok(HistoricalMessage(envelope, Some(text.value))) else Err(DecodeError.DecodeError);
  }

  /** The first `n` messages have been read, and are what the window and the page hold. */
  ghost predicate ReadSoFar<R>(codecs: Codecs<R>, accepts: Envelope -> bool, messages: seq<seq<byte>>, n: nat,
                               keys: seq<DedupKey>, page: seq<HistoricalMessage<R>>)
  {
    && n == |keys| == |page| <= |messages| && Distinct(keys)
    && forall k :: 0 <= k < n ==> ReadEntry(codecs, accepts, messages[k]) == Some(Entry(keys[k], page[k]))
  }

  /** A message that does not read, or whose key has been read, spoils the page. */
  lemma SpoiltPage<R>(codecs: Codecs<R>, accepts: Envelope -> bool, messages: seq<seq<byte>>, n: nat,
                      keys: seq<DedupKey>, page: seq<HistoricalMessage<R>>)
    requires ReadSoFar(codecs, accepts, messages, n, keys, page) && n < |messages|
    requires var e := ReadEntry(codecs, accepts, messages[n]); e.None? || e.value.key in keys
    ensures !GoodPage(codecs, accepts, messages)
  {
    var e := ReadEntry(codecs, accepts, messages[n]);
    if e.Some? {
      var k :| 0 <= k < |keys| && keys[k] == e.value.key;
      assert ReadEntry(codecs, accepts, messages[k]) == Some(Entry(keys[k], page[k]));
    }
  }

  lemma OneMoreRead<R>(codecs: Codecs<R>, accepts: Envelope -> bool, messages: seq<seq<byte>>, n: nat,
                       keys: seq<DedupKey>, page: seq<HistoricalMessage<R>>)
    requires ReadSoFar(codecs, accepts, messages, n, keys, page) && n < |messages|
    requires var e := ReadEntry(codecs, accepts, messages[n]); e.Some? && e.value.key !in keys
    ensures var e := ReadEntry(codecs, accepts, messages[n]).value;
            ReadSoFar(codecs, accepts, messages, n + 1, keys + [e.key], page + [e.message])
  {
  }

  lemma AllRead<R>(codecs: Codecs<R>, accepts: Envelope -> bool, messages: seq<seq<byte>>,
                   keys: seq<DedupKey>, page: seq<HistoricalMessage<R>>)
    requires ReadSoFar(codecs, accepts, messages, |messages|, keys, page)
    ensures GoodPage(codecs, accepts, messages) && PageOf(codecs, accepts, messages) == page
  {
    assert forall i :: 0 <= i < |messages| ==> ReadEntry(codecs, accepts, messages[i]) == Some(Entry(keys[i], page[i]));
  }

  /** The loop of both response decoders. */
  method DecodePage<R>(codecs: Codecs<R>, accepts: Envelope -> bool, messages: seq<seq<byte>>)
    returns (r: Result<seq<HistoricalMessage<R>>, DecodeError>)
    requires |messages| <= MAX_HISTORY_MESSAGES
    ensures r.Ok? <==> GoodPage(codecs, accepts, messages)
    ensures r.Ok? ==> r.value == PageOf(codecs, accepts, messages)
  {
    var decoder := new MessageDecoder(codecs.sha256);
    var page: seq<HistoricalMessage<R>> := [];
    for i := 0 to |messages|
      invariant fresh(decoder) && decoder.Valid() && decoder.sha256 == codecs.sha256
      invariant ReadSoFar(codecs, accepts, messages, i, decoder.admitted, page)
    {
      ghost var before := decoder.admitted;
      var next := DecodeOne(codecs, decoder, accepts, messages[i]);
      if next.Err? {
        SpoiltPage(codecs, accepts, messages, i, before, page);
        return Err(next.error);
      }
      OneMoreRead(codecs, accepts, messages, i, before, page);
      page := page + [next.value];
    }
    AllRead(codecs, accepts, messages, decoder.admitted, page);
    r := Ok(page);
  }

  // ---- group history ----

  /** `interval_len`, for an interval that has passed the checks before it. */
  function IntervalLength(start: u32, end: u32): nat
    requires start <= end && end != 0
  {
    end - (if start > 1 then start else 1) + 1
  }

  predicate ValidInterval(groupId: u32, start: u32, end: u32) {
    groupId != 0 && end != 0 && start <= end && IntervalLength(start, end) <= MAX_HISTORY_MESSAGES
  }

  predicate InGroup(groupId: u32, start: u32, end: u32, e: Envelope) {
    && e.class_ == GroupMessage && e.route.groupUin == Some(groupId)
    && e.sequence != 0 && start <= e.sequence <= end
  }

  predicate Correlates(response: GroupResponse, groupId: u32, start: u32, end: u32) {
    && response.result == 0 && response.groupId == groupId
    && response.startSequence == start && response.endSequence == end
  }

  method DecodeGroupHistory<R>(codecs: Codecs<R>, response: GroupResponse, groupId: u32, start: u32, end: u32)
    returns (r: Result<seq<HistoricalMessage<R>>, DecodeError>)
    ensures r.Ok? <==>
      && groupId > 0 && end > 0 && start <= end && end - start < (if start > 0 then 100 else 101)
      && response.result == 0 && response.groupId == groupId
      && response.startSequence == start && response.endSequence == end
      && |response.messages| <= (if start > 0 then end - start + 1 else end)
      && GoodPage(codecs, e => InGroup(groupId, start, end, e), response.messages)
    ensures r.Ok? ==> r.value == PageOf(codecs, e => InGroup(groupId, start, end, e), response.messages)
  {
    if !ValidInterval(groupId, start, end) {
      return Err(DecodeError.DecodeError);
    }
    if !Correlates(response, groupId, start, end)
       || |response.messages| > MAX_HISTORY_MESSAGES
       || |response.messages| > IntervalLength(start, end) {
      return Err(DecodeError.DecodeError);
    }
    r := DecodePage(codecs, e => InGroup(groupId, start, end, e), response.messages);
  }

  // ---- friend history ----

  predicate ValidPeerRequest(peerUid: string, timestamp: u32, count: u32) {
    && peerUid != [] && Utf8.Len(peerUid) <= MAX_UID_LEN && !Utf8.HasControl(peerUid)
    && timestamp != 0 && 1 <= count <= MAX_HISTORY_MESSAGES
  }

  predicate BetweenThem(contact: u32, self: u32, timestamp: u32, e: Envelope) {
    && e.class_ == Private
    && (|| (e.route.fromUin == contact && e.route.toUin == self)
        || (e.route.fromUin == self && e.route.toUin == contact))
    && 0 < e.timestamp <= timestamp
  }

  method DecodeFriendHistory<R>(codecs: Codecs<R>, response: FriendResponse, peerUid: string, contact: u32, self: u32,
                                timestamp: u32, count: u32)
    returns (r: Result<seq<HistoricalMessage<R>>, DecodeError>)
    ensures r.Ok? <==>
      && peerUid != "" && Utf8.Len(peerUid) <= 128 && !Utf8.HasControl(peerUid)
      && timestamp > 0 && 1 <= count <= 100 && contact > 0 && self > 0 && contact != self
      && response.peerUid == peerUid && |response.messages| <= count
      && GoodPage(codecs, e => BetweenThem(contact, self, timestamp, e), response.messages)
    ensures r.Ok? ==> r.value == PageOf(codecs, e => BetweenThem(contact, self, timestamp, e), response.messages)
  {
    if !ValidPeerRequest(peerUid, timestamp, count) || contact == 0 || self == 0 || contact == self {
      return Err(DecodeError.DecodeError);
    }
    if response.peerUid != peerUid || |response.messages| > count {
      return Err(DecodeError.DecodeError);
    }
    r := DecodePage(codecs, e => BetweenThem(contact, self, timestamp, e), response.messages);
  }

  // ---- what an accepted page means ----

  /** The whole page is admitted by the window, which therefore holds exactly its keys. */
  lemma GoodPageIsAdmittedWhole<R>(codecs: Codecs<R>, accepts: Envelope -> bool, messages: seq<seq<byte>>)
    requires |messages| <= MAX_HISTORY_MESSAGES
    requires forall i :: 0 <= i < |messages| ==> ReadEntry(codecs, accepts, messages[i]).Some?
    ensures GoodPage(codecs, accepts, messages)
       <==> AdmittedOf(KeysOf(codecs, accepts, messages)) == KeysOf(codecs, accepts, messages)
  {
    ShortRunsAdmitEachKeyOnce(KeysOf(codecs, accepts, messages));
  }

  /** A message that carries this envelope. */
  ghost predicate Carries<R>(codecs: Codecs<R>, message: seq<byte>, e: Envelope) {
    1 <= |message| <= MAX_PUSH_LEN && codecs.body(message) == Some(PushOf(e)) && Sendable(e)
  }

  /** The page asks for it, and its rich text, if it has one, can be decoded. */
  predicate Wanted<R>(codecs: Codecs<R>, accepts: Envelope -> bool, e: Envelope) {
    accepts(e) && (e.payload.richText.Some? ==> codecs.richText(e.payload.richText.value).Some?)
  }

  ghost predicate CarryAll<R>(codecs: Codecs<R>, messages: seq<seq<byte>>, envelopes: seq<Envelope>) {
    && |messages| == |envelopes|
    && forall i :: 0 <= i < |messages| ==> Carries(codecs, messages[i], envelopes[i])
  }

  lemma CarriedReads<R>(codecs: Codecs<R>, accepts: Envelope -> bool, message: seq<byte>, e: Envelope)
    requires Carries(codecs, message, e)
    ensures var read := ReadEntry(codecs, accepts, message);
            && (read.Some? <==> Wanted(codecs, accepts, e))
            && (read.Some? ==>
                  && read.value.message.envelope == e
                  && read.value.message.richText
                     == (if e.payload.richText.Some? then codecs.richText(e.payload.richText.value) else None)
                  && Matches(codecs.sha256, read.value.key, e))
  {
    EnvelopeRoundTrip(codecs.sha256, e);
    CheckedMatches(codecs.sha256, PushOf(e));
  }

  ghost predicate AllWanted<R>(codecs: Codecs<R>, accepts: Envelope -> bool, envelopes: seq<Envelope>) {
    forall i :: 0 <= i < |envelopes| ==> Wanted(codecs, accepts, envelopes[i])
  }

  ghost predicate AllDiffer(sha256: seq<byte> -> Digest32, envelopes: seq<Envelope>) {
    forall i, j :: 0 <= i < j < |envelopes| ==> !SameIdentity(sha256, envelopes[i], envelopes[j])
  }

  /**
   * Messages that carry envelopes are a good page exactly if each is one that the page asks for, with a readable
   * text, and no two have one identity; the page then is these envelopes with their texts.
   */
  lemma PageOfEnvelopes<R>(
    codecs: Codecs<R>, accepts: Envelope -> bool, messages: seq<seq<byte>>, envelopes: seq<Envelope>)
    requires CarryAll(codecs, messages, envelopes)
    ensures GoodPage(codecs, accepts, messages)
       <==> AllWanted(codecs, accepts, envelopes) && AllDiffer(codecs.sha256, envelopes)
    ensures GoodPage(codecs, accepts, messages) ==>
      forall i :: 0 <= i < |messages| ==>
        PageOf(codecs, accepts, messages)[i]
        == HistoricalMessage(envelopes[i],
                             if envelopes[i].payload.richText.Some?
                             then codecs.richText(envelopes[i].payload.richText.value) else None)
  {
    forall i | 0 <= i < |messages|
      ensures ReadEntry(codecs, accepts, messages[i]).Some? <==> Wanted(codecs, accepts, envelopes[i])
      ensures Wanted(codecs, accepts, envelopes[i]) ==>
        ReadEntry(codecs, accepts, messages[i]).value.message
        == HistoricalMessage(envelopes[i],
                             if envelopes[i].payload.richText.Some?
                             then codecs.richText(envelopes[i].payload.richText.value) else None)
    {
      CarriedReads(codecs, accepts, messages[i], envelopes[i]);
    }
    if AllWanted(codecs, accepts, envelopes) {
      forall i, j | 0 <= i < j < |messages|
        ensures ReadEntry(codecs, accepts, messages[i]).value.key == ReadEntry(codecs, accepts, messages[j]).value.key
           <==> SameIdentity(codecs.sha256, envelopes[i], envelopes[j])
      {
        CarriedReads(codecs, accepts, messages[i], envelopes[i]);
        CarriedReads(codecs, accepts, messages[j], envelopes[j]);
        MatchingKeysAgreeIff(codecs.sha256, ReadEntry(codecs, accepts, messages[i]).value.key, envelopes[i],
                             ReadEntry(codecs, accepts, messages[j]).value.key, envelopes[j]);
      }
    }
  }

  /** A group page asks for the group's own messages, numbered within the interval. */
  lemma GroupPageOfEnvelopes<R>(codecs: Codecs<R>, groupId: u32, start: u32, end: u32,
                                messages: seq<seq<byte>>, envelopes: seq<Envelope>)
    requires CarryAll(codecs, messages, envelopes)
    ensures GoodPage(codecs, e => InGroup(groupId, start, end, e), messages)
       <==> && AllDiffer(codecs.sha256, envelopes)
            && AllWanted(codecs, _ => true, envelopes)
            && forall i :: 0 <= i < |envelopes| ==>
                 && envelopes[i].class_.GroupMessage? && envelopes[i].route.groupUin == Some(groupId)
                 && (if start > 0 then start else 1) <= envelopes[i].sequence <= end
  {
    PageOfEnvelopes(codecs, e => InGroup(groupId, start, end, e), messages, envelopes);
  }

  /** A direct page asks for private messages from one of the two to the other, after zero and up to the given time. */
  lemma FriendPageOfEnvelopes<R>(codecs: Codecs<R>, contact: u32, self: u32, timestamp: u32,
                                 messages: seq<seq<byte>>, envelopes: seq<Envelope>)
    requires CarryAll(codecs, messages, envelopes) && contact != self
    ensures GoodPage(codecs, e => BetweenThem(contact, self, timestamp, e), messages)
       <==> && AllDiffer(codecs.sha256, envelopes)
            && AllWanted(codecs, _ => true, envelopes)
            && forall i :: 0 <= i < |envelopes| ==>
                 && envelopes[i].class_.Private? && 1 <= envelopes[i].timestamp <= timestamp
                 && {envelopes[i].route.fromUin, envelopes[i].route.toUin} == {contact, self}
  {
    PageOfEnvelopes(codecs, e => BetweenThem(contact, self, timestamp, e), messages, envelopes);
    forall i | 0 <= i < |envelopes| {
      TwoOfTwo(envelopes[i].route.fromUin, envelopes[i].route.toUin, contact, self);
    }
  }

  lemma TwoOfTwo(a: u32, b: u32, c: u32, d: u32)
    requires c != d
    ensures {a, b} == {c, d} <==> (a == c && b == d) || (a == d && b == c)
  {
    if {a, b} == {c, d} {
      assert a in {c, d} && b in {c, d} && c in {a, b} && d in {a, b};
    }
  }

  /** No message occurs twice in an accepted page, and every one satisfies the page's check. */
  lemma PageHasNoRepeats<R>(codecs: Codecs<R>, accepts: Envelope -> bool, messages: seq<seq<byte>>)
    requires GoodPage(codecs, accepts, messages)
    ensures var page := PageOf(codecs, accepts, messages);
            && (forall i :: 0 <= i < |page| ==> accepts(page[i].envelope))
            && forall i, j :: 0 <= i < j < |page| ==> page[i].envelope != page[j].envelope
  {
    var page := PageOf(codecs, accepts, messages);
    forall i, j | 0 <= i < j < |page| ensures page[i].envelope != page[j].envelope {
      var a, b := ReadEntry(codecs, accepts, messages[i]).value, ReadEntry(codecs, accepts, messages[j]).value;
      assert a.key != b.key;
      var x, y := codecs.body(messages[i]).value, codecs.body(messages[j]).value;
      assert Check(codecs.sha256, x).value.envelope == page[i].envelope;
      assert Check(codecs.sha256, y).value.envelope == page[j].envelope;
      if page[i].envelope == page[j].envelope {
        SameEnvelopeSameKey(codecs.sha256, x, y);
      }
    }
  }

  /** An interval of a hundred positions is the widest that can be asked for. */
  lemma IntervalsHaveAtMostAHundredPositions(groupId: u32, start: u32, end: u32, sequences: set<nat>)
    requires ValidInterval(groupId, start, end)
    requires forall s :: s in sequences <==> s != 0 && start <= s <= end
    ensures |sequences| == IntervalLength(start, end) <= MAX_HISTORY_MESSAGES
  {
    var first := if start > 1 then start else 1;
    SizeOfRange(first, end + 1);
    assert sequences == Range(first, end + 1);
  }

  function Range(low: nat, high: nat): (r: set<nat>)
    requires low <= high
    ensures forall x :: x in r <==> low <= x < high
    decreases high - low
  {
    if low == high then {} else Range(low, high - 1) + {high - 1}
  }

  lemma {:induction false} SizeOfRange(low: nat, high: nat)
    requires low <= high
    ensures |Range(low, high)| == high - low
    decreases high - low
  {
    if low < high {
      SizeOfRange(low, high - 1);
    }
  }
}
