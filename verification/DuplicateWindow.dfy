/** The bounded duplicate window of message pushes. */
module DuplicateWindow {
  import opened Wrappers
  import opened Bytes
  import opened Sequences
  import Utf8

  const MAX_PUSH_LEN: nat := 1048576
  const MAX_UID_LEN: nat := 128
  const MAX_DISPLAY_TEXT_LEN: nat := 512
  const MAX_DEDUP_ENTRIES: nat := 2048

  datatype DecodeError = DecodeError

  // ---- decoded wire bodies ----

  datatype Group = Group(groupUin: u32, memberName: string, groupName: string)

  datatype ResponseHead = ResponseHead(
    fromUin: u32,
    fromUid: Option<string>,
    toUin: u32,
    toUid: Option<string>,
    forward: Option<Option<string>>,
    group: Option<Group>
  )

  datatype ForwardHead = ForwardHead(encodedValue: Option<string>, avatar: Option<string>)

  datatype ContentHead = ContentHead(
    messageType: u32,
    subType: Option<u32>,
    random: Option<int>,
    sequence: Option<u64>,
    timestamp: Option<int>,
    packageCount: Option<int>,
    packageIndex: Option<u32>,
    divisionSequence: Option<u32>,
    directMessageSequence: Option<u32>,
    messageUid: Option<u64>,
    forward: Option<ForwardHead>
  )

  datatype Payload = Payload(
    richText: Option<seq<byte>>,
    content: Option<seq<byte>>,
    encryptedContent: Option<seq<byte>>
  )

  datatype PushBody = PushBody(
    response: Option<ResponseHead>,
    content: Option<ContentHead>,
    body: Option<Payload>
  )

  // ---- envelopes and keys ----

  datatype MessageClass =
    | Private | Temporary | PrivateRecord | PrivateFile
    | GroupMessage | GroupJoinRequest | GroupInvitationRequest | GroupInvite
    | GroupAdministratorChange | GroupMemberIncrease | GroupMemberDecrease
    | FriendEvent | GroupEvent
    | Unknown(code: u32)

  function ClassFromWire(value: u32): MessageClass {
    match value
    case 166 => Private
    case 82 => GroupMessage
    case 141 => Temporary
    case 208 => PrivateRecord
    case 529 => PrivateFile
    case 84 => GroupJoinRequest
    case 525 => GroupInvitationRequest
    case 87 => GroupInvite
    case 44 => GroupAdministratorChange
    case 33 => GroupMemberIncrease
    case 34 => GroupMemberDecrease
    case 528 => FriendEvent
    case 732 => GroupEvent
    case other => Unknown(other)
  }

  datatype Route = Route(
    fromUin: u32,
    fromUid: Option<string>,
    toUin: u32,
    toUid: Option<string>,
    groupUin: Option<u32>,
    memberName: Option<string>,
    groupName: Option<string>,
    friendName: Option<string>
  )

  datatype Envelope = Envelope(
    class_: MessageClass,
    route: Route,
    payload: Payload,
    subType: u32,
    sequence: u64,
    random: int,
    timestamp: int,
    packageCount: int,
    packageIndex: u32,
    divisionSequence: u32,
    directMessageSequence: u32,
    messageUid: u64
  )

  datatype DedupKey = DedupKey(
    fromUin: u32,
    messageType: u32,
    subType: u32,
    sequence: u64,
    random: int,
    timestamp: int,
    packageIndex: u32,
    contentDigest: seq<byte>
  )

  /** `unwrap_or_default` */
  function OrElse<T>(o: Option<T>, default: T): T {
    match o
    case None => default
    case Some(value) => value
  }

  function NonEmpty(s: string): Option<string> {
    if s == [] then None else Some(s)
  }

  function RouteOf(response: ResponseHead): Route {
    var group := OrElse(response.group, Group(0, "", ""));
    Route(
      response.fromUin, response.fromUid, response.toUin, response.toUid,
      if group.groupUin != 0 then Some(group.groupUin) else None,
      NonEmpty(group.memberName), NonEmpty(group.groupName),
      OrElse(response.forward, None)
    )
  }

  function KeyOf(sha256: seq<byte> -> Digest32, response: ResponseHead, content: ContentHead, body: seq<byte>)
    : DedupKey
  {
    DedupKey(
      response.fromUin, content.messageType, OrElse(content.subType, 0), OrElse(content.sequence, 0),
      OrElse(content.random, 0), OrElse(content.timestamp, 0), OrElse(content.packageIndex, 0),
      sha256(body)[..8]
    )
  }

  function EnvelopeOf(response: ResponseHead, content: ContentHead, payload: Payload): Envelope {
    Envelope(
      ClassFromWire(content.messageType), RouteOf(response), payload,
      OrElse(content.subType, 0), OrElse(content.sequence, 0),
      OrElse(content.random, 0), OrElse(content.timestamp, 0),
      OrElse(content.packageCount, 0), OrElse(content.packageIndex, 0),
      OrElse(content.divisionSequence, 0), OrElse(content.directMessageSequence, 0), OrElse(content.messageUid, 0)
    )
  }

  // ---- validation ----

  predicate ValidText(value: string, maximum: nat) {
    Utf8.Len(value) <= maximum && '\0' !in value
  }

  predicate ValidOptional(value: Option<string>, maximum: nat) {
    value.Some? ==> ValidText(value.value, maximum)
  }

  predicate ValidResponse(response: ResponseHead) {
    && ValidOptional(response.fromUid, MAX_UID_LEN)
    && ValidOptional(response.toUid, MAX_UID_LEN)
    && (response.forward.Some? ==> ValidOptional(response.forward.value, MAX_DISPLAY_TEXT_LEN))
    && (response.group.Some? ==>
          ValidText(response.group.value.memberName, MAX_DISPLAY_TEXT_LEN)
          && ValidText(response.group.value.groupName, MAX_DISPLAY_TEXT_LEN))
  }

  predicate ValidContent(content: ContentHead) {
    && content.messageType != 0
    && (content.forward.Some? ==>
          ValidOptional(content.forward.value.encodedValue, MAX_DISPLAY_TEXT_LEN)
          && ValidOptional(content.forward.value.avatar, MAX_DISPLAY_TEXT_LEN))
  }

  predicate ValidInput(input: seq<byte>) {
    1 <= |input| <= MAX_PUSH_LEN
  }

  datatype Checked = Checked(key: DedupKey, envelope: Envelope)

  /** What a body that passes validation is, and the key it is known by. */
  function Check(sha256: seq<byte> -> Digest32, body: PushBody): Option<Checked> {
    if body.response.None? || body.content.None? then None
    else
      var response, content := body.response.value, body.content.value;
      if !ValidResponse(response) || !ValidContent(content) then None
      else
        var payload := OrElse(body.body, Payload(None, None, None));
        var key := KeyOf(sha256, response, content, OrElse(payload.content, []));
        Some(Checked(key, EnvelopeOf(response, content, payload)))
  }

  // ---- what an envelope says ----

  /** The message type of a class. */
  function WireOf(class_: MessageClass): u32 {
    match class_
    case GroupAdministratorChange => 44
    case GroupMemberDecrease => 34
    case GroupMemberIncrease => 33
    case GroupMessage => 82
    case GroupJoinRequest => 84
    case GroupInvite => 87
    case Temporary => 141
    case Private => 166
    case PrivateRecord => 208
    case GroupInvitationRequest => 525
    case FriendEvent => 528
    case PrivateFile => 529
    case GroupEvent => 732
    case Unknown(code) => code
  }

  /** The push that carries an envelope, every field present. */
  function PushOf(e: Envelope): PushBody {
    var r := e.route;
    PushBody(
      Some(ResponseHead(
        r.fromUin, r.fromUid, r.toUin, r.toUid, Some(r.friendName),
        Some(Group(OrElse(r.groupUin, 0), OrElse(r.memberName, ""), OrElse(r.groupName, ""))))),
      Some(ContentHead(
        WireOf(e.class_), Some(e.subType), Some(e.random), Some(e.sequence), Some(e.timestamp), Some(e.packageCount),
        Some(e.packageIndex), Some(e.divisionSequence), Some(e.directMessageSequence), Some(e.messageUid), None)),
      Some(e.payload))
  }

  /** An envelope that a push can give: known classes by name, no zero group, no empty name, no overlong text. */
  predicate Sendable(e: Envelope) {
    && WireOf(e.class_) != 0 && ClassFromWire(WireOf(e.class_)) == e.class_
    && e.route.groupUin != Some(0) && e.route.memberName != Some("") && e.route.groupName != Some("")
    && ValidOptional(e.route.fromUid, MAX_UID_LEN) && ValidOptional(e.route.toUid, MAX_UID_LEN)
    && ValidOptional(e.route.friendName, MAX_DISPLAY_TEXT_LEN)
    && ValidOptional(e.route.memberName, MAX_DISPLAY_TEXT_LEN)
    && ValidOptional(e.route.groupName, MAX_DISPLAY_TEXT_LEN)
  }

  /** Every envelope so sent is read back whole; all named classes can be. */
  lemma EnvelopeRoundTrip(sha256: seq<byte> -> Digest32, e: Envelope)
    ensures !e.class_.Unknown? ==> ClassFromWire(WireOf(e.class_)) == e.class_
    ensures Sendable(e) ==> Check(sha256, PushOf(e)).Some? && Check(sha256, PushOf(e)).value.envelope == e
  {
    assert Utf8.Len("") == 0;
  }

  ghost predicate IsShort(value: string, maximum: nat) {
    Utf8.Len(value) <= maximum && forall i :: 0 <= i < |value| ==> value[i] != '\0'
  }

  /** A push is read exactly if it has both heads, a message type, and no overlong text or zero character in it. */
  lemma PushAcceptedIff(sha256: seq<byte> -> Digest32, body: PushBody)
    ensures Check(sha256, body).Some?
       <==> && body.response.Some? && body.content.Some?
            && var r, c := body.response.value, body.content.value;
            && (r.fromUid.Some? ==> IsShort(r.fromUid.value, 128)) && (r.toUid.Some? ==> IsShort(r.toUid.value, 128))
            && (r.forward.Some? && r.forward.value.Some? ==> IsShort(r.forward.value.value, 512))
            && (r.group.Some? ==> IsShort(r.group.value.memberName, 512) && IsShort(r.group.value.groupName, 512))
            && c.messageType > 0
            && (c.forward.Some? ==>
                  && (c.forward.value.encodedValue.Some? ==> IsShort(c.forward.value.encodedValue.value, 512))
                  && (c.forward.value.avatar.Some? ==> IsShort(c.forward.value.avatar.value, 512)))
  {
  }

  /** What a push leaves out reads as zero, and a group without number or names as none. */
  lemma MissingFieldsAreDefaults(sha256: seq<byte> -> Digest32, response: ResponseHead, messageType: u32)
    requires ValidResponse(response) && messageType != 0 && response.group.None? && response.forward.None?
    ensures var content := ContentHead(messageType, None, None, None, None, None, None, None, None, None, None);
            var checked := Check(sha256, PushBody(Some(response), Some(content), None));
            && checked.Some?
            && checked.value.envelope
               == Envelope(ClassFromWire(messageType),
                           Route(response.fromUin, response.fromUid, response.toUin, response.toUid,
                                 None, None, None, None),
                           Payload(None, None, None), 0, 0, 0, 0, 0, 0, 0, 0, 0)
  {
  }

  lemma ClassKeepsType(a: u32, b: u32)
    requires ClassFromWire(a) == ClassFromWire(b)
    ensures a == b
  {
  }

  /** `key` is the key of a push that became `envelope`. */
  ghost predicate Matches(sha256: seq<byte> -> Digest32, key: DedupKey, envelope: Envelope) {
    && key.fromUin == envelope.route.fromUin
    && ClassFromWire(key.messageType) == envelope.class_
    && key.subType == envelope.subType && key.sequence == envelope.sequence
    && key.random == envelope.random && key.timestamp == envelope.timestamp
    && key.packageIndex == envelope.packageIndex
    && key.contentDigest == sha256(OrElse(envelope.payload.content, []))[..8]
  }

  /** All that the window looks at: not recipient, group, names, texts, package count or message uid. */
  predicate SameIdentity(sha256: seq<byte> -> Digest32, a: Envelope, b: Envelope) {
    && a.class_ == b.class_ && a.route.fromUin == b.route.fromUin
    && a.subType == b.subType && a.sequence == b.sequence && a.random == b.random
    && a.timestamp == b.timestamp && a.packageIndex == b.packageIndex
    && sha256(OrElse(a.payload.content, []))[..8] == sha256(OrElse(b.payload.content, []))[..8]
  }

  lemma CheckedMatches(sha256: seq<byte> -> Digest32, body: PushBody)
    requires Check(sha256, body).Some?
    ensures Matches(sha256, Check(sha256, body).value.key, Check(sha256, body).value.envelope)
  {
  }

  lemma MatchingKeysAgreeIff(sha256: seq<byte> -> Digest32, k: DedupKey, a: Envelope, l: DedupKey, b: Envelope)
    requires Matches(sha256, k, a) && Matches(sha256, l, b)
    ensures k == l <==> SameIdentity(sha256, a, b)
  {
    if SameIdentity(sha256, a, b) {
      ClassKeepsType(k.messageType, l.messageType);
    }
  }

  /** Two pushes have one key exactly if their envelopes have one identity. */
  lemma KeysAgreeIffSameIdentity(sha256: seq<byte> -> Digest32, a: PushBody, b: PushBody)
    requires Check(sha256, a).Some? && Check(sha256, b).Some?
    ensures Check(sha256, a).value.key == Check(sha256, b).value.key
       <==> SameIdentity(sha256, Check(sha256, a).value.envelope, Check(sha256, b).value.envelope)
  {
    CheckedMatches(sha256, a);
    CheckedMatches(sha256, b);
    MatchingKeysAgreeIff(sha256, Check(sha256, a).value.key, Check(sha256, a).value.envelope,
                         Check(sha256, b).value.key, Check(sha256, b).value.envelope);
  }

  /** So a push to another recipient can be taken for one that has been seen. */
  lemma RecipientIsNotPartOfTheKey(sha256: seq<byte> -> Digest32, body: PushBody, toUin: u32)
    requires Check(sha256, body).Some? && toUin != body.response.value.toUin
    ensures var other := Check(sha256, body.(response := Some(body.response.value.(toUin := toUin))));
            && other.Some? && other.value.envelope != Check(sha256, body).value.envelope
            && other.value.key == Check(sha256, body).value.key
  {
    KeysAgreeIffSameIdentity(sha256, body, body.(response := Some(body.response.value.(toUin := toUin))));
  }

  /** In particular the key is a function of the envelope. */
  lemma SameEnvelopeSameKey(sha256: seq<byte> -> Digest32, a: PushBody, b: PushBody)
    requires Check(sha256, a).Some? && Check(sha256, b).Some?
    requires Check(sha256, a).value.envelope == Check(sha256, b).value.envelope
    ensures Check(sha256, a).value.key == Check(sha256, b).value.key
  {
    KeysAgreeIffSameIdentity(sha256, a, b);
  }

  // ---- the window ----

  /** The last 2048 entries. */
  function Recent<T>(admitted: seq<T>): (r: seq<T>)
    ensures |r| <= MAX_DEDUP_ENTRIES && |r| <= |admitted|
  {
    if |admitted| <= MAX_DEDUP_ENTRIES then admitted else admitted[|admitted| - MAX_DEDUP_ENTRIES..]
  }

  /** An entry comes back only after 2048 others. */
  ghost predicate Spaced<T>(admitted: seq<T>) {
    forall i, j :: 0 <= i < j < |admitted| && admitted[i] == admitted[j] ==> j - i > MAX_DEDUP_ENTRIES
  }

  lemma RecentAt<T>(admitted: seq<T>, k: nat)
    requires k < |Recent(admitted)|
    ensures Recent(admitted)[k] == admitted[|admitted| - |Recent(admitted)| + k]
  {
  }

  lemma RecentOfSpaced<T>(admitted: seq<T>)
    requires Spaced(admitted)
    ensures Distinct(Recent(admitted))
  {
    forall i, j | 0 <= i < j < |Recent(admitted)| ensures Recent(admitted)[i] != Recent(admitted)[j] {
      RecentAt(admitted, i);
      RecentAt(admitted, j);
    }
  }

  /** Admitting what the window lacks keeps entries spaced. */
  lemma AdmissionKeepsSpacing<T>(admitted: seq<T>, x: T)
    requires Spaced(admitted) && x !in Recent(admitted)
    ensures Spaced(admitted + [x])
  {
    forall i | 0 <= i < |admitted| && |admitted| - i <= MAX_DEDUP_ENTRIES ensures admitted[i] != x {
      RecentAt(admitted, i - (|admitted| - |Recent(admitted)|));
    }
  }

  /** The window slides by at most one. */
  lemma RecentSlides<T>(admitted: seq<T>, x: T)
    ensures var grown := Recent(admitted) + [x];
            Recent(admitted + [x]) == if |grown| > MAX_DEDUP_ENTRIES then grown[1..] else grown
  {
  }

  /** The keys admitted out of a run of them. */
  function AdmittedOf<T(==)>(keys: seq<T>): (admitted: seq<T>) {
    if keys == [] then []
    else
      var before, key := AdmittedOf(keys[..|keys| - 1]), keys[|keys| - 1];
      if key in Recent(before) then before else before + [key]
  }

  /** In every run, no key is admitted twice within 2048 admissions. */
  lemma {:induction false} AdmissionsAreSpaced<T>(keys: seq<T>)
    ensures Spaced(AdmittedOf(keys)) && |AdmittedOf(keys)| <= |keys|
  {
    if keys != [] {
      AdmissionsAreSpaced(keys[..|keys| - 1]);
      var before, key := AdmittedOf(keys[..|keys| - 1]), keys[|keys| - 1];
      if key !in Recent(before) {
        AdmissionKeepsSpacing(before, key);
      }
    }
  }

  /** Within 2048 pushes nothing expires: every key is admitted once, and a run without repeats is admitted whole. */
  lemma {:induction false} ShortRunsAdmitEachKeyOnce<T>(keys: seq<T>)
    requires |keys| <= MAX_DEDUP_ENTRIES
    ensures Distinct(AdmittedOf(keys)) && |AdmittedOf(keys)| <= |keys|
    ensures forall x :: x in AdmittedOf(keys) <==> x in keys
    ensures AdmittedOf(keys) == keys <==> Distinct(keys)
  {
    if keys != [] {
      var front, key := keys[..|keys| - 1], keys[|keys| - 1];
      ShortRunsAdmitEachKeyOnce(front);
      assert keys == front + [key];
      if Distinct(keys) {
        assert Distinct(front);
      }
    }
  }

  datatype Disposition = Duplicate | New(envelope: Envelope)

  /** Every key ever admitted goes with the envelope it was admitted for. */
  ghost predicate AllMatch(sha256: seq<byte> -> Digest32, keys: seq<DedupKey>, envelopes: seq<Envelope>) {
    && |keys| == |envelopes|
    && forall i :: 0 <= i < |keys| ==> Matches(sha256, keys[i], envelopes[i])
  }

  /** Some recently admitted envelope has the identity of `envelope`. */
  ghost predicate Recognised(sha256: seq<byte> -> Digest32, envelopes: seq<Envelope>, envelope: Envelope) {
    exists i :: 0 <= i < |Recent(envelopes)| && SameIdentity(sha256, Recent(envelopes)[i], envelope)
  }

  lemma RecentMember<K, E>(keys: seq<K>, values: seq<E>, key: K, test: E -> bool)
    requires |keys| == |values| && forall i :: 0 <= i < |keys| ==> (keys[i] == key <==> test(values[i]))
    ensures key in Recent(keys) <==> exists i :: 0 <= i < |Recent(values)| && test(Recent(values)[i])
  {
    forall i | 0 <= i < |Recent(keys)| ensures Recent(keys)[i] == key <==> test(Recent(values)[i]) {
      RecentAt(keys, i);
      RecentAt(values, i);
    }
  }

  /** Looking for the key is looking for the identity. */
  lemma KeyIsRecentIffRecognised(
    sha256: seq<byte> -> Digest32, keys: seq<DedupKey>, envelopes: seq<Envelope>, key: DedupKey, envelope: Envelope)
    requires AllMatch(sha256, keys, envelopes) && Matches(sha256, key, envelope)
    ensures key in Recent(keys) <==> Recognised(sha256, envelopes, envelope)
  {
    forall i | 0 <= i < |keys| ensures keys[i] == key <==> SameIdentity(sha256, envelopes[i], envelope) {
      MatchingKeysAgreeIff(sha256, keys[i], envelopes[i], key, envelope);
    }
    RecentMember(keys, envelopes, key, e => SameIdentity(sha256, e, envelope));
  }

  /** `MessageDecoder`; `admitted` and `envelopes` remember what was ever admitted, in order. */
  class MessageDecoder {
    const sha256: seq<byte> -> Digest32
    var seen: set<DedupKey>
    var order: seq<DedupKey>
    ghost var admitted: seq<DedupKey>
    ghost var envelopes: seq<Envelope>

    ghost predicate Valid()
      reads this
    {
      && (forall key :: key in seen <==> key in order)
      && order == Recent(admitted)
      && Spaced(admitted)
      && AllMatch(sha256, admitted, envelopes)
    }

    constructor (sha256: seq<byte> -> Digest32)
      ensures Valid() && admitted == [] && this.sha256 == sha256
    {
      this.sha256 := sha256;
      seen, order, admitted, envelopes := {}, [], [], [];
    }

    method Admit(body: PushBody) returns (r: Result<Disposition, DecodeError>)
      requires Valid()
      modifies this
      ensures Valid()
      ensures r.Err? <==> Check(sha256, body).None?
      ensures r.Err? || r.value.Duplicate? ==> admitted == old(admitted) && envelopes == old(envelopes)
      ensures r.Ok? ==>
        var c := Check(sha256, body).value;
        && (r.value.Duplicate? <==> c.key in Recent(old(admitted)))
        && (r.value.Duplicate? <==> Recognised(sha256, old(envelopes), c.envelope))
        && (r.value.New? ==>
              && r.value.envelope == c.envelope
              && admitted == old(admitted) + [c.key] && envelopes == old(envelopes) + [c.envelope])
    {
      if body.response.None? || body.content.None? {
        return Err(DecodeError.DecodeError);
      }
      var response, content := body.response.value, body.content.value;
      if !ValidResponse(response) || !ValidContent(content) {
        return Err(DecodeError.DecodeError);
      }
      var payload := OrElse(body.body, Payload(None, None, None));
      var key := KeyOf(sha256, response, content, OrElse(payload.content, []));
      var envelope := EnvelopeOf(response, content, payload);
      CheckedMatches(sha256, body);
      KeyIsRecentIffRecognised(sha256, admitted, envelopes, key, envelope);
      if key in seen {
        return Ok(Duplicate);
      }
      Remember(key, envelope);
      r := Ok(New(envelope));
    }

    /** The insertion, and the expiry of the oldest key beyond 2048. */
    method Remember(key: DedupKey, ghost envelope: Envelope)
      requires Valid() && key !in seen && Matches(sha256, key, envelope)
      modifies this
      ensures Valid() && admitted == old(admitted) + [key] && envelopes == old(envelopes) + [envelope]
    {
      AdmissionKeepsSpacing(admitted, key);
      RecentSlides(admitted, key);
      RecentOfSpaced(admitted);
      ghost var grown := order + [key];
      assert Distinct(grown);
      seen := seen + {key};
      order := order + [key];
      admitted, envelopes := admitted + [key], envelopes + [envelope];
      if |order| > MAX_DEDUP_ENTRIES {
        HeadLeaves(grown);
        var expired := order[0];
        order := order[1..];
        seen := seen - {expired};
      }
    }

    /** `retained_dedup_entries` */
    method RetainedDedupEntries() returns (n: nat)
      requires Valid()
      ensures n == |Recent(admitted)| <= MAX_DEDUP_ENTRIES
    {
      RecentOfSpaced(admitted);
      SetOfDistinct(seen, order);
      n := |seen|;
    }
  }

  lemma HeadLeaves<T>(s: seq<T>)
    requires s != [] && Distinct(s)
    ensures forall x :: x in s[1..] <==> x in s && x != s[0]
  {
    forall x ensures x in s[1..] <==> x in s && x != s[0] {
      assert s == [s[0]] + s[1..];
    }
  }

  lemma {:induction false} SetOfDistinct<T>(s: set<T>, q: seq<T>)
    requires Distinct(q) && forall x :: x in s <==> x in q
    ensures |s| == |q|
    decreases |q|
  {
    if q == [] {
      assert s == {};
    } else {
      HeadLeaves(q);
      SetOfDistinct(s - {q[0]}, q[1..]);
    }
  }
}
