/** The byte strings hashed to bind exchanges, action flows and action observations. */
module BindingTranscripts {
  import opened Wrappers
  import opened Bytes
  import opened Sequences
  import OpaqueSlots
  import IncrementalHash

  const OPAQUE_DOMAIN: string := "ceylith/v2/opaque-binding/v1"
  const FLOW_DOMAIN: string := "ceylith/v3/action-flow/v1"
  const OBSERVATION_DOMAIN: string := "ceylith/v3/action-observation/v1"

  datatype Outcome = Response | TransportFailure | Timeout | Cancelled | StaleTransport | LocalEncodeFailure

  function OutcomeCode(outcome: Outcome): u32 {
    match outcome
    case Response => 1
    case TransportFailure => 2
    case Timeout => 3
    case Cancelled => 4
    case StaleTransport => 5
    case LocalEncodeFailure => 6
  }

  datatype FlowContext = FlowContext(
    flowId: Id16,
    accountSlotId: Id16,
    loginEpoch: u64,
    onlineEpoch: u64,
    transportEpoch: u64,
    expiresAtMs: u64
  )

  datatype Observation = Observation(
    flowId: Id16,
    actionId: Id16,
    actionDigest: Digest32,
    outcome: Outcome,
    payload: seq<byte>,
    observedAtMs: u64
  )

  /** Everything that is ever bound by one of the three digests. */
  datatype Bound =
    | Exchange(exchangeId: Id16, accountSlotId: Id16, generation: u64, expiresAtMs: u64, slots: seq<OpaqueSlots.Slot>)
    | Flow(context: FlowContext, inputs: seq<OpaqueSlots.Slot>)
    | Observed(observation: Observation)

  /** The octets of an ASCII literal. */
  function Ascii(s: string): (b: seq<byte>)
    ensures |b| == |s|
  {
    seq(|s|, i requires 0 <= i < |s| => s[i] as int % 256)
  }

  /** `u32::try_from(n).unwrap_or(u32::MAX)` in big-endian bytes. */
  function LengthBytes(n: nat): (b: seq<byte>)
    ensures |b| == 4
  {
    U32Bytes(if n <= U32_MAX then n else U32_MAX)
  }

  function SlotBytes(slot: OpaqueSlots.Slot): seq<byte> {
    U32Bytes(slot.id) + LengthBytes(|slot.value|) + slot.value
  }

  function SlotsBytes(slots: seq<OpaqueSlots.Slot>): (b: seq<byte>)
    ensures b == [] <==> slots == []
  {
    if slots == [] then [] else SlotBytes(slots[0]) + SlotsBytes(slots[1..])
  }

  /** Slots preceded by their number. */
  function CountedSlots(slots: seq<OpaqueSlots.Slot>): seq<byte> {
    LengthBytes(|slots|) + SlotsBytes(slots)
  }

  function Domain(b: Bound): seq<byte> {
    match b
    case Exchange(_, _, _, _, _) => Ascii(OPAQUE_DOMAIN)
    case Flow(_, _) => Ascii(FLOW_DOMAIN)
    case Observed(_) => Ascii(OBSERVATION_DOMAIN)
  }

  /** Everything before the slots or the payload: a string whose length depends on the kind alone. */
  function Header(b: Bound): seq<byte> {
    match b
    case Exchange(exchangeId, accountSlotId, generation, expiresAtMs, _) =>
      Domain(b) + exchangeId + accountSlotId + U64Bytes(generation) + U64Bytes(expiresAtMs)
    case Flow(c, _) =>
      Domain(b) + c.flowId + c.accountSlotId + U64Bytes(c.loginEpoch) + U64Bytes(c.onlineEpoch)
      + U64Bytes(c.transportEpoch) + U64Bytes(c.expiresAtMs)
    case Observed(o) =>
      Domain(b) + o.flowId + o.actionId + o.actionDigest + U32Bytes(OutcomeCode(o.outcome))
      + U64Bytes(o.observedAtMs) + LengthBytes(|o.payload|)
  }

  function Transcript(b: Bound): seq<byte> {
    match b
    case Exchange(_, _, _, _, slots) => Header(b) + CountedSlots(slots)
    case Flow(_, inputs) => Header(b) + CountedSlots(inputs)
    case Observed(o) => Header(b) + o.payload
  }

  // ---- the incremental hasher ----

  type Hasher = IncrementalHash.Hasher<Digest32>

  /** The first update of a fresh hash. */
  method Begin(hash: seq<byte> -> Digest32, domain: string) returns (digest: Hasher)
    ensures fresh(digest) && digest.hash == hash && digest.fed == Ascii(domain)
  {
    digest := new IncrementalHash.Hasher(hash);
    digest.Update(Ascii(domain));
    assert [] + Ascii(domain) == Ascii(domain);
  }

  lemma {:induction false} SlotsBytesAppend(slots: seq<OpaqueSlots.Slot>, slot: OpaqueSlots.Slot)
    ensures SlotsBytes(slots + [slot]) == SlotsBytes(slots) + SlotBytes(slot)
  {
    if slots == [] {
      assert [slot][1..] == [];
    } else {
      assert (slots + [slot])[1..] == slots[1..] + [slot];
      SlotsBytesAppend(slots[1..], slot);
    }
  }

  method UpdateSlot(digest: Hasher, slot: OpaqueSlots.Slot)
    modifies digest
    ensures digest.fed == old(digest.fed) + SlotBytes(slot)
  {
    ghost var id, length := U32Bytes(slot.id), LengthBytes(|slot.value|);
    digest.Update(U32Bytes(slot.id));
    digest.Update(LengthBytes(|slot.value|));
    digest.Update(slot.value);
    Regroup(old(digest.fed), id, length);
    Regroup(old(digest.fed), id + length, slot.value);
  }

  /** The loop shared by the exchange and flow digests. */
  method UpdateSlots(digest: Hasher, slots: seq<OpaqueSlots.Slot>)
    modifies digest
    ensures digest.fed == old(digest.fed) + CountedSlots(slots)
  {
    digest.Update(LengthBytes(|slots|));
    ghost var start := digest.fed;
    assert start + [] == start;
    for i := 0 to |slots|
      invariant digest.fed == start + SlotsBytes(slots[..i])
    {
      UpdateSlot(digest, slots[i]);
      Regroup(start, SlotsBytes(slots[..i]), SlotBytes(slots[i]));
      SlotsBytesAppend(slots[..i], slots[i]);
      assert slots[..i + 1] == slots[..i] + [slots[i]];
    }
    assert slots[..|slots|] == slots;
    Regroup(old(digest.fed), LengthBytes(|slots|), SlotsBytes(slots));
  }

  method OpaqueBindingDigest(hash: seq<byte> -> Digest32, exchangeId: Id16, accountSlotId: Id16, generation: u64,
                             expiresAtMs: u64, slots: seq<OpaqueSlots.Slot>)
    returns (r: Digest32)
    ensures r == hash(Transcript(Exchange(exchangeId, accountSlotId, generation, expiresAtMs, slots)))
  {
    var digest := Begin(hash, OPAQUE_DOMAIN);
    digest.Update(exchangeId);
    digest.Update(accountSlotId);
    digest.Update(U64Bytes(generation));
    digest.Update(U64Bytes(expiresAtMs));
    UpdateSlots(digest, slots);
    r := digest.Finalize();
  }

  method ActionFlowBindingDigest(hash: seq<byte> -> Digest32, context: FlowContext, inputs: seq<OpaqueSlots.Slot>)
    returns (r: Digest32)
    ensures r == hash(Transcript(Flow(context, inputs)))
  {
    var digest := Begin(hash, FLOW_DOMAIN);
    digest.Update(context.flowId);
    digest.Update(context.accountSlotId);
    digest.Update(U64Bytes(context.loginEpoch));
    digest.Update(U64Bytes(context.onlineEpoch));
    digest.Update(U64Bytes(context.transportEpoch));
    digest.Update(U64Bytes(context.expiresAtMs));
    UpdateSlots(digest, inputs);
    r := digest.Finalize();
  }

  method ActionObservationBindingDigest(hash: seq<byte> -> Digest32, observation: Observation) returns (r: Digest32)
    ensures r == hash(Transcript(Observed(observation)))
  {
    var digest := Begin(hash, OBSERVATION_DOMAIN);
    digest.Update(observation.flowId);
    digest.Update(observation.actionId);
    digest.Update(observation.actionDigest);
    digest.Update(U32Bytes(OutcomeCode(observation.outcome)));
    digest.Update(U64Bytes(observation.observedAtMs));
    digest.Update(LengthBytes(|observation.payload|));
    digest.Update(observation.payload);
    r := digest.Finalize();
  }

  // ---- the layout ----

  function OutcomeFrom(code: nat): Option<Outcome> {
    match code
    case 1 => Some(Response)
    case 2 => Some(TransportFailure)
    case 3 => Some(Timeout)
    case 4 => Some(Cancelled)
    case 5 => Some(StaleTransport)
    case 6 => Some(LocalEncodeFailure)
    case _ => None
  }

  /** The eight octets at `at`, as a number. */
  function U64At(b: seq<byte>, at: nat): nat
    requires at + 8 <= |b|
  {
    FromBigEndian(b[at..at + 8])
  }

  function U32At(b: seq<byte>, at: nat): nat
    requires at + 4 <= |b|
  {
    FromBigEndian(b[at..at + 4])
  }

  /** `n` slots from the head of `b`, each its number, the length of its value and the value. */
  function ReadSlots(n: nat, b: seq<byte>): Option<(seq<OpaqueSlots.SlotData>, seq<byte>)> {
    if n == 0 then Some(([], b))
    else if |b| < 8 || |b| < 8 + U32At(b, 4) then None
    else
      U32Range(b[..4]);
      var slot := OpaqueSlots.SlotData(U32At(b, 0), b[8..8 + U32At(b, 4)]);
      match ReadSlots(n - 1, b[8 + U32At(b, 4)..])
      case None => None
      case Some((slots, rest)) => Some(([slot] + slots, rest))
  }

  lemma SlotReads(slot: OpaqueSlots.Slot, tail: seq<byte>)
    ensures var b := SlotBytes(slot) + tail;
            && |b| >= 8 + |slot.value|
            && U32At(b, 0) == slot.id && U32At(b, 4) == |slot.value|
            && b[8..8 + |slot.value|] == slot.value && b[8 + |slot.value|..] == tail
  {
    var b := SlotBytes(slot) + tail;
    U32RoundTrip(slot.id);
    U32RoundTrip(|slot.value|);
    assert b[0..4] == U32Bytes(slot.id) && b[4..8] == LengthBytes(|slot.value|);
  }

  lemma {:induction false} SlotsReadBack(slots: seq<OpaqueSlots.Slot>, rest: seq<byte>)
    ensures ReadSlots(|slots|, SlotsBytes(slots) + rest) == Some((slots, rest))
  {
    if slots == [] {
      assert [] + rest == rest;
    } else {
      var tail := SlotsBytes(slots[1..]) + rest;
      Regroup(SlotBytes(slots[0]), SlotsBytes(slots[1..]), rest);
      SlotReads(slots[0], tail);
      SlotsReadBack(slots[1..], rest);
      assert [slots[0]] + slots[1..] == slots;
    }
  }

  /** Where everything stands in the transcript of an exchange. */
  lemma ExchangeLayout(b: Bound)
    requires b.Exchange?
    ensures var t := Transcript(b);
            && |t| >= 80
            && t[..28] == Ascii("ceylith/v2/opaque-binding/v1")
            && t[28..44] == b.exchangeId && t[44..60] == b.accountSlotId
            && U64At(t, 60) == b.generation && U64At(t, 68) == b.expiresAtMs
            && (|b.slots| <= U32_MAX ==> U32At(t, 76) == |b.slots|)
            && ReadSlots(|b.slots|, t[80..]) == Some((b.slots, []))
  {
    ExchangeSlices(b);
    U64RoundTrip(b.generation);
    U64RoundTrip(b.expiresAtMs);
    CountReads(|b.slots|);
    SlotsReadBack(b.slots, []);
  }

  lemma ExchangeSlices(b: Bound)
    requires b.Exchange?
    ensures var t := Transcript(b);
            && |t| >= 80
            && t[..28] == Ascii(OPAQUE_DOMAIN) && t[28..44] == b.exchangeId && t[44..60] == b.accountSlotId
            && t[60..68] == U64Bytes(b.generation) && t[68..76] == U64Bytes(b.expiresAtMs)
            && t[76..80] == LengthBytes(|b.slots|) && t[80..] == SlotsBytes(b.slots) + []
  {
    var ids := Ascii(OPAQUE_DOMAIN) + b.exchangeId + b.accountSlotId;
    ThenTwo(ids, U64Bytes(b.generation), U64Bytes(b.expiresAtMs), CountedSlots(b.slots));
    var t := Transcript(b);
    assert t[..60] == ids;
    assert t[..28] == ids[..28] && t[28..44] == ids[28..44] && t[44..60] == ids[44..60];
    assert t[76..] == CountedSlots(b.slots);
    assert t[76..80] == t[76..][..4] && t[80..] == t[76..][4..];
  }

  lemma ThenTwo(ids: seq<byte>, a: seq<byte>, b: seq<byte>, rest: seq<byte>)
    requires |ids| == 60 && |a| == |b| == 8
    ensures var t := ids + a + b + rest;
            && t[..60] == ids && t[60..68] == a && t[68..76] == b && t[76..] == rest
  {
  }

  lemma CountReads(n: nat)
    ensures n <= U32_MAX ==> FromBigEndian(LengthBytes(n)) == n
  {
    if n <= U32_MAX {
      U32RoundTrip(n);
    }
  }

  lemma FlowLayout(b: Bound)
    requires b.Flow?
    ensures var t, c := Transcript(b), b.context;
            && |t| >= 93
            && t[..25] == Ascii("ceylith/v3/action-flow/v1")
            && t[25..41] == c.flowId && t[41..57] == c.accountSlotId
            && U64At(t, 57) == c.loginEpoch && U64At(t, 65) == c.onlineEpoch
            && U64At(t, 73) == c.transportEpoch && U64At(t, 81) == c.expiresAtMs
            && (|b.inputs| <= U32_MAX ==> U32At(t, 89) == |b.inputs|)
            && ReadSlots(|b.inputs|, t[93..]) == Some((b.inputs, []))
  {
    var c := b.context;
    FlowSlices(b);
    U64RoundTrip(c.loginEpoch);
    U64RoundTrip(c.onlineEpoch);
    U64RoundTrip(c.transportEpoch);
    U64RoundTrip(c.expiresAtMs);
    CountReads(|b.inputs|);
    SlotsReadBack(b.inputs, []);
  }

  lemma FlowSlices(b: Bound)
    requires b.Flow?
    ensures var t, c := Transcript(b), b.context;
            && |t| >= 93
            && t[..25] == Ascii(FLOW_DOMAIN) && t[25..41] == c.flowId && t[41..57] == c.accountSlotId
            && t[57..65] == U64Bytes(c.loginEpoch) && t[65..73] == U64Bytes(c.onlineEpoch)
            && t[73..81] == U64Bytes(c.transportEpoch) && t[81..89] == U64Bytes(c.expiresAtMs)
            && t[89..93] == LengthBytes(|b.inputs|) && t[93..] == SlotsBytes(b.inputs) + []
  {
    var c := b.context;
    var ids := Ascii(FLOW_DOMAIN) + c.flowId + c.accountSlotId;
    ThenFourNumbers(ids, U64Bytes(c.loginEpoch), U64Bytes(c.onlineEpoch), U64Bytes(c.transportEpoch),
                U64Bytes(c.expiresAtMs), CountedSlots(b.inputs));
    var t := Transcript(b);
    assert t[..57] == ids;
    assert t[..25] == ids[..25] && t[25..41] == ids[25..41] && t[41..57] == ids[41..57];
    assert t[89..] == CountedSlots(b.inputs);
    assert t[89..93] == t[89..][..4] && t[93..] == t[89..][4..];
  }

  lemma ThenFourNumbers(
    ids: seq<byte>, a: seq<byte>, b: seq<byte>, c: seq<byte>, d: seq<byte>, rest: seq<byte>)
    requires |ids| == 57 && |a| == |b| == |c| == |d| == 8
    ensures var t := ids + a + b + c + d + rest;
            && t[..57] == ids && t[57..65] == a && t[65..73] == b && t[73..81] == c && t[81..89] == d && t[89..] == rest
  {
  }

  lemma ObservationLayout(b: Bound)
    requires b.Observed?
    ensures var t, o := Transcript(b), b.observation;
            && |t| >= 112
            && t[..32] == Ascii("ceylith/v3/action-observation/v1")
            && t[32..48] == o.flowId && t[48..64] == o.actionId && t[64..96] == o.actionDigest
            && OutcomeFrom(U32At(t, 96)) == Some(o.outcome) && U64At(t, 100) == o.observedAtMs
            && (|o.payload| <= U32_MAX ==> U32At(t, 108) == |o.payload|)
            && t[112..] == o.payload
  {
    var o := b.observation;
    ObservationSlices(b);
    U32RoundTrip(OutcomeCode(o.outcome));
    U64RoundTrip(o.observedAtMs);
    CountReads(|o.payload|);
  }

  lemma ObservationSlices(b: Bound)
    requires b.Observed?
    ensures var t, o := Transcript(b), b.observation;
            && |t| >= 112
            && t[..32] == Ascii(OBSERVATION_DOMAIN) && t[32..48] == o.flowId && t[48..64] == o.actionId
            && t[64..96] == o.actionDigest && t[96..100] == U32Bytes(OutcomeCode(o.outcome))
            && t[100..108] == U64Bytes(o.observedAtMs) && t[108..112] == LengthBytes(|o.payload|)
            && t[112..] == o.payload
  {
    var o := b.observation;
    var ids := Ascii(OBSERVATION_DOMAIN) + o.flowId + o.actionId;
    ThenFour(ids, o.actionDigest, U32Bytes(OutcomeCode(o.outcome)), U64Bytes(o.observedAtMs),
             LengthBytes(|o.payload|), o.payload);
    var t := Transcript(b);
    assert t[..64] == ids;
    assert t[..32] == ids[..32] && t[32..48] == ids[32..48] && t[48..64] == ids[48..64];
  }

  lemma ThenFour(ids: seq<byte>, a: seq<byte>, b: seq<byte>, c: seq<byte>, d: seq<byte>, rest: seq<byte>)
    requires |ids| == 64 && |a| == 32 && |b| == 4 && |c| == 8 && |d| == 4
    ensures var t := ids + a + b + c + d + rest;
            && t[..64] == ids && t[64..96] == a && t[96..100] == b && t[100..108] == c && t[108..112] == d
            && t[112..] == rest
  {
  }

  // ---- unambiguity ----

  lemma U64Injective(a: u64, b: u64)
    requires U64Bytes(a) == U64Bytes(b)
    ensures a == b
  {
    U64RoundTrip(a);
    U64RoundTrip(b);
  }

  lemma U32Injective(a: u32, b: u32)
    requires U32Bytes(a) == U32Bytes(b)
    ensures a == b
  {
    U32RoundTrip(a);
    U32RoundTrip(b);
  }

  /** A slot's bytes show where it ends. */
  lemma SlotIsSelfDelimiting(a: OpaqueSlots.Slot, x: seq<byte>, b: OpaqueSlots.Slot, y: seq<byte>)
    requires SlotBytes(a) + x == SlotBytes(b) + y
    ensures a == b && x == y
  {
    var idA, idB := U32Bytes(a.id), U32Bytes(b.id);
    var lenA, lenB := LengthBytes(|a.value|), LengthBytes(|b.value|);
    assert SlotBytes(a) + x == idA + (lenA + (a.value + x));
    assert SlotBytes(b) + y == idB + (lenB + (b.value + y));
    SplitEqual(idA, lenA + (a.value + x), idB, lenB + (b.value + y));
    SplitEqual(lenA, a.value + x, lenB, b.value + y);
    U32Injective(a.id, b.id);
    U32Injective(|a.value|, |b.value|);
    SplitEqual(a.value, x, b.value, y);
  }

  lemma {:induction false} SlotsBytesInjective(a: seq<OpaqueSlots.Slot>, b: seq<OpaqueSlots.Slot>)
    requires SlotsBytes(a) == SlotsBytes(b)
    ensures a == b
    decreases |a|
  {
    if a != [] && b != [] {
      SlotIsSelfDelimiting(a[0], SlotsBytes(a[1..]), b[0], SlotsBytes(b[1..]));
      SlotsBytesInjective(a[1..], b[1..]);
      assert a == [a[0]] + a[1..] && b == [b[0]] + b[1..];
    }
  }

  lemma CountedSlotsInjective(a: seq<OpaqueSlots.Slot>, b: seq<OpaqueSlots.Slot>)
    requires CountedSlots(a) == CountedSlots(b)
    ensures a == b
  {
    SplitEqual(LengthBytes(|a|), SlotsBytes(a), LengthBytes(|b|), SlotsBytes(b));
    SlotsBytesInjective(a, b);
  }

  /** One number off the end of two equal strings. */
  lemma PeelU64(x: seq<byte>, a: u64, y: seq<byte>, b: u64)
    requires |x| == |y| && x + U64Bytes(a) == y + U64Bytes(b)
    ensures x == y && a == b
  {
    SplitEqual(x, U64Bytes(a), y, U64Bytes(b));
    U64Injective(a, b);
  }

  lemma ExchangeHeaderInjective(a: Bound, b: Bound)
    requires a.Exchange? && b.Exchange? && Header(a) == Header(b)
    ensures a.(slots := b.slots) == b
  {
    var slotA, slotB := Domain(a) + a.exchangeId + a.accountSlotId, Domain(b) + b.exchangeId + b.accountSlotId;
    PeelU64(slotA + U64Bytes(a.generation), a.expiresAtMs, slotB + U64Bytes(b.generation), b.expiresAtMs);
    PeelU64(slotA, a.generation, slotB, b.generation);
    SplitEqual(Domain(a) + a.exchangeId, a.accountSlotId, Domain(b) + b.exchangeId, b.accountSlotId);
    SplitEqual(Domain(a), a.exchangeId, Domain(b), b.exchangeId);
  }

  lemma FlowHeaderInjective(a: Bound, b: Bound)
    requires a.Flow? && b.Flow? && Header(a) == Header(b)
    ensures a.context == b.context
  {
    var c, d := a.context, b.context;
    var slotA, slotB := Domain(a) + c.flowId + c.accountSlotId, Domain(b) + d.flowId + d.accountSlotId;
    var loginA, loginB := slotA + U64Bytes(c.loginEpoch), slotB + U64Bytes(d.loginEpoch);
    var onlineA, onlineB := loginA + U64Bytes(c.onlineEpoch), loginB + U64Bytes(d.onlineEpoch);
    PeelU64(onlineA + U64Bytes(c.transportEpoch), c.expiresAtMs, onlineB + U64Bytes(d.transportEpoch), d.expiresAtMs);
    PeelU64(onlineA, c.transportEpoch, onlineB, d.transportEpoch);
    PeelU64(loginA, c.onlineEpoch, loginB, d.onlineEpoch);
    PeelU64(slotA, c.loginEpoch, slotB, d.loginEpoch);
    SplitEqual(Domain(a) + c.flowId, c.accountSlotId, Domain(b) + d.flowId, d.accountSlotId);
    SplitEqual(Domain(a), c.flowId, Domain(b), d.flowId);
  }

  lemma ObservationHeaderInjective(a: Bound, b: Bound)
    requires a.Observed? && b.Observed? && Header(a) == Header(b)
    ensures a.observation.(payload := b.observation.payload) == b.observation
  {
    var o, p := a.observation, b.observation;
    var flowA, flowB := Domain(a) + o.flowId, Domain(b) + p.flowId;
    var digestA, digestB := flowA + o.actionId + o.actionDigest, flowB + p.actionId + p.actionDigest;
    var codeA, codeB := U32Bytes(OutcomeCode(o.outcome)), U32Bytes(OutcomeCode(p.outcome));
    SplitEqual(digestA + codeA + U64Bytes(o.observedAtMs), LengthBytes(|o.payload|),
               digestB + codeB + U64Bytes(p.observedAtMs), LengthBytes(|p.payload|));
    PeelU64(digestA + codeA, o.observedAtMs, digestB + codeB, p.observedAtMs);
    SplitEqual(digestA, codeA, digestB, codeB);
    U32Injective(OutcomeCode(o.outcome), OutcomeCode(p.outcome));
    SplitEqual(flowA + o.actionId, o.actionDigest, flowB + p.actionId, p.actionDigest);
    SplitEqual(flowA, o.actionId, flowB, p.actionId);
    SplitEqual(Domain(a), o.flowId, Domain(b), p.flowId);
  }

  lemma TranscriptBegins(b: Bound, i: nat)
    requires i < |Domain(b)|
    ensures i < |Transcript(b)| && Transcript(b)[i] == Domain(b)[i]
  {
    assert i < |Header(b)| && Header(b)[i] == Domain(b)[i];
  }

  /** Two positions that tell the kinds apart. */
  lemma DomainMarks(b: Bound)
    ensures |Transcript(b)| > 18
    ensures Transcript(b)[9] == (if b.Exchange? then '2' else '3') as int
    ensures !b.Exchange? ==> Transcript(b)[18] == (if b.Flow? then 'f' else 'o') as int
  {
    match b
    case Exchange(_, _, _, _, _) =>
      OpaqueMarks();
      TranscriptBegins(b, 9);
      assert Domain(b)[9] == OPAQUE_DOMAIN[9] as int % 256;
    case Flow(_, _) =>
      FlowMarks();
      TranscriptBegins(b, 9);
      TranscriptBegins(b, 18);
      assert Domain(b)[9] == FLOW_DOMAIN[9] as int % 256 && Domain(b)[18] == FLOW_DOMAIN[18] as int % 256;
    case Observed(_) =>
      ObservationMarks();
      TranscriptBegins(b, 9);
      TranscriptBegins(b, 18);
      assert Domain(b)[9] == OBSERVATION_DOMAIN[9] as int % 256 && Domain(b)[18] == OBSERVATION_DOMAIN[18] as int % 256;
  }

  lemma OpaqueMarks()
    ensures |OPAQUE_DOMAIN| == 28 && OPAQUE_DOMAIN[9] == '2'
  {
  }

  lemma FlowMarks()
    ensures |FLOW_DOMAIN| == 25 && FLOW_DOMAIN[9] == '3' && FLOW_DOMAIN[18] == 'f'
  {
  }

  lemma ObservationMarks()
    ensures |OBSERVATION_DOMAIN| == 32 && OBSERVATION_DOMAIN[9] == '3' && OBSERVATION_DOMAIN[18] == 'o'
  {
  }

  /** The domains differ within their first nineteen bytes. */
  lemma DomainsTellKinds(a: Bound, b: Bound)
    requires Transcript(a) == Transcript(b)
    ensures (a.Exchange? <==> b.Exchange?) && (a.Flow? <==> b.Flow?)
  {
    DomainMarks(a);
    DomainMarks(b);
  }

  /** Equal transcripts are about the same kind of request with the same inputs, all of them. */
  lemma TranscriptsAreUnambiguous(a: Bound, b: Bound)
    requires Transcript(a) == Transcript(b)
    ensures a == b
  {
    DomainsTellKinds(a, b);
    if a.Exchange? {
      SplitEqual(Header(a), CountedSlots(a.slots), Header(b), CountedSlots(b.slots));
      ExchangeHeaderInjective(a, b);
      CountedSlotsInjective(a.slots, b.slots);
    } else if a.Flow? {
      SplitEqual(Header(a), CountedSlots(a.inputs), Header(b), CountedSlots(b.inputs));
      FlowHeaderInjective(a, b);
      CountedSlotsInjective(a.inputs, b.inputs);
    } else {
      SplitEqual(Header(a), a.observation.payload, Header(b), b.observation.payload);
      ObservationHeaderInjective(a, b);
    }
  }

  predicate Collide(hash: seq<byte> -> Digest32, x: seq<byte>, y: seq<byte>) {
    x != y && hash(x) == hash(y)
  }

  /** Two different bound requests share a digest only if their two transcripts are a collision of the hash. */
  lemma EqualDigestsNeedACollision(hash: seq<byte> -> Digest32, a: Bound, b: Bound)
    requires a != b
    ensures Transcript(a) != Transcript(b)
    ensures hash(Transcript(a)) == hash(Transcript(b)) <==> Collide(hash, Transcript(a), Transcript(b))
  {
    if Transcript(a) == Transcript(b) {
      TranscriptsAreUnambiguous(a, b);
    }
  }
}
