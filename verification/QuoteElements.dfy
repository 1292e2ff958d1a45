/** Quote material retained with a message: bounded elements and their length-prefixed blob. */
module QuoteElements {
  import opened Wrappers
  import opened Bytes
  import Utf8

  datatype MessageStoreError = Configuration | Persistence

  const MAX_UID_BYTES: nat := 128
  const MAX_ELEMENTS: nat := 512
  const MAX_ELEMENT_BYTES: nat := 256 * 1024
  const MAX_TOTAL_BYTES: nat := 1024 * 1024

  type Element = seq<byte>

  datatype QuoteTarget = QuoteTarget(
    sequence: u32, messageUid: u64, senderUin: u32, senderUid: string, timestamp: u32, elements: seq<Element>)

  function TotalBytes(elements: seq<Element>): nat {
    if elements == [] then 0 else |elements[0]| + TotalBytes(elements[1..])
  }

  predicate BoundedElements(elements: seq<Element>) {
    forall i :: 0 <= i < |elements| ==> 0 < |elements[i]| <= MAX_ELEMENT_BYTES
  }

  predicate ValidQuote(q: QuoteTarget) {
    && q.sequence != 0 && q.messageUid != 0 && q.senderUin != 0
    && q.senderUid != [] && Utf8.Len(q.senderUid) <= MAX_UID_BYTES && !Utf8.HasControl(q.senderUid)
    && q.timestamp != 0
    && 0 < |q.elements| <= MAX_ELEMENTS && BoundedElements(q.elements)
    && TotalBytes(q.elements) <= MAX_TOTAL_BYTES
  }

  function NewQuote(
    sequence: u32, messageUid: u64, senderUin: u32, senderUid: string, timestamp: u32, elements: seq<Element>)
    : Result<QuoteTarget, MessageStoreError>
  {
    var q := QuoteTarget(sequence, messageUid, senderUin, senderUid, timestamp, elements);
    if ValidQuote(q) then Ok(q) else Err(Configuration)
  }

  /** One to 512 elements of 1 to 262144 octets. */
  ghost predicate Storable(elements: seq<Element>) {
    1 <= |elements| <= 512 && forall i :: 0 <= i < |elements| ==> 1 <= |elements[i]| <= 262_144
  }

  /** Quote material is accepted exactly for these, and holds what it was given. */
  lemma QuoteAcceptedIff(
    sequence: u32, messageUid: u64, senderUin: u32, senderUid: string, timestamp: u32, elements: seq<Element>)
    ensures var q := NewQuote(sequence, messageUid, senderUin, senderUid, timestamp, elements);
            && (q.Ok? <==>
                  && sequence > 0 && messageUid > 0 && senderUin > 0 && timestamp > 0
                  && senderUid != "" && Utf8.Len(senderUid) <= 128 && !Utf8.HasControl(senderUid)
                  && Storable(elements) && TotalBytes(elements) <= 1_048_576)
            && (q.Ok? ==>
                  && q.value.sequence == sequence && q.value.messageUid == messageUid
                  && q.value.senderUin == senderUin && q.value.senderUid == senderUid
                  && q.value.timestamp == timestamp && q.value.elements == elements)
  {
  }

  /** Each element behind its 32-bit length. */
  function Encoded(elements: seq<Element>): (b: seq<byte>) {
    if elements == [] then [] else BigEndian(|elements[0]|, 4) + elements[0] + Encoded(elements[1..])
  }

  /** The elements of a blob, given how many came before; `None` when it is malformed or too long. */
  function Decoded(b: seq<byte>, before: nat): (r: Option<seq<Element>>)
    decreases |b|
  {
    if b == [] then Some([])
    else if |b| < 4 then None
    else
      var length := FromBigEndian(b[..4]);
      if length == 0 || length > MAX_ELEMENT_BYTES || before >= MAX_ELEMENTS || 4 + length > |b| then None
      else
        Prefixed([b[4..4 + length]], Decoded(b[4 + length..], before + 1))
  }

  function Prefixed(front: seq<Element>, rest: Option<seq<Element>>): Option<seq<Element>> {
    if rest.Some? then Some(front + rest.value) else None
  }

  /** Everything `decode_elements` accepts. */
  predicate AcceptedBlob(b: seq<byte>) {
    0 < |b| <= MAX_TOTAL_BYTES + MAX_ELEMENTS * 4 && Decoded(b, 0).Some?
  }

  lemma {:induction false} EncodedLength(elements: seq<Element>)
    ensures |Encoded(elements)| == TotalBytes(elements) + 4 * |elements|
  {
    if elements != [] {
      EncodedLength(elements[1..]);
    }
  }

  lemma {:induction false} DecodedOfEncoded(elements: seq<Element>, before: nat)
    requires BoundedElements(elements) && before + |elements| <= MAX_ELEMENTS
    ensures Decoded(Encoded(elements), before) == Some(elements)
  {
    if elements != [] {
      var e := elements[0];
      var b := Encoded(elements);
      U32RoundTrip(|e|);
      assert b[..4] == BigEndian(|e|, 4);
      assert b[4..4 + |e|] == e;
      assert b[4 + |e|..] == Encoded(elements[1..]);
      DecodedOfEncoded(elements[1..], before + 1);
      assert elements == [e] + elements[1..];
    }
  }

  /** The first element of an accepted blob, and the blob after it. */
  lemma FirstElement(b: seq<byte>, before: nat) returns (e: Element, rest: seq<byte>)
    requires b != [] && Decoded(b, before).Some?
    ensures |rest| < |b| && Decoded(rest, before + 1).Some?
    ensures Decoded(b, before).value == [e] + Decoded(rest, before + 1).value
    ensures b == BigEndian(|e|, 4) + e + rest
  {
    var header := b[..4];
    var length := FromBigEndian(header);
    e, rest := b[4..4 + length], b[4 + length..];
    EncodeOfDecode(header);
    assert b == header + e + rest;
  }

  /** The blob is canonical: whatever decodes is the encoding of what it decodes to. */
  lemma {:induction false} EncodedOfDecoded(b: seq<byte>, before: nat)
    requires Decoded(b, before).Some?
    ensures Encoded(Decoded(b, before).value) == b
    decreases |b|
  {
    if b != [] {
      var e, rest := FirstElement(b, before);
      EncodedOfDecoded(rest, before + 1);
      EncodedCons(b, BigEndian(|e|, 4), e, rest, Decoded(rest, before + 1).value);
    }
  }

  lemma EncodedCons(b: seq<byte>, header: seq<byte>, e: Element, rest: seq<byte>, tail: seq<Element>)
    requires header == BigEndian(|e|, 4) && Encoded(tail) == rest && b == header + e + rest
    ensures Encoded([e] + tail) == b
  {
    assert ([e] + tail)[1..] == tail;
  }

  lemma {:induction false} DecodedIsBounded(b: seq<byte>, before: nat)
    requires Decoded(b, before).Some?
    ensures BoundedElements(Decoded(b, before).value)
    ensures b != [] ==> 1 <= |Decoded(b, before).value| <= MAX_ELEMENTS - before
    decreases |b|
  {
    if b != [] {
      var length := FromBigEndian(b[..4]);
      DecodedIsBounded(b[4 + length..], before + 1);
    }
  }

  /** The accepted blobs are exactly the encodings of storable elements that are not too long together. */
  lemma BlobAcceptedIff(b: seq<byte>)
    ensures AcceptedBlob(b) <==> |b| <= 1_050_624 && exists elements :: Storable(elements) && b == Encoded(elements)
  {
    if AcceptedBlob(b) {
      DecodedIsBounded(b, 0);
      EncodedOfDecoded(b, 0);
      assert Storable(Decoded(b, 0).value);
    } else if elements :| Storable(elements) && b == Encoded(elements) {
      DecodedOfEncoded(elements, 0);
      EncodedLength(elements);
    }
  }

  /** A valid quote's elements survive the blob. */
  lemma QuoteBlobRoundTrip(q: QuoteTarget)
    requires ValidQuote(q)
    ensures AcceptedBlob(Encoded(q.elements)) && Decoded(Encoded(q.elements), 0) == Some(q.elements)
  {
    EncodedLength(q.elements);
    DecodedOfEncoded(q.elements, 0);
  }

  method EncodeElements(q: QuoteTarget) returns (r: Result<seq<byte>, MessageStoreError>)
    ensures r.Ok? <==> forall i :: 0 <= i < |q.elements| ==> |q.elements[i]| <= U32_MAX
    ensures r.Ok? ==> r.value == Encoded(q.elements)
  {
    var output: seq<byte> := [];
    var i := 0;
    assert q.elements[0..] == q.elements;
    while i < |q.elements|
      invariant 0 <= i <= |q.elements|
      invariant output + Encoded(q.elements[i..]) == Encoded(q.elements)
      invariant forall j :: 0 <= j < i ==> |q.elements[j]| <= U32_MAX
    {
      var element := q.elements[i];
      if |element| > U32_MAX {
        return Err(Configuration);
      }
      EncodedStep(output, q.elements[i..]);
      assert q.elements[i..][1..] == q.elements[i + 1..];
      output := output + U32Bytes(|element|);
      output := output + element;
      i := i + 1;
    }
    assert q.elements[i..] == [];
    r := Ok(output);
  }

  lemma EncodedStep(output: seq<byte>, elements: seq<Element>)
    requires elements != []
    ensures output + Encoded(elements)
         == output + BigEndian(|elements[0]|, 4) + elements[0] + Encoded(elements[1..])
  {
  }

  method DecodeElements(input: seq<byte>) returns (r: Result<seq<Element>, MessageStoreError>)
    ensures r.Ok? <==> AcceptedBlob(input)
    ensures r.Ok? ==> Decoded(input, 0) == Some(r.value)
  {
    if input == [] || |input| > MAX_TOTAL_BYTES + MAX_ELEMENTS * 4 {
      return Err(Configuration);
    }
    var remaining := input;
    var elements: seq<Element> := [];
    assert Decoded(input, 0).Some? ==> [] + Decoded(input, 0).value == Decoded(input, 0).value;
    while remaining != []
      invariant Decoded(input, 0) == Prefixed(elements, Decoded(remaining, |elements|))
      decreases |remaining|
    {
      if |remaining| < 4 {
        return Err(Configuration);
      }
      var length := FromBigEndian(remaining[..4]);
      if length == 0 || length > MAX_ELEMENT_BYTES || |elements| >= MAX_ELEMENTS {
        return Err(Configuration);
      }
      if |remaining| - 4 < length {
        return Err(Configuration);
      }
      ghost var rest := Decoded(remaining[4 + length..], |elements| + 1);
      if rest.Some? {
        var element := remaining[4..4 + length];
        assert elements + ([element] + rest.value) == elements + [element] + rest.value;
      }
      elements := elements + [remaining[4..4 + length]];
      remaining := remaining[4 + length..];
    }
    assert elements + [] == elements;
    r := Ok(elements);
  }
}
