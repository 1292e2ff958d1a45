/** The encrypted outer frame: a fixed 52-byte header, authenticated as associated data, and a ciphertext. */
module SecureFrame {
  import opened Wrappers
  import opened Bytes

  const HARD_MAX_OUTER_FRAME_LEN: nat := 2 * 1024 * 1024
  const HEADER_LEN: nat := 52
  const MAGIC: seq<byte> := [0x43, 0x59, 0x46, 0x32]
  const WIRE_VERSION: nat := 2

  datatype CodecError =
    | LengthLimitExceeded
    | Truncated
    | TrailingBytes
    | InvalidMagic
    | UnsupportedVersion
    | InvalidFlags

  /** Limits may only tighten the compiled bounds. */
  datatype WireLimits = WireLimits(ciphertext: nat, innerFrame: nat)

  predicate WithinHardBounds(l: WireLimits) {
    l.ciphertext <= HARD_MAX_OUTER_FRAME_LEN - HEADER_LEN && l.innerFrame <= HARD_MAX_OUTER_FRAME_LEN
  }

  datatype Frame = Frame(sessionId: Id16, counter: u64, requestId: Id16, ciphertext: seq<byte>)

  function EncodeHeader(sessionId: Id16, counter: u64, requestId: Id16, ciphertextLen: nat, limits: WireLimits)
    : (r: Result<seq<byte>, CodecError>)
    ensures r.Ok? ==> |r.value| == HEADER_LEN
  {
    if ciphertextLen > limits.ciphertext || HEADER_LEN + ciphertextLen > HARD_MAX_OUTER_FRAME_LEN then
      Err(LengthLimitExceeded)
    else
      Ok(MAGIC + BigEndian(WIRE_VERSION, 2) + [0, 0] + sessionId + U64Bytes(counter) + requestId
         + U32Bytes(ciphertextLen))
  }

  function EncodeFrame(f: Frame, limits: WireLimits): Result<seq<byte>, CodecError> {
    var header :- EncodeHeader(f.sessionId, f.counter, f.requestId, |f.ciphertext|, limits);
    Ok(header + f.ciphertext)
  }

  function DecodeFrame(input: seq<byte>, limits: WireLimits): Result<Frame, CodecError> {
    if |input| < HEADER_LEN then Err(Truncated)
    else if input[..4] != MAGIC then Err(InvalidMagic)
    else if FromBigEndian(input[4..6]) != WIRE_VERSION then Err(UnsupportedVersion)
    else if input[6..8] != [0, 0] then Err(InvalidFlags)
    else
      U64Range(input[24..32]);
      var counter := FromBigEndian(input[24..32]);
      var declared := FromBigEndian(input[48..52]);
      if declared > limits.ciphertext then Err(LengthLimitExceeded)
      else if |input| < HEADER_LEN + declared then Err(Truncated)
      else if |input| > HEADER_LEN + declared then Err(TrailingBytes)
      else Ok(Frame(input[8..24], counter, input[32..48], input[52..]))
  }

  /** The header determines every value in it. */
  lemma HeaderInjective(s1: Id16, c1: u64, r1: Id16, n1: nat, l1: WireLimits,
                        s2: Id16, c2: u64, r2: Id16, n2: nat, l2: WireLimits)
    requires EncodeHeader(s1, c1, r1, n1, l1).Ok?
    requires EncodeHeader(s1, c1, r1, n1, l1) == EncodeHeader(s2, c2, r2, n2, l2)
    ensures s1 == s2 && c1 == c2 && r1 == r2 && n1 == n2
  {
    HeaderFields(s1, c1, r1, n1, l1);
    HeaderFields(s2, c2, r2, n2, l2);
    U64RoundTrip(c1);
    U64RoundTrip(c2);
    U32RoundTrip(n1);
    U32RoundTrip(n2);
  }

  /** Where everything stands in a header. */
  lemma HeaderFields(sessionId: Id16, counter: u64, requestId: Id16, n: nat, limits: WireLimits)
    requires EncodeHeader(sessionId, counter, requestId, n, limits).Ok?
    ensures var h := EncodeHeader(sessionId, counter, requestId, n, limits).value;
            && |h| == 52
            && h[..4] == [0x43, 0x59, 0x46, 0x32] && h[4..6] == BigEndian(2, 2) && h[6..8] == [0, 0]
            && h[8..24] == sessionId && h[24..32] == U64Bytes(counter)
            && h[32..48] == requestId && h[48..52] == U32Bytes(n)
  {
  }

  lemma DecodeOfEncodeFrame(f: Frame, limits: WireLimits, reader: WireLimits)
    requires EncodeFrame(f, limits).Ok?
    ensures DecodeFrame(EncodeFrame(f, limits).value, reader)
         == if |f.ciphertext| <= reader.ciphertext then Ok(f) else Err(LengthLimitExceeded)
  {
    var input := EncodeFrame(f, limits).value;
    var h := EncodeHeader(f.sessionId, f.counter, f.requestId, |f.ciphertext|, limits).value;
    HeaderFields(f.sessionId, f.counter, f.requestId, |f.ciphertext|, limits);
    forall lo, hi | 0 <= lo <= hi <= HEADER_LEN ensures input[lo..hi] == h[lo..hi] {
    }
    assert input[..4] == h[..4] == MAGIC;
    assert input[4..6] == h[4..6] && input[6..8] == h[6..8] && input[8..24] == h[8..24];
    assert input[24..32] == h[24..32] && input[32..48] == h[32..48] && input[48..52] == h[48..52];
    MachineWidths();
    DecodeOfEncode(WIRE_VERSION, 2);
    U64RoundTrip(f.counter);
    U32RoundTrip(|f.ciphertext|);
    assert input[52..] == f.ciphertext;
  }

  /** The encoding is canonical: whatever decodes is the encoding of what it decodes to. */
  lemma EncodeOfDecodeFrame(input: seq<byte>, limits: WireLimits)
    requires DecodeFrame(input, limits).Ok? && WithinHardBounds(limits)
    ensures EncodeFrame(DecodeFrame(input, limits).value, limits) == Ok(input)
  {
    var f := DecodeFrame(input, limits).value;
    U64Range(input[24..32]);
    U32Range(input[48..52]);
    MachineWidths();
    EncodeOfDecode(input[4..6]);
    var h := EncodeHeader(f.sessionId, f.counter, f.requestId, |f.ciphertext|, limits).value;
    HeaderFields(f.sessionId, f.counter, f.requestId, |f.ciphertext|, limits);
    assert h == h[..4] + h[4..6] + h[6..8] + h[8..24] + h[24..32] + h[32..48] + h[48..52];
    assert input == input[..4] + input[4..6] + input[6..8] + input[8..24] + input[24..32] + input[32..48]
                    + input[48..52] + input[52..];
  }
}
