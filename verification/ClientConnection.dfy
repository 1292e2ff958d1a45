/** The counter-bound connection: request ids and inner frames over the secure session. */
module ClientConnection {
  import opened Wrappers
  import opened Bytes
  import opened SecureFrame
  import SecureSession

  datatype ClientError =
    | Closed
    | Protocol
    | Codec(error: CodecError)
    | SessionBinding
    | Session(cause: SecureSession.SessionError)
    | CarrierFailed

  /** The inner message codec: a bounded encoder that may refuse, and its decoder. */
  datatype InnerCodec<!I> = InnerCodec(encode: I -> Option<seq<byte>>, decode: seq<byte> -> Option<I>)

  datatype State = State(session: SecureSession.State, sessionId: Id16, limits: WireLimits, closed: bool)

  predicate IsClosed(c: State) {
    c.closed || c.session.closed
  }

  function Shut(c: State): State {
    c.(closed := true)
  }

  function SealStep<I>(c: State, codec: InnerCodec<I>, encrypt: SecureSession.Encrypt, requestId: Id16, inner: I)
    : (State, Result<seq<byte>, ClientError>)
  {
    if IsClosed(c) then (c, Err(Closed))
    else if codec.encode(inner).None? then (c, Err(Protocol))
    else
      var plaintext := codec.encode(inner).value;
      var counter := c.session.sendNext;
      match EncodeHeader(c.sessionId, counter, requestId, |plaintext| + SecureSession.TAG_LEN, c.limits)
      case Err(e) => (c, Err(Codec(e)))
      case Ok(header) =>
        var (session, sealed) := SecureSession.SealStep(c.session, counter, header, plaintext, encrypt);
        var next := c.(session := session);
        match sealed
        case Err(e) => (next, Err(Session(e)))
        case Ok(ciphertext) =>
          match EncodeFrame(Frame(c.sessionId, counter, requestId, ciphertext), c.limits)
          case Err(e) => (next, Err(Codec(e)))
          case Ok(encoded) => (next, Ok(encoded))
  }

  function OpenStep<I>(c: State, codec: InnerCodec<I>, decrypt: SecureSession.Decrypt, encoded: seq<byte>)
    : (State, Result<(Id16, I), ClientError>)
  {
    if IsClosed(c) then (c, Err(Closed))
    else
      match DecodeFrame(encoded, c.limits)
      case Err(e) => (Shut(c), Err(Codec(e)))
      case Ok(frame) =>
        if frame.sessionId != c.sessionId then (Shut(c), Err(SessionBinding))
        else
          match EncodeHeader(frame.sessionId, frame.counter, frame.requestId, |frame.ciphertext|, c.limits)
          case Err(e) => (c, Err(Codec(e)))
          case Ok(header) =>
            var (session, clear) :=
              SecureSession.OpenStep(c.session, frame.counter, header, frame.ciphertext, decrypt);
            var next := c.(session := session);
            match clear
            case Err(e) => (Shut(next), Err(Session(e)))
            case Ok(plaintext) =>
              match codec.decode(plaintext)
              case None => (Shut(next), Err(Protocol))
              case Some(inner) => (next, Ok((frame.requestId, inner)))
  }

  class Connection {
    const session: SecureSession.Session
    const sessionId: Id16
    const limits: WireLimits
    var closed: bool

    function View(): State
      reads this, session
    {
      State(session.View(), sessionId, limits, closed)
    }

    constructor (session: SecureSession.Session, sessionId: Id16, limits: WireLimits)
      ensures this.session == session
      ensures View() == State(session.View(), sessionId, limits, false)
    {
      this.session := session;
      this.sessionId := sessionId;
      this.limits := limits;
      closed := false;
    }

    method Seal<I>(codec: InnerCodec<I>, encrypt: SecureSession.Encrypt, requestId: Id16, inner: I)
      returns (r: Result<seq<byte>, ClientError>)
      modifies this, session
      ensures (View(), r) == SealStep(old(View()), codec, encrypt, requestId, inner)
    {
      if closed || session.closed {
        return Err(Closed);
      }
      var plaintext := codec.encode(inner);
      var counter := session.sendNext;
      if plaintext.None? {
        return Err(Protocol);
      }
      var header := EncodeHeader(sessionId, counter, requestId, |plaintext.value| + SecureSession.TAG_LEN, limits);
      if header.Err? {
        return Err(Codec(header.error));
      }
      var sealed := session.Seal(counter, header.value, plaintext.value, encrypt);
      if sealed.Err? {
        return Err(Session(sealed.error));
      }
      var encoded := EncodeFrame(Frame(sessionId, counter, requestId, sealed.value), limits);
      r := if encoded.Ok? then Ok(encoded.value) else Err(Codec(encoded.error));
    }

    method Open<I>(codec: InnerCodec<I>, decrypt: SecureSession.Decrypt, encoded: seq<byte>)
      returns (r: Result<(Id16, I), ClientError>)
      modifies this, session
      ensures (View(), r) == OpenStep(old(View()), codec, decrypt, encoded)
    {
      if closed || session.closed {
        return Err(Closed);
      }
      var decoded := DecodeFrame(encoded, limits);
      if decoded.Err? {
        closed := true;
        return Err(Codec(decoded.error));
      }
      var frame := decoded.value;
      if frame.sessionId != sessionId {
        closed := true;
        return Err(SessionBinding);
      }
      var header := EncodeHeader(frame.sessionId, frame.counter, frame.requestId, |frame.ciphertext|, limits);
      if header.Err? {
        return Err(Codec(header.error));
      }
      var clear := session.Open(frame.counter, header.value, frame.ciphertext, decrypt);
      if clear.Err? {
        closed := true;
        return Err(Session(clear.error));
      }
      var inner := codec.decode(clear.value);
      if inner.None? {
        closed := true;
        return Err(Protocol);
      }
      r := Ok((frame.requestId, inner.value));
    }
  }
}
