/** The stateful transport pair: strict counters per direction, a message cap and a terminal close. */
module SecureSession {
  import opened Wrappers
  import opened Bytes

  const TAG_LEN: nat := 16
  const MAX_MESSAGE_LEN: nat := 65_535
  const DEFAULT_MESSAGE_LIMIT: nat := 0x10_0000

  datatype SessionError =
    | InvalidLimit
    | SessionClosed
    | CounterMismatch
    | SessionExpired
    | MessageTooLarge
    | AuthenticationFailed

  /** Encryption under one key: nonce, associated data and plaintext to ciphertext. */
  type Encrypt = (nat, seq<byte>, seq<byte>) -> seq<byte>
  /** Decryption under one key: nonce, associated data and ciphertext to plaintext. */
  type Decrypt = (nat, seq<byte>, seq<byte>) -> Option<seq<byte>>

  type MessageLimit = n: nat | 1 <= n <= DEFAULT_MESSAGE_LIMIT witness 1

  datatype State = State(sendNext: u64, receiveNext: u64, messageLimit: MessageLimit, closed: bool)

  const INITIAL := State(0, 0, DEFAULT_MESSAGE_LIMIT, false)

  function SealStep(s: State, counter: nat, header: seq<byte>, plaintext: seq<byte>, encrypt: Encrypt)
    : (State, Result<seq<byte>, SessionError>)
  {
    if s.closed then (s, Err(SessionClosed))
    else if counter != s.sendNext then (s.(closed := true), Err(CounterMismatch))
    else if counter >= s.messageLimit then (s.(closed := true), Err(SessionExpired))
    else if |plaintext| > MAX_MESSAGE_LEN - TAG_LEN then (s, Err(MessageTooLarge))
    else (s.(sendNext := s.sendNext + 1), Ok(encrypt(s.sendNext, header, plaintext)))
  }

  function OpenStep(s: State, counter: nat, header: seq<byte>, ciphertext: seq<byte>, decrypt: Decrypt)
    : (State, Result<seq<byte>, SessionError>)
  {
    if s.closed then (s, Err(SessionClosed))
    else if counter != s.receiveNext then (s.(closed := true), Err(CounterMismatch))
    else if counter >= s.messageLimit then (s.(closed := true), Err(SessionExpired))
    else if !(TAG_LEN <= |ciphertext| <= MAX_MESSAGE_LEN) then (s, Err(MessageTooLarge))
    else
      match decrypt(s.receiveNext, header, ciphertext)
      case None => (s.(closed := true), Err(AuthenticationFailed))
      case Some(plaintext) => (s.(receiveNext := s.receiveNext + 1), Ok(plaintext))
  }

  class Session {
    var sendNext: u64
    var receiveNext: u64
    var messageLimit: MessageLimit
    var closed: bool

    function View(): State
      reads this
    {
      State(sendNext, receiveNext, messageLimit, closed)
    }

    constructor ()
      ensures View() == INITIAL
    {
      sendNext, receiveNext, messageLimit, closed := 0, 0, DEFAULT_MESSAGE_LIMIT, false;
    }

    method WithMessageLimit(limit: nat) returns (r: Result<(), SessionError>)
      modifies this`messageLimit
      ensures r.Ok? <==> 1 <= limit <= DEFAULT_MESSAGE_LIMIT
      ensures messageLimit == if r.Ok? then limit else old(messageLimit)
    {
      if limit == 0 || limit > DEFAULT_MESSAGE_LIMIT {
        return Err(InvalidLimit);
      }
      messageLimit := limit;
      r := Ok(());
    }

    method Seal(counter: nat, header: seq<byte>, plaintext: seq<byte>, encrypt: Encrypt)
      returns (r: Result<seq<byte>, SessionError>)
      modifies this
      ensures (View(), r) == SealStep(old(View()), counter, header, plaintext, encrypt)
    {
      if closed {
        return Err(SessionClosed);
      }
      if counter != sendNext {
        closed := true;
        return Err(CounterMismatch);
      }
      if counter >= messageLimit {
        closed := true;
        return Err(SessionExpired);
      }
      if |plaintext| > MAX_MESSAGE_LEN - TAG_LEN {
        return Err(MessageTooLarge);
      }
      r := Ok(encrypt(sendNext, header, plaintext));
      sendNext := sendNext + 1;
    }

    method Open(counter: nat, header: seq<byte>, ciphertext: seq<byte>, decrypt: Decrypt)
      returns (r: Result<seq<byte>, SessionError>)
      modifies this
      ensures (View(), r) == OpenStep(old(View()), counter, header, ciphertext, decrypt)
    {
      if closed {
        return Err(SessionClosed);
      }
      if counter != receiveNext {
        closed := true;
        return Err(CounterMismatch);
      }
      if counter >= messageLimit {
        closed := true;
        return Err(SessionExpired);
      }
      if !(TAG_LEN <= |ciphertext| <= MAX_MESSAGE_LEN) {
        return Err(MessageTooLarge);
      }
      var clear := decrypt(receiveNext, header, ciphertext);
      if clear.None? {
        closed := true;
        return Err(AuthenticationFailed);
      }
      receiveNext := receiveNext + 1;
      r := Ok(clear.value);
    }
  }
}
