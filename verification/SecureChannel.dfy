/**
 * Two connections of one session over a network that may drop, duplicate, reorder and replace
 * frames. Decryption is ideal: under each key it opens exactly what that key's owner sealed at
 * the same nonce with the same associated data.
 */
module SecureChannel {
  import opened Wrappers
  import opened Bytes
  import opened SecureFrame
  import opened ClientConnection
  import SecureSession

  /** One encryption: its index in the log is its nonce. */
  datatype Sealed<I> = Sealed(requestId: Id16, inner: I, header: seq<byte>, plaintext: seq<byte>, ciphertext: seq<byte>)

  /** A connection with what it has encrypted, emitted and accepted so far. */
  datatype Side<I> = Side(
    conn: ClientConnection.State,
    log: seq<Sealed<I>>,
    emitted: seq<seq<byte>>,
    accepted: seq<(Id16, I)>)

  datatype Link<I> = Link(left: Side<I>, right: Side<I>)

  /** The sending keys of the two sides. */
  datatype Keys = Keys(left: SecureSession.Encrypt, right: SecureSession.Encrypt)

  /** The network hands a side any octets at all, whenever it likes. */
  datatype Event<I> =
    | SealBy(left: bool, requestId: Id16, inner: I)
    | DeliverTo(left: bool, encoded: seq<byte>)

  ghost predicate AddsTag(encrypt: SecureSession.Encrypt) {
    forall n, h, p :: |encrypt(n, h, p)| == |p| + SecureSession.TAG_LEN
  }

  ghost predicate Lossless<I(!new)>(codec: InnerCodec<I>) {
    forall i: I :: codec.encode(i).Some? ==> codec.decode(codec.encode(i).value) == Some(i)
  }

  function IdealDecrypt<I>(log: seq<Sealed<I>>): SecureSession.Decrypt {
    (n: nat, h, c) => if n < |log| && log[n].header == h && log[n].ciphertext == c then Some(log[n].plaintext) else None
  }

  function Seal<I>(s: Side<I>, codec: InnerCodec<I>, encrypt: SecureSession.Encrypt, requestId: Id16, inner: I)
    : Side<I>
  {
    var (conn, sealed) := SealStep(s.conn, codec, encrypt, requestId, inner);
    var counter := s.conn.session.sendNext;
    var log :=
      if conn.session.sendNext == counter || codec.encode(inner).None? then s.log
      else
        var plaintext := codec.encode(inner).value;
        var length := |plaintext| + SecureSession.TAG_LEN;
        var header := EncodeHeader(conn.sessionId, counter, requestId, length, conn.limits);
        if header.Err? then s.log
        else s.log + [Sealed(requestId, inner, header.value, plaintext, encrypt(counter, header.value, plaintext))];
    s.(conn := conn, log := log, emitted := if sealed.Ok? then s.emitted + [sealed.value] else s.emitted)
  }

  function Deliver<I>(s: Side<I>, codec: InnerCodec<I>, peerLog: seq<Sealed<I>>, encoded: seq<byte>): Side<I> {
    var (conn, result) := OpenStep(s.conn, codec, IdealDecrypt(peerLog), encoded);
    s.(conn := conn, accepted := if result.Ok? then s.accepted + [result.value] else s.accepted)
  }

  function Step<I>(k: Link<I>, codec: InnerCodec<I>, keys: Keys, e: Event<I>): Link<I> {
    match e
    case SealBy(true, requestId, inner) => k.(left := Seal(k.left, codec, keys.left, requestId, inner))
    case SealBy(false, requestId, inner) => k.(right := Seal(k.right, codec, keys.right, requestId, inner))
    case DeliverTo(true, encoded) => k.(left := Deliver(k.left, codec, k.right.log, encoded))
    case DeliverTo(false, encoded) => k.(right := Deliver(k.right, codec, k.left.log, encoded))
  }

  function Run<I>(k: Link<I>, codec: InnerCodec<I>, keys: Keys, events: seq<Event<I>>): Link<I>
    decreases |events|
  {
    if events == [] then k else Run(Step(k, codec, keys, events[0]), codec, keys, events[1..])
  }

  /** Two fresh connections of one session; limits and message caps may differ. */
  ghost predicate Fresh<I>(k: Link<I>) {
    && k.left == Side(k.left.conn, [], [], []) && k.right == Side(k.right.conn, [], [], [])
    && k.left.conn.session.sendNext == k.left.conn.session.receiveNext == 0
    && k.right.conn.session.sendNext == k.right.conn.session.receiveNext == 0
    && k.left.conn.sessionId == k.right.conn.sessionId
    && WithinHardBounds(k.left.conn.limits) && WithinHardBounds(k.right.conn.limits)
  }

  // ---- what can be sealed ----

  /** A message whose frame keeps within the limits of the connection. */
  predicate Framable<I>(c: ClientConnection.State, codec: InnerCodec<I>, inner: I) {
    && codec.encode(inner).Some?
    && var length := |codec.encode(inner).value| + SecureSession.TAG_LEN;
    length <= c.limits.ciphertext && HEADER_LEN + length <= HARD_MAX_OUTER_FRAME_LEN
  }

  predicate CanSeal<I>(c: ClientConnection.State, codec: InnerCodec<I>, inner: I) {
    && !IsClosed(c) && Framable(c, codec, inner)
    && |codec.encode(inner).value| + SecureSession.TAG_LEN <= SecureSession.MAX_MESSAGE_LEN
    && c.session.sendNext < c.session.messageLimit
  }

  /**
   * Sealing succeeds exactly then and uses up one counter. A message cap that is reached closes the session;
   * any other refusal leaves the connection as it was.
   */
  lemma SealsExactlyWhatItCan<I>(
    c: ClientConnection.State, codec: InnerCodec<I>, encrypt: SecureSession.Encrypt, requestId: Id16, inner: I)
    requires AddsTag(encrypt)
    ensures var (after, sealed) := SealStep(c, codec, encrypt, requestId, inner);
            var spent := !IsClosed(c) && Framable(c, codec, inner) && c.session.sendNext >= c.session.messageLimit;
            && (sealed.Ok? <==> CanSeal(c, codec, inner))
            && (sealed.Ok? ==> after == c.(session := c.session.(sendNext := c.session.sendNext + 1)))
            && (spent ==> sealed == Err(Session(SecureSession.SessionExpired)))
            && (spent ==> after == c.(session := c.session.(closed := true)))
            && (sealed.Err? && !spent ==> after == c)
            && (IsClosed(c) ==> sealed == Err(Closed))
            && (!IsClosed(c) && codec.encode(inner).None? ==> sealed == Err(Protocol))
            && (!IsClosed(c) && codec.encode(inner).Some? && !Framable(c, codec, inner) ==>
                  sealed == Err(Codec(LengthLimitExceeded)))
            && (sealed.Err? && !spent && !IsClosed(c) && Framable(c, codec, inner) ==>
                  sealed == Err(Session(SecureSession.MessageTooLarge)))
  {
  }

  // ---- the invariant, one direction at a time ----

  /** Entry `i` of the log is bound to counter `i` by its header, and its frame was emitted as number `i`. */
  ghost predicate Bound<I>(s: Side<I>, codec: InnerCodec<I>, i: nat)
    requires i < |s.log| == |s.emitted| && |s.log| <= U64_MAX
  {
    var e := s.log[i];
    && codec.encode(e.inner) == Some(e.plaintext)
    && SecureSession.TAG_LEN <= |e.ciphertext| <= SecureSession.MAX_MESSAGE_LEN
    && EncodeHeader(s.conn.sessionId, i, e.requestId, |e.ciphertext|, s.conn.limits) == Ok(e.header)
    && EncodeFrame(Frame(s.conn.sessionId, i, e.requestId, e.ciphertext), s.conn.limits) == Ok(s.emitted[i])
  }

  ghost predicate Sender<I>(s: Side<I>, codec: InnerCodec<I>) {
    && s.conn.session.sendNext == |s.log| == |s.emitted|
    && forall i: nat :: i < |s.log| ==> Bound(s, codec, i)
  }

  ghost predicate Receives<I>(from: Side<I>, to: Side<I>, codec: InnerCodec<I>) {
    && from.conn.sessionId == to.conn.sessionId
    && WithinHardBounds(to.conn.limits)
    && |to.accepted| <= to.conn.session.receiveNext <= |from.log|
    && (!IsClosed(to.conn) ==> |to.accepted| == to.conn.session.receiveNext)
    && forall i :: 0 <= i < |to.accepted| ==>
         to.accepted[i].0 == from.log[i].requestId && codec.decode(from.log[i].plaintext) == Some(to.accepted[i].1)
  }

  ghost predicate Inv<I>(k: Link<I>, codec: InnerCodec<I>) {
    && Sender(k.left, codec) && Sender(k.right, codec)
    && Receives(k.left, k.right, codec) && Receives(k.right, k.left, codec)
  }

  lemma SealKeepsSender<I>(s: Side<I>, codec: InnerCodec<I>, encrypt: SecureSession.Encrypt, requestId: Id16, inner: I)
    requires Sender(s, codec) && AddsTag(encrypt)
    ensures var n := Seal(s, codec, encrypt, requestId, inner);
            && Sender(n, codec) && s.log <= n.log && n.accepted == s.accepted
            && n.conn.session.receiveNext == s.conn.session.receiveNext
            && n.conn.sessionId == s.conn.sessionId && n.conn.limits == s.conn.limits
            && (IsClosed(s.conn) ==> n == s)
  {
    var n := Seal(s, codec, encrypt, requestId, inner);
    if n.log != s.log {
      var counter := |s.log|;
      var plaintext := codec.encode(inner).value;
      assert |encrypt(counter, n.log[counter].header, plaintext)| == |plaintext| + SecureSession.TAG_LEN;
      assert Bound(n, codec, counter);
      forall i: nat | i < |s.log| ensures Bound(n, codec, i) {
        assert Bound(s, codec, i);
      }
    } else {
      forall i: nat | i < |n.log| ensures Bound(n, codec, i) {
        assert Bound(s, codec, i);
      }
    }
  }

  /** An open that gets past decryption was given exactly the next frame the peer emitted. */
  lemma OpenedIsNextFrame<I>(from: Side<I>, to: Side<I>, codec: InnerCodec<I>, encoded: seq<byte>)
    requires Sender(from, codec) && Receives(from, to, codec) && !IsClosed(to.conn)
    requires OpenStep(to.conn, codec, IdealDecrypt(from.log), encoded).0.session.receiveNext
          != to.conn.session.receiveNext
    ensures var n := to.conn.session.receiveNext;
            && n < |from.log| && encoded == from.emitted[n]
            && DecodeFrame(encoded, to.conn.limits)
               == Ok(Frame(from.conn.sessionId, n, from.log[n].requestId, from.log[n].ciphertext))
  {
    var n := to.conn.session.receiveNext;
    var frame := DecodeFrame(encoded, to.conn.limits).value;
    var length := |frame.ciphertext|;
    var header := EncodeHeader(frame.sessionId, frame.counter, frame.requestId, length, to.conn.limits).value;
    assert frame.counter == n && n < |from.log| && from.log[n].header == header;
    assert Bound(from, codec, n);
    HeaderInjective(frame.sessionId, frame.counter, frame.requestId, |frame.ciphertext|, to.conn.limits,
                    from.conn.sessionId, n, from.log[n].requestId, |from.log[n].ciphertext|, from.conn.limits);
    EncodeOfDecodeFrame(encoded, to.conn.limits);
  }

  lemma DeliverKeepsReceives<I>(from: Side<I>, to: Side<I>, codec: InnerCodec<I>, encoded: seq<byte>)
    requires Sender(from, codec) && Receives(from, to, codec) && Sender(to, codec)
    ensures var n := Deliver(to, codec, from.log, encoded);
            && Receives(from, n, codec) && Sender(n, codec)
            && n.log == to.log && n.emitted == to.emitted && to.accepted <= n.accepted
            && n.conn.sessionId == to.conn.sessionId && n.conn.limits == to.conn.limits
            && (IsClosed(to.conn) ==> n == to)
  {
    var n := Deliver(to, codec, from.log, encoded);
    if !IsClosed(to.conn) && n.conn.session.receiveNext != to.conn.session.receiveNext {
      OpenedIsNextFrame(from, to, codec, encoded);
    }
    forall i: nat | i < |n.log| ensures Bound(n, codec, i) {
      assert Bound(to, codec, i);
    }
  }

  lemma StepKeepsInv<I>(k: Link<I>, codec: InnerCodec<I>, keys: Keys, e: Event<I>)
    requires Inv(k, codec) && AddsTag(keys.left) && AddsTag(keys.right)
    ensures Inv(Step(k, codec, keys, e), codec)
  {
    match e
    case SealBy(true, requestId, inner) => SealKeepsSender(k.left, codec, keys.left, requestId, inner);
    case SealBy(false, requestId, inner) => SealKeepsSender(k.right, codec, keys.right, requestId, inner);
    case DeliverTo(true, encoded) => DeliverKeepsReceives(k.right, k.left, codec, encoded);
    case DeliverTo(false, encoded) => DeliverKeepsReceives(k.left, k.right, codec, encoded);
  }

  lemma {:induction false} RunKeepsInv<I>(k: Link<I>, codec: InnerCodec<I>, keys: Keys, events: seq<Event<I>>)
    requires Inv(k, codec) && AddsTag(keys.left) && AddsTag(keys.right)
    ensures Inv(Run(k, codec, keys, events), codec)
    decreases |events|
  {
    if events != [] {
      StepKeepsInv(k, codec, keys, events[0]);
      RunKeepsInv(Step(k, codec, keys, events[0]), codec, keys, events[1..]);
    }
  }

  // ---- what every run guarantees ----

  function Messages<I>(log: seq<Sealed<I>>): (m: seq<(Id16, I)>)
    ensures |m| == |log| && forall i :: 0 <= i < |log| ==> m[i] == (log[i].requestId, log[i].inner)
  {
    seq(|log|, i requires 0 <= i < |log| => (log[i].requestId, log[i].inner))
  }

  /** Whatever the network does, each side has accepted a prefix of what the other sealed. */
  lemma AcceptedIsPrefixOfSealed<I(!new)>(k: Link<I>, codec: InnerCodec<I>, keys: Keys, events: seq<Event<I>>)
    requires Fresh(k) && AddsTag(keys.left) && AddsTag(keys.right) && Lossless(codec)
    ensures var end := Run(k, codec, keys, events);
            end.right.accepted <= Messages(end.left.log) && end.left.accepted <= Messages(end.right.log)
  {
    RunKeepsInv(k, codec, keys, events);
    var end := Run(k, codec, keys, events);
    PrefixOf(end.left, end.right, codec);
    PrefixOf(end.right, end.left, codec);
  }

  lemma PrefixOf<I(!new)>(from: Side<I>, to: Side<I>, codec: InnerCodec<I>)
    requires Sender(from, codec) && Receives(from, to, codec) && Lossless(codec)
    ensures to.accepted <= Messages(from.log)
  {
    forall i | 0 <= i < |to.accepted| ensures to.accepted[i] == Messages(from.log)[i] {
      assert Bound(from, codec, i);
    }
  }

  /** Frame `i` of a side decodes, under any limits wide enough, to counter `i` and the logged message. */
  ghost predicate Numbered<I>(s: Side<I>) {
    && |s.log| == |s.emitted| <= U64_MAX
    && forall i: nat, reader: WireLimits :: i < |s.log| && reader.ciphertext >= HARD_MAX_OUTER_FRAME_LEN ==>
         DecodeFrame(s.emitted[i], reader)
         == Ok(Frame(s.conn.sessionId, i, s.log[i].requestId, s.log[i].ciphertext))
  }

  lemma SenderIsNumbered<I>(s: Side<I>, codec: InnerCodec<I>)
    requires Sender(s, codec)
    ensures Numbered(s)
  {
    forall i: nat, reader: WireLimits | i < |s.log| && reader.ciphertext >= HARD_MAX_OUTER_FRAME_LEN
      ensures DecodeFrame(s.emitted[i], reader)
           == Ok(Frame(s.conn.sessionId, i, s.log[i].requestId, s.log[i].ciphertext))
    {
      assert Bound(s, codec, i);
      DecodeOfEncodeFrame(Frame(s.conn.sessionId, i, s.log[i].requestId, s.log[i].ciphertext), s.conn.limits, reader);
    }
  }

  /** Every frame ever emitted carries its own position as counter, so no counter is sealed twice. */
  lemma CountersNeverRepeat<I>(k: Link<I>, codec: InnerCodec<I>, keys: Keys, events: seq<Event<I>>)
    requires Fresh(k) && AddsTag(keys.left) && AddsTag(keys.right)
    ensures var end := Run(k, codec, keys, events); Numbered(end.left) && Numbered(end.right)
  {
    RunKeepsInv(k, codec, keys, events);
    SenderIsNumbered(Run(k, codec, keys, events).left, codec);
    SenderIsNumbered(Run(k, codec, keys, events).right, codec);
  }

  /** A closed side never changes again, whatever happens on the link. */
  lemma {:induction false} ClosedSideIsFinal<I>(k: Link<I>, codec: InnerCodec<I>, keys: Keys, events: seq<Event<I>>)
    requires Inv(k, codec) && AddsTag(keys.left) && AddsTag(keys.right)
    ensures IsClosed(k.left.conn) ==> Run(k, codec, keys, events).left == k.left
    ensures IsClosed(k.right.conn) ==> Run(k, codec, keys, events).right == k.right
    decreases |events|
  {
    if events != [] {
      var e := events[0];
      StepKeepsInv(k, codec, keys, e);
      match e {
        case SealBy(true, requestId, inner) => SealKeepsSender(k.left, codec, keys.left, requestId, inner);
        case SealBy(false, requestId, inner) => SealKeepsSender(k.right, codec, keys.right, requestId, inner);
        case DeliverTo(true, encoded) => DeliverKeepsReceives(k.right, k.left, codec, encoded);
        case DeliverTo(false, encoded) => DeliverKeepsReceives(k.left, k.right, codec, encoded);
      }
      ClosedSideIsFinal(Step(k, codec, keys, e), codec, keys, events[1..]);
    }
  }

  /** Whether `to`, if open, takes the next frame `from` has emitted. */
  predicate TakesNext<I>(from: Side<I>, to: Side<I>, codec: InnerCodec<I>) {
    var n := to.conn.session.receiveNext;
    && n < |from.emitted| == |from.log|
    && n < to.conn.session.messageLimit
    && |from.log[n].ciphertext| <= to.conn.limits.ciphertext
    && codec.decode(from.log[n].plaintext).Some?
  }

  /** An open side accepts exactly the next frame its peer emitted; anything else closes it. */
  lemma AcceptsExactlyTheNextFrame<I>(from: Side<I>, to: Side<I>, codec: InnerCodec<I>, encoded: seq<byte>)
    requires Sender(from, codec) && Receives(from, to, codec) && !IsClosed(to.conn)
    ensures var n := to.conn.session.receiveNext;
            var after := Deliver(to, codec, from.log, encoded);
            var takes := TakesNext(from, to, codec) && encoded == from.emitted[n];
            && (|after.accepted| == |to.accepted| + 1 <==> takes)
            && (after.accepted == to.accepted <==> !takes)
            && (IsClosed(after.conn) <==> !takes)
  {
    var n := to.conn.session.receiveNext;
    var after := Deliver(to, codec, from.log, encoded);
    if after.conn.session.receiveNext != n {
      OpenedIsNextFrame(from, to, codec, encoded);
    }
    if n < |from.emitted| && encoded == from.emitted[n] {
      assert Bound(from, codec, n);
      DecodeOfEncodeFrame(Frame(from.conn.sessionId, n, from.log[n].requestId, from.log[n].ciphertext),
                     from.conn.limits, to.conn.limits);
      if |from.log[n].ciphertext| <= to.conn.limits.ciphertext {
        var frame := Frame(from.conn.sessionId, n, from.log[n].requestId, from.log[n].ciphertext);
        assert DecodeFrame(encoded, to.conn.limits) == Ok(frame);
        assert EncodeHeader(frame.sessionId, n, frame.requestId, |frame.ciphertext|, to.conn.limits)
            == Ok(from.log[n].header);
      }
    }
  }

  /**
   * Closing is one-sided: a string that is not the next frame closes the left side alone, and the right
   * one goes on with whatever the left side has emitted before, from any point of the session.
   */
  lemma PeerOutlivesAClose<I>(k: Link<I>, codec: InnerCodec<I>, keys: Keys, garbage: seq<byte>)
    requires Inv(k, codec) && AddsTag(keys.left) && AddsTag(keys.right)
    requires !IsClosed(k.left.conn) && !IsClosed(k.right.conn) && TakesNext(k.left, k.right, codec)
    requires var n := k.left.conn.session.receiveNext; n < |k.right.emitted| ==> garbage != k.right.emitted[n]
    ensures var next := k.left.emitted[k.right.conn.session.receiveNext];
            var end := Run(k, codec, keys, [DeliverTo(true, garbage), DeliverTo(false, next)]);
            && IsClosed(end.left.conn) && end.left.accepted == k.left.accepted
            && !IsClosed(end.right.conn) && |end.right.accepted| == |k.right.accepted| + 1
  {
    var next := k.left.emitted[k.right.conn.session.receiveNext];
    var first, second := Event<I>.DeliverTo(true, garbage), Event<I>.DeliverTo(false, next);
    var middle := Step(k, codec, keys, first);
    RunTwo(k, codec, keys, first, second);
    AcceptsExactlyTheNextFrame(k.right, k.left, codec, garbage);
    StepKeepsInv(k, codec, keys, first);
    DeliverKeepsReceives(k.right, k.left, codec, garbage);
    AcceptsExactlyTheNextFrame(middle.left, middle.right, codec, next);
  }

  lemma RunTwo<I>(k: Link<I>, codec: InnerCodec<I>, keys: Keys, first: Event<I>, second: Event<I>)
    ensures Run(k, codec, keys, [first, second]) == Step(Step(k, codec, keys, first), codec, keys, second)
  {
    var middle := Step(k, codec, keys, first);
    assert [first, second][1..] == [second] && [second][1..] == [];
    assert Run(middle, codec, keys, [second]) == Run(Step(middle, codec, keys, second), codec, keys, []);
  }

  /** A fresh link gets there: one request sealed, then garbage to its sender, then the request's frame. */
  lemma FreshLinkOutlivesAClose<I(!new)>(
    k: Link<I>, codec: InnerCodec<I>, keys: Keys, requestId: Id16, inner: I, garbage: seq<byte>)
    requires Fresh(k) && AddsTag(keys.left) && AddsTag(keys.right) && Lossless(codec)
    requires !IsClosed(k.left.conn) && !IsClosed(k.right.conn) && codec.encode(inner).Some?
    requires var length := |codec.encode(inner).value| + SecureSession.TAG_LEN;
             && length <= SecureSession.MAX_MESSAGE_LEN
             && length <= k.left.conn.limits.ciphertext && length <= k.right.conn.limits.ciphertext
    requires k.left.conn.session.messageLimit >= 1 && k.right.conn.session.messageLimit >= 1
    ensures var sealed := Step(k, codec, keys, SealBy(true, requestId, inner));
            && |sealed.left.emitted| == 1
            && var events := [DeliverTo(true, garbage), DeliverTo(false, sealed.left.emitted[0])];
            var end := Run(sealed, codec, keys, events);
            IsClosed(end.left.conn) && end.right.accepted == [(requestId, inner)]
  {
    var seal := Event<I>.SealBy(true, requestId, inner);
    var sealed := Step(k, codec, keys, seal);
    assert Inv(k, codec);
    StepKeepsInv(k, codec, keys, seal);
    assert sealed.left.log[0].inner == inner && sealed.left.log[0].requestId == requestId;
    assert Bound(sealed.left, codec, 0);
    PeerOutlivesAClose(sealed, codec, keys, garbage);
    var events := [Event<I>.DeliverTo(true, garbage), Event<I>.DeliverTo(false, sealed.left.emitted[0])];
    RunKeepsInv(k, codec, keys, [seal] + events);
    assert ([seal] + events)[1..] == events;
    AcceptedIsPrefixOfSealed(k, codec, keys, [seal] + events);
    DeliverKeepsReceives(sealed.right, sealed.left, codec, garbage);
    RunTwo(sealed, codec, keys, events[0], events[1]);
  }
}
