/** The single owner of the installation connection: one queue, one exchange at a time. */
module InstallationWorker {
  import opened Wrappers
  import opened Bytes
  import opened SecureFrame
  import opened ClientConnection
  import SecureSession
  import SecureChannel

  /** The stream below the connection, as functions of every frame written so far. */
  datatype Carrier = Carrier(write: seq<seq<byte>> -> bool, read: seq<seq<byte>> -> Option<seq<byte>>)

  /** What the exchanges depend on outside this program. */
  datatype Environment<!I> = Environment(
    codec: InnerCodec<I>,
    encrypt: SecureSession.Encrypt,
    decrypt: SecureSession.Decrypt,
    carrier: Carrier)

  datatype Client = Client(conn: ClientConnection.State, written: seq<seq<byte>>)

  /** Seal, write, read, open, and accept only the answer to this request. */
  function ExchangeStep<I>(c: Client, env: Environment<I>, requestId: Id16, request: I)
    : (Client, Result<I, ClientError>)
  {
    var (conn, sealed) := SealStep(c.conn, env.codec, env.encrypt, requestId, request);
    match sealed
    case Err(e) => (c.(conn := conn), Err(e))
    case Ok(encoded) =>
      var written := c.written + [encoded];
      if !env.carrier.write(written) then (Client(conn, written), Err(CarrierFailed))
      else
        match env.carrier.read(written)
        case None => (Client(conn, written), Err(CarrierFailed))
        case Some(answer) =>
          if |answer| == 0 || |answer| > HARD_MAX_OUTER_FRAME_LEN then (Client(conn, written), Err(CarrierFailed))
          else
            var (after, received) := OpenStep(conn, env.codec, env.decrypt, answer);
            match received
            case Err(e) => (Client(after, written), Err(e))
            case Ok((responseId, response)) =>
              (Client(after, written), if responseId != requestId then Err(SessionBinding) else Ok(response))
  }

  datatype Command<I> = Exchange(request: I) | Shutdown

  /** What a caller's reply channel yields: an exchange result, a shutdown notice, or a dropped channel. */
  datatype Reply<I> = Answered(result: Result<I, ClientError>) | Stopped | Dropped

  predicate Continues<I>(r: Reply<I>) {
    r.Answered? && r.result.Ok?
  }

  type Prefix = b: seq<byte> | |b| == 8 witness seq(8, _ => 0)

  function RequestIdOf(prefix: Prefix, sequence: u64): Id16 {
    prefix + U64Bytes(sequence)
  }

  /** Any transport with state `C`; the TCP client is one. */
  type Transport<!C, !I> = (C, Id16, I) -> (C, Result<I, ClientError>)

  function TcpTransport<I>(env: Environment<I>): Transport<Client, I> {
    (c: Client, id: Id16, request: I) => ExchangeStep(c, env, id, request)
  }

  /** The final transport, one reply per command and the identifiers in order of use. */
  datatype Served<C, I> = Served(transport: C, replies: seq<Reply<I>>, ids: seq<Id16>)

  function Remaining<I>(count: nat): seq<Reply<I>> {
    seq(count, _ => Dropped)
  }

  /** The queue from request number `next` on. */
  function Serve<C, I>(c: C, exchange: Transport<C, I>, prefix: Prefix, next: u64, commands: seq<Command<I>>)
    : (r: Served<C, I>)
    ensures |r.replies| == |commands|
    decreases |commands|
  {
    if commands == [] then Served(c, [], [])
    else if commands[0].Shutdown? then Served(c, [Stopped] + Remaining(|commands| - 1), [])
    else if next == U64_MAX then Served(c, [Answered(Err(Closed))] + Remaining(|commands| - 1), [])
    else
      var id := RequestIdOf(prefix, next);
      var (after, result) := exchange(c, id, commands[0].request);
      if result.Err? then Served(after, [Answered(result)] + Remaining(|commands| - 1), [id])
      else
        var rest := Serve(after, exchange, prefix, next + 1, commands[1..]);
        Served(rest.transport, [Answered(result)] + rest.replies, [id] + rest.ids)
  }

  class CeylithTcpClient {
    const connection: Connection
    var written: seq<seq<byte>>

    constructor (connection: Connection)
      ensures this.connection == connection && written == []
    {
      this.connection := connection;
      written := [];
    }

    function View(): Client
      reads this, connection, connection.session
    {
      Client(connection.View(), written)
    }

    method DoExchange<I>(env: Environment<I>, requestId: Id16, request: I) returns (r: Result<I, ClientError>)
      modifies this, connection, connection.session
      ensures (View(), r) == ExchangeStep(old(View()), env, requestId, request)
    {
      var sealed := connection.Seal(env.codec, env.encrypt, requestId, request);
      if sealed.Err? {
        return Err(sealed.error);
      }
      written := written + [sealed.value];
      if !env.carrier.write(written) {
        return Err(CarrierFailed);
      }
      var answer := env.carrier.read(written);
      if answer.None? || |answer.value| == 0 || |answer.value| > HARD_MAX_OUTER_FRAME_LEN {
        return Err(CarrierFailed);
      }
      var received := connection.Open(env.codec, env.decrypt, answer.value);
      if received.Err? {
        return Err(received.error);
      }
      if received.value.0 != requestId {
        return Err(SessionBinding);
      }
      r := Ok(received.value.1);
    }
  }

  /** `exchange` is the TCP client's, under a name that keeps its steps out of the loop's proof. */
  ghost predicate IsTcp<I(!new)>(exchange: Transport<Client, I>, env: Environment<I>) {
    forall c, id, request {:trigger ExchangeStep(c, env, id, request)} ::
      ExchangeStep(c, env, id, request) == exchange(c, id, request)
  }

  method ExchangeOnce<I(!new)>(client: CeylithTcpClient, env: Environment<I>, id: Id16, request: I,
                               ghost exchange: Transport<Client, I>)
    returns (r: Result<I, ClientError>)
    requires IsTcp(exchange, env)
    modifies client, client.connection, client.connection.session
    ensures exchange(old(client.View()), id, request) == (client.View(), r)
  {
    ghost var before := client.View();
    r := client.DoExchange(env, id, request);
    assert ExchangeStep(before, env, id, request) == exchange(before, id, request);
  }

  /** What has been answered, before what is still to be served. */
  function Before<C, I>(replies: seq<Reply<I>>, ids: seq<Id16>, rest: Served<C, I>): Served<C, I> {
    Served(rest.transport, replies + rest.replies, ids + rest.ids)
  }

  lemma OneReplyMore<C, I>(replies: seq<Reply<I>>, ids: seq<Id16>, reply: Reply<I>, id: Id16, rest: Served<C, I>)
    ensures Before(replies, ids, Served(rest.transport, [reply] + rest.replies, [id] + rest.ids))
         == Before(replies + [reply], ids + [id], rest)
  {
    assert replies + ([reply] + rest.replies) == replies + [reply] + rest.replies;
    assert ids + ([id] + rest.ids) == ids + [id] + rest.ids;
  }

  /** The queue from command `i` on, one command taken off its head. */
  lemma TakeOne<C, I>(c: C, exchange: Transport<C, I>, prefix: Prefix, next: u64, commands: seq<Command<I>>, i: nat)
    requires i < |commands|
    ensures var rest := Serve(c, exchange, prefix, next, commands[i..]);
            && (commands[i].Shutdown? ==> rest == Served(c, [Stopped] + Remaining(|commands| - i - 1), []))
            && (commands[i].Exchange? && next == U64_MAX ==>
                  rest == Served(c, [Answered(Err(Closed))] + Remaining(|commands| - i - 1), []))
            && (commands[i].Exchange? && next < U64_MAX ==>
                  var id := RequestIdOf(prefix, next);
                  var (after, result) := exchange(c, id, commands[i].request);
                  && (result.Err? ==>
                        rest == Served(after, [Answered(result)] + Remaining(|commands| - i - 1), [id]))
                  && (result.Ok? ==>
                        var tail := Serve(after, exchange, prefix, next + 1, commands[i + 1..]);
                        rest == Served(tail.transport, [Answered(result)] + tail.replies, [id] + tail.ids)))
  {
    assert commands[i..][0] == commands[i] && commands[i..][1..] == commands[i + 1..];
  }

  /** The loop over the queue. */
  method Work<I(!new)>(client: CeylithTcpClient, env: Environment<I>, prefix: Prefix, commands: seq<Command<I>>,
                       ghost exchange: Transport<Client, I>)
    returns (replies: seq<Reply<I>>, ids: seq<Id16>)
    requires IsTcp(exchange, env)
    modifies client, client.connection, client.connection.session
    ensures Served(client.View(), replies, ids) == Serve(old(client.View()), exchange, prefix, 1, commands)
  {
    replies, ids := [], [];
    var next: u64 := 1;
    var i := 0;
    ghost var whole := Serve(client.View(), exchange, prefix, 1, commands);
    assert commands[0..] == commands && Before([], [], whole) == whole;
    while i < |commands|
      invariant i == |replies| <= |commands|
      invariant whole == Before(replies, ids, Serve(client.View(), exchange, prefix, next, commands[i..]))
    {
      TakeOne(client.View(), exchange, prefix, next, commands, i);
      if commands[i].Shutdown? {
        replies := replies + ([Stopped] + Remaining(|commands| - i - 1));
        return;
      }
      if next == U64_MAX {
        replies := replies + ([Answered(Err(Closed))] + Remaining(|commands| - i - 1));
        return;
      }
      var id := RequestIdOf(prefix, next);
      var result := ExchangeOnce(client, env, id, commands[i].request, exchange);
      if result.Err? {
        replies, ids := replies + ([Answered(result)] + Remaining(|commands| - i - 1)), ids + [id];
        return;
      }
      OneReplyMore(replies, ids, Answered(result), id,
                   Serve(client.View(), exchange, prefix, next + 1, commands[i + 1..]));
      next := next + 1;
      replies, ids := replies + [Answered(result)], ids + [id];
      i := i + 1;
    }
    assert commands[i..] == [];
  }

  method Run<I(!new)>(client: CeylithTcpClient, env: Environment<I>, prefix: Prefix, commands: seq<Command<I>>)
    returns (replies: seq<Reply<I>>, ids: seq<Id16>)
    modifies client, client.connection, client.connection.session
    ensures Served(client.View(), replies, ids) == Serve(old(client.View()), TcpTransport(env), prefix, 1, commands)
  {
    replies, ids := Work(client, env, prefix, commands, TcpTransport(env));
  }

  // ---- what every run of the worker guarantees, over any transport ----

  /** Request number `n` uses identifier `n`. */
  lemma {:induction false} IdsAreNumbered<C, I>(
    c: C, exchange: Transport<C, I>, prefix: Prefix, next: u64, commands: seq<Command<I>>)
    ensures var ids := Serve(c, exchange, prefix, next, commands).ids;
            && next + |ids| <= U64_MAX
            && forall i :: 0 <= i < |ids| ==> ids[i] == RequestIdOf(prefix, next + i)
    decreases |commands|
  {
    if commands != [] && commands[0].Exchange? && next < U64_MAX {
      var id := RequestIdOf(prefix, next);
      var (after, result) := exchange(c, id, commands[0].request);
      if result.Ok? {
        IdsAreNumbered(after, exchange, prefix, next + 1, commands[1..]);
        var rest := Serve(after, exchange, prefix, next + 1, commands[1..]).ids;
        assert Serve(c, exchange, prefix, next, commands).ids == [id] + rest;
        assert forall i :: 1 <= i <= |rest| ==> ([id] + rest)[i] == rest[i - 1];
      }
    }
  }

  lemma NumberedIdsDiffer(prefix: Prefix, a: u64, b: u64)
    requires RequestIdOf(prefix, a) == RequestIdOf(prefix, b)
    ensures a == b
  {
    SplitEqual(prefix, U64Bytes(a), prefix, U64Bytes(b));
    U64RoundTrip(a);
    U64RoundTrip(b);
  }

  /** No two requests of one worker share an identifier. */
  lemma IdsAreDistinct<C, I>(c: C, exchange: Transport<C, I>, prefix: Prefix, commands: seq<Command<I>>)
    ensures var ids := Serve(c, exchange, prefix, 1, commands).ids;
            forall i, j :: 0 <= i < j < |ids| ==> ids[i] != ids[j]
  {
    IdsAreNumbered(c, exchange, prefix, 1, commands);
    var ids := Serve(c, exchange, prefix, 1, commands).ids;
    forall i, j | 0 <= i < j < |ids| ensures ids[i] != ids[j] {
      if ids[i] == ids[j] {
        NumberedIdsDiffer(prefix, 1 + i, 1 + j);
      }
    }
  }

  /** The head of the queue: its own reply, then either nothing more or the rest served. */
  lemma ServeHead<C, I>(c: C, exchange: Transport<C, I>, prefix: Prefix, next: u64, commands: seq<Command<I>>)
    requires commands != []
    ensures var replies := Serve(c, exchange, prefix, next, commands).replies;
            && !replies[0].Dropped?
            && (replies[0].Stopped? <==> commands[0].Shutdown?)
            && (!Continues(replies[0]) ==> replies[1..] == Remaining(|commands| - 1))
            && (Continues(replies[0]) ==> next < U64_MAX)
            && (Continues(replies[0]) ==>
                  replies[1..] == Serve(exchange(c, RequestIdOf(prefix, next), commands[0].request).0,
                                        exchange, prefix, next + 1, commands[1..]).replies)
  {
  }

  ghost predicate StoppedBefore<I>(replies: seq<Reply<I>>, j: nat)
    requires j <= |replies|
  {
    exists i :: 0 <= i < j && !Continues(replies[i])
  }

  /** A reply channel is dropped exactly when some earlier command failed or asked for shutdown. */
  lemma {:induction false} DroppedIffStoppedBefore<C, I>(
    c: C, exchange: Transport<C, I>, prefix: Prefix, next: u64, commands: seq<Command<I>>, j: nat)
    requires j < |commands|
    ensures var replies := Serve(c, exchange, prefix, next, commands).replies;
            && (replies[j].Dropped? <==> StoppedBefore(replies, j))
            && (replies[j].Stopped? ==> commands[j].Shutdown?)
            && (replies[j].Answered? ==> commands[j].Exchange?)
    decreases |commands|
  {
    var replies := Serve(c, exchange, prefix, next, commands).replies;
    ServeHead(c, exchange, prefix, next, commands);
    if j > 0 {
      assert replies[j] == replies[1..][j - 1];
      if Continues(replies[0]) {
        var after := exchange(c, RequestIdOf(prefix, next), commands[0].request).0;
        DroppedIffStoppedBefore(after, exchange, prefix, next + 1, commands[1..], j - 1);
        assert StoppedBefore(replies[1..], j - 1) <==> StoppedBefore(replies, j) by {
          assert forall i :: 0 <= i < j - 1 ==> replies[1..][i] == replies[i + 1];
          assert forall i :: 1 <= i < j ==> replies[i] == replies[1..][i - 1];
        }
      } else {
        assert StoppedBefore(replies, j);
      }
    }
  }

  predicate AllExchanges<I>(commands: seq<Command<I>>) {
    forall j :: 0 <= j < |commands| ==> commands[j].Exchange?
  }

  /** The transport after exactly these requests, numbered from `next` on. */
  function Driven<C, I>(c: C, exchange: Transport<C, I>, prefix: Prefix, next: u64, commands: seq<Command<I>>): C
    requires next + |commands| <= U64_MAX && AllExchanges(commands)
    decreases |commands|
  {
    if commands == [] then c
    else
      var (after, _) := exchange(c, RequestIdOf(prefix, next), commands[0].request);
      Driven(after, exchange, prefix, next + 1, commands[1..])
  }

  /** What became of the commands from number `n` on: one was stopped at or found no number left, the rest dropped. */
  ghost predicate Untouched<I>(replies: seq<Reply<I>>, next: nat, n: nat) {
    forall j :: n <= j < |replies| ==>
      replies[j].Dropped? ||
      (j == n && (replies[j].Stopped? || (replies[j] == Answered(Err(Closed)) && next + n == U64_MAX)))
  }

  /** The first commands, one per identifier, were answered by the transport, which is where they alone bring it. */
  ghost predicate TracesOnlyAnswered<C, I>(
    c: C, exchange: Transport<C, I>, prefix: Prefix, next: u64, commands: seq<Command<I>>, served: Served<C, I>)
  {
    var n := |served.ids|;
    && n <= |commands| == |served.replies| && next + n <= U64_MAX && AllExchanges(commands[..n])
    && served.transport == Driven(c, exchange, prefix, next, commands[..n])
    && (forall j :: 0 <= j < n ==> served.replies[j].Answered?)
    && Untouched(served.replies, next, n)
  }

  /** So a dropped command used no identifier and left no trace. */
  lemma {:induction false} DroppedCommandsLeaveNoTrace<C, I>(
    c: C, exchange: Transport<C, I>, prefix: Prefix, next: u64, commands: seq<Command<I>>)
    ensures TracesOnlyAnswered(c, exchange, prefix, next, commands, Serve(c, exchange, prefix, next, commands))
    decreases |commands|
  {
    if commands != [] && commands[0].Exchange? && next < U64_MAX {
      var (after, result) := exchange(c, RequestIdOf(prefix, next), commands[0].request);
      if result.Ok? {
        var rest := Serve(after, exchange, prefix, next + 1, commands[1..]);
        DroppedCommandsLeaveNoTrace(after, exchange, prefix, next + 1, commands[1..]);
        TracesOneMore(c, exchange, prefix, next, commands, rest);
      } else {
        assert commands[..1] == [commands[0]];
      }
    }
  }

  lemma TracesOneMore<C, I>(
    c: C, exchange: Transport<C, I>, prefix: Prefix, next: u64, commands: seq<Command<I>>, rest: Served<C, I>)
    requires commands != [] && commands[0].Exchange? && next < U64_MAX
    requires var after := exchange(c, RequestIdOf(prefix, next), commands[0].request).0;
             TracesOnlyAnswered(after, exchange, prefix, next + 1, commands[1..], rest)
    ensures var id := RequestIdOf(prefix, next);
            var reply := Answered(exchange(c, id, commands[0].request).1);
            TracesOnlyAnswered(c, exchange, prefix, next, commands,
                               Served(rest.transport, [reply] + rest.replies, [id] + rest.ids))
  {
    OneCommandMore(c, exchange, prefix, next, commands, |rest.ids|);
    OneAnswerMore(
      Answered(exchange(c, RequestIdOf(prefix, next), commands[0].request).1), rest.replies, next, |rest.ids|);
  }

  lemma OneCommandMore<C, I>(
    c: C, exchange: Transport<C, I>, prefix: Prefix, next: u64, commands: seq<Command<I>>, n: nat)
    requires n < |commands| && next + n < U64_MAX
    requires commands[0].Exchange? && AllExchanges(commands[1..][..n])
    ensures AllExchanges(commands[..n + 1])
    ensures Driven(c, exchange, prefix, next, commands[..n + 1])
         == Driven(exchange(c, RequestIdOf(prefix, next), commands[0].request).0,
                   exchange, prefix, next + 1, commands[1..][..n])
  {
    assert commands[..n + 1] == [commands[0]] + commands[1..][..n];
    assert commands[..n + 1][1..] == commands[1..][..n];
  }

  lemma OneAnswerMore<I>(first: Reply<I>, rest: seq<Reply<I>>, next: nat, n: nat)
    requires first.Answered? && n <= |rest| && Untouched(rest, next + 1, n)
    requires forall j :: 0 <= j < n ==> rest[j].Answered?
    ensures Untouched([first] + rest, next, n + 1)
    ensures forall j :: 0 <= j < n + 1 ==> ([first] + rest)[j].Answered?
  {
    forall j | n + 1 <= j < 1 + |rest| ensures ([first] + rest)[j] == rest[j - 1] {
    }
  }

  // ---- and over the TCP client ----

  /** `encoded` is the frame that carries `command`'s request, sealed under `counter` and bound to `id`. */
  ghost predicate IsFrameOf<I>(
    conn: ClientConnection.State, env: Environment<I>, counter: nat, id: Id16, command: Command<I>, encoded: seq<byte>)
  {
    && command.Exchange? && counter <= U64_MAX && env.codec.encode(command.request).Some?
    && var plaintext := env.codec.encode(command.request).value;
    var header := EncodeHeader(conn.sessionId, counter, id, |plaintext| + SecureSession.TAG_LEN, conn.limits);
    && header.Ok?
    && EncodeFrame(Frame(conn.sessionId, counter, id, env.encrypt(counter, header.value, plaintext)), conn.limits)
       == Ok(encoded)
  }

  /** A test of one frame against its counter, identifier and command. */
  type FrameTest<!I> = (nat, Id16, Command<I>, seq<byte>) -> bool

  /** Frame `j` passes the test for the `j`-th counter, identifier and command; at most one exchange wrote nothing. */
  ghost predicate InQueueOrder<I>(
    isFrame: FrameTest<I>, first: nat, frames: seq<seq<byte>>, ids: seq<Id16>, commands: seq<Command<I>>)
  {
    && |frames| <= |ids| <= |frames| + 1 && |ids| <= |commands|
    && forall j :: 0 <= j < |frames| ==> isFrame(first + j, ids[j], commands[j], frames[j])
  }

  ghost predicate SameSession(a: ClientConnection.State, b: ClientConnection.State) {
    a.sessionId == b.sessionId && a.limits == b.limits
  }

  /** What one exchange does to the carrier and the send counter. */
  ghost predicate WritesOneFrame<I>(
    isFrame: FrameTest<I>, c: Client, after: Client, ok: bool, id: Id16, request: I)
  {
    && SameSession(after.conn, c.conn)
    && c.written <= after.written
    && InQueueOrder(isFrame, c.conn.session.sendNext, after.written[|c.written|..], [id], [Exchange(request)])
    && (ok ==> |after.written| == |c.written| + 1 && after.conn.session.sendNext == c.conn.session.sendNext + 1)
  }

  ghost predicate WritesInOrder<I(!new)>(
    isFrame: FrameTest<I>, exchange: Transport<Client, I>, conn: ClientConnection.State)
  {
    forall c: Client, id, request {:trigger exchange(c, id, request)} :: SameSession(c.conn, conn) ==>
      WritesOneFrame(isFrame, c, exchange(c, id, request).0, exchange(c, id, request).1.Ok?, id, request)
  }

  /** What `seal` returns is the frame of this request, under the next counter and the request's id. */
  lemma SealedIsFrameOf<I>(conn: ClientConnection.State, env: Environment<I>, id: Id16, request: I)
    requires SealStep(conn, env.codec, env.encrypt, id, request).1.Ok?
    ensures var (after, sealed) := SealStep(conn, env.codec, env.encrypt, id, request);
            && IsFrameOf(conn, env, conn.session.sendNext, id, Exchange(request), sealed.value)
            && SameSession(after, conn) && after.session.sendNext == conn.session.sendNext + 1
  {
  }

  lemma ExchangeWritesOneFrame<I>(
    conn: ClientConnection.State, c: Client, env: Environment<I>, isFrame: FrameTest<I>, id: Id16, request: I)
    requires SameSession(c.conn, conn)
    requires forall n: nat, i, d, f {:trigger IsFrameOf(conn, env, n, i, d, f)} ::
      IsFrameOf(conn, env, n, i, d, f) ==> isFrame(n, i, d, f)
    ensures var (after, result) := ExchangeStep(c, env, id, request);
            WritesOneFrame(isFrame, c, after, result.Ok?, id, request)
  {
    var after := ExchangeStep(c, env, id, request).0;
    var sealed := SealStep(c.conn, env.codec, env.encrypt, id, request).1;
    if sealed.Ok? {
      SealedIsFrameOf(c.conn, env, id, request);
      assert IsFrameOf(conn, env, c.conn.session.sendNext, id, Exchange(request), sealed.value);
      assert after.written[|c.written|..] == [sealed.value];
    }
  }

  lemma {:induction false} FramesFollowTheQueue<I(!new)>(
    isFrame: FrameTest<I>, c: Client, exchange: Transport<Client, I>, prefix: Prefix, next: u64,
    commands: seq<Command<I>>)
    requires WritesInOrder(isFrame, exchange, c.conn)
    ensures var served := Serve(c, exchange, prefix, next, commands);
            && c.written <= served.transport.written
            && InQueueOrder(isFrame, c.conn.session.sendNext, served.transport.written[|c.written|..], served.ids,
                            commands)
    decreases |commands|
  {
    if commands != [] && commands[0].Exchange? && next < U64_MAX {
      var id := RequestIdOf(prefix, next);
      var (after, result) := exchange(c, id, commands[0].request);
      assert WritesOneFrame(isFrame, c, after, result.Ok?, id, commands[0].request);
      if result.Ok? {
        FramesFollowTheQueue(isFrame, after, exchange, prefix, next + 1, commands[1..]);
        var rest := Serve(after, exchange, prefix, next + 1, commands[1..]);
        FirstFrame(isFrame, c, after, id, rest.transport.written, rest.ids, commands);
      }
    }
  }

  /** One frame written, then frames in queue order from where the client is by then. */
  lemma FirstFrame<I>(
    isFrame: FrameTest<I>, c: Client, after: Client, id: Id16, written: seq<seq<byte>>, ids: seq<Id16>,
    commands: seq<Command<I>>)
    requires commands != [] && commands[0].Exchange?
    requires WritesOneFrame(isFrame, c, after, true, id, commands[0].request)
    requires after.written <= written
    requires InQueueOrder(isFrame, after.conn.session.sendNext, written[|after.written|..], ids, commands[1..])
    ensures c.written <= written
    ensures InQueueOrder(isFrame, c.conn.session.sendNext, written[|c.written|..], [id] + ids, commands)
  {
    var first, tail := after.written[|c.written|..], written[|after.written|..];
    assert written[|c.written|..] == first + tail;
    QueueOrderCons(isFrame, c.conn.session.sendNext, first, tail, id, ids, commands);
  }

  lemma QueueOrderCons<I>(
    isFrame: FrameTest<I>, from: nat, first: seq<seq<byte>>, tail: seq<seq<byte>>, id: Id16, ids: seq<Id16>,
    commands: seq<Command<I>>)
    requires commands != [] && |first| == 1
    requires InQueueOrder(isFrame, from, first, [id], [commands[0]])
    requires InQueueOrder(isFrame, from + 1, tail, ids, commands[1..])
    ensures InQueueOrder(isFrame, from, first + tail, [id] + ids, commands)
  {
    assert isFrame(from + 0, [id][0], [commands[0]][0], first[0]);
    forall j | 0 < j < |first + tail| ensures isFrame(from + j, ([id] + ids)[j], commands[j], (first + tail)[j]) {
      assert isFrame(from + 1 + (j - 1), ids[j - 1], commands[1..][j - 1], tail[j - 1]);
    }
  }

  lemma TcpWritesInOrder<I(!new)>(conn: ClientConnection.State, env: Environment<I>, isFrame: FrameTest<I>)
    requires forall n: nat, i, d, f {:trigger IsFrameOf(conn, env, n, i, d, f)} ::
      IsFrameOf(conn, env, n, i, d, f) ==> isFrame(n, i, d, f)
    ensures WritesInOrder(isFrame, TcpTransport(env), conn)
  {
    forall c: Client, id, request | SameSession(c.conn, conn)
      ensures WritesOneFrame(isFrame, c, TcpTransport(env)(c, id, request).0,
                             TcpTransport(env)(c, id, request).1.Ok?, id, request)
    {
      ExchangeWritesOneFrame(conn, c, env, isFrame, id, request);
    }
  }

  /** Frame `j` passes the test for the `j`-th counter from `first`, identifier number `1 + j` and command `j`. */
  ghost predicate Numbered<I>(
    isFrame: FrameTest<I>, first: nat, prefix: Prefix, frames: seq<seq<byte>>, commands: seq<Command<I>>)
  {
    && |frames| <= |commands| && |frames| < U64_MAX
    && forall j :: 0 <= j < |frames| ==> isFrame(first + j, RequestIdOf(prefix, 1 + j), commands[j], frames[j])
  }

  lemma FramesAreNumbered<I(!new)>(
    isFrame: FrameTest<I>, c: Client, exchange: Transport<Client, I>, prefix: Prefix, commands: seq<Command<I>>)
    requires WritesInOrder(isFrame, exchange, c.conn)
    ensures c.written <= Serve(c, exchange, prefix, 1, commands).transport.written
    ensures var served := Serve(c, exchange, prefix, 1, commands);
            var frames := served.transport.written[|c.written|..];
            && |frames| <= |served.ids| <= |frames| + 1
            && Numbered(isFrame, c.conn.session.sendNext, prefix, frames, commands)
  {
    FramesFollowTheQueue(isFrame, c, exchange, prefix, 1, commands);
    IdsAreNumbered(c, exchange, prefix, 1, commands);
  }

  /** The frames written are the requests themselves: frame `j` carries request `j`, under counter and id `j`. */
  ghost predicate AreTheRequests<I>(
    conn: ClientConnection.State, env: Environment<I>, prefix: Prefix, frames: seq<seq<byte>>,
    commands: seq<Command<I>>)
  {
    && |frames| <= |commands| && |frames| < U64_MAX
    && forall j :: 0 <= j < |frames| ==>
         IsFrameOf(conn, env, conn.session.sendNext + j, RequestIdOf(prefix, 1 + j), commands[j], frames[j])
  }

  /** Every run of the TCP worker puts the requests themselves on the wire, in queue order. */
  lemma WorkerWritesInQueueOrder<I(!new)>(c: Client, env: Environment<I>, prefix: Prefix, commands: seq<Command<I>>)
    ensures c.written <= Serve(c, TcpTransport(env), prefix, 1, commands).transport.written
    ensures var served := Serve(c, TcpTransport(env), prefix, 1, commands);
            var frames := served.transport.written[|c.written|..];
            |frames| <= |served.ids| <= |frames| + 1 && AreTheRequests(c.conn, env, prefix, frames, commands)
  {
    var isFrame: FrameTest<I> := (n: nat, i: Id16, d: Command<I>, f: seq<byte>) => IsFrameOf(c.conn, env, n, i, d, f);
    TcpWritesInOrder(c.conn, env, isFrame);
    FramesAreNumbered(isFrame, c, TcpTransport(env), prefix, commands);
    var frames := Serve(c, TcpTransport(env), prefix, 1, commands).transport.written[|c.written|..];
    NumberedAreTheRequests(c.conn, env, isFrame, prefix, frames, commands);
  }

  lemma NumberedAreTheRequests<I(!new)>(
    conn: ClientConnection.State, env: Environment<I>, isFrame: FrameTest<I>, prefix: Prefix, frames: seq<seq<byte>>,
    commands: seq<Command<I>>)
    requires forall n: nat, i, d, f {:trigger isFrame(n, i, d, f)} ::
      isFrame(n, i, d, f) ==> IsFrameOf(conn, env, n, i, d, f)
    requires Numbered(isFrame, conn.session.sendNext, prefix, frames, commands)
    ensures AreTheRequests(conn, env, prefix, frames, commands)
  {
    forall j | 0 <= j < |frames|
      ensures IsFrameOf(conn, env, conn.session.sendNext + j, RequestIdOf(prefix, 1 + j), commands[j], frames[j])
    {
      assert isFrame(conn.session.sendNext + j, RequestIdOf(prefix, 1 + j), commands[j], frames[j]);
    }
  }

  /** Whoever can decrypt reads the request itself, under its identifier, from its frame. */
  lemma FrameOpensToItsRequest<I>(
    conn: ClientConnection.State, env: Environment<I>, counter: nat, id: Id16, command: Command<I>, encoded: seq<byte>,
    peer: ClientConnection.State, decrypt: SecureSession.Decrypt)
    requires IsFrameOf(conn, env, counter, id, command, encoded) && SecureChannel.AddsTag(env.encrypt)
    requires !IsClosed(peer) && peer.sessionId == conn.sessionId && WithinHardBounds(peer.limits)
    requires peer.session.receiveNext == counter < peer.session.messageLimit
    requires var plaintext := env.codec.encode(command.request).value;
             && |plaintext| + SecureSession.TAG_LEN <= peer.limits.ciphertext
             && |plaintext| + SecureSession.TAG_LEN <= SecureSession.MAX_MESSAGE_LEN
             && env.codec.decode(plaintext) == Some(command.request)
    requires forall h, p {:trigger env.encrypt(counter, h, p)} ::
      decrypt(counter, h, env.encrypt(counter, h, p)) == Some(p)
    ensures OpenStep(peer, env.codec, decrypt, encoded).1 == Ok((id, command.request))
    ensures OpenStep(peer, env.codec, decrypt, encoded).0.session.receiveNext == counter + 1
  {
    var plaintext := env.codec.encode(command.request).value;
    var length := |plaintext| + SecureSession.TAG_LEN;
    var header := EncodeHeader(conn.sessionId, counter, id, length, conn.limits).value;
    var frame := Frame(conn.sessionId, counter, id, env.encrypt(counter, header, plaintext));
    assert |frame.ciphertext| == length;
    DecodeOfEncodeFrame(frame, conn.limits, peer.limits);
    assert EncodeHeader(conn.sessionId, counter, id, length, peer.limits) == Ok(header);
    assert decrypt(counter, header, env.encrypt(counter, header, plaintext)) == Some(plaintext);
  }

  // ---- and with a peer on an ideal link ----

  /** The client reads from `peer`, whose log it has opened up to its receive counter. */
  ghost predicate Linked<I>(c: Client, peer: SecureChannel.Side<I>) {
    && c.conn.sessionId == peer.conn.sessionId && WithinHardBounds(c.conn.limits)
    && c.conn.session.receiveNext <= |peer.log|
  }

  /** A success opens the peer's next message, and that message answers this very request. */
  ghost predicate OpensNext<I>(
    c: Client, after: Client, result: Result<I, ClientError>, id: Id16, peer: SecureChannel.Side<I>)
  {
    result.Ok? ==>
      var n := c.conn.session.receiveNext;
      && n < |peer.log| && (peer.log[n].requestId, peer.log[n].inner) == (id, result.value)
      && Linked(after, peer) && after.conn.session.receiveNext == n + 1
  }

  ghost predicate OpensInOrder<I(!new)>(exchange: Transport<Client, I>, peer: SecureChannel.Side<I>) {
    forall c, id, request ::
      Linked(c, peer) ==> OpensNext(c, exchange(c, id, request).0, exchange(c, id, request).1, id, peer)
  }

  /** The side at the client's end, which has accepted what its counter says. */
  lemma ReceiverAt<I(!new)>(conn: ClientConnection.State, codec: InnerCodec<I>, peer: SecureChannel.Side<I>)
    returns (to: SecureChannel.Side<I>)
    requires SecureChannel.Sender(peer, codec) && SecureChannel.Lossless(codec) && Linked(Client(conn, []), peer)
    ensures to.conn == conn && SecureChannel.Receives(peer, to, codec)
  {
    var n := conn.session.receiveNext;
    to := SecureChannel.Side(conn, [], [], SecureChannel.Messages(peer.log)[..n]);
    forall i | 0 <= i < n ensures codec.decode(peer.log[i].plaintext) == Some(to.accepted[i].1) {
      assert SecureChannel.Bound(peer, codec, i);
    }
  }

  lemma ExchangeOpensNext<I(!new)>(
    c: Client, env: Environment<I>, peer: SecureChannel.Side<I>, id: Id16, request: I)
    requires SecureChannel.Sender(peer, env.codec) && SecureChannel.Lossless(env.codec)
    requires env.decrypt == SecureChannel.IdealDecrypt(peer.log) && Linked(c, peer)
    ensures var (after, result) := ExchangeStep(c, env, id, request);
            OpensNext(c, after, result, id, peer)
  {
    var (after, result) := ExchangeStep(c, env, id, request);
    if result.Ok? {
      var conn := SealStep(c.conn, env.codec, env.encrypt, id, request).0;
      var to := ReceiverAt(conn, env.codec, peer);
      SecureChannel.OpenedIsNextFrame(peer, to, env.codec, env.carrier.read(after.written).value);
      assert SecureChannel.Bound(peer, env.codec, conn.session.receiveNext);
    }
  }

  /** The peer's next message is for this request, and the stream takes the request and returns that message's frame. */
  ghost predicate IsAnswered<I>(
    c: Client, env: Environment<I>, peer: SecureChannel.Side<I>, id: Id16, written: seq<seq<byte>>)
    requires |peer.log| == |peer.emitted|
  {
    var n := c.conn.session.receiveNext;
    && n < |peer.log| && n < c.conn.session.messageLimit
    && |peer.log[n].ciphertext| <= c.conn.limits.ciphertext && peer.log[n].requestId == id
    && env.carrier.write(written) && env.carrier.read(written) == Some(peer.emitted[n])
  }

  /** An open connection opens exactly the peer's next frame, and to exactly what the peer sealed. */
  lemma AnswerOpens<I(!new)>(
    conn: ClientConnection.State, env: Environment<I>, peer: SecureChannel.Side<I>, answer: seq<byte>)
    requires SecureChannel.Sender(peer, env.codec) && SecureChannel.Lossless(env.codec)
    requires env.decrypt == SecureChannel.IdealDecrypt(peer.log) && Linked(Client(conn, []), peer) && !IsClosed(conn)
    ensures var n := conn.session.receiveNext;
            var (after, received) := OpenStep(conn, env.codec, env.decrypt, answer);
            && (received.Ok? <==>
                  && n < |peer.log| && n < conn.session.messageLimit && answer == peer.emitted[n]
                  && |peer.log[n].ciphertext| <= conn.limits.ciphertext)
            && (received.Ok? ==>
                  && n < |peer.log| && received.value == (peer.log[n].requestId, peer.log[n].inner)
                  && after == conn.(session := conn.session.(receiveNext := n + 1))
                  && 0 < |answer| <= HARD_MAX_OUTER_FRAME_LEN)
  {
    var n := conn.session.receiveNext;
    var to := ReceiverAt(conn, env.codec, peer);
    SecureChannel.AcceptsExactlyTheNextFrame(peer, to, env.codec, answer);
    if n < |peer.log| {
      assert SecureChannel.Bound(peer, env.codec, n);
      if answer == peer.emitted[n] && OpenStep(conn, env.codec, env.decrypt, answer).1.Ok? {
        SecureChannel.OpenedIsNextFrame(peer, to, env.codec, answer);
      }
    }
  }

  /** An exchange succeeds exactly if the request can be sealed and is answered, and yields the peer's message. */
  lemma ExchangeSucceedsIffAnswered<I(!new)>(
    c: Client, env: Environment<I>, peer: SecureChannel.Side<I>, id: Id16, request: I)
    requires SecureChannel.Sender(peer, env.codec) && SecureChannel.Lossless(env.codec)
    requires env.decrypt == SecureChannel.IdealDecrypt(peer.log) && Linked(c, peer)
    requires SecureChannel.AddsTag(env.encrypt)
    ensures var (after, result) := ExchangeStep(c, env, id, request);
            var sealed := SealStep(c.conn, env.codec, env.encrypt, id, request).1;
            var n := c.conn.session.receiveNext;
            && (result.Ok? <==>
                  && SecureChannel.CanSeal(c.conn, env.codec, request) && sealed.Ok?
                  && IsAnswered(c, env, peer, id, c.written + [sealed.value]))
            && (result.Ok? ==>
                  && n < |peer.log| && result.value == peer.log[n].inner
                  && after == Client(Advanced(c.conn), c.written + [sealed.value]))
  {
    var (conn, sealed) := SealStep(c.conn, env.codec, env.encrypt, id, request);
    SecureChannel.SealsExactlyWhatItCan(c.conn, env.codec, env.encrypt, id, request);
    if sealed.Ok? {
      var answer := env.carrier.read(c.written + [sealed.value]);
      if answer.Some? {
        AnswerOpens(conn, env, peer, answer.value);
      }
    }
  }

  /** The stream fails: it refuses the frame, or gives no answer, an empty one or one longer than any frame. */
  predicate StreamFails(carrier: Carrier, written: seq<seq<byte>>) {
    !carrier.write(written)
    || match carrier.read(written)
       case None => true
       case Some(answer) => |answer| < 1 || |answer| > 2_097_152
  }

  /** A failing stream ends the exchange with the request sealed and the connection open. */
  lemma StreamFailureIff<I>(c: Client, env: Environment<I>, id: Id16, request: I)
    ensures var (conn, sealed) := SealStep(c.conn, env.codec, env.encrypt, id, request);
            var (after, result) := ExchangeStep(c, env, id, request);
            && (result == Err(CarrierFailed) <==>
                  sealed.Ok? && StreamFails(env.carrier, c.written + [sealed.value]))
            && (result == Err(CarrierFailed) ==> after == Client(conn, c.written + [sealed.value]))
  {
  }

  /** One counter further in both directions. */
  function Advanced(conn: ClientConnection.State): ClientConnection.State
    requires conn.session.sendNext < U64_MAX && conn.session.receiveNext < U64_MAX
  {
    conn.(session := conn.session.(sendNext := conn.session.sendNext + 1,
                                   receiveNext := conn.session.receiveNext + 1))
  }

  /** A peer that answers every request of the queue in order, over a stream that works. */
  ghost predicate AnswersInOrder<I>(
    c: Client, env: Environment<I>, peer: SecureChannel.Side<I>, prefix: Prefix, next: u64, commands: seq<Command<I>>)
  {
    var first := c.conn.session.receiveNext;
    && next + |commands| <= U64_MAX && AllExchanges(commands)
    && |peer.log| == |peer.emitted| && first + |commands| <= |peer.log|
    && (forall w: seq<seq<byte>> {:trigger env.carrier.write(w)} :: env.carrier.write(w))
    && (forall w: seq<seq<byte>> {:trigger env.carrier.read(w)} ::
          |c.written| < |w| <= |c.written| + |commands| ==>
            env.carrier.read(w) == Some(peer.emitted[first + (|w| - |c.written| - 1)]))
    && forall n {:trigger peer.log[n]} :: first <= n < first + |commands| ==>
         && peer.log[n].requestId == RequestIdOf(prefix, next + (n - first))
         && |peer.log[n].ciphertext| <= c.conn.limits.ciphertext
  }

  /** The connection has room for the whole queue: open, every request sealable, below the cap both ways. */
  ghost predicate HasRoom<I>(conn: ClientConnection.State, codec: InnerCodec<I>, commands: seq<Command<I>>) {
    && !IsClosed(conn)
    && conn.session.sendNext + |commands| <= conn.session.messageLimit
    && conn.session.receiveNext + |commands| <= conn.session.messageLimit
    && forall j :: 0 <= j < |commands| ==>
         && commands[j].Exchange? && SecureChannel.Framable(conn, codec, commands[j].request)
         && |codec.encode(commands[j].request).value| + SecureSession.TAG_LEN <= SecureSession.MAX_MESSAGE_LEN
  }

  /** All of this, for an ideal link. */
  ghost predicate Answerable<I(!new)>(
    c: Client, env: Environment<I>, peer: SecureChannel.Side<I>, prefix: Prefix, next: u64, commands: seq<Command<I>>)
  {
    && SecureChannel.Sender(peer, env.codec) && SecureChannel.Lossless(env.codec)
    && env.decrypt == SecureChannel.IdealDecrypt(peer.log) && Linked(c, peer)
    && SecureChannel.AddsTag(env.encrypt)
    && AnswersInOrder(c, env, peer, prefix, next, commands) && HasRoom(c.conn, env.codec, commands)
  }

  lemma FirstSucceeds<I(!new)>(
    c: Client, env: Environment<I>, exchange: Transport<Client, I>, peer: SecureChannel.Side<I>, prefix: Prefix,
    next: u64, commands: seq<Command<I>>)
    requires Answerable(c, env, peer, prefix, next, commands) && commands != [] && IsTcp(exchange, env)
    ensures var (after, result) := exchange(c, RequestIdOf(prefix, next), commands[0].request);
            && result == Ok(peer.log[c.conn.session.receiveNext].inner)
            && after.conn == Advanced(c.conn) && |after.written| == |c.written| + 1
  {
    var id, request := RequestIdOf(prefix, next), commands[0].request;
    SecureChannel.SealsExactlyWhatItCan(c.conn, env.codec, env.encrypt, id, request);
    ExchangeSucceedsIffAnswered(c, env, peer, id, request);
    assert ExchangeStep(c, env, id, request) == exchange(c, id, request);
  }

  lemma FirstIsAnswered<I(!new)>(
    c: Client, env: Environment<I>, exchange: Transport<Client, I>, peer: SecureChannel.Side<I>, prefix: Prefix,
    next: u64, commands: seq<Command<I>>)
    requires Answerable(c, env, peer, prefix, next, commands) && commands != [] && IsTcp(exchange, env)
    ensures var (after, result) := exchange(c, RequestIdOf(prefix, next), commands[0].request);
            && result == Ok(peer.log[c.conn.session.receiveNext].inner)
            && Answerable(after, env, peer, prefix, next + 1, commands[1..])
            && after.conn.session.receiveNext == c.conn.session.receiveNext + 1
  {
    FirstSucceeds(c, env, exchange, peer, prefix, next, commands);
    var after := exchange(c, RequestIdOf(prefix, next), commands[0].request).0;
    RestIsAnswered(c, after, env, peer, prefix, next, commands);
  }

  lemma {:induction false} EveryReplySucceeds<I(!new)>(
    c: Client, env: Environment<I>, exchange: Transport<Client, I>, peer: SecureChannel.Side<I>, prefix: Prefix,
    next: u64, commands: seq<Command<I>>, j: nat)
    requires Answerable(c, env, peer, prefix, next, commands) && IsTcp(exchange, env) && j < |commands|
    ensures c.conn.session.receiveNext + j < |peer.log|
    ensures Serve(c, exchange, prefix, next, commands).replies[j]
         == Answered(Ok(peer.log[c.conn.session.receiveNext + j].inner))
    decreases |commands|
  {
    FirstIsAnswered(c, env, exchange, peer, prefix, next, commands);
    ServeHead(c, exchange, prefix, next, commands);
    if j > 0 {
      var after := exchange(c, RequestIdOf(prefix, next), commands[0].request).0;
      EveryReplySucceeds(after, env, exchange, peer, prefix, next + 1, commands[1..], j - 1);
      var replies := Serve(c, exchange, prefix, next, commands).replies;
      assert replies[j] == replies[1..][j - 1];
    }
  }

  /** Then every reply of the worker is a success, and reply `j` is the peer's answer to request `j`. */
  lemma AnsweredQueueSucceeds<I(!new)>(
    c: Client, env: Environment<I>, peer: SecureChannel.Side<I>, prefix: Prefix, commands: seq<Command<I>>, j: nat)
    requires Answerable(c, env, peer, prefix, 1, commands) && j < |commands|
    ensures c.conn.session.receiveNext + j < |peer.log|
    ensures Serve(c, TcpTransport(env), prefix, 1, commands).replies[j]
         == Answered(Ok(peer.log[c.conn.session.receiveNext + j].inner))
  {
    EveryReplySucceeds(c, env, TcpTransport(env), peer, prefix, 1, commands, j);
  }

  lemma RestIsAnswered<I>(
    c: Client, after: Client, env: Environment<I>, peer: SecureChannel.Side<I>, prefix: Prefix, next: u64,
    commands: seq<Command<I>>)
    requires commands != [] && next < U64_MAX
    requires AnswersInOrder(c, env, peer, prefix, next, commands) && HasRoom(c.conn, env.codec, commands)
    requires Linked(c, peer) && after.conn == Advanced(c.conn) && |after.written| == |c.written| + 1
    ensures AnswersInOrder(after, env, peer, prefix, next + 1, commands[1..])
    ensures HasRoom(after.conn, env.codec, commands[1..]) && Linked(after, peer)
  {
    assert forall j :: 0 <= j < |commands| - 1 ==> commands[1..][j] == commands[j + 1];
  }

  lemma {:induction false} OpensFollowTheQueue<I(!new)>(
    c: Client, exchange: Transport<Client, I>, peer: SecureChannel.Side<I>, prefix: Prefix, next: u64,
    commands: seq<Command<I>>, j: nat)
    requires OpensInOrder(exchange, peer) && Linked(c, peer)
    requires j < |commands| && Continues(Serve(c, exchange, prefix, next, commands).replies[j])
    ensures var served := Serve(c, exchange, prefix, next, commands);
            var n := c.conn.session.receiveNext + j;
            && n < |peer.log| && j < |served.ids|
            && (peer.log[n].requestId, peer.log[n].inner) == (served.ids[j], served.replies[j].result.value)
    decreases |commands|
  {
    var served := Serve(c, exchange, prefix, next, commands);
    DroppedIffStoppedBefore(c, exchange, prefix, next, commands, j);
    ServeHead(c, exchange, prefix, next, commands);
    var id := RequestIdOf(prefix, next);
    var (after, result) := exchange(c, id, commands[0].request);
    assert OpensNext(c, after, result, id, peer);
    if j > 0 {
      assert served.replies[j] == served.replies[1..][j - 1];
      OpensFollowTheQueue(after, exchange, peer, prefix, next + 1, commands[1..], j - 1);
    }
  }

  /**
   * From a fresh connection, the success of request number `j` is exactly message number `j` the
   * peer sealed, and the peer sealed it for that request's own identifier.
   */
  lemma SuccessesAreThePeersAnswers<I(!new)>(
    c: Client, env: Environment<I>, peer: SecureChannel.Side<I>, prefix: Prefix, commands: seq<Command<I>>, j: nat)
    requires SecureChannel.Sender(peer, env.codec) && SecureChannel.Lossless(env.codec)
    requires env.decrypt == SecureChannel.IdealDecrypt(peer.log)
    requires Linked(c, peer) && c.conn.session.receiveNext == 0
    requires j < |commands| && Continues(Serve(c, TcpTransport(env), prefix, 1, commands).replies[j])
    ensures var served := Serve(c, TcpTransport(env), prefix, 1, commands);
            && j < |peer.log| && j < |served.ids|
            && SecureChannel.Messages(peer.log)[j] == (served.ids[j], served.replies[j].result.value)
  {
    assert OpensInOrder(TcpTransport(env), peer) by {
      forall c, id, request | Linked(c, peer)
        ensures OpensNext(c, TcpTransport(env)(c, id, request).0, TcpTransport(env)(c, id, request).1, id, peer)
      {
        ExchangeOpensNext(c, env, peer, id, request);
      }
    }
    OpensFollowTheQueue(c, TcpTransport(env), peer, prefix, 1, commands, j);
  }
}
