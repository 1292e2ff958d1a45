/** Sequential block upload over a list of endpoints. */
module HighwayUpload {
  import opened Wrappers
  import opened Bytes
  import opened Chunking

  const MIN_CHUNK_BYTES: nat := 65536
  const MAX_CHUNK_BYTES: nat := 4194304
  const MAX_RESPONSE_BYTES: nat := 4259850
  const MAX_HEAD_BYTES: nat := 65536
  const MAX_BODY_BYTES: nat := 4194304
  const MAX_SECRET_BYTES: nat := 8192
  const MAX_EXTENSION_BYTES: nat := 65536
  const START: byte := 0x28
  const END: byte := 0x29

  datatype HighwayError = InvalidInput | MalformedFrame | RemoteRejected | Transport

  /** The frames of an object in the making: an error where a chunk cannot be framed. */
  type FrameResults = seq<Result<seq<byte>, HighwayError>>

  type Md5 = b: seq<byte> | |b| == 16 witness seq(16, _ => 0)

  datatype UploadBlock = UploadBlock(
    uin: u64,
    sequence: nat,
    subAppId: u32,
    appId: u32,
    commandId: u32,
    fileSize: nat,
    offset: nat,
    ticket: seq<byte>,
    fileMd5: Md5,
    extension: seq<byte>,
    body: seq<byte>,
    loginSignature: seq<byte>
  )

  /** What one upload call is about; every block shares all of it. */
  datatype Job<E> = Job(
    uin: u64,
    subAppId: u32,
    appId: u32,
    commandId: u32,
    ticket: seq<byte>,
    extension: seq<byte>,
    loginSignature: seq<byte>,
    endpoints: seq<E>,
    bytes: seq<byte>
  )

  /** The echo of a block's place in the object. */
  datatype Segment = Segment(offset: u64, dataLength: u32)

  datatype ResponseHead = ResponseHead(
    errorCode: u32,
    extension: seq<byte>,
    sequence: Option<u32>,
    segment: Option<Segment>
  )

  datatype UploadResponse = UploadResponse(
    sequence: Option<u32>,
    offset: Option<u64>,
    dataLength: Option<u32>,
    extension: seq<byte>
  )

  /** What a post comes back with: no complete successful response, or its bytes. */
  datatype Reply = NoResponse | Response(bytes: seq<byte>)

  /** The protobuf codec of the heads, the hash, and the network's reply to the n-th post. */
  datatype Environment = Environment(
    md5: seq<byte> -> Md5,
    encodeHead: UploadBlock -> seq<byte>,
    decodeHead: seq<byte> -> Option<ResponseHead>,
    reply: nat -> Reply
  )

  // ---- frames ----

  predicate ValidBlock(b: UploadBlock) {
    && b.uin != 0 && b.sequence != 0 && b.appId != 0 && b.subAppId != 0 && b.commandId != 0
    && b.fileSize != 0
    && b.body != [] && |b.body| <= MAX_BODY_BYTES
    && b.ticket != [] && |b.ticket| <= MAX_SECRET_BYTES
    && b.loginSignature != [] && |b.loginSignature| <= MAX_SECRET_BYTES
    && |b.extension| <= MAX_EXTENSION_BYTES
    && b.offset + |b.body| <= U64_MAX
    && b.offset + |b.body| <= b.fileSize
  }

  function Frame(head: seq<byte>, body: seq<byte>): seq<byte>
    requires |head| <= U32_MAX && |body| <= U32_MAX
  {
    [START] + U32Bytes(|head|) + U32Bytes(|body|) + head + body + [END]
  }

  function EncodeBlock(env: Environment, b: UploadBlock): Result<seq<byte>, HighwayError> {
    if !ValidBlock(b) || |env.encodeHead(b)| > MAX_HEAD_BYTES then Err(InvalidInput)
    else Ok(Frame(env.encodeHead(b), b.body))
  }

  datatype Framed = Framed(head: seq<byte>, body: seq<byte>)

  /** The framing both directions share: markers, two lengths, and nothing left over. */
  function Unframe(input: seq<byte>): Option<Framed> {
    if |input| < 10 || input[0] != START || input[|input| - 1] != END then None
    else
      var headLen, bodyLen := FromBigEndian(input[1..5]), FromBigEndian(input[5..9]);
      if headLen == 0 || headLen > MAX_HEAD_BYTES || bodyLen > MAX_BODY_BYTES then None
      else if |input| != 10 + headLen + bodyLen then None
      else Some(Framed(input[9..9 + headLen], input[9 + headLen..9 + headLen + bodyLen]))
  }

  /** A frame gives back its head and its body. */
  lemma FrameRoundTrip(head: seq<byte>, body: seq<byte>)
    requires 0 < |head| <= MAX_HEAD_BYTES && |body| <= MAX_BODY_BYTES
    ensures Unframe(Frame(head, body)) == Some(Framed(head, body))
    ensures |Frame(head, body)| == |head| + |body| + 10
    ensures Frame(head, body)[0] == 40 && Frame(head, body)[|head| + |body| + 9] == 41
  {
    var input := Frame(head, body);
    U32RoundTrip(|head|);
    U32RoundTrip(|body|);
    assert input[1..5] == U32Bytes(|head|) && input[5..9] == U32Bytes(|body|);
    assert input[9..9 + |head|] == head && input[9 + |head|..9 + |head| + |body|] == body;
  }

  // ---- one block, many endpoints ----

  /** `decode_upload_response`: the echoes are passed on as they are. */
  function DecodeUploadResponse(env: Environment, input: seq<byte>): Result<UploadResponse, HighwayError> {
    match Unframe(input)
    case None => Err(MalformedFrame)
    case Some(framed) =>
      match env.decodeHead(framed.head)
      case None => Err(MalformedFrame)
      case Some(head) =>
        if head.errorCode != 0 || |head.extension| > MAX_EXTENSION_BYTES then Err(RemoteRejected)
        else
          Ok(UploadResponse(
            head.sequence,
            if head.segment.Some? then Some(head.segment.value.offset) else None,
            if head.segment.Some? then Some(head.segment.value.dataLength) else None,
            head.extension))
  }

  datatype Verdict = Acknowledged | Rejected | Unclear

  /** What the endpoint loop makes of a reply. */
  function Judge(env: Environment, reply: Reply): Verdict {
    match reply
    case NoResponse => Unclear
    case Response(bytes) =>
      if |bytes| > MAX_RESPONSE_BYTES then Unclear
      else
        match DecodeUploadResponse(env, bytes)
        case Ok(_) => Acknowledged
        case Err(e) => if e == RemoteRejected then Rejected else Unclear
  }

  type Judgement = nat -> Verdict

  datatype Post<E> = Post(endpoint: E, frame: seq<byte>)

  /** The verdict that settles a block, and how many posts it takes. */
  datatype Attempt = Attempt(verdict: Verdict, used: nat)

  /** How a block fares from its first post, number `at`, on. */
  function Tries(judge: Judgement, at: nat, endpoints: nat): (r: Attempt)
    ensures r.used <= endpoints
    decreases endpoints
  {
    if endpoints == 0 then Attempt(Unclear, 0)
    else if judge(at) != Unclear then Attempt(judge(at), 1)
    else
      var later := Tries(judge, at + 1, endpoints - 1);
      Attempt(later.verdict, later.used + 1)
  }

  function PostsOf<E>(endpoints: seq<E>, used: nat, frame: seq<byte>): (posts: seq<Post<E>>)
    requires used <= |endpoints|
    ensures |posts| == used
  {
    seq(used, k requires 0 <= k < used => Post(endpoints[k], frame))
  }

  /** The network: every post is recorded, and answered by its number. */
  class Network<E> {
    const env: Environment
    var posted: seq<Post<E>>

    constructor (env: Environment)
      ensures this.env == env && posted == []
    {
      this.env := env;
      posted := [];
    }

    method Send(endpoint: E, frame: seq<byte>) returns (reply: Reply)
      modifies this
      ensures posted == old(posted) + [Post(endpoint, frame)]
      ensures reply == env.reply(|old(posted)|)
    {
      reply := env.reply(|posted|);
      posted := posted + [Post(endpoint, frame)];
    }
  }

  /** `judge` stands for judging the n-th reply, so that how a reply is judged stays out of the loop's proof. */
  ghost predicate JudgesReplies(env: Environment, judge: Judgement) {
    forall n: nat {:trigger env.reply(n)} :: judge(n) == Judge(env, env.reply(n))
  }

  method Try<E>(net: Network<E>, endpoint: E, frame: seq<byte>, ghost judge: Judgement) returns (verdict: Verdict)
    requires JudgesReplies(net.env, judge)
    modifies net
    ensures net.posted == old(net.posted) + [Post(endpoint, frame)]
    ensures verdict == judge(|old(net.posted)|)
  {
    var reply := net.Send(endpoint, frame);
    verdict := Judge(net.env, reply);
  }

  function Settled(verdict: Verdict): Result<(), HighwayError> {
    match verdict
    case Acknowledged => Ok(())
    case Rejected => Err(RemoteRejected)
    case Unclear => Err(Transport)
  }

  lemma OneMorePost<E>(start: seq<Post<E>>, endpoints: seq<E>, i: nat, frame: seq<byte>)
    requires i < |endpoints|
    ensures start + PostsOf(endpoints, i, frame) + [Post(endpoints[i], frame)]
         == start + PostsOf(endpoints, i + 1, frame)
  {
  }

  method SendBlock<E>(net: Network<E>, endpoints: seq<E>, frame: seq<byte>, ghost judge: Judgement)
    returns (r: Result<(), HighwayError>)
    requires JudgesReplies(net.env, judge)
    modifies net
    ensures var a := Tries(judge, |old(net.posted)|, |endpoints|);
            net.posted == old(net.posted) + PostsOf(endpoints, a.used, frame) && r == Settled(a.verdict)
  {
    ghost var start := net.posted;
    ghost var a := Tries(judge, |start|, |endpoints|);
    assert start + PostsOf(endpoints, 0, frame) == start;
    for i := 0 to |endpoints|
      invariant net.posted == start + PostsOf(endpoints, i, frame) && |net.posted| == |start| + i
      invariant var later := Tries(judge, |start| + i, |endpoints| - i);
                a.verdict == later.verdict && a.used == i + later.used
    {
      var answer := Try(net, endpoints[i], frame, judge);
      OneMorePost(start, endpoints, i, frame);
      if answer == Acknowledged {
        return Ok(());
      }
      if answer == Rejected {
        return Err(RemoteRejected);
      }
    }
    r := Err(Transport);
  }

  // ---- the whole object ----

  datatype UploadReceipt = UploadReceipt(bytesUploaded: nat, blocksUploaded: nat)

  /** Block `index` of the object. */
  function BlockAt<E>(job: Job<E>, fileMd5: Md5, chunk: nat, index: nat, body: seq<byte>): UploadBlock {
    UploadBlock(job.uin, index + 1, job.subAppId, job.appId, job.commandId, |job.bytes|, index * chunk,
                job.ticket, fileMd5, job.extension, body, job.loginSignature)
  }

  function FrameAt<E>(env: Environment, job: Job<E>, chunk: nat, index: nat): Result<seq<byte>, HighwayError>
    requires chunk > 0 && index < |Chunks(job.bytes, chunk)|
  {
    if index + 1 > U32_MAX then Err(InvalidInput)
    else EncodeBlock(env, BlockAt(job, env.md5(job.bytes), chunk, index, Chunks(job.bytes, chunk)[index]))
  }

  /** The frames of an object, one for each chunk; an error where a chunk cannot be framed. */
  function Frames<E>(env: Environment, job: Job<E>, chunk: nat): (frames: FrameResults)
    requires chunk > 0
    ensures |frames| == |Chunks(job.bytes, chunk)|
  {
    seq(|Chunks(job.bytes, chunk)|, i requires 0 <= i < |Chunks(job.bytes, chunk)| => FrameAt(env, job, chunk, i))
  }

  datatype Outcome<E> = Outcome(error: Option<HighwayError>, posts: seq<Post<E>>, acknowledged: seq<seq<byte>>)

  /** Sending `frames` in order, from post number `at` on, until one of them fails. */
  function Sending<E>(judge: Judgement, endpoints: seq<E>, frames: FrameResults, at: nat): Outcome<E>
    decreases |frames|
  {
    if frames == [] then Outcome(None, [], [])
    else if frames[0].Err? then Outcome(Some(frames[0].error), [], [])
    else
      var frame := frames[0].value;
      var a := Tries(judge, at, |endpoints|);
      var posts := PostsOf(endpoints, a.used, frame);
      match a.verdict
      case Rejected => Outcome(Some(RemoteRejected), posts, [])
      case Unclear => Outcome(Some(Transport), posts, [])
      case Acknowledged =>
        var rest := Sending(judge, endpoints, frames[1..], at + a.used);
        Outcome(rest.error, posts + rest.posts, [frame] + rest.acknowledged)
  }

  predicate Uploadable<E>(job: Job<E>) {
    job.bytes != [] && job.endpoints != [] && job.ticket != [] && |job.bytes| <= U64_MAX
  }

  /** `frames` are the job's frames, under a name that keeps their making out of the loop's proof. */
  ghost predicate FramesAre<E>(env: Environment, job: Job<E>, chunk: nat, frames: FrameResults)
    requires chunk > 0
  {
    && |frames| == |Chunks(job.bytes, chunk)|
    && forall i {:trigger FrameAt(env, job, chunk, i)} :: 0 <= i < |frames| ==> frames[i] == FrameAt(env, job, chunk, i)
  }

  /** One block: number it, frame it, send it. */
  method UploadOne<E>(net: Network<E>, job: Job<E>, fileMd5: Md5, chunk: nat, index: nat, body: seq<byte>,
                      ghost frames: FrameResults, ghost judge: Judgement)
    returns (r: Result<(), HighwayError>)
    requires chunk > 0 && index < |Chunks(job.bytes, chunk)| && body == Chunks(job.bytes, chunk)[index]
    requires fileMd5 == net.env.md5(job.bytes) && JudgesReplies(net.env, judge) && |job.bytes| <= U64_MAX
    requires FramesAre(net.env, job, chunk, frames)
    modifies net
    ensures frames[index].Err? ==> r == Err(frames[index].error) && net.posted == old(net.posted)
    ensures frames[index].Ok? ==>
      var a := Tries(judge, |old(net.posted)|, |job.endpoints|);
      net.posted == old(net.posted) + PostsOf(job.endpoints, a.used, frames[index].value) && r == Settled(a.verdict)
  {
    assert frames[index] == FrameAt(net.env, job, chunk, index);
    if index + 1 > U32_MAX {
      return Err(InvalidInput);
    }
    ChunkAt(job.bytes, chunk, index);
    var offset := index * chunk;
    if offset > U64_MAX {
      return Err(InvalidInput);
    }
    var frame :- EncodeBlock(net.env, BlockAt(job, fileMd5, chunk, index, body));
    r := SendBlock(net, job.endpoints, frame, judge);
  }

  /** What is still to be sent after `index` blocks leads to the outcome of the whole. */
  ghost predicate Continues<E>(whole: Outcome<E>, rest: Outcome<E>, posts: seq<Post<E>>, acknowledged: seq<seq<byte>>) {
    && whole.error == rest.error
    && whole.posts == posts + rest.posts
    && whole.acknowledged == acknowledged + rest.acknowledged
  }

  lemma SendingStep<E>(judge: Judgement, endpoints: seq<E>, frames: FrameResults, index: nat, at: nat,
                       whole: Outcome<E>, posts: seq<Post<E>>, acknowledged: seq<seq<byte>>)
    requires index < |frames| && frames[index].Ok?
    requires Continues(whole, Sending(judge, endpoints, frames[index..], at), posts, acknowledged)
    ensures var a := Tries(judge, at, |endpoints|);
            var grown := posts + PostsOf(endpoints, a.used, frames[index].value);
            && (a.verdict == Acknowledged ==>
                  Continues(whole, Sending(judge, endpoints, frames[index + 1..], at + a.used), grown,
                            acknowledged + [frames[index].value]))
            && (a.verdict != Acknowledged ==> whole == Outcome(Some(Settled(a.verdict).error), grown, acknowledged))
  {
    var a := Tries(judge, at, |endpoints|);
    var tail := frames[index..];
    assert tail[0] == frames[index] && tail[1..] == frames[index + 1..];
    var sent := PostsOf(endpoints, a.used, frames[index].value);
    var rest := Sending(judge, endpoints, frames[index + 1..], at + a.used);
    assert posts + (sent + rest.posts) == posts + sent + rest.posts;
    var frame := frames[index].value;
    assert acknowledged + ([frame] + rest.acknowledged) == acknowledged + [frame] + rest.acknowledged;
    assert acknowledged + [] == acknowledged;
  }

  lemma SendingStops<E>(judge: Judgement, endpoints: seq<E>, frames: FrameResults, index: nat, at: nat,
                        whole: Outcome<E>, posts: seq<Post<E>>, acknowledged: seq<seq<byte>>)
    requires index < |frames| && frames[index].Err?
    requires Continues(whole, Sending(judge, endpoints, frames[index..], at), posts, acknowledged)
    ensures whole == Outcome(Some(frames[index].error), posts, acknowledged)
  {
    assert frames[index..][0] == frames[index];
  }

  lemma Beginning<E>(whole: Outcome<E>, frames: FrameResults)
    ensures frames[0..] == frames && Continues(whole, whole, [], [])
  {
  }

  /** One turn of the loop, with what it adds to the posts and to the acknowledged frames. */
  method UploadNext<E>(net: Network<E>, job: Job<E>, fileMd5: Md5, chunk: nat, index: nat, body: seq<byte>,
                       ghost frames: FrameResults, ghost judge: Judgement,
                       ghost whole: Outcome<E>, ghost start: seq<Post<E>>, ghost acknowledged: seq<seq<byte>>)
    returns (r: Result<(), HighwayError>, ghost more: seq<seq<byte>>)
    requires chunk > 0 && index < |Chunks(job.bytes, chunk)| && body == Chunks(job.bytes, chunk)[index]
    requires fileMd5 == net.env.md5(job.bytes) && JudgesReplies(net.env, judge) && |job.bytes| <= U64_MAX
    requires FramesAre(net.env, job, chunk, frames) && start <= net.posted
    requires Continues(whole, Sending(judge, job.endpoints, frames[index..], |net.posted|), net.posted[|start|..],
                       acknowledged)
    modifies net
    ensures start <= net.posted && |more| == |acknowledged| + 1
    ensures r.Ok? ==>
      Continues(whole, Sending(judge, job.endpoints, frames[index + 1..], |net.posted|), net.posted[|start|..], more)
    ensures r.Err? ==> whole.error == Some(r.error) && whole.posts == net.posted[|start|..]
  {
    ghost var before, at := net.posted, |net.posted|;
    ghost var posts := before[|start|..];
    more := acknowledged + [if frames[index].Ok? then frames[index].value else []];
    if frames[index].Ok? {
      SendingStep(judge, job.endpoints, frames, index, at, whole, posts, acknowledged);
    } else {
      SendingStops(judge, job.endpoints, frames, index, at, whole, posts, acknowledged);
    }
    r := UploadOne(net, job, fileMd5, chunk, index, body, frames, judge);
    if frames[index].Ok? {
      ghost var sent := PostsOf(job.endpoints, Tries(judge, at, |job.endpoints|).used, frames[index].value);
      assert net.posted == before + sent;
      SinceStart(start, before, sent);
    }
  }

  lemma SinceStart<T>(start: seq<T>, before: seq<T>, more: seq<T>)
    requires start <= before
    ensures start <= before + more && (before + more)[|start|..] == before[|start|..] + more
  {
  }

  /** The loop over the chunks. */
  method UploadBlocks<E>(net: Network<E>, job: Job<E>, chunk: nat,
                         ghost frames: FrameResults, ghost judge: Judgement)
    returns (r: Result<nat, HighwayError>)
    requires chunk > 0 && JudgesReplies(net.env, judge) && |job.bytes| <= U64_MAX
    requires FramesAre(net.env, job, chunk, frames)
    modifies net
    ensures var whole := Sending(judge, job.endpoints, frames, |old(net.posted)|);
            && net.posted == old(net.posted) + whole.posts
            && r == match whole.error case Some(e) => Err(e) case None => Ok(|whole.acknowledged|)
  {
    var fileMd5 := net.env.md5(job.bytes);
    var chunks := Chunks(job.bytes, chunk);
    ghost var start := net.posted;
    ghost var whole := Sending(judge, job.endpoints, frames, |start|);
    ghost var acknowledged: seq<seq<byte>> := [];
    Beginning(whole, frames);
    assert net.posted[|start|..] == [];
    var blocksUploaded := 0;
    for index := 0 to |chunks|
      invariant blocksUploaded == index == |acknowledged| && start <= net.posted
      invariant Continues(whole, Sending(judge, job.endpoints, frames[index..], |net.posted|), net.posted[|start|..],
                          acknowledged)
    {
      var next;
      next, acknowledged :=
        UploadNext(net, job, fileMd5, chunk, index, chunks[index], frames, judge, whole, start, acknowledged);
      if next.Err? {
        return Err(next.error);
      }
      blocksUploaded := blocksUploaded + 1;
    }
    Ending(judge, job.endpoints, frames, |net.posted|, whole, net.posted[|start|..], acknowledged);
    r := Ok(blocksUploaded);
  }

  lemma Ending<E>(judge: Judgement, endpoints: seq<E>, frames: FrameResults, at: nat,
                  whole: Outcome<E>, posts: seq<Post<E>>, acknowledged: seq<seq<byte>>)
    requires Continues(whole, Sending(judge, endpoints, frames[|frames|..], at), posts, acknowledged)
    ensures whole == Outcome(None, posts, acknowledged)
  {
    assert frames[|frames|..] == [];
  }

  /** `HighwayClient::upload` */
  method Upload<E>(net: Network<E>, chunk: nat, job: Job<E>, ghost judge: Judgement)
    returns (r: Result<UploadReceipt, HighwayError>)
    requires MIN_CHUNK_BYTES <= chunk <= MAX_CHUNK_BYTES && JudgesReplies(net.env, judge)
    modifies net
    ensures job.bytes == [] || job.endpoints == [] || job.ticket == [] || |job.bytes| > U64_MAX ==>
      r == Err(InvalidInput) && net.posted == old(net.posted)
    ensures job.bytes != [] && job.endpoints != [] && job.ticket != [] && |job.bytes| <= U64_MAX ==>
      var whole := Sending(judge, job.endpoints, Frames(net.env, job, chunk), |old(net.posted)|);
      && net.posted == old(net.posted) + whole.posts
      && (whole.error.Some? ==> r == Err(whole.error.value))
      && (whole.error.None? ==> r == Ok(UploadReceipt(|job.bytes|, |whole.acknowledged|)))
  {
    if job.bytes == [] || job.endpoints == [] || job.ticket == [] || |job.bytes| > U64_MAX {
      return Err(InvalidInput);
    }
    var blocksUploaded :- UploadBlocks(net, job, chunk, Frames(net.env, job, chunk), judge);
    r := Ok(UploadReceipt(|job.bytes|, blocksUploaded));
  }

  // ---- what an upload delivers ----

  /** The checks every block shares. */
  predicate ValidJob<E>(job: Job<E>) {
    && job.uin != 0 && job.appId != 0 && job.subAppId != 0 && job.commandId != 0
    && job.ticket != [] && |job.ticket| <= MAX_SECRET_BYTES
    && job.loginSignature != [] && |job.loginSignature| <= MAX_SECRET_BYTES
    && |job.extension| <= MAX_EXTENSION_BYTES
  }

  function BlockOf<E>(env: Environment, job: Job<E>, chunk: nat, index: nat): UploadBlock
    requires chunk > 0 && index < |Chunks(job.bytes, chunk)|
  {
    BlockAt(job, env.md5(job.bytes), chunk, index, Chunks(job.bytes, chunk)[index])
  }

  /** Every block carries the job's identity and secrets, the size and digest of the whole object, and its own piece. */
  lemma BlockShowsTheJob<E>(env: Environment, job: Job<E>, chunk: nat, index: nat)
    requires chunk > 0 && index < |Chunks(job.bytes, chunk)|
    ensures var b := BlockOf(env, job, chunk, index);
            && b.uin == job.uin && b.appId == job.appId && b.subAppId == job.subAppId && b.commandId == job.commandId
            && b.ticket == job.ticket && b.loginSignature == job.loginSignature && b.extension == job.extension
            && b.fileSize == |job.bytes| && b.fileMd5 == env.md5(job.bytes)
            && b.offset + |b.body| <= |job.bytes| && b.body == job.bytes[b.offset..b.offset + |b.body|]
  {
    ChunkAt(job.bytes, chunk, index);
  }

  /** The blocks of an object lie in its bounds, so a block is rejected only for what all of them share. */
  lemma GeometryNeverRejects<E>(env: Environment, job: Job<E>, chunk: nat, index: nat)
    requires MIN_CHUNK_BYTES <= chunk <= MAX_CHUNK_BYTES && Uploadable(job) && index < |Chunks(job.bytes, chunk)|
    ensures ValidBlock(BlockOf(env, job, chunk, index)) <==> ValidJob(job)
    ensures FrameAt(env, job, chunk, index).Ok?
       <==> ValidJob(job) && index < U32_MAX && |env.encodeHead(BlockOf(env, job, chunk, index))| <= MAX_HEAD_BYTES
  {
    ChunkAt(job.bytes, chunk, index);
    assert (index + 1) * chunk == index * chunk + chunk;
  }

  /** Blocks are numbered from one, follow each other without gap, end with the object and together are the object. */
  lemma BlocksTileTheObject<E>(env: Environment, job: Job<E>, chunk: nat)
    requires chunk > 0
    ensures var n := |Chunks(job.bytes, chunk)|;
            && n == (|job.bytes| + chunk - 1) / chunk
            && (forall i :: 0 <= i < n ==> BlockOf(env, job, chunk, i).sequence == i + 1)
            && (forall i :: 0 <= i < n - 1 ==>
                  BlockOf(env, job, chunk, i).offset + |BlockOf(env, job, chunk, i).body|
                  == BlockOf(env, job, chunk, i + 1).offset)
            && (n > 0 ==>
                  && BlockOf(env, job, chunk, 0).offset == 0
                  && BlockOf(env, job, chunk, n - 1).offset + |BlockOf(env, job, chunk, n - 1).body| == |job.bytes|)
    ensures Concat(Chunks(job.bytes, chunk)) == job.bytes
  {
    var n := |Chunks(job.bytes, chunk)|;
    ChunkCount(job.bytes, chunk);
    AllChunksAreTheBytes(job.bytes, chunk);
    forall i | 0 <= i < n - 1
      ensures BlockOf(env, job, chunk, i).offset + |BlockOf(env, job, chunk, i).body|
           == BlockOf(env, job, chunk, i + 1).offset
    {
      ChunkAt(job.bytes, chunk, i);
      ChunkAt(job.bytes, chunk, i + 1);
      assert (i + 1) * chunk == i * chunk + chunk;
    }
    if n > 0 {
      ChunkAt(job.bytes, chunk, n - 1);
    }
  }

  /** The frames at the positions whose reply was an acknowledgement. */
  function AcknowledgedPosts<E>(judge: Judgement, posts: seq<Post<E>>, at: nat): seq<seq<byte>>
    decreases |posts|
  {
    if posts == [] then []
    else (if judge(at) == Acknowledged then [posts[0].frame] else []) + AcknowledgedPosts(judge, posts[1..], at + 1)
  }

  lemma {:induction false} AcknowledgedOfConcat<E>(judge: Judgement, a: seq<Post<E>>, b: seq<Post<E>>, at: nat)
    ensures AcknowledgedPosts(judge, a + b, at)
         == AcknowledgedPosts(judge, a, at) + AcknowledgedPosts(judge, b, at + |a|)
    decreases |a|
  {
    if a == [] {
      assert a + b == b;
    } else {
      assert (a + b)[1..] == a[1..] + b;
      AcknowledgedOfConcat(judge, a[1..], b, at + 1);
    }
  }

  /** One frame goes to the endpoints in order, once each, until one settles it; only the last post can acknowledge. */
  lemma {:induction false} TriesStopWhenSettled(judge: Judgement, at: nat, endpoints: nat)
    ensures var a := Tries(judge, at, endpoints);
            && (forall n: nat {:trigger judge(n)} :: at <= n < at + a.used - 1 ==> judge(n) == Unclear)
            && (a.used > 0 ==> judge(at + a.used - 1) == a.verdict)
            && (a.verdict == Unclear ==> a.used == endpoints)
            && (a.verdict != Unclear ==> a.used > 0)
    decreases endpoints
  {
    if endpoints != 0 && judge(at) == Unclear {
      TriesStopWhenSettled(judge, at + 1, endpoints - 1);
    }
  }

  lemma {:induction false} UnclearPostsAcknowledgeNothing<E>(judge: Judgement, posts: seq<Post<E>>, at: nat)
    requires forall n: nat {:trigger judge(n)} :: at <= n < at + |posts| ==> judge(n) == Unclear
    ensures AcknowledgedPosts(judge, posts, at) == []
    decreases |posts|
  {
    if posts != [] {
      assert judge(at) == Unclear;
      UnclearPostsAcknowledgeNothing(judge, posts[1..], at + 1);
    }
  }

  lemma TriesAcknowledgeOnce<E>(judge: Judgement, at: nat, endpoints: seq<E>, frame: seq<byte>)
    ensures var a := Tries(judge, at, |endpoints|);
            var acknowledged := AcknowledgedPosts(judge, PostsOf(endpoints, a.used, frame), at);
            acknowledged == if a.verdict == Acknowledged then [frame] else []
  {
    var a := Tries(judge, at, |endpoints|);
    TriesStopWhenSettled(judge, at, |endpoints|);
    if a.used > 0 {
      var before, last := PostsOf(endpoints, a.used - 1, frame), Post(endpoints[a.used - 1], frame);
      assert PostsOf(endpoints, a.used, frame) == before + [last];
      UnclearPostsAcknowledgeNothing(judge, before, at);
      AcknowledgedOfConcat(judge, before, [last], at);
      OnePost(judge, last, at + a.used - 1);
    }
  }

  lemma OnePost<E>(judge: Judgement, post: Post<E>, at: nat)
    ensures AcknowledgedPosts(judge, [post], at) == if judge(at) == Acknowledged then [post.frame] else []
  {
    assert [post][1..] == [];
  }

  ghost predicate PrefixOf(acknowledged: seq<seq<byte>>, frames: FrameResults) {
    |acknowledged| <= |frames| && forall i :: 0 <= i < |acknowledged| ==> frames[i] == Ok(acknowledged[i])
  }

  /** In every run the acknowledged posts carry the first frames, in order and once each. */
  lemma {:induction false} AcknowledgedOfRun<E>(
    judge: Judgement, endpoints: seq<E>, frames: FrameResults, at: nat)
    ensures var run := Sending(judge, endpoints, frames, at);
            AcknowledgedPosts(judge, run.posts, at) == run.acknowledged
    decreases |frames|
  {
    if frames != [] && frames[0].Ok? {
      var frame := frames[0].value;
      var a := Tries(judge, at, |endpoints|);
      TriesAcknowledgeOnce(judge, at, endpoints, frame);
      if a.verdict == Acknowledged {
        AcknowledgedOfRun(judge, endpoints, frames[1..], at + a.used);
        var rest := Sending(judge, endpoints, frames[1..], at + a.used);
        AcknowledgedOfConcat(judge, PostsOf(endpoints, a.used, frame), rest.posts, at);
      }
    }
  }

  /** Why a run failed: rejected by its last post, unclear at every endpoint, or a block that has no frame. */
  ghost predicate FailsFor(judge: Judgement, endpoints: nat, frames: FrameResults, acknowledged: nat, at: nat,
                           posts: nat, error: HighwayError)
    requires acknowledged < |frames|
  {
    if frames[acknowledged].Err? then error == frames[acknowledged].error
    else
      && (error == RemoteRejected || error == Transport)
      && (error == RemoteRejected ==> posts > 0 && judge(at + posts - 1) == Rejected)
      && (error == Transport ==>
            posts >= endpoints
            && forall n: nat {:trigger judge(n)} :: at + posts - endpoints <= n < at + posts ==> judge(n) == Unclear)
  }

  lemma {:induction false} FailureHasItsReason<E>(
    judge: Judgement, endpoints: seq<E>, frames: FrameResults, at: nat)
    ensures var run := Sending(judge, endpoints, frames, at);
            run.error.Some? ==>
              && |run.acknowledged| < |frames|
              && FailsFor(judge, |endpoints|, frames, |run.acknowledged|, at, |run.posts|, run.error.value)
    decreases |frames|
  {
    if frames != [] && frames[0].Ok? {
      var a := Tries(judge, at, |endpoints|);
      TriesStopWhenSettled(judge, at, |endpoints|);
      if a.verdict == Acknowledged {
        FailureHasItsReason(judge, endpoints, frames[1..], at + a.used);
      } else if a.verdict == Unclear && |endpoints| > 0 {
        assert judge(at + a.used - 1) == Unclear;
      }
    }
  }

  /** They are a prefix of the object's frames, the whole of them exactly when the upload succeeds. */
  lemma {:induction false} AcknowledgedIsAPrefix<E>(
    judge: Judgement, endpoints: seq<E>, frames: FrameResults, at: nat)
    ensures var run := Sending(judge, endpoints, frames, at);
            PrefixOf(run.acknowledged, frames) && (run.error.None? <==> |run.acknowledged| == |frames|)
    decreases |frames|
  {
    if frames != [] && frames[0].Ok? {
      var a := Tries(judge, at, |endpoints|);
      if a.verdict == Acknowledged {
        AcknowledgedIsAPrefix(judge, endpoints, frames[1..], at + a.used);
        PrefixGrows(frames, Sending(judge, endpoints, frames[1..], at + a.used).acknowledged);
      }
    }
  }

  lemma PrefixGrows(frames: FrameResults, rest: seq<seq<byte>>)
    requires frames != [] && frames[0].Ok? && PrefixOf(rest, frames[1..])
    ensures PrefixOf([frames[0].value] + rest, frames)
  {
    forall i | 0 <= i < 1 + |rest| ensures frames[i] == Ok(([frames[0].value] + rest)[i]) {
      assert i > 0 ==> frames[1..][i - 1] == frames[i];
    }
  }

  /** No frame is posted more often than there are endpoints. */
  lemma {:induction false} PostsAreBounded<E>(
    judge: Judgement, endpoints: seq<E>, frames: FrameResults, at: nat)
    ensures |Sending(judge, endpoints, frames, at).posts| <= |frames| * |endpoints|
    decreases |frames|
  {
    if frames != [] && frames[0].Ok? {
      var a := Tries(judge, at, |endpoints|);
      PostsAreBounded(judge, endpoints, frames[1..], at + a.used);
      assert |frames| * |endpoints| == |frames[1..]| * |endpoints| + |endpoints|;
    }
  }

  /** What a receiver keeps of acknowledged frames: their bodies, one after the other. */
  function BodiesOf(frames: seq<seq<byte>>): Option<seq<seq<byte>>> {
    if frames == [] then Some([])
    else
      match Unframe(frames[0])
      case None => None
      case Some(framed) =>
        match BodiesOf(frames[1..])
        case None => None
        case Some(rest) => Some([framed.body] + rest)
  }

  lemma {:induction false} BodiesOfFrames(frames: seq<seq<byte>>, bodies: seq<seq<byte>>)
    requires |frames| == |bodies|
    requires forall i :: 0 <= i < |frames| ==> Unframe(frames[i]).Some? && Unframe(frames[i]).value.body == bodies[i]
    ensures BodiesOf(frames) == Some(bodies)
  {
    if frames != [] {
      BodiesOfFrames(frames[1..], bodies[1..]);
      assert bodies == [bodies[0]] + bodies[1..];
    }
  }

  lemma FrameCarriesChunk<E>(env: Environment, job: Job<E>, chunk: nat, index: nat)
    requires chunk > 0 && index < |Chunks(job.bytes, chunk)| && FrameAt(env, job, chunk, index).Ok?
    requires env.encodeHead(BlockOf(env, job, chunk, index)) != []
    ensures var framed := Unframe(FrameAt(env, job, chunk, index).value);
            framed == Some(Framed(env.encodeHead(BlockOf(env, job, chunk, index)), Chunks(job.bytes, chunk)[index]))
  {
    FrameRoundTrip(env.encodeHead(BlockOf(env, job, chunk, index)), Chunks(job.bytes, chunk)[index]);
  }

  /** A successful upload has delivered the object: its acknowledged frames carry exactly its bytes. */
  lemma SuccessDeliversTheObject<E>(env: Environment, job: Job<E>, chunk: nat, judge: Judgement, at: nat)
    requires MIN_CHUNK_BYTES <= chunk <= MAX_CHUNK_BYTES && Uploadable(job)
    requires forall b {:trigger env.encodeHead(b)} :: env.encodeHead(b) != []
    requires Sending(judge, job.endpoints, Frames(env, job, chunk), at).error.None?
    ensures Delivers(judge, Sending(judge, job.endpoints, Frames(env, job, chunk), at), at, job.bytes, chunk)
  {
    var frames := Frames(env, job, chunk);
    FramesCarryChunks(env, job, chunk, frames);
    CarriedIsDelivered(judge, job.endpoints, frames, at, job.bytes, chunk);
  }

  /** As many acknowledged frames as there are chunks, their bodies together the object. */
  ghost predicate Delivers<E>(judge: Judgement, run: Outcome<E>, at: nat, bytes: seq<byte>, chunk: nat)
    requires chunk > 0
  {
    var bodies := BodiesOf(AcknowledgedPosts(judge, run.posts, at));
    && |run.acknowledged| == (|bytes| + chunk - 1) / chunk
    && bodies.Some? && Concat(bodies.value) == bytes
  }

  /** Frame `i`, if it could be made, holds chunk `i`. */
  ghost predicate CarryChunks(frames: FrameResults, chunks: seq<seq<byte>>) {
    && |frames| == |chunks|
    && forall i :: 0 <= i < |frames| && frames[i].Ok? ==>
         Unframe(frames[i].value).Some? && Unframe(frames[i].value).value.body == chunks[i]
  }

  lemma FramesCarryChunks<E>(env: Environment, job: Job<E>, chunk: nat, frames: FrameResults)
    requires chunk > 0 && frames == Frames(env, job, chunk)
    requires forall b {:trigger env.encodeHead(b)} :: env.encodeHead(b) != []
    ensures CarryChunks(frames, Chunks(job.bytes, chunk))
  {
    forall i | 0 <= i < |frames| && frames[i].Ok?
      ensures Unframe(frames[i].value).Some? && Unframe(frames[i].value).value.body == Chunks(job.bytes, chunk)[i]
    {
      assert frames[i] == FrameAt(env, job, chunk, i);
      FrameCarriesChunk(env, job, chunk, i);
    }
  }

  lemma CarriedIsDelivered<E>(judge: Judgement, endpoints: seq<E>, frames: FrameResults, at: nat,
                              bytes: seq<byte>, chunk: nat)
    requires chunk > 0 && CarryChunks(frames, Chunks(bytes, chunk))
    requires Sending(judge, endpoints, frames, at).error.None?
    ensures Delivers(judge, Sending(judge, endpoints, frames, at), at, bytes, chunk)
  {
    var run := Sending(judge, endpoints, frames, at);
    SuccessAcknowledgesAll(judge, endpoints, frames, at);
    BodiesOfFrames(run.acknowledged, Chunks(bytes, chunk));
    ChunkCount(bytes, chunk);
    AllChunksAreTheBytes(bytes, chunk);
  }

  lemma SuccessAcknowledgesAll<E>(judge: Judgement, endpoints: seq<E>, frames: FrameResults, at: nat)
    requires Sending(judge, endpoints, frames, at).error.None?
    ensures var run := Sending(judge, endpoints, frames, at);
            && |run.acknowledged| == |frames| && PrefixOf(run.acknowledged, frames)
            && AcknowledgedPosts(judge, run.posts, at) == run.acknowledged
  {
    AcknowledgedIsAPrefix(judge, endpoints, frames, at);
    AcknowledgedOfRun(judge, endpoints, frames, at);
  }

  // ---- what counts as an acknowledgement ----

  /**
   * A reply acknowledges a block exactly if it is a whole frame of bounded size whose head reports no error, and
   * rejects it exactly if the head reports one; any other reply leaves it to the next endpoint.
   */
  lemma AcknowledgesIff(env: Environment, reply: Reply)
    ensures Judge(env, reply) == Acknowledged
       <==> && reply.Response? && |reply.bytes| <= MAX_RESPONSE_BYTES && Unframe(reply.bytes).Some?
            && var head := env.decodeHead(Unframe(reply.bytes).value.head);
            head.Some? && head.value.errorCode == 0 && |head.value.extension| <= MAX_EXTENSION_BYTES
    ensures Judge(env, reply) == Rejected
       <==> && reply.Response? && |reply.bytes| <= MAX_RESPONSE_BYTES && Unframe(reply.bytes).Some?
            && var head := env.decodeHead(Unframe(reply.bytes).value.head);
            head.Some? && (head.value.errorCode != 0 || |head.value.extension| > MAX_EXTENSION_BYTES)
  {
  }

  /** `head` with other echoes. */
  function WithEcho(head: ResponseHead, sequence: Option<u32>, segment: Option<Segment>): ResponseHead {
    head.(sequence := sequence, segment := segment)
  }

  /** The echoes play no part: with any others in every head, each reply is judged the same. */
  lemma EchoesAreNotCompared(env: Environment, reply: Reply, sequence: Option<u32>, segment: Option<Segment>)
    ensures var decodeHead := (h: seq<byte>) =>
              match env.decodeHead(h) case None => None case Some(head) => Some(WithEcho(head, sequence, segment));
            Judge(env.(decodeHead := decodeHead), reply) == Judge(env, reply)
  {
  }

  /** A head that a reply can carry and that reports no error, whatever it echoes. */
  predicate EchoingHead(env: Environment, h: seq<byte>) {
    && 0 < |h| <= MAX_HEAD_BYTES
    && env.decodeHead(h).Some?
    && env.decodeHead(h).value.errorCode == 0
    && |env.decodeHead(h).value.extension| <= MAX_EXTENSION_BYTES
  }

  /** An endpoint that answers every post with the same head, whatever block was posted. */
  function Parrot(env: Environment, h: seq<byte>): Environment
    requires |h| <= U32_MAX
  {
    env.(reply := _ => Response(Frame(h, [])))
  }

  /** Each of its replies acknowledges and passes on the echoes of that one head. */
  lemma ParrotAcknowledgesEveryBlock(env: Environment, h: seq<byte>, n: nat)
    requires EchoingHead(env, h)
    ensures var parrot := Parrot(env, h);
            && Judge(parrot, parrot.reply(n)) == Acknowledged
            && var head, decoded := env.decodeHead(h).value, DecodeUploadResponse(parrot, parrot.reply(n).bytes);
            decoded.Ok? && decoded.value.sequence == head.sequence
            && (head.segment.Some? ==> decoded.value.offset == Some(head.segment.value.offset))
  {
    FrameRoundTrip(h, []);
    assert |Frame(h, [])| == |h| + 10;
  }

  lemma {:induction false} SettledAtOnce<E>(
    judge: Judgement, endpoints: seq<E>, frames: FrameResults, at: nat)
    requires endpoints != [] && forall n: nat {:trigger judge(n)} :: judge(n) == Acknowledged
    requires forall i :: 0 <= i < |frames| ==> frames[i].Ok?
    ensures var run := Sending(judge, endpoints, frames, at);
            run.error.None? && |run.posts| == |frames| == |run.acknowledged|
    decreases |frames|
  {
    if frames != [] {
      assert judge(at) == Acknowledged;
      SettledAtOnce(judge, endpoints, frames[1..], at + 1);
    }
  }

  /** So an object of several blocks goes through on one and the same reply, although its echo fits one at most. */
  lemma UploadSucceedsOnForeignEchoes<E>(env: Environment, job: Job<E>, chunk: nat, h: seq<byte>, at: nat)
    requires MIN_CHUNK_BYTES <= chunk <= MAX_CHUNK_BYTES && Uploadable(job) && ValidJob(job)
    requires |Chunks(job.bytes, chunk)| <= U32_MAX
    requires forall b {:trigger env.encodeHead(b)} :: |env.encodeHead(b)| <= MAX_HEAD_BYTES
    requires EchoingHead(env, h)
    ensures var parrot := Parrot(env, h);
            var judge: Judgement := (n: nat) => Judge(parrot, parrot.reply(n));
            var run := Sending(judge, job.endpoints, Frames(parrot, job, chunk), at);
            run.error.None? && |run.posts| == |run.acknowledged| == |Chunks(job.bytes, chunk)|
  {
    var parrot := Parrot(env, h);
    var judge: Judgement := (n: nat) => Judge(parrot, parrot.reply(n));
    forall n: nat ensures judge(n) == Acknowledged {
      ParrotAcknowledgesEveryBlock(env, h, n);
    }
    var frames := Frames(parrot, job, chunk);
    forall i | 0 <= i < |frames| ensures frames[i].Ok? {
      assert frames[i] == FrameAt(parrot, job, chunk, i);
      GeometryNeverRejects(parrot, job, chunk, i);
    }
    SettledAtOnce(judge, job.endpoints, frames, at);
  }
}
