/** The delivery worker: bounded sweeps over the outbox, and what holds over every run of it. */
module NotificationRuntime {
  import opened Wrappers
  import opened Bytes
  import opened Sequences
  import opened NotificationStore

  datatype AdapterError = BadConfiguration | Transport | Rejected

  function Code(e: AdapterError): (code: nat)
    ensures code != 0
  {
    match e
    case BadConfiguration => 1
    case Transport => 2
    case Rejected => 3
  }

  /** What delivering a row at some time comes to; `None` is success. */
  type Deliver = (nat, Row, nat) -> Option<AdapterError>

  datatype Counts = Counts(attempted: nat, delivered: nat, failed: nat)

  /** One row of a sweep. */
  function Attempt(s: State, id: nat, now: nat, deliver: Deliver): (State, Result<bool, NotificationError>) {
    if id >= |s.deliveries| then (s, Err(NotFound))
    else
      match deliver(id, s.deliveries[id], now)
      case None =>
        var (after, r) := MarkDeliveredStep(s, id, now);
        (after, if r.Ok? then Ok(true) else Err(r.error))
      case Some(e) =>
        var (after, r) := RecordFailureStep(s, id, now, Code(e));
        (after, if r.Ok? then Ok(false) else Err(r.error))
  }

  type Attempting = (State, nat) -> (State, Result<bool, NotificationError>)

  function Attempts(now: nat, deliver: Deliver): Attempting {
    (s: State, id: nat) => Attempt(s, id, now, deliver)
  }

  /** The rest of a sweep; the first store error ends it. */
  function SweepOver(s: State, batch: seq<nat>, attempt: Attempting, counts: Counts)
    : (State, Result<Counts, NotificationError>)
    decreases |batch|
  {
    if batch == [] then (s, Ok(counts))
    else
      var (next, r) := attempt(s, batch[0]);
      if r.Err? then (next, Err(r.error))
      else SweepOver(next, batch[1..], attempt, Count(counts, r.value))
  }

  function Count(counts: Counts, delivered: bool): Counts {
    if delivered then counts.(delivered := counts.delivered + 1) else counts.(failed := counts.failed + 1)
  }

  /** A whole sweep over its batch. */
  function SweepStep(s: State, batch: seq<nat>, now: nat, deliver: Deliver)
    : (State, Result<Counts, NotificationError>)
  {
    SweepOver(s, batch, Attempts(now, deliver), Counts(|batch|, 0, 0))
  }

  method DeliverDue(store: Outbox, now: nat, deliver: Deliver)
    returns (r: Result<Counts, NotificationError>, batch: seq<nat>)
    modifies store`deliveries
    ensures now > I64_MAX ==> r.Err? && store.View() == old(store.View()) && batch == []
    ensures now <= I64_MAX ==>
      && IsBatch(old(store.deliveries), now, DELIVERY_BATCH_LIMIT, batch)
      && (store.View(), r) == SweepStep(old(store.View()), batch, now, deliver)
  {
    var due := store.Due(now, DELIVERY_BATCH_LIMIT);
    if due.Err? {
      return Err(due.error), [];
    }
    batch := due.value;
    var counts := Counts(|batch|, 0, 0);
    var i := 0;
    ghost var whole := SweepStep(store.View(), batch, now, deliver);
    assert batch[0..] == batch;
    while i < |batch|
      invariant 0 <= i <= |batch| && |store.deliveries| == |old(store.deliveries)|
      invariant SweepOver(store.View(), batch[i..], Attempts(now, deliver), counts) == whole
    {
      assert batch[i..][0] == batch[i] && batch[i..][1..] == batch[i + 1..];
      var id := batch[i];
      ghost var before := store.View();
      var outcome := deliver(id, store.deliveries[id], now);
      if outcome.None? {
        var marked := store.MarkDelivered(id, now);
        if marked.Err? {
          return Err(marked.error), batch;
        }
        assert Attempts(now, deliver)(before, id) == (store.View(), Ok(true));
        counts := counts.(delivered := counts.delivered + 1);
      } else {
        var recorded := store.RecordFailure(id, now, Code(outcome.value));
        if recorded.Err? {
          return Err(recorded.error), batch;
        }
        assert Attempts(now, deliver)(before, id) == (store.View(), Ok(false));
        counts := counts.(failed := counts.failed + 1);
      }
      i := i + 1;
    }
    r := Ok(counts);
  }

  // ---- the schedule ----

  /** The least time from the first attempt to attempt number `attempts`. */
  function Delays(attempts: nat): nat {
    if attempts == 0 then 0 else Delays(attempts - 1) + RetryDelay(attempts - 1)
  }

  /** The most failures a delivery of each severity can record. */
  function MaxAttempts(s: Severity): nat {
    match s
    case Info => 3
    case Warning => 4
    case Critical => 15
  }

  lemma {:induction false} DelaysGrow(a: nat, b: nat)
    requires a <= b
    ensures Delays(a) <= Delays(b)
    ensures 3 <= a ==> Delays(b) == Delays(a) + (b - a) * RETRY_DELAYS_MS[3]
    decreases b - a
  {
    if a < b {
      DelaysGrow(a, b - 1);
    }
  }

  lemma FirstDelays()
    ensures Delays(2) == 360_000 && Delays(3) == 2_160_000 && Delays(4) == 9_360_000
    ensures Delays(14) == 81_360_000 && Delays(15) == 88_560_000
  {
    assert Delays(1) == 60_000;
    assert Delays(2) == Delays(1) + 300_000;
    assert Delays(3) == Delays(2) + 1_800_000;
    DelaysGrow(3, 4);
    DelaysGrow(3, 14);
    DelaysGrow(3, 15);
  }

  /** Exactly `MaxAttempts` failures exhaust a severity's lifetime, however soon each retry runs. */
  lemma LifetimeBoundsAttempts(s: Severity, attempts: nat)
    ensures Delays(attempts) <= RetryLifetime(s) <==> attempts < MaxAttempts(s)
  {
    FirstDelays();
    if attempts < MaxAttempts(s) {
      DelaysGrow(attempts, MaxAttempts(s) - 1);
    } else {
      DelaysGrow(MaxAttempts(s), attempts);
    }
  }

  ghost predicate OnSchedule(events: map<Id, Stored>, r: Row) {
    && r.eventId in events
    && var e := events[r.eventId];
    && r.retryUntil == e.enqueuedAt + RetryLifetime(e.event.severity) <= I64_MAX
    && (r.deliveredAt.None? || r.abandonedAt.None?)
    && r.attempts <= MaxAttempts(e.event.severity)
    && (r.attempts == MaxAttempts(e.event.severity) ==> r.abandonedAt.Some?)
    && (IsPending(r) ==> e.enqueuedAt + Delays(r.attempts) <= r.nextAttempt <= r.retryUntil)
  }

  ghost predicate Scheduled(s: State) {
    forall i :: 0 <= i < |s.deliveries| ==> OnSchedule(s.events, s.deliveries[i])
  }

  /** How a row may evolve: terminal rows never change, others keep their identity and only move forward. */
  ghost predicate Follows(before: Row, after: Row) {
    && after.eventId == before.eventId && after.destination == before.destination
    && after.retryUntil == before.retryUntil
    && (!IsPending(before) ==> after == before)
    && before.attempts <= after.attempts
    && (IsPending(after) ==> before.nextAttempt + (after.attempts - before.attempts) * 60_000 <= after.nextAttempt)
  }

  ghost predicate AllFollow(before: State, after: State) {
    && |before.deliveries| <= |after.deliveries|
    && (forall k :: k in before.events ==> k in after.events && after.events[k] == before.events[k])
    && forall i :: 0 <= i < |before.deliveries| ==> Follows(before.deliveries[i], after.deliveries[i])
  }

  lemma AllFollowTransitive(a: State, b: State, c: State)
    requires AllFollow(a, b) && AllFollow(b, c)
    ensures AllFollow(a, c)
  {
    forall i | 0 <= i < |a.deliveries| ensures Follows(a.deliveries[i], c.deliveries[i]) {
      assert Follows(a.deliveries[i], b.deliveries[i]) && Follows(b.deliveries[i], c.deliveries[i]);
    }
  }

  /** The failed row itself: one more attempt, then abandoned or due later, still on schedule. */
  lemma FailureSettlesRow(events: map<Id, Stored>, row: Row, now: nat, code: nat)
    requires OnSchedule(events, row) && IsDue(row, now)
    ensures row.attempts < 15
    ensures var next := now + RetryDelay(row.attempts);
            && (next > row.retryUntil ==>
                  var failed := row.(attempts := row.attempts + 1, lastError := Some(code), abandonedAt := Some(now));
                  OnSchedule(events, failed) && Follows(row, failed) && !IsDue(failed, now))
            && (next <= row.retryUntil ==>
                  var failed := row.(attempts := row.attempts + 1, lastError := Some(code), nextAttempt := next);
                  OnSchedule(events, failed) && Follows(row, failed) && !IsDue(failed, now))
  {
    var severity := events[row.eventId].event.severity;
    LifetimeBoundsAttempts(severity, row.attempts);
    LifetimeBoundsAttempts(severity, row.attempts + 1);
  }

  /** What a row shows for the answer it got: its delivery, or one more failure with its code and a retry or the end. */
  ghost predicate ShowsAnswer(before: Row, after: Row, answer: Option<AdapterError>, now: nat) {
    match answer
    case None => after == before.(deliveredAt := Some(now))
    case Some(e) =>
      var retry := now + RetryDelay(before.attempts);
      && after.attempts == before.attempts + 1 && after.deliveredAt.None?
      && after.lastError == Some(if e.BadConfiguration? then 1 else if e.Transport? then 2 else 3)
      && (retry <= before.retryUntil ==> after.nextAttempt == retry && after.abandonedAt.None?)
      && (retry > before.retryUntil ==> after.abandonedAt == Some(now))
  }

  /** A due row that is attempted ends terminal or due strictly later, as its answer has it; the rest is untouched. */
  ghost predicate Settles(
    s: State, id: nat, now: nat, answer: Option<AdapterError>, after: State, r: Result<bool, NotificationError>)
  {
    && id < |s.deliveries| == |after.deliveries|
    && after == s.(deliveries := s.deliveries[id := after.deliveries[id]])
    && OnSchedule(s.events, after.deliveries[id]) && Follows(s.deliveries[id], after.deliveries[id])
    && (r.Err? ==> now > I64_MAX)
    && (r.Ok? ==> !IsDue(after.deliveries[id], now))
    && (r.Ok? ==> ShowsAnswer(s.deliveries[id], after.deliveries[id], answer, now) && r.value == answer.None?)
  }

  ghost predicate AlwaysSettles(attempt: Attempting, now: nat, deliver: Deliver) {
    forall s: State, id: nat {:trigger attempt(s, id)} ::
      Scheduled(s) && id < |s.deliveries| && IsDue(s.deliveries[id], now) ==>
        Settles(s, id, now, deliver(id, s.deliveries[id], now), attempt(s, id).0, attempt(s, id).1)
  }

  lemma AttemptSettles(s: State, id: nat, now: nat, deliver: Deliver)
    requires Scheduled(s) && id < |s.deliveries| && IsDue(s.deliveries[id], now)
    ensures var (after, r) := Attempt(s, id, now, deliver);
            Settles(s, id, now, deliver(id, s.deliveries[id], now), after, r)
  {
    var row := s.deliveries[id];
    assert OnSchedule(s.events, row);
    match deliver(id, row, now)
    case None =>
    case Some(e) =>
      FailureSettlesRow(s.events, row, now, Code(e));
  }

  lemma AttemptsAlwaysSettle(now: nat, deliver: Deliver)
    ensures AlwaysSettles(Attempts(now, deliver), now, deliver)
  {
    forall s: State, id: nat | Scheduled(s) && id < |s.deliveries| && IsDue(s.deliveries[id], now)
      ensures var (after, r) := Attempts(now, deliver)(s, id);
              Settles(s, id, now, deliver(id, s.deliveries[id], now), after, r)
    {
      AttemptSettles(s, id, now, deliver);
    }
  }

  ghost predicate AllDue(rows: seq<Row>, now: nat, batch: seq<nat>) {
    forall i :: 0 <= i < |batch| ==> batch[i] < |rows| && IsDue(rows[batch[i]], now)
  }

  /** What a sweep does, from any point of it. */
  ghost predicate SweepEffect(s: State, after: State, batch: seq<nat>) {
    && after.events == s.events && |after.deliveries| == |s.deliveries|
    && forall i :: 0 <= i < |s.deliveries| ==>
         && OnSchedule(s.events, after.deliveries[i]) && Follows(s.deliveries[i], after.deliveries[i])
         && (i !in batch ==> after.deliveries[i] == s.deliveries[i])
  }

  ghost predicate Settled(after: State, batch: seq<nat>, now: nat) {
    forall i :: 0 <= i < |batch| ==> batch[i] < |after.deliveries| && !IsDue(after.deliveries[batch[i]], now)
  }

  lemma EffectAfterFirst(
    s: State, next: State, after: State, batch: seq<nat>, now: nat, answer: Option<AdapterError>,
    r: Result<bool, NotificationError>)
    requires batch != [] && Scheduled(s) && Settles(s, batch[0], now, answer, next, r)
    requires SweepEffect(next, after, batch[1..])
    ensures SweepEffect(s, after, batch)
  {
    forall i | 0 <= i < |s.deliveries|
      ensures OnSchedule(s.events, after.deliveries[i]) && Follows(s.deliveries[i], after.deliveries[i])
      ensures i !in batch ==> after.deliveries[i] == s.deliveries[i]
    {
      assert Follows(next.deliveries[i], after.deliveries[i]);
      assert i in batch[1..] ==> i in batch;
    }
  }

  lemma RestStaysDue(
    s: State, next: State, batch: seq<nat>, now: nat, answer: Option<AdapterError>, r: Result<bool, NotificationError>)
    requires batch != [] && Scheduled(s) && Settles(s, batch[0], now, answer, next, r)
    requires AllDue(s.deliveries, now, batch) && Distinct(batch)
    ensures Scheduled(next) && AllDue(next.deliveries, now, batch[1..]) && Distinct(batch[1..])
    ensures batch[0] !in batch[1..]
  {
    var rest := batch[1..];
    forall i | 0 <= i < |rest| ensures rest[i] < |next.deliveries| && IsDue(next.deliveries[rest[i]], now) {
      assert rest[i] == batch[i + 1] && batch[i + 1] != batch[0];
    }
  }

  /** The answers that are successes. */
  function Successes(rows: seq<Row>, batch: seq<nat>, now: nat, deliver: Deliver): (n: nat)
    requires forall i :: 0 <= i < |batch| ==> batch[i] < |rows|
    ensures n <= |batch|
  {
    if batch == [] then 0
    else
      Successes(rows, batch[1..], now, deliver) + (if deliver(batch[0], rows[batch[0]], now).None? then 1 else 0)
  }

  lemma {:induction false} SameSuccesses(
    rows: seq<Row>, others: seq<Row>, batch: seq<nat>, now: nat, deliver: Deliver)
    requires |rows| == |others|
    requires forall i :: 0 <= i < |batch| ==> batch[i] < |rows| && rows[batch[i]] == others[batch[i]]
    ensures Successes(rows, batch, now, deliver) == Successes(others, batch, now, deliver)
  {
    if batch != [] {
      assert forall i :: 0 <= i < |batch[1..]| ==> batch[1..][i] == batch[i + 1];
      SameSuccesses(rows, others, batch[1..], now, deliver);
    }
  }

  /** Every row of the batch shows the answer that it, and no other row, got. */
  ghost predicate ShowAnswers(s: State, after: State, batch: seq<nat>, now: nat, deliver: Deliver) {
    && |after.deliveries| == |s.deliveries|
    && forall i :: 0 <= i < |batch| ==>
         batch[i] < |s.deliveries|
         && ShowsAnswer(s.deliveries[batch[i]], after.deliveries[batch[i]],
                        deliver(batch[i], s.deliveries[batch[i]], now), now)
  }

  lemma AnswersAfterFirst(
    s: State, next: State, after: State, batch: seq<nat>, now: nat, deliver: Deliver,
    r: Result<bool, NotificationError>)
    requires batch != [] && batch[0] < |s.deliveries| && Scheduled(s) && r.Ok?
    requires Settles(s, batch[0], now, deliver(batch[0], s.deliveries[batch[0]], now), next, r)
    requires AllDue(s.deliveries, now, batch) && batch[0] !in batch[1..]
    requires ShowAnswers(next, after, batch[1..], now, deliver) && SweepEffect(next, after, batch[1..])
    ensures ShowAnswers(s, after, batch, now, deliver)
    ensures Successes(s.deliveries, batch, now, deliver)
         == Successes(next.deliveries, batch[1..], now, deliver) + (if r.value then 1 else 0)
  {
    var rest := batch[1..];
    forall i | 0 <= i < |rest| ensures rest[i] < |s.deliveries| && next.deliveries[rest[i]] == s.deliveries[rest[i]] {
      assert rest[i] == batch[i + 1] && rest[i] in rest;
    }
    SameSuccesses(s.deliveries, next.deliveries, rest, now, deliver);
    forall i | 0 <= i < |batch|
      ensures ShowsAnswer(s.deliveries[batch[i]], after.deliveries[batch[i]],
                          deliver(batch[i], s.deliveries[batch[i]], now), now)
    {
      if i > 0 {
        assert batch[i] == rest[i - 1];
      }
    }
  }

  lemma {:induction false} SweepSettles(
    s: State, batch: seq<nat>, now: nat, deliver: Deliver, attempt: Attempting, counts: Counts)
    requires Scheduled(s) && AllDue(s.deliveries, now, batch) && Distinct(batch) && AlwaysSettles(attempt, now, deliver)
    ensures var (after, r) := SweepOver(s, batch, attempt, counts);
            && SweepEffect(s, after, batch)
            && (r.Err? ==> now > I64_MAX)
            && (r.Ok? ==> Settled(after, batch, now) && ShowAnswers(s, after, batch, now, deliver))
            && (r.Ok? ==> r.value.attempted == counts.attempted)
            && (r.Ok? ==> r.value.delivered == counts.delivered + Successes(s.deliveries, batch, now, deliver))
            && (r.Ok? ==> r.value.delivered + r.value.failed == counts.delivered + counts.failed + |batch|)
    decreases |batch|
  {
    if batch != [] {
      var (next, r) := attempt(s, batch[0]);
      var answer := deliver(batch[0], s.deliveries[batch[0]], now);
      RestStaysDue(s, next, batch, now, answer, r);
      var rest := batch[1..];
      if r.Ok? {
        SweepSettles(next, rest, now, deliver, attempt, Count(counts, r.value));
        var (after, whole) := SweepOver(next, rest, attempt, Count(counts, r.value));
        EffectAfterFirst(s, next, after, batch, now, answer, r);
        if whole.Ok? {
          AnswersAfterFirst(s, next, after, batch, now, deliver, r);
        }
        assert forall i :: 0 < i < |batch| ==> batch[i] == rest[i - 1];
        assert batch[0] !in rest;
      } else {
        assert batch[0] in batch;
      }
    }
  }

  lemma BatchIsDueAndDistinct(rows: seq<Row>, now: nat, batch: seq<nat>)
    requires IsBatch(rows, now, DELIVERY_BATCH_LIMIT, batch)
    ensures AllDue(rows, now, batch) && Distinct(batch)
  {
    forall i, j | 0 <= i < j < |batch| ensures batch[i] != batch[j] {
      assert Earlier(rows, batch[i], batch[j]);
    }
  }

  /** One sweep at a storable time succeeds, and its batch is exactly what leaves the due set. */
  lemma SweepDrainsItsBatch(s: State, batch: seq<nat>, now: nat, deliver: Deliver)
    requires Scheduled(s) && IsBatch(s.deliveries, now, DELIVERY_BATCH_LIMIT, batch)
    requires now <= I64_MAX
    ensures var (after, r) := SweepStep(s, batch, now, deliver);
            && r.Ok? && r.value.attempted == |batch| == r.value.delivered + r.value.failed
            && SweepEffect(s, after, batch) && Settled(after, batch, now)
            && ShowAnswers(s, after, batch, now, deliver)
            && r.value.delivered == Successes(s.deliveries, batch, now, deliver)
            && |DueSet(after.deliveries, now)| == |DueSet(s.deliveries, now)| - |batch|
            && (|batch| < DELIVERY_BATCH_LIMIT ==> DueSet(after.deliveries, now) == {})
  {
    BatchIsDueAndDistinct(s.deliveries, now, batch);
    AttemptsAlwaysSettle(now, deliver);
    SweepSettles(s, batch, now, deliver, Attempts(now, deliver), Counts(|batch|, 0, 0));
    DueSetAfter(s, SweepStep(s, batch, now, deliver).0, batch, now);
  }

  lemma DueSetAfter(s: State, after: State, batch: seq<nat>, now: nat)
    requires SweepEffect(s, after, batch) && Settled(after, batch, now)
    requires IsBatch(s.deliveries, now, DELIVERY_BATCH_LIMIT, batch)
    ensures |DueSet(after.deliveries, now)| == |DueSet(s.deliveries, now)| - |batch|
    ensures |batch| < DELIVERY_BATCH_LIMIT ==> DueSet(after.deliveries, now) == {}
  {
    BatchIsDueAndDistinct(s.deliveries, now, batch);
    var served := Members(batch);
    assert served <= DueSet(s.deliveries, now);
    assert DueSet(after.deliveries, now) == DueSet(s.deliveries, now) - served;
  }

  ghost function Members(batch: seq<nat>): (s: set<nat>)
    requires Distinct(batch)
    ensures |s| == |batch| && forall i :: i in s <==> i in batch
  {
    if batch == [] then {} else
      assert batch[0] !in batch[1..];
      Members(batch[1..]) + {batch[0]}
  }

  /** Consecutive sweeps at one time, each over its own batch. */
  ghost predicate Sweeps(s: State, batches: seq<seq<nat>>, now: nat, deliver: Deliver)
    decreases |batches|
  {
    batches == [] ||
    (&& IsBatch(s.deliveries, now, DELIVERY_BATCH_LIMIT, batches[0])
     && Sweeps(SweepStep(s, batches[0], now, deliver).0, batches[1..], now, deliver))
  }

  ghost function AfterSweeps(s: State, batches: seq<seq<nat>>, now: nat, deliver: Deliver): State
    requires Sweeps(s, batches, now, deliver)
    decreases |batches|
  {
    if batches == [] then s
    else AfterSweeps(SweepStep(s, batches[0], now, deliver).0, batches[1..], now, deliver)
  }

  /** Repeated sweeps at one time drain everything due: a hundred rows each, then nothing is left. */
  lemma {:induction false} RepeatedSweepsDrain(s: State, batches: seq<seq<nat>>, now: nat, deliver: Deliver)
    requires Scheduled(s) && Sweeps(s, batches, now, deliver)
    requires now <= I64_MAX
    ensures var due := |DueSet(s.deliveries, now)|;
            var left := |DueSet(AfterSweeps(s, batches, now, deliver).deliveries, now)|;
            left == if due <= |batches| * DELIVERY_BATCH_LIMIT then 0 else due - |batches| * DELIVERY_BATCH_LIMIT
    decreases |batches|
  {
    if batches != [] {
      SweepDrainsItsBatch(s, batches[0], now, deliver);
      var next := SweepStep(s, batches[0], now, deliver).0;
      RepeatedSweepsDrain(next, batches[1..], now, deliver);
    }
  }

  // ---- runs of the worker ----

  /** `awaited` enqueues report to a caller; a sweep comes from a flush, a tick or the shutdown. */
  datatype Command =
    | Enqueue(event: Event, at: nat, awaited: bool)
    | Sweep(now: nat, batch: seq<nat>, last: bool)
    | Stop

  datatype Worker = Worker(store: State, running: bool)

  /** A sweep serves the batch the query selects. */
  ghost predicate Legal(w: Worker, c: Command) {
    c.Sweep? && c.now <= I64_MAX ==> IsBatch(w.store.deliveries, c.now, DELIVERY_BATCH_LIMIT, c.batch)
  }

  ghost function Step(w: Worker, destinations: seq<Id>, deliver: Deliver, c: Command): Worker
    requires Legal(w, c)
  {
    if !w.running then w
    else
      match c
      case Enqueue(event, at, awaited) =>
        var (store, r) := EnqueueStep(w.store, event, destinations, at);
        Worker(store, awaited || r.Ok?)
      case Sweep(now, batch, last) =>
        if now > I64_MAX then Worker(w.store, false)
        else
          var (store, r) := SweepStep(w.store, batch, now, deliver);
          Worker(store, r.Ok? && !last)
      case Stop => Worker(w.store, false)
  }

  ghost predicate LegalRun(w: Worker, destinations: seq<Id>, deliver: Deliver, commands: seq<Command>)
    decreases |commands|
  {
    commands == [] ||
    (&& Legal(w, commands[0])
     && LegalRun(Step(w, destinations, deliver, commands[0]), destinations, deliver, commands[1..]))
  }

  ghost function Run(w: Worker, destinations: seq<Id>, deliver: Deliver, commands: seq<Command>): Worker
    requires LegalRun(w, destinations, deliver, commands)
    decreases |commands|
  {
    if commands == [] then w
    else Run(Step(w, destinations, deliver, commands[0]), destinations, deliver, commands[1..])
  }

  /** Two rows of one destination and key, the later not a recovery, lie more than the cooldown apart. */
  ghost predicate Spaced(s: State) {
    && (forall i :: 0 <= i < |s.deliveries| ==> s.deliveries[i].eventId in s.events)
    && forall i, j :: 0 <= i < j < |s.deliveries| ==> SpacedPair(s, s.deliveries[i], s.deliveries[j])
  }

  ghost predicate SpacedPair(s: State, a: Row, b: Row)
    requires a.eventId in s.events && b.eventId in s.events
  {
    var ea, eb := s.events[a.eventId], s.events[b.eventId];
    a.destination == b.destination && ea.event.dedupeKey == eb.event.dedupeKey && !eb.event.recovery
      && a.eventId != b.eventId
    ==> ea.enqueuedAt + COOLDOWN_MS < eb.enqueuedAt
  }

  lemma EnqueueKeepsSpacing(s: State, e: Event, destinations: seq<Id>, at: nat)
    requires Spaced(s)
    ensures Spaced(EnqueueStep(s, e, destinations, at).0)
  {
    var (after, r) := EnqueueStep(s, e, destinations, at);
    if after != s {
      var eligible := Eligible(s, e, destinations, CooldownStart(at));
      forall d ensures d in eligible ==> e.recovery || !Suppressed(s, e.dedupeKey, d, CooldownStart(at)) {
        EligibleExactly(s, e, destinations, CooldownStart(at), d);
      }
      var n := |s.deliveries|;
      assert forall j :: n <= j < |after.deliveries| ==> after.deliveries[j] == NewRow(e, eligible[j - n], at);
      forall i, j | 0 <= i < j < |after.deliveries|
        ensures SpacedPair(after, after.deliveries[i], after.deliveries[j])
      {
        if j < n {
          assert SpacedPair(s, s.deliveries[i], s.deliveries[j]);
        } else if i < n && !e.recovery {
          assert !Suppressed(s, e.dedupeKey, eligible[j - n], CooldownStart(at));
        }
      }
    }
  }

  lemma EnqueueKeepsSchedule(s: State, e: Event, destinations: seq<Id>, at: nat)
    requires Scheduled(s)
    ensures Scheduled(EnqueueStep(s, e, destinations, at).0)
    ensures AllFollow(s, EnqueueStep(s, e, destinations, at).0)
  {
    var (after, r) := EnqueueStep(s, e, destinations, at);
    if after != s {
      var eligible := Eligible(s, e, destinations, CooldownStart(at));
      var n := |s.deliveries|;
      forall i | 0 <= i < |after.deliveries| ensures OnSchedule(after.events, after.deliveries[i]) {
        if i < n {
          assert OnSchedule(s.events, s.deliveries[i]);
        } else {
          assert after.deliveries[i] == NewRow(e, eligible[i - n], at);
        }
      }
    }
  }

  lemma SweepKeepsSpacing(s: State, after: State, batch: seq<nat>)
    requires Spaced(s) && SweepEffect(s, after, batch)
    ensures Spaced(after)
  {
    forall i | 0 <= i < |after.deliveries|
      ensures after.deliveries[i].eventId == s.deliveries[i].eventId
      ensures after.deliveries[i].destination == s.deliveries[i].destination
    {
      assert Follows(s.deliveries[i], after.deliveries[i]);
    }
    forall i, j | 0 <= i < j < |after.deliveries|
      ensures SpacedPair(after, after.deliveries[i], after.deliveries[j])
    {
      assert SpacedPair(s, s.deliveries[i], s.deliveries[j]);
    }
  }

  lemma StepKeeps(w: Worker, destinations: seq<Id>, deliver: Deliver, c: Command)
    requires Legal(w, c) && Scheduled(w.store) && Spaced(w.store)
    ensures var next := Step(w, destinations, deliver, c);
            Scheduled(next.store) && Spaced(next.store) && AllFollow(w.store, next.store)
  {
    if w.running {
      match c
      case Enqueue(event, at, awaited) =>
        EnqueueKeepsSchedule(w.store, event, destinations, at);
        EnqueueKeepsSpacing(w.store, event, destinations, at);
      case Sweep(now, batch, last) =>
        if now <= I64_MAX {
          BatchIsDueAndDistinct(w.store.deliveries, now, batch);
          AttemptsAlwaysSettle(now, deliver);
          SweepSettles(w.store, batch, now, deliver, Attempts(now, deliver), Counts(|batch|, 0, 0));
          var after := SweepStep(w.store, batch, now, deliver).0;
          SweepKeepsSpacing(w.store, after, batch);
        }
      case Stop =>
    }
  }

  /** A running worker stops at a stop, a last sweep, an unstorable time, or a refused event that no caller awaits. */
  lemma WorkerStopsIff(w: Worker, destinations: seq<Id>, deliver: Deliver, c: Command)
    requires Legal(w, c) && Scheduled(w.store) && w.running
    ensures !Step(w, destinations, deliver, c).running <==>
      || c.Stop?
      || (c.Sweep? && (c.last || c.now > I64_MAX))
      || (c.Enqueue? && !c.awaited && !Enqueueable(w.store, c.event, destinations, c.at))
  {
    match c
    case Enqueue(event, at, awaited) => EnqueueQueuesTheWanted(w.store, event, destinations, at);
    case Sweep(now, batch, last) =>
      if now <= I64_MAX {
        SweepDrainsItsBatch(w.store, batch, now, deliver);
      }
    case Stop =>
  }

  lemma {:induction false} RunKeeps(w: Worker, destinations: seq<Id>, deliver: Deliver, commands: seq<Command>)
    requires LegalRun(w, destinations, deliver, commands) && Scheduled(w.store) && Spaced(w.store)
    ensures var end := Run(w, destinations, deliver, commands);
            Scheduled(end.store) && Spaced(end.store) && AllFollow(w.store, end.store)
    decreases |commands|
  {
    if commands != [] {
      StepKeeps(w, destinations, deliver, commands[0]);
      var next := Step(w, destinations, deliver, commands[0]);
      RunKeeps(next, destinations, deliver, commands[1..]);
      AllFollowTransitive(w.store, next.store, Run(w, destinations, deliver, commands).store);
    }
  }

  /**
   * In every run from a fresh outbox, every row is on its schedule: at most 3, 4 or 15 failures by
   * severity, the last of which abandons it, and pending rows never wait beyond their deadline.
   */
  lemma EveryRunStaysOnSchedule(destinations: seq<Id>, deliver: Deliver, commands: seq<Command>, i: nat)
    requires LegalRun(Worker(FRESH, true), destinations, deliver, commands)
    requires i < |Run(Worker(FRESH, true), destinations, deliver, commands).store.deliveries|
    ensures var s := Run(Worker(FRESH, true), destinations, deliver, commands).store;
            var r := s.deliveries[i];
            && r.eventId in s.events
            && r.attempts <= MaxAttempts(s.events[r.eventId].event.severity)
            && (r.attempts == MaxAttempts(s.events[r.eventId].event.severity) ==> r.abandonedAt.Some?)
            && (IsPending(r) ==> r.nextAttempt <= r.retryUntil)
            && !(r.deliveredAt.Some? && r.abandonedAt.Some?)
            && Spaced(s)
  {
    RunKeeps(Worker(FRESH, true), destinations, deliver, commands);
    var s := Run(Worker(FRESH, true), destinations, deliver, commands).store;
    assert OnSchedule(s.events, s.deliveries[i]);
  }

  /** Whatever the worker does next, a delivered or abandoned row stays exactly as it is. */
  lemma TerminalRowsAreFinal(w: Worker, destinations: seq<Id>, deliver: Deliver, commands: seq<Command>, i: nat)
    requires LegalRun(w, destinations, deliver, commands) && Scheduled(w.store) && Spaced(w.store)
    requires i < |w.store.deliveries| && !IsPending(w.store.deliveries[i])
    ensures var end := Run(w, destinations, deliver, commands).store;
            i < |end.deliveries| && end.deliveries[i] == w.store.deliveries[i]
  {
    RunKeeps(w, destinations, deliver, commands);
    assert Follows(w.store.deliveries[i], Run(w, destinations, deliver, commands).store.deliveries[i]);
  }

  /** The time left until the deadline bounds the failures a pending row can still record. */
  lemma FailuresAreBoundedByTimeLeft(w: Worker, destinations: seq<Id>, deliver: Deliver, commands: seq<Command>, i: nat)
    requires LegalRun(w, destinations, deliver, commands) && Scheduled(w.store) && Spaced(w.store)
    requires i < |w.store.deliveries|
    ensures var end := Run(w, destinations, deliver, commands).store;
            && i < |end.deliveries|
            && var before, after := w.store.deliveries[i], end.deliveries[i];
            IsPending(after) ==> (after.attempts - before.attempts) * 60_000 <= before.retryUntil - before.nextAttempt
  {
    RunKeeps(w, destinations, deliver, commands);
    var end := Run(w, destinations, deliver, commands).store;
    assert Follows(w.store.deliveries[i], end.deliveries[i]);
    assert OnSchedule(end.events, end.deliveries[i]);
  }
}
