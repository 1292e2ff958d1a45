/** The durable outbox: events, one delivery row per destination, and their retry schedule. */
module NotificationStore {
  import opened Wrappers
  import opened Bytes
  import opened Sequences
  import Extremes

  datatype NotificationError = Configuration | NotFound | Persistence

  datatype Severity = Info | Warning | Critical

  type Id = seq<byte>

  datatype Event = Event(eventId: Id, severity: Severity, recovery: bool, dedupeKey: Id, occurredAt: u64)

  datatype Stored = Stored(event: Event, enqueuedAt: nat)

  /** One delivery row; its identifier is its position in insertion order. */
  datatype Row = Row(
    eventId: Id,
    destination: Id,
    attempts: u32,
    nextAttempt: nat,
    retryUntil: nat,
    deliveredAt: Option<nat>,
    abandonedAt: Option<nat>,
    lastError: Option<nat>)

  datatype State = State(events: map<Id, Stored>, deliveries: seq<Row>)

  const FRESH := State(map[], [])

  const COOLDOWN_MS: nat := 15 * 60 * 1_000
  const MAX_DESTINATIONS: nat := 32
  const DELIVERY_BATCH_LIMIT: nat := 100
  const RETRY_DELAYS_MS: seq<nat> := [60_000, 5 * 60_000, 30 * 60_000, 2 * 60 * 60_000]

  function RetryDelay(attempts: nat): nat {
    RETRY_DELAYS_MS[if attempts < 3 then attempts else 3]
  }

  function RetryLifetime(s: Severity): nat {
    match s
    case Info => 30 * 60 * 1_000
    case Warning => 2 * 60 * 60 * 1_000
    case Critical => 24 * 60 * 60 * 1_000
  }

  predicate IsPending(r: Row) {
    r.deliveredAt.None? && r.abandonedAt.None?
  }

  predicate IsDue(r: Row, now: nat) {
    IsPending(r) && r.nextAttempt <= now
  }

  /** An equivalent event for this destination was queued at `start` or later. */
  predicate Suppressed(s: State, dedupeKey: Id, destination: Id, start: nat) {
    exists i :: 0 <= i < |s.deliveries| && s.deliveries[i].destination == destination
      && s.deliveries[i].eventId in s.events
      && s.events[s.deliveries[i].eventId].event.dedupeKey == dedupeKey
      && s.events[s.deliveries[i].eventId].enqueuedAt >= start
  }

  function Eligible(s: State, e: Event, destinations: seq<Id>, start: nat): seq<Id> {
    if e.recovery || destinations == [] then destinations
    else
      var rest := Eligible(s, e, destinations[1..], start);
      if Suppressed(s, e.dedupeKey, destinations[0], start) then rest else [destinations[0]] + rest
  }

  function NewRows(e: Event, destinations: seq<Id>, at: nat): (rows: seq<Row>)
    ensures |rows| == |destinations|
    ensures forall i :: 0 <= i < |rows| ==> rows[i] == NewRow(e, destinations[i], at)
  {
    seq(|destinations|, i requires 0 <= i < |destinations| => NewRow(e, destinations[i], at))
  }

  function NewRow(e: Event, destination: Id, at: nat): Row {
    Row(e.eventId, destination, 0, at, at + RetryLifetime(e.severity), None, None, None)
  }

  function CooldownStart(at: nat): nat {
    if at < COOLDOWN_MS then 0 else at - COOLDOWN_MS
  }

  /** One transaction: on an error nothing changes. */
  function EnqueueStep(s: State, e: Event, destinations: seq<Id>, at: nat): (State, Result<nat, NotificationError>) {
    if destinations == [] || |destinations| > MAX_DESTINATIONS || !Distinct(destinations) then (s, Err(Configuration))
    else if at + RetryLifetime(e.severity) > U64_MAX then (s, Err(Configuration))
    else if !e.recovery && CooldownStart(at) > I64_MAX then (s, Err(Configuration))
    else
      var eligible := Eligible(s, e, destinations, CooldownStart(at));
      if eligible == [] then (s, Ok(0))
      else if e.occurredAt > I64_MAX || at > I64_MAX then (s, Err(Configuration))
      else if e.eventId in s.events then (s, Err(Persistence))
      else if at + RetryLifetime(e.severity) > I64_MAX then (s, Err(Configuration))
      else
        (State(s.events[e.eventId := Stored(e, at)], s.deliveries + NewRows(e, eligible, at)), Ok(|eligible|))
  }

  // ---- who gets a row ----

  /** An equivalent event reached this destination no longer than the cooldown ago. */
  ghost predicate RecentlyQueued(s: State, dedupeKey: Id, destination: Id, at: nat) {
    exists i :: 0 <= i < |s.deliveries|
      && s.deliveries[i].destination == destination && s.deliveries[i].eventId in s.events
      && var earlier := s.events[s.deliveries[i].eventId];
         earlier.event.dedupeKey == dedupeKey && at <= earlier.enqueuedAt + COOLDOWN_MS
  }

  ghost predicate Wanted(s: State, e: Event, destination: Id, at: nat) {
    e.recovery || !RecentlyQueued(s, e.dedupeKey, destination, at)
  }

  /** `a` is `b` with some members left out. */
  ghost predicate Subsequence(a: seq<Id>, b: seq<Id>) {
    a == [] || (b != [] && ((a[0] == b[0] && Subsequence(a[1..], b[1..])) || Subsequence(a, b[1..])))
  }

  lemma {:induction false} EligibleExactly(s: State, e: Event, destinations: seq<Id>, start: nat, d: Id)
    ensures d in Eligible(s, e, destinations, start)
       <==> d in destinations && (e.recovery || !Suppressed(s, e.dedupeKey, d, start))
  {
    if !e.recovery && destinations != [] {
      EligibleExactly(s, e, destinations[1..], start, d);
      assert d in destinations <==> d == destinations[0] || d in destinations[1..];
    }
  }

  lemma {:induction false} EligibleInOrder(s: State, e: Event, destinations: seq<Id>, start: nat)
    ensures Subsequence(Eligible(s, e, destinations, start), destinations)
  {
    if destinations != [] {
      if e.recovery {
        EligibleInOrder(s, e, destinations[1..], start);
      } else {
        EligibleInOrder(s, e, destinations[1..], start);
        var rest := Eligible(s, e, destinations[1..], start);
        assert ([destinations[0]] + rest)[1..] == rest;
      }
    }
  }

  /** How long delivery is tried. */
  function Minutes(s: Severity): nat {
    match s
    case Info => 30
    case Warning => 120
    case Critical => 1440
  }

  /** The rows an enqueue adds: one for each destination that wants it, in the given order, due at once. */
  ghost predicate Queues(s: State, e: Event, destinations: seq<Id>, at: nat, added: seq<Row>) {
    && (forall i :: 0 <= i < |added| ==>
          added[i] == Row(e.eventId, added[i].destination, 0, at, at + Minutes(e.severity) * 60_000, None, None, None))
    && Subsequence(DestinationsOf(added), destinations)
    && forall d :: d in DestinationsOf(added) <==> d in destinations && Wanted(s, e, d, at)
  }

  function DestinationsOf(rows: seq<Row>): (d: seq<Id>)
    ensures |d| == |rows|
  {
    seq(|rows|, i requires 0 <= i < |rows| => rows[i].destination)
  }

  /** What an enqueue asks of its destinations and times. */
  ghost predicate Enqueueable(s: State, e: Event, destinations: seq<Id>, at: nat) {
    && 1 <= |destinations| <= MAX_DESTINATIONS && Distinct(destinations)
    && at + RetryLifetime(e.severity) <= U64_MAX
    && (e.recovery || at <= I64_MAX + COOLDOWN_MS)
    && ((exists d :: d in destinations && Wanted(s, e, d, at)) ==>
          e.occurredAt <= I64_MAX && at + RetryLifetime(e.severity) <= I64_MAX && e.eventId !in s.events)
  }

  /** An enqueue succeeds exactly then, and queues exactly the destinations that want the event. */
  lemma EnqueueQueuesTheWanted(s: State, e: Event, destinations: seq<Id>, at: nat)
    ensures var (after, r) := EnqueueStep(s, e, destinations, at);
            && (r.Ok? <==> Enqueueable(s, e, destinations, at))
            && (r.Err? ==> after == s)
            && (r.Ok? ==>
                  && s.deliveries <= after.deliveries
                  && r.value == |after.deliveries| - |s.deliveries|
                  && Queues(s, e, destinations, at, after.deliveries[|s.deliveries|..])
                  && after.events == if r.value == 0 then s.events else s.events[e.eventId := Stored(e, at)])
  {
    var start := CooldownStart(at);
    var eligible := Eligible(s, e, destinations, start);
    forall d ensures Suppressed(s, e.dedupeKey, d, start) <==> RecentlyQueued(s, e.dedupeKey, d, at) {
      SuppressedIsRecent(s, e.dedupeKey, d, at);
    }
    forall d ensures d in eligible <==> d in destinations && Wanted(s, e, d, at) {
      EligibleExactly(s, e, destinations, start, d);
    }
    EligibleInOrder(s, e, destinations, start);
    if eligible != [] {
      assert eligible[0] in eligible;
    }
    var (after, r) := EnqueueStep(s, e, destinations, at);
    if r.Ok? {
      var added := after.deliveries[|s.deliveries|..];
      assert added == NewRows(e, eligible, at);
      assert DestinationsOf(added) == eligible;
    }
  }

  lemma SuppressedIsRecent(s: State, dedupeKey: Id, d: Id, at: nat)
    ensures Suppressed(s, dedupeKey, d, CooldownStart(at)) <==> RecentlyQueued(s, dedupeKey, d, at)
  {
  }

  function MarkDeliveredStep(s: State, id: nat, at: nat): (State, Result<(), NotificationError>) {
    if at > I64_MAX then (s, Err(Configuration))
    else if id >= |s.deliveries| || !IsPending(s.deliveries[id]) then (s, Err(NotFound))
    else (s.(deliveries := s.deliveries[id := s.deliveries[id].(deliveredAt := Some(at))]), Ok(()))
  }

  datatype Disposition = RetryAt(time: nat) | Abandoned

  function RecordFailureStep(s: State, id: nat, at: nat, code: nat): (State, Result<Disposition, NotificationError>) {
    if code == 0 then (s, Err(Configuration))
    else if id >= |s.deliveries| || !IsPending(s.deliveries[id]) then (s, Err(NotFound))
    else
      var r := s.deliveries[id];
      var next := at + RetryDelay(r.attempts);
      if next > U64_MAX || r.attempts == U32_MAX then (s, Err(Configuration))
      else if next > r.retryUntil then
        if at > I64_MAX then (s, Err(Configuration))
        else
          var failed := r.(attempts := r.attempts + 1, lastError := Some(code), abandonedAt := Some(at));
          (s.(deliveries := s.deliveries[id := failed]), Ok(Abandoned))
      else if next > I64_MAX then (s, Err(Configuration))
      else
        var failed := r.(attempts := r.attempts + 1, lastError := Some(code), nextAttempt := next);
        (s.(deliveries := s.deliveries[id := failed]), Ok(RetryAt(next)))
  }

  /** `a` is served before `b`: `ORDER BY next_attempt_at_ms, id`. */
  predicate Earlier(rows: seq<Row>, a: nat, b: nat)
    requires a < |rows| && b < |rows|
  {
    rows[a].nextAttempt < rows[b].nextAttempt || (rows[a].nextAttempt == rows[b].nextAttempt && a < b)
  }

  /** The due rows. */
  function DueSet(rows: seq<Row>, now: nat): set<nat> {
    set i | 0 <= i < |rows| && IsDue(rows[i], now)
  }

  /** The first `limit` due rows in service order. */
  ghost predicate IsBatch(rows: seq<Row>, now: nat, limit: nat, batch: seq<nat>) {
    && (forall i :: 0 <= i < |batch| ==> batch[i] in DueSet(rows, now))
    && (forall i, j :: 0 <= i < j < |batch| ==> Earlier(rows, batch[i], batch[j]))
    && |batch| <= limit
    && (|batch| < limit ==> forall d :: d in DueSet(rows, now) ==> d in batch)
    && (forall d, i :: d in DueSet(rows, now) && d !in batch && 0 <= i < |batch| ==> Earlier(rows, batch[i], d))
  }

  /** The earliest of some rows. */
  lemma EarliestOf(rows: seq<Row>, s: set<nat>) returns (m: nat)
    requires s != {} && forall d :: d in s ==> d < |rows|
    ensures m in s && forall d :: d in s && d != m ==> Earlier(rows, m, d)
  {
    m := Extremes.FirstOf<nat>(s, (a: nat, b: nat) => a < |rows| && b < |rows| && Earlier(rows, a, b));
  }

  class Outbox {
    var events: map<Id, Stored>
    var deliveries: seq<Row>

    function View(): State
      reads this
    {
      State(events, deliveries)
    }

    constructor ()
      ensures View() == FRESH
    {
      events, deliveries := map[], [];
    }

    method Enqueue(e: Event, destinations: seq<Id>, enqueuedAt: nat) returns (r: Result<nat, NotificationError>)
      modifies this
      ensures (View(), r) == EnqueueStep(old(View()), e, destinations, enqueuedAt)
    {
      if destinations == [] || |destinations| > MAX_DESTINATIONS || !Distinct(destinations) {
        return Err(Configuration);
      }
      var retryUntil := enqueuedAt + RetryLifetime(e.severity);
      if retryUntil > U64_MAX {
        return Err(Configuration);
      }
      if !e.recovery && CooldownStart(enqueuedAt) > I64_MAX {
        return Err(Configuration);
      }
      var eligible := Eligible(View(), e, destinations, CooldownStart(enqueuedAt));
      if eligible == [] {
        return Ok(0);
      }
      if e.occurredAt > I64_MAX || enqueuedAt > I64_MAX {
        return Err(Configuration);
      }
      if e.eventId in events {
        return Err(Persistence);
      }
      if retryUntil > I64_MAX {
        return Err(Configuration);
      }
      events := events[e.eventId := Stored(e, enqueuedAt)];
      var i := 0;
      while i < |eligible|
        invariant 0 <= i <= |eligible|
        invariant deliveries == old(deliveries) + NewRows(e, eligible, enqueuedAt)[..i]
        invariant events == old(events)[e.eventId := Stored(e, enqueuedAt)]
      {
        deliveries := deliveries + [Row(e.eventId, eligible[i], 0, enqueuedAt, retryUntil, None, None, None)];
        i := i + 1;
      }
      assert NewRows(e, eligible, enqueuedAt)[..i] == NewRows(e, eligible, enqueuedAt);
      r := Ok(|eligible|);
    }

    method Due(now: nat, limit: nat) returns (r: Result<seq<nat>, NotificationError>)
      ensures r.Ok? <==> 1 <= limit <= DELIVERY_BATCH_LIMIT && now <= I64_MAX
      ensures r.Ok? ==> IsBatch(deliveries, now, limit, r.value)
      ensures r.Ok? && |r.value| < limit ==>
        forall i :: 0 <= i < |deliveries| ==>
          (i in r.value <==>
            deliveries[i].deliveredAt.None? && deliveries[i].abandonedAt.None? && deliveries[i].nextAttempt <= now)
    {
      if limit == 0 || limit > DELIVERY_BATCH_LIMIT || now > I64_MAX {
        return Err(Configuration);
      }
      var left := DueSet(deliveries, now);
      var batch: seq<nat> := [];
      while left != {} && |batch| < limit
        invariant |batch| <= limit
        invariant left <= DueSet(deliveries, now)
        invariant forall i :: 0 <= i < |batch| ==> batch[i] in DueSet(deliveries, now)
        invariant forall d :: d in DueSet(deliveries, now) ==> d in left || d in batch
        invariant forall i, j :: 0 <= i < j < |batch| ==> Earlier(deliveries, batch[i], batch[j])
        invariant forall d, i :: d in left && 0 <= i < |batch| ==> Earlier(deliveries, batch[i], d)
        decreases |left|
      {
        ghost var earliest := EarliestOf(deliveries, left);
        var m :| m in left && forall d :: d in left && d != m ==> Earlier(deliveries, m, d);
        batch, left := batch + [m], left - {m};
      }
      r := Ok(batch);
    }

    method MarkDelivered(id: nat, deliveredAt: nat) returns (r: Result<(), NotificationError>)
      modifies this`deliveries
      ensures (View(), r) == MarkDeliveredStep(old(View()), id, deliveredAt)
    {
      if deliveredAt > I64_MAX {
        return Err(Configuration);
      }
      if id >= |deliveries| || !IsPending(deliveries[id]) {
        return Err(NotFound);
      }
      deliveries := deliveries[id := deliveries[id].(deliveredAt := Some(deliveredAt))];
      r := Ok(());
    }

    method RecordFailure(id: nat, failedAt: nat, code: nat) returns (r: Result<Disposition, NotificationError>)
      modifies this`deliveries
      ensures (View(), r) == RecordFailureStep(old(View()), id, failedAt, code)
    {
      if code == 0 {
        return Err(Configuration);
      }
      if id >= |deliveries| || !IsPending(deliveries[id]) {
        return Err(NotFound);
      }
      var row := deliveries[id];
      var next := failedAt + RetryDelay(row.attempts);
      if next > U64_MAX || row.attempts == U32_MAX {
        return Err(Configuration);
      }
      if next > row.retryUntil {
        if failedAt > I64_MAX {
          return Err(Configuration);
        }
        var failed := row.(attempts := row.attempts + 1, lastError := Some(code), abandonedAt := Some(failedAt));
        deliveries := deliveries[id := failed];
        r := Ok(Abandoned);
      } else {
        if next > I64_MAX {
          return Err(Configuration);
        }
        var failed := row.(attempts := row.attempts + 1, lastError := Some(code), nextAttempt := next);
        deliveries := deliveries[id := failed];
        r := Ok(RetryAt(next));
      }
    }
  }
}
