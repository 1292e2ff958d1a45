/** How the runtime drives the collector: account phases in, settled days out. */
module TelemetryRuntime {
  import opened Wrappers
  import opened Bytes
  import opened ActivityDays
  import opened TelemetryStore
  import opened TelemetryAccounting

  const MAX_REPORTS_PER_FLUSH: nat := 8

  type AccountId = seq<byte>

  /** The runtime's own set of active accounts beside the store's reference count. */
  datatype Driver = Driver(active: set<AccountId>, store: State)

  ghost predicate InStep(d: Driver) {
    && WellFormed(d.store)
    && |d.active| == d.store.activeAccounts
  }

  /** One lifecycle event: the set changes first, and a refused store call does not put it back. */
  function Lifecycle(d: Driver, id: AccountId, active: bool, time: nat): (Driver, Outcome) {
    if active && id !in d.active then
      var (store, outcome) := Step(d.store, SetActive(time, true));
      (Driver(d.active + {id}, store), outcome)
    else if !active && id in d.active then
      var (store, outcome) := Step(d.store, SetActive(time, false));
      (Driver(d.active - {id}, store), outcome)
    else
      (d, Ok(()))
  }

  /** Whether the store takes a membership change at `time`. */
  predicate Takes(s: State, active: bool, time: nat) {
    && 0 < time && s.lastActivity <= time <= I64_MAX
    && (active ==> s.activeAccounts < I64_MAX)
    && (!active && s.activeAccounts == 1 && s.activeSince.Some? ==>
          time <= FIRST_UNTRACKED || time == s.activeSince.value)
  }

  lemma TakenIffAccepted(s: State, active: bool, time: nat)
    requires WellFormed(s) && s.activeAccounts <= I64_MAX && (!active ==> s.activeAccounts > 0)
    ensures Step(s, SetActive(time, active)).1.Ok? <==> Takes(s, active, time)
  {
    AcceptedIffAcceptable(s, SetActive(time, active));
  }

  /** The reference count follows the set exactly when the store takes every membership change. */
  lemma InStepIffTaken(d: Driver, id: AccountId, active: bool, time: nat)
    requires InStep(d) && d.store.activeAccounts <= I64_MAX
    ensures InStep(Lifecycle(d, id, active, time).0)
       <==> (active == (id in d.active) || Takes(d.store, active, time))
  {
    var (next, outcome) := Lifecycle(d, id, active, time);
    if active && id !in d.active {
      TakenIffAccepted(d.store, true, time);
      assert |next.active| == |d.active| + 1;
    } else if !active && id in d.active {
      TakenIffAccepted(d.store, false, time);
      assert |next.active| == |d.active| - 1;
    }
  }

  /** A join reported after a later checkpoint is refused; that account's leave then ends another's interval. */
  lemma LateJoinEndsAnothersInterval(first: AccountId, second: AccountId, store: State)
    requires first != second
    requires store == State(map[], 1, Some(50), 50, None)
    ensures var (d1, r1) := Lifecycle(Driver({first}, store), second, true, 40);
            var (d2, r2) := Lifecycle(d1, second, false, 60);
            && r1.Err? && r2.Ok?
            && d2.active == {first} && d2.store.activeAccounts == 0 && d2.store.activeSince.None?
  {
    SplitDaysEffect(store.daily, 50, 60);
    var d1 := Lifecycle(Driver({first}, store), second, true, 40).0;
    assert d1.active - {second} == {first};
  }

  method RecordLifecycle(
    store: CommunityTelemetryStore, active: set<AccountId>, id: AccountId, isActive: bool, occurredAt: nat)
    returns (after: set<AccountId>, r: Outcome)
    modifies store
    ensures (Driver(after, store.View()), r) == Lifecycle(Driver(active, old(store.View())), id, isActive, occurredAt)
  {
    after, r := active, Ok(());
    if isActive {
      if id !in active {
        after := active + {id};
        r := store.SetAccountActive(occurredAt, true);
      }
    } else if id in active {
      after := active - {id};
      r := store.SetAccountActive(occurredAt, false);
    }
  }

  /** Whether every remaining account can leave at `now`. */
  predicate CanCloseAt(s: State, now: nat) {
    && 0 < now && s.lastActivity <= now <= I64_MAX
    && (now <= FIRST_UNTRACKED || s.activeSince == Some(now))
  }

  /** Shutdown: one leave per remaining account, stopping at the first refusal. */
  method CloseActiveAccounts(store: CommunityTelemetryStore, active: set<AccountId>, now: nat)
    requires InStep(Driver(active, store.View())) && store.activeAccounts <= I64_MAX
    modifies store
    ensures active != {} ==> (store.activeAccounts == 0 <==> CanCloseAt(old(store.View()), now))
    ensures store.activeAccounts == 0 ==> store.activeSince.None?
    ensures active == {} ==> store.View() == old(store.View())
  {
    var remaining := active;
    while remaining != {}
      invariant InStep(Driver(remaining, store.View())) && store.activeAccounts <= I64_MAX
      invariant remaining == active ==> store.View() == old(store.View())
      invariant remaining != active ==>
        store.lastActivity == now && old(store.lastActivity) <= now <= I64_MAX && now > 0
      invariant remaining != {} ==> store.activeSince == old(store.activeSince)
      invariant remaining == {} && active != {} ==> CanCloseAt(old(store.View()), now)
      decreases |remaining|
    {
      var id :| id in remaining;
      TakenIffAccepted(store.View(), false, now);
      remaining := remaining - {id};
      var r := store.SetAccountActive(now, false);
      if r.Err? {
        break;
      }
    }
  }

  ghost predicate Ascending(days: seq<nat>) {
    forall i, j :: 0 <= i < j < |days| ==> days[i] < days[j]
  }

  /** `days` are the oldest pending days of `settled`, oldest first and none skipped. */
  ghost predicate OldestFirst(settled: Daily, today: nat, days: seq<nat>) {
    && Ascending(days)
    && (forall i :: 0 <= i < |days| ==> Pending(settled, today, days[i]))
    && (forall i, day :: 0 <= i < |days| && Pending(settled, today, day) && day !in days ==> days[i] < day)
  }

  /** `daily` is `settled` with exactly `days` marked as sent. */
  ghost predicate Marked(settled: Daily, daily: Daily, days: seq<nat>, now: nat) {
    && daily.Keys == settled.Keys
    && forall day :: day in settled ==>
         daily[day] == if day in days then settled[day].(sentAt := Some(now)) else settled[day]
  }

  lemma ReportNext(settled: Daily, daily: Daily, today: nat, days: seq<nat>, now: nat, day: nat)
    requires Marked(settled, daily, days, now) && OldestFirst(settled, today, days)
    requires IsOldestPending(daily, today, day)
    ensures day !in days && daily[day] == settled[day]
    ensures OldestFirst(settled, today, days + [day])
    ensures Marked(settled, daily[day := daily[day].(sentAt := Some(now))], days + [day], now)
  {
    assert day !in days;
    assert Pending(settled, today, day);
    forall i, other | 0 <= i <= |days| && Pending(settled, today, other) && other !in days + [day]
      ensures (days + [day])[i] < other
    {
      assert Pending(daily, today, other);
    }
  }

  lemma MarkingKeepsActiveMs(settled: Daily, daily: Daily, days: seq<nat>, now: nat)
    requires Marked(settled, daily, days, now)
    ensures forall day: nat :: ActiveMs(daily, day) == ActiveMs(settled, day)
  {
  }

  /**
   * Reports at most eight settled days; `accepts` stands for the exchange that submits one. The days
   * are the oldest pending ones, each with its settled row; the first `sent` of them were accepted and
   * marked, and a refusal ends the flush.
   */
  method Flush(store: CommunityTelemetryStore, now: nat, accepts: (nat, Day) -> bool)
    returns (days: seq<nat>, sent: nat)
    modifies store
    ensures |days| - 1 <= sent <= |days| <= MAX_REPORTS_PER_FLUSH
    ensures var (settled, checked) := Step(old(store.View()), Checkpoint(now));
            if checked.Err? then days == [] && store.View() == settled
            else
              && store.View() == settled.(daily := store.daily)
              && OldestFirst(settled.daily, now / MILLIS_PER_DAY, days)
              && Marked(settled.daily, store.daily, days[..sent], now)
              && (forall day: nat :: ActiveMs(store.daily, day) == ActiveMs(settled.daily, day))
              && (forall i :: 0 <= i < |days| ==> (i < sent <==> accepts(days[i], settled.daily[days[i]])))
              && (sent == |days| < MAX_REPORTS_PER_FLUSH && UtcDay(now).Ok? ==>
                    forall day :: !Pending(store.daily, now / MILLIS_PER_DAY, day))
  {
    days, sent := [], 0;
    ghost var settled := Step(store.View(), Checkpoint(now)).0;
    var checkpoint := store.CheckpointActivity(now);
    if checkpoint.Err? {
      return;
    }
    while sent < MAX_REPORTS_PER_FLUSH
      invariant |days| == sent <= MAX_REPORTS_PER_FLUSH
      invariant store.View() == settled.(daily := store.daily)
      invariant Reported(settled.daily, store.daily, days, now, accepts)
    {
      assert days[..sent] == days;
      var pending := store.OldestPending(now);
      if pending.Err? || pending.value.None? {
        MarkingKeepsActiveMs(settled.daily, store.daily, days[..sent], now);
        return;
      }
      var day := pending.value.value;
      ReportNext(settled.daily, store.daily, now / MILLIS_PER_DAY, days, now, day);
      var accepted := accepts(day, store.daily[day]);
      days := days + [day];
      if !accepted {
        assert days[..sent] + [day] == days;
        MarkingKeepsActiveMs(settled.daily, store.daily, days[..sent], now);
        return;
      }
      var _ := store.MarkDaySent(day, now);
      sent := sent + 1;
    }
    assert days[..sent] == days;
    MarkingKeepsActiveMs(settled.daily, store.daily, days[..sent], now);
  }

  /** Every day reported so far was accepted and is marked. */
  ghost predicate Reported(settled: Daily, daily: Daily, days: seq<nat>, now: nat, accepts: (nat, Day) -> bool) {
    && OldestFirst(settled, now / MILLIS_PER_DAY, days)
    && Marked(settled, daily, days, now)
    && forall i :: 0 <= i < |days| ==> accepts(days[i], settled[days[i]])
  }

  /** For an accounted store every reported figure is the activity of its day, unless counted again, then and later. */
  lemma ReportsAreFinal(s: State, log: seq<ActivityEvent>, now: nat, days: seq<nat>, later: seq<Call>, i: nat)
    requires Accounted(s, log) && Step(s, Checkpoint(now)).1.Ok?
    requires OldestFirst(Step(s, Checkpoint(now)).0.daily, now / MILLIS_PER_DAY, days) && i < |days|
    requires OpensFrom(now, later)
    ensures var settled := Step(s, Checkpoint(now)).0;
            && settled.daily[days[i]].activeMs
               == SeenOf(log + [Checkpointed(now)], days[i]) + Added(s, log, Checkpoint(now), days[i])
            && (!Recounts(s, log, Checkpoint(now)) ==> Added(s, log, Checkpoint(now), days[i]) == 0)
            && ActiveMs(Run(settled, log, later).0.daily, days[i]) == settled.daily[days[i]].activeMs
  {
    CheckpointMakesDaysFinal(s, log, now, later, days[i]);
  }

  // ---- whole runs of the driver ----

  /** What happens to the collector: a phase change of an account, a restart, or any other call of the store. */
  datatype Occurrence = Change(id: AccountId, active: bool, time: nat) | Restart(time: nat) | Collect(call: Call)

  /** The runtime's set of active accounts as it was left at `time`. */
  datatype Moment = Moment(time: nat, active: set<AccountId>)

  /** A driver with the events its store accepted and the set beside each of them. */
  datatype Journal = Journal(driver: Driver, log: seq<ActivityEvent>, moments: seq<Moment>)

  /** The call of the store that an occurrence makes, if any. */
  function CallOf(d: Driver, o: Occurrence): Option<Call> {
    match o
    case Change(id, active, time) => if active == (id in d.active) then None else Some(SetActive(time, active))
    case Restart(time) => Some(Open(time))
    case Collect(call) => Some(call)
  }

  function ActiveAfter(active: set<AccountId>, o: Occurrence): set<AccountId> {
    match o
    case Change(id, on, _) => if on then active + {id} else active - {id}
    case Restart(_) => {}
    case Collect(_) => active
  }

  /** The set changes whether or not the store takes the call; a checkpoint observes it only if it is taken. */
  function Advance(j: Journal, o: Occurrence): (next: Journal)
    ensures o.Change? ==> next.driver == Lifecycle(j.driver, o.id, o.active, o.time).0
  {
    var active := ActiveAfter(j.driver.active, o);
    match CallOf(j.driver, o)
    case None => j
    case Some(call) =>
      var (store, outcome) := Step(j.driver.store, call);
      Journal(
        Driver(active, store),
        Extend(j.log, call, outcome),
        if EventOf(call).Some? && (outcome.Ok? || !o.Collect?) then j.moments + [Moment(call.time, active)]
        else j.moments)
  }

  function Drive(j: Journal, occurrences: seq<Occurrence>): Journal
    decreases |occurrences|
  {
    if occurrences == [] then j else Drive(Advance(j, occurrences[0]), occurrences[1..])
  }

  /** Whether some account was active during millisecond `x`, going by the sets of two consecutive moments around it. */
  predicate Occupied(moments: seq<Moment>, x: nat) {
    |moments| >= 2 &&
    var front := moments[..|moments| - 1];
    var last := front[|front| - 1];
    Occupied(front, x) || (last.active != {} && last.time <= x < moments[|moments| - 1].time)
  }

  function OccupiedBetween(moments: seq<Moment>, start: nat, end: nat): nat {
    if end <= start then 0
    else OccupiedBetween(moments, start, end - 1) + (if Occupied(moments, end - 1) then 1 else 0)
  }

  /** Every day's figure is the milliseconds of it during which the runtime had some account active. */
  ghost predicate Measured(j: Journal) {
    forall day: nat ::
      ActiveMs(j.driver.store.daily, day) + OpenPart(j.driver.store, day)
      == OccupiedBetween(j.moments, day * MILLIS_PER_DAY, (day + 1) * MILLIS_PER_DAY)
  }

  /** For the set to stay in step the store has to take every membership change and every open. */
  predicate Taken(j: Journal, o: Occurrence) {
    match o
    case Change(id, active, time) => active == (id in j.driver.active) || Takes(j.driver.store, active, time)
    case Restart(time) => Step(j.driver.store, Open(time)).1.Ok?
    case Collect(call) => !call.Open? && !call.SetActive?
  }

  predicate AllTaken(j: Journal, occurrences: seq<Occurrence>)
    decreases |occurrences|
  {
    occurrences == [] || (Taken(j, occurrences[0]) && AllTaken(Advance(j, occurrences[0]), occurrences[1..]))
  }

  /** Moments and accepted events run side by side, and each set is as large as the count. */
  ghost predicate SideBySide(log: seq<ActivityEvent>, moments: seq<Moment>) {
    && |log| == |moments|
    && forall i :: 0 <= i < |log| ==> moments[i].time == log[i].time && |moments[i].active| == Count(log[..i + 1])
  }

  ghost predicate Aligned(j: Journal) {
    && Tracked(j.driver.store, j.log)
    && |j.driver.active| == j.driver.store.activeAccounts <= I64_MAX
    && SideBySide(j.log, j.moments)
  }

  lemma SideBySideAfter(log: seq<ActivityEvent>, moments: seq<Moment>, e: ActivityEvent, m: Moment)
    requires SideBySide(log, moments)
    requires m.time == e.time && |m.active| == Apply(Count(log), e)
    ensures SideBySide(log + [e], moments + [m])
  {
    CountAfter(log, e);
    forall i | 0 <= i <= |log| ensures |(moments + [m])[i].active| == Count((log + [e])[..i + 1]) {
      assert (log + [e])[..i + 1] == if i < |log| then log[..i + 1] else log + [e];
    }
  }

  /** A call that leaves events and moments as they are keeps them aligned. */
  lemma QuietKeepsAligned(j: Journal, call: Call)
    requires Aligned(j) && (Step(j.driver.store, call).1.Err? || EventOf(call).None?)
    ensures Aligned(j.(driver := Driver(j.driver.active, Step(j.driver.store, call).0)))
  {
    if Step(j.driver.store, call).1.Err? {
      RefusedKeepsRow(j.driver.store, call);
    } else {
      CounterKeepsActiveMs(j.driver.store, call, 0);
    }
  }

  lemma EventKeepsAligned(j: Journal, o: Occurrence, call: Call)
    requires Aligned(j) && Taken(j, o) && CallOf(j.driver, o) == Some(call)
    requires Step(j.driver.store, call).1.Ok? && EventOf(call).Some?
    ensures Aligned(Advance(j, o))
  {
    var e := EventOf(call).value;
    var active := ActiveAfter(j.driver.active, o);
    StepKeepsTracked(j.driver.store, j.log, call);
    assert |active| == Apply(Count(j.log), e);
    SideBySideAfter(j.log, j.moments, e, Moment(call.time, active));
    CountAfter(j.log, e);
  }

  lemma AdvanceKeepsAligned(j: Journal, o: Occurrence)
    requires Aligned(j) && Taken(j, o)
    ensures Aligned(Advance(j, o))
  {
    match CallOf(j.driver, o)
    case None =>
    case Some(call) =>
      if o.Change? {
        TakenIffAccepted(j.driver.store, o.active, o.time);
      }
      if Step(j.driver.store, call).1.Ok? && EventOf(call).Some? {
        EventKeepsAligned(j, o, call);
      } else {
        QuietKeepsAligned(j, call);
      }
  }

  lemma {:induction false} SeenIffOccupied(log: seq<ActivityEvent>, moments: seq<Moment>, x: nat)
    requires SideBySide(log, moments)
    ensures Seen(log, x) <==> Occupied(moments, x)
  {
    if |log| >= 2 {
      var n := |log| - 1;
      forall i | 0 <= i < n ensures |moments[..n][i].active| == Count(log[..n][..i + 1]) {
        assert log[..n][..i + 1] == log[..i + 1];
      }
      SeenIffOccupied(log[..n], moments[..n], x);
      assert |moments[n - 1].active| == Count(log[..n]);
    }
  }

  lemma {:induction false} SeenIsOccupied(log: seq<ActivityEvent>, moments: seq<Moment>, start: nat, end: nat)
    requires SideBySide(log, moments)
    ensures SeenBetween(log, start, end) == OccupiedBetween(moments, start, end)
  {
    if start < end {
      SeenIsOccupied(log, moments, start, end - 1);
      SeenIffOccupied(log, moments, end - 1);
    }
  }

  /** Figures are right by the set exactly if they are right by the count. */
  lemma MeasuredIffExact(j: Journal)
    requires Aligned(j)
    ensures Measured(j) <==> Exact(j.driver.store, j.log)
  {
    forall day: nat
      ensures SeenOf(j.log, day) == OccupiedBetween(j.moments, day * MILLIS_PER_DAY, (day + 1) * MILLIS_PER_DAY)
    {
      SeenIsOccupied(j.log, j.moments, day * MILLIS_PER_DAY, (day + 1) * MILLIS_PER_DAY);
    }
    if Exact(j.driver.store, j.log) {
      forall day: nat
        ensures ActiveMs(j.driver.store.daily, day) + OpenPart(j.driver.store, day)
             == OccupiedBetween(j.moments, day * MILLIS_PER_DAY, (day + 1) * MILLIS_PER_DAY)
      {
        assert Excess(j.driver.store, j.log, day) == 0;
      }
    }
  }

  ghost predicate AlwaysMeasured(j: Journal, occurrences: seq<Occurrence>)
    decreases |occurrences|
  {
    Measured(j) && (occurrences == [] || AlwaysMeasured(Advance(j, occurrences[0]), occurrences[1..]))
  }

  /** No occurrence makes a call that overruns, recounts or cuts. */
  ghost predicate NoneMiscounts(j: Journal, occurrences: seq<Occurrence>)
    decreases |occurrences|
  {
    occurrences == [] ||
    (&& (var call := CallOf(j.driver, occurrences[0]);
         call.Some? ==> !Miscounts(j.driver.store, j.log, call.value))
     && NoneMiscounts(Advance(j, occurrences[0]), occurrences[1..]))
  }

  /**
   * From any measured store, over phase changes, restarts and other calls of which the store takes every
   * membership change and every open: the figures are at all times the milliseconds during which the runtime
   * had some account active, exactly if no call miscounts.
   */
  lemma {:induction false} FiguresMeasureTheActiveSet(j: Journal, occurrences: seq<Occurrence>)
    requires Aligned(j) && Measured(j) && AllTaken(j, occurrences)
    ensures Aligned(Drive(j, occurrences))
    ensures AlwaysMeasured(j, occurrences) <==> NoneMiscounts(j, occurrences)
    decreases |occurrences|
  {
    if occurrences != [] {
      var o := occurrences[0];
      var next := Advance(j, o);
      AdvanceKeepsAligned(j, o);
      MeasuredIffExact(j);
      MeasuredIffExact(next);
      var call := CallOf(j.driver, o);
      if call.Some? {
        StepKeepsAccountIff(j.driver.store, j.log, call.value);
      }
      if Measured(next) {
        FiguresMeasureTheActiveSet(next, occurrences[1..]);
      } else {
        DriveKeepsAligned(next, occurrences[1..]);
      }
    }
  }

  lemma {:induction false} DriveKeepsAligned(j: Journal, occurrences: seq<Occurrence>)
    requires Aligned(j) && AllTaken(j, occurrences)
    ensures Aligned(Drive(j, occurrences))
    decreases |occurrences|
  {
    if occurrences != [] {
      AdvanceKeepsAligned(j, occurrences[0]);
      DriveKeepsAligned(Advance(j, occurrences[0]), occurrences[1..]);
    }
  }

  /** The collector before its first open, which such a run may start from. */
  lemma FirstJournalIsMeasured()
    ensures var first := Journal(Driver({}, FRESH), [], []); Aligned(first) && Measured(first)
  {
    var first := Journal(Driver({}, FRESH), [], []);
    FreshIsAccounted();
    MeasuredIffExact(first);
  }
}
