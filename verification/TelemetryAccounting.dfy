/** The stored figures against the activity they are meant to measure, over every run of calls. */
module TelemetryAccounting {
  import opened Wrappers
  import opened Bytes
  import opened ActivityDays
  import opened TelemetryStore

  /** The part of `day` in the interval that is still open. */
  function OpenPart(s: State, day: nat): nat {
    if s.activeSince.Some? then Overlap(day, s.activeSince.value, s.lastActivity) else 0
  }

  /** The shape of the runtime row in every reachable state. */
  ghost predicate WellFormed(s: State) {
    && (s.activeAccounts > 0 <==> s.activeSince.Some?)
    && (s.activeSince.Some? ==> 0 < s.activeSince.value <= s.lastActivity)
  }

  /** The runtime row carries the number of active accounts and the time of the last accepted call. */
  ghost predicate Tracked(s: State, log: seq<ActivityEvent>) {
    && WellFormed(s)
    && s.activeAccounts == Count(log)
    && (log != [] ==> s.lastActivity == log[|log| - 1].time)
  }

  /** How far the stored day, with the open part, is from the day of the log. */
  function Excess(s: State, log: seq<ActivityEvent>, day: nat): int {
    ActiveMs(s.daily, day) + OpenPart(s, day) - SeenOf(log, day)
  }

  /** The stored days, with the open part, are the days of the log. */
  ghost predicate Exact(s: State, log: seq<ActivityEvent>) {
    forall day: nat :: Excess(s, log, day) == 0
  }

  ghost predicate Accounted(s: State, log: seq<ActivityEvent>) {
    Tracked(s, log) && Exact(s, log)
  }

  /** The event a successful call contributes to the log. */
  function EventOf(call: Call): Option<ActivityEvent> {
    match call
    case Open(t) => Some(Opened(t))
    case SetActive(t, active) => Some(if active then Joined(t) else Left(t))
    case Checkpoint(t) => Some(Checkpointed(t))
    case _ => None
  }

  function Extend(log: seq<ActivityEvent>, call: Call, outcome: Outcome): seq<ActivityEvent> {
    if outcome.Ok? && EventOf(call).Some? then log + [EventOf(call).value] else log
  }

  function Run(s: State, log: seq<ActivityEvent>, calls: seq<Call>): (State, seq<ActivityEvent>)
    decreases |calls|
  {
    if calls == [] then (s, log)
    else
      var (next, outcome) := Step(s, calls[0]);
      Run(next, Extend(log, calls[0], outcome), calls[1..])
  }

  /** Whether a call closes the open interval, if it is not refused before. */
  predicate ClosesInterval(s: State, call: Call) {
    match call
    case Open(t) => s.activeAccounts > 0 && t > 0
    case SetActive(t, active) => !active && s.activeAccounts == 1 && t >= s.lastActivity
    case Checkpoint(t) => s.activeAccounts > 0 && t >= s.lastActivity
    case _ => false
  }

  /** A call that fails half way through the day loop: the open interval runs into untracked days. */
  predicate Overruns(s: State, call: Call) {
    ClosesInterval(s, call) && s.activeSince.Some? && s.activeSince.value < FIRST_UNTRACKED < call.time
  }

  lemma CounterKeepsActiveMs(s: State, call: Call, day: nat)
    requires EventOf(call).None?
    ensures ActiveMs(Step(s, call).0.daily, day) == ActiveMs(s.daily, day)
    ensures var after := Step(s, call).0;
            && after.activeAccounts == s.activeAccounts && after.activeSince == s.activeSince
            && after.lastActivity == s.lastActivity
  {
  }

  /** Exactly the overrunning calls fail and still change the stored days. */
  lemma FailureChangesStateIffOverrun(s: State, call: Call)
    requires WellFormed(s)
    requires Step(s, call).1.Err?
    ensures Step(s, call).0 != s <==> Overruns(s, call)
  {
    if ClosesInterval(s, call) && call.time >= s.activeSince.value {
      var start := s.activeSince.value;
      SplitDaysEffect(s.daily, start, call.time);
      if Overruns(s, call) {
        var day := start / MILLIS_PER_DAY;
        assert Overlap(day, start, FIRST_UNTRACKED) > 0;
        assert ActiveMs(Step(s, call).0.daily, day) > ActiveMs(s.daily, day);
      }
    }
  }

  // ---- which calls are accepted ----

  /** Whether the open interval, if there is one, can be closed at `t`: not before it, and within the tracked days. */
  predicate ClosableAt(s: State, t: nat) {
    s.activeSince.Some? ==> s.activeSince.value <= t && (t <= FIRST_UNTRACKED || t == s.activeSince.value)
  }

  /** A time on a day whose number fits 32 bits. */
  predicate OnTrackedDay(t: nat) {
    0 < t < FIRST_UNTRACKED
  }

  predicate Acceptable(s: State, call: Call) {
    match call
    case Open(t) => 0 < t <= I64_MAX && ClosableAt(s, t)
    case SetActive(t, active) =>
      && 0 < t && s.lastActivity <= t <= I64_MAX
      && (if active then s.activeAccounts < I64_MAX
          else 0 < s.activeAccounts <= I64_MAX + 1 && (s.activeAccounts == 1 ==> ClosableAt(s, t)))
    case Checkpoint(t) => s.lastActivity <= t <= I64_MAX && ClosableAt(s, t)
    case Received(t) => OnTrackedDay(t)
    case Sent(t) => OnTrackedDay(t)
    case GroupCount(t, count) => OnTrackedDay(t) && count <= I64_MAX
    case AccountSet(t, _) => OnTrackedDay(t)
    case MarkSent(day, t) => OnTrackedDay(t) && day in s.daily && (day + 1) * MILLIS_PER_DAY <= t
  }

  /** In every reachable state a call succeeds exactly then. A checkpoint of an idle store needs only a later time. */
  lemma AcceptedIffAcceptable(s: State, call: Call)
    requires WellFormed(s)
    ensures Step(s, call).1.Ok? <==> Acceptable(s, call)
  {
    if EventOf(call).Some? && s.activeSince.Some? && s.activeSince.value <= call.time {
      SplitDaysEffect(s.daily, s.activeSince.value, call.time);
    }
  }

  // ---- the three ways to miscount ----

  /** An accepted activity call while somebody is active. */
  predicate AcceptedWhileActive(s: State, call: Call) {
    EventOf(call).Some? && Step(s, call).1.Ok? && s.activeAccounts > 0
  }

  /** Time has passed with somebody active, and some of it was seen before: an open had set the clock back. */
  ghost predicate Recounts(s: State, log: seq<ActivityEvent>, call: Call) {
    AcceptedWhileActive(s, call) && exists x: nat :: s.lastActivity <= x < call.time && Seen(log, x)
  }

  /** An open that lies inside the open interval and drops the rest of it. */
  predicate Cuts(s: State, call: Call) {
    AcceptedWhileActive(s, call) && call.time < s.lastActivity
  }

  ghost predicate Miscounts(s: State, log: seq<ActivityEvent>, call: Call) {
    Overruns(s, call) || Recounts(s, log, call) || Cuts(s, call)
  }

  /** Milliseconds of a day that a call counts beyond those it should. */
  function Added(s: State, log: seq<ActivityEvent>, call: Call, day: nat): nat {
    if Overruns(s, call) then Overlap(day, s.activeSince.value, FIRST_UNTRACKED)
    else if AcceptedWhileActive(s, call) then SeenWithin(log, day, s.lastActivity, call.time)
    else 0
  }

  /** Milliseconds of a day that a call takes back. */
  function Lost(s: State, call: Call, day: nat): nat {
    if Cuts(s, call) then Overlap(day, call.time, s.lastActivity) else 0
  }

  // ---- one call ----

  lemma RefusedKeepsRow(s: State, call: Call)
    requires Step(s, call).1.Err?
    ensures Step(s, call).0 == s.(daily := Step(s, call).0.daily)
  {
  }

  lemma EventKeepsRow(s: State, call: Call)
    requires WellFormed(s) && EventOf(call).Some? && Step(s, call).1.Ok?
    ensures var next := Step(s, call).0;
            && WellFormed(next)
            && next.activeAccounts == Apply(s.activeAccounts, EventOf(call).value)
            && next.lastActivity == call.time == EventOf(call).value.time
  {
  }

  /** Every call, accepted or refused, keeps the runtime row in line with the log. */
  lemma StepKeepsTracked(s: State, log: seq<ActivityEvent>, call: Call)
    requires Tracked(s, log)
    ensures var (next, outcome) := Step(s, call); Tracked(next, Extend(log, call, outcome))
  {
    if Step(s, call).1.Err? {
      RefusedKeepsRow(s, call);
    } else if EventOf(call).None? {
      CounterKeepsActiveMs(s, call, 0);
    } else {
      EventKeepsRow(s, call);
      CountAfter(log, EventOf(call).value);
    }
  }

  /** A refused call adds to a day exactly what an overrun has already written. */
  lemma RefusalExcess(s: State, log: seq<ActivityEvent>, call: Call, day: nat)
    requires Tracked(s, log) && Step(s, call).1.Err?
    ensures Excess(Step(s, call).0, log, day) == Excess(s, log, day) + Added(s, log, call, day)
  {
    RefusedKeepsRow(s, call);
    if Overruns(s, call) {
      SplitDaysEffect(s.daily, s.activeSince.value, call.time);
    } else {
      FailureChangesStateIffOverrun(s, call);
    }
  }

  /** What the stored days gain by an accepted event. */
  lemma EventEffect(s: State, call: Call, day: nat)
    requires WellFormed(s) && EventOf(call).Some? && Step(s, call).1.Ok?
    ensures var next := Step(s, call).0;
            && !Overruns(s, call)
            && next.lastActivity == call.time
            && (s.activeAccounts > 0 ==> call.time >= s.activeSince.value)
            && ActiveMs(next.daily, day) + OpenPart(next, day)
               == ActiveMs(s.daily, day)
                  + (if s.activeAccounts > 0 then Overlap(day, s.activeSince.value, call.time) else 0)
  {
    if s.activeAccounts > 0 && ClosesInterval(s, call) {
      SplitDaysEffect(s.daily, s.activeSince.value, call.time);
    }
  }

  /** An accepted event counts again what was seen before, and takes back what it cuts off. */
  lemma EventExcess(s: State, log: seq<ActivityEvent>, call: Call, day: nat)
    requires Tracked(s, log) && EventOf(call).Some? && Step(s, call).1.Ok?
    ensures Excess(Step(s, call).0, log + [EventOf(call).value], day)
         == Excess(s, log, day) + Added(s, log, call, day) - Lost(s, call, day)
  {
    EventEffect(s, call, day);
    AppendEvent(log, EventOf(call).value, day);
    if s.activeAccounts > 0 {
      var since := s.activeSince.value;
      if call.time >= s.lastActivity {
        OverlapSplit(day, since, s.lastActivity, call.time);
      } else {
        OverlapSplit(day, since, call.time, s.lastActivity);
      }
    }
  }

  /** Every call changes the excess of every day by exactly what it adds less what it loses. */
  lemma StepExcess(s: State, log: seq<ActivityEvent>, call: Call, day: nat)
    requires Tracked(s, log)
    ensures var (next, outcome) := Step(s, call);
            Excess(next, Extend(log, call, outcome), day)
            == Excess(s, log, day) + Added(s, log, call, day) - Lost(s, call, day)
  {
    if Step(s, call).1.Err? {
      RefusalExcess(s, log, call, day);
    } else if EventOf(call).None? {
      CounterKeepsActiveMs(s, call, day);
    } else {
      EventExcess(s, log, call, day);
    }
  }

  /** A call adds to some day exactly if it overruns or recounts, and takes from some day exactly if it cuts. */
  lemma ChangesIffMiscounts(s: State, log: seq<ActivityEvent>, call: Call)
    requires WellFormed(s)
    ensures (exists day: nat :: Added(s, log, call, day) > 0) <==> Overruns(s, call) || Recounts(s, log, call)
    ensures (exists day: nat :: Lost(s, call, day) > 0) <==> Cuts(s, call)
  {
    if Overruns(s, call) {
      var day := s.activeSince.value / MILLIS_PER_DAY;
      assert Overlap(day, s.activeSince.value, FIRST_UNTRACKED) > 0;
      assert Added(s, log, call, day) > 0;
    } else if AcceptedWhileActive(s, call) {
      AddsIffRecounts(s, log, call);
    }
    if Cuts(s, call) {
      assert Lost(s, call, call.time / MILLIS_PER_DAY) > 0;
    }
  }

  lemma AddsIffRecounts(s: State, log: seq<ActivityEvent>, call: Call)
    requires AcceptedWhileActive(s, call) && !Overruns(s, call)
    ensures (exists day: nat :: Added(s, log, call, day) > 0) <==> Recounts(s, log, call)
  {
    if Recounts(s, log, call) {
      var x: nat :| s.lastActivity <= x < call.time && Seen(log, x);
      var day := x / MILLIS_PER_DAY;
      assert exists y: nat :: s.lastActivity <= y < call.time && y / MILLIS_PER_DAY == day && Seen(log, y);
      SeenWithinBounds(log, day, s.lastActivity, call.time);
      assert Added(s, log, call, day) > 0;
    } else {
      forall day: nat ensures Added(s, log, call, day) == 0 {
        SeenWithinBounds(log, day, s.lastActivity, call.time);
      }
    }
  }

  /** No call both adds and loses. */
  lemma AddsOrLoses(s: State, log: seq<ActivityEvent>, call: Call, day: nat)
    requires WellFormed(s)
    ensures Added(s, log, call, day) == 0 || !Cuts(s, call)
  {
    if Cuts(s, call) {
      EventEffect(s, call, day);
      SeenWithinBounds(log, day, s.lastActivity, call.time);
    }
  }

  /** One call keeps the days right exactly if it neither overruns nor recounts nor cuts. */
  lemma StepKeepsAccountIff(s: State, log: seq<ActivityEvent>, call: Call)
    requires Accounted(s, log)
    ensures var (next, outcome) := Step(s, call);
            && Tracked(next, Extend(log, call, outcome))
            && (Exact(next, Extend(log, call, outcome)) <==> !Miscounts(s, log, call))
  {
    var (next, outcome) := Step(s, call);
    var after := Extend(log, call, outcome);
    StepKeepsTracked(s, log, call);
    ChangesIffMiscounts(s, log, call);
    forall day: nat ensures Excess(next, after, day) == Added(s, log, call, day) - Lost(s, call, day) {
      StepExcess(s, log, call, day);
    }
    if Cuts(s, call) {
      var day: nat :| Lost(s, call, day) > 0;
      AddsOrLoses(s, log, call, day);
      assert Excess(next, after, day) < 0;
    } else if Miscounts(s, log, call) {
      var day: nat :| Added(s, log, call, day) > 0;
      assert Excess(next, after, day) > 0;
    }
  }

  // ---- whole runs ----

  /** What a run counts beyond the activity of a day. */
  function AddedIn(s: State, log: seq<ActivityEvent>, calls: seq<Call>, day: nat): nat
    decreases |calls|
  {
    if calls == [] then 0
    else
      var (next, outcome) := Step(s, calls[0]);
      Added(s, log, calls[0], day) + AddedIn(next, Extend(log, calls[0], outcome), calls[1..], day)
  }

  /** What a run takes back from a day. */
  function LostIn(s: State, calls: seq<Call>, day: nat): nat
    decreases |calls|
  {
    if calls == [] then 0 else Lost(s, calls[0], day) + LostIn(Step(s, calls[0]).0, calls[1..], day)
  }

  /** In every run at all, the figure of a day is its activity, and what was added to it less what was lost. */
  lemma {:induction false} RunExcess(s: State, log: seq<ActivityEvent>, calls: seq<Call>, day: nat)
    requires Tracked(s, log)
    ensures var (end, full) := Run(s, log, calls);
            && Tracked(end, full)
            && Excess(end, full, day) == Excess(s, log, day) + AddedIn(s, log, calls, day) - LostIn(s, calls, day)
    decreases |calls|
  {
    if calls != [] {
      var (next, outcome) := Step(s, calls[0]);
      var after := Extend(log, calls[0], outcome);
      StepKeepsTracked(s, log, calls[0]);
      StepExcess(s, log, calls[0], day);
      RunExcess(next, after, calls[1..], day);
    }
  }

  /** Runs no call of which miscounts. */
  ghost predicate NeverMiscounts(s: State, log: seq<ActivityEvent>, calls: seq<Call>)
    decreases |calls|
  {
    calls == [] ||
    (&& !Miscounts(s, log, calls[0])
     && var (next, outcome) := Step(s, calls[0]);
        NeverMiscounts(next, Extend(log, calls[0], outcome), calls[1..]))
  }

  /** Runs that have every day exact before and after every call. */
  ghost predicate AlwaysExact(s: State, log: seq<ActivityEvent>, calls: seq<Call>)
    decreases |calls|
  {
    && Exact(s, log)
    && (calls == [] ||
        var (next, outcome) := Step(s, calls[0]);
        AlwaysExact(next, Extend(log, calls[0], outcome), calls[1..]))
  }

  lemma {:induction false} AlwaysExactIffNeverMiscounts(s: State, log: seq<ActivityEvent>, calls: seq<Call>)
    requires Accounted(s, log)
    ensures AlwaysExact(s, log, calls) <==> NeverMiscounts(s, log, calls)
    decreases |calls|
  {
    if calls != [] {
      StepKeepsAccountIff(s, log, calls[0]);
      if !Miscounts(s, log, calls[0]) {
        var (next, outcome) := Step(s, calls[0]);
        AlwaysExactIffNeverMiscounts(next, Extend(log, calls[0], outcome), calls[1..]);
      }
    }
  }

  /** Runs no call of which cuts an open interval. */
  predicate NeverCuts(s: State, calls: seq<Call>)
    decreases |calls|
  {
    calls == [] || (!Cuts(s, calls[0]) && NeverCuts(Step(s, calls[0]).0, calls[1..]))
  }

  ghost predicate NothingAdded(s: State, log: seq<ActivityEvent>, calls: seq<Call>) {
    forall day: nat :: AddedIn(s, log, calls, day) == 0
  }

  /** Without a cut nothing is lost, so what was once added stays. */
  lemma {:induction false} UncutRunIsExactIff(s: State, log: seq<ActivityEvent>, calls: seq<Call>)
    requires Tracked(s, log) && NeverCuts(s, calls)
    ensures forall day: nat :: LostIn(s, calls, day) == 0
    ensures NothingAdded(s, log, calls) <==> NeverMiscounts(s, log, calls)
    decreases |calls|
  {
    if calls != [] {
      var (next, outcome) := Step(s, calls[0]);
      var after := Extend(log, calls[0], outcome);
      StepKeepsTracked(s, log, calls[0]);
      ChangesIffMiscounts(s, log, calls[0]);
      UncutRunIsExactIff(next, after, calls[1..]);
      forall day: nat
        ensures AddedIn(s, log, calls, day) == Added(s, log, calls[0], day) + AddedIn(next, after, calls[1..], day)
      {
      }
      if day: nat :| Added(s, log, calls[0], day) > 0 {
        assert AddedIn(s, log, calls, day) > 0;
      } else if !NothingAdded(next, after, calls[1..]) {
        var day: nat :| AddedIn(next, after, calls[1..], day) > 0;
        assert AddedIn(s, log, calls, day) > 0;
      }
    }
  }

  lemma FreshIsAccounted()
    ensures Accounted(FRESH, [])
  {
    forall day: nat ensures Excess(FRESH, [], day) == 0 {
      SeenBetweenBounds([], day * MILLIS_PER_DAY, (day + 1) * MILLIS_PER_DAY);
    }
  }

  /**
   * From a fresh store, whatever is called: every day is right throughout exactly if no call miscounts. If no
   * open cuts an interval, no day is ever short, and being right at the end is enough.
   */
  lemma EveryRunIsExactIffNothingMiscounts(calls: seq<Call>)
    ensures AlwaysExact(FRESH, [], calls) <==> NeverMiscounts(FRESH, [], calls)
    ensures NeverCuts(FRESH, calls) ==>
      var (end, log) := Run(FRESH, [], calls);
      && (forall day: nat :: ActiveMs(end.daily, day) + OpenPart(end, day) >= SeenOf(log, day))
      && (Exact(end, log) <==> NeverMiscounts(FRESH, [], calls))
  {
    FreshIsAccounted();
    AlwaysExactIffNeverMiscounts(FRESH, [], calls);
    if NeverCuts(FRESH, calls) {
      UncutRunIsExactIff(FRESH, [], calls);
      var (end, log) := Run(FRESH, [], calls);
      forall day: nat ensures Excess(end, log, day) == AddedIn(FRESH, [], calls, day) {
        RunExcess(FRESH, [], calls, day);
        assert Excess(FRESH, [], day) == 0 && LostIn(FRESH, calls, day) == 0;
      }
      forall day: nat ensures ActiveMs(end.daily, day) + OpenPart(end, day) >= SeenOf(log, day) {
        assert Excess(end, log, day) >= 0;
      }
      assert Exact(end, log) <==> NothingAdded(FRESH, [], calls);
    }
  }

  lemma {:induction false} ExactAtTheEnd(s: State, log: seq<ActivityEvent>, calls: seq<Call>)
    requires Accounted(s, log) && NeverMiscounts(s, log, calls)
    ensures var (end, full) := Run(s, log, calls); Accounted(end, full)
    decreases |calls|
  {
    if calls != [] {
      StepKeepsAccountIff(s, log, calls[0]);
      var (next, outcome) := Step(s, calls[0]);
      ExactAtTheEnd(next, Extend(log, calls[0], outcome), calls[1..]);
    }
  }

  /** A run that does not miscount measures every day exactly, and no day holds more than a day. */
  lemma EveryRunMeasuresEveryDay(calls: seq<Call>, day: nat)
    requires NeverMiscounts(FRESH, [], calls)
    ensures var (end, log) := Run(FRESH, [], calls);
            && ActiveMs(end.daily, day) + OpenPart(end, day) == SeenOf(log, day)
            && ActiveMs(end.daily, day) <= MILLIS_PER_DAY
            && end.activeAccounts == Count(log)
  {
    FreshIsAccounted();
    ExactAtTheEnd(FRESH, [], calls);
    var (end, log) := Run(FRESH, [], calls);
    assert Excess(end, log, day) == 0;
    DayBound(log, day);
  }

  /** Runs in which no open goes back in time and no interval reaches an untracked day. */
  ghost predicate Forward(s: State, calls: seq<Call>)
    decreases |calls|
  {
    calls == [] ||
    (&& !Overruns(s, calls[0])
     && (calls[0].Open? ==> calls[0].time >= s.lastActivity)
     && Forward(Step(s, calls[0]).0, calls[1..]))
  }

  /** All that was seen lies before the last activity. */
  ghost predicate SeenIsPast(s: State, log: seq<ActivityEvent>) {
    forall x: nat :: Seen(log, x) ==> x < s.lastActivity
  }

  lemma ForwardKeepsSeenPast(s: State, log: seq<ActivityEvent>, call: Call)
    requires Tracked(s, log) && SeenIsPast(s, log) && (call.Open? ==> call.time >= s.lastActivity)
    ensures !Recounts(s, log, call) && !Cuts(s, call)
    ensures var (next, outcome) := Step(s, call); SeenIsPast(next, Extend(log, call, outcome))
  {
    if Step(s, call).1.Err? {
      RefusedKeepsRow(s, call);
    } else if EventOf(call).None? {
      CounterKeepsActiveMs(s, call, 0);
    } else {
      EventEffect(s, call, 0);
      EventIsPast(s, log, EventOf(call).value);
    }
  }

  lemma EventIsPast(s: State, log: seq<ActivityEvent>, e: ActivityEvent)
    requires Tracked(s, log) && SeenIsPast(s, log) && e.time >= s.lastActivity
    ensures forall x: nat :: Seen(log + [e], x) ==> x < e.time
  {
    if log != [] {
      forall x: nat ensures Seen(log + [e], x) ==> x < e.time {
        EventIsSeen(log, e, x);
      }
    }
  }

  /** Such runs, in particular, never miscount. */
  lemma {:induction false} ForwardNeverMiscounts(s: State, log: seq<ActivityEvent>, calls: seq<Call>)
    requires Tracked(s, log) && SeenIsPast(s, log) && Forward(s, calls)
    ensures NeverMiscounts(s, log, calls)
    decreases |calls|
  {
    if calls != [] {
      var (next, outcome) := Step(s, calls[0]);
      StepKeepsTracked(s, log, calls[0]);
      ForwardKeepsSeenPast(s, log, calls[0]);
      ForwardNeverMiscounts(next, Extend(log, calls[0], outcome), calls[1..]);
    }
  }

  /** An earlier open of a store with an open interval is refused before it, and inside it takes the rest away. */
  lemma EarlierOpenOfActiveStore(s: State, log: seq<ActivityEvent>, t: nat)
    requires Tracked(s, log) && s.activeAccounts > 0 && 0 < t < s.lastActivity <= I64_MAX
    ensures var since := s.activeSince.value;
            Step(s, Open(t)).1.Ok? <==> since <= t && (t <= FIRST_UNTRACKED || t == since)
    ensures Step(s, Open(t)).1.Ok? ==>
      forall day: nat ::
        Excess(Step(s, Open(t)).0, log + [Opened(t)], day)
        == Excess(s, log, day) - Overlap(day, t, s.lastActivity)
    ensures Step(s, Open(t)).1.Ok? && Exact(s, log) ==> !Exact(Step(s, Open(t)).0, log + [Opened(t)])
  {
    if s.activeSince.value <= t {
      SplitDaysEffect(s.daily, s.activeSince.value, t);
    }
    if Step(s, Open(t)).1.Ok? {
      forall day: nat
        ensures Excess(Step(s, Open(t)).0, log + [Opened(t)], day)
             == Excess(s, log, day) - Overlap(day, t, s.lastActivity)
      {
        StepExcess(s, log, Open(t), day);
        AddsOrLoses(s, log, Open(t), day);
      }
      if Exact(s, log) {
        StepKeepsAccountIff(s, log, Open(t));
      }
    }
  }

  /** An earlier open of an idle store is accepted and changes no day: only later activity may be counted again. */
  lemma EarlierOpenOfIdleStore(s: State, log: seq<ActivityEvent>, t: nat)
    requires Accounted(s, log) && s.activeAccounts == 0 && 0 < t < s.lastActivity && t <= I64_MAX
    ensures Step(s, Open(t)).1.Ok?
    ensures Step(s, Open(t)).0.daily == s.daily
    ensures Accounted(Step(s, Open(t)).0, log + [Opened(t)])
  {
    StepKeepsAccountIff(s, log, Open(t));
  }

  /** Nothing still open reaches back before `t`. */
  ghost predicate SettledBefore(s: State, t: nat) {
    && WellFormed(s)
    && s.lastActivity >= t
    && (s.activeSince.Some? ==> s.activeSince.value >= t)
  }

  lemma CheckpointSettles(s: State, t: nat)
    requires WellFormed(s) && Step(s, Checkpoint(t)).1.Ok?
    ensures SettledBefore(Step(s, Checkpoint(t)).0, t)
  {
  }

  /** Every call, refused or not, other than an open before `t`. */
  lemma StepKeepsSettledDays(s: State, call: Call, t: nat, day: nat)
    requires SettledBefore(s, t) && day < t / MILLIS_PER_DAY
    requires call.Open? ==> call.time >= t
    ensures SettledBefore(Step(s, call).0, t)
    ensures ActiveMs(Step(s, call).0.daily, day) == ActiveMs(s.daily, day)
  {
    if EventOf(call).None? {
      CounterKeepsActiveMs(s, call, day);
    } else if ClosesInterval(s, call) && call.time >= s.activeSince.value {
      LaterIntervalsMiss(s.daily, s.activeSince.value, call.time, t, day);
    }
  }

  /** An interval that starts after a day is over adds nothing to it. */
  lemma LaterIntervalsMiss(daily: Daily, start: nat, end: nat, t: nat, day: nat)
    requires 0 < start <= end && t <= start && day < t / MILLIS_PER_DAY
    ensures ActiveMs(SplitDays(daily, start, end).0, day) == ActiveMs(daily, day)
  {
    SplitDaysEffect(daily, start, end);
    assert (day + 1) * MILLIS_PER_DAY <= t;
  }

  ghost predicate OpensFrom(t: nat, calls: seq<Call>) {
    forall i :: 0 <= i < |calls| && calls[i].Open? ==> calls[i].time >= t
  }

  lemma {:induction false} RunKeepsSettledDays(s: State, log: seq<ActivityEvent>, calls: seq<Call>, t: nat, day: nat)
    requires SettledBefore(s, t) && day < t / MILLIS_PER_DAY && OpensFrom(t, calls)
    ensures ActiveMs(Run(s, log, calls).0.daily, day) == ActiveMs(s.daily, day)
    decreases |calls|
  {
    if calls != [] {
      StepKeepsSettledDays(s, calls[0], t, day);
      var (next, outcome) := Step(s, calls[0]);
      RunKeepsSettledDays(next, Extend(log, calls[0], outcome), calls[1..], t, day);
    }
  }

  /** After a successful checkpoint, a day before it has its final figure: its activity, and what was counted again. */
  lemma CheckpointMakesDaysFinal(s: State, log: seq<ActivityEvent>, t: nat, later: seq<Call>, day: nat)
    requires Accounted(s, log) && Step(s, Checkpoint(t)).1.Ok?
    requires day < t / MILLIS_PER_DAY && OpensFrom(t, later)
    ensures var settled := Step(s, Checkpoint(t)).0;
            && ActiveMs(settled.daily, day) == SeenOf(log + [Checkpointed(t)], day) + Added(s, log, Checkpoint(t), day)
            && (!Recounts(s, log, Checkpoint(t)) ==> Added(s, log, Checkpoint(t), day) == 0)
            && ActiveMs(Run(settled, log, later).0.daily, day) == ActiveMs(settled.daily, day)
  {
    var call := Checkpoint(t);
    CheckpointSettles(s, t);
    StepExcess(s, log, call, day);
    EventEffect(s, call, day);
    assert Excess(s, log, day) == 0;
    if AcceptedWhileActive(s, call) {
      AddsIffRecounts(s, log, call);
    }
    RunKeepsSettledDays(Step(s, call).0, log, later, t, day);
  }

  // ---- why the three conditions are there ----

  /** A clock set back before a reopen counts the same milliseconds twice. */
  lemma EarlierReopenCountsTwice()
    ensures var once := [Open(1), SetActive(1, true), SetActive(100, false)];
            var (end, log) := Run(FRESH, [], once + once);
            ActiveMs(end.daily, 0) == 198 && SeenOf(log, 0) == 99
  {
    var once := [Open(1), SetActive(1, true), SetActive(100, false)];
    var calls := once + once;
    var s1 := State(map[], 0, None, 1, None);
    var s2 := State(map[], 1, Some(1), 1, None);
    var s3 := State(map[0 := EMPTY_DAY.(activeMs := 99)], 0, None, 100, None);
    var s4 := s3.(lastActivity := 1);
    var s5 := s4.(activeAccounts := 1, activeSince := Some(1));
    var s6 := State(map[0 := EMPTY_DAY.(activeMs := 198)], 0, None, 100, None);
    assert Step(FRESH, Open(1)) == (s1, Ok(()));
    assert Step(s1, SetActive(1, true)) == (s2, Ok(()));
    assert SplitDays(map[], 1, 100) == (s3.daily, Ok(())) by {
      assert UtcDay(1) == Ok(0) && Credit(map[], 0, 99) == s3.daily;
      assert SplitDays(s3.daily, 100, 100) == (s3.daily, Ok(()));
    }
    assert Step(s2, SetActive(100, false)) == (s3, Ok(()));
    assert Step(s3, Open(1)) == (s4, Ok(()));
    assert Step(s4, SetActive(1, true)) == (s5, Ok(()));
    assert SplitDays(s3.daily, 1, 100) == (s6.daily, Ok(())) by {
      assert UtcDay(1) == Ok(0) && Credit(s3.daily, 0, 99) == s6.daily;
      assert SplitDays(s6.daily, 100, 100) == (s6.daily, Ok(()));
    }
    assert Step(s5, SetActive(100, false)) == (s6, Ok(()));
    var l1 := [Opened(1)];
    var l2 := l1 + [Joined(1)];
    var l3 := l2 + [Left(100)];
    var l4 := l3 + [Opened(1)];
    var l5 := l4 + [Joined(1)];
    var l6 := l5 + [Left(100)];
    calc {
      Run(FRESH, [], calls);
      { assert calls[0] == Open(1); assert [] + [Opened(1)] == l1; }
      Run(s1, l1, calls[1..]);
      { assert calls[1..][0] == SetActive(1, true); assert calls[1..][1..] == calls[2..]; }
      Run(s2, l2, calls[2..]);
      { assert calls[2..][0] == SetActive(100, false); assert calls[2..][1..] == calls[3..]; }
      Run(s3, l3, calls[3..]);
      { assert calls[3..][0] == Open(1); assert calls[3..][1..] == calls[4..]; }
      Run(s4, l4, calls[4..]);
      { assert calls[4..][0] == SetActive(1, true); assert calls[4..][1..] == calls[5..]; }
      Run(s5, l5, calls[5..]);
      { assert calls[5..][0] == SetActive(100, false); assert calls[5..][1..] == []; }
      Run(s6, l6, []);
      (s6, l6);
    }
    SeenTwice(l1, l2, l3, l4, l5, l6);
  }

  lemma SeenTwice(
    l1: seq<ActivityEvent>, l2: seq<ActivityEvent>, l3: seq<ActivityEvent>,
    l4: seq<ActivityEvent>, l5: seq<ActivityEvent>, l6: seq<ActivityEvent>)
    requires l1 == [Opened(1)] && l2 == l1 + [Joined(1)] && l3 == l2 + [Left(100)]
    requires l4 == l3 + [Opened(1)] && l5 == l4 + [Joined(1)] && l6 == l5 + [Left(100)]
    ensures SeenOf(l6, 0) == 99
  {
    CountAfter([], Opened(1));
    CountAfter(l1, Joined(1));
    CountAfter(l2, Left(100));
    CountAfter(l3, Opened(1));
    CountAfter(l4, Joined(1));
    forall x: nat ensures Seen(l6, x) <==> 1 <= x < 100 {
      EventIsSeen(l1, Joined(1), x);
      EventIsSeen(l2, Left(100), x);
      EventIsSeen(l3, Opened(1), x);
      EventIsSeen(l4, Joined(1), x);
      EventIsSeen(l5, Left(100), x);
    }
    SeenExactly(l6, 1, 100, 0, MILLIS_PER_DAY);
  }

  /** A reopen inside an active stretch loses what came after its time. */
  lemma EarlierReopenLosesTime()
    ensures var (end, log) := Run(FRESH, [], [Open(1), SetActive(1, true), SetActive(1000, true), Open(500)]);
            ActiveMs(end.daily, 0) + OpenPart(end, 0) == 499 && SeenOf(log, 0) == 999
  {
    var calls := [Open(1), SetActive(1, true), SetActive(1000, true), Open(500)];
    var s1 := State(map[], 0, None, 1, None);
    var s2 := State(map[], 1, Some(1), 1, None);
    var s3 := State(map[], 2, Some(1), 1000, None);
    var s4 := State(map[0 := EMPTY_DAY.(activeMs := 499)], 0, None, 500, None);
    assert Step(FRESH, Open(1)) == (s1, Ok(()));
    assert Step(s1, SetActive(1, true)) == (s2, Ok(()));
    assert Step(s2, SetActive(1000, true)) == (s3, Ok(()));
    assert SplitDays(map[], 1, 500) == (s4.daily, Ok(())) by {
      assert UtcDay(1) == Ok(0) && Credit(map[], 0, 499) == s4.daily;
      assert SplitDays(s4.daily, 500, 500) == (s4.daily, Ok(()));
    }
    assert Step(s3, Open(500)) == (s4, Ok(()));
    var l1 := [Opened(1)];
    var l2 := l1 + [Joined(1)];
    var l3 := l2 + [Joined(1000)];
    var l4 := l3 + [Opened(500)];
    calc {
      Run(FRESH, [], calls);
      { assert calls[0] == Open(1); assert [] + [Opened(1)] == l1; }
      Run(s1, l1, calls[1..]);
      { assert calls[1..][0] == SetActive(1, true); assert calls[1..][1..] == calls[2..]; }
      Run(s2, l2, calls[2..]);
      { assert calls[2..][0] == SetActive(1000, true); assert calls[2..][1..] == calls[3..]; }
      Run(s3, l3, calls[3..]);
      { assert calls[3..][0] == Open(500); assert calls[3..][1..] == []; }
      Run(s4, l4, []);
      (s4, l4);
    }
    CountAfter([], Opened(1));
    CountAfter(l1, Joined(1));
    CountAfter(l2, Joined(1000));
    forall x: nat ensures Seen(l4, x) <==> 1 <= x < 1000 {
      EventIsSeen(l1, Joined(1), x);
      EventIsSeen(l2, Joined(1000), x);
      EventIsSeen(l3, Opened(500), x);
    }
    SeenExactly(l4, 1, 1000, 0, MILLIS_PER_DAY);
  }

  /** A refused overrun credits the last tracked millisecond again on every retry. */
  lemma RetriedOverrunCountsAgain(s: State)
    requires WellFormed(s) && s.activeAccounts > 0 && s.activeSince == Some(FIRST_UNTRACKED - 1)
    requires s.lastActivity <= FIRST_UNTRACKED + 1
    ensures var call := Checkpoint(FIRST_UNTRACKED + 1);
            var (once, first) := Step(s, call);
            var (twice, second) := Step(once, call);
            && first.Err? && second.Err?
            && ActiveMs(once.daily, U32_MAX) == ActiveMs(s.daily, U32_MAX) + 1
            && ActiveMs(twice.daily, U32_MAX) == ActiveMs(s.daily, U32_MAX) + 2
  {
    SplitDaysEffect(s.daily, FIRST_UNTRACKED - 1, FIRST_UNTRACKED + 1);
    var once := Step(s, Checkpoint(FIRST_UNTRACKED + 1)).0;
    SplitDaysEffect(once.daily, FIRST_UNTRACKED - 1, FIRST_UNTRACKED + 1);
  }
}
