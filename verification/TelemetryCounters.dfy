/** The counters of a day against the calls that the store accepted, over every run. */
module TelemetryCounters {
  import opened Wrappers
  import opened Bytes
  import opened ActivityDays
  import opened TelemetryStore
  import opened TelemetryAccounting

  /** The accepted calls of a run, in order. */
  function Accepted(s: State, calls: seq<Call>): seq<Call>
    decreases |calls|
  {
    if calls == [] then []
    else
      var (next, outcome) := Step(s, calls[0]);
      (if outcome.Ok? then [calls[0]] else []) + Accepted(next, calls[1..])
  }

  /** The accepted calls that are about something that happened on `day`. */
  predicate IsOn(call: Call, day: nat) {
    match call
    case Received(t) => t / MILLIS_PER_DAY == day
    case Sent(t) => t / MILLIS_PER_DAY == day
    case GroupCount(t, _) => t / MILLIS_PER_DAY == day
    case AccountSet(t, _) => t / MILLIS_PER_DAY == day
    case _ => false
  }

  function ReceivedOn(log: seq<Call>, day: nat): nat {
    if log == [] then 0
    else
      var last := log[|log| - 1];
      ReceivedOn(log[..|log| - 1], day) + (if last.Received? && IsOn(last, day) then 1 else 0)
  }

  function SentOn(log: seq<Call>, day: nat): nat {
    if log == [] then 0
    else
      var last := log[|log| - 1];
      SentOn(log[..|log| - 1], day) + (if last.Sent? && IsOn(last, day) then 1 else 0)
  }

  /** The largest group count seen on a day. */
  ghost predicate IsLargestGroupCount(log: seq<Call>, day: nat, count: nat) {
    && (forall i :: 0 <= i < |log| && log[i].GroupCount? && IsOn(log[i], day) ==> log[i].count <= count)
    && (count > 0 ==> exists i :: 0 <= i < |log| && log[i].GroupCount? && IsOn(log[i], day) && log[i].count == count)
  }

  /** The account set reported last, on whatever day. */
  function LastSet(log: seq<Call>): Option<seq<byte>> {
    if log == [] then None
    else
      var last := log[|log| - 1];
      if last.AccountSet? then Some(last.digest) else LastSet(log[..|log| - 1])
  }

  /** How often on a day the account set was reported different from before. */
  function ChangesOn(log: seq<Call>, day: nat): nat {
    if log == [] then 0
    else
      var front, last := log[..|log| - 1], log[|log| - 1];
      var changed := last.AccountSet? && IsOn(last, day) && LastSet(front).Some? && LastSet(front).value != last.digest;
      ChangesOn(front, day) + (if changed then 1 else 0)
  }

  /** The time a day was first marked as sent. */
  function FirstMark(log: seq<Call>, day: nat): Option<nat> {
    if log == [] then None
    else
      var front, last := log[..|log| - 1], log[|log| - 1];
      var before := FirstMark(front, day);
      if before.None? && last.MarkSent? && last.day == day then Some(last.time) else before
  }

  function RowOf(daily: Daily, day: nat): Day {
    if day in daily then daily[day] else EMPTY_DAY
  }

  predicate Touched(log: seq<Call>, day: nat) {
    exists i :: 0 <= i < |log| && IsOn(log[i], day)
  }

  /** A day's counters say what the accepted calls about it were. */
  ghost predicate Counts(s: State, log: seq<Call>, day: nat) {
    var row := RowOf(s.daily, day);
    && row.received == ReceivedOn(log, day)
    && row.sent == SentOn(log, day)
    && IsLargestGroupCount(log, day, row.groupCount)
    && row.churn == ChangesOn(log, day)
    && row.sentAt == FirstMark(log, day)
    && (day in s.daily <==> row.activeMs > 0 || Touched(log, day))
  }

  ghost predicate AllCounted(s: State, log: seq<Call>) {
    s.accountSet == LastSet(log) && forall day: nat :: Counts(s, log, day)
  }

  // ---- what leaves the counters alone ----

  /** Equal but for the active milliseconds, which only grow; a row that appears has some. */
  ghost predicate OnlyActivity(before: Daily, after: Daily, day: nat) {
    && RowOf(after, day) == RowOf(before, day).(activeMs := RowOf(after, day).activeMs)
    && RowOf(before, day).activeMs <= RowOf(after, day).activeMs
    && (day in before ==> day in after)
    && (day in after && day !in before ==> RowOf(after, day).activeMs > 0)
  }

  lemma {:induction false} SplitOnlyActivity(daily: Daily, cursor: nat, ended: nat, day: nat)
    ensures OnlyActivity(daily, SplitDays(daily, cursor, ended).0, day)
    decreases ended - cursor
  {
    if cursor < ended && UtcDay(cursor).Ok? {
      var today := UtcDay(cursor).value;
      var boundary := Min(ended, (today + 1) * MILLIS_PER_DAY);
      assert cursor < boundary;
      SplitOnlyActivity(Credit(daily, today, boundary - cursor), boundary, ended, day);
    }
  }

  lemma ActivityOnlyActivity(s: State, call: Call, day: nat)
    requires EventOf(call).Some?
    ensures OnlyActivity(s.daily, Step(s, call).0.daily, day) && Step(s, call).0.accountSet == s.accountSet
  {
    if s.activeSince.Some? {
      SplitOnlyActivity(s.daily, s.activeSince.value, call.time, day);
    }
  }

  // ---- one call ----

  lemma CountsKept(s: State, next: State, log: seq<Call>, day: nat)
    requires Counts(s, log, day) && OnlyActivity(s.daily, next.daily, day)
    ensures Counts(next, log, day)
  {
  }

  /** One more accepted call, as the log's own counts have it. */
  lemma LogStep(log: seq<Call>, call: Call, day: nat)
    ensures var after := log + [call];
            && ReceivedOn(after, day) == ReceivedOn(log, day) + (if call.Received? && IsOn(call, day) then 1 else 0)
            && SentOn(after, day) == SentOn(log, day) + (if call.Sent? && IsOn(call, day) then 1 else 0)
            && FirstMark(after, day)
               == (if FirstMark(log, day).None? && call.MarkSent? && call.day == day then Some(call.time)
                   else FirstMark(log, day))
            && LastSet(after) == (if call.AccountSet? then Some(call.digest) else LastSet(log))
            && ChangesOn(after, day)
               == ChangesOn(log, day)
                  + (if call.AccountSet? && IsOn(call, day) && LastSet(log).Some? && LastSet(log).value != call.digest
                     then 1 else 0)
  {
    assert (log + [call])[..|log|] == log;
  }

  lemma LargestStep(log: seq<Call>, call: Call, day: nat, count: nat)
    requires IsLargestGroupCount(log, day, count)
    ensures IsLargestGroupCount(
      log + [call], day, if call.GroupCount? && IsOn(call, day) then Max(count, call.count) else count)
  {
    var after := log + [call];
    assert after[|log|] == call && forall i :: 0 <= i < |log| ==> after[i] == log[i];
    if count > 0 {
      var i :| 0 <= i < |log| && log[i].GroupCount? && IsOn(log[i], day) && log[i].count == count;
      assert after[i].GroupCount? && IsOn(after[i], day) && after[i].count == count;
    }
  }

  lemma TouchedStep(log: seq<Call>, call: Call, day: nat)
    ensures Touched(log + [call], day) <==> Touched(log, day) || IsOn(call, day)
  {
    var after := log + [call];
    assert after[|log|] == call && forall i :: 0 <= i < |log| ==> after[i] == log[i];
    if i :| 0 <= i < |log| && IsOn(log[i], day) {
      assert IsOn(after[i], day);
    }
  }

  /** An accepted call that is not about the day's counters. */
  lemma CountsKeptBy(s: State, log: seq<Call>, call: Call, day: nat)
    requires Counts(s, log, day) && !IsOn(call, day) && !(call.MarkSent? && call.day == day)
    ensures Counts(s, log + [call], day)
  {
    LogStep(log, call, day);
    LargestStep(log, call, day, RowOf(s.daily, day).groupCount);
    TouchedStep(log, call, day);
  }

  lemma CountsStepOn(s: State, log: seq<Call>, call: Call, day: nat)
    requires Counts(s, log, day) && s.accountSet == LastSet(log) && Step(s, call).1.Ok?
    requires IsOn(call, day) || (call.MarkSent? && call.day == day)
    ensures Counts(Step(s, call).0, log + [call], day)
  {
    LogStep(log, call, day);
    LargestStep(log, call, day, RowOf(s.daily, day).groupCount);
    TouchedStep(log, call, day);
  }

  lemma CountsStep(s: State, log: seq<Call>, call: Call, day: nat)
    requires Counts(s, log, day) && s.accountSet == LastSet(log)
    ensures var (next, outcome) := Step(s, call);
            Counts(next, if outcome.Ok? then log + [call] else log, day)
  {
    var (next, outcome) := Step(s, call);
    if EventOf(call).Some? {
      ActivityOnlyActivity(s, call, day);
      CountsKept(s, next, log, day);
      CountsKeptBy(next, log, call, day);
    } else if outcome.Ok? {
      if IsOn(call, day) || (call.MarkSent? && call.day == day) {
        CountsStepOn(s, log, call, day);
      } else {
        CountsKept(s, next, log, day);
        CountsKeptBy(next, log, call, day);
      }
    }
  }

  lemma SetStep(s: State, log: seq<Call>, call: Call)
    requires s.accountSet == LastSet(log)
    ensures var (next, outcome) := Step(s, call);
            next.accountSet == LastSet(if outcome.Ok? then log + [call] else log)
  {
    LogStep(log, call, 0);
    if EventOf(call).Some? {
      ActivityOnlyActivity(s, call, 0);
    }
  }

  lemma AllCountedStep(s: State, log: seq<Call>, call: Call)
    requires AllCounted(s, log)
    ensures var (next, outcome) := Step(s, call);
            AllCounted(next, if outcome.Ok? then log + [call] else log)
  {
    var (next, outcome) := Step(s, call);
    var after := if outcome.Ok? then log + [call] else log;
    SetStep(s, log, call);
    forall day: nat ensures Counts(next, after, day) {
      CountsStep(s, log, call, day);
    }
  }

  // ---- whole runs ----

  lemma {:induction false} RunCounts(s: State, events: seq<ActivityEvent>, log: seq<Call>, calls: seq<Call>)
    requires AllCounted(s, log)
    ensures AllCounted(Run(s, events, calls).0, log + Accepted(s, calls))
    decreases |calls|
  {
    if calls == [] {
      assert log + [] == log;
    } else {
      var (next, outcome) := Step(s, calls[0]);
      var after := if outcome.Ok? then log + [calls[0]] else log;
      AllCountedStep(s, log, calls[0]);
      RunCounts(next, Extend(events, calls[0], outcome), after, calls[1..]);
      assert after + Accepted(next, calls[1..]) == log + Accepted(s, calls);
    }
  }

  /**
   * In every run from a fresh store, each day's counters are the accepted calls about it: messages received and
   * sent, the largest group count, the changes of the account set, and when it was first marked as sent.
   */
  lemma EveryRunCountsItsCalls(calls: seq<Call>, day: nat)
    ensures Counts(Run(FRESH, [], calls).0, Accepted(FRESH, calls), day)
    ensures Run(FRESH, [], calls).0.accountSet == LastSet(Accepted(FRESH, calls))
  {
    RunCounts(FRESH, [], [], calls);
    assert [] + Accepted(FRESH, calls) == Accepted(FRESH, calls);
  }
}
