/** The installation-wide collector of daily activity, with its two tables held as values. */
module TelemetryStore {
  import opened Wrappers
  import opened Bytes
  import opened ActivityDays
  import Extremes

  datatype TelemetryError = InvalidInput | Persistence

  /** One row of the daily table. */
  datatype Day = Day(groupCount: nat, received: nat, sent: nat, activeMs: nat, churn: nat, sentAt: Option<nat>)

  type Daily = map<nat, Day>

  const EMPTY_DAY := Day(0, 0, 0, 0, 0, None)
  /** The first millisecond whose day number no longer fits the table's 32-bit key. */
  const FIRST_UNTRACKED: nat := (U32_MAX + 1) * MILLIS_PER_DAY

  /** The daily table and the singleton runtime row. */
  datatype State = State(
    daily: Daily,
    activeAccounts: nat,
    activeSince: Option<nat>,
    lastActivity: nat,
    accountSet: Option<seq<byte>>)

  const FRESH := State(map[], 0, None, 0, None)

  function UtcDay(t: nat): Result<nat, TelemetryError> {
    if t == 0 || t / MILLIS_PER_DAY > U32_MAX then Err(InvalidInput) else Ok(t / MILLIS_PER_DAY)
  }

  function ActiveMs(daily: Daily, day: nat): nat {
    if day in daily then daily[day].activeMs else 0
  }

  /** `INSERT OR IGNORE` of an empty row. */
  function EnsureDay(daily: Daily, day: nat): Daily {
    if day in daily then daily else daily[day := EMPTY_DAY]
  }

  function Credit(daily: Daily, day: nat, millis: nat): Daily {
    var d := EnsureDay(daily, day);
    d[day := d[day].(activeMs := d[day].activeMs + millis)]
  }

  /** The day-splitting loop from `cursor` on; a failure keeps the credits already written. */
  function SplitDays(daily: Daily, cursor: nat, ended: nat): (Daily, Result<(), TelemetryError>)
    decreases ended - cursor
  {
    if cursor >= ended then (daily, Ok(()))
    else
      match UtcDay(cursor)
      case Err(e) => (daily, Err(e))
      case Ok(day) =>
        var boundary := Min(ended, (day + 1) * MILLIS_PER_DAY);
        SplitDays(Credit(daily, day, boundary - cursor), boundary, ended)
  }

  function AddInterval(daily: Daily, started: Option<nat>, ended: nat): (Daily, Result<(), TelemetryError>) {
    match started
    case None => (daily, Err(Persistence))
    case Some(start) => if ended < start then (daily, Err(InvalidInput)) else SplitDays(daily, start, ended)
  }

  /** Every mutating call of the store. */
  datatype Call =
    | Open(time: nat)
    | SetActive(time: nat, active: bool)
    | Checkpoint(time: nat)
    | Received(time: nat)
    | Sent(time: nat)
    | GroupCount(time: nat, count: nat)
    | AccountSet(time: nat, digest: seq<byte>)
    | MarkSent(day: nat, time: nat)

  type Outcome = Result<(), TelemetryError>

  function OpenCall(s: State, t: nat): (State, Outcome) {
    if t == 0 then (s, Err(InvalidInput))
    else
      var (daily, added) := if s.activeAccounts > 0 then AddInterval(s.daily, s.activeSince, t) else (s.daily, Ok(()));
      if added.Err? then (s.(daily := daily), added)
      else if t > I64_MAX then (s.(daily := daily), Err(InvalidInput))
      else (s.(daily := daily, activeAccounts := 0, activeSince := None, lastActivity := t), Ok(()))
  }

  function SetActiveCall(s: State, t: nat, active: bool): (State, Outcome) {
    if t == 0 || t < s.lastActivity then (s, Err(InvalidInput))
    else if active && s.activeAccounts >= U64_MAX then (s, Err(InvalidInput))
    else if !active && s.activeAccounts == 0 then (s, Err(InvalidInput))
    else
      var next := if active then s.activeAccounts + 1 else s.activeAccounts - 1;
      var (daily, added) := if !active && next == 0 then AddInterval(s.daily, s.activeSince, t) else (s.daily, Ok(()));
      var since :=
        if active && s.activeAccounts == 0 then Some(t) else if next == 0 then None else s.activeSince;
      if added.Err? then (s.(daily := daily), added)
      else if next > I64_MAX || t > I64_MAX then (s.(daily := daily), Err(InvalidInput))
      else (s.(daily := daily, activeAccounts := next, activeSince := since, lastActivity := t), Ok(()))
  }

  function CheckpointCall(s: State, t: nat): (State, Outcome) {
    if t < s.lastActivity then (s, Err(InvalidInput))
    else
      var (daily, added) := if s.activeAccounts > 0 then AddInterval(s.daily, s.activeSince, t) else (s.daily, Ok(()));
      if added.Err? then (s.(daily := daily), added)
      else if t > I64_MAX then (s.(daily := daily), Err(InvalidInput))
      else
        (s.(daily := daily, activeSince := if s.activeAccounts > 0 then Some(t) else None, lastActivity := t), Ok(()))
  }

  datatype Counter = ReceivedOne | SentOne | GroupsAtLeast(count: nat) | ChurnOne | Untouched

  function Bump(row: Day, c: Counter): Day {
    match c
    case ReceivedOne => row.(received := row.received + 1)
    case SentOne => row.(sent := row.sent + 1)
    case GroupsAtLeast(count) => row.(groupCount := Max(row.groupCount, count))
    case ChurnOne => row.(churn := row.churn + 1)
    case Untouched => row
  }

  function CounterCall(s: State, t: nat, c: Counter): (State, Outcome) {
    match UtcDay(t)
    case Err(e) => (s, Err(e))
    case Ok(day) =>
      var d := EnsureDay(s.daily, day);
      (s.(daily := d[day := Bump(d[day], c)]), Ok(()))
  }

  function AccountSetCall(s: State, t: nat, digest: seq<byte>): (State, Outcome) {
    var changed := s.accountSet.Some? && s.accountSet.value != digest;
    var (after, done) := CounterCall(s, t, if changed then ChurnOne else Untouched);
    if done.Err? then (after, done) else (after.(accountSet := Some(digest)), done)
  }

  function MarkSentCall(s: State, day: nat, t: nat): (State, Outcome) {
    match UtcDay(t)
    case Err(e) => (s, Err(e))
    case Ok(today) =>
      if day >= today || t > I64_MAX || day !in s.daily then (s, Err(InvalidInput))
      else
        var row := s.daily[day];
        (s.(daily := s.daily[day := row.(sentAt := if row.sentAt.Some? then row.sentAt else Some(t))]), Ok(()))
  }

  function Step(s: State, call: Call): (State, Outcome) {
    match call
    case Open(t) => OpenCall(s, t)
    case SetActive(t, active) => SetActiveCall(s, t, active)
    case Checkpoint(t) => CheckpointCall(s, t)
    case Received(t) => CounterCall(s, t, ReceivedOne)
    case Sent(t) => CounterCall(s, t, SentOne)
    case GroupCount(t, count) =>
      if UtcDay(t).Ok? && count > I64_MAX then (s, Err(InvalidInput))
      else CounterCall(s, t, GroupsAtLeast(count))
    case AccountSet(t, digest) => AccountSetCall(s, t, digest)
    case MarkSent(day, t) => MarkSentCall(s, day, t)
  }

  // ---- what the split loop credits ----

  lemma CreditEffect(daily: Daily, day: nat, millis: nat, other: nat)
    ensures ActiveMs(Credit(daily, day, millis), other)
         == ActiveMs(daily, other) + (if other == day then millis else 0)
  {
  }

  /** The loop succeeds exactly up to the last tracked millisecond, and then credits each day its overlap. */
  lemma {:induction false} SplitDaysEffect(daily: Daily, cursor: nat, ended: nat)
    requires 0 < cursor <= ended
    ensures SplitDays(daily, cursor, ended).1.Ok? <==> cursor == ended || ended <= FIRST_UNTRACKED
    ensures forall day: nat ::
      ActiveMs(SplitDays(daily, cursor, ended).0, day)
      == ActiveMs(daily, day) + Overlap(day, cursor, Max(cursor, Min(ended, FIRST_UNTRACKED)))
    ensures cursor >= FIRST_UNTRACKED ==> SplitDays(daily, cursor, ended).0 == daily
    ensures forall day :: day in daily ==> day in SplitDays(daily, cursor, ended).0
    decreases ended - cursor
  {
    if cursor < ended && UtcDay(cursor).Ok? {
      var day := UtcDay(cursor).value;
      var boundary := Min(ended, (day + 1) * MILLIS_PER_DAY);
      assert cursor < boundary;
      var credited := Credit(daily, day, boundary - cursor);
      SplitDaysEffect(credited, boundary, ended);
      var stop := Max(cursor, Min(ended, FIRST_UNTRACKED));
      assert boundary <= stop == Max(boundary, Min(ended, FIRST_UNTRACKED));
      forall other: nat
        ensures ActiveMs(SplitDays(daily, cursor, ended).0, other)
             == ActiveMs(daily, other) + Overlap(other, cursor, stop)
      {
        CreditEffect(daily, day, boundary - cursor, other);
        OverlapSplit(other, cursor, boundary, stop);
        OneDay(other, day, cursor, boundary);
      }
    }
  }

  lemma OneDay(other: nat, day: nat, start: nat, end: nat)
    requires day * MILLIS_PER_DAY <= start <= end <= (day + 1) * MILLIS_PER_DAY
    ensures Overlap(other, start, end) == if other == day then end - start else 0
  {
    if other < day {
      assert (other + 1) * MILLIS_PER_DAY <= day * MILLIS_PER_DAY;
    } else if day < other {
      assert (day + 1) * MILLIS_PER_DAY <= other * MILLIS_PER_DAY;
    }
  }

  /** The single writer: the tables as fields, each call tied to the function of the same state. */
  class CommunityTelemetryStore {
    var daily: Daily
    var activeAccounts: nat
    var activeSince: Option<nat>
    var lastActivity: nat
    var accountSet: Option<seq<byte>>

    function View(): State
      reads this
    {
      State(daily, activeAccounts, activeSince, lastActivity, accountSet)
    }

    /** A store over existing tables; `Reopen` is the rest of opening it. */
    constructor (tables: State)
      ensures View() == tables
    {
      daily := tables.daily;
      activeAccounts := tables.activeAccounts;
      activeSince := tables.activeSince;
      lastActivity := tables.lastActivity;
      accountSet := tables.accountSet;
    }

    method AddActiveInterval(started: Option<nat>, ended: nat) returns (r: Outcome)
      modifies this`daily
      ensures (daily, r) == AddInterval(old(daily), started, ended)
    {
      if started.None? {
        return Err(Persistence);
      }
      var start := started.value;
      if ended < start {
        return Err(InvalidInput);
      }
      var cursor := start;
      while cursor < ended
        invariant start <= cursor <= ended
        invariant SplitDays(daily, cursor, ended) == SplitDays(old(daily), start, ended)
      {
        var day := UtcDay(cursor);
        if day.Err? {
          return Err(day.error);
        }
        var nextDay := (day.value + 1) * MILLIS_PER_DAY;
        var boundary := if ended < nextDay then ended else nextDay;
        daily := EnsureDay(daily, day.value);
        daily := daily[day.value := daily[day.value].(activeMs := daily[day.value].activeMs + (boundary - cursor))];
        cursor := boundary;
      }
      r := Ok(());
    }

    method Reopen(openedAt: nat) returns (r: Outcome)
      modifies this
      ensures (View(), r) == Step(old(View()), Open(openedAt))
    {
      if openedAt == 0 {
        return Err(InvalidInput);
      }
      if activeAccounts > 0 {
        r := AddActiveInterval(activeSince, openedAt);
        if r.Err? {
          return;
        }
      }
      if openedAt > I64_MAX {
        return Err(InvalidInput);
      }
      activeAccounts, activeSince, lastActivity := 0, None, openedAt;
      r := Ok(());
    }

    method SetAccountActive(occurredAt: nat, active: bool) returns (r: Outcome)
      modifies this
      ensures (View(), r) == Step(old(View()), SetActive(occurredAt, active))
    {
      if occurredAt == 0 || occurredAt < lastActivity {
        return Err(InvalidInput);
      }
      if if active then activeAccounts >= U64_MAX else activeAccounts == 0 {
        return Err(InvalidInput);
      }
      var next := if active then activeAccounts + 1 else activeAccounts - 1;
      if !active && next == 0 {
        r := AddActiveInterval(activeSince, occurredAt);
        if r.Err? {
          return;
        }
      }
      var since :=
        if active && activeAccounts == 0 then Some(occurredAt) else if next == 0 then None else activeSince;
      if next > I64_MAX || occurredAt > I64_MAX {
        return Err(InvalidInput);
      }
      activeAccounts, activeSince, lastActivity := next, since, occurredAt;
      r := Ok(());
    }

    method CheckpointActivity(occurredAt: nat) returns (r: Outcome)
      modifies this
      ensures (View(), r) == Step(old(View()), Checkpoint(occurredAt))
    {
      if occurredAt < lastActivity {
        return Err(InvalidInput);
      }
      if activeAccounts > 0 {
        r := AddActiveInterval(activeSince, occurredAt);
        if r.Err? {
          return;
        }
      }
      if occurredAt > I64_MAX {
        return Err(InvalidInput);
      }
      activeSince := if activeAccounts > 0 then Some(occurredAt) else None;
      lastActivity := occurredAt;
      r := Ok(());
    }

    /** The oldest unsent completed day, or none when every completed day is sent. */
    method OldestPending(now: nat) returns (r: Result<Option<nat>, TelemetryError>)
      ensures r.Err? <==> UtcDay(now).Err?
      ensures r.Ok? && r.value.Some? ==> IsOldestPending(daily, now / MILLIS_PER_DAY, r.value.value)
      ensures r.Ok? && r.value.None? ==> forall day :: !Pending(daily, now / MILLIS_PER_DAY, day)
    {
      var today := UtcDay(now);
      if today.Err? {
        return Err(today.error);
      }
      var pending := set day | day in daily && Pending(daily, today.value, day);
      if pending == {} {
        assert forall day :: Pending(daily, today.value, day) ==> day in pending;
        return Ok(None);
      }
      ghost var first := Extremes.FirstOf<nat>(pending, (a: nat, b: nat) => a < b);
      assert forall day :: day in pending ==> first <= day;
      var oldest :| oldest in pending && forall day :: day in pending ==> oldest <= day;
      assert forall day :: Pending(daily, today.value, day) ==> day in pending;
      r := Ok(Some(oldest));
    }

    method MarkDaySent(day: nat, acceptedAt: nat) returns (r: Outcome)
      modifies this`daily
      ensures (View(), r) == Step(old(View()), MarkSent(day, acceptedAt))
    {
      var today := UtcDay(acceptedAt);
      if today.Err? {
        return Err(today.error);
      }
      if day >= today.value || acceptedAt > I64_MAX || day !in daily {
        return Err(InvalidInput);
      }
      var row := daily[day];
      daily := daily[day := row.(sentAt := if row.sentAt.Some? then row.sentAt else Some(acceptedAt))];
      r := Ok(());
    }
  }

  predicate Pending(daily: Daily, today: nat, day: nat) {
    day in daily && daily[day].sentAt.None? && day < today
  }

  ghost predicate IsOldestPending(daily: Daily, today: nat, day: nat) {
    Pending(daily, today, day) && forall other :: Pending(daily, today, other) ==> day <= other
  }
}
