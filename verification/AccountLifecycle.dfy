/** The durable account lifecycle: one state row, an append-only log, and compare-and-set commits. */
module AccountLifecycle {
  import opened Wrappers
  import opened Bytes

  datatype Phase = Stopped | Starting | Active | ProtectiveOffline

  datatype Reason =
    | ProcessRestart | CeylithContinuity | GrantUnavailable
    | ProfileUnavailable | RemoteSessionEnded | WorkerFailure

  datatype Snapshot = Snapshot(phase: Phase, generation: u64, reason: Option<Reason>, updatedAtMs: u64)

  datatype Request = Request(next: Phase, reason: Option<Reason>, occurredAtMs: u64)

  datatype Receipt = Receipt(previous: Snapshot, current: Snapshot)

  datatype Entry = Entry(generation: u64, from: Phase, to: Phase, reason: Option<Reason>, occurredAtMs: u64)

  datatype Error = Configuration | Persistence | TransitionRejected

  predicate ValidReason(phase: Phase, reason: Option<Reason>) {
    phase == ProtectiveOffline <==> reason.Some?
  }

  predicate Allowed(previous: Phase, next: Phase) {
    match (previous, next)
    case (Stopped, Starting) | (ProtectiveOffline, Starting) => true
    case (Starting, Active) | (Starting, Stopped) | (Starting, ProtectiveOffline) => true
    case (Active, Stopped) | (Active, ProtectiveOffline) => true
    case _ => false
  }

  predicate Interrupted(phase: Phase) {
    phase == Starting || phase == Active
  }

  /** What `transition` wants to store, given the snapshot it has read. */
  function Advance(previous: Snapshot, requested: Request): Result<Snapshot, Error> {
    if !ValidReason(requested.next, requested.reason) || requested.occurredAtMs < previous.updatedAtMs
       || !Allowed(previous.phase, requested.next) then
      Err(TransitionRejected)
    else if requested.next == Starting && previous.generation == U64_MAX then
      Err(TransitionRejected)
    else
      var generation := if requested.next == Starting then previous.generation + 1 else previous.generation;
      Ok(Snapshot(requested.next, generation, requested.reason, requested.occurredAtMs))
  }

  /** Every number fits SQLite's signed 64-bit integers. */
  predicate Storable(s: Snapshot) {
    s.generation <= I64_MAX && s.updatedAtMs <= I64_MAX
  }

  predicate SameKey(a: Snapshot, b: Snapshot) {
    a.phase == b.phase && a.generation == b.generation
  }

  function EntryFor(previous: Snapshot, current: Snapshot): Entry {
    Entry(current.generation, previous.phase, current.phase, current.reason, current.updatedAtMs)
  }

  /** `transition` on a row that nobody else changes in between. */
  function Transitioned(row: Snapshot, requested: Request): Result<Snapshot, Error> {
    match Advance(row, requested)
    case Err(e) => Err(e)
    case Ok(current) => if Storable(current) then Ok(current) else Err(Configuration)
  }

  function Recovery(row: Snapshot, atMs: u64): Request {
    Request(ProtectiveOffline, Some(ProcessRestart), if atMs > row.updatedAtMs then atMs else row.updatedAtMs)
  }

  /** From where a phase is entered: a start from rest, activity from a start, rest from a start or from activity. */
  predicate CanEnter(next: Phase, from: Phase) {
    match next
    case Starting => !Interrupted(from)
    case Active => from == Starting
    case Stopped => Interrupted(from)
    case ProtectiveOffline => Interrupted(from)
  }

  /** A transition is accepted exactly then, and stores what was asked for; a start opens the next generation. */
  lemma TransitionAcceptedIff(row: Snapshot, requested: Request)
    ensures var generation := if requested.next == Starting then row.generation + 1 else row.generation;
            && (Transitioned(row, requested).Ok? <==>
                  && CanEnter(requested.next, row.phase)
                  && (requested.reason.Some? <==> requested.next == ProtectiveOffline)
                  && row.updatedAtMs <= requested.occurredAtMs <= I64_MAX
                  && generation <= I64_MAX)
            && (Transitioned(row, requested).Ok? ==>
                  var stored := Transitioned(row, requested).value;
                  && stored.phase == requested.next && stored.generation == generation
                  && stored.reason == requested.reason && stored.updatedAtMs == requested.occurredAtMs)
  {
  }

  // ---- logs ----

  /** The state row a log leads to. */
  function RowOf(createdAtMs: u64, log: seq<Entry>): Snapshot {
    if log == [] then Snapshot(Stopped, 0, None, createdAtMs)
    else
      var last := log[|log| - 1];
      Snapshot(last.to, last.generation, last.reason, last.occurredAtMs)
  }

  predicate Extends(row: Snapshot, entry: Entry) {
    var requested := Request(entry.to, entry.reason, entry.occurredAtMs);
    && Transitioned(row, requested).Ok?
    && entry == EntryFor(row, Transitioned(row, requested).value)
  }

  /** Every entry is an accepted transition of the row before it. */
  ghost predicate WellFormed(createdAtMs: u64, log: seq<Entry>) {
    && createdAtMs <= I64_MAX
    && forall i :: 0 <= i < |log| ==> Extends(RowOf(createdAtMs, log[..i]), log[i])
  }

  lemma EmptyLog(createdAtMs: u64)
    requires createdAtMs <= I64_MAX
    ensures WellFormed(createdAtMs, [])
  {
  }

  lemma RowIsStorable(createdAtMs: u64, log: seq<Entry>)
    requires WellFormed(createdAtMs, log)
    ensures Storable(RowOf(createdAtMs, log))
    ensures ValidReason(RowOf(createdAtMs, log).phase, RowOf(createdAtMs, log).reason)
  {
    if log != [] {
      assert Extends(RowOf(createdAtMs, log[..|log| - 1]), log[|log| - 1]);
    }
  }

  lemma AppendKeepsForm(createdAtMs: u64, log: seq<Entry>, requested: Request)
    requires WellFormed(createdAtMs, log)
    requires Transitioned(RowOf(createdAtMs, log), requested).Ok?
    ensures var current := Transitioned(RowOf(createdAtMs, log), requested).value;
            var grown := log + [EntryFor(RowOf(createdAtMs, log), current)];
            WellFormed(createdAtMs, grown) && RowOf(createdAtMs, grown) == current
  {
    var row := RowOf(createdAtMs, log);
    var current := Transitioned(row, requested).value;
    var grown := log + [EntryFor(row, current)];
    forall i | 0 <= i < |grown| ensures Extends(RowOf(createdAtMs, grown[..i]), grown[i]) {
      assert grown[..i] == log[..i];
      assert log[..|log|] == log;
    }
  }

  // ---- the store ----

  /** One account database, as the table rows it holds. */
  class AccountStore {
    var row: Option<Snapshot>
    var log: seq<Entry>
    ghost var createdAtMs: u64

    /** Either no schema yet, or a well-formed log with its row. */
    ghost predicate Valid()
      reads this
    {
      match row
      case None => log == []
      case Some(snapshot) => WellFormed(createdAtMs, log) && snapshot == RowOf(createdAtMs, log)
    }

    constructor ()
      ensures Valid() && row.None?
    {
      row, log, createdAtMs := None, [], 0;
    }

    method Migrate(atMs: u64) returns (r: Result<(), Error>)
      requires Valid()
      modifies this
      ensures Valid()
      ensures old(row).Some? ==> r == Ok(()) && row == old(row) && log == old(log)
      ensures old(row).None? ==> (r == if atMs <= I64_MAX then Ok(()) else Err(Configuration))
      ensures old(row).None? && r.Ok? ==> row == Some(Snapshot(Stopped, 0, None, atMs)) && log == []
      ensures r.Err? ==> row == old(row) && log == old(log)
    {
      if row.Some? {
        return Ok(());
      }
      if atMs > I64_MAX {
        return Err(Configuration);
      }
      row, createdAtMs := Some(Snapshot(Stopped, 0, None, atMs)), atMs;
      EmptyLog(atMs);
      r := Ok(());
    }

    method ReadSnapshot() returns (r: Result<Snapshot, Error>)
      requires Valid()
      ensures r == match row case None => Err(Persistence) case Some(s) => Ok(s)
    {
      if row.None? {
        return Err(Persistence);
      }
      RowIsStorable(createdAtMs, log);
      if !ValidReason(row.value.phase, row.value.reason) {
        return Err(Configuration);
      }
      r := Ok(row.value);
    }

    /** The compare-and-set: the row changes only if its phase and generation are the ones that were read. */
    method CommitTransition(previous: Snapshot, current: Snapshot) returns (r: Result<(), Error>)
      modifies this`row, this`log
      ensures old(Valid() && row.Some?) ==>
        forall requested {:trigger Advance(previous, requested)} :: Advance(previous, requested) == Ok(current) ==>
          log == Compare(createdAtMs, old(log), previous, requested)
      ensures r.Ok? <==>
        Storable(current) && previous.generation <= I64_MAX && old(row).Some? && SameKey(old(row).value, previous)
      ensures r.Ok? ==> row == Some(current) && log == old(log) + [EntryFor(previous, current)]
      ensures r.Err? ==> row == old(row) && log == old(log)
      ensures r.Err? ==>
        r.error == if Storable(current) && previous.generation <= I64_MAX then Persistence else Configuration
    {
      if Valid() && row.Some? {
        RowIsStorable(createdAtMs, log);
      }
      if !Storable(current) || previous.generation > I64_MAX {
        return Err(Configuration);
      }
      var updated := if row.Some? && SameKey(row.value, previous) then 1 else 0;
      if updated != 1 {
        return Err(Persistence);
      }
      row := Some(current);
      log := log + [EntryFor(previous, current)];
      r := Ok(());
    }

    method Transition(requested: Request) returns (r: Result<Receipt, Error>)
      requires Valid()
      modifies this`row, this`log
      ensures Valid()
      ensures old(row).None? ==> r == Err(Persistence) && row == old(row) && log == old(log)
      ensures old(row).Some? ==>
              var next := Transitioned(old(row).value, requested);
              && (r.Ok? <==> next.Ok?)
              && (r.Ok? ==> r.value == Receipt(old(row).value, next.value) && row == Some(next.value)
                            && log == old(log) + [EntryFor(old(row).value, next.value)])
              && (r.Err? ==> r.error == next.error && row == old(row) && log == old(log))
      ensures old(row).Some? ==> log == Apply(createdAtMs, old(log), Attempt(|old(log)|, requested))
    {
      var previous :- ReadSnapshot();
      RowIsStorable(createdAtMs, log);
      assert log[..|log|] == log;
      var current :- Advance(previous, requested);
      if Storable(current) {
        AppendKeepsForm(createdAtMs, log, requested);
      }
      var _ :- CommitTransition(previous, current);
      r := Ok(Receipt(previous, current));
    }

    method RecoverInterrupted(atMs: u64) returns (r: Result<(), Error>)
      requires Valid()
      modifies this`row, this`log
      ensures Valid()
      ensures old(row).None? ==> r == Err(Persistence) && row == old(row) && log == old(log)
      ensures old(row).Some? && !Interrupted(old(row).value.phase) ==> r == Ok(()) && row == old(row) && log == old(log)
      ensures old(row).Some? && Interrupted(old(row).value.phase) && atMs > I64_MAX ==>
        r == Err(Configuration) && row == old(row) && log == old(log)
      ensures old(row).Some? && Interrupted(old(row).value.phase) && atMs <= I64_MAX ==>
        && r == Ok(()) && |log| == |old(log)| + 1 && log[..|old(log)|] == old(log)
        && row.value.phase == ProtectiveOffline && row.value.reason == Some(ProcessRestart)
        && row.value.generation == old(row).value.generation
        && row.value.updatedAtMs == Recovery(old(row).value, atMs).occurredAtMs
      ensures old(row).Some? ==> log == Apply(createdAtMs, old(log), Recover(|old(log)|, atMs))
    {
      var snapshot :- ReadSnapshot();
      RowIsStorable(createdAtMs, log);
      assert log[..|log|] == log;
      if Interrupted(snapshot.phase) {
        var _ :- Transition(Recovery(snapshot, atMs));
      }
      r := Ok(());
    }

    /** Opening, for the first time or again: it fails only for a time that has to be stored and does not fit. */
    method Open(atMs: u64) returns (r: Result<(), Error>)
      requires Valid()
      modifies this
      ensures Valid()
      ensures r.Ok? <==> (old(row).None? || Interrupted(old(row).value.phase) ==> atMs <= I64_MAX)
      ensures r.Ok? ==> row.Some? && !Interrupted(row.value.phase)
      ensures r.Err? ==> r.error == Configuration && row == old(row) && log == old(log)
      ensures old(row).None? && r.Ok? ==> row == Some(Snapshot(Stopped, 0, None, atMs)) && log == []
      ensures old(row).Some? && r.Ok? ==> old(log) <= log
    {
      var _ :- Migrate(atMs);
      r := RecoverInterrupted(atMs);
    }
  }

  // ---- several writers on one database ----

  /** A handle acts on the row as it was after `readAt` entries, however old that is by now. */
  datatype Step = Attempt(readAt: nat, requested: Request) | Recover(readAt: nat, atMs: u64)

  function Compare(createdAtMs: u64, log: seq<Entry>, previous: Snapshot, requested: Request): seq<Entry> {
    match Advance(previous, requested)
    case Err(_) => log
    case Ok(current) =>
      if Storable(current) && SameKey(RowOf(createdAtMs, log), previous) then log + [EntryFor(previous, current)]
      else log
  }

  function Apply(createdAtMs: u64, log: seq<Entry>, step: Step): seq<Entry> {
    if step.readAt > |log| then log
    else
      var previous := RowOf(createdAtMs, log[..step.readAt]);
      match step
      case Attempt(_, requested) => Compare(createdAtMs, log, previous, requested)
      case Recover(_, atMs) =>
        if Interrupted(previous.phase) then Compare(createdAtMs, log, previous, Recovery(previous, atMs)) else log
  }

  function Run(createdAtMs: u64, steps: seq<Step>): seq<Entry> {
    if steps == [] then [] else Apply(createdAtMs, Run(createdAtMs, steps[..|steps| - 1]), steps[|steps| - 1])
  }

  /** Phases in the order in which one generation can go through them. */
  function Rank(phase: Phase): nat {
    match phase
    case Starting => 0
    case Active => 1
    case Stopped => 2
    case ProtectiveOffline => 2
  }

  function Progress(row: Snapshot): nat {
    3 * row.generation + Rank(row.phase)
  }

  /** Each transition makes progress, and only a start opens a generation. */
  lemma TransitionsProgress(row: Snapshot, entry: Entry)
    requires Extends(row, entry)
    ensures 3 * entry.generation + Rank(entry.to) > Progress(row)
    ensures entry.generation == row.generation + (if entry.to == Starting then 1 else 0)
    ensures entry.from == row.phase && entry.occurredAtMs >= row.updatedAtMs
    ensures ValidReason(entry.to, entry.reason) && Allowed(entry.from, entry.to)
  {
  }

  lemma {:induction false} ProgressIncreases(createdAtMs: u64, log: seq<Entry>, i: nat, j: nat)
    requires WellFormed(createdAtMs, log) && i < j <= |log|
    ensures Progress(RowOf(createdAtMs, log[..i])) < Progress(RowOf(createdAtMs, log[..j]))
    ensures RowOf(createdAtMs, log[..i]).updatedAtMs <= RowOf(createdAtMs, log[..j]).updatedAtMs
    decreases j
  {
    var row := RowOf(createdAtMs, log[..j - 1]);
    assert Extends(row, log[j - 1]);
    TransitionsProgress(row, log[j - 1]);
    if i < j - 1 {
      ProgressIncreases(createdAtMs, log, i, j - 1);
    }
  }

  /** Phase and generation never come back: a handle whose comparison succeeds has read the current row, all of it. */
  lemma ComparisonIdentifiesTheRow(createdAtMs: u64, log: seq<Entry>, readAt: nat)
    requires WellFormed(createdAtMs, log) && readAt <= |log|
    ensures SameKey(RowOf(createdAtMs, log), RowOf(createdAtMs, log[..readAt])) <==> readAt == |log|
  {
    assert log[..|log|] == log;
    if readAt < |log| {
      ProgressIncreases(createdAtMs, log, readAt, |log|);
    }
  }

  lemma StepsKeepForm(createdAtMs: u64, log: seq<Entry>, step: Step)
    requires WellFormed(createdAtMs, log)
    ensures WellFormed(createdAtMs, Apply(createdAtMs, log, step))
  {
    if step.readAt <= |log| {
      ComparisonIdentifiesTheRow(createdAtMs, log, step.readAt);
      if step.readAt == |log| {
        assert log[..|log|] == log;
        var row := RowOf(createdAtMs, log);
        var requested := if step.Attempt? then step.requested else Recovery(row, step.atMs);
        if Transitioned(row, requested).Ok? {
          AppendKeepsForm(createdAtMs, log, requested);
        }
      }
    }
  }

  /** However handles interleave, the log is the log of one writer at a time. */
  lemma {:induction false} EveryRunIsWellFormed(createdAtMs: u64, steps: seq<Step>)
    requires createdAtMs <= I64_MAX
    ensures WellFormed(createdAtMs, Run(createdAtMs, steps))
  {
    if steps != [] {
      EveryRunIsWellFormed(createdAtMs, steps[..|steps| - 1]);
      StepsKeepForm(createdAtMs, Run(createdAtMs, steps[..|steps| - 1]), steps[|steps| - 1]);
    }
  }

  // ---- what a well-formed log looks like ----

  function Starts(log: seq<Entry>): nat {
    if log == [] then 0 else Starts(log[..|log| - 1]) + (if log[|log| - 1].to == Starting then 1 else 0)
  }

  /** Each entry leaves from where the one before it arrived, no earlier, with a reason exactly when protective. */
  ghost predicate Chained(createdAtMs: u64, log: seq<Entry>) {
    forall i :: 0 <= i < |log| ==>
      && log[i].from == (if i == 0 then Stopped else log[i - 1].to)
      && log[i].occurredAtMs >= (if i == 0 then createdAtMs else log[i - 1].occurredAtMs)
      && (log[i].reason.Some? <==> log[i].to == ProtectiveOffline)
      && Allowed(log[i].from, log[i].to)
  }

  ghost predicate NumberedByStarts(log: seq<Entry>) {
    forall i :: 0 <= i < |log| ==> log[i].generation == Starts(log[..i + 1])
  }

  /** One generation runs Starting, perhaps Active, perhaps one of the two resting phases, and nothing twice. */
  ghost predicate GenerationsAreLinear(log: seq<Entry>) {
    && (forall i :: 0 <= i < |log| ==>
          (log[i].to == Starting <==> (i == 0 || log[i - 1].generation != log[i].generation)))
    && forall i, j :: 0 <= i < j < |log| ==> LaterRanksHigher(log[i], log[j])
  }

  predicate LaterRanksHigher(a: Entry, b: Entry) {
    a.generation == b.generation ==> Rank(a.to) < Rank(b.to)
  }

  lemma RowBefore(createdAtMs: u64, log: seq<Entry>, i: nat)
    requires i < |log|
    ensures RowOf(createdAtMs, log[..i])
         == if i == 0 then Snapshot(Stopped, 0, None, createdAtMs)
            else Snapshot(log[i - 1].to, log[i - 1].generation, log[i - 1].reason, log[i - 1].occurredAtMs)
  {
  }

  lemma LogIsChained(createdAtMs: u64, log: seq<Entry>)
    requires WellFormed(createdAtMs, log)
    ensures Chained(createdAtMs, log)
  {
    forall i | 0 <= i < |log|
      ensures log[i].from == (if i == 0 then Stopped else log[i - 1].to)
      ensures log[i].occurredAtMs >= (if i == 0 then createdAtMs else log[i - 1].occurredAtMs)
      ensures log[i].reason.Some? <==> log[i].to == ProtectiveOffline
      ensures Allowed(log[i].from, log[i].to)
    {
      RowBefore(createdAtMs, log, i);
      TransitionsProgress(RowOf(createdAtMs, log[..i]), log[i]);
    }
  }

  lemma {:induction false} GenerationCountsStarts(createdAtMs: u64, log: seq<Entry>, i: nat)
    requires WellFormed(createdAtMs, log) && i <= |log|
    ensures RowOf(createdAtMs, log[..i]).generation == Starts(log[..i])
  {
    if i > 0 {
      GenerationCountsStarts(createdAtMs, log, i - 1);
      assert log[..i][..i - 1] == log[..i - 1];
      TransitionsProgress(RowOf(createdAtMs, log[..i - 1]), log[i - 1]);
    }
  }

  lemma LogIsLinear(createdAtMs: u64, log: seq<Entry>)
    requires WellFormed(createdAtMs, log)
    ensures GenerationsAreLinear(log)
  {
    forall i | 0 <= i < |log|
      ensures log[i].to == Starting <==> (i == 0 || log[i - 1].generation != log[i].generation)
    {
      RowBefore(createdAtMs, log, i);
      TransitionsProgress(RowOf(createdAtMs, log[..i]), log[i]);
    }
    forall i, j | 0 <= i < j < |log| ensures LaterRanksHigher(log[i], log[j]) {
      ProgressIncreases(createdAtMs, log, i + 1, j + 1);
      assert log[..i + 1][i] == log[i] && log[..j + 1][j] == log[j];
    }
  }

  lemma LogIsNumbered(createdAtMs: u64, log: seq<Entry>)
    requires WellFormed(createdAtMs, log)
    ensures NumberedByStarts(log)
  {
    forall i | 0 <= i < |log| ensures log[i].generation == Starts(log[..i + 1]) {
      GenerationCountsStarts(createdAtMs, log, i + 1);
    }
  }

  /** The whole shape of the log, in every run of any number of handles. */
  lemma EveryLogIsALifecycle(createdAtMs: u64, steps: seq<Step>)
    requires createdAtMs <= I64_MAX
    ensures var log := Run(createdAtMs, steps);
            Chained(createdAtMs, log) && NumberedByStarts(log) && GenerationsAreLinear(log)
  {
    var log := Run(createdAtMs, steps);
    EveryRunIsWellFormed(createdAtMs, steps);
    LogIsChained(createdAtMs, log);
    LogIsLinear(createdAtMs, log);
    LogIsNumbered(createdAtMs, log);
  }

  /** Recovery is a transition like any other, and one that is always accepted if its time can be stored. */
  lemma RecoveryIsAccepted(createdAtMs: u64, log: seq<Entry>, atMs: u64)
    requires WellFormed(createdAtMs, log) && Interrupted(RowOf(createdAtMs, log).phase)
    ensures Transitioned(RowOf(createdAtMs, log), Recovery(RowOf(createdAtMs, log), atMs)).Ok? <==> atMs <= I64_MAX
    ensures Apply(createdAtMs, log, Recover(|log|, atMs)) != log <==> atMs <= I64_MAX
  {
    RowIsStorable(createdAtMs, log);
    assert log[..|log|] == log;
  }
}
