/** What the activity figures are meant to be: for each UTC day, the milliseconds with an active account. */
module ActivityDays {
  import opened Bytes

  const MILLIS_PER_DAY: nat := 86_400_000

  /** One activity call that the store accepted. */
  datatype ActivityEvent =
    | Opened(time: nat)
    | Joined(time: nat)
    | Left(time: nat)
    | Checkpointed(time: nat)

  function Apply(accounts: nat, e: ActivityEvent): nat {
    match e
    case Opened(_) => 0
    case Joined(_) => accounts + 1
    case Left(_) => if accounts == 0 then 0 else accounts - 1
    case Checkpointed(_) => accounts
  }

  /** Accounts active after the whole log. */
  function Count(log: seq<ActivityEvent>): nat {
    if log == [] then 0 else Apply(Count(log[..|log| - 1]), log[|log| - 1])
  }

  /**
   * Whether somebody was active during millisecond `x`, between two consecutive calls around it. The clock
   * may go back from one call to the next; what has been seen once stays seen.
   */
  predicate Seen(log: seq<ActivityEvent>, x: nat) {
    |log| >= 2 &&
    var front := log[..|log| - 1];
    Seen(front, x) || (Count(front) > 0 && front[|front| - 1].time <= x < log[|log| - 1].time)
  }

  function SeenBetween(log: seq<ActivityEvent>, start: nat, end: nat): nat {
    if end <= start then 0 else SeenBetween(log, start, end - 1) + (if Seen(log, end - 1) then 1 else 0)
  }

  /** Milliseconds of `day` with at least one active account. */
  function SeenOf(log: seq<ActivityEvent>, day: nat): nat {
    SeenBetween(log, day * MILLIS_PER_DAY, (day + 1) * MILLIS_PER_DAY)
  }

  /** Those of them that lie in `[start, end)`. */
  function SeenWithin(log: seq<ActivityEvent>, day: nat, start: nat, end: nat): nat {
    SeenBetween(log, Max(start, day * MILLIS_PER_DAY), Min(end, (day + 1) * MILLIS_PER_DAY))
  }

  /** Length of `[start, end)`. */
  function Length(start: nat, end: nat): nat {
    if start < end then end - start else 0
  }

  /** Length of `[start, end)` inside `day`. */
  function Overlap(day: nat, start: nat, end: nat): nat {
    Length(Max(start, day * MILLIS_PER_DAY), Min(end, (day + 1) * MILLIS_PER_DAY))
  }

  lemma OverlapSplit(day: nat, start: nat, middle: nat, end: nat)
    requires start <= middle <= end
    ensures Overlap(day, start, end) == Overlap(day, start, middle) + Overlap(day, middle, end)
  {
  }

  // ---- one more call ----

  lemma EventIsSeen(log: seq<ActivityEvent>, e: ActivityEvent, x: nat)
    requires log != []
    ensures Seen(log + [e], x) <==> Seen(log, x) || (Count(log) > 0 && log[|log| - 1].time <= x < e.time)
  {
    assert (log + [e])[..|log|] == log;
  }

  lemma CountAfter(log: seq<ActivityEvent>, e: ActivityEvent)
    ensures Count(log + [e]) == Apply(Count(log), e)
  {
    assert (log + [e])[..|log|] == log;
  }

  /** A call adds the time since the one before it, as far as it was not seen already, if somebody is active. */
  lemma {:induction false} EventAddsUnseen(log: seq<ActivityEvent>, e: ActivityEvent, start: nat, end: nat)
    requires log != [] && Count(log) > 0
    ensures var last := log[|log| - 1].time;
            SeenBetween(log + [e], start, end)
            == SeenBetween(log, start, end) + Length(Max(last, start), Min(e.time, end))
               - SeenBetween(log, Max(last, start), Min(e.time, end))
  {
    if start < end {
      EventAddsUnseen(log, e, start, end - 1);
      EventIsSeen(log, e, end - 1);
    }
  }

  lemma {:induction false} SameSeen(log: seq<ActivityEvent>, other: seq<ActivityEvent>, start: nat, end: nat)
    requires forall x: nat :: start <= x < end ==> Seen(log, x) == Seen(other, x)
    ensures SeenBetween(log, start, end) == SeenBetween(other, start, end)
  {
    if start < end {
      SameSeen(log, other, start, end - 1);
    }
  }

  /** One more call, day by day. */
  lemma AppendEvent(log: seq<ActivityEvent>, e: ActivityEvent, day: nat)
    ensures SeenOf(log + [e], day) ==
      if Count(log) == 0 then SeenOf(log, day)
      else
        var last := log[|log| - 1].time;
        SeenOf(log, day) + Overlap(day, last, e.time) - SeenWithin(log, day, last, e.time)
  {
    if Count(log) > 0 {
      EventAddsUnseen(log, e, day * MILLIS_PER_DAY, (day + 1) * MILLIS_PER_DAY);
    } else {
      forall x: nat ensures Seen(log + [e], x) == Seen(log, x) {
        if log != [] {
          EventIsSeen(log, e, x);
        }
      }
      SameSeen(log + [e], log, day * MILLIS_PER_DAY, (day + 1) * MILLIS_PER_DAY);
    }
  }

  // ---- what the count means ----

  lemma {:induction false} SeenBetweenBounds(log: seq<ActivityEvent>, start: nat, end: nat)
    ensures SeenBetween(log, start, end) <= Length(start, end)
    ensures SeenBetween(log, start, end) > 0 <==> exists x: nat :: start <= x < end && Seen(log, x)
  {
    if start < end {
      SeenBetweenBounds(log, start, end - 1);
      if Seen(log, end - 1) {
        assert exists x: nat :: start <= x < end && Seen(log, x) by {
          var x: nat := end - 1;
          assert start <= x < end && Seen(log, x);
        }
      } else if SeenBetween(log, start, end) > 0 {
        var x: nat :| start <= x < end - 1 && Seen(log, x);
        assert start <= x < end && Seen(log, x);
      }
    }
  }

  lemma SeenWithinBounds(log: seq<ActivityEvent>, day: nat, start: nat, end: nat)
    ensures SeenWithin(log, day, start, end) > 0
       <==> exists x: nat :: start <= x < end && x / MILLIS_PER_DAY == day && Seen(log, x)
  {
    var low, high := Max(start, day * MILLIS_PER_DAY), Min(end, (day + 1) * MILLIS_PER_DAY);
    SeenBetweenBounds(log, low, high);
    if x: nat :| start <= x < end && x / MILLIS_PER_DAY == day && Seen(log, x) {
      assert low <= x < high;
    }
  }

  /** No log, however its clock jumps, can make a day longer than a day. */
  lemma DayBound(log: seq<ActivityEvent>, day: nat)
    ensures SeenOf(log, day) <= MILLIS_PER_DAY
  {
    SeenBetweenBounds(log, day * MILLIS_PER_DAY, (day + 1) * MILLIS_PER_DAY);
  }

  /** If exactly `[from, to)` was seen, any range counts its overlap with it. */
  lemma {:induction false} SeenExactly(log: seq<ActivityEvent>, from: nat, to: nat, start: nat, end: nat)
    requires forall x: nat :: Seen(log, x) <==> from <= x < to
    ensures SeenBetween(log, start, end) == Length(Max(from, start), Min(to, end))
  {
    if start < end {
      SeenExactly(log, from, to, start, end - 1);
    }
  }

  /** Accounts active during millisecond `x`, when time only goes forward: the effect of every event up to it. */
  function AccountsAt(log: seq<ActivityEvent>, x: nat): nat {
    if log == [] then 0
    else if log[|log| - 1].time <= x then Count(log)
    else AccountsAt(log[..|log| - 1], x)
  }

  ghost predicate TimeOrdered(log: seq<ActivityEvent>) {
    forall i, j :: 0 <= i < j < |log| ==> log[i].time <= log[j].time
  }

  /** While the clock only goes forward, the seen milliseconds are those before the last call with an active account. */
  lemma {:induction false} SeenIffActive(log: seq<ActivityEvent>, x: nat)
    requires TimeOrdered(log) && log != []
    ensures Seen(log, x) <==> x < log[|log| - 1].time && AccountsAt(log, x) > 0
  {
    if |log| >= 2 {
      SeenIffActive(log[..|log| - 1], x);
    }
  }
}
