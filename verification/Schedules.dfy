/** Recurring work: per-server schedules and scheduled backups. Times are nanoseconds. */
module Schedules {
  import opened Options
  import opened Int64

  const SECOND := 1_000_000_000
  const MINUTE := 60 * SECOND
  const HOUR := 3600 * SECOND

  /** Difference of two times, as a saturating 64-bit duration. */
  function Sub(t: int, u: int): int {
    if t - u > MAX then MAX else if t - u < MIN then MIN else t - u
  }

  // ----- Schedules -----

  datatype Schedule = Schedule(id: string, minutes: int, enabled: bool, last: Option<int>)

  function Interval(s: Schedule): int {
    Wrap(s.minutes * MINUTE)
  }

  predicate Due(s: Schedule, now: int) {
    && s.enabled && Interval(s) > 0
    && (s.last.Some? ==> Sub(now, s.last.value) >= Interval(s))
  }

  /** The handler accepts any positive number of minutes. The configured interval is the one
      kept for as long as it fits a 64-bit duration, which is for up to MAX / MINUTE minutes. */
  lemma IntervalExact(s: Schedule)
    requires s.minutes >= 1
    ensures Interval(s) == s.minutes * MINUTE <==> s.minutes <= 153_722_867
  {
  }

  /** A schedule that is disabled, or whose interval wraps to nothing positive, never runs, not
      even once; every other one is due as soon as its wrapped interval is over. */
  lemma NeverDueExactly(s: Schedule)
    ensures (forall now :: !Due(s, now)) <==> !s.enabled || Interval(s) <= 0
    ensures s.enabled && Interval(s) > 0 ==> forall now ::
              Due(s, now) <==> s.last.None? || now >= s.last.value + Interval(s)
  {
    if s.enabled && Interval(s) > 0 { assert Due(s, if s.last.Some? then s.last.value + Interval(s) else 0); }
  }

  /** An interval that fits is due exactly when that many minutes have passed, or at once. */
  lemma DueExactly(s: Schedule, now: int)
    requires 1 <= s.minutes <= 153_722_867
    ensures Due(s, now) <==>
            s.enabled && (s.last.None? || now - s.last.value >= s.minutes * 60_000_000_000)
  {
    IntervalExact(s);
    NeverDueExactly(s);
  }

  /** Both happen: one minute too many stops a schedule, and 307,445,735 minutes, which are
      more than five centuries, become a run every 26.3 s. */
  lemma WrappedIntervals(s: Schedule)
    ensures s.minutes == 153_722_868 ==> Interval(s) < 0
    ensures s.minutes == 307_445_735 ==> Interval(s) == 26_290_448_384
  {
  }

  predicate Distinct(rows: seq<Schedule>) {
    forall i, j | 0 <= i < j < |rows| :: rows[i].id != rows[j].id
  }

  /** A row after a tick; `marks` says for which rows the update works. */
  function Ticked(s: Schedule, now: int, marks: set<string>): Schedule {
    if Due(s, now) && s.id in marks then s.(last := Some(now)) else s
  }

  function DueIds(rows: seq<Schedule>, now: int): seq<string> {
    if rows == [] then []
    else
      var s := rows[|rows| - 1];
      DueIds(rows[..|rows| - 1], now) + if Due(s, now) then [s.id] else []
  }

  function Marked(ids: seq<string>, marks: set<string>): seq<string> {
    if ids == [] then []
    else
      Marked(ids[..|ids| - 1], marks) + if ids[|ids| - 1] in marks then [ids[|ids| - 1]] else []
  }

  lemma {:induction false} DueIdsAre(rows: seq<Schedule>, now: int, id: string)
    ensures id in DueIds(rows, now) <==> exists k :: 0 <= k < |rows| && rows[k].id == id && Due(rows[k], now)
  {
    if rows != [] {
      var n := |rows| - 1;
      DueIdsAre(rows[..n], now, id);
      if exists k :: 0 <= k < |rows| && rows[k].id == id && Due(rows[k], now) {
        var k :| 0 <= k < |rows| && rows[k].id == id && Due(rows[k], now);
        if k < n { assert rows[..n][k] == rows[k]; }
      }
    }
  }

  lemma {:induction false} MarkedAre(ids: seq<string>, marks: set<string>, id: string)
    ensures id in Marked(ids, marks) <==> id in ids && id in marks
  {
    if ids != [] {
      MarkedAre(ids[..|ids| - 1], marks, id);
      assert ids == ids[..|ids| - 1] + [ids[|ids| - 1]];
    }
  }

  predicate Once(ids: seq<string>) {
    forall i, j | 0 <= i < j < |ids| :: ids[i] != ids[j]
  }

  lemma {:induction false} DueOnce(rows: seq<Schedule>, now: int)
    requires Distinct(rows)
    ensures Once(DueIds(rows, now))
  {
    if rows != [] {
      DueOnce(rows[..|rows| - 1], now);
      DueIdsAre(rows[..|rows| - 1], now, rows[|rows| - 1].id);
    }
  }

  lemma {:induction false} MarkedOnce(ids: seq<string>, marks: set<string>)
    requires Once(ids)
    ensures Once(Marked(ids, marks))
  {
    if ids != [] {
      MarkedOnce(ids[..|ids| - 1], marks);
      MarkedAre(ids[..|ids| - 1], marks, ids[|ids| - 1]);
    }
  }

  /** What is started at a tick: each schedule that is due and could be marked, once. */
  lemma StartedExactly(rows: seq<Schedule>, now: int, marks: set<string>)
    requires Distinct(rows)
    ensures var ran := Marked(DueIds(rows, now), marks);
            && Once(ran)
            && (forall k | 0 <= k < |rows| :: rows[k].id in ran <==> rows[k].id in marks && Due(rows[k], now))
            && forall id | id in ran :: exists k :: 0 <= k < |rows| && rows[k].id == id
  {
    DueOnce(rows, now);
    MarkedOnce(DueIds(rows, now), marks);
    forall id ensures id in Marked(DueIds(rows, now), marks) <==>
                      id in marks && exists k :: 0 <= k < |rows| && rows[k].id == id && Due(rows[k], now)
    {
      MarkedAre(DueIds(rows, now), marks, id);
      DueIdsAre(rows, now, id);
    }
  }

  class Scheduler {
    var rows: seq<Schedule>

    constructor (rows: seq<Schedule>)
      ensures this.rows == rows
    {
      this.rows := rows;
    }

    method DueNow(now: int) returns (due: seq<string>)
      ensures due == DueIds(rows, now)
    {
      due := [];
      var k := 0;
      while k < |rows|
        invariant 0 <= k <= |rows| && due == DueIds(rows[..k], now)
      {
        var s := rows[k];
        assert rows[..k + 1][..k] == rows[..k];
        k := k + 1;
        var interval := Interval(s);
        if !s.enabled || interval <= 0 { continue; }
        if s.last == None || Sub(now, s.last.value) >= interval { due := due + [s.id]; }
      }
      assert rows[..k] == rows;
    }

    method MarkRun(id: string, now: int)
      modifies this
      ensures |rows| == |old(rows)|
      ensures forall k | 0 <= k < |rows| ::
        rows[k] == if old(rows)[k].id == id then old(rows)[k].(last := Some(now)) else old(rows)[k]
    {
      rows := seq(|rows|, k requires 0 <= k < |rows| reads this =>
        if rows[k].id == id then rows[k].(last := Some(now)) else rows[k]);
    }

    /** Asks what is due, then marks and runs each; `ran` lists the actions started. */
    method RunOnce(now: int, marks: set<string>) returns (ran: seq<string>)
      requires Distinct(rows)
      modifies this
      ensures |rows| == |old(rows)|
      ensures forall k | 0 <= k < |rows| :: rows[k] == Ticked(old(rows)[k], now, marks)
      ensures ran == Marked(DueIds(old(rows), now), marks)
      ensures forall k | 0 <= k < |rows| ::
                && (rows[k].id in ran <==> rows[k].id in marks && Due(old(rows)[k], now))
                && rows[k] == if rows[k].id in ran then old(rows)[k].(last := Some(now)) else old(rows)[k]
    {
      var due := DueNow(now);
      ran := [];
      var i := 0;
      while i < |due|
        invariant 0 <= i <= |due| && |rows| == |old(rows)|
        invariant forall k | 0 <= k < |rows| ::
          rows[k] == if old(rows)[k].id in due[..i]
              && old(rows)[k].id in marks then old(rows)[k].(last := Some(now)) else old(rows)[k]
        invariant ran == Marked(due[..i], marks)
      {
        assert due[..i + 1] == due[..i] + [due[i]];
        assert due[..i + 1][..i] == due[..i];
        if due[i] in marks {
          MarkRun(due[i], now);
          ran := ran + [due[i]];
        }
        i := i + 1;
      }
      assert due[..i] == due;
      forall k | 0 <= k < |rows| ensures rows[k] == Ticked(old(rows)[k], now, marks) {
        DueIdsAre(old(rows), now, old(rows)[k].id);
      }
      StartedExactly(old(rows), now, marks);
    }
  }

  // ----- One schedule over many ticks -----

  /** A tick of the scheduler, and whether marking the schedule works then. */
  datatype Tick = Tick(at: int, markWorks: bool)

  /** The row after the first n ticks. */
  function RowAt(s: Schedule, ticks: seq<Tick>, n: nat): Schedule
    requires n <= |ticks|
  {
    if n == 0 then s
    else Ticked(RowAt(s, ticks, n - 1), ticks[n - 1].at, if ticks[n - 1].markWorks then {s.id} else {})
  }

  predicate DueAt(s: Schedule, ticks: seq<Tick>, i: nat)
    requires i < |ticks|
  {
    Due(RowAt(s, ticks, i), ticks[i].at)
  }

  /** The action is started only after a mark that worked. */
  predicate Starts(s: Schedule, ticks: seq<Tick>, i: nat)
    requires i < |ticks|
  {
    DueAt(s, ticks, i) && ticks[i].markWorks
  }

  /** Ticks in order and at most d apart. */
  predicate Steady(ticks: seq<Tick>, d: nat) {
    forall i | 0 < i < |ticks| :: ticks[i - 1].at <= ticks[i].at <= ticks[i - 1].at + d
  }

  predicate NoStart(s: Schedule, ticks: seq<Tick>, i: nat, j: nat)
    requires j <= |ticks|
  {
    forall m | i < m < j :: !Starts(s, ticks, m)
  }

  /** Marks after tick i and before tick n that failed. */
  function FailedMarks(s: Schedule, ticks: seq<Tick>, i: nat, n: nat): nat
    requires n <= |ticks|
  {
    if n <= i + 1 then 0
    else FailedMarks(s, ticks, i, n - 1) + if DueAt(s, ticks, n - 1) && !ticks[n - 1].markWorks then 1 else 0
  }

  lemma {:induction false} SameSchedule(s: Schedule, ticks: seq<Tick>, n: nat)
    requires n <= |ticks|
    ensures RowAt(s, ticks, n).(last := None) == s.(last := None)
  {
    if n > 0 { SameSchedule(s, ticks, n - 1); }
  }

  /** Until the next start the row remembers the last one. */
  lemma {:induction false} Remembers(s: Schedule, ticks: seq<Tick>, i: nat, n: nat)
    requires i < n <= |ticks| && Starts(s, ticks, i) && NoStart(s, ticks, i, n)
    ensures RowAt(s, ticks, n) == s.(last := Some(ticks[i].at))
  {
    hide Interval;
    SameSchedule(s, ticks, n - 1);
    if n > i + 1 {
      Remembers(s, ticks, i, n - 1);
      assert !Starts(s, ticks, n - 1);
    }
  }

  /** So until then being due is a matter of the time since it. */
  lemma DueSinceStart(s: Schedule, ticks: seq<Tick>, i: nat, n: nat)
    requires i < n < |ticks| && Starts(s, ticks, i) && NoStart(s, ticks, i, n)
    ensures Interval(s) > 0
    ensures DueAt(s, ticks, n) <==> Sub(ticks[n].at, ticks[i].at) >= Interval(s)
  {
    Remembers(s, ticks, i, n);
    SameSchedule(s, ticks, i);
    hide RowAt, Starts, NoStart;
    assert Interval(RowAt(s, ticks, i)) == Interval(s) == Interval(RowAt(s, ticks, n));
  }

  lemma StartsPositive(s: Schedule, ticks: seq<Tick>, i: nat)
    requires i < |ticks| && Starts(s, ticks, i)
    ensures Interval(s) > 0
  {
    SameSchedule(s, ticks, i);
    assert Interval(RowAt(s, ticks, i)) == Interval(s);
  }

  /** Whatever marks fail, two starts are at least the interval apart: a start is marked first,
      so nothing that happens to the action can bring the next one forward. */
  lemma {:induction false} StartsAreSpaced(s: Schedule, ticks: seq<Tick>, i: nat, j: nat)
    requires i < j < |ticks| && Starts(s, ticks, i) && Starts(s, ticks, j)
    ensures ticks[j].at - ticks[i].at >= Interval(s) > 0
    decreases j - i
  {
    hide Interval, DueAt, RowAt;
    if m :| i < m < j && Starts(s, ticks, m) {
      StartsAreSpaced(s, ticks, i, m);
      StartsAreSpaced(s, ticks, m, j);
    } else {
      DueSinceStart(s, ticks, i, j);
    }
  }

  /** A tick without a start is early, or it is late by no more than the failed marks. */
  lemma {:induction false} LateByFailures(s: Schedule, ticks: seq<Tick>, d: nat, i: nat, n: nat)
    requires Steady(ticks, d) && i < n <= |ticks| && Starts(s, ticks, i) && NoStart(s, ticks, i, n)
    ensures ticks[n - 1].at - ticks[i].at < Interval(s) + FailedMarks(s, ticks, i, n) * d
  {
    hide Interval, DueAt, RowAt;
    if n == i + 1 {
      StartsPositive(s, ticks, i);
    } else {
      LateByFailures(s, ticks, d, i, n - 1);
      DueSinceStart(s, ticks, i, n - 1);
      assert !Starts(s, ticks, n - 1) && ticks[n - 1].at <= ticks[n - 2].at + d;
      IntervalFits(s);
      MoreLate(FailedMarks(s, ticks, i, n - 1), d);
    }
  }

  lemma IntervalFits(s: Schedule)
    ensures Fits(Interval(s))
  {
  }

  lemma MoreLate(f: nat, d: nat)
    ensures (f + 1) * d == f * d + d && 0 <= f * d
  {
  }

  /** A schedule starts again at the first tick that sees its interval over and can mark it:
      successive starts are at least the interval apart, and less than the interval plus one
      tick gap, and one more for every mark that failed in between. */
  lemma RunsAreRegular(s: Schedule, ticks: seq<Tick>, d: nat, i: nat, j: nat)
    requires Steady(ticks, d) && i < j < |ticks|
    requires Starts(s, ticks, i) && Starts(s, ticks, j) && NoStart(s, ticks, i, j)
    ensures Interval(s) <= ticks[j].at - ticks[i].at < Interval(s) + (FailedMarks(s, ticks, i, j) + 1) * d
  {
    hide Interval, Starts, NoStart, FailedMarks;
    StartsAreSpaced(s, ticks, i, j);
    LateByFailures(s, ticks, d, i, j);
    assert ticks[j].at <= ticks[j - 1].at + d;
    MoreLate(FailedMarks(s, ticks, i, j), d);
  }

  /** For every interval the code can represent that is the configured interval. */
  lemma RunsAsConfigured(s: Schedule, ticks: seq<Tick>, d: nat, i: nat, j: nat)
    requires 1 <= s.minutes <= 153_722_867 && Steady(ticks, d) && i < j < |ticks|
    requires Starts(s, ticks, i) && Starts(s, ticks, j) && NoStart(s, ticks, i, j)
    ensures var late := (FailedMarks(s, ticks, i, j) + 1) * d;
            s.minutes * MINUTE <= ticks[j].at - ticks[i].at < s.minutes * MINUTE + late
  {
    IntervalExact(s);
    RunsAreRegular(s, ticks, d, i, j);
  }

  /** ... and it does start: once the interval is over at a tick that can mark, it has. */
  lemma RunsAgain(s: Schedule, ticks: seq<Tick>, i: nat, n: nat)
    requires i < n < |ticks| && Starts(s, ticks, i) && ticks[n].markWorks
    requires Fits(ticks[n].at - ticks[i].at) && ticks[n].at - ticks[i].at >= Interval(s)
    ensures exists m :: i < m <= n && Starts(s, ticks, m)
  {
    if NoStart(s, ticks, i, n) {
      DueSinceStart(s, ticks, i, n);
      assert Starts(s, ticks, n);
    }
  }

  /** The row holds the time of the last start, or is still the first row. */
  lemma {:induction false} LastStart(s: Schedule, ticks: seq<Tick>, n: nat) returns (start: Option<nat>)
    requires n <= |ticks|
    ensures match start
            case Some(m) => m < n && Starts(s, ticks, m) && NoStart(s, ticks, m, n)
                            && RowAt(s, ticks, n) == s.(last := Some(ticks[m].at))
            case None => RowAt(s, ticks, n) == s && forall m | 0 <= m < n :: !Starts(s, ticks, m)
  {
    start := None;
    if n > 0 {
      start := LastStart(s, ticks, n - 1);
      if Starts(s, ticks, n - 1) {
        start := Some(n - 1);
        Remembers(s, ticks, n - 1, n);
      }
    }
  }

  /** In every sequence of ticks a schedule starts exactly at those that can mark it, are the
      configured minutes after every start before, and after the run it was stored with. */
  lemma {:induction false} StartsExactly(s: Schedule, ticks: seq<Tick>, i: nat)
    requires 1 <= s.minutes <= 153_722_867 && i < |ticks|
    ensures Starts(s, ticks, i) <==>
            && s.enabled && ticks[i].markWorks
            && (s.last.Some? ==> ticks[i].at - s.last.value >= s.minutes * 60_000_000_000)
            && forall m | 0 <= m < i && Starts(s, ticks, m) :: ticks[i].at - ticks[m].at >= s.minutes * 60_000_000_000
    decreases i
  {
    hide Due, Interval, RowAt, NoStart;
    IntervalExact(s);
    var start := LastStart(s, ticks, i);
    DueExactly(RowAt(s, ticks, i), ticks[i].at);
    if start.Some? { StartsExactly(s, ticks, start.value); }
    forall m | 0 <= m < i && Starts(s, ticks, i) && Starts(s, ticks, m)
      ensures ticks[i].at - ticks[m].at >= Interval(s)
    {
      StartsAreSpaced(s, ticks, m, i);
    }
  }

  // ----- Scheduled backups -----

  datatype Server = Server(id: string, hours: int, last: Option<int>)

  /** The coarse filter of the query. */
  predicate Candidate(s: Server, now: int) {
    s.hours > 0 && (s.last.Some? ==> s.last.value <= now - HOUR)
  }

  /** The exact test of the loop. */
  predicate Elapsed(s: Server, now: int) {
    s.last.Some? ==> Sub(now, s.last.value) >= Wrap(s.hours * HOUR)
  }

  /** What is promised: backups are on and the interval has passed since the last one. */
  predicate Overdue(s: Server, now: int) {
    s.hours > 0 && (s.last.Some? ==> now - s.last.value >= s.hours * HOUR)
  }

  /** The coarse filter drops no server the exact test would pick, for any times, exactly when
      the interval as a 64-bit duration is an hour or more. */
  lemma CoarseFilterIsSafe(hours: int)
    requires 0 < hours <= MAX
    ensures (forall id, last, now | Elapsed(Server(id, hours, last), now) :: Candidate(Server(id, hours, last), now))
            <==> Wrap(hours * HOUR) >= HOUR
  {
    var d := Wrap(hours * HOUR);
    if d < HOUR {
      var now := if d < 0 then 0 else d;
      assert Elapsed(Server("", hours, Some(0)), now) && !Candidate(Server("", hours, Some(0)), now);
    } else {
      forall id, last, now | Elapsed(Server(id, hours, last), now)
        ensures Candidate(Server(id, hours, last), now)
      {
      }
    }
  }

  /** For a positive number of hours that is the case up to MAX / HOUR, and the interval is
      then the configured one. */
  lemma HoursExact(hours: int)
    requires hours > 0
    ensures Wrap(hours * HOUR) == hours * HOUR <==> hours <= 2_562_047
    ensures hours <= 2_562_047 ==> Wrap(hours * HOUR) >= HOUR
  {
  }

  /** One hour more, and the exact test picks a server backed up just now, which the coarse
      filter drops. */
  lemma FilterCanDrop(id: string, now: int)
    ensures var s := Server(id, 2_562_048, Some(now)); Elapsed(s, now) && !Candidate(s, now)
  {
  }

  function OverdueOf(all: seq<Server>, now: int): seq<Server> {
    if all == [] then []
    else
      var s := all[|all| - 1];
      OverdueOf(all[..|all| - 1], now) + if Overdue(s, now) then [s] else []
  }

  /** Up to MAX / HOUR hours nothing wraps; `last` and `now` are less than 292 years apart. */
  predicate Sane(s: Server, now: int) {
    s.hours <= 2_562_047 && (s.last.Some? ==> Fits(now - s.last.value))
  }

  function Selected(all: seq<Server>, now: int): seq<Server> {
    if all == [] then []
    else
      var s := all[|all| - 1];
      Selected(all[..|all| - 1], now) + if Candidate(s, now) && Elapsed(s, now) then [s] else []
  }

  lemma {:induction false} SelectedIsOverdue(all: seq<Server>, now: int)
    requires forall s | s in all :: Sane(s, now)
    ensures Selected(all, now) == OverdueOf(all, now)
  {
    if all != [] {
      assert all[|all| - 1] in all;
      SelectedIsOverdue(all[..|all| - 1], now);
    }
  }

  lemma {:induction false} OverdueAre(all: seq<Server>, now: int, s: Server)
    ensures s in OverdueOf(all, now) <==> s in all && Overdue(s, now)
  {
    if all != [] {
      OverdueAre(all[..|all| - 1], now, s);
      assert all == all[..|all| - 1] + [all[|all| - 1]];
    }
  }

  /** The two stages pick exactly the overdue servers, in order. */
  method DueForBackup(table: seq<Server>, now: int) returns (due: seq<Server>)
    ensures due == Selected(table, now)
    ensures (forall s | s in table :: Sane(s, now)) ==> due == OverdueOf(table, now)
    ensures (forall s | s in table :: Sane(s, now)) ==> forall s :: s in due <==>
              s in table && s.hours > 0 && (s.last.None? || now - s.last.value >= s.hours * 3_600_000_000_000)
  {
    due := [];
    var k := 0;
    while k < |table|
      invariant 0 <= k <= |table| && due == Selected(table[..k], now)
    {
      var s := table[k];
      assert table[..k + 1][..k] == table[..k];
      if Candidate(s, now) {
        if s.last == None || Sub(now, s.last.value) >= Wrap(s.hours * HOUR) { due := due + [s]; }
      }
      k := k + 1;
    }
    assert table[..k] == table;
    if forall s | s in table :: Sane(s, now) {
      SelectedIsOverdue(table, now);
      forall s: Server ensures s in OverdueOf(table, now) <==> s in table && Overdue(s, now) {
        OverdueAre(table, now, s);
      }
    }
  }
}
