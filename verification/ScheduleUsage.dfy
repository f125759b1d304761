/**
 The usage report: how long a schedule keeps instances running on each day.

 The report looks at a day only at the begin and end times of the schedule's periods.  Here it is
 proved to bill exactly the minutes in which an evaluation of every minute of the day would have the
 instance up.
 */
module ScheduleUsage {
  import opened Wrappers
  import opened Calendar
  import opened Schedules

  datatype Phase = Unknown | Up | Down

  datatype Usage = Usage(begin: nat, end: nat, billingHours: int, billingSeconds: int)

  /** The dictionary of a day's intervals, in insertion order, keyed by the name of the starting period. */
  datatype Entry = Entry(name: Option<string>, usage: Usage)

  datatype DayUsage = DayUsage(runningPeriods: seq<Entry>, billingSeconds: int, billingHours: int)

  datatype UsageError = StopBeforeStart | NoAnswer

  function RunningSeconds(begin: nat, end: nat): int {
    var seconds := 60 * (end - begin);
    if seconds < 60 then 60 else seconds
  }

  function RunningHours(begin: nat, end: nat): int
    requires begin < end
  {
    (60 * (end - begin) - 1) / 3600 + 1
  }

  /** The floor of sixty seconds never binds, and the hours are the seconds rounded up. */
  function MakePeriod(begin: nat, end: nat): (u: Usage)
    requires begin < end
    ensures u.begin == begin && u.end == end && u.billingSeconds == 60 * (end - begin)
    ensures 3600 * (u.billingHours - 1) < u.billingSeconds <= 3600 * u.billingHours
  {
    Usage(begin, end, RunningHours(begin, end), RunningSeconds(begin, end))
  }

  /** Storing under a name that is already there replaces the value in place. */
  function Put(entries: seq<Entry>, name: Option<string>, usage: Usage): seq<Entry> {
    if entries == [] then [Entry(name, usage)]
    else if entries[0].name == name then [Entry(name, usage)] + entries[1..]
    else [entries[0]] + Put(entries[1..], name, usage)
  }

  function TotalSeconds(entries: seq<Entry>): int {
    if entries == [] then 0 else entries[0].usage.billingSeconds + TotalSeconds(entries[1..])
  }

  function TotalHours(entries: seq<Entry>): int {
    if entries == [] then 0 else entries[0].usage.billingHours + TotalHours(entries[1..])
  }

  /* ---------- the day, minute by minute ---------- */

  function At(day: nat, minute: nat): nat {
    day * MINUTES_PER_DAY + minute
  }

  /** Every period of the schedule has an answer on this day. */
  predicate Answers(s: InstanceSchedule, day: nat) {
    HasOverride(s) || forall p | p in s.periods :: RecursOn(p.period.recurrence, day).Some?
  }

  function StateOf(s: InstanceSchedule, t: nat): ScheduleState {
    match StateAtTime(s, t)
    case None => Stopped
    case Some(v) => v.state
  }

  function NameOf(s: InstanceSchedule, t: nat): Option<string> {
    match StateAtTime(s, t)
    case None => None
    case Some(v) => v.periodName
  }

  /** A stopped minute that the schedule bridges because the minutes around it are running. */
  predicate Bridged(s: InstanceSchedule, t: nat)
    requires t >= 1
  {
    StateOf(s, t) == Stopped && IsRunning(DesiredStateAt(s, t, true))
  }

  /** Started by running, kept up by the any state, ended by stopped; down at the start of the day. */
  predicate Latched(s: InstanceSchedule, day: nat, minute: nat) {
    match StateOf(s, At(day, minute))
    case Running => true
    case Stopped => false
    case Any => minute > 0 && Latched(s, day, minute - 1)
  }

  predicate Billable(s: InstanceSchedule, day: nat, minute: nat)
    requires day >= 1
  {
    Latched(s, day, minute) || (minute > 0 && Bridged(s, At(day, minute)))
  }

  function BillableMinutes(s: InstanceSchedule, day: nat, minutes: nat): nat
    requires day >= 1
  {
    if minutes == 0 then 0
    else BillableMinutes(s, day, minutes - 1) + if Billable(s, day, minutes - 1) then 1 else 0
  }

  /* ---------- the sweep ---------- */

  datatype Sweep = Sweep(phase: Phase, started: nat, startingPeriod: Option<string>, entries: seq<Entry>)

  const EMPTY_SWEEP := Sweep(Unknown, 0, None, [])

  /** What the report does at one time of the day. */
  function SweepStep(s: InstanceSchedule, day: nat, sweep: Sweep, minute: nat): Sweep
    requires day >= 1 && (sweep.phase == Up ==> sweep.started < minute)
  {
    var t := At(day, minute);
    match StateOf(s, t)
    case Any => sweep
    case Running =>
      if sweep.phase == Up then sweep
      else sweep.(phase := Up, started := minute, startingPeriod := NameOf(s, t))
    case Stopped =>
      if sweep.phase != Up then sweep
      else
        var stopped := if IsRunning(DesiredStateAt(s, t, true)) then minute + 1 else minute;
        sweep.(phase := Down,
               entries := Put(sweep.entries, sweep.startingPeriod, MakePeriod(sweep.started, stopped)))
  }

  /** The same, done at every minute of the day. */
  function EveryMinute(s: InstanceSchedule, day: nat, minutes: nat): (sweep: Sweep)
    requires day >= 1
    ensures sweep.phase == Up ==> sweep.started < minutes
  {
    if minutes == 0 then EMPTY_SWEEP
    else SweepStep(s, day, EveryMinute(s, day, minutes - 1), minutes - 1)
  }

  function Finish(sweep: Sweep): seq<Entry>
    requires sweep.phase == Up ==> sweep.started < MINUTES_PER_DAY
  {
    if sweep.phase == Up then
      Put(sweep.entries, sweep.startingPeriod, MakePeriod(sweep.started, MINUTES_PER_DAY))
    else sweep.entries
  }

  function UsageOfDay(s: InstanceSchedule, day: nat): DayUsage
    requires day >= 1
  {
    var entries := Finish(EveryMinute(s, day, MINUTES_PER_DAY));
    DayUsage(entries, TotalSeconds(entries), TotalHours(entries))
  }

  /* ---------- the breakpoints ---------- */

  function PeriodBreakpoints(p: RunningPeriod): set<nat> {
    match (p.begintime, p.endtime)
    case (None, None) => {0, 23 * 60 + 59}
    case (Some(begin), None) => {begin}
    case (None, Some(end)) => {end}
    case (Some(begin), Some(end)) => {begin, end}
  }

  predicate IsBreakpoint(periods: seq<ScheduledPeriod>, minute: nat) {
    minute == 0 || exists p | p in periods :: minute in PeriodBreakpoints(p.period)
  }

  /** The members of `times` from `from` on, in order. */
  function Sorted(times: set<nat>, from: nat): (r: seq<nat>)
    requires from <= MINUTES_PER_DAY
    ensures forall m :: m in r <==> m in times && from <= m < MINUTES_PER_DAY
    ensures forall i, j | 0 <= i < j < |r| :: r[i] < r[j]
    decreases MINUTES_PER_DAY - from
  {
    if from == MINUTES_PER_DAY then []
    else
      var rest := Sorted(times, from + 1);
      assert forall j | 0 <= j < |rest| :: rest[j] in rest;
      (if from in times then [from] else []) + rest
  }

  predicate HasTimes(s: InstanceSchedule) {
    forall p | p in s.periods :: IsTime(p.period.begintime) && IsTime(p.period.endtime)
  }

  lemma {:induction false} SameStatesSameRunning(periods: seq<ScheduledPeriod>, t: nat, u: nat)
    requires forall p | p in periods :: PeriodState(p.period, t) == PeriodState(p.period, u)
    ensures RunningPeriods(periods, t) == RunningPeriods(periods, u)
    decreases periods
  {
    if periods != [] {
      SameStatesSameRunning(periods[1..], t, u);
    }
  }

  lemma SameStatesSameVerdict(s: InstanceSchedule, t: nat, u: nat)
    requires forall p | p in s.periods :: PeriodState(p.period, t) == PeriodState(p.period, u)
    ensures StateAtTime(s, t) == StateAtTime(s, u)
  {
    SameStatesSameRunning(s.periods, t, u);
    forall state ensures AnyIn(s.periods, t, state) <==> AnyIn(s.periods, u, state) {
      forall p | p in s.periods ensures IsIn(p, t, state) <==> IsIn(p, u, state) {
      }
    }
  }

  /** Nothing changes at a minute that no period begins or ends at. */
  lemma NothingChangesBetween(s: InstanceSchedule, day: nat, minute: nat)
    requires 0 < minute < MINUTES_PER_DAY && !IsBreakpoint(s.periods, minute)
    ensures StateAtTime(s, At(day, minute)) == StateAtTime(s, At(day, minute - 1))
  {
    var t, u := At(day, minute), At(day, minute - 1);
    assert DayOf(t) == DayOf(u) == day && MinuteOfDay(t) == minute && MinuteOfDay(u) == minute - 1;
    forall p | p in s.periods ensures PeriodState(p.period, t) == PeriodState(p.period, u) {
      assert minute !in PeriodBreakpoints(p.period);
    }
    SameStatesSameVerdict(s, t, u);
  }

  /** Minutes without breakpoints leave the sweep as it is. */
  lemma {:induction false} SkipBetween(s: InstanceSchedule, day: nat, from: nat, upTo: nat)
    requires day >= 1 && 1 <= from <= upTo <= MINUTES_PER_DAY
    requires forall m | from <= m < upTo :: !IsBreakpoint(s.periods, m)
    ensures EveryMinute(s, day, upTo) == EveryMinute(s, day, from)
    decreases upTo
  {
    hide EveryMinute, IsBreakpoint;
    if from < upTo {
      SkipBetween(s, day, from, upTo - 1);
      SkipOne(s, day, upTo - 1);
    }
  }

  lemma SkipOne(s: InstanceSchedule, day: nat, minute: nat)
    requires day >= 1 && 0 < minute < MINUTES_PER_DAY && !IsBreakpoint(s.periods, minute)
    ensures EveryMinute(s, day, minute + 1) == EveryMinute(s, day, minute)
  {
    NothingChangesBetween(s, day, minute);
    hide StateAtTime, IsBreakpoint;
    var before := EveryMinute(s, day, minute - 1);
    assert EveryMinute(s, day, minute) == SweepStep(s, day, before, minute - 1);
  }

  /* ---------- what is billable ---------- */

  ghost predicate UpFrom(s: InstanceSchedule, day: nat, k: nat, minute: nat) {
    StateOf(s, At(day, k)) == Running && forall m | k < m <= minute :: !StoppedAt(s, day, m)
  }

  /** The instance is kept up from a running minute for as long as no minute is stopped. */
  lemma {:induction false} LatchedSinceRunning(s: InstanceSchedule, day: nat, minute: nat)
    ensures Latched(s, day, minute) <==> exists k | 0 <= k <= minute :: UpFrom(s, day, k, minute)
    decreases minute
  {
    hide StateOf, At;
    if minute > 0 {
      LatchedSinceRunning(s, day, minute - 1);
    }
    match StateOf(s, At(day, minute))
    case Running =>
      assert UpFrom(s, day, minute, minute);
    case Stopped =>
      assert StoppedAt(s, day, minute);
    case Any =>
      if minute > 0 {
        var before := minute - 1;
        if k :| 0 <= k <= minute && UpFrom(s, day, k, minute) {
          assert UpFrom(s, day, k, before);
        }
        if k :| 0 <= k <= before && UpFrom(s, day, k, before) {
          assert UpFrom(s, day, k, minute);
        }
      }
  }

  predicate StoppedAt(s: InstanceSchedule, day: nat, minute: nat) {
    StateOf(s, At(day, minute)) == Stopped
  }

  /** The number of billable minutes is the size of the set of them. */
  lemma {:induction false} BillableMinutesAreCounted(s: InstanceSchedule, day: nat, minutes: nat)
    requires day >= 1
    ensures BillableMinutes(s, day, minutes) == |set m | 0 <= m < minutes && Billable(s, day, m)|
    decreases minutes
  {
    hide Billable;
    if minutes > 0 {
      BillableMinutesAreCounted(s, day, minutes - 1);
      var earlier := set m | 0 <= m < minutes - 1 && Billable(s, day, m);
      var all := set m | 0 <= m < minutes && Billable(s, day, m);
      if Billable(s, day, minutes - 1) {
        assert all == earlier + {minutes - 1};
      } else {
        assert all == earlier;
      }
    }
  }

  /* ---------- the report ---------- */

  /** The times of one day at which the report evaluates the schedule. */
  method Timeline(s: InstanceSchedule) returns (timeline: set<nat>)
    ensures forall m :: m in timeline <==> IsBreakpoint(s.periods, m)
  {
    timeline := {0};
    for i := 0 to |s.periods|
      invariant forall m :: m in timeline <==> IsBreakpoint(s.periods[..i], m)
    {
      var p := s.periods[i].period;
      assert s.periods[..i + 1] == s.periods[..i] + [s.periods[i]];
      if p.begintime.None? && p.endtime.None? {
        timeline := timeline + {0};
        timeline := timeline + {23 * 60 + 59};
      } else {
        if p.begintime.Some? {
          timeline := timeline + {p.begintime.value};
        }
        if p.endtime.Some? {
          timeline := timeline + {p.endtime.value};
        }
      }
      forall m ensures m in timeline <==> IsBreakpoint(s.periods[..i + 1], m) {
        if m in PeriodBreakpoints(p) {
          assert s.periods[i] in s.periods[..i + 1];
        }
        if IsBreakpoint(s.periods[..i], m) && m != 0 {
          var q :| q in s.periods[..i] && m in PeriodBreakpoints(q.period);
          assert q in s.periods[..i + 1];
        }
      }
    }
    assert s.periods[..|s.periods|] == s.periods;
  }

  lemma AnswersAtEveryMinute(s: InstanceSchedule, day: nat, minute: nat)
    requires Answers(s, day) && minute < MINUTES_PER_DAY
    ensures StateAtTime(s, At(day, minute)).Some?
  {
    assert DayOf(At(day, minute)) == day;
  }

  lemma AnswersAround(s: InstanceSchedule, day: nat, minute: nat)
    requires day >= 1 && minute < MINUTES_PER_DAY
    requires Answers(s, day - 1) && Answers(s, day) && Answers(s, day + 1)
    ensures DesiredStateAt(s, At(day, minute), false).Some? && DesiredStateAt(s, At(day, minute), true).Some?
  {
    hide Answers, StateAtTime;
    AnswersAtEveryMinute(s, day, minute);
    if minute == 0 {
      AnswersAtEveryMinute(s, day - 1, MINUTES_PER_DAY - 1);
      assert At(day, minute) - 1 == At(day - 1, MINUTES_PER_DAY - 1);
    } else {
      AnswersAtEveryMinute(s, day, minute - 1);
      assert At(day, minute) - 1 == At(day, minute - 1);
    }
    if minute == MINUTES_PER_DAY - 1 {
      AnswersAtEveryMinute(s, day + 1, 0);
      assert At(day, minute) + 1 == At(day + 1, 0);
    } else {
      AnswersAtEveryMinute(s, day, minute + 1);
      assert At(day, minute) + 1 == At(day, minute + 1);
    }
  }

  lemma PlainEvaluation(s: InstanceSchedule, t: nat)
    requires t >= 1 && DesiredStateAt(s, t, false).Some?
    ensures var v := DesiredStateAt(s, t, false).value;
            v.state == StateOf(s, t) && v.periodName == NameOf(s, t)
  {
  }

  lemma OneMoreMinute(s: InstanceSchedule, day: nat, minute: nat)
    requires day >= 1
    ensures EveryMinute(s, day, minute + 1) == SweepStep(s, day, EveryMinute(s, day, minute), minute)
  {
  }

  /** The sweep may go from one of the sorted breakpoints straight to the next, or to the end of the day. */
  lemma SkipToNext(s: InstanceSchedule, day: nat, times: seq<nat>, i: nat)
    requires day >= 1 && 0 < i <= |times| && times[0] == 0
    requires forall m: nat :: m in times <==> IsBreakpoint(s.periods, m) && m < MINUTES_PER_DAY
    requires forall j, k | 0 <= j < k < |times| :: times[j] < times[k]
    ensures var next := if i < |times| then times[i] else MINUTES_PER_DAY;
            times[i - 1] < next
            && EveryMinute(s, day, next) == EveryMinute(s, day, times[i - 1] + 1)
  {
    var next := if i < |times| then times[i] else MINUTES_PER_DAY;
    assert times[i - 1] in times && (i < |times| ==> times[i] in times);
    assert forall j | 0 <= j < |times| :: times[j] <= times[i - 1] || next <= times[j];
    assert forall m | times[i - 1] + 1 <= m < next :: m !in times;
    SkipBetween(s, day, times[i - 1] + 1, next);
  }

  /** One day of the report: the sweep over the day's breakpoints. */
  method CalculateDay(s: InstanceSchedule, day: nat) returns (r: Option<DayUsage>)
    requires day >= 1 && HasTimes(s)
    ensures r.Some? ==> r.value == UsageOfDay(s, day)
    ensures Answers(s, day - 1) && Answers(s, day) && Answers(s, day + 1) ==> r.Some?
  {
    hide StateOf, NameOf, DesiredStateAt, StateAtTime, Answers, IsBreakpoint, EveryMinute, Sorted;
    var timeline := Timeline(s);
    var times := Sorted(timeline, 0);
    assert IsBreakpoint(s.periods, 0) by {
      ZeroIsBreakpoint(s.periods);
    }
    assert 0 in times;
    assert times[0] in times && times[0] == 0;
    var phase, started, startingPeriod, entries := Unknown, 0, None, [];
    assert Sweep(phase, started, startingPeriod, entries) == EveryMinute(s, day, 0) by {
      AtStartOfDay(s, day);
    }
    for i := 0 to |times|
      invariant i > 0 ==> Sweep(phase, started, startingPeriod, entries) == EveryMinute(s, day, times[i - 1] + 1)
      invariant i == 0 ==> Sweep(phase, started, startingPeriod, entries) == EveryMinute(s, day, 0)
    {
      var minute := times[i];
      assert minute in times;
      if i > 0 {
        SkipToNext(s, day, times, i);
      }
      OneMoreMinute(s, day, minute);
      if Answers(s, day - 1) && Answers(s, day) && Answers(s, day + 1) {
        AnswersAround(s, day, minute);
      }
      var t := At(day, minute);
      var verdict := DesiredStateAt(s, t, false);
      if verdict.None? {
        return None;
      }
      PlainEvaluation(s, t);
      if verdict.value.state == Running && phase != Up {
        started, phase, startingPeriod := minute, Up, verdict.value.periodName;
      } else if verdict.value.state == Stopped && phase != Down {
        var stopped := minute;
        var withAdjacent := DesiredStateAt(s, t, true);
        if withAdjacent.None? {
          return None;
        }
        if withAdjacent.value.state == Running {
          stopped := stopped + 1;
        }
        if phase == Up {
          phase := Down;
          entries := Put(entries, startingPeriod, MakePeriod(started, stopped));
        }
      }
    }
    SkipToNext(s, day, times, |times|);
    if phase == Up {
      entries := Put(entries, startingPeriod, MakePeriod(started, MINUTES_PER_DAY));
    }
    return Some(DayUsage(entries, TotalSeconds(entries), TotalHours(entries)));
  }

  lemma ZeroIsBreakpoint(periods: seq<ScheduledPeriod>)
    ensures IsBreakpoint(periods, 0)
  {
  }

  lemma AtStartOfDay(s: InstanceSchedule, day: nat)
    requires day >= 1
    ensures EveryMinute(s, day, 0) == EMPTY_SWEEP
  {
  }

  /** The days whose report starts at the start's time of day or later, up to `stop`. */
  predicate InReport(start: nat, stop: nat, day: nat) {
    DayOf(start) <= day && start + (day - DayOf(start)) * MINUTES_PER_DAY <= stop
  }

  /** These are the days before the last one, and the last one if it is reached at the start's time of day. */
  lemma ReportedDays(start: nat, stop: nat, day: nat)
    ensures InReport(start, stop, day) <==>
            DayOf(start) <= day
            && (day < DayOf(stop) || (day == DayOf(stop) && MinuteOfDay(start) <= MinuteOfDay(stop)))
  {
  }

  lemma ReportMoment(start: nat, t: nat, days: nat)
    requires t == start + days * MINUTES_PER_DAY
    ensures DayOf(t) == DayOf(start) + days
  {
  }

  /** The report for the days from `start` to `stop`, one day at a time, keyed by day. */
  method CalculateUsage(s: InstanceSchedule, start: nat, stop: nat) returns (r: Result<map<nat, DayUsage>, UsageError>)
    requires DayOf(start) >= 1 && HasTimes(s)
    ensures r == Err(StopBeforeStart) <==> stop < start
    ensures r.Ok? ==> forall day: nat :: day in r.value <==> InReport(start, stop, day)
    ensures r.Ok? ==> forall day | day in r.value :: day >= 1 && r.value[day] == UsageOfDay(s, day)
    ensures stop >= start && (forall day: nat :: Answers(s, day)) ==> r.Ok?
  {
    if start > stop {
      return Err(StopBeforeStart);
    }
    hide UsageOfDay, Answers, HasTimes, DayOf;
    var result: map<nat, DayUsage> := map[];
    var t := start;
    ghost var days := 0;
    while t <= stop
      invariant t == start + days * MINUTES_PER_DAY
      invariant days > 0 ==> t - MINUTES_PER_DAY <= stop
      invariant forall day: nat :: day in result <==> DayOf(start) <= day < DayOf(start) + days
      invariant forall day | day in result :: day >= 1 && result[day] == UsageOfDay(s, day)
      decreases stop - t
    {
      ReportMoment(start, t, days);
      var usage := CalculateDay(s, DayOf(t));
      if usage.None? {
        return Err(NoAnswer);
      }
      result := result[DayOf(t) := usage.value];
      t := t + MINUTES_PER_DAY;
      days := days + 1;
    }
    return Ok(result);
  }

  /* ---------- what the report bills ---------- */

  /** A name stands for one period, as it does for periods read from the period store. */
  predicate NamesIdentify(s: InstanceSchedule) {
    forall p, q | p in s.periods && q in s.periods :: p.period.name == q.period.name ==> p.period == q.period
  }

  lemma PeriodRunsContiguously(p: RunningPeriod, day: nat, b: nat, k: nat, m: nat)
    requires b <= k <= m < MINUTES_PER_DAY
    requires PeriodState(p, At(day, b)) == Some(Running) && PeriodState(p, At(day, m)) == Some(Running)
    ensures PeriodState(p, At(day, k)) == Some(Running)
  {
    assert DayOf(At(day, b)) == day && MinuteOfDay(At(day, b)) == b;
    assert DayOf(At(day, k)) == day && MinuteOfDay(At(day, k)) == k;
    assert DayOf(At(day, m)) == day && MinuteOfDay(At(day, m)) == m;
  }

  /** Two intervals of one day never start in a period of the same name. */
  lemma StartingPeriodsDiffer(s: InstanceSchedule, day: nat, b: nat, k: nat, m: nat)
    requires NamesIdentify(s) && Answers(s, day) && b < k < m < MINUTES_PER_DAY
    requires StateOf(s, At(day, b)) == Running && StateOf(s, At(day, m)) == Running
    requires StateOf(s, At(day, k)) == Stopped
    ensures NameOf(s, At(day, b)) != NameOf(s, At(day, m))
  {
    AnswersAtEveryMinute(s, day, k);
    VerdictNamesLatestRunningPeriod(s, At(day, b));
    VerdictNamesLatestRunningPeriod(s, At(day, m));
    var p :| p in s.periods && IsIn(p, At(day, b), Running) && NameOf(s, At(day, b)) == Some(p.period.name);
    var q :| q in s.periods && IsIn(q, At(day, m), Running) && NameOf(s, At(day, m)) == Some(q.period.name);
    if p.period == q.period {
      PeriodRunsContiguously(p.period, day, b, k, m);
      RunningExactlyWhenAPeriodIs(s, At(day, k));
      assert IsIn(p, At(day, k), Running);
    }
  }

  lemma BridgeFollowsRunning(s: InstanceSchedule, t: nat)
    requires t >= 1 && Bridged(s, t)
    ensures StateOf(s, t - 1) == Running
  {
  }

  predicate InEntry(e: Entry, minute: nat) {
    e.usage.begin <= minute < e.usage.end
  }

  /** An interval of the day that is over: where it started, and that the schedule stopped after that. */
  ghost predicate IsOver(s: InstanceSchedule, day: nat, e: Entry, minutes: nat) {
    && e.usage.begin < e.usage.end <= minutes
    && e.usage == MakePeriod(e.usage.begin, e.usage.end)
    && StateOf(s, At(day, e.usage.begin)) == Running
    && e.name == NameOf(s, At(day, e.usage.begin))
    && exists k :: e.usage.begin < k < minutes && StoppedAt(s, day, k)
  }

  predicate InOrder(entries: seq<Entry>) {
    forall i, j | 0 <= i < j < |entries| :: entries[i].usage.end <= entries[j].usage.begin
  }

  ghost predicate UpSince(s: InstanceSchedule, day: nat, sweep: Sweep, minutes: nat) {
    && sweep.started < minutes
    && StateOf(s, At(day, sweep.started)) == Running
    && sweep.startingPeriod == NameOf(s, At(day, sweep.started))
    && forall e | e in sweep.entries :: IsOver(s, day, e, sweep.started) && e.usage.end <= sweep.started
  }

  ghost predicate Covers(s: InstanceSchedule, day: nat, sweep: Sweep, minutes: nat)
    requires day >= 1
  {
    forall m | 0 <= m < minutes ::
      Billable(s, day, m) <==> (sweep.phase == Up && sweep.started <= m) || exists e | e in sweep.entries :: InEntry(e, m)
  }

  /** After `minutes` minutes the recorded intervals, and the one under way, are the billable minutes. */
  ghost predicate Accounts(s: InstanceSchedule, day: nat, sweep: Sweep, minutes: nat)
    requires day >= 1
  {
    && (sweep.phase == Up <==> minutes > 0 && Latched(s, day, minutes - 1))
    && (sweep.phase == Up ==> UpSince(s, day, sweep, minutes))
    && InOrder(sweep.entries)
    && (forall e | e in sweep.entries :: IsOver(s, day, e, minutes))
    && Covers(s, day, sweep, minutes)
    && TotalSeconds(sweep.entries) + (if sweep.phase == Up then 60 * (minutes - sweep.started) else 0)
       == 60 * BillableMinutes(s, day, minutes)
  }

  lemma {:induction false} PutNewName(entries: seq<Entry>, name: Option<string>, usage: Usage)
    requires forall e | e in entries :: e.name != name
    ensures Put(entries, name, usage) == entries + [Entry(name, usage)]
    ensures TotalSeconds(entries + [Entry(name, usage)]) == TotalSeconds(entries) + usage.billingSeconds
    decreases entries
  {
    if entries == [] {
      assert [Entry(name, usage)][1..] == [];
    } else {
      PutNewName(entries[1..], name, usage);
      assert (entries + [Entry(name, usage)])[1..] == entries[1..] + [Entry(name, usage)];
    }
  }

  lemma CloseInterval(s: InstanceSchedule, day: nat, sweep: Sweep, minutes: nat, end: nat) returns (entries: seq<Entry>)
    requires day >= 1 && NamesIdentify(s) && Answers(s, day) && minutes <= MINUTES_PER_DAY
    requires sweep.phase == Up && UpSince(s, day, sweep, minutes) && InOrder(sweep.entries)
    requires sweep.started < end
    ensures entries == Put(sweep.entries, sweep.startingPeriod, MakePeriod(sweep.started, end))
    ensures entries == sweep.entries + [Entry(sweep.startingPeriod, MakePeriod(sweep.started, end))]
    ensures InOrder(entries)
    ensures TotalSeconds(entries) == TotalSeconds(sweep.entries) + 60 * (end - sweep.started)
  {
    forall e | e in sweep.entries ensures e.name != sweep.startingPeriod {
      var k :| e.usage.begin < k < sweep.started && StoppedAt(s, day, k);
      StartingPeriodsDiffer(s, day, e.usage.begin, k, sweep.started);
    }
    PutNewName(sweep.entries, sweep.startingPeriod, MakePeriod(sweep.started, end));
    entries := sweep.entries + [Entry(sweep.startingPeriod, MakePeriod(sweep.started, end))];
  }

  lemma BillableNow(s: InstanceSchedule, day: nat, minute: nat)
    requires day >= 1
    ensures var state := StateOf(s, At(day, minute));
            && (state == Running ==> Latched(s, day, minute) && Billable(s, day, minute))
            && (state == Any ==> (Latched(s, day, minute) <==> minute > 0 && Latched(s, day, minute - 1))
                                 && (Billable(s, day, minute) <==> Latched(s, day, minute)))
            && (state == Stopped ==> !Latched(s, day, minute)
                                     && (Billable(s, day, minute) <==> minute > 0 && Bridged(s, At(day, minute))))
  {
  }

  lemma AccountsWhenSteady(s: InstanceSchedule, day: nat, sweep: Sweep, minute: nat)
    requires day >= 1 && Accounts(s, day, sweep, minute)
    requires var state := StateOf(s, At(day, minute)); state == Any || (state == Stopped <==> sweep.phase != Up)
    ensures SweepStep(s, day, sweep, minute) == sweep
    ensures Accounts(s, day, sweep, minute + 1)
  {
    hide StateAtTime, DesiredStateAt, StateOf, NameOf, Latched, Billable, Bridged;
    BillableNow(s, day, minute);
    if minute > 0 && Bridged(s, At(day, minute)) && sweep.phase != Up {
      BridgeFollowsRunning(s, At(day, minute));
      assert At(day, minute) - 1 == At(day, minute - 1);
      BillableNow(s, day, minute - 1);
    }
    assert BillableMinutes(s, day, minute + 1)
        == BillableMinutes(s, day, minute) + if Billable(s, day, minute) then 1 else 0;
  }

  lemma AccountsWhenStarting(s: InstanceSchedule, day: nat, sweep: Sweep, minute: nat)
    requires day >= 1 && Accounts(s, day, sweep, minute)
    requires StateOf(s, At(day, minute)) == Running && sweep.phase != Up
    ensures Accounts(s, day, SweepStep(s, day, sweep, minute), minute + 1)
  {
    hide StateAtTime, DesiredStateAt, StateOf, NameOf, Latched, Billable, Bridged;
    BillableNow(s, day, minute);
    assert BillableMinutes(s, day, minute + 1) == BillableMinutes(s, day, minute) + 1;
  }

  lemma OneMoreEntry(entries: seq<Entry>, e: Entry, m: nat)
    ensures (exists f | f in entries + [e] :: InEntry(f, m)) <==> InEntry(e, m) || exists f | f in entries :: InEntry(f, m)
  {
    if f :| f in entries && InEntry(f, m) {
      assert f in entries + [e];
    }
    assert e in entries + [e];
  }

  lemma OverLater(s: InstanceSchedule, day: nat, e: Entry, minutes: nat)
    requires IsOver(s, day, e, minutes)
    ensures IsOver(s, day, e, minutes + 1)
  {
  }

  lemma ClosedIsOver(s: InstanceSchedule, day: nat, sweep: Sweep, minute: nat, end: nat)
    requires UpSince(s, day, sweep, minute) && minute <= end <= minute + 1
    requires StoppedAt(s, day, minute)
    ensures IsOver(s, day, Entry(sweep.startingPeriod, MakePeriod(sweep.started, end)), minute + 1)
  {
  }

  lemma AccountsWhenStopping(s: InstanceSchedule, day: nat, sweep: Sweep, minute: nat)
    requires day >= 1 && NamesIdentify(s) && Answers(s, day) && minute < MINUTES_PER_DAY
    requires Accounts(s, day, sweep, minute)
    requires StateOf(s, At(day, minute)) == Stopped && sweep.phase == Up
    ensures Accounts(s, day, SweepStep(s, day, sweep, minute), minute + 1)
  {
    hide StateAtTime, DesiredStateAt, StateOf, NameOf, Latched, Billable, MakePeriod, IsOver, InEntry, InOrder, Covers,
         BillableMinutes, TotalSeconds, Put;
    BillableNow(s, day, minute);
    var end := if Bridged(s, At(day, minute)) then minute + 1 else minute;
    assert end == minute + 1 <==> IsRunning(DesiredStateAt(s, At(day, minute), true));
    hide Bridged;
    var entries := CloseInterval(s, day, sweep, minute, end);
    var after := sweep.(phase := Down, entries := entries);
    assert SweepStep(s, day, sweep, minute) == after;
    hide SweepStep, NamesIdentify, Answers;
    assert StoppedAt(s, day, minute);
    ClosedIsOver(s, day, sweep, minute, end);
    forall f | f in sweep.entries ensures IsOver(s, day, f, minute + 1) {
      OverLater(s, day, f, minute);
    }
    ClosedCoversAll(s, day, sweep, minute, end);
    OneMoreBillable(s, day, minute);
  }

  lemma OneMoreBillable(s: InstanceSchedule, day: nat, minute: nat)
    requires day >= 1
    ensures BillableMinutes(s, day, minute + 1)
         == BillableMinutes(s, day, minute) + if Billable(s, day, minute) then 1 else 0
  {
    hide Billable;
  }

  lemma ClosedCovers(s: InstanceSchedule, day: nat, sweep: Sweep, minute: nat, end: nat, m: nat)
    requires day >= 1 && m <= minute <= end && Accounts(s, day, sweep, minute) && sweep.phase == Up
    requires Billable(s, day, minute) <==> minute < end
    ensures Billable(s, day, m) <==>
            exists f | f in sweep.entries + [Entry(sweep.startingPeriod, MakePeriod(sweep.started, end))] :: InEntry(f, m)
  {
    hide StateOf, NameOf, Billable, MakePeriod, IsOver, InEntry;
    var e := Entry(sweep.startingPeriod, MakePeriod(sweep.started, end));
    OneMoreEntry(sweep.entries, e, m);
    InClosedEntry(e, m);
    if m == minute {
      NotInEntriesAfterStart(s, day, sweep, minute);
    }
  }

  lemma ClosedCoversAll(s: InstanceSchedule, day: nat, sweep: Sweep, minute: nat, end: nat)
    requires day >= 1 && minute <= end && Accounts(s, day, sweep, minute) && sweep.phase == Up
    requires Billable(s, day, minute) <==> minute < end
    ensures Covers(s, day, sweep.(phase := Down, entries :=
              sweep.entries + [Entry(sweep.startingPeriod, MakePeriod(sweep.started, end))]), minute + 1)
  {
    forall m: nat | m <= minute
      ensures Billable(s, day, m) <==>
              exists f | f in sweep.entries + [Entry(sweep.startingPeriod, MakePeriod(sweep.started, end))] :: InEntry(f, m)
    {
      ClosedCovers(s, day, sweep, minute, end, m);
    }
  }

  lemma InClosedEntry(e: Entry, m: nat)
    ensures InEntry(e, m) <==> e.usage.begin <= m < e.usage.end
  {
  }

  lemma NotInEntriesAfterStart(s: InstanceSchedule, day: nat, sweep: Sweep, minute: nat)
    requires UpSince(s, day, sweep, minute)
    ensures !exists e | e in sweep.entries :: InEntry(e, minute)
  {
  }

  lemma AccountsAtStart(s: InstanceSchedule, day: nat)
    requires day >= 1
    ensures Accounts(s, day, EveryMinute(s, day, 0), 0)
  {
  }

  lemma {:induction false} EveryMinuteAccounts(s: InstanceSchedule, day: nat, minutes: nat)
    requires day >= 1 && NamesIdentify(s) && Answers(s, day) && minutes <= MINUTES_PER_DAY
    ensures Accounts(s, day, EveryMinute(s, day, minutes), minutes)
  {
    hide Accounts, StateOf, NamesIdentify, Answers, SweepStep, EveryMinute;
    if minutes == 0 {
      AccountsAtStart(s, day);
    } else {
      EveryMinuteAccounts(s, day, minutes - 1);
      OneMoreMinute(s, day, minutes - 1);
      var sweep := EveryMinute(s, day, minutes - 1);
      if StateOf(s, At(day, minutes - 1)) == Running && sweep.phase != Up {
        AccountsWhenStarting(s, day, sweep, minutes - 1);
      } else if StateOf(s, At(day, minutes - 1)) == Stopped && sweep.phase == Up {
        AccountsWhenStopping(s, day, sweep, minutes - 1);
      } else {
        AccountsWhenSteady(s, day, sweep, minutes - 1);
      }
    }
  }

  predicate IsNamedByStart(s: InstanceSchedule, day: nat, e: Entry) {
    StateOf(s, At(day, e.usage.begin)) == Running && e.name == NameOf(s, At(day, e.usage.begin))
  }

  /** One recorded interval: inside the day, billed by its true length, with hours rounded up. */
  predicate BilledByLength(u: Usage) {
    u.begin < u.end <= MINUTES_PER_DAY
    && u.billingSeconds == 60 * (u.end - u.begin)
    && 3600 * (u.billingHours - 1) < u.billingSeconds <= 3600 * u.billingHours
  }

  /**
   For every schedule and day, the report's intervals are disjoint and cover exactly the minutes in
   which an evaluation of every minute keeps the instance up, one-minute bridges included, and the
   billed seconds are sixty times their number.  No interval is lost to another of the same name, and
   each is named after the period that was deciding when it began.
   */
  lemma ReportBillsExactlyTheBillableMinutes(s: InstanceSchedule, day: nat)
    requires day >= 1 && NamesIdentify(s) && Answers(s, day)
    ensures var usage := UsageOfDay(s, day);
            && usage.billingSeconds == 60 * BillableMinutes(s, day, MINUTES_PER_DAY)
            && InOrder(usage.runningPeriods)
            && (forall e | e in usage.runningPeriods :: BilledByLength(e.usage) && IsNamedByStart(s, day, e))
            && forall m | 0 <= m < MINUTES_PER_DAY ::
                 Billable(s, day, m) <==> exists e | e in usage.runningPeriods :: InEntry(e, m)
  {
    hide StateAtTime, StateOf, NameOf, Latched, Billable, EveryMinute, BillableMinutes, MakePeriod, IsOver, InEntry,
         BilledByLength, IsNamedByStart, NamesIdentify, Answers;
    var sweep := EveryMinute(s, day, MINUTES_PER_DAY);
    EveryMinuteAccounts(s, day, MINUTES_PER_DAY);
    forall e | e in sweep.entries ensures BilledByLength(e.usage) && IsNamedByStart(s, day, e) {
      OverIsRecorded(s, day, e);
    }
    if sweep.phase == Up {
      var entries := CloseInterval(s, day, sweep, MINUTES_PER_DAY, MINUTES_PER_DAY);
      ClosingIsRecorded(s, day, sweep);
      var e := Entry(sweep.startingPeriod, MakePeriod(sweep.started, MINUTES_PER_DAY));
      forall m | 0 <= m < MINUTES_PER_DAY
        ensures Billable(s, day, m) <==> exists f | f in entries :: InEntry(f, m)
      {
        OneMoreEntry(sweep.entries, e, m);
        InClosedEntry(e, m);
      }
    }
  }

  lemma OverIsRecorded(s: InstanceSchedule, day: nat, e: Entry)
    requires IsOver(s, day, e, MINUTES_PER_DAY)
    ensures BilledByLength(e.usage) && IsNamedByStart(s, day, e)
  {
    hide StateOf, NameOf, At;
  }

  lemma ClosingIsRecorded(s: InstanceSchedule, day: nat, sweep: Sweep)
    requires UpSince(s, day, sweep, MINUTES_PER_DAY)
    ensures var e := Entry(sweep.startingPeriod, MakePeriod(sweep.started, MINUTES_PER_DAY));
            BilledByLength(e.usage) && IsNamedByStart(s, day, e)
  {
    hide StateOf, NameOf, At, IsOver;
  }

  /* ---------- the report of one period ---------- */

  predicate HasOnly(s: InstanceSchedule, p: RunningPeriod) {
    !HasOverride(s) && |s.periods| == 1 && s.periods[0].period == p
  }

  /** The minutes of its days that a period is billed for: up to its end, if it has one, from its begin. */
  function BilledFrom(p: RunningPeriod): nat {
    if p.begintime.Some? then p.begintime.value
    else if p.endtime.Some? then p.endtime.value
    else 0
  }

  function BilledUpTo(p: RunningPeriod): nat {
    if p.endtime.Some? then p.endtime.value else MINUTES_PER_DAY
  }

  lemma StateOfOnly(s: InstanceSchedule, p: RunningPeriod, t: nat)
    requires HasOnly(s, p) && PeriodState(p, t).Some?
    ensures StateAtTime(s, t).Some? && StateOf(s, t) == PeriodState(p, t).value
  {
    hide PeriodState;
    assert s.periods == [s.periods[0]];
    RunningExactlyWhenAPeriodIs(s, t);
    assert IsIn(s.periods[0], t, PeriodState(p, t).value);
    assert forall q | q in s.periods :: q == s.periods[0];
  }

  lemma {:induction false} BillableOfOnly(s: InstanceSchedule, p: RunningPeriod, day: nat, minute: nat)
    requires day >= 1 && HasOnly(s, p) && IsPeriod(p) && RecursOn(p.recurrence, day) == Some(true)
    requires minute < MINUTES_PER_DAY
    ensures Billable(s, day, minute) <==> BilledFrom(p) <= minute < BilledUpTo(p)
    decreases minute
  {
    assert DayOf(At(day, minute)) == day && MinuteOfDay(At(day, minute)) == minute;
    DayOfAPeriod(p, At(day, minute));
    StateOfOnly(s, p, At(day, minute));
    hide StateOf, PeriodState, At, StateAtTime;
    BillableNow(s, day, minute);
    NeverBridged(s, At(day, minute));
    hide Bridged;
    if minute > 0 {
      BillableOfOnly(s, p, day, minute - 1);
    }
  }

  lemma NeverBridged(s: InstanceSchedule, t: nat)
    requires t >= 1 && |s.periods| <= 1
    ensures !Bridged(s, t)
  {
  }

  lemma {:induction false} MinutesBetween(s: InstanceSchedule, day: nat, from: nat, upTo: nat, minutes: nat)
    requires day >= 1 && from <= upTo
    requires forall m | 0 <= m < minutes :: Billable(s, day, m) <==> from <= m < upTo
    ensures BillableMinutes(s, day, minutes) == if minutes <= from then 0 else if minutes <= upTo then minutes - from else upTo - from
    decreases minutes
  {
    hide Billable;
    if minutes > 0 {
      MinutesBetween(s, day, from, upTo, minutes - 1);
    }
  }

  /**
   On a day of its recurrence a schedule of one period is billed from the period's begin to its end, to
   midnight without an end, and for the whole day without either; an end alone is billed nothing.
   */
  lemma OnePeriodIsBilledItsTime(s: InstanceSchedule, p: RunningPeriod, day: nat)
    requires day >= 1 && HasOnly(s, p) && IsPeriod(p) && RecursOn(p.recurrence, day) == Some(true)
    ensures UsageOfDay(s, day).billingSeconds ==
            60 * match (p.begintime, p.endtime)
                 case (Some(begin), Some(end)) => end - begin
                 case (Some(begin), None) => 1440 - begin
                 case (None, Some(end)) => 0
                 case (None, None) => 1440
  {
    assert NamesIdentify(s) && Answers(s, day) by {
      assert forall q | q in s.periods :: q == s.periods[0];
    }
    hide StateOf, NamesIdentify, Answers, Billable, BillableMinutes, EveryMinute, RecursOn;
    ReportBillsExactlyTheBillableMinutes(s, day);
    forall m | 0 <= m < MINUTES_PER_DAY ensures Billable(s, day, m) <==> BilledFrom(p) <= m < BilledUpTo(p) {
      BillableOfOnly(s, p, day, m);
    }
    MinutesBetween(s, day, BilledFrom(p), BilledUpTo(p), MINUTES_PER_DAY);
  }

  /** The hours of a day: each interval is rounded up on its own, so at most one hour is added per interval. */
  lemma {:induction false} HoursAreRoundedUp(entries: seq<Entry>)
    requires forall e | e in entries :: BilledByLength(e.usage)
    ensures TotalSeconds(entries) <= 3600 * TotalHours(entries)
    ensures entries != [] ==> 3600 * (TotalHours(entries) - |entries|) < TotalSeconds(entries)
    ensures entries == [] ==> TotalHours(entries) == 0
  {
    if entries != [] {
      HoursAreRoundedUp(entries[1..]);
    }
  }

  /** The same for the report of a day. */
  lemma ReportedHours(s: InstanceSchedule, day: nat)
    requires day >= 1 && NamesIdentify(s) && Answers(s, day)
    ensures var usage := UsageOfDay(s, day);
            usage.billingSeconds <= 3600 * usage.billingHours
            && (usage.runningPeriods != [] ==>
                  3600 * (usage.billingHours - |usage.runningPeriods|) < usage.billingSeconds)
  {
    ReportBillsExactlyTheBillableMinutes(s, day);
    hide NamesIdentify, Answers, EveryMinute, Finish, Billable, BilledByLength, TotalSeconds, TotalHours;
    HoursAreRoundedUp(UsageOfDay(s, day).runningPeriods);
  }
}
