/**
 Running periods, instance schedules and the state a schedule asks for at a given time.

 Times are local minutes; a schedule's time zone is one fixed offset from UTC.  `None` stands for
 an evaluation that gives no answer, see `CronEvaluation`.
 */
module Schedules {
  import opened Wrappers
  import opened Calendar
  import opened CronExpression
  import CronEvaluation

  datatype ScheduleState = Running | Any | Stopped

  /* ---------- recurrences and periods ---------- */

  datatype Recurrence = Recurrence(monthdays: Expr, months: Expr, weekdays: Expr)

  const EVERY_DAY := Recurrence(All, All, All)

  /** A day has to satisfy all three fields; all three are evaluated. */
  function RecursOn(r: Recurrence, n: nat): Option<bool> {
    match (CronEvaluation.Contains(MonthDays, r.monthdays, n),
           CronEvaluation.Contains(Months, r.months, n),
           CronEvaluation.Contains(Weekdays, r.weekdays, n))
    case (Some(a), Some(b), Some(c)) => Some(a && b && c)
    case _ => None
  }

  /** Begin and end are minutes of the day. */
  datatype RunningPeriod = RunningPeriod(
    name: string, begintime: Option<nat>, endtime: Option<nat>, recurrence: Recurrence)

  predicate IsTime(time: Option<nat>) {
    time.Some? ==> time.value < MINUTES_PER_DAY
  }

  predicate IsPeriod(p: RunningPeriod) {
    p.name != "" && IsTime(p.begintime) && IsTime(p.endtime)
    && (p.begintime.Some? && p.endtime.Some? ==> p.begintime.value <= p.endtime.value)
  }

  datatype PeriodError = EmptyName | BeginAfterEnd

  function NewPeriod(name: string, begintime: Option<nat>, endtime: Option<nat>, recurrence: Recurrence)
    : (r: Result<RunningPeriod, PeriodError>)
    requires IsTime(begintime) && IsTime(endtime)
    ensures r.Ok? <==> IsPeriod(RunningPeriod(name, begintime, endtime, recurrence))
    ensures r.Ok? ==> r.value == RunningPeriod(name, begintime, endtime, recurrence)
  {
    if name == "" then Err(EmptyName)
    else if begintime.Some? && endtime.Some? && begintime.value > endtime.value then Err(BeginAfterEnd)
    else Ok(RunningPeriod(name, begintime, endtime, recurrence))
  }

  function CheckTime(p: RunningPeriod, minute: nat): ScheduleState {
    match (p.begintime, p.endtime)
    case (None, None) => Running
    case (None, Some(end)) => if minute >= end then Stopped else Any
    case (Some(begin), None) => if minute >= begin then Running else Any
    case (Some(begin), Some(end)) => if begin <= minute < end then Running else Stopped
  }

  function PeriodState(p: RunningPeriod, t: nat): Option<ScheduleState> {
    match RecursOn(p.recurrence, DayOf(t))
    case None => None
    case Some(false) => Some(Stopped)
    case Some(true) => Some(CheckTime(p, MinuteOfDay(t)))
  }

  /* ---------- schedules ---------- */

  datatype ScheduledPeriod = ScheduledPeriod(period: RunningPeriod, instanceType: Option<string>)

  datatype InstanceSchedule = InstanceSchedule(
    name: string,
    offset: int,
    periods: seq<ScheduledPeriod>,
    overrideStatus: Option<string>,
    stopNewInstances: bool,
    useMaintenanceWindow: bool,
    enforced: bool,
    hibernate: bool,
    retainRunning: bool)

  /** The desired state, with the instance type and the name of the period that decided it. */
  datatype Verdict = Verdict(state: ScheduleState, instanceType: Option<string>, periodName: Option<string>)

  predicate IsIn(p: ScheduledPeriod, t: nat, state: ScheduleState) {
    PeriodState(p.period, t) == Some(state)
  }

  predicate Evaluates(periods: seq<ScheduledPeriod>, t: nat) {
    forall p | p in periods :: PeriodState(p.period, t).Some?
  }

  predicate AnyIn(periods: seq<ScheduledPeriod>, t: nat, state: ScheduleState) {
    exists p | p in periods :: IsIn(p, t, state)
  }

  function RunningPeriods(periods: seq<ScheduledPeriod>, t: nat): (running: seq<ScheduledPeriod>)
    ensures forall p :: p in running <==> p in periods && IsIn(p, t, Running)
  {
    if periods == [] then []
    else (if IsIn(periods[0], t, Running) then [periods[0]] else []) + RunningPeriods(periods[1..], t)
  }

  /** Does `p` begin later than `latest`?  A period without a begin time begins before all others. */
  predicate BeginsLater(p: ScheduledPeriod, latest: ScheduledPeriod) {
    p.period.begintime.Some?
    && (latest.period.begintime.Some? ==> p.period.begintime.value > latest.period.begintime.value)
  }

  function NearestOf(latest: ScheduledPeriod, periods: seq<ScheduledPeriod>): (nearest: ScheduledPeriod)
    ensures nearest == latest || nearest in periods
    ensures !BeginsLater(latest, nearest) && forall p | p in periods :: !BeginsLater(p, nearest)
    decreases periods
  {
    if periods == [] then latest
    else
      var next := if BeginsLater(periods[0], latest) then periods[0] else latest;
      assert forall p | p in periods :: p == periods[0] || p in periods[1..];
      NearestOf(next, periods[1..])
  }

  lemma {:induction false} NearestOfAppend(latest: ScheduledPeriod, periods: seq<ScheduledPeriod>, p: ScheduledPeriod)
    ensures var nearest := NearestOf(latest, periods);
            NearestOf(latest, periods + [p]) == if BeginsLater(p, nearest) then p else nearest
    decreases periods
  {
    if periods == [] {
      assert [p][1..] == [];
    } else {
      assert (periods + [p])[1..] == periods[1..] + [p];
      NearestOfAppend(if BeginsLater(periods[0], latest) then periods[0] else latest, periods[1..], p);
    }
  }

  /** The loop that picks the running period that began last; an empty list raises. */
  method GetNearestRunningPeriod(periods: seq<ScheduledPeriod>) returns (r: Option<ScheduledPeriod>)
    ensures r == if periods == [] then None else Some(NearestOf(periods[0], periods))
    ensures r.Some? ==> r.value in periods && forall p | p in periods :: !BeginsLater(p, r.value)
  {
    if periods == [] {
      return None;
    }
    var latest := periods[0];
    for i := 0 to |periods|
      invariant latest == NearestOf(periods[0], periods[..i])
    {
      var period := periods[i];
      NearestOfAppend(periods[0], periods[..i], period);
      assert periods[..i] + [period] == periods[..i + 1];
      if period.period.begintime.None? {
        continue;
      } else if latest.period.begintime.None? {
        latest := period;
      } else if period.period.begintime.value > latest.period.begintime.value {
        latest := period;
      }
    }
    assert periods[..|periods|] == periods;
    return Some(latest);
  }

  predicate HasOverride(s: InstanceSchedule) {
    s.overrideStatus.Some? && s.overrideStatus.value != ""
  }

  /** The state at one instant, without looking at the neighbouring minutes. */
  function StateAtTime(s: InstanceSchedule, t: nat): Option<Verdict> {
    if HasOverride(s) then
      Some(Verdict(if s.overrideStatus.value == "running" then Running else Stopped, None, Some("override_status")))
    else if !Evaluates(s.periods, t) then None
    else if AnyIn(s.periods, t, Running) then
      var running := RunningPeriods(s.periods, t);
      var nearest := NearestOf(running[0], running);
      Some(Verdict(Running, nearest.instanceType, Some(nearest.period.name)))
    else if AnyIn(s.periods, t, Any) then Some(Verdict(Any, None, None))
    else Some(Verdict(Stopped, None, None))
  }

  /**
   The desired state at local time `t`.  In a stopped minute between two running ones the schedule
   stays running, so that periods one minute apart join up.
   */
  function DesiredStateAt(s: InstanceSchedule, t: nat, checkAdjacent: bool): Option<Verdict>
    requires t >= 1
  {
    match StateAtTime(s, t)
    case None => None
    case Some(now) =>
      if |s.periods| > 1 && now.state == Stopped && checkAdjacent then
        match (StateAtTime(s, t - 1), StateAtTime(s, t + 1))
        case (Some(before), Some(after)) =>
          Some(if before.state == Running && after.state == Running then after else now)
        case _ => None
      else Some(now)
  }

  function LocalTime(s: InstanceSchedule, utc: int): int {
    utc + s.offset
  }

  function DesiredState(s: InstanceSchedule, utc: int): Option<Verdict>
    requires LocalTime(s, utc) >= 1
  {
    DesiredStateAt(s, LocalTime(s, utc), true)
  }

  predicate IsRunning(verdict: Option<Verdict>) {
    verdict.Some? && verdict.value.state == Running
  }

  /* ---------- properties ---------- */

  /** A day on which the recurrence does not hold is a stopped day. */
  lemma OtherDaysAreStopped(p: RunningPeriod, t: nat)
    requires RecursOn(p.recurrence, DayOf(t)) == Some(false)
    ensures PeriodState(p, t) == Some(Stopped)
  {
  }

  /**
   On a day of the recurrence: a period with only a begin time runs from then on and never stops, one
   with only an end time stops from then on and never runs, one with both runs in between and is stopped
   otherwise, and one with neither runs all day.
   */
  lemma DayOfAPeriod(p: RunningPeriod, t: nat)
    requires RecursOn(p.recurrence, DayOf(t)) == Some(true) && IsPeriod(p)
    ensures PeriodState(p, t) == Some(Running) <==>
            (p.begintime.Some? || p.endtime.None?)
            && (p.begintime.Some? ==> p.begintime.value <= MinuteOfDay(t))
            && (p.endtime.Some? ==> MinuteOfDay(t) < p.endtime.value)
    ensures PeriodState(p, t) == Some(Stopped) <==>
            p.endtime.Some?
            && (p.endtime.value <= MinuteOfDay(t) || (p.begintime.Some? && MinuteOfDay(t) < p.begintime.value))
    ensures PeriodState(p, t) == Some(Any) <==>
            (p.begintime.Some? && p.endtime.None? && MinuteOfDay(t) < p.begintime.value)
            || (p.begintime.None? && p.endtime.Some? && MinuteOfDay(t) < p.endtime.value)
  {
  }

  /** An override decides at every time, whatever the periods and even if their evaluation raises. */
  lemma OverrideDecides(s: InstanceSchedule, t: nat)
    requires t >= 1 && HasOverride(s)
    ensures IsRunning(DesiredStateAt(s, t, true)) <==> s.overrideStatus == Some("running")
    ensures DesiredStateAt(s, t, true).Some? && DesiredStateAt(s, t, true).value.state != Any
    ensures DesiredStateAt(s, t, true).value.instanceType.None?
         && DesiredStateAt(s, t, true).value.periodName == Some("override_status")
  {
  }

  /** An empty override is none. */
  lemma EmptyOverrideIsNone(s: InstanceSchedule, t: nat)
    requires t >= 1
    ensures DesiredStateAt(s.(overrideStatus := Some("")), t, true) == DesiredStateAt(s.(overrideStatus := None), t, true)
  {
  }

  /** A minute that runs only because it is between two running ones has the verdict of the next one. */
  lemma BridgedVerdictIsTheNext(s: InstanceSchedule, t: nat)
    requires t >= 1 && IsRunning(DesiredStateAt(s, t, true)) && !IsRunning(StateAtTime(s, t))
    ensures IsRunning(StateAtTime(s, t - 1)) && IsRunning(StateAtTime(s, t + 1))
    ensures DesiredStateAt(s, t, true) == StateAtTime(s, t + 1)
  {
  }

  /** Only running verdicts without an override name a period or a type, and other minutes are as at the instant. */
  lemma OtherVerdictsAreBare(s: InstanceSchedule, t: nat)
    requires t >= 1 && !HasOverride(s) && DesiredStateAt(s, t, true).Some? && !IsRunning(DesiredStateAt(s, t, true))
    ensures DesiredStateAt(s, t, true).value.instanceType.None? && DesiredStateAt(s, t, true).value.periodName.None?
    ensures DesiredStateAt(s, t, true) == StateAtTime(s, t)
  {
  }

  /** Without an override a schedule is running exactly when one of its periods is. */
  lemma RunningExactlyWhenAPeriodIs(s: InstanceSchedule, t: nat)
    requires !HasOverride(s) && Evaluates(s.periods, t)
    ensures StateAtTime(s, t).Some?
    ensures StateAtTime(s, t).value.state == Running <==> AnyIn(s.periods, t, Running)
    ensures StateAtTime(s, t).value.state == Stopped <==> forall p | p in s.periods :: IsIn(p, t, Stopped)
  {
    if forall p | p in s.periods :: IsIn(p, t, Stopped) {
      assert !AnyIn(s.periods, t, Running) && !AnyIn(s.periods, t, Any);
    }
    if !AnyIn(s.periods, t, Running) && !AnyIn(s.periods, t, Any) {
      forall p | p in s.periods ensures IsIn(p, t, Stopped) {
        assert !IsIn(p, t, Running) && !IsIn(p, t, Any);
      }
    }
  }

  /** The verdict names a running period that no other running period begins after. */
  lemma VerdictNamesLatestRunningPeriod(s: InstanceSchedule, t: nat)
    requires !HasOverride(s) && IsRunning(StateAtTime(s, t))
    ensures exists p | p in s.periods ::
              IsIn(p, t, Running)
              && StateAtTime(s, t).value == Verdict(Running, p.instanceType, Some(p.period.name))
              && forall q | q in s.periods && IsIn(q, t, Running) :: !BeginsLater(q, p)
  {
    var running := RunningPeriods(s.periods, t);
    var nearest := NearestOf(running[0], running);
    assert nearest in running;
  }

  predicate NeverAny(periods: seq<ScheduledPeriod>) {
    forall p | p in periods :: p.period.begintime.Some? <==> p.period.endtime.Some?
  }

  lemma TwoSidedState(s: InstanceSchedule, t: nat)
    requires !HasOverride(s) && NeverAny(s.periods) && Evaluates(s.periods, t)
    ensures StateAtTime(s, t).Some?
    ensures StateAtTime(s, t).value.state == if AnyIn(s.periods, t, Running) then Running else Stopped
  {
    forall p | p in s.periods ensures !IsIn(p, t, Any) {
    }
    assert !AnyIn(s.periods, t, Any);
  }

  /** For two-sided and all-day periods: running in a running minute, or between two running minutes. */
  lemma RunningOrBridged(s: InstanceSchedule, t: nat)
    requires t >= 1 && !HasOverride(s) && NeverAny(s.periods)
    requires Evaluates(s.periods, t - 1) && Evaluates(s.periods, t) && Evaluates(s.periods, t + 1)
    ensures IsRunning(DesiredStateAt(s, t, true)) <==>
            AnyIn(s.periods, t, Running)
            || (|s.periods| > 1 && AnyIn(s.periods, t - 1, Running) && AnyIn(s.periods, t + 1, Running))
  {
    TwoSidedState(s, t - 1);
    TwoSidedState(s, t);
    TwoSidedState(s, t + 1);
    BridgeByState(s, t);
  }

  lemma BridgeByState(s: InstanceSchedule, t: nat)
    requires t >= 1 && StateAtTime(s, t - 1).Some? && StateAtTime(s, t).Some? && StateAtTime(s, t + 1).Some?
    ensures IsRunning(DesiredStateAt(s, t, true)) <==>
            StateAtTime(s, t).value.state == Running
            || (|s.periods| > 1 && StateAtTime(s, t).value.state == Stopped
                && StateAtTime(s, t - 1).value.state == Running && StateAtTime(s, t + 1).value.state == Running)
  {
  }
}
