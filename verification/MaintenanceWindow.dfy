/**
 SSM maintenance windows, and the schedule that one is compiled to.

 The compiled schedule names days by month and day of month only, ends the first day's period at
 23:59 and relies on the evaluator to join it to the next day's.
 */
module MaintenanceWindow {
  import opened Wrappers
  import opened Calendar
  import opened CronExpression
  import opened Schedules

  /** `nextExecution` is in local minutes, with seconds already dropped. */
  datatype Window = Window(
    accountId: string, region: string, windowId: string, windowName: string,
    offset: int, nextExecution: Option<nat>, durationHours: nat)
  {
    function NameId(): string {
      windowName + ":" + windowId
    }

    function AccountRegion(): string {
      accountId + ":" + region
    }
  }

  /** With ids that hold no colon, as SSM's do not, the key of a window tells its name and its id. */
  lemma NameIdIdentifies(v: Window, w: Window)
    requires ':' !in v.windowId && ':' !in w.windowId
    ensures v.NameId() == w.NameId() <==> v.windowName == w.windowName && v.windowId == w.windowId
  {
    if v.NameId() == w.NameId() {
      LastColon(v.windowName, v.windowId, w.windowName, w.windowId);
    }
  }

  lemma LastColon(a: string, x: string, b: string, y: string)
    requires ':' !in x && ':' !in y && a + ":" + x == b + ":" + y
    ensures a == b && x == y
  {
    var s, r := a + ":" + x, b + ":" + y;
    assert s[|a|] == ':' && r[|b|] == ':';
    assert forall k | |a| < k < |s| :: s[k] == x[k - |a| - 1];
    assert forall k | |b| < k < |r| :: r[k] == y[k - |b| - 1];
    assert |a| == |b|;
    assert a == s[..|a|] && b == r[..|b|] && x == s[|a| + 1..] && y == r[|b| + 1..];
  }

  datatype WindowError = NoNextExecutionTime | BadPeriod(error: PeriodError)

  /** The scheduler starts instances this early; a day more is far above every configurable interval. */
  predicate IsInterval(interval: nat) {
    interval + 10 <= MINUTES_PER_DAY
  }

  predicate IsWindow(w: Window) {
    1 <= w.durationHours <= 24
  }

  /** The period begins after the first day of the calendar, where Python's subtraction would overflow. */
  predicate InCalendar(w: Window, interval: nat) {
    w.nextExecution.Some? ==> w.nextExecution.value >= 2 * MINUTES_PER_DAY + interval + 10
  }

  function PeriodBegin(w: Window, interval: nat): nat
    requires w.nextExecution.Some? && InCalendar(w, interval)
  {
    w.nextExecution.value - (interval + 10)
  }

  function PeriodEnd(w: Window): nat
    requires w.nextExecution.Some?
  {
    w.nextExecution.value + 60 * w.durationHours
  }

  function DayRecurrence(n: nat): Recurrence {
    EVERY_DAY.(monthdays := Numeric(DateOf(n).day), months := Numeric(DateOf(n).month))
  }

  function PeriodOn(name: string, n: nat, begin: Option<nat>, end: Option<nat>): Result<ScheduledPeriod, WindowError>
    requires IsTime(begin) && IsTime(end)
  {
    match NewPeriod(name, begin, end, DayRecurrence(n))
    case Ok(p) => Ok(ScheduledPeriod(p, None))
    case Err(e) => Err(BadPeriod(e))
  }

  function Collect(rs: seq<Result<ScheduledPeriod, WindowError>>): (r: Result<seq<ScheduledPeriod>, WindowError>)
    ensures r.Ok? ==> |r.value| == |rs| && forall i | 0 <= i < |rs| :: rs[i] == Ok(r.value[i])
    ensures (forall i | 0 <= i < |rs| :: rs[i].Ok?) ==> r.Ok?
  {
    if rs == [] then Ok([])
    else
      match (rs[0], Collect(rs[1..]))
      case (Err(e), _) => Err(e)
      case (_, Err(e)) => Err(e)
      case (Ok(p), Ok(ps)) => Ok([p] + ps)
  }

  function PeriodsBetween(nameId: string, begin: nat, end: nat): Result<seq<ScheduledPeriod>, WindowError>
    requires begin <= end && DayOf(end) >= 1
  {
    var beginTime, endTime := Some(MinuteOfDay(begin)), Some(MinuteOfDay(end));
    if DateOf(DayOf(begin)).day == DateOf(DayOf(end)).day then
      Collect([PeriodOn(nameId + "-period", DayOf(begin), beginTime, endTime)])
    else if end - begin <= MINUTES_PER_DAY then
      Collect([PeriodOn(nameId + "-period-1", DayOf(begin), beginTime, Some(LAST_MINUTE)),
               PeriodOn(nameId + "-period-2", DayOf(end), Some(0), endTime)])
    else
      Collect([PeriodOn(nameId + "-period-1", DayOf(begin), beginTime, Some(LAST_MINUTE)),
               PeriodOn(nameId + "-period-2", DayOf(end) - 1, None, None),
               PeriodOn(nameId + "-period-3", DayOf(end), Some(0), endTime)])
  }

  function ToSchedule(w: Window, interval: nat): Result<InstanceSchedule, WindowError>
    requires InCalendar(w, interval)
  {
    if w.nextExecution.None? then Err(NoNextExecutionTime)
    else
      match PeriodsBetween(w.NameId(), PeriodBegin(w, interval), PeriodEnd(w))
      case Err(e) => Err(e)
      case Ok(periods) =>
        Ok(InstanceSchedule(w.NameId(), w.offset, periods, None, true, true, true, false, false))
  }

  /* ---------- when these periods are running ---------- */

  /** One period: the whole of day `n`, or part of it. */
  datatype Slot = Slot(n: nat, begin: Option<nat>, end: Option<nat>)

  predicate IsSlot(slot: Slot) {
    IsTime(slot.begin) && IsTime(slot.end) && (slot.begin.Some? <==> slot.end.Some?)
  }

  predicate InHours(slot: Slot, t: nat) {
    slot.begin.Some? && slot.end.Some? ==> slot.begin.value <= MinuteOfDay(t) < slot.end.value
  }

  predicate InSlot(slot: Slot, t: nat) {
    DayOf(t) == slot.n && InHours(slot, t)
  }

  /** In the slot, in whatever year. */
  predicate InSlotOfAnyYear(slot: Slot, t: nat) {
    SameMonthDay(DayOf(t), slot.n) && InHours(slot, t)
  }

  ghost predicate IsPeriodOf(r: Result<ScheduledPeriod, WindowError>, slot: Slot)
    requires IsSlot(slot)
  {
    r.Ok? && exists name :: r == PeriodOn(name, slot.n, slot.begin, slot.end)
  }

  lemma PeriodRunsInSlot(r: Result<ScheduledPeriod, WindowError>, slot: Slot, t: nat)
    requires IsSlot(slot) && IsPeriodOf(r, slot)
    ensures PeriodState(r.value.period, t).Some?
    ensures r.value.period.begintime.Some? <==> r.value.period.endtime.Some?
    ensures IsIn(r.value, t, Running) <==> InSlotOfAnyYear(slot, t)
  {
  }

  ghost predicate InSomeSlotOfAnyYear(slots: seq<Slot>, t: nat) {
    exists i | 0 <= i < |slots| :: InSlotOfAnyYear(slots[i], t)
  }

  lemma CollectedPeriodsRun(rs: seq<Result<ScheduledPeriod, WindowError>>, slots: seq<Slot>, t: nat)
    requires |rs| == |slots| && forall i | 0 <= i < |slots| :: IsSlot(slots[i]) && IsPeriodOf(rs[i], slots[i])
    ensures Collect(rs).Ok?
    ensures var periods := Collect(rs).value;
            |periods| == |slots| && NeverAny(periods) && Evaluates(periods, t)
            && (AnyIn(periods, t, Running) <==> InSomeSlotOfAnyYear(slots, t))
  {
    var periods := Collect(rs).value;
    forall i | 0 <= i < |slots|
      ensures PeriodState(periods[i].period, t).Some?
      ensures periods[i].period.begintime.Some? <==> periods[i].period.endtime.Some?
      ensures IsIn(periods[i], t, Running) <==> InSlotOfAnyYear(slots[i], t)
    {
      PeriodRunsInSlot(rs[i], slots[i], t);
    }
    hide InSlotOfAnyYear, IsIn;
    if i :| 0 <= i < |slots| && InSlotOfAnyYear(slots[i], t) {
      assert periods[i] in periods;
    }
  }

  /** Consecutive days have different days of the month. */
  lemma NearbyDaysDiffer(n: nat)
    ensures DateOf(n + 1).day != DateOf(n).day && DateOf(n + 2).day != DateOf(n).day
  {
    assert DateOf(n + 1) == NextDay(DateOf(n));
    assert DateOf(n + 2) == NextDay(DateOf(n + 1));
  }

  /* ---------- the schedule runs exactly on the window ---------- */

  /**
   The one minute a compiled schedule can miss: 23:59 of the first day, when the period begins there
   or when the window ends at the midnight right after it.
   */
  predicate Missed(begin: nat, end: nat, t: nat) {
    DayOf(begin) < DayOf(end) && DayOf(t) == DayOf(begin) && MinuteOfDay(t) == LAST_MINUTE
    && (t == begin || t + 1 == end)
  }

  /** The span is longer than a day but ends on the very next day, so the all-day period is on the first day. */
  predicate FirstDayIsWhole(begin: nat, end: nat) {
    end - begin > MINUTES_PER_DAY && DayOf(end) == DayOf(begin) + 1
  }

  function RunsFrom(begin: nat, end: nat): nat {
    if FirstDayIsWhole(begin, end) then DayOf(begin) * MINUTES_PER_DAY else begin
  }

  predicate RunsAt(begin: nat, end: nat, t: nat) {
    RunsFrom(begin, end) <= t < end && !Missed(begin, end, t)
  }

  /** Running without help from the neighbouring minutes. */
  predicate CoveredBy(begin: nat, end: nat, t: nat) {
    RunsFrom(begin, end) <= t < end
    && (DayOf(t) == DayOf(begin) < DayOf(end) && !FirstDayIsWhole(begin, end) ==> MinuteOfDay(t) < LAST_MINUTE)
  }

  function SlotsBetween(begin: nat, end: nat): (slots: seq<Slot>)
    requires begin <= end
    ensures forall slot | slot in slots :: IsSlot(slot)
  {
    var beginTime, endTime := Some(MinuteOfDay(begin)), Some(MinuteOfDay(end));
    if DayOf(begin) == DayOf(end) then [Slot(DayOf(begin), beginTime, endTime)]
    else if end - begin <= MINUTES_PER_DAY then
      [Slot(DayOf(begin), beginTime, Some(LAST_MINUTE)), Slot(DayOf(end), Some(0), endTime)]
    else
      [Slot(DayOf(begin), beginTime, Some(LAST_MINUTE)),
       Slot(DayOf(end) - 1, None, None),
       Slot(DayOf(end), Some(0), endTime)]
  }

  lemma SlotsCover(begin: nat, end: nat, t: nat)
    requires begin < end <= begin + 2 * MINUTES_PER_DAY
    ensures (exists i | 0 <= i < |SlotsBetween(begin, end)| :: InSlot(SlotsBetween(begin, end)[i], t))
       <==> CoveredBy(begin, end, t)
  {
    var slots := SlotsBetween(begin, end);
    assert CoveredBy(begin, end, t) <==>
        InSlot(slots[0], t) || (|slots| > 1 && InSlot(slots[1], t)) || (|slots| > 2 && InSlot(slots[2], t));
  }

  lemma PeriodsMatchSlots(nameId: string, begin: nat, end: nat) returns (rs: seq<Result<ScheduledPeriod, WindowError>>)
    requires nameId != "" && begin < end <= begin + 2 * MINUTES_PER_DAY && DayOf(end) >= 1
    ensures PeriodsBetween(nameId, begin, end) == Collect(rs)
    ensures var slots := SlotsBetween(begin, end);
            |rs| == |slots| && forall i | 0 <= i < |slots| :: IsSlot(slots[i]) && IsPeriodOf(rs[i], slots[i])
  {
    NearbyDaysDiffer(DayOf(begin));
    var beginTime, endTime := Some(MinuteOfDay(begin)), Some(MinuteOfDay(end));
    if DayOf(begin) == DayOf(end) {
      rs := [PeriodOn(nameId + "-period", DayOf(begin), beginTime, endTime)];
    } else if end - begin <= MINUTES_PER_DAY {
      rs := [PeriodOn(nameId + "-period-1", DayOf(begin), beginTime, Some(LAST_MINUTE)),
             PeriodOn(nameId + "-period-2", DayOf(end), Some(0), endTime)];
    } else {
      rs := [PeriodOn(nameId + "-period-1", DayOf(begin), beginTime, Some(LAST_MINUTE)),
             PeriodOn(nameId + "-period-2", DayOf(end) - 1, None, None),
             PeriodOn(nameId + "-period-3", DayOf(end), Some(0), endTime)];
    }
  }

  /** The compiled periods satisfy the period rules, so compiling never raises, and run in their slots of any year. */
  lemma PeriodsRunInSlots(nameId: string, begin: nat, end: nat, t: nat)
    requires nameId != "" && begin < end <= begin + 2 * MINUTES_PER_DAY && DayOf(end) >= 1
    ensures PeriodsBetween(nameId, begin, end).Ok?
    ensures var periods := PeriodsBetween(nameId, begin, end).value;
            NeverAny(periods) && Evaluates(periods, t)
            && (|periods| > 1 <==> DayOf(begin) < DayOf(end))
            && (AnyIn(periods, t, Running) <==> InSomeSlotOfAnyYear(SlotsBetween(begin, end), t))
  {
    hide PeriodsBetween, InSomeSlotOfAnyYear;
    var rs := PeriodsMatchSlots(nameId, begin, end);
    CollectedPeriodsRun(rs, SlotsBetween(begin, end), t);
  }

  lemma SlotsWithinAYear(begin: nat, end: nat, t: nat)
    requires begin < end <= begin + 2 * MINUTES_PER_DAY && -363 < DayOf(t) - DayOf(begin) < 363
    ensures InSomeSlotOfAnyYear(SlotsBetween(begin, end), t) <==> CoveredBy(begin, end, t)
  {
    SlotsCover(begin, end, t);
    var slots := SlotsBetween(begin, end);
    forall i | 0 <= i < |slots| ensures InSlotOfAnyYear(slots[i], t) <==> InSlot(slots[i], t) {
      if SameMonthDay(DayOf(t), slots[i].n) {
        SameMonthDayWithinAYear(DayOf(t), slots[i].n);
      }
    }
    hide InSlotOfAnyYear, InSlot, SlotsBetween;
  }

  lemma PeriodsCover(nameId: string, begin: nat, end: nat, t: nat)
    requires nameId != "" && begin < end <= begin + 2 * MINUTES_PER_DAY && DayOf(end) >= 1
    requires -363 < DayOf(t) - DayOf(begin) < 363
    ensures PeriodsBetween(nameId, begin, end).Ok?
    ensures var periods := PeriodsBetween(nameId, begin, end).value;
            NeverAny(periods) && Evaluates(periods, t)
            && (|periods| > 1 <==> DayOf(begin) < DayOf(end))
            && (AnyIn(periods, t, Running) <==> CoveredBy(begin, end, t))
  {
    PeriodsRunInSlots(nameId, begin, end, t);
    SlotsWithinAYear(begin, end, t);
  }

  /**
   For every window, margin and local time within a year of it, the compiled schedule, run through
   the evaluator, is running exactly from `RunsFrom` up to the end, apart from the missed minute.
   */
  lemma ScheduleRunsExactlyOnWindow(w: Window, interval: nat, t: nat)
    requires IsWindow(w) && IsInterval(interval) && InCalendar(w, interval) && w.nextExecution.Some?
    requires t >= 1 && -361 <= DayOf(t) - DayOf(PeriodBegin(w, interval)) <= 361
    ensures ToSchedule(w, interval).Ok?
    ensures IsRunning(DesiredStateAt(ToSchedule(w, interval).value, t, true))
       <==> RunsAt(PeriodBegin(w, interval), PeriodEnd(w), t)
  {
    PeriodsCover(w.NameId(), PeriodBegin(w, interval), PeriodEnd(w), t);
    PeriodsRunExactly(w.NameId(), PeriodBegin(w, interval), PeriodEnd(w), t, ToSchedule(w, interval).value);
  }

  lemma PeriodsRunExactly(nameId: string, begin: nat, end: nat, t: nat, s: InstanceSchedule)
    requires nameId != "" && begin < end <= begin + 2 * MINUTES_PER_DAY && DayOf(end) >= 1
    requires t >= 1 && -361 <= DayOf(t) - DayOf(begin) <= 361
    requires !HasOverride(s) && PeriodsBetween(nameId, begin, end) == Ok(s.periods)
    ensures IsRunning(DesiredStateAt(s, t, true)) <==> RunsAt(begin, end, t)
  {
    hide DesiredStateAt, PeriodsBetween, CoveredBy, RunsAt;
    PeriodsCover(nameId, begin, end, t - 1);
    PeriodsCover(nameId, begin, end, t);
    PeriodsCover(nameId, begin, end, t + 1);
    RunningOrBridged(s, t);
    BridgeOverMidnight(begin, end, t);
  }

  lemma BridgeOverMidnight(begin: nat, end: nat, t: nat)
    requires t >= 1 && begin < end <= begin + 2 * MINUTES_PER_DAY
    ensures RunsAt(begin, end, t) <==>
            CoveredBy(begin, end, t)
            || (DayOf(begin) < DayOf(end) && CoveredBy(begin, end, t - 1) && CoveredBy(begin, end, t + 1))
  {
  }

  /* ---------- consequences ---------- */

  /** Does the window's schedule want instances up at this UTC minute?  A window without a next execution never does. */
  predicate IsRunningAt(w: Window, utc: int, interval: nat)
    requires InCalendar(w, interval) && utc + w.offset >= 1
  {
    match ToSchedule(w, interval)
    case Err(_) => false
    case Ok(s) => IsRunning(DesiredState(s, utc))
  }

  /** The window is under way at local time `t`. */
  predicate UnderWay(w: Window, t: nat) {
    w.nextExecution.Some? && w.nextExecution.value <= t < PeriodEnd(w)
  }

  /** The last minute before a closing midnight, in a window whose margin begins less than a day before it. */
  predicate LastMinuteLost(w: Window, interval: nat, t: nat)
    requires w.nextExecution.Some? && InCalendar(w, interval)
  {
    t + 1 == PeriodEnd(w) && MinuteOfDay(PeriodEnd(w)) == 0 && PeriodEnd(w) - PeriodBegin(w, interval) <= MINUTES_PER_DAY
  }

  /** The schedule keeps instances up during the whole window itself, whatever the margin, but for that minute. */
  lemma WindowItselfIsCovered(w: Window, interval: nat, utc: int)
    requires IsWindow(w) && IsInterval(interval) && InCalendar(w, interval)
    requires utc + w.offset >= 1 && UnderWay(w, utc + w.offset)
    ensures IsRunningAt(w, utc, interval) <==> !LastMinuteLost(w, interval, utc + w.offset)
  {
    IsRunningAtExactly(w, interval, utc);
    LastMinuteOnly(PeriodBegin(w, interval), PeriodEnd(w), utc + w.offset);
  }

  lemma IsRunningAtExactly(w: Window, interval: nat, utc: int)
    requires IsWindow(w) && IsInterval(interval) && InCalendar(w, interval) && w.nextExecution.Some?
    requires utc + w.offset >= 1 && -361 <= DayOf(utc + w.offset) - DayOf(PeriodBegin(w, interval)) <= 361
    ensures IsRunningAt(w, utc, interval) <==> RunsAt(PeriodBegin(w, interval), PeriodEnd(w), utc + w.offset)
  {
    hide DesiredStateAt;
    ScheduleRunsExactlyOnWindow(w, interval, utc + w.offset);
    assert LocalTime(ToSchedule(w, interval).value, utc) == utc + w.offset;
  }

  lemma LastMinuteOnly(begin: nat, end: nat, t: nat)
    requires begin < t < end <= begin + 2 * MINUTES_PER_DAY
    ensures RunsAt(begin, end, t) <==>
            !(t + 1 == end && MinuteOfDay(end) == 0 && end - begin <= MINUTES_PER_DAY)
  {
  }

  /* ---------- in any year ---------- */

  /**
   The compiled schedule is not tied to its year: at every minute of every year it is running exactly in
   its slots, whose days are months and days of the month, and in a minute between two of theirs.
   */
  lemma ScheduleRunsInAnyYear(w: Window, interval: nat, t: nat)
    requires IsWindow(w) && IsInterval(interval) && InCalendar(w, interval) && w.nextExecution.Some? && t >= 1
    ensures ToSchedule(w, interval).Ok?
    ensures var begin, end := PeriodBegin(w, interval), PeriodEnd(w);
            var slots := SlotsBetween(begin, end);
            IsRunning(DesiredStateAt(ToSchedule(w, interval).value, t, true)) <==>
            InSomeSlotOfAnyYear(slots, t)
            || (DayOf(begin) < DayOf(end) && InSomeSlotOfAnyYear(slots, t - 1) && InSomeSlotOfAnyYear(slots, t + 1))
  {
    hide DesiredStateAt, PeriodsBetween, InSomeSlotOfAnyYear;
    var begin, end, nameId := PeriodBegin(w, interval), PeriodEnd(w), w.NameId();
    PeriodsRunInSlots(nameId, begin, end, t - 1);
    PeriodsRunInSlots(nameId, begin, end, t);
    PeriodsRunInSlots(nameId, begin, end, t + 1);
    RunningOrBridged(ToSchedule(w, interval).value, t);
  }

  /** The same moment of the year, with the same days before and after. */
  predicate SameDaysOfYear(t: nat, u: nat) {
    t >= 1 && u >= 1 && SameMoment(t - 1, u - 1) && SameMoment(t, u) && SameMoment(t + 1, u + 1)
  }

  /** The same time of day, month and day of month. */
  predicate SameMoment(t: nat, u: nat) {
    MinuteOfDay(t) == MinuteOfDay(u) && SameMonthDay(DayOf(t), DayOf(u))
  }

  lemma SlotsRecur(slots: seq<Slot>, t: nat, u: nat)
    requires SameMoment(t, u)
    ensures InSomeSlotOfAnyYear(slots, t) <==> InSomeSlotOfAnyYear(slots, u)
  {
    assert forall i | 0 <= i < |slots| :: InSlotOfAnyYear(slots[i], t) <==> InSlotOfAnyYear(slots[i], u);
  }

  /** In particular it asks for the same state at the same moment of any year with the same neighbouring days. */
  lemma ScheduleRecursEveryYear(w: Window, interval: nat, t: nat, u: nat)
    requires IsWindow(w) && IsInterval(interval) && InCalendar(w, interval) && w.nextExecution.Some?
    requires SameDaysOfYear(t, u)
    ensures ToSchedule(w, interval).Ok?
    ensures var s := ToSchedule(w, interval).value;
            IsRunning(DesiredStateAt(s, t, true)) <==> IsRunning(DesiredStateAt(s, u, true))
  {
    hide DesiredStateAt, ToSchedule, InSomeSlotOfAnyYear, SameMoment;
    ScheduleRunsInAnyYear(w, interval, t);
    ScheduleRunsInAnyYear(w, interval, u);
    var slots := SlotsBetween(PeriodBegin(w, interval), PeriodEnd(w));
    SlotsRecur(slots, t - 1, u - 1);
    SlotsRecur(slots, t, u);
    SlotsRecur(slots, t + 1, u + 1);
  }

  lemma NextMonthDay(n: nat, m: nat)
    requires SameMonthDay(n, m)
    ensures SameMonthDay(n + 1, m + 1) <==>
            (DateOf(m).month == 2 && DateOf(m).day == 28 ==> IsLeap(DateOf(n).year) == IsLeap(DateOf(m).year))
    ensures !SameMonthDay(n + 1, m)
  {
    assert DateOf(n + 1) == NextDay(DateOf(n)) && DateOf(m + 1) == NextDay(DateOf(m));
  }

  /**
   In another year, the two periods of a window over midnight join up at 23:59 of the first day exactly
   when the next day of the year is the second one: the minute is lost between 28 and 29 February, and
   between 28 February and 1 March, of the years that differ from the window's in being leap years.
   */
  lemma MidnightInAnyYear(w: Window, interval: nat, t: nat)
    requires IsWindow(w) && IsInterval(interval) && InCalendar(w, interval) && w.nextExecution.Some?
    requires var begin, end := PeriodBegin(w, interval), PeriodEnd(w);
             DayOf(end) == DayOf(begin) + 1 && end - begin <= MINUTES_PER_DAY
             && MinuteOfDay(begin) < LAST_MINUTE && MinuteOfDay(end) > 0
             && SameMonthDay(DayOf(t), DayOf(begin)) && MinuteOfDay(t) == LAST_MINUTE
    ensures ToSchedule(w, interval).Ok?
    ensures var first := DateOf(DayOf(PeriodBegin(w, interval)));
            IsRunning(DesiredStateAt(ToSchedule(w, interval).value, t, true)) <==>
            (first.month == 2 && first.day == 28 ==> IsLeap(DateOf(DayOf(t)).year) == IsLeap(first.year))
  {
    hide DesiredStateAt, ToSchedule;
    var begin, end := PeriodBegin(w, interval), PeriodEnd(w);
    ScheduleRunsInAnyYear(w, interval, t);
    assert DayOf(t - 1) == DayOf(t) && MinuteOfDay(t - 1) == LAST_MINUTE - 1;
    assert DayOf(t + 1) == DayOf(t) + 1 && MinuteOfDay(t + 1) == 0;
    NextMonthDay(DayOf(t), DayOf(begin));
    NearbyDaysDiffer(DayOf(begin));
    hide SameMonthDay, DateOf;
    var slots := SlotsBetween(begin, end);
    assert forall u: nat :: InSomeSlotOfAnyYear(slots, u) <==> InSlotOfAnyYear(slots[0], u) || InSlotOfAnyYear(slots[1], u);
  }
}
