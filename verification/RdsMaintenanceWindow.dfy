/**
 The schedule built from an RDS preferred maintenance window, "ddd:hh:mm-ddd:hh:mm" in UTC.
 */
module RdsMaintenanceWindow {
  import opened Wrappers
  import opened Calendar
  import opened CronExpression
  import CronParser
  import CronAsg
  import opened Schedules

  const MINUTES_PER_WEEK := 7 * MINUTES_PER_DAY

  /** The window string, split into its parts; times are minutes of the day. */
  datatype RdsWindow = RdsWindow(startDay: string, startTime: nat, stopDay: string, stopTime: nat)

  datatype RdsError = UnknownDay | BadPeriod(error: PeriodError)

  const DAYS := ["mon", "tue", "wed", "thu", "fri", "sat", "sun"]

  /** The list used to step back one day: Sunday is at both ends and is looked up from the right. */
  const DAYS_FROM_SUNDAY := ["sun"] + DAYS

  function IndexFrom(names: seq<string>, name: string, from: nat): (r: Option<nat>)
    requires from <= |names|
    ensures r.Some? ==> from <= r.value < |names| && names[r.value] == name
    ensures r.Some? ==> forall i | from <= i < r.value :: names[i] != name
    ensures r.None? ==> forall i | from <= i < |names| :: names[i] != name
    decreases |names| - from
  {
    if from == |names| then None
    else if names[from] == name then Some(from)
    else IndexFrom(names, name, from + 1)
  }

  /** The weekday parser reads each day as its number, so looking a day up in the list stands for parsing it. */
  lemma DaysParseToNumbers(k: nat)
    requires k < 7
    ensures CronParser.ParseField(Weekdays, Some([DAYS[k]])) == Some(Numeric(k))
  {
    var names := CronParser.WEEKDAY_NAMES;
    assert names[0][..3] == "mon" && names[1][..3] == "tue" && names[2][..3] == "wed" && names[3][..3] == "thu"
        && names[4][..3] == "fri" && names[5][..3] == "sat" && names[6][..3] == "sun";
    assert CronAsg.ToAsgNumeric(Weekdays, k) == Some(DAYS[k]);
    CronAsg.LeafReadsBack(Weekdays, Numeric(k));
    CronAsg.OneWordField(Weekdays, DAYS[k]);
  }

  const WINDOW_NAME := "RDS preferred Maintenance Window Period"

  function WeeklyPeriod(name: string, day: string, begin: nat, end: nat): Result<ScheduledPeriod, RdsError>
    requires begin < MINUTES_PER_DAY && end < MINUTES_PER_DAY
  {
    match IndexFrom(DAYS, day, 0)
    case None => Err(UnknownDay)
    case Some(weekday) =>
      match NewPeriod(name, Some(begin), Some(end), EVERY_DAY.(weekdays := Numeric(weekday)))
      case Err(e) => Err(BadPeriod(e))
      case Ok(p) => Ok(ScheduledPeriod(p, None))
  }

  predicate IsRdsWindow(w: RdsWindow) {
    w.startTime < MINUTES_PER_DAY && w.stopTime < MINUTES_PER_DAY
  }

  function AdjustedTime(w: RdsWindow): nat
    requires IsRdsWindow(w)
  {
    (w.startTime - 10) % MINUTES_PER_DAY
  }

  /** Ten minutes early, which for a start before 00:10 is on the day before. */
  function AdjustedDay(w: RdsWindow): Result<string, RdsError> {
    if w.startTime >= 10 then Ok(w.startDay)
    else
      match IndexFrom(DAYS_FROM_SUNDAY, w.startDay, 1)
      case None => Err(UnknownDay)
      case Some(index) => Ok(DAYS_FROM_SUNDAY[index - 1])
  }

  function BuildPeriods(w: RdsWindow): Result<seq<ScheduledPeriod>, RdsError>
    requires IsRdsWindow(w)
  {
    match AdjustedDay(w)
    case Err(e) => Err(e)
    case Ok(startDay) =>
      if startDay == w.stopDay then
        (match WeeklyPeriod(WINDOW_NAME, startDay, AdjustedTime(w), w.stopTime)
         case Err(e) => Err(e)
         case Ok(p) => Ok([p]))
      else
        match (WeeklyPeriod(WINDOW_NAME + "-" + startDay, startDay, AdjustedTime(w), LAST_MINUTE),
               WeeklyPeriod(WINDOW_NAME + "-" + w.stopDay, w.stopDay, 0, w.stopTime))
        case (Err(e), _) => Err(e)
        case (_, Err(e)) => Err(e)
        case (Ok(p), Ok(q)) => Ok([p, q])
  }

  function BuildSchedule(w: RdsWindow): Result<InstanceSchedule, RdsError>
    requires IsRdsWindow(w)
  {
    match BuildPeriods(w)
    case Err(e) => Err(e)
    case Ok(periods) =>
      Ok(InstanceSchedule("RDS preferred Maintenance Window Schedule", 0, periods,
                          None, true, true, true, false, false))
  }

  lemma ScheduleIsInUtc(w: RdsWindow)
    requires IsRdsWindow(w) && BuildSchedule(w).Ok?
    ensures BuildSchedule(w).value.offset == 0
  {
  }

  /* ---------- the week as a circle ---------- */

  predicate IsDay(day: string) {
    IndexFrom(DAYS, day, 0).Some?
  }

  function DayNumber(day: string): (k: nat)
    requires IsDay(day)
    ensures k < 7 && DAYS[k] == day
  {
    IndexFrom(DAYS, day, 0).value
  }

  /** Minutes since Monday 00:00. */
  function MinuteOfWeek(t: int): (m: nat)
    ensures m < MINUTES_PER_WEEK
  {
    t % MINUTES_PER_WEEK
  }

  /** Ten minutes before the window, around the end of the week if need be. */
  function Start(w: RdsWindow): nat
    requires IsDay(w.startDay)
  {
    MinuteOfWeek(DayNumber(w.startDay) * MINUTES_PER_DAY + w.startTime - 10)
  }

  function Stop(w: RdsWindow): nat
    requires IsDay(w.stopDay)
  {
    DayNumber(w.stopDay) * MINUTES_PER_DAY + w.stopTime
  }

  /** The number of minutes of the window, margin included. */
  function Span(w: RdsWindow): nat
    requires IsDay(w.startDay) && IsDay(w.stopDay)
  {
    (Stop(w) - Start(w)) % MINUTES_PER_WEEK
  }

  predicate InWindow(w: RdsWindow, t: nat)
    requires IsDay(w.startDay) && IsDay(w.stopDay)
  {
    (MinuteOfWeek(t) - Start(w)) % MINUTES_PER_WEEK < Span(w)
  }

  /** How many days after the day it starts on, margin included, the window stops. */
  function DaysLater(w: RdsWindow): nat
    requires IsDay(w.startDay) && IsDay(w.stopDay)
  {
    (DayNumber(w.stopDay) - Start(w) / MINUTES_PER_DAY) % 7
  }

  lemma DaysAreDistinct(i: nat, j: nat)
    requires i < 7 && j < 7 && DAYS[i] == DAYS[j]
    ensures i == j
  {
    assert DAYS[i][0] == DAYS[j][0] && DAYS[i][1] == DAYS[j][1];
  }

  lemma NumberOfDay(k: nat)
    requires k < 7
    ensures IsDay(DAYS[k]) && DayNumber(DAYS[k]) == k
  {
    DaysAreDistinct(DayNumber(DAYS[k]), k);
  }

  lemma AdjustedDayIsDayBefore(w: RdsWindow)
    requires IsRdsWindow(w) && IsDay(w.startDay)
    ensures var k := DayNumber(w.startDay);
            AdjustedDay(w) == Ok(DAYS[if w.startTime >= 10 then k else if k == 0 then 6 else k - 1])
  {
    var k := DayNumber(w.startDay);
    if w.startTime < 10 {
      assert DAYS_FROM_SUNDAY[k + 1] == w.startDay;
      var index := IndexFrom(DAYS_FROM_SUNDAY, w.startDay, 1).value;
      assert DAYS_FROM_SUNDAY[index] == DAYS[index - 1];
      DaysAreDistinct(index - 1, k);
    }
  }

  lemma StartDayAndTime(w: RdsWindow)
    requires IsRdsWindow(w) && IsDay(w.startDay)
    ensures var k := DayNumber(w.startDay);
            Start(w) / MINUTES_PER_DAY == if w.startTime >= 10 then k else if k == 0 then 6 else k - 1
    ensures AdjustedTime(w) == Start(w) % MINUTES_PER_DAY
  {
  }

  /** Stepping back ten minutes on the circle of the week is what the day list and the time do together. */
  lemma AdjustedStart(w: RdsWindow)
    requires IsRdsWindow(w) && IsDay(w.startDay)
    ensures AdjustedDay(w).Ok? && IsDay(AdjustedDay(w).value)
    ensures DayNumber(AdjustedDay(w).value) == Start(w) / MINUTES_PER_DAY
    ensures AdjustedTime(w) == Start(w) % MINUTES_PER_DAY
  {
    hide AdjustedDay, Start, AdjustedTime, IndexFrom;
    AdjustedDayIsDayBefore(w);
    StartDayAndTime(w);
    NumberOfDay(Start(w) / MINUTES_PER_DAY);
  }

  /* ---------- when the schedule is running ---------- */

  lemma WeeklyPeriodRuns(name: string, day: string, begin: nat, end: nat, t: nat)
    requires begin < MINUTES_PER_DAY && end < MINUTES_PER_DAY && name != "" && IsDay(day)
    ensures WeeklyPeriod(name, day, begin, end) == Err(BadPeriod(BeginAfterEnd)) <==> begin > end
    ensures begin <= end ==> WeeklyPeriod(name, day, begin, end).Ok?
    ensures begin <= end ==> var p := WeeklyPeriod(name, day, begin, end).value;
              p.period.begintime.Some? && p.period.endtime.Some?
              && PeriodState(p.period, t).Some?
              && (IsIn(p, t, Running) <==>
                  Weekday(DayOf(t)) == DayNumber(day) && begin <= MinuteOfDay(t) < end)
  {
  }

  /** Running without help from the neighbouring minutes. */
  predicate CoveredBy(w: RdsWindow, t: nat)
    requires IsRdsWindow(w) && IsDay(w.startDay) && IsDay(w.stopDay)
  {
    var day, minute := Weekday(DayOf(t)), MinuteOfDay(t);
    var startDay, startMinute := Start(w) / MINUTES_PER_DAY, Start(w) % MINUTES_PER_DAY;
    if startDay == DayNumber(w.stopDay) then day == startDay && startMinute <= minute < w.stopTime
    else
      (day == startDay && startMinute <= minute < LAST_MINUTE)
      || (day == DayNumber(w.stopDay) && minute < w.stopTime)
  }

  /** Starting and stopping on one day with the stop before the start, which the period rules refuse. */
  predicate GoesAllAround(w: RdsWindow)
    requires IsRdsWindow(w) && IsDay(w.startDay) && IsDay(w.stopDay)
  {
    DaysLater(w) == 0 && w.stopTime < Start(w) % MINUTES_PER_DAY
  }

  lemma DayNumbersDecide(a: string, b: string)
    requires IsDay(a) && IsDay(b)
    ensures a == b <==> DayNumber(a) == DayNumber(b)
  {
  }

  lemma PeriodsCover(w: RdsWindow, t: nat)
    requires IsRdsWindow(w) && IsDay(w.startDay) && IsDay(w.stopDay)
    ensures BuildPeriods(w) == Err(BadPeriod(BeginAfterEnd)) <==> GoesAllAround(w)
    ensures !GoesAllAround(w) ==> BuildPeriods(w).Ok?
    ensures !GoesAllAround(w) ==> var periods := BuildPeriods(w).value;
              NeverAny(periods) && Evaluates(periods, t)
              && (|periods| > 1 <==> DaysLater(w) != 0)
              && (AnyIn(periods, t, Running) <==> CoveredBy(w, t))
  {
    hide IsDay, DayNumber, Start, PeriodState, WeeklyPeriod, AdjustedTime;
    AdjustedStart(w);
    var startDay, start := AdjustedDay(w).value, AdjustedTime(w);
    DayNumbersDecide(startDay, w.stopDay);
    if startDay == w.stopDay {
      WeeklyPeriodRuns(WINDOW_NAME, startDay, start, w.stopTime, t);
      if start <= w.stopTime {
        assert BuildPeriods(w).value[0] in BuildPeriods(w).value;
      }
    } else {
      WeeklyPeriodRuns(WINDOW_NAME + "-" + startDay, startDay, start, LAST_MINUTE, t);
      WeeklyPeriodRuns(WINDOW_NAME + "-" + w.stopDay, w.stopDay, 0, w.stopTime, t);
      var periods := BuildPeriods(w).value;
      assert periods[0] in periods && periods[1] in periods;
    }
  }

  /** Minute 23:59 of the starting day, lost when the schedule starts there or stops at the next midnight. */
  predicate Missed(w: RdsWindow, t: nat)
    requires IsRdsWindow(w) && IsDay(w.startDay) && IsDay(w.stopDay)
  {
    DaysLater(w) == 1
    && MinuteOfWeek(t) == Start(w) / MINUTES_PER_DAY * MINUTES_PER_DAY + LAST_MINUTE
    && (w.stopTime == 0 || Start(w) % MINUTES_PER_DAY == LAST_MINUTE)
  }

  lemma RunsWhenCoveredOrBridged(w: RdsWindow, t: nat)
    requires IsRdsWindow(w) && IsDay(w.startDay) && IsDay(w.stopDay) && t >= 1 && !GoesAllAround(w)
    ensures BuildSchedule(w).Ok?
    ensures IsRunning(DesiredState(BuildSchedule(w).value, t)) <==>
            CoveredBy(w, t) || (DaysLater(w) != 0 && CoveredBy(w, t - 1) && CoveredBy(w, t + 1))
  {
    hide DesiredStateAt, BuildPeriods, CoveredBy, GoesAllAround;
    PeriodsCover(w, t - 1);
    PeriodsCover(w, t);
    PeriodsCover(w, t + 1);
    RunningOrBridged(BuildSchedule(w).value, t);
  }

  lemma OnTheWeek(t: nat)
    ensures MinuteOfWeek(t) == Weekday(DayOf(t)) * MINUTES_PER_DAY + MinuteOfDay(t)
  {
    var day := DayOf(t);
    assert t == day * MINUTES_PER_DAY + MinuteOfDay(t) && day == day / 7 * 7 + Weekday(day) && Weekday(day) < 7;
    hide DayOf, MinuteOfDay, Weekday;
    IntoTheWeek(t, day / 7, Weekday(day) * MINUTES_PER_DAY + MinuteOfDay(t));
  }

  lemma IntoTheWeek(t: nat, weeks: nat, minutes: nat)
    requires t == weeks * MINUTES_PER_WEEK + minutes && minutes < MINUTES_PER_WEEK
    ensures MinuteOfWeek(t) == minutes
  {
  }

  lemma NextOnTheWeek(t: nat)
    ensures MinuteOfWeek(t + 1) == if MinuteOfWeek(t) + 1 == MINUTES_PER_WEEK then 0 else MinuteOfWeek(t) + 1
  {
  }

  lemma AroundTheWeek(x: int)
    requires -MINUTES_PER_WEEK < x < MINUTES_PER_WEEK
    ensures x % MINUTES_PER_WEEK == if x < 0 then x + MINUTES_PER_WEEK else x
  {
  }

  /** Where the periods run, on minutes of the week. */
  lemma CoverOnTheWeek(w: RdsWindow, t: nat)
    requires IsRdsWindow(w) && IsDay(w.startDay) && IsDay(w.stopDay) && DaysLater(w) == 1
    ensures CoveredBy(w, t) <==>
            var m, lastMinute := MinuteOfWeek(t), Start(w) / MINUTES_PER_DAY * MINUTES_PER_DAY + LAST_MINUTE;
            Start(w) <= m < lastMinute || Stop(w) - w.stopTime <= m < Stop(w)
  {
    OnTheWeek(t);
  }

  lemma WindowOnTheWeek(w: RdsWindow, t: nat)
    requires IsRdsWindow(w) && IsDay(w.startDay) && IsDay(w.stopDay)
    ensures InWindow(w, t) <==>
            if Start(w) <= Stop(w) then Start(w) <= MinuteOfWeek(t) < Stop(w)
            else Start(w) <= MinuteOfWeek(t) || MinuteOfWeek(t) < Stop(w)
  {
    AroundTheWeek(Stop(w) - Start(w));
    AroundTheWeek(MinuteOfWeek(t) - Start(w));
  }

  lemma NextDayOnTheWeek(w: RdsWindow)
    requires IsRdsWindow(w) && IsDay(w.startDay) && IsDay(w.stopDay) && DaysLater(w) == 1
    ensures var lastMinute := Start(w) / MINUTES_PER_DAY * MINUTES_PER_DAY + LAST_MINUTE;
            Start(w) <= lastMinute < MINUTES_PER_WEEK
            && Stop(w) - w.stopTime == if lastMinute + 1 == MINUTES_PER_WEEK then 0 else lastMinute + 1
    ensures Start(w) % MINUTES_PER_DAY == LAST_MINUTE <==>
            Start(w) == Start(w) / MINUTES_PER_DAY * MINUTES_PER_DAY + LAST_MINUTE
  {
  }

  lemma CoverIsWindow(w: RdsWindow, t: nat)
    requires IsRdsWindow(w) && IsDay(w.startDay) && IsDay(w.stopDay) && t >= 1 && !GoesAllAround(w)
    requires DaysLater(w) <= 1
    ensures InWindow(w, t) && !Missed(w, t) <==>
            CoveredBy(w, t) || (DaysLater(w) != 0 && CoveredBy(w, t - 1) && CoveredBy(w, t + 1))
  {
    hide InWindow, IsDay, DayNumber, MinuteOfWeek;
    WindowOnTheWeek(w, t);
    if DaysLater(w) == 1 {
      CoverIsWindowNextDay(w, t);
    } else {
      OnTheWeek(t);
    }
  }

  lemma CoverIsWindowNextDay(w: RdsWindow, t: nat)
    requires IsRdsWindow(w) && IsDay(w.startDay) && IsDay(w.stopDay) && t >= 1 && DaysLater(w) == 1
    ensures InWindow(w, t) && !Missed(w, t) <==>
            CoveredBy(w, t) || (CoveredBy(w, t - 1) && CoveredBy(w, t + 1))
  {
    hide InWindow, CoveredBy, MinuteOfWeek, Start, Stop, DaysLater, IsDay;
    WindowOnTheWeek(w, t);
    CoverOnTheWeek(w, t - 1);
    CoverOnTheWeek(w, t);
    CoverOnTheWeek(w, t + 1);
    NextOnTheWeek(t - 1);
    NextOnTheWeek(t);
    NextDayOnTheWeek(w);
  }

  /**
   For every window that stops on the day it starts or on the day after, and at every UTC minute, the
   built schedule is running exactly on the cyclic interval from ten minutes before the window to its
   end, apart from the missed minute.
   */
  lemma ScheduleRunsExactlyOnWindow(w: RdsWindow, t: nat)
    requires IsRdsWindow(w) && IsDay(w.startDay) && IsDay(w.stopDay) && t >= 1
    requires DaysLater(w) <= 1 && !GoesAllAround(w)
    ensures BuildSchedule(w).Ok?
    ensures IsRunning(DesiredState(BuildSchedule(w).value, t)) <==> InWindow(w, t) && !Missed(w, t)
  {
    RunsWhenCoveredOrBridged(w, t);
    CoverIsWindow(w, t);
  }

  /** A window that goes all around the week to its own starting day is refused. */
  lemma WholeWeekIsRefused(w: RdsWindow)
    requires IsRdsWindow(w) && IsDay(w.startDay) && IsDay(w.stopDay)
    ensures BuildSchedule(w).Err? <==> GoesAllAround(w)
  {
    PeriodsCover(w, 0);
  }

  /** Is this a day strictly between the day the schedule starts on and the day it stops on? */
  predicate InBetween(w: RdsWindow, t: nat)
    requires IsDay(w.startDay) && IsDay(w.stopDay)
  {
    1 <= (Weekday(DayOf(t)) - Start(w) / MINUTES_PER_DAY) % 7 < DaysLater(w)
  }

  /** A window that stops later than the day after loses every minute of the days in between. */
  lemma MiddleDaysAreMissed(w: RdsWindow, t: nat)
    requires IsRdsWindow(w) && IsDay(w.startDay) && IsDay(w.stopDay) && InBetween(w, t) && t >= 1
    ensures BuildSchedule(w).Ok?
    ensures InWindow(w, t) && !IsRunning(DesiredState(BuildSchedule(w).value, t))
  {
    InWindowInBetween(w, t);
    NotCoveredInBetween(w, t);
    hide DesiredStateAt, BuildPeriods, CoveredBy, InWindow, Start;
    RunsWhenCoveredOrBridged(w, t);
  }

  lemma InWindowInBetween(w: RdsWindow, t: nat)
    requires IsRdsWindow(w) && IsDay(w.startDay) && IsDay(w.stopDay) && InBetween(w, t)
    ensures InWindow(w, t)
  {
    hide InWindow, IsDay, DayNumber, MinuteOfWeek;
    WindowOnTheWeek(w, t);
    OnTheWeek(t);
  }

  lemma NotCoveredInBetween(w: RdsWindow, t: nat)
    requires IsRdsWindow(w) && IsDay(w.startDay) && IsDay(w.stopDay) && InBetween(w, t) && t >= 1
    ensures !CoveredBy(w, t) && !(CoveredBy(w, t - 1) && CoveredBy(w, t + 1))
  {
    assert DayOf(t - 1) == DayOf(t) || DayOf(t + 1) == DayOf(t);
    hide Start, DayNumber;
  }

  /**
   The schedule runs on the window, apart from the missed minute, exactly for the windows that stop on
   the day they start, margin included, or on the day after.
   */
  lemma RunsOnWindowExactlyWhen(w: RdsWindow)
    requires IsRdsWindow(w) && IsDay(w.startDay) && IsDay(w.stopDay) && !GoesAllAround(w)
    ensures BuildSchedule(w).Ok?
    ensures (forall t: nat | t >= 1 :: IsRunning(DesiredState(BuildSchedule(w).value, t)) <==> InWindow(w, t) && !Missed(w, t))
       <==> DaysLater(w) <= 1
  {
    WholeWeekIsRefused(w);
    ScheduleIsInUtc(w);
    hide DesiredState, BuildSchedule, InWindow, Start;
    if DaysLater(w) <= 1 {
      forall t: nat | t >= 1
        ensures IsRunning(DesiredState(BuildSchedule(w).value, t)) <==> InWindow(w, t) && !Missed(w, t)
      {
        ScheduleRunsExactlyOnWindow(w, t);
      }
    } else {
      var t := ((Start(w) / MINUTES_PER_DAY + 1) % 7) * MINUTES_PER_DAY + 1;
      assert InBetween(w, t) by {
        FirstDayInBetween(w, t);
      }
      MiddleDaysAreMissed(w, t);
    }
  }

  lemma FirstDayInBetween(w: RdsWindow, t: nat)
    requires IsDay(w.startDay) && IsDay(w.stopDay) && DaysLater(w) >= 2
    requires t == ((Start(w) / MINUTES_PER_DAY + 1) % 7) * MINUTES_PER_DAY + 1
    ensures InBetween(w, t)
  {
    hide IsDay, DayNumber, MinuteOfWeek;
    assert DayOf(t) == (Start(w) / MINUTES_PER_DAY + 1) % 7;
  }

  /** An ordinary window: Tuesday 00:05 to Wednesday 00:04. */
  const SHORT_WINDOW := RdsWindow("tue", 5, "wed", 4)

  lemma ShortWindowNumbers()
    ensures IsRdsWindow(SHORT_WINDOW) && IsDay(SHORT_WINDOW.startDay) && IsDay(SHORT_WINDOW.stopDay)
    ensures Start(SHORT_WINDOW) == MINUTES_PER_DAY - 5 && Stop(SHORT_WINDOW) == 2 * MINUTES_PER_DAY + 4
  {
    assert DAYS[1] == "tue" && DAYS[2] == "wed";
    NumberOfDay(1);
    NumberOfDay(2);
    hide IsDay, DayNumber;
  }

  lemma TuesdayIsInBetween(t: nat)
    requires Weekday(DayOf(t)) == 1 && IsDay(SHORT_WINDOW.startDay) && IsDay(SHORT_WINDOW.stopDay)
    ensures InBetween(SHORT_WINDOW, t)
  {
    ShortWindowNumbers();
    hide Start;
    assert DayNumber(SHORT_WINDOW.stopDay) == 2 by {
      assert DAYS[2] == "wed";
      NumberOfDay(2);
    }
  }

  /** That window is shorter than a day, margin apart, and loses the whole of Tuesday. */
  lemma ShortWindowLosesTuesday(t: nat)
    requires t >= 1 && Weekday(DayOf(t)) == 1
    ensures IsRdsWindow(SHORT_WINDOW) && IsDay(SHORT_WINDOW.startDay) && IsDay(SHORT_WINDOW.stopDay)
    ensures Span(SHORT_WINDOW) - 10 < MINUTES_PER_DAY
    ensures BuildSchedule(SHORT_WINDOW).Ok?
    ensures InWindow(SHORT_WINDOW, t) && !IsRunning(DesiredState(BuildSchedule(SHORT_WINDOW).value, t))
  {
    ShortWindowNumbers();
    hide DesiredState, BuildSchedule, InWindow, Start, Stop, IsDay, InBetween;
    TuesdayIsInBetween(t);
    MiddleDaysAreMissed(SHORT_WINDOW, t);
  }
}
