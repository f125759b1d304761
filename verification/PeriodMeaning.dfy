/**
 From the texts of a period definition to the minutes in which its period is running.
 */
module PeriodMeaning {
  import opened Wrappers
  import opened Strings
  import opened Calendar
  import opened CronExpression
  import opened CronEvaluation
  import opened CronParser
  import opened CronAsg
  import opened CronReading
  import opened Schedules
  import opened PeriodDefinitions

  /* ---------- times ---------- */

  function TwoDigits(n: nat): string
    requires n < 100
  {
    [DigitChar(n / 10), DigitChar(n % 10)]
  }

  /** Is this minute of the day written as hours and minutes, with or without a leading zero for the hours? */
  predicate IsClockTime(s: string, t: nat) {
    t < 1440
    && (s == TwoDigits(t / 60) + [':'] + TwoDigits(t % 60)
        || (t < 600 && s == [DigitChar(t / 60)] + [':'] + TwoDigits(t % 60)))
  }

  lemma {:induction false} JoinOfSplit(s: string, sep: char)
    ensures Join(Split(s, sep), sep) == s
  {
    if s != "" {
      var rest := Split(s[1..], sep);
      JoinOfSplit(s[1..], sep);
      assert s == [s[0]] + s[1..];
      if s[0] == sep {
        assert Join([""] + rest, sep) == [sep] + Join(rest, sep) by {
          assert ([""] + rest)[1..] == rest;
        }
      } else {
        assert ([[s[0]] + rest[0]] + rest[1..])[1..] == rest[1..];
      }
    }
  }

  lemma OneDigit(s: string)
    requires |s| == 1
    ensures ParseNumber(s).Some? <==> IsDigit(s[0])
    ensures IsDigit(s[0]) ==> ParseNumber(s) == Some(DigitValue(s[0])) && s == [DigitChar(DigitValue(s[0]))]
  {
    assert s[0] in s && s[..|s| - 1] == "";
    if IsDigit(s[0]) {
      assert forall c | c in s :: c == s[0];
      assert NumberOf(s) == DigitValue(s[0]);
      assert DigitChar(DigitValue(s[0])) == s[0];
    }
  }

  lemma TwoDigitNumber(s: string)
    requires |s| == 2
    ensures ParseNumber(s).Some? <==> IsDigit(s[0]) && IsDigit(s[1])
    ensures IsDigit(s[0]) && IsDigit(s[1]) ==>
              ParseNumber(s) == Some(10 * DigitValue(s[0]) + DigitValue(s[1]))
              && s == TwoDigits(10 * DigitValue(s[0]) + DigitValue(s[1]))
  {
    assert s[0] in s && s[1] in s;
    if IsDigit(s[0]) && IsDigit(s[1]) {
      OneDigit(s[..1]);
      assert s[..1][0] == s[0] && s[..|s| - 1] == s[..1];
    }
  }

  lemma SplitClock(h: string, m: string)
    requires ':' !in h && ':' !in m
    ensures Split(h + [':'] + m, ':') == [h, m]
  {
    SplitNothing(h, ':');
    SplitNothing(m, ':');
    SplitConcat(h, m, ':');
  }

  lemma DigitsOf(n: nat)
    requires n < 100
    ensures ParseNumber(TwoDigits(n)) == Some(n) && ':' !in TwoDigits(n)
    ensures n < 10 ==> ParseNumber([DigitChar(n)]) == Some(n) && ':' !in [DigitChar(n)]
  {
    TwoDigitNumber(TwoDigits(n));
    if n < 10 {
      OneDigit([DigitChar(n)]);
    }
  }

  lemma ClockTimeIsRead(s: string, t: nat)
    requires IsClockTime(s, t)
    ensures IsValidTimeStr(s) && ParseTimeStr(s) == Some(t)
  {
    var hour, minute := t / 60, t % 60;
    DigitsOf(hour);
    DigitsOf(minute);
    if s == TwoDigits(hour) + [':'] + TwoDigits(minute) {
      SplitClock(TwoDigits(hour), TwoDigits(minute));
    } else {
      SplitClock([DigitChar(hour)], TwoDigits(minute));
    }
    hide Split, ParseNumber;
  }

  lemma ReadTimeIsClockTime(s: string, t: nat)
    requires IsValidTimeStr(s) && ParseTimeStr(s) == Some(t)
    ensures IsClockTime(s, t)
  {
    var parts := Split(s, ':');
    var h, m := parts[0], parts[1];
    JoinOfSplit(s, ':');
    assert s == h + [':'] + m by {
      assert parts[1..] == [m];
    }
    hide Split, Join, ParseNumber;
    PartsAreClockTime(h, m, t);
  }

  lemma PartsAreClockTime(h: string, m: string, t: nat)
    requires (|h| == 1 || |h| == 2) && |m| == 2 && ParseNumber(h).Some? && ParseNumber(m).Some?
    requires ParseNumber(h).value < 24 && ParseNumber(m).value < 60 && t == 60 * ParseNumber(h).value + ParseNumber(m).value
    ensures IsClockTime(h + [':'] + m, t)
  {
    TwoDigitNumber(m);
    if |h| == 1 {
      OneDigit(h);
    } else {
      TwoDigitNumber(h);
    }
    hide ParseNumber;
    assert t / 60 == ParseNumber(h).value && t % 60 == ParseNumber(m).value;
  }

  /**
   The times that a definition accepts are exactly the clock times, and each is read as its minute.  The
   pattern by itself also admits a bar for the first digit, which is then refused when it is read.
   */
  lemma TimesAreClockTimes(s: string, t: nat)
    ensures IsValidTimeStr(s) && ParseTimeStr(s) == Some(t) <==> IsClockTime(s, t)
  {
    hide IsValidTimeStr, ParseTimeStr, IsClockTime;
    if IsValidTimeStr(s) && ParseTimeStr(s) == Some(t) {
      ReadTimeIsClockTime(s, t);
    } else if IsClockTime(s, t) {
      ClockTimeIsRead(s, t);
    }
  }

  /* ---------- a definition with times alone ---------- */

  /** Is this an optional time, missing or empty for none? */
  predicate IsTimeText(text: Option<string>, time: Option<nat>) {
    if Truthy(text) then time.Some? && IsClockTime(text.value, time.value) else time.None?
  }

  lemma TimeIsRead(text: Option<string>, time: Option<nat>)
    requires IsTimeText(text, time)
    ensures TimeOf(text) == Some(time) && IsTime(time) && (Truthy(text) ==> IsValidTimeStr(text.value))
  {
    hide IsValidTimeStr, ParseTimeStr, IsClockTime;
    if Truthy(text) {
      TimesAreClockTimes(text.value, time.value);
      assert time.value < MINUTES_PER_DAY by {
        assert ParseTimeStr(text.value).Some?;
      }
    }
  }

  /** The fields of a definition whose texts are read as these times and expressions. */
  predicate Reads(p: PeriodDefinition, begin: Option<nat>, end: Option<nat>, r: Recurrence) {
    && p.name != "" && IsTimeText(p.begintime, begin) && IsTimeText(p.endtime, end)
    && (p.begintime.Some? || p.endtime.Some? || p.weekdays.Some? || p.months.Some? || p.monthdays.Some?)
    && ParseField(MonthDays, p.monthdays) == Some(r.monthdays)
    && ParseField(Months, p.months) == Some(r.months)
    && ParseField(Weekdays, p.weekdays) == Some(r.weekdays)
  }

  /** Such a definition is accepted exactly if it does not begin after its end, and is that period. */
  lemma DefinitionIsItsPeriod(p: PeriodDefinition, begin: Option<nat>, end: Option<nat>, r: Recurrence)
    requires Reads(p, begin, end, r)
    ensures IsDefinition(p) <==> (begin.Some? && end.Some? ==> begin.value <= end.value)
    ensures IsDefinition(p) ==>
              ToRunningPeriod(p) == Some(RunningPeriod(p.name, begin, end, r)) && IsPeriod(RunningPeriod(p.name, begin, end, r))
  {
    hide IsValidTimeStr, IsTimeText, ParseField, TimeOf;
    TimeIsRead(p.begintime, begin);
    TimeIsRead(p.endtime, end);
  }

  /** Every accepted definition reads as some times and expressions. */
  lemma EveryDefinitionReads(p: PeriodDefinition) returns (begin: Option<nat>, end: Option<nat>, r: Recurrence)
    requires IsDefinition(p)
    ensures Reads(p, begin, end, r)
  {
    begin, end := TimeOf(p.begintime).value, TimeOf(p.endtime).value;
    r := Recurrence(ParseField(MonthDays, p.monthdays).value, ParseField(Months, p.months).value,
                    ParseField(Weekdays, p.weekdays).value);
    hide IsValidTimeStr, ParseTimeStr, IsClockTime, ParseField;
    if Truthy(p.begintime) {
      TimesAreClockTimes(p.begintime.value, begin.value);
    }
    if Truthy(p.endtime) {
      TimesAreClockTimes(p.endtime.value, end.value);
    }
  }

  /**
   So an accepted definition is running, on the days of all three of its sets, from its begin time up to
   its end time; with no times it runs all day, and with an end time alone it never runs.
   */
  lemma DefinitionRuns(p: PeriodDefinition, begin: Option<nat>, end: Option<nat>, r: Recurrence, t: nat)
    requires Reads(p, begin, end, r) && IsDefinition(p) && RecursOn(r, DayOf(t)).Some?
    ensures ToRunningPeriod(p).Some?
    ensures PeriodState(ToRunningPeriod(p).value, t) == Some(Running) <==>
            RecursOn(r, DayOf(t)) == Some(true)
            && (begin.Some? || end.None?)
            && (begin.Some? ==> begin.value <= MinuteOfDay(t)) && (end.Some? ==> MinuteOfDay(t) < end.value)
  {
    hide RecursOn, Reads, IsDefinition, ToRunningPeriod, IsPeriod, PeriodState;
    DefinitionIsItsPeriod(p, begin, end, r);
    var period := RunningPeriod(p.name, begin, end, r);
    match RecursOn(r, DayOf(t))
    case Some(true) => DayOfAPeriod(period, t);
    case Some(false) => OtherDaysAreStopped(period, t);
  }

  /* ---------- office hours ---------- */

  /** The text of a range of weekdays, as in "mon-fri"; it may go around the end of the week. */
  function WeekdayRange(first: nat, last: nat): string
    requires first <= 6 && last <= 6
  {
    DayName(first) + ['-'] + DayName(last)
  }

  function DayName(day: nat): string
    requires day <= 6
  {
    WEEKDAY_NAMES[day][..3]
  }

  lemma DayNameReads(day: nat)
    requires day <= 6
    ensures IsWord(DayName(day)) && ParseSingle(Weekdays, DayName(day)) == Some(Numeric(day))
  {
    NumericReadsBack(Weekdays, day);
    hide ParseSingle, IsWord;
  }

  lemma WeekdayRangeReads(first: nat, last: nat)
    requires first <= 6 && last <= 6
    ensures ParseField(Weekdays, Some([WeekdayRange(first, last)])) == Some(Range(first, NumericEnd(last), 1))
  {
    hide ParsePart, ParseSingle, ParseMulti, IsWord, DayName;
    DayNameReads(first);
    DayNameReads(last);
    WordRangeReads(Weekdays, DayName(first), DayName(last), first, last);
    OneWordField(Weekdays, WeekdayRange(first, last));
  }

  lemma WordRangeReads(field: Field, a: string, b: string, start: nat, end: nat)
    requires IsWord(a) && IsWord(b)
    requires ParseSingle(field, a) == Some(Numeric(start)) && ParseSingle(field, b) == Some(Numeric(end))
    ensures ParsePart(field, a + ['-'] + b) == Some(Range(start, NumericEnd(end), 1)) && ',' !in a + ['-'] + b
  {
    hide ParsePart, ParseSingle, IsWord, Lower;
    WordIsLower(b);
    assert IsToken(b);
    hide IsToken;
    RangePart(field, a, b, 1);
    var text, more := a + ['-'] + b, ['/'] + Decimal(1);
    assert text + ['/'] + Decimal(1) == text + more;
    CommaFree(text, more);
  }

  lemma CommaFree(a: string, b: string)
    requires ',' !in a + b
    ensures ',' !in a
  {
    assert forall i | 0 <= i < |a| :: (a + b)[i] == a[i];
  }

  lemma WeekdayRangeRecurs(first: nat, last: nat, n: nat)
    requires first <= 6 && last <= 6
    ensures RecursOn(EVERY_DAY.(weekdays := Range(first, NumericEnd(last), 1)), n)
         == Some((Weekday(n) - first) % 7 <= (last - first) % 7)
  {
    WeekdayRangesGoAround(first, NumericEnd(last), 1, n);
    assert Contains(MonthDays, All, n) == Some(true) && Contains(Months, All, n) == Some(true);
    hide Contains;
  }

  /**
   A definition of a range of weekdays with a begin and an end time is running exactly between these
   times on these days, around the weekend if the range goes around it.
   */
  lemma OfficeHours(p: PeriodDefinition, first: nat, last: nat, begin: nat, end: nat, t: nat)
    requires first <= 6 && last <= 6 && p.name != "" && p.months.None? && p.monthdays.None?
    requires p.weekdays == Some([WeekdayRange(first, last)])
    requires p.begintime.Some? && IsClockTime(p.begintime.value, begin)
    requires p.endtime.Some? && IsClockTime(p.endtime.value, end) && begin <= end
    ensures IsDefinition(p) && ToRunningPeriod(p).Some?
    ensures PeriodState(ToRunningPeriod(p).value, t) ==
            Some(if (Weekday(DayOf(t)) - first) % 7 <= (last - first) % 7 && begin <= MinuteOfDay(t) < end
                 then Running else Stopped)
  {
    hide ParseField, WeekdayRange, IsClockTime, IsDefinition, ToRunningPeriod, RecursOn;
    var r := EVERY_DAY.(weekdays := Range(first, NumericEnd(last), 1));
    ClockTimeIsNotEmpty(p.begintime.value, begin);
    ClockTimeIsNotEmpty(p.endtime.value, end);
    WeekdayRangeReads(first, last);
    NothingIsEveryDay();
    assert Reads(p, Some(begin), Some(end), r);
    hide Reads;
    DefinitionIsItsPeriod(p, Some(begin), Some(end), r);
    WeekdayRangeRecurs(first, last, DayOf(t));
  }

  lemma ClockTimeIsNotEmpty(s: string, t: nat)
    requires IsClockTime(s, t)
    ensures s != ""
  {
  }

  lemma NothingIsEveryDay()
    ensures ParseField(MonthDays, None) == Some(All) && ParseField(Months, None) == Some(All)
  {
  }
}
