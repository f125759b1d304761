/**
 Dates and times as the scheduler uses them: Python's proleptic Gregorian calendar.

 A day is counted from 0001-01-01, which is day 0 and a Monday; a local time is counted in
 minutes from 0001-01-01 00:00.  `DateOf` steps through the calendar one day at a time and
 `DayIndex`, which adds up years and months, is its inverse.
 */
module Calendar {
  const MINUTES_PER_DAY := 1440

  const LAST_MINUTE := 23 * 60 + 59

  datatype Date = Date(year: nat, month: nat, day: nat)

  predicate IsLeap(year: nat) {
    year % 4 == 0 && (year % 100 != 0 || year % 400 == 0)
  }

  function DaysInMonth(year: nat, month: nat): (days: nat)
    requires 1 <= month <= 12
    ensures 28 <= days <= 31
  {
    if month == 2 then
      if IsLeap(year) then 29 else 28
    else if month == 4 || month == 6 || month == 9 || month == 11 then 30
    else 31
  }

  predicate IsDate(d: Date) {
    1 <= d.year && 1 <= d.month <= 12 && 1 <= d.day <= DaysInMonth(d.year, d.month)
  }

  function NextDay(d: Date): (next: Date)
    requires IsDate(d)
    ensures IsDate(next)
  {
    if d.day < DaysInMonth(d.year, d.month) then d.(day := d.day + 1)
    else if d.month < 12 then Date(d.year, d.month + 1, 1)
    else Date(d.year + 1, 1, 1)
  }

  /** The date `n` days after 0001-01-01. */
  function DateOf(n: nat): (d: Date)
    ensures IsDate(d)
  {
    if n == 0 then Date(1, 1, 1) else NextDay(DateOf(n - 1))
  }

  function DaysInYear(year: nat): nat {
    if IsLeap(year) then 366 else 365
  }

  function DaysBeforeYear(year: nat): nat
    requires 1 <= year
  {
    if year == 1 then 0 else DaysBeforeYear(year - 1) + DaysInYear(year - 1)
  }

  function DaysBeforeMonth(year: nat, month: nat): nat
    requires 1 <= month <= 12
  {
    if month == 1 then 0 else DaysBeforeMonth(year, month - 1) + DaysInMonth(year, month - 1)
  }

  function DayIndex(d: Date): nat
    requires IsDate(d)
  {
    DaysBeforeYear(d.year) + DaysBeforeMonth(d.year, d.month) + d.day - 1
  }

  /** Monday is 0 and Sunday is 6. */
  function Weekday(n: nat): nat {
    n % 7
  }

  function DayOf(t: nat): nat {
    t / MINUTES_PER_DAY
  }

  function MinuteOfDay(t: nat): (m: nat)
    ensures m < MINUTES_PER_DAY
  {
    t % MINUTES_PER_DAY
  }

  lemma MonthsOfYear(year: nat, month: nat)
    requires 1 <= month <= 12
    ensures DaysBeforeMonth(year, month)
         == [0, 31, 59, 90, 120, 151, 181, 212, 243, 273, 304, 334][month - 1]
            + if month > 2 && IsLeap(year) then 1 else 0
    decreases month
  {
    if month > 1 {
      MonthsOfYear(year, month - 1);
    }
  }

  lemma DayIndexOfNextDay(d: Date)
    requires IsDate(d)
    ensures DayIndex(NextDay(d)) == DayIndex(d) + 1
  {
    MonthsOfYear(d.year, 12);
  }

  /** Counting days and adding up years and months agree. */
  lemma {:induction false} DayIndexOfDateOf(n: nat)
    ensures DayIndex(DateOf(n)) == n
  {
    if n == 0 {
      assert DateOf(0) == Date(1, 1, 1);
    } else {
      hide DayIndex, NextDay;
      DayIndexOfDateOf(n - 1);
      DayIndexOfNextDay(DateOf(n - 1));
    }
  }

  /** A date in an earlier year starts strictly before the later year does. */
  lemma {:induction false} DaysBeforeYearMonotone(y1: nat, y2: nat)
    requires 1 <= y1 <= y2
    ensures DaysBeforeYear(y1) + 365 * (y2 - y1) <= DaysBeforeYear(y2)
    decreases y2 - y1
  {
    if y1 < y2 {
      DaysBeforeYearMonotone(y1, y2 - 1);
    }
  }

  /** The days before a year in closed form: a leap day every four years, but only in every fourth century year. */
  lemma {:induction false} DaysBeforeYearClosed(year: nat)
    requires 1 <= year
    ensures DaysBeforeYear(year) == 365 * (year - 1) + (year - 1) / 4 - (year - 1) / 100 + (year - 1) / 400
    decreases year
  {
    if year > 1 {
      DaysBeforeYearClosed(year - 1);
      assert IsLeap(year - 1) <==> Divides(4, year - 1) && (Divides(100, year - 1) ==> Divides(400, year - 1));
      Centuries(year - 1);
      NextQuotients(year - 1);
      hide IsLeap, Divides;
    }
  }

  predicate Divides(k: nat, n: nat)
    requires k > 0
  {
    n % k == 0
  }

  lemma Centuries(n: nat)
    ensures Divides(400, n) ==> Divides(100, n)
    ensures Divides(100, n) ==> Divides(4, n)
  {
    if Divides(400, n) {
      Hundreds(n, 4 * (n / 400));
    }
    if Divides(100, n) {
      Fours(n, 25 * (n / 100));
    }
  }

  lemma Hundreds(n: nat, q: nat)
    requires n == 100 * q
    ensures Divides(100, n)
  {
  }

  lemma Fours(n: nat, q: nat)
    requires n == 4 * q
    ensures Divides(4, n)
  {
  }

  lemma NextQuotients(n: nat)
    requires n >= 1
    ensures n / 4 == (n - 1) / 4 + if Divides(4, n) then 1 else 0
    ensures n / 100 == (n - 1) / 100 + if Divides(100, n) then 1 else 0
    ensures n / 400 == (n - 1) / 400 + if Divides(400, n) then 1 else 0
  {
  }

  /** The calendar agrees with the Unix epoch, which was a Thursday. */
  lemma UnixEpoch(epoch: Date)
    requires epoch.year == 1970 && epoch.month == 1 && epoch.day == 1
    ensures DayIndex(epoch) == 719162 && Weekday(DayIndex(epoch)) == 3
  {
    DaysBeforeYearClosed(epoch.year);
    hide DaysBeforeYear;
  }

  lemma YearOfDayIndex(d: Date)
    requires IsDate(d)
    ensures DaysBeforeYear(d.year) <= DayIndex(d) < DaysBeforeYear(d.year + 1)
  {
    MonthsOfYear(d.year, d.month);
  }

  lemma {:induction false} DaysBeforeMonthMonotone(year: nat, m1: nat, m2: nat)
    requires 1 <= m1 < m2 <= 12
    ensures DaysBeforeMonth(year, m1) + DaysInMonth(year, m1) <= DaysBeforeMonth(year, m2)
    decreases m2
  {
    hide DaysInMonth;
    if m1 < m2 - 1 {
      DaysBeforeMonthMonotone(year, m1, m2 - 1);
    }
  }

  lemma DayIndexInjective(a: Date, b: Date)
    requires IsDate(a) && IsDate(b) && DayIndex(a) == DayIndex(b)
    ensures a == b
  {
    YearOfDayIndex(a);
    YearOfDayIndex(b);
    hide DaysBeforeYear;
    if a.year < b.year {
      DaysBeforeYearMonotone(a.year + 1, b.year);
    } else if b.year < a.year {
      DaysBeforeYearMonotone(b.year + 1, a.year);
    } else if a.month < b.month {
      DaysBeforeMonthMonotone(a.year, a.month, b.month);
    } else if b.month < a.month {
      DaysBeforeMonthMonotone(a.year, b.month, a.month);
    }
  }

  /** `DayIndex` is the inverse of counting days, in both directions. */
  lemma DateOfDayIndex(d: Date)
    requires IsDate(d)
    ensures DateOf(DayIndex(d)) == d
  {
    DayIndexOfDateOf(DayIndex(d));
    DayIndexInjective(DateOf(DayIndex(d)), d);
  }

  predicate SameMonthDay(m: nat, n: nat) {
    DateOf(m).month == DateOf(n).month && DateOf(m).day == DateOf(n).day
  }

  /** A month and day without a year names one day among any 365 consecutive ones. */
  lemma SameMonthDayWithinAYear(m: nat, n: nat)
    requires SameMonthDay(m, n) && -365 < m - n < 365
    ensures m == n
  {
    var a, b := DateOf(m), DateOf(n);
    DayIndexOfDateOf(m);
    DayIndexOfDateOf(n);
    if a.year < b.year {
      SameMonthDayLaterYear(a, b);
    } else if b.year < a.year {
      SameMonthDayLaterYear(b, a);
    }
  }

  lemma SameMonthDayLaterYear(a: Date, b: Date)
    requires IsDate(a) && IsDate(b) && a.month == b.month && a.day == b.day && a.year < b.year
    ensures DayIndex(a) + 365 <= DayIndex(b)
  {
    DaysBeforeYearMonotone(a.year + 1, b.year);
    MonthsOfYear(a.year, a.month);
    MonthsOfYear(b.year, b.month);
  }
}
