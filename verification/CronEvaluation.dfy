/**
 Does a day satisfy a recurrence field?

 The answer `None` stands for an evaluation that gives no answer: it raises, or the loop over a
 range whose interval is zero never ends.
 */
module CronEvaluation {
  import opened Wrappers
  import opened Calendar
  import opened CronExpression

  /* ---------- ranges ---------- */

  datatype Domain = Domain(start: int, end: int) {
    predicate Valid() {
      start <= end
    }

    function Width(): int {
      end - start
    }

    predicate Contains(value: int) {
      start <= value <= end
    }
  }

  function MonthsDomain(): Domain {
    Domain(1, 12)
  }

  function WeekdaysDomain(): Domain {
    Domain(0, 6)
  }

  function MonthDaysDomain(date: Date): Domain
    requires IsDate(date)
  {
    Domain(1, DaysInMonth(date.year, date.month))
  }

  /** Steps from `start` to `value`, going around the domain when `value` lies before `start`. */
  function CyclicDistance(start: int, value: int, domain: Domain): int {
    if start <= value then value - start else value - start + domain.Width() + 1
  }

  /** Is `value` between `start` and `end`, going around the domain if `start` is after `end`? */
  predicate InSpan(start: int, end: int, value: int) {
    if start <= end then start <= value <= end else start <= value || value <= end
  }

  predicate OnGrid(distance: int, interval: nat)
    requires interval >= 1
  {
    distance % interval == 0
  }

  /** What a range of at least step one means, as a set. */
  function RangeValues(start: int, end: int, interval: nat, domain: Domain): set<int>
    requires interval >= 1
  {
    set v | domain.start <= v <= domain.end
            && start <= domain.end
            && InSpan(start, end, v)
            && OnGrid(CyclicDistance(start, v, domain), interval)
  }

  lemma MultipleBelowStep(k: int, interval: nat)
    requires interval >= 1 && 0 <= k * interval < interval
    ensures k == 0
  {
  }

  lemma MultipleAboveZero(k: int, interval: nat)
    requires interval >= 1 && k * interval > 0
    ensures k * interval >= interval
  {
  }

  lemma GridPointsAreApart(a: int, b: int, interval: nat)
    requires interval >= 1 && OnGrid(a, interval) && OnGrid(b, interval) && a < b
    ensures a + interval <= b
  {
    var p, q := a / interval, b / interval;
    assert a == interval * p && b == interval * q;
    assert b - a == (q - p) * interval;
    MultipleAboveZero(q - p, interval);
  }

  lemma NextGridPoint(a: int, interval: nat)
    requires interval >= 1 && OnGrid(a, interval)
    ensures OnGrid(a + interval, interval)
  {
    var b := a + interval;
    var p, q, r := a / interval, b / interval, b % interval;
    assert a == interval * p && b == interval * q + r;
    assert r == (p + 1 - q) * interval;
    MultipleBelowStep(p + 1 - q, interval);
  }

  /** The part of the range seen when the loop is about to look at `pointer`. */
  ghost function Seen(start: int, end: int, interval: nat, domain: Domain, pointer: int, wrapped: bool): set<int>
    requires interval >= 1
  {
    set v | v in RangeValues(start, end, interval, domain)
            && if start <= v then wrapped || v < pointer else wrapped && v < pointer
  }

  ghost predicate AtPointer(start: int, end: int, interval: nat, domain: Domain, pointer: int, wrapped: bool)
    requires interval >= 1
  {
    && domain.Valid() && start <= domain.end
    && start <= pointer + (if wrapped then domain.Width() + 1 else 0)
    && OnGrid(pointer + (if wrapped then domain.Width() + 1 else 0) - start, interval)
    && (wrapped ==> start > end && domain.start <= pointer)
  }

  lemma SeeOne(start: int, end: int, interval: nat, domain: Domain, pointer: int, wrapped: bool)
    requires interval >= 1 && AtPointer(start, end, interval, domain, pointer, wrapped)
    requires if start > end && !wrapped then pointer <= domain.end else pointer <= end
    ensures AtPointer(start, end, interval, domain, pointer + interval, wrapped)
    ensures Seen(start, end, interval, domain, pointer + interval, wrapped)
         == Seen(start, end, interval, domain, pointer, wrapped)
            + if domain.Contains(pointer) then {pointer} else {}
  {
    var turn := if wrapped then domain.Width() + 1 else 0;
    NextGridPoint(pointer + turn - start, interval);
    forall v | v in RangeValues(start, end, interval, domain) && pointer < v && (wrapped ==> v < start)
      ensures pointer + interval <= v || (!wrapped && v < start)
    {
      if start <= v || wrapped {
        GridPointsAreApart(pointer + turn - start, v + turn - start, interval);
      }
    }
  }

  lemma GoAround(start: int, end: int, interval: nat, domain: Domain, last: int)
    requires interval >= 1 && start > end
    requires AtPointer(start, end, interval, domain, last, false)
    requires AtPointer(start, end, interval, domain, last + interval, false)
    requires last <= domain.end < last + interval
    ensures var pointer := last + interval - domain.Width() - 1;
            AtPointer(start, end, interval, domain, pointer, true)
            && Seen(start, end, interval, domain, pointer, true)
            == Seen(start, end, interval, domain, last + interval, false)
  {
    forall v | v in RangeValues(start, end, interval, domain) && v < start
      ensures last + interval - domain.Width() - 1 <= v
    {
      var around := v + domain.Width() + 1;
      if around > last {
        GridPointsAreApart(last - start, around - start, interval);
      }
    }
  }

  lemma SeenAll(start: int, end: int, interval: nat, domain: Domain, pointer: int, wrapped: bool)
    requires interval >= 1 && AtPointer(start, end, interval, domain, pointer, wrapped)
    requires end < pointer && (start > end ==> wrapped)
    ensures Seen(start, end, interval, domain, pointer, wrapped) == RangeValues(start, end, interval, domain)
  {
  }

  /**
   The loop that lists the values of a range.  It counts up from `start` and, when the end lies
   before the start, goes around the domain once.
   */
  method RangeToDiscreteValues(start: int, end: int, interval: nat, domain: Domain)
    returns (values: set<int>)
    requires domain.Valid()
    requires interval >= 1 || domain.end < start
    ensures interval >= 1 ==> values == RangeValues(start, end, interval, domain)
    ensures domain.end < start ==> values == {}
    ensures LoopEnds(start, end, interval, domain)
  {
    if start > domain.end {
      return {};
    }
    var willWrap := start > end;
    var pointer := start;
    values := {};
    ghost var times := 0;
    while willWrap || pointer <= end
      invariant LoopState(pointer, willWrap) == Iterate(LoopState(start, start > end), interval, domain, times)
      invariant AtPointer(start, end, interval, domain, pointer, start > end && !willWrap)
      invariant willWrap ==> start > end && pointer <= domain.end
      invariant values == Seen(start, end, interval, domain, pointer, start > end && !willWrap)
      decreases willWrap, if willWrap then domain.end - pointer else end - pointer
    {
      SeeOne(start, end, interval, domain, pointer, start > end && !willWrap);
      if domain.Contains(pointer) {
        values := values + {pointer};
      }
      pointer := pointer + interval;
      if willWrap && pointer > domain.end {
        GoAround(start, end, interval, domain, pointer - interval);
        pointer := pointer - (domain.Width() + 1);
        willWrap := false;
      }
      IterateOnce(LoopState(start, start > end), interval, domain, times);
      times := times + 1;
    }
    assert EndsAfter(LoopState(start, start > end), end, interval, domain, times);
    SeenAll(start, end, interval, domain, pointer, start > end && !willWrap);
  }

  /* ---------- when the loop ends ---------- */

  datatype LoopState = LoopState(pointer: int, willWrap: bool)

  predicate Looping(s: LoopState, end: int) {
    s.willWrap || s.pointer <= end
  }

  function LoopBody(s: LoopState, interval: nat, domain: Domain): LoopState {
    var pointer := s.pointer + interval;
    if s.willWrap && pointer > domain.end then LoopState(pointer - (domain.Width() + 1), false)
    else LoopState(pointer, s.willWrap)
  }

  function Iterate(s: LoopState, interval: nat, domain: Domain, times: nat): LoopState
    decreases times
  {
    if times == 0 then s else Iterate(LoopBody(s, interval, domain), interval, domain, times - 1)
  }

  lemma {:induction false} IterateOnce(s: LoopState, interval: nat, domain: Domain, times: nat)
    ensures Iterate(s, interval, domain, times + 1) == LoopBody(Iterate(s, interval, domain, times), interval, domain)
    decreases times
  {
    hide LoopBody;
    if times > 0 {
      IterateOnce(LoopBody(s, interval, domain), interval, domain, times - 1);
    }
  }

  ghost predicate LoopEnds(start: int, end: int, interval: nat, domain: Domain) {
    start > domain.end || EndsFrom(LoopState(start, start > end), end, interval, domain)
  }

  ghost predicate EndsFrom(s: LoopState, end: int, interval: nat, domain: Domain) {
    exists k: nat :: EndsAfter(s, end, interval, domain, k)
  }

  ghost predicate EndsAfter(s: LoopState, end: int, interval: nat, domain: Domain, k: nat) {
    !Looping(Iterate(s, interval, domain, k), end)
  }

  lemma {:induction false} StepsToEnd(s: LoopState, end: int, interval: nat, domain: Domain) returns (k: nat)
    requires interval >= 1
    ensures EndsAfter(s, end, interval, domain, k)
    decreases s.willWrap, if s.willWrap then domain.end - s.pointer else end - s.pointer
  {
    if !Looping(s, end) {
      k := 0;
    } else {
      var rest := StepsToEnd(LoopBody(s, interval, domain), end, interval, domain);
      k := rest + 1;
    }
  }

  lemma {:induction false} ZeroIntervalStandsStill(s: LoopState, domain: Domain, k: nat)
    requires s.pointer <= domain.end
    ensures Iterate(s, 0, domain, k) == s
  {
    if k > 0 {
      ZeroIntervalStandsStill(s, domain, k - 1);
    }
  }

  /** The loop over a range ends exactly when the interval is positive or the start is past the domain. */
  lemma LoopEndsExactly(start: int, end: int, interval: nat, domain: Domain)
    requires domain.Valid()
    ensures LoopEnds(start, end, interval, domain) <==> interval >= 1 || start > domain.end
  {
    var s := LoopState(start, start > end);
    if interval >= 1 {
      var k := StepsToEnd(s, end, interval, domain);
    } else if start <= domain.end {
      forall k: nat ensures !EndsAfter(s, end, interval, domain, k) {
        ZeroIntervalStandsStill(s, domain, k);
      }
    }
  }

  /* ---------- calendar resolvers ---------- */

  /** The weekday of a day in the month of `date`. */
  function WeekdayOf(date: Date, day: nat): nat
    requires IsDate(date) && InMonth(date, day)
  {
    Weekday(DayIndex(date.(day := day)))
  }

  lemma ShiftWeekday(date: Date, day: nat, other: nat)
    requires IsDate(date) && InMonth(date, day) && InMonth(date, other)
    ensures WeekdayOf(date, other) == (WeekdayOf(date, day) + other - day) % 7
  {
    assert DayIndex(date.(day := other)) == DayIndex(date.(day := day)) + other - day;
    ShiftMod7(DayIndex(date.(day := day)), other - day);
  }

  lemma ShiftMod7(x: int, d: int)
    ensures (x % 7 + d) % 7 == (x + d) % 7
  {
  }

  predicate InMonth(date: Date, day: nat)
    requires IsDate(date)
  {
    1 <= day <= DaysInMonth(date.year, date.month)
  }

  predicate IsWorkday(date: Date, day: nat)
    requires IsDate(date)
  {
    InMonth(date, day) && WeekdayOf(date, day) < 5
  }

  /** The Monday-to-Friday day used for `monthday`; naming a day the month does not have raises. */
  function ResolveNearestWeekday(monthday: nat, date: Date): (r: Option<nat>)
    requires IsDate(date)
  {
    if !InMonth(date, monthday) then None
    else
      match WeekdayOf(date, monthday)
      case 5 => Some(if monthday == 1 then monthday + 2 else monthday - 1)
      case 6 => Some(if monthday == DaysInMonth(date.year, date.month) then monthday - 2 else monthday + 1)
      case _ => Some(monthday)
  }

  function Distance(a: int, b: int): nat {
    if a < b then b - a else a - b
  }

  /** The resolved day is the one Monday-to-Friday day of the month that is closest to the target. */
  lemma NearestWeekdayIsClosest(monthday: nat, date: Date, other: nat)
    requires IsDate(date) && InMonth(date, monthday)
    requires IsWorkday(date, other)
    ensures ResolveNearestWeekday(monthday, date).Some?
    ensures var r := ResolveNearestWeekday(monthday, date).value;
            IsWorkday(date, r)
            && (other != r ==> Distance(r, monthday) < Distance(other, monthday))
  {
    assert WeekdayOf(date, monthday) <= 6 && DaysInMonth(date.year, date.month) >= 28;
    hide WeekdayOf, DaysInMonth;
    NearbyWeekday(date, monthday, ResolveNearestWeekday(monthday, date).value);
    if -2 <= other - monthday <= 2 {
      NearbyWeekday(date, monthday, other);
    }
  }

  lemma NearbyWeekday(date: Date, day: nat, other: nat)
    requires IsDate(date) && InMonth(date, day) && InMonth(date, other) && -2 <= other - day <= 2
    ensures var w := WeekdayOf(date, day) + other - day;
            WeekdayOf(date, other) == if w < 0 then w + 7 else if w > 6 then w - 7 else w
  {
    ShiftWeekday(date, day, other);
    assert WeekdayOf(date, day) <= 6;
    hide WeekdayOf;
  }

  function FirstOccurrence(weekday: nat, date: Date): nat
    requires IsDate(date)
  {
    var first := DayIndex(date.(day := 1));
    var offset := weekday - first % 7;
    first + if offset < 0 then offset + 7 else offset
  }

  /** The day of the month of the `n`th such weekday, or -1 if the month has no `n`th one. */
  function ResolveNthWeekday(weekday: nat, n: nat, date: Date): int
    requires IsDate(date) && n >= 1
  {
    var nth := DateOf(FirstOccurrence(weekday, date) + 7 * (n - 1));
    if nth.month == date.month then nth.day else -1
  }

  /** `day` is the `n`th day of its weekday in its month. */
  predicate IsNthWeekday(date: Date, day: nat, weekday: nat, n: nat)
    requires IsDate(date) && n >= 1
  {
    InMonth(date, day) && WeekdayOf(date, day) == weekday && (day - 1) / 7 == n - 1
  }

  lemma NthWeekdayByCounting(weekday: nat, n: nat, date: Date)
    requires IsDate(date) && weekday <= 6 && 1 <= n <= 5
    ensures var day := FirstOccurrence(weekday, date) - DayIndex(date.(day := 1)) + 1 + 7 * (n - 1);
            ResolveNthWeekday(weekday, n, date) == if InMonth(date, day) then day else -1
  {
    var day := FirstOccurrence(weekday, date) - DayIndex(date.(day := 1)) + 1 + 7 * (n - 1);
    assert 1 <= day <= 35;
    hide DateOf, DayIndex, DaysInMonth;
    if InMonth(date, day) {
      DayWithinMonth(date, day);
    } else {
      DayPastMonth(date, day);
    }
  }

  lemma DayWithinMonth(date: Date, day: nat)
    requires IsDate(date) && InMonth(date, day)
    ensures DateOf(DayIndex(date.(day := 1)) + day - 1) == date.(day := day)
  {
    hide DateOf;
    DateOfDayIndex(date.(day := day));
  }

  lemma DayPastMonth(date: Date, day: nat)
    requires IsDate(date) && !InMonth(date, day) && 1 <= day <= 35
    ensures DateOf(DayIndex(date.(day := 1)) + day - 1).month != date.month
  {
    hide DateOf;
    var last := date.(day := DaysInMonth(date.year, date.month));
    DayIndexOfNextDay(last);
    var target := NextDay(last).(day := day - last.day);
    assert DayIndex(target) == DayIndex(date.(day := 1)) + day - 1;
    DateOfDayIndex(target);
  }

  lemma CountWeekdays(first: nat, weekday: nat, n: nat, day: nat)
    requires weekday <= 6 && 1 <= n && 1 <= day
    ensures var offset := weekday - first % 7;
            day == (if offset < 0 then offset + 7 else offset) + 1 + 7 * (n - 1)
            <==> (first + day - 1) % 7 == weekday && (day - 1) / 7 == n - 1
  {
  }

  /** The resolver finds the `n`th such weekday if there is one, and says -1 exactly when there is none. */
  lemma NthWeekdayIsNth(weekday: nat, n: nat, date: Date, day: nat)
    requires IsDate(date) && weekday <= 6 && 1 <= n <= 5 && InMonth(date, day)
    ensures ResolveNthWeekday(weekday, n, date) == day <==> IsNthWeekday(date, day, weekday, n)
  {
    NthWeekdayByCounting(weekday, n, date);
    CountWeekdays(DayIndex(date.(day := 1)), weekday, n, day);
    assert DayIndex(date.(day := day)) == DayIndex(date.(day := 1)) + day - 1;
  }

  lemma NthWeekdayMissing(weekday: nat, n: nat, date: Date)
    requires IsDate(date) && weekday <= 6 && 1 <= n <= 5
    ensures ResolveNthWeekday(weekday, n, date) == -1 <==> !exists day :: IsNthWeekday(date, day, weekday, n)
    ensures n <= 4 ==> ResolveNthWeekday(weekday, n, date) != -1
  {
    NthWeekdayByCounting(weekday, n, date);
    var r := ResolveNthWeekday(weekday, n, date);
    if r != -1 {
      NthWeekdayIsNth(weekday, n, date, r);
    }
    forall day | IsNthWeekday(date, day, weekday, n) ensures r == day {
      NthWeekdayIsNth(weekday, n, date, day);
    }
  }

  /** The last such weekday of the month, counted back from the last day. */
  function LastSuchWeekday(weekday: nat, date: Date): int
    requires IsDate(date)
  {
    var last := DaysInMonth(date.year, date.month);
    last - (WeekdayOf(date, last) - weekday) % 7
  }

  /** The scan from the end of the month for the last such weekday; it raises when there is none. */
  method ResolveLastWeekday(weekday: nat, date: Date) returns (r: Option<nat>)
    requires IsDate(date)
    ensures weekday <= 6 ==> r == Some(LastSuchWeekday(weekday, date))
    ensures weekday > 6 ==> r == None
    ensures r.Some? ==> InMonth(date, r.value) && WeekdayOf(date, r.value) == weekday
    ensures forall day: nat | InMonth(date, day) && WeekdayOf(date, day) == weekday ::
              r.Some? && day <= r.value
  {
    var last := DaysInMonth(date.year, date.month);
    LastSuchWeekdayMatches(weekday, date);
    var monthday := last;
    while monthday >= 1
      invariant 0 <= monthday <= last
      invariant forall day: nat | monthday < day <= last :: WeekdayOf(date, day) != weekday
    {
      if WeekdayOf(date, monthday) == weekday {
        return Some(monthday);
      }
      monthday := monthday - 1;
    }
    return None;
  }

  lemma LastSuchWeekdayMatches(weekday: nat, date: Date)
    requires IsDate(date)
    ensures weekday <= 6 ==> var r := LastSuchWeekday(weekday, date);
              1 <= r && InMonth(date, r) && WeekdayOf(date, r) == weekday
              && forall day: nat | r < day && InMonth(date, day) :: WeekdayOf(date, day) != weekday
    ensures weekday > 6 ==> forall day: nat | InMonth(date, day) :: WeekdayOf(date, day) != weekday
  {
    if weekday <= 6 {
      forall day: nat | InMonth(date, day)
        ensures WeekdayOf(date, day) == weekday <==> (LastSuchWeekday(weekday, date) - day) % 7 == 0
      {
        SuchWeekdayCounted(weekday, date, day);
      }
      hide WeekdayOf;
    }
  }

  lemma SuchWeekdayCounted(weekday: nat, date: Date, day: nat)
    requires IsDate(date) && weekday <= 6 && InMonth(date, day)
    ensures WeekdayOf(date, day) == weekday <==> (LastSuchWeekday(weekday, date) - day) % 7 == 0
  {
    var last := DaysInMonth(date.year, date.month);
    ShiftWeekday(date, last, day);
    assert WeekdayOf(date, last) <= 6;
    hide WeekdayOf, DaysInMonth;
    CountBack(WeekdayOf(date, last), last - day, weekday);
  }

  lemma LastSuchWeekdayIsLast(weekday: nat, date: Date, day: nat)
    requires IsDate(date) && weekday <= 6 && InMonth(date, day)
    ensures LastSuchWeekday(weekday, date) == day
       <==> WeekdayOf(date, day) == weekday && !InMonth(date, day + 7)
  {
    LastSuchWeekdayMatches(weekday, date);
    var last, r := DaysInMonth(date.year, date.month), LastSuchWeekday(weekday, date);
    assert last - 6 <= r;
    hide LastSuchWeekday, WeekdayOf, DaysInMonth;
    if InMonth(date, day + 7) {
      AWeekLater(date, day);
    } else if day != r && WeekdayOf(date, day) == weekday {
      SameWeekdayNearby(date, day, r);
    }
  }

  lemma AWeekLater(date: Date, day: nat)
    requires IsDate(date) && InMonth(date, day) && InMonth(date, day + 7)
    ensures WeekdayOf(date, day + 7) == WeekdayOf(date, day)
  {
    ShiftWeekday(date, day, day + 7);
  }

  lemma SameWeekdayNearby(date: Date, day: nat, other: nat)
    requires IsDate(date) && InMonth(date, day) && InMonth(date, other) && -6 <= other - day <= 6
    requires WeekdayOf(date, day) == WeekdayOf(date, other)
    ensures day == other
  {
    ShiftWeekday(date, day, other);
    assert WeekdayOf(date, day) <= 6;
    hide WeekdayOf;
  }

  lemma CountBack(lastWeekday: nat, daysBefore: nat, weekday: nat)
    requires lastWeekday <= 6 && weekday <= 6
    ensures (lastWeekday - daysBefore) % 7 == weekday
       <==> (daysBefore - (lastWeekday - weekday) % 7) % 7 == 0
  {
    var weeks, days := daysBefore / 7, daysBefore % 7;
    var back := (lastWeekday - weekday) % 7;
    assert back == if lastWeekday < weekday then lastWeekday - weekday + 7 else lastWeekday - weekday;
    WholeWeeks(lastWeekday - days, -weeks);
    WholeWeeks(days - back, weeks);
  }

  lemma WholeWeeks(days: int, weeks: int)
    requires -7 < days < 7
    ensures (days + 7 * weeks) % 7 == if days < 0 then days + 7 else days
  {
  }

  /* ---------- fields ---------- */

  function EndValue(end: RangeEnd, domain: Domain): int {
    match end
    case NumericEnd(value) => value
    case _ => domain.end
  }

  function RangeContains(start: nat, end: RangeEnd, interval: nat, domain: Domain, value: int): Option<bool> {
    if start > domain.end then Some(false)
    else if interval == 0 then None
    else Some(value in RangeValues(start, EndValue(end, domain), interval, domain))
  }

  function DomainOf(field: Field, date: Date): Domain
    requires IsDate(date)
  {
    match field
    case Months => MonthsDomain()
    case MonthDays => MonthDaysDomain(date)
    case Weekdays => WeekdaysDomain()
  }

  function ValueOf(field: Field, n: nat): nat {
    match field
    case Months => DateOf(n).month
    case MonthDays => DateOf(n).day
    case Weekdays => Weekday(n)
  }

  /** Does day `n` satisfy `expr` as an expression for this field? */
  function Contains(field: Field, expr: Expr, n: nat): Option<bool>
    decreases expr, 1
  {
    var date := DateOf(n);
    var value := ValueOf(field, n);
    match expr
    case Union(exprs) => AnyContains(field, exprs, n)
    case All => Some(true)
    case Numeric(v) => Some(value == v)
    case Last => Some(value == DomainOf(field, date).end)
    case Range(start, end, interval) => RangeContains(start, end, interval, DomainOf(field, date), value)
    case NearestWeekday(target) =>
      if !field.MonthDays? then None
      else
        (match ResolveNearestWeekday(target, date)
         case None => None
         case Some(day) => Some(date.day == day))
    case NthWeekday(weekday, k) =>
      if !field.Weekdays? then None
      else if k == 0 then Some(false)
      else Some(ResolveNthWeekday(weekday, k, date) == date.day)
    case LastWeekday(weekday) =>
      if !field.Weekdays? || weekday > 6 then None
      else Some(LastSuchWeekday(weekday, date) == date.day)
  }

  /** Alternatives are tried in order, up to the first that holds or raises. */
  function AnyContains(field: Field, exprs: seq<Expr>, n: nat): Option<bool>
    decreases exprs, 0
  {
    if exprs == [] then Some(false)
    else
      match Contains(field, exprs[0], n)
      case None => None
      case Some(true) => Some(true)
      case Some(false) => AnyContains(field, exprs[1..], n)
  }

  /* ---------- what the fields mean ---------- */

  /** A range inside its domain holds on a cyclic arithmetic progression from its start to its end. */
  lemma RangeIsCyclicProgression(start: int, end: int, interval: nat, domain: Domain, v: int)
    requires interval >= 1 && domain.Contains(start) && domain.Contains(end)
    ensures v in RangeValues(start, end, interval, domain) <==>
            domain.Contains(v)
            && OnGrid(CyclicDistance(start, v, domain), interval)
            && CyclicDistance(start, v, domain) <= CyclicDistance(start, end, domain)
  {
  }

  /** A range that ends past its domain is an arithmetic progression cut off at the domain's end. */
  lemma RangePastDomainIsClipped(start: int, end: int, interval: nat, domain: Domain, v: int)
    requires interval >= 1 && domain.end < end
    ensures v in RangeValues(start, end, interval, domain) <==>
            domain.Contains(v) && start <= v && OnGrid(v - start, interval)
  {
  }

  /** A day-of-month range that the validator accepts never goes around, however short the month. */
  lemma MonthDayRangesNeverWrap(start: nat, end: RangeEnd, interval: nat, n: nat)
    requires Valid(MonthDays, Range(start, end, interval)) && interval >= 1
    ensures var domain := MonthDaysDomain(DateOf(n));
            start <= domain.end ==> start <= EndValue(end, domain)
    ensures Contains(MonthDays, Range(start, end, interval), n) == Some(
              start <= DateOf(n).day && (end.NumericEnd? ==> DateOf(n).day <= end.value)
              && OnGrid(DateOf(n).day - start, interval))
  {
  }

  lemma LastWeekdayMeansLast(n: nat, weekday: nat)
    requires weekday <= 6
    ensures Contains(Weekdays, LastWeekday(weekday), n)
            == Some(Weekday(n) == weekday
                    && DateOf(n).day + 7 > DaysInMonth(DateOf(n).year, DateOf(n).month))
  {
    DayIndexOfDateOf(n);
    LastSuchWeekdayIsLast(weekday, DateOf(n), DateOf(n).day);
  }

  lemma NthWeekdayMeansNth(n: nat, weekday: nat, k: nat)
    requires weekday <= 6 && k <= 5
    ensures Contains(Weekdays, NthWeekday(weekday, k), n)
            == Some(Weekday(n) == weekday && (DateOf(n).day - 1) / 7 == k - 1)
  {
    DayIndexOfDateOf(n);
    if k >= 1 {
      NthWeekdayIsNth(weekday, k, DateOf(n), DateOf(n).day);
    }
  }

  /** "L" holds on the last day of a month, on Sundays, and in December. */
  lemma LastMeansLast(n: nat)
    ensures Contains(MonthDays, Last, n) == Some(DateOf(n + 1).month != DateOf(n).month)
    ensures Contains(Weekdays, Last, n) == Some(Weekday(n + 1) == 0)
    ensures Contains(Months, Last, n) == Some(DateOf(n).month == 12)
  {
    LastDayOfMonth(n);
    Sundays(n);
    ValueIsLast(MonthDays, n);
    ValueIsLast(Weekdays, n);
    ValueIsLast(Months, n);
    hide DateOf, DaysInMonth, Weekday, Contains;
  }

  lemma ValueIsLast(field: Field, n: nat)
    ensures Contains(field, Last, n) == Some(ValueOf(field, n) == DomainOf(field, DateOf(n)).end)
  {
    hide DateOf, DomainOf, ValueOf;
  }

  lemma Sundays(n: nat)
    ensures Weekday(n) == 6 <==> Weekday(n + 1) == 0
  {
  }

  lemma LastDayOfMonth(n: nat)
    ensures DateOf(n + 1).month != DateOf(n).month <==> DateOf(n).day == DaysInMonth(DateOf(n).year, DateOf(n).month)
  {
    assert DateOf(n + 1) == NextDay(DateOf(n));
    hide DateOf;
  }

  /**
   A nearest-weekday expression holds exactly on the working day of the month that is closer to the named
   day than every other one; it raises exactly in the months that do not have the named day.
   */
  lemma NearestWeekdayMeansClosest(target: nat, n: nat)
    requires 1 <= target
    ensures var date := DateOf(n);
            if target > DaysInMonth(date.year, date.month) then Contains(MonthDays, NearestWeekday(target), n) == None
            else Contains(MonthDays, NearestWeekday(target), n) == Some(
                   Weekday(n) < 5
                   && forall other: nat | IsWorkday(date, other) && other != date.day ::
                        Distance(date.day, target) < Distance(other, target))
  {
    var date := DateOf(n);
    DayIndexOfDateOf(n);
    assert Weekday(n) < 5 <==> IsWorkday(date, date.day);
    hide DateOf, ResolveNearestWeekday, IsWorkday, Weekday;
    if InMonth(date, target) {
      var w := FirstWorkday(date);
      NearestWeekdayIsClosest(target, date, w);
      var r := ResolveNearestWeekday(target, date).value;
      forall other: nat | IsWorkday(date, other) && other != r ensures Distance(r, target) < Distance(other, target) {
        NearestWeekdayIsClosest(target, date, other);
      }
    } else {
      NoNearestWeekday(target, date);
    }
  }

  lemma NoNearestWeekday(target: nat, date: Date)
    requires IsDate(date) && !InMonth(date, target)
    ensures ResolveNearestWeekday(target, date) == None
  {
  }

  lemma FirstWorkday(date: Date) returns (day: nat)
    requires IsDate(date)
    ensures IsWorkday(date, day)
  {
    NearbyWeekday(date, 1, 3);
    day := if WeekdayOf(date, 1) < 5 then 1 else 3;
  }

  /** Months count around the year: from the start, a range holds every `interval` months up to its end. */
  lemma MonthRangesGoAround(start: nat, end: RangeEnd, interval: nat, n: nat)
    requires Valid(Months, Range(start, end, interval)) && interval >= 1
    ensures var after := (DateOf(n).month - start) % 12;
            Contains(Months, Range(start, end, interval), n) == Some(
              after % interval == 0 && after <= if end.NoEnd? then 12 - start else (end.value - start) % 12)
  {
    var domain, m := MonthsDomain(), DateOf(n).month;
    var last := EndValue(end, domain);
    MonthDistance(start, m);
    MonthDistance(start, last);
    RangeIsCyclicProgression(start, last, interval, domain, m);
    hide CyclicDistance, DateOf, RangeValues;
  }

  lemma MonthDistance(start: int, m: int)
    requires 1 <= start <= 12 && 1 <= m <= 12
    ensures CyclicDistance(start, m, MonthsDomain()) == (m - start) % 12
    ensures m == 12 ==> (m - start) % 12 == 12 - start
  {
  }

  /** Likewise weekdays count around the week. */
  lemma WeekdayRangesGoAround(start: nat, end: RangeEnd, interval: nat, n: nat)
    requires Valid(Weekdays, Range(start, end, interval)) && interval >= 1
    ensures var after := (Weekday(n) - start) % 7;
            Contains(Weekdays, Range(start, end, interval), n) == Some(
              after % interval == 0 && after <= if end.NoEnd? then 6 - start else (end.value - start) % 7)
  {
    var domain, day := WeekdaysDomain(), Weekday(n);
    var last := EndValue(end, domain);
    assert day < 7;
    hide Weekday;
    WeekdayDistance(start, day);
    WeekdayDistance(start, last);
    RangeIsCyclicProgression(start, last, interval, domain, day);
    hide CyclicDistance, RangeValues;
  }

  lemma WeekdayDistance(start: int, day: int)
    requires 0 <= start <= 6 && 0 <= day <= 6
    ensures CyclicDistance(start, day, WeekdaysDomain()) == (day - start) % 7
    ensures day == 6 ==> (day - start) % 7 == 6 - start
  {
  }

  /* ---------- unions ---------- */

  ghost predicate FalseBefore(field: Field, exprs: seq<Expr>, n: nat, i: nat)
    requires i <= |exprs|
  {
    forall j | 0 <= j < i :: Contains(field, exprs[j], n) == Some(false)
  }

  /** The first alternative that does not say no decides: it holds, or it raises. */
  lemma {:induction false} FirstAlternativeDecides(field: Field, exprs: seq<Expr>, n: nat)
    ensures AnyContains(field, exprs, n) == Some(false) <==> FalseBefore(field, exprs, n, |exprs|)
    ensures forall i | 0 <= i < |exprs| && FalseBefore(field, exprs, n, i) && Contains(field, exprs[i], n) != Some(false) ::
              AnyContains(field, exprs, n) == Contains(field, exprs[i], n)
    decreases exprs
  {
    hide Contains;
    if exprs != [] {
      var rest := exprs[1..];
      FirstAlternativeDecides(field, rest, n);
      assert forall j | 0 <= j < |rest| :: rest[j] == exprs[j + 1];
      if Contains(field, exprs[0], n) == Some(false) {
        assert FalseBefore(field, rest, n, |rest|) ==> FalseBefore(field, exprs, n, |exprs|) by {
          assert forall j | 0 < j < |exprs| :: exprs[j] == rest[j - 1];
        }
        forall i | 0 <= i < |exprs| && FalseBefore(field, exprs, n, i) && Contains(field, exprs[i], n) != Some(false)
          ensures AnyContains(field, exprs, n) == Contains(field, exprs[i], n)
        {
          assert rest[i - 1] == exprs[i] && FalseBefore(field, rest, n, i - 1);
        }
      }
    }
  }

  /** A union none of whose alternatives raises holds when one of them does. */
  lemma UnionHoldsWhenOneDoes(field: Field, exprs: seq<Expr>, n: nat)
    requires forall e | e in exprs :: Contains(field, e, n).Some?
    ensures Contains(field, Union(exprs), n) == Some(exists e | e in exprs :: Contains(field, e, n) == Some(true))
  {
    AlternativesThatAnswer(field, exprs, n);
  }

  lemma {:induction false} AlternativesThatAnswer(field: Field, exprs: seq<Expr>, n: nat)
    requires forall e | e in exprs :: Contains(field, e, n).Some?
    ensures AnyContains(field, exprs, n) == Some(exists e | e in exprs :: Contains(field, e, n) == Some(true))
    decreases exprs
  {
    hide Contains;
    if exprs != [] {
      AlternativesThatAnswer(field, exprs[1..], n);
      assert forall e | e in exprs :: e == exprs[0] || e in exprs[1..];
      assert exprs[0] in exprs;
    }
  }

  /* ---------- what the validators are for ---------- */

  /** The values that a validator accepts are exactly those that some day has. */
  lemma ValidValuesOccur(field: Field, value: nat)
    ensures ValidNumeric(field, value) <==> exists n: nat :: Contains(field, Numeric(value), n) == Some(true)
  {
    if ValidNumeric(field, value) {
      var n := ValidValueOccurs(field, value);
    }
    hide ValidNumeric, Contains;
    if n: nat :| Contains(field, Numeric(value), n) == Some(true) {
      OccurringValueIsValid(field, value, n);
    }
  }

  lemma ValidValueOccurs(field: Field, value: nat) returns (n: nat)
    requires ValidNumeric(field, value)
    ensures Contains(field, Numeric(value), n) == Some(true)
  {
    match field
    case Months =>
      n := DayIndex(Date(1, value, 1));
      DateOfDayIndex(Date(1, value, 1));
    case MonthDays =>
      n := DayIndex(Date(1, 1, value));
      DateOfDayIndex(Date(1, 1, value));
    case Weekdays =>
      n := value;
  }

  lemma OccurringValueIsValid(field: Field, value: nat, n: nat)
    requires Contains(field, Numeric(value), n) == Some(true)
    ensures ValidNumeric(field, value)
  {
    assert value == ValueOf(field, n) && IsDate(DateOf(n));
    hide DateOf;
  }

  ghost predicate Occurs(field: Field, value: nat) {
    exists n: nat :: Contains(field, Numeric(value), n) == Some(true)
  }

  /**
   What the validators accept: values that occur, a last day or Sunday but no last month, the weekday
   expressions in the field they belong to, and ranges of values that occur, which may go around except
   for days of the month and may end in "L" only there.
   */
  lemma ValidatorsAcceptExactly(field: Field, e: Expr)
    ensures Valid(field, e) <==>
            match e
            case Union(exprs) => forall x | x in exprs :: Valid(field, x)
            case All => true
            case Numeric(value) => Occurs(field, value)
            case Last => field != Months
            case NearestWeekday(target) => field == MonthDays && Occurs(field, target)
            case NthWeekday(weekday, k) => field == Weekdays && Occurs(field, weekday) && 1 <= k <= 5
            case LastWeekday(weekday) => field == Weekdays && Occurs(field, weekday)
            case Range(start, NoEnd, _) => Occurs(field, start)
            case Range(start, LastEnd, _) => Occurs(field, start) && field == MonthDays
            case Range(start, NumericEnd(end), _) =>
              Occurs(field, start) && Occurs(field, end) && (field == MonthDays ==> start <= end)
  {
    forall value ensures Occurs(field, value) <==> ValidNumeric(field, value) {
      ValidValuesOccur(field, value);
    }
    hide ValidNumeric, Occurs;
  }

  /** Every weekday has a first to a fifth occurrence in some month. */
  lemma EveryNthWeekdayOccurs(weekday: nat, k: nat) returns (n: nat)
    requires Valid(Weekdays, NthWeekday(weekday, k)) || (weekday <= 6 && 1 <= k <= 5)
    ensures Contains(Weekdays, NthWeekday(weekday, k), n) == Some(true)
    ensures Valid(Weekdays, NthWeekday(weekday, k))
  {
    var d := NthWeekdayOfSomeMonth(weekday, k);
    n := DayIndex(d);
    DateOfDayIndex(d);
    hide DateOf, DayIndex, Weekday;
    NthWeekdayMeansNth(n, weekday, k);
    hide Contains;
  }

  lemma NthWeekdayOfSomeMonth(weekday: nat, k: nat) returns (d: Date)
    requires weekday <= 6 && 1 <= k <= 5
    ensures IsDate(d) && Weekday(DayIndex(d)) == weekday && (d.day - 1) / 7 == k - 1
  {
    if k < 5 {
      d := Date(1, 1, 7 * (k - 1) + weekday + 1);
    } else if weekday <= 2 {
      d := Date(1, 1, 29 + weekday);
    } else if weekday <= 5 {
      d := Date(1, 3, 26 + weekday);
      MonthsOfYear(1, 3);
    } else {
      d := Date(1, 7, 29);
      MonthsOfYear(1, 7);
    }
    hide DaysBeforeMonth;
  }

  /** Outside its own field a weekday expression raises on every day, and so does a weekday past Sunday counted back. */
  lemma ForeignExpressionsRaise(field: Field, weekday: nat, k: nat, target: nat, n: nat)
    ensures field != MonthDays ==> Contains(field, NearestWeekday(target), n) == None
    ensures field != Weekdays ==> Contains(field, NthWeekday(weekday, k), n) == None
    ensures field != Weekdays || weekday > 6 ==> Contains(field, LastWeekday(weekday), n) == None
  {
  }

  /**
   A validated expression, unions apart, raises or never ends only for an interval of zero whose start the
   month has, or for a nearest weekday to a day that the month does not have.
   */
  lemma ValidRaisesExactly(field: Field, leaf: Expr, n: nat)
    requires Valid(field, leaf) && !leaf.Union?
    ensures var date := DateOf(n);
            var days := DaysInMonth(date.year, date.month);
            Contains(field, leaf, n) == None <==>
            (leaf.Range? && leaf.interval == 0 && (field.MonthDays? ==> leaf.start <= days))
            || (leaf.NearestWeekday? && leaf.target > days)
  {
  }
}
