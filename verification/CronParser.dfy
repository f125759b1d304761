/**
 Parsing the strings of a period definition.

 A string is tried as each kind of expression in turn and the first kind that fits wins.  Which fields
 support which kinds is left to the validators.
 */
module CronParser {
  import opened Wrappers
  import opened Strings
  import opened CronExpression

  const MONTH_NAMES := [
    "january", "february", "march", "april", "may", "june",
    "july", "august", "september", "october", "november", "december"]

  const WEEKDAY_NAMES := ["monday", "tuesday", "wednesday", "thursday", "friday", "saturday", "sunday"]

  function Names(field: Field): seq<string> {
    match field
    case Months => MONTH_NAMES
    case MonthDays => []
    case Weekdays => WEEKDAY_NAMES
  }

  /** Months are counted from one, weekdays from zero on Monday. */
  function FirstValue(field: Field): nat {
    if field == Months then 1 else 0
  }

  /** Names can be given in full or by their first three letters. */
  predicate IsName(name: string, s: string) {
    s == name || (|name| >= 3 && s == name[..3])
  }

  function IndexOfName(names: seq<string>, s: string, from: nat): (r: Option<nat>)
    requires from <= |names|
    ensures r.Some? ==> from <= r.value < |names| && IsName(names[r.value], s)
    ensures r.None? ==> forall i | from <= i < |names| :: !IsName(names[i], s)
    decreases |names| - from
  {
    if from == |names| then None
    else if IsName(names[from], s) then Some(from)
    else IndexOfName(names, s, from + 1)
  }

  function ParseNumber(s: string): Option<nat> {
    if s != "" && AllDigits(s) then Some(NumberOf(s)) else None
  }

  function ParseName(field: Field, s: string): Option<nat> {
    match IndexOfName(Names(field), s, 0)
    case None => None
    case Some(i) => Some(i + FirstValue(field))
  }

  function ParseNumeric(field: Field, s: string): Option<nat> {
    if ParseNumber(s).Some? then ParseNumber(s) else ParseName(field, s)
  }

  predicate IsLast(s: string) {
    Lower(s) == "l"
  }

  function ParseSingle(field: Field, s: string): Option<Expr> {
    match ParseNumeric(field, s)
    case Some(value) => Some(Numeric(value))
    case None => if IsLast(s) then Some(Last) else None
  }

  function ParseAll(s: string): Option<Expr> {
    if s == "*" || s == "?" then Some(All) else None
  }

  /** The position of the last dash with something on both sides. */
  function RangeDash(s: string): Option<nat> {
    LastIndexOf(s, '-', |s| - 1)
  }

  function ParseRange(field: Field, s: string): (r: Option<Expr>)
    ensures r.Some? ==> r.value.Range?
  {
    match RangeDash(s)
    case None => None
    case Some(i) =>
      match (ParseSingle(field, Strip(s[..i])), ParseSingle(field, Strip(s[i + 1..])))
      case (Some(Numeric(start)), Some(Numeric(end))) => Some(Range(start, NumericEnd(end), 1))
      case (Some(Numeric(start)), Some(Last)) => Some(Range(start, LastEnd, 1))
      case _ => None
  }

  /** The position of the last slash with something before it and a digit after it. */
  function StepSlash(s: string, end: int): (r: Option<nat>)
    requires end <= |s|
    ensures r.Some? ==> 1 <= r.value < end && s[r.value] == '/' && LastDigit(s[r.value + 1..]).Some?
    ensures forall j | 1 <= j < end && s[j] == '/' && LastDigit(s[j + 1..]).Some? :: r.Some? && j <= r.value
  {
    if end <= 1 then None
    else if s[end - 1] == '/' && LastDigit(s[end..]).Some? then Some(end - 1)
    else StepSlash(s, end - 1)
  }

  /** Only the last digit of what follows the slash is taken for the interval. */
  function ParseStep(field: Field, s: string): Option<Expr> {
    match StepSlash(s, |s|)
    case None => None
    case Some(i) =>
      var interval := LastDigit(s[i + 1..]).value;
      match ParseRange(field, s[..i])
      case Some(Range(start, end, _)) => Some(Range(start, end, interval))
      case _ =>
        match ParseSingle(field, s[..i])
        case Some(Numeric(start)) => Some(Range(start, NoEnd, interval))
        case _ => None
  }

  function ParseNthWeekday(field: Field, s: string): Option<Expr> {
    match LastIndexOf(s, '#', |s|)
    case None => None
    case Some(i) =>
      match (ParseNumeric(field, s[..i]), ParseNumber(s[i + 1..]))
      case (Some(day), Some(n)) => Some(NthWeekday(day, n))
      case _ => None
  }

  function ParseLastWeekday(field: Field, s: string): Option<Expr> {
    if s == "" || LowerChar(s[|s| - 1]) != 'l' then None
    else
      match ParseNumeric(field, s[..|s| - 1])
      case None => None
      case Some(day) => Some(LastWeekday(day))
  }

  function ParseNearestWeekday(s: string): Option<Expr> {
    if s == "" || LowerChar(s[|s| - 1]) != 'w' then None
    else
      match ParseNumber(s[..|s| - 1])
      case None => None
      case Some(day) => Some(NearestWeekday(day))
  }

  function OrElse(first: Option<Expr>, second: Option<Expr>): Option<Expr> {
    if first.Some? then first else second
  }

  function GeneralParse(field: Field, s: string): Option<Expr> {
    OrElse(ParseSingle(field, s),
    OrElse(ParseAll(s),
    OrElse(if IsLast(s) then Some(Last) else None,
    OrElse(ParseStep(field, s),
    OrElse(ParseRange(field, s),
    OrElse(ParseNthWeekday(field, s),
    OrElse(ParseLastWeekday(field, s),
           ParseNearestWeekday(s))))))))
  }

  /** One part of a comma-separated string. */
  function ParsePart(field: Field, s: string): Option<Expr> {
    GeneralParse(field, Lower(Strip(s)))
  }

  function ParseParts(field: Field, parts: seq<string>): (r: Option<seq<Expr>>)
    ensures r.Some? ==> |r.value| == |parts| && forall i | 0 <= i < |parts| :: ParsePart(field, parts[i]) == Some(r.value[i])
    ensures r.None? ==> exists i | 0 <= i < |parts| :: ParsePart(field, parts[i]) == None
  {
    hide ParsePart;
    if parts == [] then Some([])
    else
      match (ParsePart(field, parts[0]), ParseParts(field, parts[1..]))
      case (Some(e), Some(es)) => Some([e] + es)
      case _ => None
  }

  /** A comma-separated string is a union; its parts contain no further commas. */
  function ParseOne(field: Field, s: string): Option<Expr> {
    var parts := Split(s, ',');
    if |parts| > 1 then
      match ParseParts(field, parts)
      case None => None
      case Some(exprs) => Some(Union(exprs))
    else ParsePart(field, parts[0])
  }

  function ParseEach(field: Field, exprs: seq<string>): (r: Option<seq<Expr>>)
    ensures r.Some? ==> |r.value| == |exprs| && forall i | 0 <= i < |exprs| :: ParseOne(field, exprs[i]) == Some(r.value[i])
    ensures r.None? ==> exists i | 0 <= i < |exprs| :: ParseOne(field, exprs[i]) == None
  {
    hide ParseOne;
    if exprs == [] then Some([])
    else
      match (ParseOne(field, exprs[0]), ParseEach(field, exprs[1..]))
      case (Some(e), Some(es)) => Some([e] + es)
      case _ => None
  }

  /** A set of strings, in the order in which it is iterated; a missing set means every value. */
  function ParseMulti(field: Field, exprs: Option<seq<string>>): Option<Expr> {
    match exprs
    case None => Some(All)
    case Some(strings) =>
      if strings == [] then None
      else if |strings| == 1 then ParseOne(field, strings[0])
      else
        match ParseEach(field, strings)
        case None => None
        case Some(es) => Some(Union(es))
  }

  /** Parses and validates a field; every error of either is reported the same way. */
  function ParseField(field: Field, exprs: Option<seq<string>>): Option<Expr> {
    match ParseMulti(field, exprs)
    case None => None
    case Some(e) => if Valid(field, e) then Some(e) else None
  }

  /* ---------- names ---------- */

  lemma MonthNamesAreDistinct(i: nat, j: nat)
    requires i < 12 && j < 12 && IsName(MONTH_NAMES[i], MONTH_NAMES[j][..3])
    ensures i == j
  {
    assert MONTH_NAMES[i][0] == MONTH_NAMES[j][0] && MONTH_NAMES[i][1] == MONTH_NAMES[j][1]
        && MONTH_NAMES[i][2] == MONTH_NAMES[j][2];
  }

  lemma WeekdayNamesAreDistinct(i: nat, j: nat)
    requires i < 7 && j < 7 && IsName(WEEKDAY_NAMES[i], WEEKDAY_NAMES[j][..3])
    ensures i == j
  {
    assert WEEKDAY_NAMES[i][0] == WEEKDAY_NAMES[j][0] && WEEKDAY_NAMES[i][1] == WEEKDAY_NAMES[j][1];
  }

  predicate AllLetters(s: string) {
    forall i | 0 <= i < |s| :: IsLetter(s[i])
  }

  lemma MonthNamesAreLetters(i: nat)
    requires i < 12
    ensures AllLetters(MONTH_NAMES[i]) && |MONTH_NAMES[i]| >= 3
  {
  }

  lemma WeekdayNamesAreLetters(i: nat)
    requires i < 7
    ensures AllLetters(WEEKDAY_NAMES[i]) && |WEEKDAY_NAMES[i]| >= 3
  {
  }
}
