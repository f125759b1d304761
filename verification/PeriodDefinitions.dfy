/**
 Period definitions and their journey through a scheduling request.

 The orchestrator sends a definition as parameters, with each set of strings joined by commas, and the
 request handler splits them again.  A set is written here as the sequence in which it is iterated;
 nothing is assumed about the order in which the rebuilt set is iterated.
 */
module PeriodDefinitions {
  import opened Wrappers
  import opened Strings
  import opened Calendar
  import opened CronExpression
  import opened CronEvaluation
  import opened CronParser
  import opened Schedules
  import opened CronAsg

  datatype PeriodDefinition = PeriodDefinition(
    name: string,
    begintime: Option<string>,
    endtime: Option<string>,
    weekdays: Option<seq<string>>,
    months: Option<seq<string>>,
    monthdays: Option<seq<string>>,
    description: Option<string>,
    configuredInStack: Option<string>)
  {
    function Strings(field: Field): Option<seq<string>> {
      match field
      case Months => months
      case MonthDays => monthdays
      case Weekdays => weekdays
    }
  }

  /** Python's truth of an optional string or collection: present and not empty. */
  predicate Truthy<T(==)>(value: Option<seq<T>>) {
    value.Some? && value.value != []
  }

  /* ---------- definitions ---------- */

  /** The pattern of a time; its character class for the first digit also admits a bar. */
  predicate IsValidTimeStr(s: string) {
    var parts := Split(s, ':');
    && |parts| == 2
    && (|parts[0]| == 1 || |parts[0]| == 2) && |parts[1]| == 2
    && (|parts[0]| == 1 ==> IsDigit(parts[0][0]))
    && (|parts[0]| == 2 ==>
          (parts[0][0] in "0|1" && IsDigit(parts[0][1])) || (parts[0][0] == '2' && '0' <= parts[0][1] <= '3'))
    && '0' <= parts[1][0] <= '5' && IsDigit(parts[1][1])
  }

  /** Minutes of the day. */
  function ParseTimeStr(s: string): (r: Option<nat>)
    ensures r.Some? ==> r.value < MINUTES_PER_DAY
  {
    var parts := Split(s, ':');
    if |parts| != 2 || |parts[0]| > 2 || |parts[1]| > 2 then None
    else
      match (ParseNumber(parts[0]), ParseNumber(parts[1]))
      case (Some(hour), Some(minute)) => if hour < 24 && minute < 60 then Some(60 * hour + minute) else None
      case _ => None
  }

  /** A missing or empty time is no time; a malformed one raises. */
  function TimeOf(time: Option<string>): (r: Option<Option<nat>>)
    ensures r.Some? ==> IsTime(r.value)
  {
    if !Truthy(time) then Some(None)
    else
      match ParseTimeStr(time.value)
      case None => None
      case Some(t) => Some(Some(t))
  }

  function ToRunningPeriod(p: PeriodDefinition): Option<RunningPeriod> {
    match (TimeOf(p.begintime), TimeOf(p.endtime),
           ParseField(MonthDays, p.monthdays), ParseField(Months, p.months), ParseField(Weekdays, p.weekdays))
    case (Some(begin), Some(end), Some(monthdays), Some(months), Some(weekdays)) =>
      (match NewPeriod(p.name, begin, end, Recurrence(monthdays, months, weekdays))
       case Ok(period) => Some(period)
       case Err(_) => None)
    case _ => None
  }

  /** Does the constructor accept these fields? */
  predicate IsDefinition(p: PeriodDefinition) {
    && p.name != ""
    && (Truthy(p.begintime) ==> IsValidTimeStr(p.begintime.value))
    && (Truthy(p.endtime) ==> IsValidTimeStr(p.endtime.value))
    && (p.begintime.Some? || p.endtime.Some? || p.weekdays.Some? || p.months.Some? || p.monthdays.Some?)
    && ToRunningPeriod(p).Some?
  }

  /* ---------- parameters ---------- */

  datatype PeriodParams = PeriodParams(
    name: string,
    begintime: Option<string>,
    endtime: Option<string>,
    weekdays: Option<string>,
    monthdays: Option<string>,
    months: Option<string>,
    description: Option<string>,
    configuredInStack: Option<string>)

  function Entry(value: Option<string>): Option<string> {
    if Truthy(value) then value else None
  }

  function CsvEntry(value: Option<seq<string>>): Option<string> {
    if Truthy(value) then Some(Join(value.value, ',')) else None
  }

  function ParamsOf(p: PeriodDefinition): PeriodParams {
    PeriodParams(p.name, Entry(p.begintime), Entry(p.endtime),
                 CsvEntry(p.weekdays), CsvEntry(p.monthdays), CsvEntry(p.months),
                 Entry(p.description), Entry(p.configuredInStack))
  }

  method ToPeriodParams(p: PeriodDefinition) returns (params: PeriodParams)
    ensures params == ParamsOf(p)
  {
    params := PeriodParams(p.name, None, None, None, None, None, None, None);
    if Truthy(p.begintime) {
      params := params.(begintime := p.begintime);
    }
    if Truthy(p.endtime) {
      params := params.(endtime := p.endtime);
    }
    if Truthy(p.weekdays) {
      params := params.(weekdays := Some(Join(p.weekdays.value, ',')));
    }
    if Truthy(p.monthdays) {
      params := params.(monthdays := Some(Join(p.monthdays.value, ',')));
    }
    if Truthy(p.months) {
      params := params.(months := Some(Join(p.months.value, ',')));
    }
    if Truthy(p.description) {
      params := params.(description := p.description);
    }
    if Truthy(p.configuredInStack) {
      params := params.(configuredInStack := p.configuredInStack);
    }
  }

  predicate Distinct(s: seq<string>) {
    forall i, j | 0 <= i < j < |s| :: s[i] != s[j]
  }

  /** Is `tokens` the set of the stripped parts of a comma-separated string, in some order? */
  ghost predicate IsCsvSet(csv: string, tokens: seq<string>) {
    && Distinct(tokens)
    && (forall part | part in Split(csv, ',') :: Strip(part) in tokens)
    && (forall token | token in tokens :: exists part | part in Split(csv, ',') :: Strip(part) == token)
  }

  ghost predicate IsCsvField(csv: Option<string>, tokens: Option<seq<string>>) {
    if Truthy(csv) then tokens.Some? && IsCsvSet(csv.value, tokens.value) else tokens.None?
  }

  /** Are these the fields that `params` are turned into, whatever order the sets are iterated in? */
  ghost predicate BuiltFrom(params: PeriodParams, q: PeriodDefinition) {
    && q.name == params.name
    && q.begintime == params.begintime
    && q.endtime == params.endtime
    && IsCsvField(params.weekdays, q.weekdays)
    && IsCsvField(params.months, q.months)
    && IsCsvField(params.monthdays, q.monthdays)
    && q.description == params.description
    && q.configuredInStack == params.configuredInStack
  }

  /* ---------- the parts of a field ---------- */

  lemma {:induction false} StripLeftTwice(s: string)
    ensures StripLeft(StripLeft(s)) == StripLeft(s)
  {
    if s != "" && IsSpace(s[0]) {
      StripLeftTwice(s[1..]);
    }
  }

  lemma {:induction false} StripRightTwice(s: string)
    ensures StripRight(StripRight(s)) == StripRight(s)
    ensures StripLeft(s) == s ==> StripLeft(StripRight(s)) == StripRight(s)
    ensures forall c | c in StripRight(s) :: c in s
  {
    if s != "" && IsSpace(s[|s| - 1]) {
      var rest := s[..|s| - 1];
      StripRightTwice(rest);
      if StripLeft(s) == s {
        StripLeftKeeps(s);
        assert StripLeft(rest) == rest;
      }
    }
  }

  lemma {:induction false} StripLeftKeeps(s: string)
    ensures |StripLeft(s)| <= |s|
    ensures forall c | c in StripLeft(s) :: c in s
    ensures StripLeft(s) == s && s != "" ==> !IsSpace(s[0])
  {
    if s != "" && IsSpace(s[0]) {
      StripLeftKeeps(s[1..]);
    }
  }

  lemma StripTwice(s: string)
    ensures Strip(Strip(s)) == Strip(s)
    ensures forall c | c in Strip(s) :: c in s
  {
    StripLeftTwice(s);
    StripLeftKeeps(s);
    StripRightTwice(StripLeft(s));
  }

  /** All the comma-separated parts of all the strings. */
  function Parts(strings: seq<string>): seq<string> {
    if strings == [] then [] else Split(strings[0], ',') + Parts(strings[1..])
  }

  lemma {:induction false} SplitOfJoin(strings: seq<string>)
    requires strings != []
    ensures Split(Join(strings, ','), ',') == Parts(strings)
  {
    if |strings| == 1 {
      assert Parts(strings[1..]) == [];
    } else {
      SplitOfJoin(strings[1..]);
      SplitConcat(strings[0], Join(strings[1..], ','), ',');
    }
  }

  /** Are the leaves what the parts parse to, one by one? */
  ghost predicate Parsed(field: Field, parts: seq<string>, leaves: seq<Expr>) {
    |parts| == |leaves| && forall i | 0 <= i < |parts| :: ParsePart(field, parts[i]) == Some(leaves[i])
  }

  lemma PartIsNoUnion(field: Field, part: string)
    ensures ParsePart(field, part).Some? ==> !ParsePart(field, part).value.Union?
  {
    hide ParseNumeric, ParseNumber, StepSlash, RangeDash, Strip, Lower;
    var s := Lower(Strip(part));
    hide ParseRange;
  }

  lemma {:induction false} LeavesOfParts(exprs: seq<Expr>)
    requires forall e | e in exprs :: !e.Union?
    ensures LeavesOfEach(exprs) == exprs
  {
    if exprs != [] {
      LeavesOfParts(exprs[1..]);
      assert Leaves(exprs[0]) == [exprs[0]];
      assert exprs == [exprs[0]] + exprs[1..];
    }
  }

  lemma ParsedOne(field: Field, s: string, e: Expr)
    requires ParseOne(field, s) == Some(e)
    ensures Parsed(field, Split(s, ','), Leaves(e))
  {
    hide ParsePart, Split;
    var parts := Split(s, ',');
    if |parts| > 1 {
      forall x | x in e.exprs ensures !x.Union? {
        var i :| 0 <= i < |parts| && e.exprs[i] == x;
        PartIsNoUnion(field, parts[i]);
      }
      LeavesOfParts(e.exprs);
    } else {
      PartIsNoUnion(field, parts[0]);
    }
  }

  lemma ParsedConcat(field: Field, parts: seq<string>, more: seq<string>, leaves: seq<Expr>, others: seq<Expr>)
    requires Parsed(field, parts, leaves) && Parsed(field, more, others)
    ensures Parsed(field, parts + more, leaves + others)
  {
    hide ParsePart;
  }

  lemma {:induction false} ParsedEach(field: Field, strings: seq<string>, exprs: seq<Expr>)
    requires |strings| == |exprs| && forall i | 0 <= i < |strings| :: ParseOne(field, strings[i]) == Some(exprs[i])
    ensures Parsed(field, Parts(strings), LeavesOfEach(exprs))
  {
    if strings != [] {
      hide ParsePart, ParseOne, Split, Leaves, Parsed;
      ParsedOne(field, strings[0], exprs[0]);
      ParsedEach(field, strings[1..], exprs[1..]);
      ParsedConcat(field, Split(strings[0], ','), Parts(strings[1..]), Leaves(exprs[0]), LeavesOfEach(exprs[1..]));
    }
  }

  lemma ParsedStrings(field: Field, strings: seq<string>, e: Expr)
    requires ParseMulti(field, Some(strings)) == Some(e)
    ensures Parsed(field, Parts(strings), Leaves(e))
  {
    hide ParsePart, ParseOne, Split;
    if |strings| == 1 {
      ParsedOne(field, strings[0], e);
      assert Parts(strings[1..]) == [];
    } else {
      ParsedEach(field, strings, e.exprs);
    }
  }

  /* ---------- rebuilding one field ---------- */

  /** A rebuilt string has no comma and parses like the part that it was stripped from. */
  lemma TokenParses(field: Field, part: string)
    requires ',' !in part
    ensures Strip(part) == "" ==> ParsePart(field, part) == None
    ensures ParseOne(field, Strip(part)) == ParsePart(field, part)
  {
    StripTwice(part);
    SplitNothing(Strip(part), ',');
    if Strip(part) == "" {
      EmptyPart(field);
      assert Lower("") == "";
    }
  }

  /** Both fields have the same leaves, in whatever order and however often. */
  ghost predicate SameLeaves(a: Expr, b: Expr) {
    (forall leaf | leaf in Leaves(a) :: leaf in Leaves(b)) && (forall leaf | leaf in Leaves(b) :: leaf in Leaves(a))
  }

  lemma RebuiltField(field: Field, strings: seq<string>, tokens: seq<string>)
    requires strings != [] && ParseField(field, Some(strings)).Some?
    requires IsCsvSet(Join(strings, ','), tokens)
    ensures ParseField(field, Some(tokens)).Some?
    ensures SameLeaves(ParseField(field, Some(strings)).value, ParseField(field, Some(tokens)).value)
  {
    hide ParsePart, ParseOne, Split, Join, Strip, Valid, Leaves;
    var e := ParseField(field, Some(strings)).value;
    SplitOfJoin(strings);
    ParsedStrings(field, strings, e);
    var parts := Parts(strings);
    assert parts == Split(Join(strings, ','), ',');
    forall token | token in tokens
      ensures ParseOne(field, token).Some? && ParseOne(field, token).value in Leaves(e)
    {
      var part :| part in parts && Strip(part) == token;
      TokenParses(field, part);
      var i :| 0 <= i < |parts| && parts[i] == part;
    }
    assert parts[0] in parts;
    ParsedLeavesAreNoUnions(field, parts, Leaves(e));
    RebuiltTokens(field, tokens, e);
    var r := ParseMulti(field, Some(tokens)).value;
    forall leaf | leaf in Leaves(e) ensures leaf in Leaves(r) {
      var i :| 0 <= i < |parts| && Leaves(e)[i] == leaf;
      assert parts[i] in parts;
      TokenParses(field, parts[i]);
    }
  }

  lemma ParsedStringsAreNotEmpty(field: Field, strings: seq<string>)
    requires strings != [] && ParseField(field, Some(strings)).Some?
    ensures Join(strings, ',') != ""
  {
    hide ParsePart, ParseOne, Join, Valid, Leaves;
    SplitOfJoin(strings);
    ParsedStrings(field, strings, ParseField(field, Some(strings)).value);
    SplitNothing("", ',');
    EmptyPart(field);
    assert ParsePart(field, Parts(strings)[0]).Some?;
  }

  lemma ParsedLeavesAreNoUnions(field: Field, parts: seq<string>, leaves: seq<Expr>)
    requires Parsed(field, parts, leaves)
    ensures forall leaf | leaf in leaves :: !leaf.Union?
  {
    hide ParsePart;
    forall leaf | leaf in leaves ensures !leaf.Union? {
      var i :| 0 <= i < |parts| && leaves[i] == leaf;
      PartIsNoUnion(field, parts[i]);
    }
  }

  /** Strings that each parse to one valid leaf parse together to a valid field with those leaves. */
  lemma RebuiltTokens(field: Field, tokens: seq<string>, e: Expr)
    requires tokens != [] && Valid(field, e)
    requires forall token | token in tokens :: ParseOne(field, token).Some? && ParseOne(field, token).value in Leaves(e)
    requires forall leaf | leaf in Leaves(e) :: !leaf.Union?
    ensures ParseMulti(field, Some(tokens)).Some?
    ensures var r := ParseMulti(field, Some(tokens)).value;
            Valid(field, r)
            && (forall leaf | leaf in Leaves(r) :: leaf in Leaves(e))
            && (forall token | token in tokens :: ParseOne(field, token).value in Leaves(r))
  {
    hide ParseOne, Leaves;
    forall leaf | leaf in Leaves(e) ensures Valid(field, leaf) {
      LeavesAreValid(field, e, leaf);
    }
    assert forall i | 0 <= i < |tokens| :: tokens[i] in tokens;
    if |tokens| == 1 {
      OneLeaf(ParseOne(field, tokens[0]).value);
    } else {
      var es := ParseEach(field, tokens).value;
      forall x | x in es ensures x in Leaves(e) {
        var i :| 0 <= i < |tokens| && es[i] == x;
      }
      UnionOfLeaves(es);
    }
  }

  lemma OneLeaf(leaf: Expr)
    requires !leaf.Union?
    ensures Leaves(leaf) == [leaf]
  {
  }

  lemma UnionOfLeaves(leaves: seq<Expr>)
    requires leaves != [] && forall leaf | leaf in leaves :: !leaf.Union?
    ensures Leaves(Union(leaves)) == leaves
  {
    LeavesOfParts(leaves);
  }

  /* ---------- the rebuilt definition ---------- */

  /** Is any field present and not empty? */
  predicate HasField(p: PeriodDefinition) {
    Truthy(p.begintime) || Truthy(p.endtime) || Truthy(p.weekdays) || Truthy(p.months) || Truthy(p.monthdays)
  }

  lemma RebuiltStrings(field: Field, strings: Option<seq<string>>, tokens: Option<seq<string>>)
    requires ParseField(field, strings).Some? && IsCsvField(CsvEntry(strings), tokens)
    ensures ParseField(field, tokens).Some? && (tokens.Some? <==> Truthy(strings))
    ensures SameLeaves(ParseField(field, strings).value, ParseField(field, tokens).value)
  {
    hide ParseOne, ParseEach, Valid, Leaves, Join, IsCsvSet, SameLeaves;
    if Truthy(strings) {
      ParsedStringsAreNotEmpty(field, strings.value);
      RebuiltField(field, strings.value, tokens.value);
    } else {
      SameLeavesAsItself(ParseField(field, strings).value);
    }
  }

  lemma SameLeavesAsItself(e: Expr)
    ensures SameLeaves(e, e)
  {
  }

  lemma RebuiltPeriod(p: PeriodDefinition, q: PeriodDefinition)
    requires IsDefinition(p) && BuiltFrom(ParamsOf(p), q)
    ensures ToRunningPeriod(q).Some?
    ensures var a, b := ToRunningPeriod(p).value, ToRunningPeriod(q).value;
            && b.(recurrence := a.recurrence) == a
            && SameLeaves(a.recurrence.monthdays, b.recurrence.monthdays)
            && SameLeaves(a.recurrence.months, b.recurrence.months)
            && SameLeaves(a.recurrence.weekdays, b.recurrence.weekdays)
  {
    hide ParseField, IsCsvField, SameLeaves, IsValidTimeStr, ParseTimeStr, CsvEntry;
    RebuiltStrings(MonthDays, p.monthdays, q.monthdays);
    RebuiltStrings(Months, p.months, q.months);
    RebuiltStrings(Weekdays, p.weekdays, q.weekdays);
  }

  /** Apart from the order of its sets, a rebuilt definition has the fields of the first that are not empty. */
  lemma RebuiltKeepsFields(p: PeriodDefinition, q: PeriodDefinition)
    requires BuiltFrom(ParamsOf(p), q)
    ensures q.name == p.name
    ensures q.begintime == if p.begintime == Some("") then None else p.begintime
    ensures q.endtime == if p.endtime == Some("") then None else p.endtime
    ensures q.description == if p.description == Some("") then None else p.description
    ensures q.configuredInStack == if p.configuredInStack == Some("") then None else p.configuredInStack
  {
  }

  /**
   Rebuilding a definition from its parameters is accepted exactly when one of its fields is not empty:
   a definition whose only times are empty strings is refused after the journey.
   */
  lemma RebuiltExactlyWhenAFieldIsSet(p: PeriodDefinition, q: PeriodDefinition)
    requires IsDefinition(p) && BuiltFrom(ParamsOf(p), q)
    ensures IsDefinition(q) <==> HasField(p)
  {
    RebuiltPeriod(p, q);
    RebuiltStrings(MonthDays, p.monthdays, q.monthdays);
    RebuiltStrings(Months, p.months, q.months);
    RebuiltStrings(Weekdays, p.weekdays, q.weekdays);
    hide ToRunningPeriod, ParseField, IsCsvField, SameLeaves, IsValidTimeStr, CsvEntry;
  }
}
