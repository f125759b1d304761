/**
 Does a period that made the journey through a scheduling request still ask for the same states?

 The rebuilt sets may be iterated in any order, and the elements of a set are tried up to the first that
 holds or raises.  So the answers agree, but whether there is an answer can depend on the order.
 */
module PeriodJourney {
  import opened Wrappers
  import opened Strings
  import opened Calendar
  import opened CronExpression
  import opened CronEvaluation
  import opened CronParser
  import opened Schedules
  import opened CronAsg
  import opened PeriodDefinitions

  /* ---------- the answers agree ---------- */

  lemma {:induction false} AnyIsTrue(field: Field, exprs: seq<Expr>, n: nat)
    ensures AnyContains(field, exprs, n) == Some(true) ==> exists e | e in exprs :: Contains(field, e, n) == Some(true)
    ensures AnyContains(field, exprs, n) == Some(false) ==> forall e | e in exprs :: Contains(field, e, n) == Some(false)
    ensures (forall e | e in exprs :: Contains(field, e, n).Some?) ==> AnyContains(field, exprs, n).Some?
  {
    hide Contains;
    if exprs != [] {
      AnyIsTrue(field, exprs[1..], n);
      assert exprs == [exprs[0]] + exprs[1..];
      if AnyContains(field, exprs, n) == Some(true) && Contains(field, exprs[0], n) != Some(true) {
        var e :| e in exprs[1..] && Contains(field, e, n) == Some(true);
        assert e in exprs;
      }
    }
  }

  lemma SameLeavesAgree(field: Field, a: Expr, b: Expr, n: nat)
    requires SameLeaves(a, b)
    ensures Contains(field, a, n).Some? && Contains(field, b, n).Some? ==> Contains(field, a, n) == Contains(field, b, n)
    ensures (forall leaf | leaf in Leaves(a) :: Contains(field, leaf, n).Some?)
            ==> Contains(field, a, n).Some? && Contains(field, b, n).Some?
  {
    LeavesMeanTheSame(field, a, n);
    LeavesMeanTheSame(field, b, n);
    hide Contains, Leaves, AnyContains;
    SameElementsAgree(field, Leaves(a), Leaves(b), n);
  }

  lemma SameElementsAgree(field: Field, a: seq<Expr>, b: seq<Expr>, n: nat)
    requires (forall e | e in a :: e in b) && (forall e | e in b :: e in a)
    ensures AnyContains(field, a, n).Some? && AnyContains(field, b, n).Some? ==> AnyContains(field, a, n) == AnyContains(field, b, n)
    ensures (forall e | e in a :: Contains(field, e, n).Some?) ==> AnyContains(field, a, n).Some? && AnyContains(field, b, n).Some?
  {
    hide Contains, AnyContains;
    AnyIsTrue(field, a, n);
    AnyIsTrue(field, b, n);
    if e :| e in a && Contains(field, e, n) == Some(true) {
      assert e in b;
    }
    if AnyContains(field, a, n).Some? && AnyContains(field, b, n).Some? {
      TrueOrFalse(AnyContains(field, a, n));
      TrueOrFalse(AnyContains(field, b, n));
    }
  }

  lemma TrueOrFalse(x: Option<bool>)
    requires x.Some?
    ensures x == Some(true) || x == Some(false)
  {
    if x.value {
      assert x == Some(true);
    } else {
      assert x == Some(false);
    }
  }

  /** Does every element of every field give an answer on day `n`? */
  ghost predicate NothingRaises(r: Recurrence, n: nat) {
    && (forall leaf | leaf in Leaves(r.monthdays) :: Contains(MonthDays, leaf, n).Some?)
    && (forall leaf | leaf in Leaves(r.months) :: Contains(Months, leaf, n).Some?)
    && (forall leaf | leaf in Leaves(r.weekdays) :: Contains(Weekdays, leaf, n).Some?)
  }

  lemma SameRecurrence(a: Recurrence, b: Recurrence, n: nat)
    requires SameLeaves(a.monthdays, b.monthdays) && SameLeaves(a.months, b.months) && SameLeaves(a.weekdays, b.weekdays)
    ensures RecursOn(a, n).Some? && RecursOn(b, n).Some? ==> RecursOn(a, n) == RecursOn(b, n)
    ensures NothingRaises(a, n) ==> RecursOn(a, n).Some? && RecursOn(b, n).Some?
  {
    hide Contains, Leaves, SameLeaves;
    SameLeavesAgree(MonthDays, a.monthdays, b.monthdays, n);
    SameLeavesAgree(Months, a.months, b.months, n);
    SameLeavesAgree(Weekdays, a.weekdays, b.weekdays, n);
  }

  /**
   Wherever a valid period and its rebuilt form both give an answer it is the same, and both give one if
   no element raises on the day.
   */
  lemma JourneyKeepsDesiredState(p: PeriodDefinition, q: PeriodDefinition, t: nat)
    requires IsDefinition(p) && BuiltFrom(ParamsOf(p), q)
    ensures ToRunningPeriod(q).Some?
    ensures var before, after := PeriodState(ToRunningPeriod(p).value, t), PeriodState(ToRunningPeriod(q).value, t);
            && (before.Some? && after.Some? ==> before == after)
            && (NothingRaises(ToRunningPeriod(p).value.recurrence, DayOf(t)) ==> before.Some? && after.Some?)
  {
    RebuiltPeriod(p, q);
    hide ToRunningPeriod, IsDefinition, BuiltFrom, Contains, Leaves, SameLeaves;
    var a, b := ToRunningPeriod(p).value.recurrence, ToRunningPeriod(q).value.recurrence;
    SameRecurrence(a, b, DayOf(t));
    hide RecursOn, NothingRaises;
  }

  /* ---------- choosing an order ---------- */

  function Without(tokens: seq<string>, x: string): seq<string> {
    if tokens == [] then []
    else (if tokens[0] == x then [] else [tokens[0]]) + Without(tokens[1..], x)
  }

  lemma {:induction false} WithoutOne(tokens: seq<string>, x: string)
    ensures forall y :: y in Without(tokens, x) <==> y in tokens && y != x
    ensures Distinct(tokens) ==> Distinct(Without(tokens, x))
  {
    if tokens != [] {
      WithoutOne(tokens[1..], x);
      assert tokens == [tokens[0]] + tokens[1..];
      if Distinct(tokens) {
        assert tokens[0] !in tokens[1..];
      }
    }
  }

  /** The stripped parts, each once, in the order in which they first appear. */
  function Tokens(parts: seq<string>): seq<string> {
    if parts == [] then [] else PutFirst(Strip(parts[0]), Tokens(parts[1..]))
  }

  function PutFirst(x: string, tokens: seq<string>): seq<string> {
    [x] + Without(tokens, x)
  }

  ghost predicate AreTokensOf(tokens: seq<string>, parts: seq<string>) {
    && Distinct(tokens)
    && (forall part | part in parts :: Strip(part) in tokens)
    && (forall token | token in tokens :: exists part | part in parts :: Strip(part) == token)
  }

  lemma PutFirstIsASet(x: string, tokens: seq<string>)
    requires Distinct(tokens)
    ensures Distinct(PutFirst(x, tokens))
    ensures forall y :: y in PutFirst(x, tokens) <==> y == x || y in tokens
  {
    WithoutOne(tokens, x);
    var rest := Without(tokens, x);
    assert forall j | 0 <= j < |rest| :: rest[j] in rest;
  }

  lemma {:induction false} TokensAreTokens(parts: seq<string>)
    ensures AreTokensOf(Tokens(parts), parts)
  {
    hide Strip, PutFirst, Distinct;
    if parts == [] {
      assert Distinct([]) by { NothingTwice(); }
    } else {
      var rest := Tokens(parts[1..]);
      TokensAreTokens(parts[1..]);
      PutFirstIsASet(Strip(parts[0]), rest);
      assert parts == [parts[0]] + parts[1..];
      forall token | token in Tokens(parts) ensures exists part | part in parts :: Strip(part) == token {
        if token == Strip(parts[0]) {
          assert parts[0] in parts;
        } else {
          var part :| part in parts[1..] && Strip(part) == token;
          assert part in parts;
        }
      }
    }
  }

  lemma NothingTwice()
    ensures Distinct([])
  {
  }

  /** A set of strings can be iterated with any one of its elements first. */
  lemma AnyPartCanComeFirst(csv: string, part: string) returns (tokens: seq<string>)
    requires part in Split(csv, ',')
    ensures IsCsvSet(csv, tokens) && tokens != [] && tokens[0] == Strip(part)
  {
    hide Strip, Split, Distinct;
    TokensAreTokens(Split(csv, ','));
    var rest := Tokens(Split(csv, ','));
    tokens := PutFirst(Strip(part), rest);
    PutFirstIsASet(Strip(part), rest);
  }

  /* ---------- when the rebuilt form answers ---------- */

  /** An element that raises, tried first, makes the rebuilt field raise. */
  lemma RaisingElementFirst(field: Field, strings: seq<string>, leaf: Expr, n: nat) returns (tokens: seq<string>)
    requires strings != [] && ParseField(field, Some(strings)).Some?
    requires leaf in Leaves(ParseField(field, Some(strings)).value) && Contains(field, leaf, n) == None
    ensures IsCsvField(CsvEntry(Some(strings)), Some(tokens))
    ensures ParseField(field, Some(tokens)).Some? && Contains(field, ParseField(field, Some(tokens)).value, n) == None
  {
    hide ParsePart, ParseOne, Split, Join, Strip, Valid, Leaves, IsCsvSet;
    var e := ParseField(field, Some(strings)).value;
    var parts := Parts(strings);
    SplitOfJoin(strings);
    ParsedStrings(field, strings, e);
    ParsedStringsAreNotEmpty(field, strings);
    var i :| 0 <= i < |Leaves(e)| && Leaves(e)[i] == leaf;
    assert parts[i] in parts;
    tokens := AnyPartCanComeFirst(Join(strings, ','), parts[i]);
    TokenParses(field, parts[i]);
    RebuiltField(field, strings, tokens);
    FirstElementRaises(field, tokens, leaf, n);
  }

  lemma FirstElementRaises(field: Field, tokens: seq<string>, leaf: Expr, n: nat)
    requires tokens != [] && ParseField(field, Some(tokens)).Some?
    requires ParseOne(field, tokens[0]) == Some(leaf) && Contains(field, leaf, n) == None
    ensures Contains(field, ParseField(field, Some(tokens)).value, n) == None
  {
    hide ParseOne, Valid;
  }

  /** Some order of a field's set. */
  function SomeOrder(strings: Option<seq<string>>): Option<seq<string>> {
    if Truthy(CsvEntry(strings)) then Some(Tokens(Split(CsvEntry(strings).value, ','))) else None
  }

  lemma SomeOrderIsOne(strings: Option<seq<string>>)
    ensures IsCsvField(CsvEntry(strings), SomeOrder(strings))
  {
    hide Split, Join;
    if Truthy(CsvEntry(strings)) {
      TokensAreTokens(Split(CsvEntry(strings).value, ','));
    }
  }

  function Rebuild(p: PeriodDefinition): PeriodDefinition {
    PeriodDefinition(p.name, Entry(p.begintime), Entry(p.endtime), SomeOrder(p.weekdays), SomeOrder(p.months),
                     SomeOrder(p.monthdays), Entry(p.description), Entry(p.configuredInStack))
  }

  lemma RebuildIsBuilt(p: PeriodDefinition)
    ensures BuiltFrom(ParamsOf(p), Rebuild(p))
  {
    hide SomeOrder, IsCsvField, CsvEntry;
    SomeOrderIsOne(p.weekdays);
    SomeOrderIsOne(p.months);
    SomeOrderIsOne(p.monthdays);
  }

  lemma FieldsOfPeriod(p: PeriodDefinition, field: Field)
    requires ToRunningPeriod(p).Some?
    ensures ParseField(field, p.Strings(field)) == Some(
              match field
              case Months => ToRunningPeriod(p).value.recurrence.months
              case MonthDays => ToRunningPeriod(p).value.recurrence.monthdays
              case Weekdays => ToRunningPeriod(p).value.recurrence.weekdays)
  {
    hide ParseField, TimeOf;
  }

  function WithStrings(p: PeriodDefinition, field: Field, strings: Option<seq<string>>): PeriodDefinition {
    match field
    case Months => p.(months := strings)
    case MonthDays => p.(monthdays := strings)
    case Weekdays => p.(weekdays := strings)
  }

  lemma MissingFieldNeverRaises(field: Field, leaf: Expr, n: nat)
    requires leaf in Leaves(ParseField(field, None).value)
    ensures Contains(field, leaf, n).Some?
  {
  }

  ghost predicate FieldNeverRaises(field: Field, e: Expr, n: nat) {
    forall leaf | leaf in Leaves(e) :: Contains(field, leaf, n).Some?
  }

  /** If some element of a field raises, there is a rebuilt form that raises. */
  lemma SomeOrderRaises(p: PeriodDefinition, field: Field, t: nat) returns (q: PeriodDefinition)
    requires IsDefinition(p) && ParseField(field, p.Strings(field)).Some?
    requires !FieldNeverRaises(field, ParseField(field, p.Strings(field)).value, DayOf(t))
    ensures BuiltFrom(ParamsOf(p), q) && ToRunningPeriod(q).Some?
    ensures PeriodState(ToRunningPeriod(q).value, t) == None
  {
    hide ParseField, ToRunningPeriod, Contains, Leaves, IsCsvField, CsvEntry;
    var n := DayOf(t);
    var leaf :| leaf in Leaves(ParseField(field, p.Strings(field)).value) && Contains(field, leaf, n) == None;
    if p.Strings(field).None? {
      MissingFieldNeverRaises(field, leaf, n);
      assert false;
    }
    SomeStrings(field, p.Strings(field).value);
    var tokens := RaisingElementFirst(field, p.Strings(field).value, leaf, n);
    RebuildIsBuilt(p);
    q := WithStrings(Rebuild(p), field, Some(tokens));
    assert BuiltFrom(ParamsOf(p), q);
    hide IsDefinition, BuiltFrom;
    assert ToRunningPeriod(q).Some? by { RebuiltPeriod(p, q); }
    FieldsOfPeriod(q, field);
  }

  lemma SomeStrings(field: Field, strings: seq<string>)
    requires ParseField(field, Some(strings)).Some?
    ensures strings != []
  {
  }

  /** Does the period give an answer after the journey, in whatever order its sets are iterated? */
  ghost predicate AlwaysAnswers(p: PeriodDefinition, t: nat) {
    forall q | BuiltFrom(ParamsOf(p), q) :: ToRunningPeriod(q).Some? && PeriodState(ToRunningPeriod(q).value, t).Some?
  }

  /** Does the period ask for this state after the journey, in whatever order its sets are iterated? */
  ghost predicate AlwaysAsksFor(p: PeriodDefinition, t: nat, state: ScheduleState) {
    forall q | BuiltFrom(ParamsOf(p), q) ::
      ToRunningPeriod(q).Some? && PeriodState(ToRunningPeriod(q).value, t) == Some(state)
  }

  /** A valid period always answers after the journey exactly when no element of its sets raises on the day. */
  lemma AnswersExactlyWhenNothingRaises(p: PeriodDefinition, t: nat)
    requires IsDefinition(p)
    ensures AlwaysAnswers(p, t) <==> NothingRaises(ToRunningPeriod(p).value.recurrence, DayOf(t))
  {
    FieldsOfPeriod(p, MonthDays);
    FieldsOfPeriod(p, Months);
    FieldsOfPeriod(p, Weekdays);
    hide ToRunningPeriod, PeriodState, ParseField, Contains, Leaves, BuiltFrom;
    var r := ToRunningPeriod(p).value.recurrence;
    if NothingRaises(r, DayOf(t)) {
      forall q | BuiltFrom(ParamsOf(p), q)
        ensures ToRunningPeriod(q).Some? && PeriodState(ToRunningPeriod(q).value, t).Some?
      {
        JourneyKeepsDesiredState(p, q, t);
      }
    } else if !FieldNeverRaises(MonthDays, r.monthdays, DayOf(t)) {
      var q := SomeOrderRaises(p, MonthDays, t);
    } else if !FieldNeverRaises(Months, r.months, DayOf(t)) {
      var q := SomeOrderRaises(p, Months, t);
    } else {
      var q := SomeOrderRaises(p, Weekdays, t);
    }
  }

  /** So a desired state survives the journey for certain exactly when no element raises on the day. */
  lemma StateSurvivesExactlyWhenNothingRaises(p: PeriodDefinition, t: nat)
    requires IsDefinition(p) && PeriodState(ToRunningPeriod(p).value, t).Some?
    ensures AlwaysAsksFor(p, t, PeriodState(ToRunningPeriod(p).value, t).value)
       <==> NothingRaises(ToRunningPeriod(p).value.recurrence, DayOf(t))
  {
    AnswersExactlyWhenNothingRaises(p, t);
    hide ToRunningPeriod, PeriodState, NothingRaises, BuiltFrom, IsDefinition;
    if AlwaysAnswers(p, t) {
      forall q | BuiltFrom(ParamsOf(p), q)
        ensures ToRunningPeriod(q).Some? && PeriodState(ToRunningPeriod(q).value, t) == PeriodState(ToRunningPeriod(p).value, t)
      {
        JourneyKeepsDesiredState(p, q, t);
      }
    }
  }

  /* ---------- an input for which the order decides ---------- */

  /** On the first of the month, or on the weekday nearest to the 31st. */
  const FIRST_OR_NEAREST := PeriodDefinition("p", None, None, None, None, Some(["1", "31W"]), None, None)

  const NEAREST_OR_FIRST := FIRST_OR_NEAREST.(monthdays := Some(["31W", "1"]))

  lemma OneIsParsed()
    ensures ParseOne(MonthDays, "1") == Some(Numeric(1)) && Split("1", ',') == ["1"] && Strip("1") == "1"
  {
    assert Decimal(1) == "1";
    NumericPart(MonthDays, 1);
    SplitNothing("1", ',');
    StripNothing("1");
  }

  lemma NearestIsParsed()
    ensures ParseOne(MonthDays, "31W") == Some(NearestWeekday(31)) && Split("31W", ',') == ["31W"] && Strip("31W") == "31W"
  {
    SplitNothing("31W", ',');
    StripNothing("31W");
    hide Split, Strip;
    assert ParseOne(MonthDays, "31W") == GeneralParse(MonthDays, Lower("31W"));
    hide ParseOne;
    assert Lower("31W") == "31w";
    NearestPart();
  }

  lemma NearestPart()
    ensures GeneralParse(MonthDays, "31w") == Some(NearestWeekday(31))
  {
    assert "31w"[..2] == "31" && "31"[..1] == "3" && "3"[..0] == "" && "31w"[2] in "31w";
    assert ParseNumber("31") == Some(31);
    assert ParseNearestWeekday("31w") == Some(NearestWeekday(31));
    hide ParseNearestWeekday, ParseNumber;
    NoOtherReading();
    hide ParseSingle, ParseStep, ParseRange, ParseNthWeekday, ParseLastWeekday;
  }

  lemma NoOtherReading()
    ensures ParseSingle(MonthDays, "31w").None? && ParseStep(MonthDays, "31w").None? && ParseRange(MonthDays, "31w").None?
    ensures ParseNthWeekday(MonthDays, "31w").None? && ParseLastWeekday(MonthDays, "31w").None?
    ensures ParseAll("31w").None? && !IsLast("31w")
  {
    assert "31w"[2] in "31w";
  }

  lemma BothAreParsed()
    ensures ToRunningPeriod(FIRST_OR_NEAREST) == Some(
              RunningPeriod("p", None, None, EVERY_DAY.(monthdays := Union([Numeric(1), NearestWeekday(31)]))))
    ensures ToRunningPeriod(NEAREST_OR_FIRST) == Some(
              RunningPeriod("p", None, None, EVERY_DAY.(monthdays := Union([NearestWeekday(31), Numeric(1)]))))
  {
    OneIsParsed();
    NearestIsParsed();
    hide ParseOne;
    TwoStrings(MonthDays, "1", "31W", Numeric(1), NearestWeekday(31));
    TwoStrings(MonthDays, "31W", "1", NearestWeekday(31), Numeric(1));
    hide ParseMulti;
    assert ParseMulti(Months, None) == Some(All) == ParseMulti(Weekdays, None) by {
      MissingFieldIsAll();
    }
    var e, f := Union([Numeric(1), NearestWeekday(31)]), Union([NearestWeekday(31), Numeric(1)]);
    assert ParseField(MonthDays, FIRST_OR_NEAREST.monthdays) == Some(e);
    assert ParseField(MonthDays, NEAREST_OR_FIRST.monthdays) == Some(f);
  }

  lemma MissingFieldIsAll()
    ensures ParseMulti(Months, None) == Some(All) == ParseMulti(Weekdays, None)
  {
  }

  lemma TwoStrings(field: Field, a: string, b: string, x: Expr, y: Expr)
    requires ParseOne(field, a) == Some(x) && ParseOne(field, b) == Some(y)
    ensures ParseMulti(field, Some([a, b])) == Some(Union([x, y]))
  {
    hide ParseOne;
    var es := ParseEach(field, [a, b]);
    assert [a, b][0] == a && [a, b][1] == b;
    assert forall i | 0 <= i < 2 :: ParseOne(field, [a, b][i]).Some?;
    assert es.value == [x, y];
  }

  lemma NearestOrFirstIsRebuilt()
    ensures BuiltFrom(ParamsOf(FIRST_OR_NEAREST), NEAREST_OR_FIRST)
  {
    OneIsParsed();
    NearestIsParsed();
    hide Split, Strip;
    SplitOfJoin(["1", "31W"]);
    assert ["1", "31W"][1..] == ["31W"] && ["31W"][1..] == [];
    assert Parts(["1", "31W"]) == ["1", "31W"];
    assert Join(["1", "31W"], ',') != "";
  }

  /**
   On any 1 February this valid period asks to run when "1" is tried first, and raises when "31W" is: the
   journey can turn an answer into an error.
   */
  lemma OrderDecidesWhetherItAnswers(t: nat)
    requires DateOf(DayOf(t)).month == 2 && DateOf(DayOf(t)).day == 1
    ensures IsDefinition(FIRST_OR_NEAREST) && BuiltFrom(ParamsOf(FIRST_OR_NEAREST), NEAREST_OR_FIRST)
    ensures ToRunningPeriod(NEAREST_OR_FIRST).Some?
    ensures PeriodState(ToRunningPeriod(FIRST_OR_NEAREST).value, t) == Some(Running)
    ensures PeriodState(ToRunningPeriod(NEAREST_OR_FIRST).value, t) == None
  {
    BothAreParsed();
    NearestOrFirstIsRebuilt();
    hide ToRunningPeriod, BuiltFrom, DateOf;
    var n := DayOf(t);
    assert Contains(MonthDays, Numeric(1), n) == Some(true) && Contains(MonthDays, NearestWeekday(31), n) == None;
    assert [Numeric(1), NearestWeekday(31)][0] == Numeric(1);
  }
}
