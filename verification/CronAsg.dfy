/**
 Printing a field for the recurrence of an Auto Scaling group, and parsing it back.

 A printed union is the comma-separated list of its leaves, so parsing it gives back the same leaves
 in the same order.  A printed step, though, is read back by its last digit alone.
 */
module CronAsg {
  import opened Wrappers
  import opened Strings
  import opened Calendar
  import opened CronExpression
  import opened CronEvaluation
  import opened CronParser

  /* ---------- the printer ---------- */

  function ToAsgNumeric(field: Field, value: nat): Option<string> {
    match field
    case Months => if 1 <= value <= 12 then Some(MONTH_NAMES[value - 1][..3]) else None
    case MonthDays => Some(Decimal(value))
    case Weekdays => if value <= 6 then Some(WEEKDAY_NAMES[value][..3]) else None
  }

  function ToAsgLast(field: Field): Option<string> {
    if field.Months? then ToAsgNumeric(field, 12) else Some("L")
  }

  function ToAsgRange(field: Field, start: nat, end: RangeEnd, interval: nat): Option<string> {
    match ToAsgNumeric(field, start)
    case None => None
    case Some(a) =>
      if end.NoEnd? then
        if interval == 1 && !field.Months? then None else Some(a + ['/'] + Decimal(interval))
      else
        match if end.NumericEnd? then ToAsgNumeric(field, end.value) else ToAsgLast(field)
        case None => None
        case Some(b) =>
          Some(if interval == 1 then a + ['-'] + b else a + ['-'] + b + ['/'] + Decimal(interval))
  }

  /** The recurrence string of an expression, or `None` where the printer raises. */
  function ToAsg(field: Field, expr: Expr): Option<string>
    decreases expr, 1
  {
    match expr
    case All => Some("*")
    case Numeric(value) => ToAsgNumeric(field, value)
    case Last => ToAsgLast(field)
    case Range(start, end, interval) => ToAsgRange(field, start, end, interval)
    case Union(exprs) =>
      (match ToAsgEach(field, exprs)
       case None => None
       case Some(parts) => Some(Join(parts, ',')))
    case _ => None
  }

  function ToAsgEach(field: Field, exprs: seq<Expr>): (r: Option<seq<string>>)
    ensures r.Some? ==> |r.value| == |exprs|
    decreases exprs, 0
  {
    if exprs == [] then Some([])
    else
      match (ToAsg(field, exprs[0]), ToAsgEach(field, exprs[1..]))
      case (Some(part), Some(parts)) => Some([part] + parts)
      case _ => None
  }

  /* ---------- what parsing gives back ---------- */

  /** The expressions below the unions, in order; an empty union is a leaf of its own. */
  function Leaves(expr: Expr): (r: seq<Expr>)
    ensures r != []
    decreases expr, 1
  {
    match expr
    case Union(exprs) => if exprs == [] then [expr] else LeavesOfEach(exprs)
    case _ => [expr]
  }

  function LeavesOfEach(exprs: seq<Expr>): (r: seq<Expr>)
    ensures exprs != [] ==> r != []
    decreases exprs, 0
  {
    if exprs == [] then [] else Leaves(exprs[0]) + LeavesOfEach(exprs[1..])
  }

  function FromLeaves(leaves: seq<Expr>): Expr {
    if |leaves| == 1 then leaves[0] else Union(leaves)
  }

  /** The same expression with its unions flattened. */
  function Flat(expr: Expr): Expr {
    FromLeaves(Leaves(expr))
  }

  predicate OneDigitStep(leaf: Expr) {
    leaf.Range? ==> leaf.interval < 10
  }

  predicate IsEmptyUnion(leaf: Expr) {
    leaf == Union([])
  }

  function KeepLastDigit(leaf: Expr): Expr {
    if leaf.Range? then leaf.(interval := leaf.interval % 10) else leaf
  }

  function KeepLastDigits(leaves: seq<Expr>): (r: seq<Expr>)
    ensures |r| == |leaves| && forall i | 0 <= i < |leaves| :: r[i] == KeepLastDigit(leaves[i])
  {
    seq(|leaves|, i requires 0 <= i < |leaves| => KeepLastDigit(leaves[i]))
  }

  /* ---------- the parts of a printed leaf ---------- */

  /** Digits and lower-case letters only. */
  predicate IsWord(s: string) {
    s != "" && forall c | c in s :: IsDigit(c) || IsLetter(c)
  }

  lemma WordIsLower(s: string)
    requires IsWord(s)
    ensures Lower(s) == s
  {
    assert forall i | 0 <= i < |s| :: s[i] in s;
  }

  lemma NumericReadsBack(field: Field, value: nat)
    requires ValidNumeric(field, value)
    ensures var s := ToAsgNumeric(field, value);
            s.Some? && IsWord(s.value) && ParseSingle(field, s.value) == Some(Numeric(value))
  {
    var s := ToAsgNumeric(field, value).value;
    match field
    case MonthDays =>
      NumberOfDecimal(value);
    case Months =>
      MonthNamesAreLetters(value - 1);
      NameReadsBack(field, value - 1);
    case Weekdays =>
      WeekdayNamesAreLetters(value);
      NameReadsBack(field, value);
  }

  lemma NameReadsBack(field: Field, i: nat)
    requires i < |Names(field)| && AllLetters(Names(field)[i]) && |Names(field)[i]| >= 3
    ensures IsWord(Names(field)[i][..3])
    ensures ParseSingle(field, Names(field)[i][..3]) == Some(Numeric(i + FirstValue(field)))
  {
    var s := Names(field)[i][..3];
    assert s[0] in s && !IsDigit(s[0]);
    assert IsName(Names(field)[i], s);
    var found := IndexOfName(Names(field), s, 0);
    if field.Months? {
      MonthNamesAreDistinct(found.value, i);
    } else {
      WeekdayNamesAreDistinct(found.value, i);
    }
  }

  lemma NamesAreLetters(field: Field, i: nat, s: string)
    requires i < |Names(field)| && IsName(Names(field)[i], s)
    ensures AllLetters(s)
  {
    if field.Months? {
      MonthNamesAreLetters(i);
    } else if field.Weekdays? {
      WeekdayNamesAreLetters(i);
    }
  }

  /** A string with a character other than letters and digits is no single value. */
  lemma PunctuatedIsNotSingle(field: Field, s: string, i: nat)
    requires i < |s| && !IsDigit(s[i]) && !IsLetter(s[i]) && !('A' <= s[i] <= 'Z')
    ensures ParseSingle(field, s) == None
  {
    assert s[i] in s;
    var found := IndexOfName(Names(field), s, 0);
    if found.Some? {
      NamesAreLetters(field, found.value, s);
    }
  }

  lemma RangeReadsBack(field: Field, a: string, b: string)
    requires IsWord(a) && IsWord(b)
    ensures ParseRange(field, a + ['-'] + b) ==
            match (ParseSingle(field, a), ParseSingle(field, b))
            case (Some(Numeric(start)), Some(Numeric(end))) => Some(Range(start, NumericEnd(end), 1))
            case (Some(Numeric(start)), Some(Last)) => Some(Range(start, LastEnd, 1))
            case _ => None
  {
    var s := a + ['-'] + b;
    forall i | |a| < i < |s| ensures s[i] != '-' {
      assert s[i] == b[i - |a| - 1] && b[i - |a| - 1] in b;
    }
    assert s[|a|] == '-';
    assert RangeDash(s) == Some(|a|);
    assert s[..|a|] == a && s[|a| + 1..] == b;
    StripNothing(a);
    StripNothing(b);
  }

  lemma WordIsNoRange(field: Field, s: string)
    requires IsWord(s)
    ensures ParseRange(field, s) == None
  {
    assert forall i | 0 <= i < |s| :: s[i] in s;
  }

  predicate NoSlash(s: string) {
    '/' !in s
  }

  lemma NoSlashNoStep(field: Field, s: string)
    requires NoSlash(s)
    ensures ParseStep(field, s) == None
  {
  }

  lemma SlashOf(s: string, d: string)
    requires s != "" && '/' !in d && LastDigit(d).Some?
    ensures var whole := s + ['/'] + d;
            StepSlash(whole, |whole|) == Some(|s|) && whole[..|s|] == s && whole[|s| + 1..] == d
  {
    AroundTheSlash(s, d);
    LastSlash(s + ['/'] + d, |s|);
  }

  lemma LastSlash(s: string, i: nat)
    requires 1 <= i < |s| && s[i] == '/' && LastDigit(s[i + 1..]).Some?
    requires forall k | i < k < |s| :: s[k] != '/'
    ensures StepSlash(s, |s|) == Some(i)
  {
    hide LastDigit, StepSlash;
    assert StepSlash(s, |s|).Some?;
  }

  lemma AroundTheSlash(s: string, d: string)
    ensures var whole := s + ['/'] + d;
            whole[..|s|] == s && whole[|s| + 1..] == d && whole[|s|] == '/'
            && forall i | |s| < i < |whole| :: whole[i] in d
  {
    var whole := s + ['/'] + d;
    assert forall i | |s| < i < |whole| :: whole[i] == d[i - |s| - 1];
  }

  lemma StepReadsBack(field: Field, s: string, interval: nat)
    requires s != ""
    ensures var step, range, single := ParseStep(field, s + ['/'] + Decimal(interval)), ParseRange(field, s), ParseSingle(field, s);
            && (range.Some? ==> step == Some(range.value.(interval := interval % 10)))
            && (range.None? && single.Some? && single.value.Numeric? ==>
                  step == Some(Range(single.value.value, NoEnd, interval % 10)))
  {
    hide ParseRange, ParseSingle, StepSlash;
    var d := Decimal(interval);
    assert LastDigit(d) == Some(interval % 10) by {
      assert d[|d| - 1] in d;
    }
    hide LastDigit, Decimal;
    SlashOf(s, d);
  }

  /* ---------- reading back one leaf ---------- */

  /** A printed word, except that a last day is printed in upper case. */
  predicate IsToken(s: string) {
    s == "L" || IsWord(s)
  }

  lemma TokenIsClean(s: string)
    requires IsToken(s)
    ensures IsWord(Lower(s)) && |s| >= 1
    ensures forall c | c in s :: !IsSpace(c) && c != ',' && c != '/'
  {
    if s != "L" {
      WordIsLower(s);
    }
  }

  lemma LastReadsBack(field: Field)
    ensures Lower("L") == "l" && ParseSingle(field, "l") == Some(Last)
  {
    assert "l"[0] in "l";
    assert IndexOfName(Names(field), "l", 0).None?;
  }

  lemma EndReadsBack(field: Field, start: nat, end: RangeEnd)
    requires ValidRangeEnd(field, start, end) && !end.NoEnd?
    ensures var s := if end.NumericEnd? then ToAsgNumeric(field, end.value) else ToAsgLast(field);
            s.Some? && IsToken(s.value)
            && ParseSingle(field, Lower(s.value)) == Some(if end.NumericEnd? then Numeric(end.value) else Last)
  {
    if end.NumericEnd? {
      NumericReadsBack(field, end.value);
      WordIsLower(ToAsgNumeric(field, end.value).value);
    } else {
      LastReadsBack(field);
    }
  }

  lemma NumericPart(field: Field, value: nat)
    requires ValidNumeric(field, value)
    ensures ParsePart(field, ToAsgNumeric(field, value).value) == Some(Numeric(value))
  {
    NumericReadsBack(field, value);
    var s := ToAsgNumeric(field, value).value;
    TokenIsClean(s);
    StripNothing(s);
    WordIsLower(s);
  }

  lemma LastPart(field: Field)
    requires !field.Months?
    ensures ParsePart(field, "L") == Some(Last)
  {
    LastReadsBack(field);
    hide ParseSingle;
    StripNothing("L");
  }

  lemma AllPart(field: Field)
    ensures ParsePart(field, "*") == Some(All)
  {
    assert Lower("*") == "*";
    PunctuatedIsNotSingle(field, "*", 0);
  }

  /** Such a string is tried as a step first and as a range next. */
  lemma TriedAsStepThenRange(field: Field, s: string, i: nat)
    requires i < |s| && |s| >= 2 && (s[i] == '-' || s[i] == '/')
    ensures ParseStep(field, s).Some? ==> GeneralParse(field, s) == ParseStep(field, s)
    ensures ParseStep(field, s).None? && ParseRange(field, s).Some? ==> GeneralParse(field, s) == ParseRange(field, s)
  {
    PunctuatedIsNotSingle(field, s, i);
    hide ParseSingle, ParseStep, ParseRange, ParseNthWeekday, ParseLastWeekday, ParseNearestWeekday;
  }

  lemma LoweredRange(field: Field, s: string, i: nat, range: Expr, interval: nat)
    requires i < |s| && |s| >= 2 && s[i] == '-' && NoSlash(s) && ParseRange(field, s) == Some(range)
    ensures GeneralParse(field, s) == Some(range)
    ensures GeneralParse(field, s + ['/'] + Decimal(interval)) == Some(range.(interval := interval % 10))
  {
    hide ParseRange, ParseSingle, GeneralParse, Decimal;
    NoSlashNoStep(field, s);
    hide ParseStep;
    TriedAsStepThenRange(field, s, i);
    StepReadsBack(field, s, interval);
    TriedAsStepThenRange(field, s + ['/'] + Decimal(interval), i);
  }

  lemma LoweredStep(field: Field, s: string, start: nat, interval: nat)
    requires IsWord(s) && ParseSingle(field, s) == Some(Numeric(start))
    ensures GeneralParse(field, s + ['/'] + Decimal(interval)) == Some(Range(start, NoEnd, interval % 10))
  {
    WordIsNoRange(field, s);
    hide ParseRange, ParseSingle, ParseStep, GeneralParse, Decimal;
    StepReadsBack(field, s, interval);
    TriedAsStepThenRange(field, s + ['/'] + Decimal(interval), |s|);
  }

  lemma CleanStep(a: string, d: string)
    requires IsWord(a) && IsWord(d)
    ensures Lower(Strip(a + ['/'] + d)) == a + ['/'] + d
    ensures ',' !in a + ['/'] + d
  {
    TokenIsClean(a);
    TokenIsClean(d);
    StripNothing(a + ['/'] + d);
    WordIsLower(a);
    WordIsLower(d);
    hide IsWord;
    LowerConcat(a, ['/']);
    LowerConcat(a + ['/'], d);
  }

  lemma StepPart(field: Field, a: string, interval: nat)
    requires IsWord(a) && ParseSingle(field, a).Some? && ParseSingle(field, a).value.Numeric?
    ensures ParsePart(field, a + ['/'] + Decimal(interval))
         == Some(Range(ParseSingle(field, a).value.value, NoEnd, interval % 10))
    ensures ',' !in a + ['/'] + Decimal(interval)
  {
    assert IsWord(Decimal(interval));
    CleanStep(a, Decimal(interval));
    hide ParseSingle, GeneralParse, Lower, Strip, IsWord, Decimal;
    LoweredStep(field, a, ParseSingle(field, a).value.value, interval);
  }

  lemma CleanRange(a: string, b: string, d: string)
    requires IsWord(a) && IsToken(b) && IsWord(d)
    ensures Lower(Strip(a + ['-'] + b)) == a + ['-'] + Lower(b)
    ensures Lower(Strip(a + ['-'] + b + ['/'] + d)) == a + ['-'] + Lower(b) + ['/'] + d
    ensures NoSlash(a + ['-'] + Lower(b))
    ensures ',' !in a + ['-'] + b + ['/'] + d
  {
    hide IsWord, IsToken, Lower, Strip;
    DashIsClean(a, b);
    SlashIsClean(a + ['-'] + b, d);
  }

  lemma DashIsClean(a: string, b: string)
    requires IsWord(a) && IsToken(b)
    ensures var s := a + ['-'] + b;
            && Strip(s) == s && Lower(s) == a + ['-'] + Lower(b) && NoSlash(a + ['-'] + Lower(b))
            && forall c | c in s :: !IsSpace(c) && c != ','
  {
    TokenIsClean(a);
    TokenIsClean(b);
    TokenIsClean(Lower(b));
    WordIsLower(a);
    hide IsWord, IsToken, Strip;
    StripNothing(a + ['-'] + b);
    LowerConcat(a, ['-']);
    LowerConcat(a + ['-'], b);
    hide LowerChar;
  }

  lemma SlashIsClean(s: string, d: string)
    requires IsWord(d) && forall c | c in s :: !IsSpace(c) && c != ','
    ensures Lower(Strip(s + ['/'] + d)) == Lower(s) + ['/'] + d && ',' !in s + ['/'] + d
  {
    TokenIsClean(d);
    WordIsLower(d);
    hide IsWord, IsToken, Strip;
    StripNothing(s + ['/'] + d);
    LowerConcat(s, ['/']);
    LowerConcat(s + ['/'], d);
  }

  lemma RangePart(field: Field, a: string, b: string, interval: nat)
    requires IsWord(a) && IsToken(b)
    requires ParseSingle(field, a).Some? && ParseSingle(field, a).value.Numeric?
    requires ParseSingle(field, Lower(b)).Some?
    ensures var start, end := ParseSingle(field, a).value.value, ParseSingle(field, Lower(b)).value;
            var e := if end.Numeric? then NumericEnd(end.value) else LastEnd;
            ParsePart(field, a + ['-'] + b) == Some(Range(start, e, 1))
            && ParsePart(field, a + ['-'] + b + ['/'] + Decimal(interval)) == Some(Range(start, e, interval % 10))
    ensures ',' !in a + ['-'] + b + ['/'] + Decimal(interval)
  {
    var d := Decimal(interval);
    var text := a + ['-'] + Lower(b);
    CleanRange(a, b, d);
    TokenIsClean(b);
    var start, end := ParseSingle(field, a).value, ParseSingle(field, Lower(b)).value;
    assert end.Numeric? || end.Last?;
    hide Lower, Strip, IsWord, IsToken, Decimal, ParseSingle, GeneralParse, NoSlash;
    RangeReadsBack(field, a, Lower(b));
    var range := Range(start.value, if end.Numeric? then NumericEnd(end.value) else LastEnd, 1);
    assert ParseRange(field, text) == Some(range);
    hide ParseRange;
    LoweredRange(field, text, |a|, range, interval);
  }

  /** A printed leaf is read back as it was, except that only the last digit of its step is kept. */
  lemma LeafReadsBack(field: Field, leaf: Expr)
    requires Valid(field, leaf) && !leaf.Union? && ToAsg(field, leaf).Some?
    ensures ',' !in ToAsg(field, leaf).value
    ensures ParsePart(field, ToAsg(field, leaf).value) == Some(KeepLastDigit(leaf))
  {
    hide ParsePart, ToAsgNumeric, ParseSingle, IsWord;
    match leaf
    case All =>
      AllPart(field);
    case Numeric(value) =>
      NumericReadsBack(field, value);
      TokenIsClean(ToAsgNumeric(field, value).value);
      NumericPart(field, value);
    case Last =>
      LastPart(field);
    case Range(start, end, interval) =>
      NumericReadsBack(field, start);
      var a := ToAsgNumeric(field, start).value;
      if end.NoEnd? {
        StepPart(field, a, interval);
      } else {
        EndReadsBack(field, start, end);
        var b := if end.NumericEnd? then ToAsgNumeric(field, end.value) else ToAsgLast(field);
        RangePart(field, a, b.value, interval);
      }
  }

  /** A string without commas is parsed as one part. */
  lemma OneWordField(field: Field, s: string)
    requires ',' !in s
    ensures ParseMulti(field, Some([s])) == ParsePart(field, s)
  {
    SplitNothing(s, ',');
  }

  /* ---------- reading back a whole field ---------- */

  /** What parsing the printed text of a leaf gives; the text of an empty union is empty. */
  function LeafBack(leaf: Expr): Option<Expr> {
    if IsEmptyUnion(leaf) then None else Some(KeepLastDigit(leaf))
  }

  ghost predicate PartsReadBack(field: Field, parts: seq<string>, leaves: seq<Expr>) {
    |parts| == |leaves| && forall i | 0 <= i < |parts| :: ParsePart(field, parts[i]) == LeafBack(leaves[i])
  }

  lemma {:induction false} PrintedPartsReadBack(field: Field, expr: Expr)
    requires Valid(field, expr) && ToAsg(field, expr).Some?
    ensures PartsReadBack(field, Split(ToAsg(field, expr).value, ','), Leaves(expr))
    decreases expr, 1
  {
    hide ParsePart, ToAsgRange, ToAsgNumeric;
    var s := ToAsg(field, expr).value;
    if IsEmptyUnion(expr) {
      EmptyPart(field);
    } else if expr.Union? {
      PrintedUnionReadsBack(field, expr.exprs);
    } else {
      LeafReadsBack(field, expr);
      SplitNothing(s, ',');
    }
  }

  lemma EmptyPart(field: Field)
    ensures ParsePart(field, "") == None
  {
    assert IndexOfName(Names(field), "", 0).None?;
  }

  lemma {:induction false} PrintedUnionReadsBack(field: Field, exprs: seq<Expr>)
    requires exprs != [] && (forall e | e in exprs :: Valid(field, e)) && ToAsgEach(field, exprs).Some?
    ensures PartsReadBack(field, Split(Join(ToAsgEach(field, exprs).value, ','), ','), LeavesOfEach(exprs))
    decreases exprs, 0
  {
    hide ParsePart, Split, Valid, Leaves;
    PrintedPartsReadBack(field, exprs[0]);
    if |exprs| == 1 {
      assert LeavesOfEach(exprs[1..]) == [];
    } else {
      PrintedUnionReadsBack(field, exprs[1..]);
      SplitConcat(ToAsg(field, exprs[0]).value, Join(ToAsgEach(field, exprs[1..]).value, ','), ',');
    }
  }

  /**
   Parsing a printed expression gives back its leaves with the last digits of their steps, and it
   fails exactly when some union in the expression is empty.
   */
  lemma ParsingWhatWasPrinted(field: Field, expr: Expr)
    requires Valid(field, expr) && ToAsg(field, expr).Some?
    ensures ParseOne(field, ToAsg(field, expr).value) ==
            if exists leaf | leaf in Leaves(expr) :: IsEmptyUnion(leaf) then None
            else Some(FromLeaves(KeepLastDigits(Leaves(expr))))
  {
    hide ToAsg, Leaves, Split, ParsePart;
    var leaves := Leaves(expr);
    var parts := Split(ToAsg(field, expr).value, ',');
    PrintedPartsReadBack(field, expr);
    if |parts| > 1 {
      var parsed := ParseParts(field, parts);
      if leaf :| leaf in leaves && IsEmptyUnion(leaf) {
        var i :| 0 <= i < |leaves| && leaves[i] == leaf;
        assert ParsePart(field, parts[i]) == None;
      } else {
        assert forall i | 0 <= i < |leaves| :: leaves[i] in leaves;
        assert parsed.Some? && parsed.value == KeepLastDigits(leaves);
      }
    }
  }

  lemma {:induction false} LeavesAreValid(field: Field, expr: Expr, leaf: Expr)
    requires Valid(field, expr) && leaf in Leaves(expr)
    ensures Valid(field, leaf) && (leaf.Union? ==> IsEmptyUnion(leaf))
    decreases expr, 1
  {
    if expr.Union? && expr.exprs != [] {
      LeavesOfEachAreValid(field, expr.exprs, leaf);
    }
  }

  lemma {:induction false} LeavesOfEachAreValid(field: Field, exprs: seq<Expr>, leaf: Expr)
    requires (forall e | e in exprs :: Valid(field, e)) && leaf in LeavesOfEach(exprs)
    ensures Valid(field, leaf) && (leaf.Union? ==> IsEmptyUnion(leaf))
    decreases exprs, 0
  {
    if leaf in Leaves(exprs[0]) {
      LeavesAreValid(field, exprs[0], leaf);
    } else {
      LeavesOfEachAreValid(field, exprs[1..], leaf);
    }
  }

  /**
   Printing and parsing a field gives the same expression back, up to flattening, exactly when none of
   its unions is empty and no step in it is ten or more.
   */
  lemma PrintThenParseExactly(field: Field, expr: Expr)
    requires Valid(field, expr) && ToAsg(field, expr).Some?
    ensures ParseField(field, Some([ToAsg(field, expr).value])) == Some(Flat(expr))
       <==> forall leaf | leaf in Leaves(expr) :: !IsEmptyUnion(leaf) && OneDigitStep(leaf)
  {
    hide ToAsg, Leaves, ParseOne, Valid;
    var leaves := Leaves(expr);
    ParsingWhatWasPrinted(field, expr);
    forall leaf | leaf in leaves ensures Valid(field, leaf) && (leaf.Union? ==> IsEmptyUnion(leaf)) {
      LeavesAreValid(field, expr, leaf);
    }
    KeptExactly(leaves);
    FlatIsValid(field, leaves);
  }

  lemma KeptExactly(leaves: seq<Expr>)
    requires leaves != []
    ensures FromLeaves(KeepLastDigits(leaves)) == FromLeaves(leaves) <==> forall leaf | leaf in leaves :: OneDigitStep(leaf)
  {
    assert forall i | 0 <= i < |leaves| :: leaves[i] in leaves;
    if leaf :| leaf in leaves && !OneDigitStep(leaf) {
      var i :| 0 <= i < |leaves| && leaves[i] == leaf;
      assert KeepLastDigits(leaves)[i] != leaves[i];
    } else {
      assert KeepLastDigits(leaves) == leaves;
    }
  }

  lemma FlatIsValid(field: Field, leaves: seq<Expr>)
    requires leaves != [] && forall leaf | leaf in leaves :: Valid(field, leaf)
    ensures Valid(field, FromLeaves(leaves))
  {
  }

  /* ---------- the meaning is kept ---------- */

  lemma {:induction false} AnyOfConcat(field: Field, a: seq<Expr>, b: seq<Expr>, n: nat)
    ensures AnyContains(field, a + b, n) ==
            if AnyContains(field, a, n) == Some(false) then AnyContains(field, b, n) else AnyContains(field, a, n)
    decreases a
  {
    hide Contains;
    if a == [] {
      assert a + b == b;
    } else {
      AnyOfConcat(field, a[1..], b, n);
      assert (a + b)[1..] == a[1..] + b;
    }
  }

  lemma {:induction false} LeavesMeanTheSame(field: Field, expr: Expr, n: nat)
    ensures AnyContains(field, Leaves(expr), n) == Contains(field, expr, n)
    decreases expr, 1
  {
    hide RangeContains, ResolveNearestWeekday, ResolveNthWeekday, LastSuchWeekday;
    if expr.Union? {
      if expr.exprs != [] {
        LeavesOfEachMeanTheSame(field, expr.exprs, n);
      } else {
        assert Leaves(expr) == [expr] && [expr][1..] == [];
      }
    } else {
      assert [expr][1..] == [];
    }
  }

  lemma {:induction false} LeavesOfEachMeanTheSame(field: Field, exprs: seq<Expr>, n: nat)
    ensures AnyContains(field, LeavesOfEach(exprs), n) == AnyContains(field, exprs, n)
    decreases exprs, 0
  {
    hide Contains, Leaves;
    if exprs != [] {
      LeavesMeanTheSame(field, exprs[0], n);
      LeavesOfEachMeanTheSame(field, exprs[1..], n);
      AnyOfConcat(field, Leaves(exprs[0]), LeavesOfEach(exprs[1..]), n);
    }
  }

  lemma FlatMeansTheSame(field: Field, expr: Expr, n: nat)
    ensures Contains(field, Flat(expr), n) == Contains(field, expr, n)
  {
    LeavesMeanTheSame(field, expr, n);
    var leaves := Leaves(expr);
    hide RangeContains, ResolveNearestWeekday, ResolveNthWeekday, LastSuchWeekday, Leaves;
    if |leaves| == 1 {
      assert leaves == [leaves[0]] && leaves[1..] == [];
    }
  }

  /** A printed field whose steps are all below ten holds on the same days after parsing. */
  lemma PrintThenParseKeepsTheMeaning(field: Field, expr: Expr, n: nat)
    requires Valid(field, expr) && ToAsg(field, expr).Some?
    requires forall leaf | leaf in Leaves(expr) :: !IsEmptyUnion(leaf) && OneDigitStep(leaf)
    ensures var parsed := ParseField(field, Some([ToAsg(field, expr).value]));
            parsed.Some? && Contains(field, parsed.value, n) == Contains(field, expr, n)
  {
    hide ToAsg, ParseField, Leaves, Contains, Flat;
    PrintThenParseExactly(field, expr);
    FlatMeansTheSame(field, expr, n);
  }

  /** A step of ten, twenty and so on is read back as zero, and a zero step is never evaluated to the end. */
  lemma StepsOfTenAreNeverEvaluated(field: Field, start: nat, end: RangeEnd, interval: nat, n: nat)
    requires Valid(field, Range(start, end, interval))
    requires interval >= 1 && interval % 10 == 0
    requires start <= DomainOf(field, DateOf(n)).end
    ensures var expr := Range(start, end, interval);
            ToAsg(field, expr).Some?
            && Contains(field, expr, n).Some?
            && ParseOne(field, ToAsg(field, expr).value) == Some(expr.(interval := 0))
            && Contains(field, expr.(interval := 0), n) == None
  {
    var expr := Range(start, end, interval);
    NumericReadsBack(field, start);
    if !end.NoEnd? {
      EndReadsBack(field, start, end);
    }
    assert Leaves(expr) == [expr];
    hide ToAsgNumeric, ToAsgLast, ParseOne, ParseSingle, Lower;
    ParsingWhatWasPrinted(field, expr);
  }
}
