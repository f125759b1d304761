/**
 What the texts of a period definition are read as: the kinds of expression that are never printed,
 names in full, and spaces and capitals, which make no difference.
 */
module CronReading {
  import opened Wrappers
  import opened Strings
  import opened CronExpression
  import opened CronParser
  import opened CronAsg

  /* ---------- spaces and capitals ---------- */

  predicate AllSpaces(s: string) {
    forall c | c in s :: IsSpace(c)
  }

  lemma {:induction false} StripLeftSpaces(spaces: string, s: string)
    requires AllSpaces(spaces)
    ensures StripLeft(spaces + s) == StripLeft(s)
    decreases spaces
  {
    if spaces == "" {
      assert spaces + s == s;
    } else {
      assert (spaces + s)[1..] == spaces[1..] + s && spaces[0] in spaces;
      StripLeftSpaces(spaces[1..], s);
    }
  }

  lemma {:induction false} StripRightSpaces(s: string, spaces: string)
    requires AllSpaces(spaces)
    ensures StripRight(s + spaces) == StripRight(s)
    decreases spaces
  {
    if spaces == "" {
      assert s + spaces == s;
    } else {
      var last := |spaces| - 1;
      assert (s + spaces)[..|s + spaces| - 1] == s + spaces[..last] && spaces[last] in spaces;
      StripRightSpaces(s, spaces[..last]);
    }
  }

  lemma {:induction false} StripLeftOfMore(s: string, spaces: string)
    requires s != "" && !IsSpace(s[|s| - 1])
    ensures StripLeft(s + spaces) == StripLeft(s) + spaces
    decreases s
  {
    if IsSpace(s[0]) {
      assert (s + spaces)[1..] == s[1..] + spaces;
      StripLeftOfMore(s[1..], spaces);
    }
  }

  /** Spaces around a text without any at its own ends are dropped. */
  lemma StripAround(before: string, s: string, after: string)
    requires AllSpaces(before) && AllSpaces(after) && s != "" && !IsSpace(s[0]) && !IsSpace(s[|s| - 1])
    ensures Strip(before + s + after) == s
  {
    assert before + s + after == before + (s + after);
    StripLeftSpaces(before, s + after);
    StripLeftOfMore(s, after);
    StripRightSpaces(s, after);
  }

  /** A part reads the same with spaces around it. */
  lemma SpacesMakeNoDifference(field: Field, before: string, s: string, after: string)
    requires AllSpaces(before) && AllSpaces(after) && s != "" && !IsSpace(s[0]) && !IsSpace(s[|s| - 1])
    ensures ParsePart(field, before + s + after) == ParsePart(field, s)
  {
    hide GeneralParse;
    StripAround(before, s, after);
    StripAround("", s, "");
    assert "" + s + "" == s;
    hide Strip;
  }

  lemma LowerTwice(s: string)
    ensures Lower(Lower(s)) == Lower(s)
    ensures forall c :: IsSpace(LowerChar(c)) <==> IsSpace(c)
  {
  }

  lemma {:induction false} StripLeftOfLower(s: string)
    ensures StripLeft(Lower(s)) == Lower(StripLeft(s))
    decreases s
  {
    LowerTwice(s);
    if s != "" && IsSpace(s[0]) {
      assert Lower(s)[1..] == Lower(s[1..]);
      StripLeftOfLower(s[1..]);
    }
  }

  lemma {:induction false} StripRightOfLower(s: string)
    ensures StripRight(Lower(s)) == Lower(StripRight(s))
    decreases s
  {
    LowerTwice(s);
    if s != "" && IsSpace(s[|s| - 1]) {
      assert Lower(s)[..|s| - 1] == Lower(s[..|s| - 1]);
      StripRightOfLower(s[..|s| - 1]);
    }
  }

  /** A part reads the same in capitals, in small letters and in any mix of them. */
  lemma CapitalsMakeNoDifference(field: Field, s: string, r: string)
    requires Lower(s) == Lower(r)
    ensures ParsePart(field, s) == ParsePart(field, r)
  {
    hide GeneralParse;
    forall x ensures Lower(Strip(x)) == Strip(Lower(x)) {
      StripLeftOfLower(x);
      StripRightOfLower(StripLeft(x));
    }
  }

  /* ---------- names ---------- */

  /** The value at position `i` of the names of a field. */
  lemma FullNameReads(field: Field, i: nat)
    requires i < |Names(field)|
    ensures ParseSingle(field, Names(field)[i]) == Some(Numeric(i + FirstValue(field)))
  {
    var s := Names(field)[i];
    if field.Months? {
      MonthNamesAreLetters(i);
    } else {
      WeekdayNamesAreLetters(i);
    }
    assert s[0] in s && !IsDigit(s[0]);
    assert IsName(Names(field)[i], s);
    var found := IndexOfName(Names(field), s, 0);
    OnlyItsOwnName(field, found.value, i);
  }

  lemma OnlyItsOwnName(field: Field, j: nat, i: nat)
    requires i < |Names(field)| && j < |Names(field)| && IsName(Names(field)[j], Names(field)[i])
    ensures i == j
  {
    assert Names(field)[i][..3] == Names(field)[j][..3] by {
      if field.Months? {
        MonthNamesAreLetters(i);
        MonthNamesAreLetters(j);
      } else {
        WeekdayNamesAreLetters(i);
        WeekdayNamesAreLetters(j);
      }
    }
    if field.Months? {
      MonthNamesAreDistinct(j, i);
    } else {
      WeekdayNamesAreDistinct(j, i);
    }
  }

  /** Each month and weekday reads by its full name, whatever its case, as its number. */
  lemma NamesAreRead(i: nat)
    ensures i < 12 ==> ParsePart(Months, MONTH_NAMES[i]) == Some(Numeric(i + 1))
    ensures i < 7 ==> ParsePart(Weekdays, WEEKDAY_NAMES[i]) == Some(Numeric(i))
  {
    hide ParsePart, ParseSingle;
    if i < 12 {
      MonthNamesAreLetters(i);
      FullNameReads(Months, i);
      WordReads(Months, MONTH_NAMES[i]);
    }
    if i < 7 {
      WeekdayNamesAreLetters(i);
      FullNameReads(Weekdays, i);
      WordReads(Weekdays, WEEKDAY_NAMES[i]);
    }
  }

  lemma WordReads(field: Field, s: string)
    requires s != "" && AllLetters(s) && ParseSingle(field, s).Some?
    ensures ParsePart(field, s) == ParseSingle(field, s)
  {
    assert IsWord(s) by {
      assert forall c | c in s :: IsLetter(c);
    }
    TokenIsClean(s);
    StripNothing(s);
    WordIsLower(s);
    hide ParseSingle, Strip, Lower;
  }

  /* ---------- the kinds that are not printed ---------- */

  lemma ClosedText(s: string, c: char)
    requires IsWord(s) && !IsSpace(c) && LowerChar(c) == c
    ensures Lower(Strip(s + [c])) == s + [c]
  {
    TokenIsClean(s);
    StripNothing(s + [c]);
    WordIsLower(s);
    LowerConcat(s, [c]);
  }

  /** Text of letters, digits and no slash or dash between others is neither a step nor a range. */
  lemma NoStepNoRange(field: Field, s: string)
    requires '/' !in s && '-' !in s
    ensures ParseStep(field, s) == None && ParseRange(field, s) == None
  {
    NoSlashNoStep(field, s);
    hide ParseStep;
  }

  /** The nth weekday is written as a weekday, a hash sign and a number. */
  lemma NthWeekdayReads(day: string, weekday: nat, n: nat)
    requires IsWord(day) && ParseNumeric(Weekdays, day) == Some(weekday)
    ensures ParsePart(Weekdays, day + ['#'] + Decimal(n)) == Some(NthWeekday(weekday, n))
  {
    var d := Decimal(n);
    var s := day + ['#'] + d;
    assert IsWord(d);
    HashIsClean(day, d);
    PunctuatedIsNotSingle(Weekdays, s, |day|);
    NoStepNoRange(Weekdays, s);
    hide ParseSingle, ParseStep, ParseRange, ParseNumeric, Lower, Strip;
    LastHash(day, d);
    NumberOfDecimal(n);
    assert ParseNthWeekday(Weekdays, s) == Some(NthWeekday(weekday, n));
    hide ParseNthWeekday, ParseLastWeekday, ParseNearestWeekday, GeneralParse, Decimal;
    TriedLast(Weekdays, s);
  }

  lemma HashIsClean(a: string, d: string)
    requires IsWord(a) && IsWord(d)
    ensures Lower(Strip(a + ['#'] + d)) == a + ['#'] + d
    ensures '/' !in a + ['#'] + d && '-' !in a + ['#'] + d
  {
    TokenIsClean(a);
    TokenIsClean(d);
    StripNothing(a + ['#'] + d);
    WordIsLower(a);
    WordIsLower(d);
    assert '-' !in a && '-' !in d;
    hide IsWord;
    LowerConcat(a, ['#']);
    LowerConcat(a + ['#'], d);
  }

  lemma LastHash(a: string, d: string)
    requires a != "" && '#' !in d
    ensures var s := a + ['#'] + d;
            LastIndexOf(s, '#', |s|) == Some(|a|) && s[..|a|] == a && s[|a| + 1..] == d
  {
    var s := a + ['#'] + d;
    assert s[|a|] == '#';
    assert forall i | |a| < i < |s| :: s[i] == d[i - |a| - 1];
    hide LastIndexOf;
    assert LastIndexOf(s, '#', |s|).Some?;
  }

  /** The last such weekday of a month is written as a weekday and an L. */
  lemma LastWeekdayReads(day: string, weekday: nat)
    requires IsWord(day) && ParseNumeric(Weekdays, day) == Some(weekday)
    requires ParseSingle(Weekdays, day + ['l']) == None
    ensures ParsePart(Weekdays, day + ['l']) == Some(LastWeekday(weekday))
  {
    var s := day + ['l'];
    ClosedText(day, 'l');
    assert s[|s| - 1] == 'l' && s[..|s| - 1] == day;
    assert '/' !in s && '-' !in s && '#' !in s && !IsLast(s) && |s| >= 2;
    NoStepNoRange(Weekdays, s);
    assert ParseLastWeekday(Weekdays, s) == Some(LastWeekday(weekday));
    assert ParseNthWeekday(Weekdays, s) == None;
    hide ParseSingle, ParseStep, ParseRange, ParseNumeric, ParseNthWeekday, ParseLastWeekday, GeneralParse, Lower, Strip;
    TriedLast(Weekdays, s);
  }

  /** For example each weekday's printed name, or its number, with a hash sign and a number, or with an L. */
  lemma WeekdaysOfMonthRead(weekday: nat, n: nat)
    requires weekday <= 6
    ensures var name := WEEKDAY_NAMES[weekday][..3];
            ParsePart(Weekdays, name + ['#'] + Decimal(n)) == Some(NthWeekday(weekday, n))
            && ParsePart(Weekdays, name + ['l']) == Some(LastWeekday(weekday))
    ensures ParsePart(Weekdays, Decimal(weekday) + ['#'] + Decimal(n)) == Some(NthWeekday(weekday, n))
         && ParsePart(Weekdays, Decimal(weekday) + ['l']) == Some(LastWeekday(weekday))
  {
    var name, digits := WEEKDAY_NAMES[weekday][..3], Decimal(weekday);
    NumericReadsBack(Weekdays, weekday);
    NumberOfDecimal(weekday);
    assert ParseNumeric(Weekdays, name) == Some(weekday) && ParseNumeric(Weekdays, digits) == Some(weekday);
    assert IsWord(digits);
    NthWeekdayReads(name, weekday, n);
    NthWeekdayReads(digits, weekday, n);
    NameWithL(weekday);
    DigitsWithL(Weekdays, digits);
    LastWeekdayReads(name, weekday);
    LastWeekdayReads(digits, weekday);
  }

  lemma NameWithL(weekday: nat)
    requires weekday <= 6
    ensures ParseSingle(Weekdays, WEEKDAY_NAMES[weekday][..3] + ['l']) == None
  {
    var s := WEEKDAY_NAMES[weekday][..3] + ['l'];
    WeekdayNamesAreLetters(weekday);
    assert |s| == 4 && s[3] in s && !IsDigit(s[3]);
    var found := IndexOfName(Names(Weekdays), s, 0);
    assert forall i | 0 <= i < 7 :: |WEEKDAY_NAMES[i]| >= 6;
    assert found.None?;
    assert Lower(s) != "l";
  }

  lemma DigitsWithL(field: Field, digits: string)
    requires digits != "" && AllDigits(digits)
    ensures ParseSingle(field, digits + ['l']) == None
  {
    var s := digits + ['l'];
    assert s[0] == digits[0] && digits[0] in digits && s[|digits|] in s;
    var found := IndexOfName(Names(field), s, 0);
    if found.Some? {
      NamesAreLetters(field, found.value, s);
    }
    assert |Lower(s)| == |s| >= 2;
  }

  /** The weekday nearest to a day is written as the day and a W. */
  lemma NearestWeekdayReads(day: nat)
    ensures ParsePart(MonthDays, Decimal(day) + ['w']) == Some(NearestWeekday(day))
  {
    NumberOfDecimal(day);
    hide Decimal, ParsePart, NumberOf;
    DigitsWithWRead(Decimal(day));
  }

  lemma DigitsWithWRead(digits: string)
    requires digits != "" && AllDigits(digits)
    ensures ParsePart(MonthDays, digits + ['w']) == Some(NearestWeekday(NumberOf(digits)))
  {
    hide ParseSingle, ParseStep, ParseRange, ParseNthWeekday, ParseLastWeekday, ParseNearestWeekday, GeneralParse,
         NumberOf, Lower, Strip;
    var s := digits + ['w'];
    assert IsWord(digits);
    ClosedText(digits, 'w');
    DigitsWithW(digits);
    NoStepNoRange(MonthDays, s);
    TriedLast(MonthDays, s);
  }

  /** What is no single value, step or range is tried as the other kinds in turn. */
  lemma TriedLast(field: Field, s: string)
    requires |s| >= 2 && ParseSingle(field, s) == None && ParseStep(field, s) == None && ParseRange(field, s) == None
    ensures GeneralParse(field, s) ==
            OrElse(ParseNthWeekday(field, s), OrElse(ParseLastWeekday(field, s), ParseNearestWeekday(s)))
  {
    assert !IsLast(s) && ParseAll(s) == None by {
      assert |Lower(s)| == |s|;
    }
    hide ParseSingle, ParseStep, ParseRange, ParseNthWeekday, ParseLastWeekday, ParseNearestWeekday, IsLast, ParseAll;
  }

  lemma DigitsWithW(digits: string)
    requires digits != "" && AllDigits(digits)
    ensures var s := digits + ['w'];
            && ParseSingle(MonthDays, s) == None && ParseNthWeekday(MonthDays, s) == None
            && ParseLastWeekday(MonthDays, s) == None && ParseNearestWeekday(s) == Some(NearestWeekday(NumberOf(digits)))
  {
    var s := digits + ['w'];
    assert s[|s| - 1] == 'w' && s[..|s| - 1] == digits && s[|digits|] in s && |Lower(s)| == |s|;
    assert '#' !in s;
    hide NumberOf;
  }

  /** Every value is written as a star or a question mark. */
  lemma EveryValueReads(field: Field)
    ensures ParsePart(field, "*") == Some(All) && ParsePart(field, "?") == Some(All)
    ensures ParseMulti(field, None) == Some(All)
  {
    AllPart(field);
    assert Lower("?") == "?";
    PunctuatedIsNotSingle(field, "?", 0);
  }

  /** Spaces around the dash of a range make no difference. */
  lemma SpacesAroundTheDash(field: Field, a: string, before: string, after: string, b: string)
    requires IsWord(a) && IsWord(b) && AllSpaces(before) && AllSpaces(after)
    ensures ParseRange(field, a + before + ['-'] + (after + b)) == ParseRange(field, a + ['-'] + b)
  {
    hide ParseSingle;
    RangeReadsBack(field, a, b);
    var x, y := a + before, after + b;
    var s := x + ['-'] + y;
    assert forall i | |x| < i < |s| :: s[i] == y[i - |x| - 1];
    assert '-' !in y;
    assert s[|x|] == '-' && RangeDash(s) == Some(|x|);
    assert s[..|x|] == x && s[|x| + 1..] == y;
    assert a[0] in a && a[|a| - 1] in a && b[0] in b && b[|b| - 1] in b;
    StripAround("", a, before);
    StripAround(after, b, "");
    assert "" + a + before == x && after + b + "" == y;
    hide Strip;
  }

  /* ---------- what is printed at all ---------- */

  /** The recurrences of Auto Scaling know no nth, last or nearest weekday and no bare start of a range. */
  predicate CanPrint(field: Field, leaf: Expr) {
    match leaf
    case NearestWeekday(_) => false
    case NthWeekday(_, _) => false
    case LastWeekday(_) => false
    case Range(_, end, interval) => !(end.NoEnd? && interval == 1 && !field.Months?)
    case _ => true
  }

  /** A valid expression is printed exactly if each of its leaves can be. */
  lemma {:induction false} PrintedExactlyWhenLeavesAre(field: Field, expr: Expr)
    requires Valid(field, expr)
    ensures ToAsg(field, expr).Some? <==> forall leaf | leaf in Leaves(expr) :: CanPrint(field, leaf)
    decreases expr, 1
  {
    hide ToAsgNumeric;
    if expr.Union? {
      if expr.exprs != [] {
        EachPrintedExactly(field, expr.exprs);
      }
    } else {
      LeafPrinted(field, expr);
    }
  }

  lemma LeafPrinted(field: Field, leaf: Expr)
    requires Valid(field, leaf) && !leaf.Union?
    ensures ToAsg(field, leaf).Some? <==> CanPrint(field, leaf)
  {
  }

  lemma {:induction false} EachPrintedExactly(field: Field, exprs: seq<Expr>)
    requires forall e | e in exprs :: Valid(field, e)
    ensures ToAsgEach(field, exprs).Some? <==> forall leaf | leaf in LeavesOfEach(exprs) :: CanPrint(field, leaf)
    decreases exprs, 0
  {
    hide ToAsg, Leaves, CanPrint, Valid;
    if exprs != [] {
      PrintedExactlyWhenLeavesAre(field, exprs[0]);
      EachPrintedExactly(field, exprs[1..]);
    }
  }

  /** Months and weekdays are printed by the first three letters of their names, days of the month by number. */
  lemma PrintedByName(field: Field, value: nat)
    requires ValidNumeric(field, value)
    ensures var s := ToAsgNumeric(field, value).value;
            if field == MonthDays then AllDigits(s) && NumberOf(s) == value
            else |s| == 3 && AllLetters(s) && s == Names(field)[value - FirstValue(field)][..3]
  {
    match field
    case Months => MonthNamesAreLetters(value - 1);
    case Weekdays => WeekdayNamesAreLetters(value);
    case MonthDays => NumberOfDecimal(value);
  }

  /** A range is printed with a slash exactly if it has a step, or goes on to the end. */
  lemma SlashForSteps(field: Field, start: nat, end: RangeEnd, interval: nat)
    requires Valid(field, Range(start, end, interval)) && ToAsg(field, Range(start, end, interval)).Some?
    ensures '/' in ToAsg(field, Range(start, end, interval)).value <==> interval != 1 || end.NoEnd?
  {
    NumericReadsBack(field, start);
    var a := ToAsgNumeric(field, start).value;
    WordHasNoSlash(a);
    if !end.NoEnd? {
      EndReadsBack(field, start, end);
      WordHasNoSlash(if end.NumericEnd? then ToAsgNumeric(field, end.value).value else ToAsgLast(field).value);
    }
    hide ToAsgNumeric, ToAsgLast, ParseSingle, IsWord, IsToken, Decimal;
    RangeText(field, start, end, interval);
  }

  lemma WordHasNoSlash(s: string)
    requires IsToken(s)
    ensures '/' !in s
  {
    TokenIsClean(s);
  }

  lemma RangeText(field: Field, start: nat, end: RangeEnd, interval: nat)
    requires ToAsgRange(field, start, end, interval).Some?
    requires '/' !in ToAsgNumeric(field, start).value
    requires !end.NoEnd? ==>
               '/' !in (if end.NumericEnd? then ToAsgNumeric(field, end.value) else ToAsgLast(field)).value
    ensures '/' in ToAsgRange(field, start, end, interval).value <==> interval != 1 || end.NoEnd?
  {
    hide ToAsgNumeric, ToAsgLast, Decimal;
    var a := ToAsgNumeric(field, start).value;
    if end.NoEnd? {
      SlashIn(a, Decimal(interval));
    } else {
      var b := (if end.NumericEnd? then ToAsgNumeric(field, end.value) else ToAsgLast(field)).value;
      SlashIn(a + ['-'] + b, Decimal(interval));
    }
  }

  lemma SlashIn(s: string, d: string)
    ensures '/' in s + ['/'] + d
  {
    assert (s + ['/'] + d)[|s|] == '/';
  }
}
