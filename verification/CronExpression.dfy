/**
 The abstract syntax of one field of a recurrence, and the per-field validators.
 */
module CronExpression {
  datatype RangeEnd = NoEnd | NumericEnd(value: nat) | LastEnd

  datatype Expr =
    | Union(exprs: seq<Expr>)
    | All
    | Numeric(value: nat)
    | Last
    | NearestWeekday(target: nat)
    | NthWeekday(weekday: nat, n: nat)
    | LastWeekday(weekday: nat)
    | Range(start: nat, end: RangeEnd, interval: nat)

  datatype Field = Months | MonthDays | Weekdays

  predicate ValidNumeric(field: Field, value: nat) {
    match field
    case Months => 1 <= value <= 12
    case MonthDays => 1 <= value <= 31
    case Weekdays => value <= 6
  }

  predicate ValidRangeEnd(field: Field, start: nat, end: RangeEnd) {
    match end
    case NoEnd => true
    case NumericEnd(value) => ValidNumeric(field, value) && (field.MonthDays? ==> start <= value)
    case LastEnd => field.MonthDays?
  }

  /** Does the validator of this field accept the expression?  Intervals are never looked at. */
  predicate Valid(field: Field, expr: Expr) {
    match expr
    case Union(exprs) => forall e | e in exprs :: Valid(field, e)
    case All => true
    case Numeric(value) => ValidNumeric(field, value)
    case Last => !field.Months?
    case NearestWeekday(target) => field.MonthDays? && ValidNumeric(field, target)
    case NthWeekday(weekday, n) => field.Weekdays? && 1 <= n <= 5 && ValidNumeric(field, weekday)
    case LastWeekday(weekday) => field.Weekdays? && ValidNumeric(field, weekday)
    case Range(start, end, _) => ValidNumeric(field, start) && ValidRangeEnd(field, start, end)
  }
}
