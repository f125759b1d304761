/**
 Schedule definitions, the references to periods in them, and their journey through a scheduling request.
 */
module ScheduleDefinitions {
  import opened Wrappers
  import opened Strings
  import opened PeriodDefinitions

  datatype Flags = Flags(
    stopNewInstances: Option<bool>,
    useMaintenanceWindow: Option<bool>,
    enforced: Option<bool>,
    hibernate: Option<bool>,
    retainRunning: Option<bool>)

  datatype ScheduleParams = ScheduleParams(
    name: string,
    periods: Option<string>,
    timezone: Option<string>,
    description: Option<string>,
    overrideStatus: Option<string>,
    ssmMaintenanceWindow: Option<seq<string>>,
    flags: Flags,
    configuredInStack: Option<string>)

  datatype ScheduleDefinition = ScheduleDefinition(
    name: string,
    periods: seq<string>,
    timezone: Option<string>,
    description: Option<string>,
    overrideStatus: Option<string>,
    ssmMaintenanceWindow: Option<seq<string>>,
    flags: Flags,
    configuredInStack: Option<string>)

  function PeriodIds(csv: Option<string>): seq<string> {
    if Truthy(csv) then Split(csv.value, ',') else []
  }

  predicate IsSchedule(s: ScheduleDefinition, zones: set<string>) {
    && s.name != ""
    && (Truthy(s.timezone) ==> s.timezone.value in zones)
    && (s.overrideStatus == None || s.overrideStatus == Some("running") || s.overrideStatus == Some("stopped"))
    && (s.periods != [] || s.overrideStatus.Some? || Truthy(s.ssmMaintenanceWindow))
  }

  /** The definition the parameters describe; the constructor puts the override in lower case. */
  function Describe(p: ScheduleParams): ScheduleDefinition {
    ScheduleDefinition(
      p.name, PeriodIds(p.periods), p.timezone, p.description,
      if Truthy(p.overrideStatus) then Some(Lower(p.overrideStatus.value)) else None,
      p.ssmMaintenanceWindow, p.flags, p.configuredInStack)
  }

  /** A reference names a period and, after an `@`, possibly an instance type. */
  function PeriodName(id: string): string {
    Split(id, '@')[0]
  }

  function DesiredType(id: string): Option<string> {
    var tokens := Split(id, '@');
    if |tokens| > 1 && tokens[1] != "" then Some(tokens[1]) else None
  }

  /** A reference reads back to the name and type it was written with; an empty type is no type. */
  lemma ReferenceReadsBack(name: string, instanceType: string)
    requires '@' !in name && '@' !in instanceType
    ensures PeriodName(name) == name && DesiredType(name) == None
    ensures PeriodName(name + ['@'] + instanceType) == name
    ensures DesiredType(name + ['@'] + instanceType) == if instanceType == "" then None else Some(instanceType)
  {
    SplitNothing(name, '@');
    SplitNothing(instanceType, '@');
    SplitConcat(name, instanceType, '@');
    hide Split;
  }

  /** The override may be written in any case. */
  lemma OverrideIgnoresCase(p: ScheduleParams, q: ScheduleParams)
    requires p.overrideStatus.Some? && q.overrideStatus.Some?
    requires Lower(p.overrideStatus.value) == Lower(q.overrideStatus.value)
    requires q == p.(overrideStatus := q.overrideStatus)
    ensures Describe(p) == Describe(q)
  {
  }

  /* ---------- parameters ---------- */

  function ParamsOf(s: ScheduleDefinition): ScheduleParams {
    ScheduleParams(
      s.name, CsvEntry(Some(s.periods)), Entry(s.timezone), Entry(s.description), Entry(s.overrideStatus),
      if Truthy(s.ssmMaintenanceWindow) then s.ssmMaintenanceWindow else None,
      s.flags, Entry(s.configuredInStack))
  }

  /** A flag is passed on exactly when it is set, so the flags are passed on as they are. */
  method ToScheduleParams(s: ScheduleDefinition) returns (params: ScheduleParams)
    ensures params == ParamsOf(s)
  {
    params := ScheduleParams(s.name, None, None, None, None, None, s.flags, None);
    if |s.periods| > 0 {
      params := params.(periods := Some(Join(s.periods, ',')));
    }
    if Truthy(s.timezone) {
      params := params.(timezone := s.timezone);
    }
    if Truthy(s.description) {
      params := params.(description := s.description);
    }
    if Truthy(s.overrideStatus) {
      params := params.(overrideStatus := s.overrideStatus);
    }
    if Truthy(s.ssmMaintenanceWindow) {
      params := params.(ssmMaintenanceWindow := s.ssmMaintenanceWindow);
    }
    if Truthy(s.configuredInStack) {
      params := params.(configuredInStack := s.configuredInStack);
    }
  }

  /** The definition with empty optional fields made missing; its periods are left as they are. */
  function WithoutEmptyFields(s: ScheduleDefinition): ScheduleDefinition {
    s.(timezone := Entry(s.timezone), description := Entry(s.description),
       ssmMaintenanceWindow := if Truthy(s.ssmMaintenanceWindow) then s.ssmMaintenanceWindow else None,
       configuredInStack := Entry(s.configuredInStack))
  }

  lemma {:induction false} CommasAddParts(ids: seq<string>)
    ensures |Parts(ids)| >= |ids|
    ensures |Parts(ids)| == |ids| <==> forall id | id in ids :: ',' !in id
    ensures |Parts(ids)| == |ids| ==> Parts(ids) == ids
  {
    if ids != [] {
      CommasAddParts(ids[1..]);
      OnePart(ids[0], ',');
      assert ids == [ids[0]] + ids[1..];
    }
  }

  lemma JoinIsEmpty(ids: seq<string>)
    requires ids != []
    ensures Join(ids, ',') == "" <==> ids == [""]
  {
  }

  /**
   A valid definition survives being sent as parameters, but for empty optional fields, exactly when no
   reference holds a comma and the references are not a lone empty one.
   */
  lemma JourneyExactly(s: ScheduleDefinition, zones: set<string>)
    requires IsSchedule(s, zones)
    ensures Describe(ParamsOf(s)) == WithoutEmptyFields(s)
       <==> s.periods != [""] && forall id | id in s.periods :: ',' !in id
    ensures s.periods != [""] ==> IsSchedule(Describe(ParamsOf(s)), zones)
  {
    assert Lower("running") == "running" && Lower("stopped") == "stopped";
    if s.periods != [] {
      JoinIsEmpty(s.periods);
      SplitOfJoin(s.periods);
      CommasAddParts(s.periods);
    }
    hide Split, Join, Parts, Lower;
  }
}
