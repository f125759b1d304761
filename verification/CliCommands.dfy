/**
 The configuration commands of the command-line interface, on the tables of periods and schedules.

 A stored definition went through its constructor, so the tables start from valid definitions.  The
 loops and checks keep every period that a schedule refers to in place.
 */
module CliCommands {
  import opened Wrappers
  import opened Strings
  import opened PeriodDefinitions
  import opened ScheduleDefinitions
  import opened Schedules

  /* ---------- the configuration ---------- */

  datatype Config = Config(periods: map<string, PeriodDefinition>, schedules: map<string, ScheduleDefinition>)

  datatype Command =
    | CreatePeriod(period: PeriodDefinition)
    | UpdatePeriod(period: PeriodDefinition)
    | DeletePeriod(name: string)
    | CreateSchedule(params: ScheduleParams)
    | UpdateSchedule(params: ScheduleParams)
    | DeleteSchedule(name: string)

  datatype Error =
    | InvalidDefinition | PeriodNotFound | PeriodAlreadyExists | UnknownPeriod | PeriodInUse
    | ScheduleAlreadyExists | UnknownSchedule | ManagedByCfn

  predicate RefersTo(s: ScheduleDefinition, period: string) {
    exists id | id in s.periods :: PeriodName(id) == period
  }

  predicate PeriodsExist(s: ScheduleDefinition, periods: map<string, PeriodDefinition>) {
    forall id | id in s.periods :: PeriodName(id) in periods
  }

  predicate InUse(schedules: map<string, ScheduleDefinition>, period: string) {
    exists name | name in schedules :: RefersTo(schedules[name], period)
  }

  /** The first check that refuses a command. */
  function Refusal(c: Config, zones: set<string>, command: Command): Option<Error> {
    match command
    case CreatePeriod(p) =>
      if !IsDefinition(p) then Some(InvalidDefinition)
      else if p.name in c.periods then Some(PeriodAlreadyExists)
      else None
    case UpdatePeriod(p) =>
      if !IsDefinition(p) then Some(InvalidDefinition)
      else if p.name !in c.periods then Some(UnknownPeriod)
      else if c.periods[p.name].configuredInStack.Some? then Some(ManagedByCfn)
      else None
    case DeletePeriod(name) =>
      if name !in c.periods then Some(UnknownPeriod)
      else if c.periods[name].configuredInStack.Some? then Some(ManagedByCfn)
      else if InUse(c.schedules, name) then Some(PeriodInUse)
      else None
    case CreateSchedule(params) =>
      var s := Describe(params);
      if !IsSchedule(s, zones) then Some(InvalidDefinition)
      else if !PeriodsExist(s, c.periods) then Some(PeriodNotFound)
      else if s.name in c.schedules then Some(ScheduleAlreadyExists)
      else None
    case UpdateSchedule(params) =>
      var s := Describe(params);
      if !IsSchedule(s, zones) then Some(InvalidDefinition)
      else if !PeriodsExist(s, c.periods) then Some(PeriodNotFound)
      else if s.name !in c.schedules then Some(UnknownSchedule)
      else if c.schedules[s.name].configuredInStack.Some? then Some(ManagedByCfn)
      else None
    case DeleteSchedule(name) =>
      if name !in c.schedules then Some(UnknownSchedule)
      else if c.schedules[name].configuredInStack.Some? then Some(ManagedByCfn)
      else None
  }

  function Effect(c: Config, command: Command): Config {
    match command
    case CreatePeriod(p) => c.(periods := c.periods[p.name := p])
    case UpdatePeriod(p) => c.(periods := c.periods[p.name := p])
    case DeletePeriod(name) => c.(periods := c.periods - {name})
    case CreateSchedule(params) => c.(schedules := c.schedules[params.name := Describe(params)])
    case UpdateSchedule(params) => c.(schedules := c.schedules[params.name := Describe(params)])
    case DeleteSchedule(name) => c.(schedules := c.schedules - {name})
  }

  /** A refused command changes nothing. */
  function Step(c: Config, zones: set<string>, command: Command): Config {
    if Refusal(c, zones, command).Some? then c else Effect(c, command)
  }

  class CliRequestHandler {
    const zones: set<string>
    var periods: map<string, PeriodDefinition>
    var schedules: map<string, ScheduleDefinition>

    constructor (zones: set<string>, c: Config)
      ensures this.zones == zones && State() == c
    {
      this.zones := zones;
      this.periods := c.periods;
      this.schedules := c.schedules;
    }

    function State(): Config
      reads this
    {
      Config(periods, schedules)
    }

    method ValidatePeriodsExist(s: ScheduleDefinition) returns (ok: bool)
      ensures ok <==> PeriodsExist(s, periods)
    {
      for i := 0 to |s.periods|
        invariant forall j | 0 <= j < i :: PeriodName(s.periods[j]) in periods
      {
        if PeriodName(s.periods[i]) !in periods {
          assert s.periods[i] in s.periods;
          return false;
        }
      }
      return true;
    }

    method ContainsPeriod(s: ScheduleDefinition, period: string) returns (found: bool)
      ensures found <==> RefersTo(s, period)
    {
      for i := 0 to |s.periods|
        invariant forall j | 0 <= j < i :: PeriodName(s.periods[j]) != period
      {
        if PeriodName(s.periods[i]) == period {
          assert s.periods[i] in s.periods;
          return true;
        }
      }
      return false;
    }

    /** The schedules that refer to a period. */
    method FindByPeriod(period: string) returns (found: map<string, ScheduleDefinition>)
      ensures found == map name | name in schedules && RefersTo(schedules[name], period) :: schedules[name]
    {
      found := map[];
      var remaining := schedules.Keys;
      while remaining != {}
        invariant remaining <= schedules.Keys
        invariant found == map name | name in schedules.Keys - remaining && RefersTo(schedules[name], period) :: schedules[name]
        decreases |remaining|
      {
        var name :| name in remaining;
        var refers := ContainsPeriod(schedules[name], period);
        if refers {
          found := found[name := schedules[name]];
        }
        remaining := remaining - {name};
      }
      assert schedules.Keys - remaining == schedules.Keys;
    }

    method CreatePeriod(period: PeriodDefinition) returns (error: Option<Error>)
      modifies this
      ensures error == Refusal(old(State()), zones, Command.CreatePeriod(period))
      ensures State() == Step(old(State()), zones, Command.CreatePeriod(period))
    {
      if !IsDefinition(period) {
        return Some(InvalidDefinition);
      }
      if period.name in periods {
        return Some(PeriodAlreadyExists);
      }
      periods := periods[period.name := period];
      return None;
    }

    method UpdatePeriod(period: PeriodDefinition) returns (error: Option<Error>)
      modifies this
      ensures error == Refusal(old(State()), zones, Command.UpdatePeriod(period))
      ensures State() == Step(old(State()), zones, Command.UpdatePeriod(period))
    {
      if !IsDefinition(period) {
        return Some(InvalidDefinition);
      }
      if period.name !in periods {
        return Some(UnknownPeriod);
      }
      if periods[period.name].configuredInStack.Some? {
        return Some(ManagedByCfn);
      }
      periods := periods[period.name := period];
      return None;
    }

    method DeletePeriod(name: string) returns (error: Option<Error>)
      modifies this
      ensures error == Refusal(old(State()), zones, Command.DeletePeriod(name))
      ensures State() == Step(old(State()), zones, Command.DeletePeriod(name))
    {
      if name !in periods {
        return Some(UnknownPeriod);
      }
      if periods[name].configuredInStack.Some? {
        return Some(ManagedByCfn);
      }
      var users := FindByPeriod(name);
      assert InUse(schedules, name) <==> users != map[] by {
        assert forall s | s in schedules && RefersTo(schedules[s], name) :: s in users;
        if users != map[] {
          var s :| s in users;
        }
      }
      if users != map[] {
        return Some(PeriodInUse);
      }
      periods := periods - {name};
      return None;
    }

    method CreateSchedule(params: ScheduleParams) returns (error: Option<Error>)
      modifies this
      ensures error == Refusal(old(State()), zones, Command.CreateSchedule(params))
      ensures State() == Step(old(State()), zones, Command.CreateSchedule(params))
    {
      var schedule := Describe(params);
      if !IsSchedule(schedule, zones) {
        return Some(InvalidDefinition);
      }
      var exist := ValidatePeriodsExist(schedule);
      if !exist {
        return Some(PeriodNotFound);
      }
      if schedule.name in schedules {
        return Some(ScheduleAlreadyExists);
      }
      schedules := schedules[schedule.name := schedule];
      return None;
    }

    method UpdateSchedule(params: ScheduleParams) returns (error: Option<Error>)
      modifies this
      ensures error == Refusal(old(State()), zones, Command.UpdateSchedule(params))
      ensures State() == Step(old(State()), zones, Command.UpdateSchedule(params))
    {
      var schedule := Describe(params);
      if !IsSchedule(schedule, zones) {
        return Some(InvalidDefinition);
      }
      var exist := ValidatePeriodsExist(schedule);
      if !exist {
        return Some(PeriodNotFound);
      }
      if schedule.name !in schedules {
        return Some(UnknownSchedule);
      }
      if schedules[schedule.name].configuredInStack.Some? {
        return Some(ManagedByCfn);
      }
      schedules := schedules[schedule.name := schedule];
      return None;
    }

    method DeleteSchedule(name: string) returns (error: Option<Error>)
      modifies this
      ensures error == Refusal(old(State()), zones, Command.DeleteSchedule(name))
      ensures State() == Step(old(State()), zones, Command.DeleteSchedule(name))
    {
      if name !in schedules {
        return Some(UnknownSchedule);
      }
      if schedules[name].configuredInStack.Some? {
        return Some(ManagedByCfn);
      }
      schedules := schedules - {name};
      return None;
    }

    /** The running periods of a schedule; it raises at a missing period or an invalid definition. */
    method BuildPeriods(s: ScheduleDefinition) returns (r: Option<seq<ScheduledPeriod>>)
      ensures r.Some? <==> Buildable(s, periods)
      ensures r.Some? ==> |r.value| == |s.periods| && forall i | 0 <= i < |s.periods| :: r.value[i] == Built(s.periods[i], periods)
    {
      hide ToRunningPeriod, PeriodName, DesiredType;
      var built := [];
      for i := 0 to |s.periods|
        invariant |built| == i
        invariant forall j | 0 <= j < i :: Builds(s.periods[j], periods) && built[j] == Built(s.periods[j], periods)
      {
        assert s.periods[i] in s.periods;
        var name := PeriodName(s.periods[i]);
        if name !in periods {
          return None;
        }
        var period := ToRunningPeriod(periods[name]);
        if period.None? {
          return None;
        }
        built := built + [ScheduledPeriod(period.value, DesiredType(s.periods[i]))];
      }
      return Some(built);
    }
  }

  predicate Builds(id: string, periods: map<string, PeriodDefinition>) {
    PeriodName(id) in periods && ToRunningPeriod(periods[PeriodName(id)]).Some?
  }

  predicate Buildable(s: ScheduleDefinition, periods: map<string, PeriodDefinition>) {
    forall id | id in s.periods :: Builds(id, periods)
  }

  function Built(id: string, periods: map<string, PeriodDefinition>): ScheduledPeriod
    requires Builds(id, periods)
  {
    ScheduledPeriod(ToRunningPeriod(periods[PeriodName(id)]).value, DesiredType(id))
  }

  /* ---------- over whole runs ---------- */

  function Run(c: Config, zones: set<string>, commands: seq<Command>): Config
    decreases commands
  {
    if commands == [] then c else Run(Step(c, zones, commands[0]), zones, commands[1..])
  }

  ghost predicate Consistent(c: Config, zones: set<string>) {
    && (forall name | name in c.periods :: c.periods[name].name == name && IsDefinition(c.periods[name]))
    && (forall name | name in c.schedules ::
          c.schedules[name].name == name && IsSchedule(c.schedules[name], zones) && PeriodsExist(c.schedules[name], c.periods))
  }

  lemma StepStaysConsistent(c: Config, zones: set<string>, command: Command)
    requires Consistent(c, zones)
    ensures Consistent(Step(c, zones, command), zones)
  {
    hide IsDefinition, IsSchedule, PeriodName, PeriodIds;
    if command.DeletePeriod? && Refusal(c, zones, command).None? {
      forall name, id | name in c.schedules && id in c.schedules[name].periods
        ensures PeriodName(id) != command.name
      {
        assert !RefersTo(c.schedules[name], command.name);
      }
    }
  }

  /** Does the configuration hold the entry that the command is about, as the command needs it? */
  predicate FindsItsEntry(c: Config, command: Command) {
    match command
    case CreatePeriod(p) => p.name !in c.periods
    case UpdatePeriod(p) => p.name in c.periods && c.periods[p.name].configuredInStack.None?
    case DeletePeriod(name) => name in c.periods && c.periods[name].configuredInStack.None?
    case CreateSchedule(params) => params.name !in c.schedules
    case UpdateSchedule(params) => params.name in c.schedules && c.schedules[params.name].configuredInStack.None?
    case DeleteSchedule(name) => name in c.schedules && c.schedules[name].configuredInStack.None?
  }

  lemma DeletedPeriodIsMissed(c: Config, zones: set<string>, name: string)
    requires Consistent(c, zones) && name in c.periods
    ensures Consistent(Effect(c, DeletePeriod(name)), zones) <==> !InUse(c.schedules, name)
  {
    hide IsDefinition, IsSchedule, PeriodName;
    var after := Effect(c, DeletePeriod(name));
    if s :| s in c.schedules && RefersTo(c.schedules[s], name) {
      var id :| id in c.schedules[s].periods && PeriodName(id) == name;
      assert !PeriodsExist(after.schedules[s], after.periods);
    } else {
      forall s, id | s in c.schedules && id in c.schedules[s].periods ensures PeriodName(id) != name {
        assert !RefersTo(c.schedules[s], name);
      }
    }
  }

  lemma StoredScheduleFits(c: Config, zones: set<string>, params: ScheduleParams)
    requires Consistent(c, zones)
    ensures Consistent(c.(schedules := c.schedules[params.name := Describe(params)]), zones)
       <==> IsSchedule(Describe(params), zones) && PeriodsExist(Describe(params), c.periods)
  {
    var s := Describe(params);
    assert s.name == params.name;
    hide IsDefinition, IsSchedule, PeriodsExist, Describe;
    var after := c.(schedules := c.schedules[params.name := s]);
    assert after.schedules[params.name] == s;
  }

  lemma StoredPeriodFits(c: Config, zones: set<string>, p: PeriodDefinition)
    requires Consistent(c, zones)
    ensures Consistent(c.(periods := c.periods[p.name := p]), zones) <==> IsDefinition(p)
  {
    hide IsDefinition, IsSchedule, PeriodName;
    var after := c.(periods := c.periods[p.name := p]);
    assert after.periods[p.name] == p;
  }

  /**
   A command is accepted exactly when it finds its entry missing (to create it) or present and not a
   stack's own (to change it), and its effect leaves every definition valid and every reference in place.
   */
  lemma AcceptedExactlyWhenConsistent(c: Config, zones: set<string>, command: Command)
    requires Consistent(c, zones)
    ensures Refusal(c, zones, command).None? <==> FindsItsEntry(c, command) && Consistent(Effect(c, command), zones)
  {
    hide IsDefinition, IsSchedule, PeriodsExist, InUse;
    match command
    case CreatePeriod(p) => StoredPeriodFits(c, zones, p);
    case UpdatePeriod(p) => StoredPeriodFits(c, zones, p);
    case DeletePeriod(name) =>
      if name in c.periods {
        DeletedPeriodIsMissed(c, zones, name);
      }
    case CreateSchedule(params) => StoredScheduleFits(c, zones, params);
    case UpdateSchedule(params) => StoredScheduleFits(c, zones, params);
    case DeleteSchedule(_) =>
  }

  /** What can be wrong with the parameters of a schedule. */
  predicate HasFault(params: ScheduleParams, zones: set<string>) {
    || params.name == ""
    || (params.timezone.Some? && params.timezone.value !in zones + {""})
    || (params.overrideStatus.Some? && Lower(params.overrideStatus.value) !in {"", "running", "stopped"})
    || (Describe(params).periods == [] && Describe(params).overrideStatus.None?
        && (params.ssmMaintenanceWindow.None? || params.ssmMaintenanceWindow == Some([])))
  }

  /** Every stored schedule has a name, a known time zone, a proper override, and something to decide by. */
  lemma SchedulesStayValid(c: Config, zones: set<string>, commands: seq<Command>, name: string)
    requires Consistent(c, zones) && name in Run(c, zones, commands).schedules
    ensures var s := Run(c, zones, commands).schedules[name];
            && s.name == name && name != ""
            && (s.timezone.Some? ==> s.timezone.value in zones + {""})
            && (s.overrideStatus.Some? ==> s.overrideStatus.value in {"running", "stopped"})
            && (s.periods != [] || s.overrideStatus.Some? || (s.ssmMaintenanceWindow.Some? && s.ssmMaintenanceWindow.value != []))
  {
    SchedulesStayBuildable(c, zones, commands);
    hide Run, IsDefinition, PeriodsExist, Buildable;
  }

  /** What a refusal says is so. */
  lemma RefusalsAreTrue(c: Config, zones: set<string>, command: Command)
    requires Refusal(c, zones, command).Some?
    ensures match Refusal(c, zones, command).value
            case InvalidDefinition =>
              ((command.CreatePeriod? || command.UpdatePeriod?) && !IsDefinition(command.period))
              || ((command.CreateSchedule? || command.UpdateSchedule?) && HasFault(command.params, zones))
            case PeriodNotFound =>
              (command.CreateSchedule? || command.UpdateSchedule?)
              && exists id | id in Describe(command.params).periods :: PeriodName(id) !in c.periods
            case PeriodAlreadyExists => command.CreatePeriod? && command.period.name in c.periods
            case ScheduleAlreadyExists => command.CreateSchedule? && command.params.name in c.schedules
            case UnknownPeriod =>
              (command.UpdatePeriod? && command.period.name !in c.periods)
              || (command.DeletePeriod? && command.name !in c.periods)
            case UnknownSchedule =>
              (command.UpdateSchedule? && command.params.name !in c.schedules)
              || (command.DeleteSchedule? && command.name !in c.schedules)
            case PeriodInUse =>
              command.DeletePeriod? && exists s | s in c.schedules :: RefersTo(c.schedules[s], command.name)
            case ManagedByCfn => !FindsItsEntry(c, command) && !command.CreatePeriod? && !command.CreateSchedule?
  {
    hide IsDefinition, PeriodName, PeriodIds;
  }

  /** An accepted command sets or removes the one entry it is about, and no other. */
  lemma OneEntryChanges(c: Config, zones: set<string>, command: Command)
    requires Refusal(c, zones, command).None?
    ensures var after := Step(c, zones, command);
            match command
            case CreatePeriod(p) => after.schedules == c.schedules && SetsEntry(c.periods, after.periods, p.name, p)
            case UpdatePeriod(p) => after.schedules == c.schedules && SetsEntry(c.periods, after.periods, p.name, p)
            case DeletePeriod(name) => after.schedules == c.schedules && after.periods == c.periods - {name}
            case CreateSchedule(params) =>
              after.periods == c.periods && SetsEntry(c.schedules, after.schedules, params.name, Describe(params))
            case UpdateSchedule(params) =>
              after.periods == c.periods && SetsEntry(c.schedules, after.schedules, params.name, Describe(params))
            case DeleteSchedule(name) => after.periods == c.periods && after.schedules == c.schedules - {name}
  {
    hide IsDefinition, IsSchedule, PeriodsExist, InUse, Describe;
  }

  predicate SetsEntry<V(==)>(before: map<string, V>, after: map<string, V>, name: string, value: V) {
    name in after && after[name] == value && after - {name} == before - {name}
  }

  /** Is the entry under the name of this command as the command leaves it? */
  predicate IsLeftBy(command: Command, c: Config) {
    match command
    case CreatePeriod(p) => p.name in c.periods && c.periods[p.name] == p
    case UpdatePeriod(p) => p.name in c.periods && c.periods[p.name] == p
    case DeletePeriod(name) => name !in c.periods
    case CreateSchedule(params) => params.name in c.schedules && c.schedules[params.name] == Describe(params)
    case UpdateSchedule(params) => params.name in c.schedules && c.schedules[params.name] == Describe(params)
    case DeleteSchedule(name) => name !in c.schedules
  }

  datatype EntryKey = PeriodEntry(name: string) | ScheduleEntry(name: string)

  /** The entry that a command is about. */
  function EntryOf(command: Command): EntryKey {
    match command
    case CreatePeriod(p) => PeriodEntry(p.name)
    case UpdatePeriod(p) => PeriodEntry(p.name)
    case DeletePeriod(name) => PeriodEntry(name)
    case CreateSchedule(params) => ScheduleEntry(params.name)
    case UpdateSchedule(params) => ScheduleEntry(params.name)
    case DeleteSchedule(name) => ScheduleEntry(name)
  }

  /** In every run, an entry is as the last accepted command about it left it. */
  lemma LastCommandDecides(c: Config, zones: set<string>, commands: seq<Command>, i: nat)
    requires i < |commands| && Refusal(Run(c, zones, commands[..i]), zones, commands[i]).None?
    requires forall j | i < j < |commands| :: EntryOf(commands[j]) != EntryOf(commands[i])
    ensures IsLeftBy(commands[i], Run(c, zones, commands))
  {
    hide Refusal, Run, Describe, Effect, IsLeftBy, EntryOf;
    var before := Run(c, zones, commands[..i]);
    var after := Step(before, zones, commands[i]);
    OneEntryChanges(before, zones, commands[i]);
    LeftByAccepted(before, zones, commands[i]);
    hide Step;
    RunSplits(c, zones, commands, i);
    var later := commands[i + 1..];
    assert forall j | 0 <= j < |later| :: later[j] == commands[i + 1 + j];
    OtherEntriesAreKept(after, zones, later, EntryOf(commands[i]));
    LeftStays(commands[i], after, Run(c, zones, commands));
  }

  lemma LeftByAccepted(c: Config, zones: set<string>, command: Command)
    requires Refusal(c, zones, command).None?
    ensures IsLeftBy(command, Step(c, zones, command))
  {
    hide Refusal, Describe;
  }

  lemma LeftStays(command: Command, c: Config, after: Config)
    requires IsLeftBy(command, c) && SameEntry(c, after, EntryOf(command))
    ensures IsLeftBy(command, after)
  {
    hide Describe;
  }

  predicate SameEntry(c: Config, after: Config, entry: EntryKey) {
    match entry
    case PeriodEntry(name) =>
      (name in after.periods <==> name in c.periods) && (name in after.periods ==> after.periods[name] == c.periods[name])
    case ScheduleEntry(name) =>
      (name in after.schedules <==> name in c.schedules)
      && (name in after.schedules ==> after.schedules[name] == c.schedules[name])
  }

  lemma RunSplits(c: Config, zones: set<string>, commands: seq<Command>, i: nat)
    requires i < |commands|
    ensures Run(c, zones, commands) == Run(Step(Run(c, zones, commands[..i]), zones, commands[i]), zones, commands[i + 1..])
  {
    hide Step;
    assert commands == commands[..i] + commands[i..];
    RunConcat(c, zones, commands[..i], commands[i..]);
    assert commands[i..][0] == commands[i] && commands[i..][1..] == commands[i + 1..];
  }

  lemma {:induction false} RunConcat(c: Config, zones: set<string>, first: seq<Command>, second: seq<Command>)
    ensures Run(c, zones, first + second) == Run(Run(c, zones, first), zones, second)
    decreases first
  {
    hide Step;
    if first == [] {
      assert first + second == second;
    } else {
      assert (first + second)[1..] == first[1..] + second;
      RunConcat(Step(c, zones, first[0]), zones, first[1..], second);
    }
  }

  /** An entry that no command of a run is about is kept. */
  lemma {:induction false} OtherEntriesAreKept(c: Config, zones: set<string>, commands: seq<Command>, entry: EntryKey)
    requires forall j | 0 <= j < |commands| :: EntryOf(commands[j]) != entry
    ensures SameEntry(c, Run(c, zones, commands), entry)
    decreases commands
  {
    hide Refusal, Describe;
    if commands != [] {
      assert EntryOf(commands[0]) != entry;
      OtherEntriesAreKept(Step(c, zones, commands[0]), zones, commands[1..], entry);
    }
  }

  /** Whatever commands are run, every schedule's periods can still be built. */
  lemma {:induction false} SchedulesStayBuildable(c: Config, zones: set<string>, commands: seq<Command>)
    requires Consistent(c, zones)
    ensures Consistent(Run(c, zones, commands), zones)
    ensures forall name | name in Run(c, zones, commands).schedules ::
              Buildable(Run(c, zones, commands).schedules[name], Run(c, zones, commands).periods)
    decreases commands
  {
    hide IsSchedule, PeriodName, ToRunningPeriod;
    if commands != [] {
      StepStaysConsistent(c, zones, commands[0]);
      SchedulesStayBuildable(Step(c, zones, commands[0]), zones, commands[1..]);
    }
  }

  /** What a stack configured is never changed or removed. */
  lemma {:induction false} StackEntriesAreKept(c: Config, zones: set<string>, commands: seq<Command>, name: string)
    ensures name in c.periods && c.periods[name].configuredInStack.Some? ==>
              name in Run(c, zones, commands).periods && Run(c, zones, commands).periods[name] == c.periods[name]
    ensures name in c.schedules && c.schedules[name].configuredInStack.Some? ==>
              name in Run(c, zones, commands).schedules && Run(c, zones, commands).schedules[name] == c.schedules[name]
    decreases commands
  {
    hide IsDefinition, IsSchedule, PeriodsExist, InUse;
    if commands != [] {
      StackEntriesAreKept(Step(c, zones, commands[0]), zones, commands[1..], name);
    }
  }

  /** Deleting what was just created restores the configuration, unless it was created as a stack's own. */
  lemma DeletingUndoesCreating(c: Config, zones: set<string>, p: PeriodDefinition)
    requires Consistent(c, zones) && Refusal(c, zones, CreatePeriod(p)).None?
    ensures Step(Step(c, zones, CreatePeriod(p)), zones, DeletePeriod(p.name)) == c <==> p.configuredInStack.None?
  {
    hide IsDefinition, IsSchedule, PeriodName;
    var created := Step(c, zones, CreatePeriod(p));
    assert !InUse(c.schedules, p.name);
    assert created.periods - {p.name} == c.periods;
    assert p.name in created.periods;
  }
}
