/**
 The RDS scheduling pass: each described instance is decided, processed and stored in turn.
 */
module RdsService {
  import opened Wrappers
  import opened SchedulingDecision
  import S = Schedules
  import W = RdsMaintenanceWindow

  datatype Instance = Instance(
    id: string, scheduleName: string, stored: InstanceState, runtime: Runtime, supported: bool, window: W.RdsWindow)

  datatype Error = Unsupported | UnknownSchedule | CallFailed

  datatype RdsResult = RdsResult(instance: Instance, requested: RequestedAction, error: Option<Error>, stored: InstanceState)

  /** Does the `n`th call of the client, to start or stop the instance with this id, succeed? */
  type Client = (nat, RequestedAction, string) -> bool

  predicate InTime(schedules: map<string, S.InstanceSchedule>, utc: int) {
    utc >= 1 && forall name | name in schedules :: S.LocalTime(schedules[name], utc) >= 1
  }

  /** Is a call made for this decision? */
  predicate Calls(runtime: Runtime, action: RequestedAction) {
    runtime.schedulable && ((action == Start && !runtime.isUp) || (action == Stop && !runtime.isDown))
  }

  /** How processing a decision ends; without a call, an instance that cannot be scheduled now counts as failed. */
  function OutcomeOf(client: Client, n: nat, instance: Instance, action: RequestedAction): Outcome {
    if !instance.runtime.schedulable then Failed
    else if Calls(instance.runtime, action) && !client(n, action, instance.id) then Failed
    else Succeeded
  }

  /** The result for an instance when `n` calls were made before; `None` when an evaluation gives no answer. */
  function ResultOf(
    instance: Instance, schedules: map<string, S.InstanceSchedule>, utc: int, client: Client, n: nat): Option<RdsResult>
    requires InTime(schedules, utc) && W.IsRdsWindow(instance.window)
  {
    if !instance.supported then Some(RdsResult(instance, DoNothing, Some(Unsupported), instance.stored))
    else if instance.scheduleName !in schedules then
      Some(RdsResult(instance, DoNothing, Some(UnknownSchedule), instance.stored))
    else if !instance.runtime.schedulable then Some(RdsResult(instance, DoNothing, None, instance.stored))
    else
      match DecisionFor(instance, schedules[instance.scheduleName], utc)
      case None => None
      case Some(decision) =>
        var c := Process(decision, instance.runtime, OutcomeOf(client, n, instance, decision.action));
        Some(RdsResult(instance, decision.action, if c.failed then Some(CallFailed) else None, c.stored))
  }

  /** The decision for a schedulable instance, with the schedule of its own maintenance window. */
  function DecisionFor(instance: Instance, schedule: S.InstanceSchedule, utc: int): Option<Decision>
    requires utc >= 1 && S.LocalTime(schedule, utc) >= 1 && W.IsRdsWindow(instance.window)
  {
    if !schedule.useMaintenanceWindow then
      MakeSchedulingDecision(instance.stored, instance.runtime.isUp, schedule, utc, [])
    else
      match W.BuildSchedule(instance.window)
      case Err(_) => None
      case Ok(window) => MakeSchedulingDecision(instance.stored, instance.runtime.isUp, schedule, utc, [window])
  }

  /** What the abstract scheduling cycle sees of an instance. */
  function InputFor(instance: Instance, schedule: S.InstanceSchedule, utc: int, outcome: Outcome): Input
    requires utc >= 1 && S.LocalTime(schedule, utc) >= 1 && W.IsRdsWindow(instance.window)
    requires S.DesiredState(schedule, utc).Some?
  {
    var window := W.BuildSchedule(instance.window);
    var active := window.Ok? && AnyActive([window.value], utc) == Some(true);
    Input(S.DesiredState(schedule, utc).value.state, active, false, instance.runtime, outcome)
  }

  /** A schedulable instance's result is one step of the abstract scheduling cycle. */
  lemma ResultIsOneCycle(
    instance: Instance, schedules: map<string, S.InstanceSchedule>, utc: int, client: Client, n: nat)
    requires InTime(schedules, utc) && W.IsRdsWindow(instance.window)
    requires instance.supported && instance.scheduleName in schedules
    requires S.DesiredState(schedules[instance.scheduleName], utc).Some?
    requires ResultOf(instance, schedules, utc, client, n).Some?
    ensures var r := ResultOf(instance, schedules, utc, client, n).value;
            var schedule := schedules[instance.scheduleName];
            var input := InputFor(instance, schedule, utc, OutcomeOf(client, n, instance, r.requested));
            var c := Cycle(Rds, schedule, instance.stored, input);
            r.stored == c.stored && r.requested == c.requested && (r.error == Some(CallFailed) <==> c.failed)
  {
    hide S.DesiredState, W.BuildSchedule, AnyActive, OutcomeOf;
    var schedule := schedules[instance.scheduleName];
    if instance.runtime.schedulable {
      var decision := DecisionFor(instance, schedule, utc);
      assert decision.value.action in {Start, Stop, DoNothing};
    }
  }

  /**
   What the result for an instance says.  Nothing is requested of one that is not supported, has no known
   schedule or cannot be scheduled now, and its state is kept; of the others, it failed exactly if the
   call that the request needed was answered with a failure.  Only starts of what is not up and stops of
   what is not down take a call.
   */
  lemma ResultTellsTheTruth(
    instance: Instance, schedules: map<string, S.InstanceSchedule>, utc: int, client: Client, n: nat)
    requires InTime(schedules, utc) && W.IsRdsWindow(instance.window)
    requires ResultOf(instance, schedules, utc, client, n).Some?
    ensures var r := ResultOf(instance, schedules, utc, client, n).value;
            var looked := instance.supported && instance.scheduleName in schedules && instance.runtime.schedulable;
            && r.instance == instance
            && (!looked ==> r.requested == DoNothing && r.stored == instance.stored)
            && (r.error == Some(Unsupported) <==> !instance.supported)
            && (r.error == Some(UnknownSchedule) <==> instance.supported && instance.scheduleName !in schedules)
            && (r.error == Some(CallFailed) <==>
                  looked && !client(n, r.requested, instance.id)
                  && ((r.requested == Start && !instance.runtime.isUp) || (r.requested == Stop && !instance.runtime.isDown)))
            && (r.error == Some(CallFailed) ==> r.stored == FailureOf(r.requested))
            && CallsOf(r) == (if (r.requested == Start && !instance.runtime.isUp) || (r.requested == Stop && !instance.runtime.isDown)
                              then 1 else 0)
  {
    hide S.DesiredState, W.BuildSchedule, AnyActive, MakeSchedulingDecision;
    if instance.supported && instance.scheduleName in schedules && instance.runtime.schedulable {
      var decision := DecisionFor(instance, schedules[instance.scheduleName], utc);
      hide DecisionFor;
    }
  }

  function Entry(registry: map<string, InstanceState>, id: string): Option<InstanceState> {
    if id in registry then Some(registry[id]) else None
  }

  /** Entries of instances without a result are kept. */
  lemma {:induction false} OthersAreKept(registry: map<string, InstanceState>, results: seq<RdsResult>, id: string)
    requires forall i | 0 <= i < |results| :: results[i].instance.id != id
    ensures Entry(StoreAll(registry, results), id) == Entry(registry, id)
    decreases results
  {
    if results != [] {
      OthersAreKept(registry, results[..|results| - 1], id);
    }
  }

  /** Each instance's entry ends up as its result says. */
  lemma {:induction false} StoredAsResulted(registry: map<string, InstanceState>, results: seq<RdsResult>, i: nat)
    requires forall j, k | 0 <= j < k < |results| :: results[j].instance.id != results[k].instance.id
    requires i < |results|
    ensures var r := results[i];
            Entry(StoreAll(registry, results), r.instance.id)
            == if r.stored != r.instance.stored then Some(r.stored) else Entry(registry, r.instance.id)
    decreases results
  {
    var last := |results| - 1;
    if i == last {
      OthersAreKept(registry, results[..last], results[last].instance.id);
    } else {
      StoredAsResulted(registry, results[..last], i);
      assert results[i].instance.id != results[last].instance.id;
    }
  }

  /** The states stored by a list of results. */
  function StoreAll(registry: map<string, InstanceState>, results: seq<RdsResult>): map<string, InstanceState>
    decreases results
  {
    if results == [] then registry
    else StoreOne(StoreAll(registry, results[..|results| - 1]), results[|results| - 1])
  }

  function StoreOne(registry: map<string, InstanceState>, r: RdsResult): map<string, InstanceState> {
    if r.stored != r.instance.stored then registry[r.instance.id := r.stored] else registry
  }

  class RdsService {
    const client: Client
    var calls: nat
    var registry: map<string, InstanceState>

    constructor (client: Client, registry: map<string, InstanceState>)
      ensures this.client == client && this.registry == registry && calls == 0
    {
      this.client, this.registry, calls := client, registry, 0;
    }

    method ProcessDecision(instance: Instance, decision: Decision) returns (r: RdsResult)
      requires instance.runtime.schedulable
      modifies this`calls
      ensures var c := Process(decision, instance.runtime, OutcomeOf(client, old(calls), instance, decision.action));
              r == RdsResult(instance, decision.action, if c.failed then Some(CallFailed) else None, c.stored)
      ensures calls == old(calls) + if Calls(instance.runtime, decision.action) then 1 else 0
    {
      var runtime := instance.runtime;
      match decision.action
      case Start =>
        if runtime.isUp {
          return RdsResult(instance, Start, None, decision.newState);
        }
        var ok := client(calls, Start, instance.id);
        calls := calls + 1;
        r := if ok then RdsResult(instance, Start, None, decision.newState)
             else RdsResult(instance, Start, Some(CallFailed), StartFailed);
      case Stop =>
        if runtime.isDown {
          return RdsResult(instance, Stop, None, decision.newState);
        }
        var ok := client(calls, Stop, instance.id);
        calls := calls + 1;
        r := if ok then RdsResult(instance, Stop, None, decision.newState)
             else RdsResult(instance, Stop, Some(CallFailed), StopFailed);
      case _ =>
        r := RdsResult(instance, decision.action, None, decision.newState);
    }

    method ScheduleOne(instance: Instance, schedules: map<string, S.InstanceSchedule>, utc: int)
      returns (r: Option<RdsResult>)
      requires InTime(schedules, utc) && W.IsRdsWindow(instance.window)
      modifies this`calls
      ensures r == ResultOf(instance, schedules, utc, client, old(calls))
      ensures calls == old(calls) + if r.Some? then CallsOf(r.value) else 0
    {
      if !instance.supported {
        return Some(RdsResult(instance, DoNothing, Some(Unsupported), instance.stored));
      }
      if instance.scheduleName !in schedules {
        return Some(RdsResult(instance, DoNothing, Some(UnknownSchedule), instance.stored));
      }
      if !instance.runtime.schedulable {
        return Some(RdsResult(instance, DoNothing, None, instance.stored));
      }
      hide S.DesiredState, W.BuildSchedule, MakeSchedulingDecision, Process, OutcomeOf;
      var schedule := schedules[instance.scheduleName];
      var windows: seq<S.InstanceSchedule> := [];
      if schedule.useMaintenanceWindow {
        var window := W.BuildSchedule(instance.window);
        if window.Err? {
          return None;
        }
        W.ScheduleIsInUtc(instance.window);
        windows := [window.value];
      }
      var decision := MakeSchedulingDecision(instance.stored, instance.runtime.isUp, schedule, utc, windows);
      if decision.None? {
        return None;
      }
      var result := ProcessDecision(instance, decision.value);
      r := Some(result);
    }

    /**
     The pass: every instance has its result, in order, and each changed state is stored at once.  When an
     evaluation raises, what was stored before stays stored.
     */
    method ScheduleTarget(instances: seq<Instance>, schedules: map<string, S.InstanceSchedule>, utc: int)
      returns (results: seq<RdsResult>, raised: bool)
      requires InTime(schedules, utc) && forall instance | instance in instances :: W.IsRdsWindow(instance.window)
      modifies this
      ensures Pass(results, raised) == PassOf(instances, schedules, utc, client, old(calls))
      ensures registry == StoreAll(old(registry), results)
    {
      hide ResultOf, StoreAll, CallsOf, PassOf, InTime, W.IsRdsWindow;
      results, raised := [], false;
      assert instances[0..] == instances;
      StoreNothing(registry);
      for i := 0 to |instances|
        invariant PassOf(instances, schedules, utc, client, old(calls))
               == PassOf(instances[i..], schedules, utc, client, calls).After(results)
        invariant registry == StoreAll(old(registry), results)
      {
        PassStep(instances, i, schedules, utc, client, calls, results);
        var r := ScheduleOne(instances[i], schedules, utc);
        if r.None? {
          return results, true;
        }
        ResultKeepsInstance(instances[i], schedules, utc, client);
        StoreOneMore(old(registry), results, r.value);
        results := results + [r.value];
        if r.value.stored != instances[i].stored {
          registry := registry[instances[i].id := r.value.stored];
        }
      }
      assert instances[|instances|..] == [];
      PassEnds(schedules, utc, client, calls, results);
    }
  }

  /** The results yielded by a pass, and whether it ended by raising. */
  datatype Pass = Pass(results: seq<RdsResult>, raised: bool) {
    function After(earlier: seq<RdsResult>): Pass {
      Pass(earlier + results, raised)
    }
  }

  /** How many calls the result of an instance took. */
  function CallsOf(r: RdsResult): nat {
    if Calls(r.instance.runtime, r.requested) then 1 else 0
  }

  /** The pass over these instances when `n` calls were made before. */
  function PassOf(
    instances: seq<Instance>, schedules: map<string, S.InstanceSchedule>, utc: int, client: Client, n: nat): Pass
    requires InTime(schedules, utc) && forall instance | instance in instances :: W.IsRdsWindow(instance.window)
    decreases instances
  {
    if instances == [] then Pass([], false)
    else
      match ResultOf(instances[0], schedules, utc, client, n)
      case None => Pass([], true)
      case Some(r) => PassOf(instances[1..], schedules, utc, client, n + CallsOf(r)).After([r])
  }

  /** Taking one more instance off the front of what is left of a pass. */
  lemma PassStep(
    instances: seq<Instance>, i: nat, schedules: map<string, S.InstanceSchedule>, utc: int, client: Client, n: nat,
    earlier: seq<RdsResult>)
    requires InTime(schedules, utc) && forall instance | instance in instances :: W.IsRdsWindow(instance.window)
    requires i < |instances|
    ensures PassOf(instances[i..], schedules, utc, client, n).After(earlier) ==
            match ResultOf(instances[i], schedules, utc, client, n)
            case None => Pass(earlier, true)
            case Some(r) => PassOf(instances[i + 1..], schedules, utc, client, n + CallsOf(r)).After(earlier + [r])
  {
    hide InTime, W.IsRdsWindow, ResultOf, CallsOf;
    var rest := instances[i..];
    assert rest[0] == instances[i] && rest[1..] == instances[i + 1..];
    match ResultOf(instances[i], schedules, utc, client, n)
    case None =>
    case Some(r) => AfterAgain(PassOf(instances[i + 1..], schedules, utc, client, n + CallsOf(r)), r, earlier);
  }

  lemma AfterAgain(pass: Pass, r: RdsResult, earlier: seq<RdsResult>)
    ensures pass.After([r]).After(earlier) == pass.After(earlier + [r])
  {
    assert earlier + ([r] + pass.results) == earlier + [r] + pass.results;
  }

  lemma PassEnds(schedules: map<string, S.InstanceSchedule>, utc: int, client: Client, n: nat, results: seq<RdsResult>)
    requires InTime(schedules, utc)
    ensures PassOf([], schedules, utc, client, n).After(results) == Pass(results, false)
  {
  }

  /** The calls that a list of results took. */
  function CallsIn(results: seq<RdsResult>): nat {
    if results == [] then 0 else CallsOf(results[0]) + CallsIn(results[1..])
  }

  /** The result of an instance is that of the calls made before it. */
  lemma {:induction false} ResultFollowsInstance(
    instances: seq<Instance>, schedules: map<string, S.InstanceSchedule>, utc: int, client: Client, n: nat, k: nat)
    requires InTime(schedules, utc) && forall instance | instance in instances :: W.IsRdsWindow(instance.window)
    requires k < |PassOf(instances, schedules, utc, client, n).results|
    ensures var results := PassOf(instances, schedules, utc, client, n).results;
            k < |instances|
            && ResultOf(instances[k], schedules, utc, client, n + CallsIn(results[..k])) == Some(results[k])
    decreases instances
  {
    hide ResultOf, CallsOf, InTime, W.IsRdsWindow;
    var results := PassOf(instances, schedules, utc, client, n).results;
    if k == 0 {
      assert results[..0] == [];
    } else {
      var next := n + CallsOf(results[0]);
      var rest := PassOf(instances[1..], schedules, utc, client, next).results;
      assert results == [results[0]] + rest;
      ResultFollowsInstance(instances[1..], schedules, utc, client, next, k - 1);
      assert instances[1..][k - 1] == instances[k];
      assert results[..k] == [results[0]] + rest[..k - 1];
      OneMoreResult(results[0], rest[..k - 1]);
      hide PassOf, CallsIn;
    }
  }

  lemma OneMoreResult(r: RdsResult, rest: seq<RdsResult>)
    ensures CallsIn([r] + rest) == CallsOf(r) + CallsIn(rest)
  {
    assert ([r] + rest)[1..] == rest;
  }

  /** A pass ends early exactly if it raises, at an instance without an answer. */
  lemma {:induction false} RaisesWithoutAnswer(
    instances: seq<Instance>, schedules: map<string, S.InstanceSchedule>, utc: int, client: Client, n: nat)
    requires InTime(schedules, utc) && forall instance | instance in instances :: W.IsRdsWindow(instance.window)
    ensures var p := PassOf(instances, schedules, utc, client, n);
            |p.results| <= |instances| && (p.raised <==> |p.results| < |instances|)
            && (p.raised ==> ResultOf(instances[|p.results|], schedules, utc, client, n + CallsIn(p.results)) == None)
    decreases instances
  {
    hide ResultOf, CallsOf, InTime, W.IsRdsWindow;
    if instances != [] && ResultOf(instances[0], schedules, utc, client, n).Some? {
      var r := ResultOf(instances[0], schedules, utc, client, n).value;
      var next := n + CallsOf(r);
      var rest := PassOf(instances[1..], schedules, utc, client, next);
      var p := PassOf(instances, schedules, utc, client, n);
      assert p == Pass([r] + rest.results, rest.raised);
      RaisesWithoutAnswer(instances[1..], schedules, utc, client, next);
      OneMoreResult(r, rest.results);
      hide PassOf, CallsIn;
      assert |rest.results| < |instances[1..]| ==> instances[1..][|rest.results|] == instances[|p.results|];
    }
  }

  lemma StoreNothing(registry: map<string, InstanceState>)
    ensures StoreAll(registry, []) == registry
  {
  }

  lemma StoreOneMore(registry: map<string, InstanceState>, results: seq<RdsResult>, r: RdsResult)
    ensures StoreAll(registry, results + [r]) == StoreOne(StoreAll(registry, results), r)
  {
    assert (results + [r])[..|results|] == results;
  }

  lemma ResultKeepsInstance(instance: Instance, schedules: map<string, S.InstanceSchedule>, utc: int, client: Client)
    requires InTime(schedules, utc) && W.IsRdsWindow(instance.window)
    ensures forall n: nat :: ResultOf(instance, schedules, utc, client, n).Some? ==>
              ResultOf(instance, schedules, utc, client, n).value.instance == instance
  {
    hide DecisionFor, Process, OutcomeOf;
  }
}
