/**
 The EC2 scheduling pass: sorting the described instances into start, stop, hibernate, resize and
 do-nothing decisions, carrying them out in batches, and storing what came of it.
 */
module Ec2Service {
  import opened Wrappers
  import opened Batch
  import opened SchedulingDecision
  import opened Ec2Batches
  import S = Schedules

  /** A schedule with the schedules of the maintenance windows it names. */
  datatype Definition = Definition(schedule: S.InstanceSchedule, windows: seq<S.InstanceSchedule>)

  /* ---------- what is decided for an instance ---------- */

  predicate InTime(definitions: map<string, Definition>, utc: int) {
    forall name | name in definitions ::
      S.LocalTime(definitions[name].schedule, utc) >= 1
      && forall w | w in definitions[name].windows :: S.LocalTime(w, utc) >= 1
  }

  predicate WantsResize(instance: Instance, verdict: S.Verdict) {
    verdict.state == S.Running && verdict.instanceType.Some?
    && verdict.instanceType.value != "" && verdict.instanceType.value != instance.size
  }

  /** The decision for an instance; `None` when the evaluation of its schedule or windows gives no answer. */
  function DecisionFor(instance: Instance, definitions: map<string, Definition>, utc: int): Option<Ec2Decision>
    requires InTime(definitions, utc)
  {
    if instance.scheduleName !in definitions then Some(Ec2Decision(instance, DoNothing, instance.stored))
    else
      var definition := definitions[instance.scheduleName];
      match S.DesiredState(definition.schedule, utc)
      case None => None
      case Some(verdict) =>
        if WantsResize(instance, verdict) then Some(Ec2Decision(instance, Resize, StoredRunning))
        else
          match MakeSchedulingDecision(
              instance.stored, instance.runtime.isUp, definition.schedule, utc, definition.windows)
          case None => None
          case Some(decision) => Some(Ec2Decision(instance, decision.action, decision.newState))
  }

  lemma OnlyKnownActions(
    stored: InstanceState, isUp: bool, s: S.InstanceSchedule, utc: int, windows: seq<S.InstanceSchedule>)
    requires S.LocalTime(s, utc) >= 1 && forall w | w in windows :: S.LocalTime(w, utc) >= 1
    requires MakeSchedulingDecision(stored, isUp, s, utc, windows).Some?
    ensures MakeSchedulingDecision(stored, isUp, s, utc, windows).value.action in {Start, Stop, DoNothing}
  {
    hide S.DesiredState, AnyActive;
  }

  /** What the scheduling cycle sees of an instance that has a schedule. */
  function InputFor(instance: Instance, definition: Definition, utc: int, outcome: Outcome): Input
    requires S.LocalTime(definition.schedule, utc) >= 1
    requires forall w | w in definition.windows :: S.LocalTime(w, utc) >= 1
    requires S.DesiredState(definition.schedule, utc).Some?
  {
    var verdict := S.DesiredState(definition.schedule, utc).value;
    Input(verdict.state, AnyActive(definition.windows, utc) == Some(true), WantsResize(instance, verdict),
          instance.runtime, outcome)
  }

  /** Does a result report what one step of the abstract scheduling cycle does? */
  predicate Reports(r: ScheduleResult, c: CycleResult) {
    r.stored == c.stored && (r.taken == Error <==> c.failed) && r.decision.action == c.requested && !c.skipped
  }

  /** Is this the result of a pass at time `utc` for an instance with this schedule? */
  ghost predicate IsResultAt(r: ScheduleResult, name: string, definitions: map<string, Definition>, utc: int) {
    && InTime(definitions, utc) && name in definitions
    && r.decision.instance.scheduleName == name
    && DecisionFor(r.decision.instance, definitions, utc) == Some(r.decision)
    && FollowsFrom(r)
  }

  /** The result for an instance is one step of the abstract scheduling cycle, for some outcome of its calls. */
  lemma ResultIsOneCycle(r: ScheduleResult, name: string, definitions: map<string, Definition>, utc: int)
    returns (outcome: Outcome)
    requires IsResultAt(r, name, definitions, utc)
    ensures S.DesiredState(definitions[name].schedule, utc).Some?
    ensures var instance := r.decision.instance;
            Reports(r, Cycle(Ec2, definitions[name].schedule, instance.stored,
                             InputFor(instance, definitions[name], utc, outcome)))
  {
    hide S.DesiredState, AnyActive;
    outcome := if r.taken == Error then Failed else if r.taken == ResizeRequested then HandedToResize else Succeeded;
  }

  /**
   The results for one instance over any number of passes, each beginning with the state that the one
   before it stored, are a run of the abstract cycle: what `SchedulingDecision` proves of runs holds of
   the instances of this service.
   */
  lemma {:induction false} PassesAreRun(
    results: seq<ScheduleResult>, name: string, definitions: map<string, Definition>, times: seq<int>)
    returns (inputs: seq<Input>)
    requires |results| == |times| > 0
    requires name in definitions
    requires forall i | 0 <= i < |results| :: IsResultAt(results[i], name, definitions, times[i])
    requires forall i | 0 < i < |results| :: results[i].decision.instance.stored == results[i - 1].stored
    ensures |inputs| == |results|
    ensures forall i | 0 <= i < |inputs| ::
              InTime(definitions, times[i]) && S.DesiredState(definitions[name].schedule, times[i]).Some?
              && inputs[i] == InputFor(results[i].decision.instance, definitions[name], times[i], inputs[i].outcome)
    ensures var trace := Trace(Ec2, definitions[name].schedule, results[0].decision.instance.stored, inputs);
            forall i | 0 <= i < |inputs| :: Reports(results[i], trace[i])
    decreases results
  {
    var outcome := ResultIsOneCycle(results[0], name, definitions, times[0]);
    hide S.DesiredState, AnyActive, IsResultAt, Cycle, Decide, InTime, InputFor;
    var first := InputFor(results[0].decision.instance, definitions[name], times[0], outcome);
    assert first.outcome == outcome by { OutcomeOfInput(results[0].decision.instance, definitions[name], times[0], outcome); }
    hide Reports;
    if |results| == 1 {
      inputs := [first];
    } else {
      var rest := PassesAreRun(results[1..], name, definitions, times[1..]);
      inputs := [first] + rest;
      assert inputs[1..] == rest;
    }
  }

  lemma OutcomeOfInput(instance: Instance, definition: Definition, utc: int, outcome: Outcome)
    requires S.LocalTime(definition.schedule, utc) >= 1 && forall w | w in definition.windows :: S.LocalTime(w, utc) >= 1
    requires S.DesiredState(definition.schedule, utc).Some?
    ensures InputFor(instance, definition, utc, outcome).outcome == outcome
  {
  }

  /* ---------- sorting the decisions ---------- */

  datatype Kind = Starts | Stops | Hibernates | Resizes | Idles | Unknowns

  function KindOf(d: Ec2Decision, definitions: map<string, Definition>): Kind {
    if d.instance.scheduleName !in definitions then Unknowns
    else
      match d.action
      case Start => Starts
      case Stop => if definitions[d.instance.scheduleName].schedule.hibernate then Hibernates else Stops
      case Resize => Resizes
      case _ => Idles
  }

  function Pick(decisions: seq<Ec2Decision>, definitions: map<string, Definition>, kind: Kind): seq<Ec2Decision> {
    if decisions == [] then []
    else IfKind(decisions[0], definitions, kind) + Pick(decisions[1..], definitions, kind)
  }

  function IfKind(d: Ec2Decision, definitions: map<string, Definition>, kind: Kind): seq<Ec2Decision> {
    if KindOf(d, definitions) == kind then [d] else []
  }

  lemma {:induction false} PickAppend(decisions: seq<Ec2Decision>, d: Ec2Decision, definitions: map<string, Definition>, kind: Kind)
    ensures Pick(decisions + [d], definitions, kind)
         == Pick(decisions, definitions, kind) + IfKind(d, definitions, kind)
  {
    hide IfKind;
    if decisions == [] {
      assert [d][1..] == [];
    } else {
      PickAppend(decisions[1..], d, definitions, kind);
      assert (decisions + [d])[1..] == decisions[1..] + [d];
    }
  }

  lemma {:induction false} PicksArePartition(decisions: seq<Ec2Decision>, definitions: map<string, Definition>)
    ensures multiset(decisions) ==
            multiset(Pick(decisions, definitions, Unknowns)) + multiset(Pick(decisions, definitions, Starts))
            + multiset(Pick(decisions, definitions, Hibernates)) + multiset(Pick(decisions, definitions, Stops))
            + multiset(Pick(decisions, definitions, Resizes)) + multiset(Pick(decisions, definitions, Idles))
  {
    if decisions != [] {
      var d, rest := decisions[0], decisions[1..];
      PicksArePartition(rest, definitions);
      OneKind(d, definitions);
      assert decisions == [d] + rest;
      hide KindOf, IfKind;
      SixOneMore(d, rest,
                 IfKind(d, definitions, Unknowns), Pick(rest, definitions, Unknowns),
                 IfKind(d, definitions, Starts), Pick(rest, definitions, Starts),
                 IfKind(d, definitions, Hibernates), Pick(rest, definitions, Hibernates),
                 IfKind(d, definitions, Stops), Pick(rest, definitions, Stops),
                 IfKind(d, definitions, Resizes), Pick(rest, definitions, Resizes),
                 IfKind(d, definitions, Idles), Pick(rest, definitions, Idles));
    }
  }

  lemma OneKind(d: Ec2Decision, definitions: map<string, Definition>)
    ensures IfKind(d, definitions, Unknowns) + IfKind(d, definitions, Starts) + IfKind(d, definitions, Hibernates)
            + IfKind(d, definitions, Stops) + IfKind(d, definitions, Resizes) + IfKind(d, definitions, Idles) == [d]
  {
  }

  lemma SixOneMore<T>(x: T, rest: seq<T>, x1: seq<T>, r1: seq<T>, x2: seq<T>, r2: seq<T>, x3: seq<T>, r3: seq<T>,
                      x4: seq<T>, r4: seq<T>, x5: seq<T>, r5: seq<T>, x6: seq<T>, r6: seq<T>)
    requires x1 + x2 + x3 + x4 + x5 + x6 == [x]
    requires multiset(rest) == multiset(r1) + multiset(r2) + multiset(r3) + multiset(r4) + multiset(r5) + multiset(r6)
    ensures multiset([x] + rest)
         == multiset(x1 + r1) + multiset(x2 + r2) + multiset(x3 + r3) + multiset(x4 + r4) + multiset(x5 + r5) + multiset(x6 + r6)
  {
    assert multiset([x]) == multiset(x1) + multiset(x2) + multiset(x3) + multiset(x4) + multiset(x5) + multiset(x6) by {
      assert multiset(x1 + x2 + x3 + x4 + x5 + x6) == multiset([x]);
    }
  }

  lemma {:induction false} PickRequests(decisions: seq<Ec2Decision>, definitions: map<string, Definition>, kind: Kind)
    ensures kind == Starts ==> AllRequest(Pick(decisions, definitions, kind), Start)
    ensures kind == Stops || kind == Hibernates ==> AllRequest(Pick(decisions, definitions, kind), Stop)
  {
    if decisions != [] {
      PickRequests(decisions[1..], definitions, kind);
    }
  }

  /** The instance type that the schedule asks for now. */
  function DesiredTypes(instance: Instance, definitions: map<string, Definition>, utc: int): seq<string>
    requires InTime(definitions, utc)
  {
    if instance.scheduleName !in definitions then []
    else
      match S.DesiredState(definitions[instance.scheduleName].schedule, utc)
      case Some(Verdict(_, Some(desired), _)) => [desired]
      case _ => []
  }

  function PreferencesOf(decisions: seq<Ec2Decision>, definitions: map<string, Definition>, utc: int): (r: seq<seq<string>>)
    requires InTime(definitions, utc)
    ensures |r| == |decisions|
  {
    seq(|decisions|, i requires 0 <= i < |decisions| => DesiredTypes(decisions[i].instance, definitions, utc))
  }

  /** The decision lists: each decision is in the list of its kind, in the order of the instances. */
  datatype Plan = Plan(
    starts: seq<Ec2Decision>, stops: seq<Ec2Decision>, hibernates: seq<Ec2Decision>, resizes: seq<Ec2Decision>,
    preferences: seq<seq<string>>, idles: seq<Ec2Decision>, unknown: seq<Ec2Decision>)

  function PlanOf(decisions: seq<Ec2Decision>, definitions: map<string, Definition>, utc: int): Plan
    requires InTime(definitions, utc)
  {
    var resizes := Pick(decisions, definitions, Resizes);
    Plan(Pick(decisions, definitions, Starts), Pick(decisions, definitions, Stops), Pick(decisions, definitions, Hibernates),
         resizes, PreferencesOf(resizes, definitions, utc),
         Pick(decisions, definitions, Idles), Pick(decisions, definitions, Unknowns))
  }

  /** A plan with one more decision in the list of its kind. */
  function Placed(p: Plan, d: Ec2Decision, definitions: map<string, Definition>, utc: int): Plan
    requires InTime(definitions, utc)
  {
    match KindOf(d, definitions)
    case Starts => p.(starts := p.starts + [d])
    case Stops => p.(stops := p.stops + [d])
    case Hibernates => p.(hibernates := p.hibernates + [d])
    case Resizes =>
      p.(resizes := p.resizes + [d], preferences := p.preferences + [DesiredTypes(d.instance, definitions, utc)])
    case Idles => p.(idles := p.idles + [d])
    case Unknowns => p.(unknown := p.unknown + [d])
  }

  lemma PlacedIsPlan(decisions: seq<Ec2Decision>, d: Ec2Decision, definitions: map<string, Definition>, utc: int)
    requires InTime(definitions, utc)
    ensures Placed(PlanOf(decisions, definitions, utc), d, definitions, utc) == PlanOf(decisions + [d], definitions, utc)
  {
    hide KindOf, DesiredTypes, Pick;
    PickAppend(decisions, d, definitions, Starts);
    PickAppend(decisions, d, definitions, Stops);
    PickAppend(decisions, d, definitions, Hibernates);
    PickAppend(decisions, d, definitions, Resizes);
    PickAppend(decisions, d, definitions, Idles);
    PickAppend(decisions, d, definitions, Unknowns);
  }

  /** All results of carrying out a plan, in the order in which they are yielded, from the calls of each list. */
  function PlanResults(
    p: Plan, startCall: Call, stopCall: Call, hibernateCall: Call, n: nat, afterStart: nat, afterHibernate: nat)
    : seq<ScheduleResult>
    requires |p.preferences| == |p.resizes|
  {
    CarriedAll(p.unknown, UnknownSchedule)
    + StartResults(p.starts, startCall, n)
    + HibernateResults(p.hibernates, hibernateCall, stopCall, afterStart)
    + StopResults(p.stops, stopCall, afterHibernate)
    + ResizeResults(p.resizes, p.preferences)
    + CarriedAll(p.idles, Nothing)
  }

  /** The results of a pass over these decisions that begins after `n` calls. */
  function PassResults(
    decisions: seq<Ec2Decision>, definitions: map<string, Definition>, utc: int,
    startCall: Call, stopCall: Call, hibernateCall: Call, n: nat): seq<ScheduleResult>
    requires InTime(definitions, utc)
  {
    var p := PlanOf(decisions, definitions, utc);
    var afterStart := n + StartCalls(p.starts, startCall, n);
    var afterHibernate := afterStart + HibernateCalls(p.hibernates, hibernateCall, stopCall, afterStart);
    PlanResults(p, startCall, stopCall, hibernateCall, n, afterStart, afterHibernate)
  }

  /** The pass answers every decision exactly once, whatever the calls do. */
  lemma PassAnswers(
    decisions: seq<Ec2Decision>, definitions: map<string, Definition>, utc: int,
    startCall: Call, stopCall: Call, hibernateCall: Call, n: nat)
    requires InTime(definitions, utc)
    ensures Answer(PassResults(decisions, definitions, utc, startCall, stopCall, hibernateCall, n), multiset(decisions))
  {
    hide Answer, PlanResults, PlanOf, StartCalls, HibernateCalls;
    var p := PlanOf(decisions, definitions, utc);
    PlanPreferences(decisions, definitions, utc);
    var afterStart := n + StartCalls(p.starts, startCall, n);
    PlanAnswers(decisions, definitions, utc, startCall, stopCall, hibernateCall, n, afterStart,
                afterStart + HibernateCalls(p.hibernates, hibernateCall, stopCall, afterStart));
  }

  lemma PlanAnswers(
    decisions: seq<Ec2Decision>, definitions: map<string, Definition>, utc: int,
    startCall: Call, stopCall: Call, hibernateCall: Call, n: nat, afterStart: nat, afterHibernate: nat)
    requires InTime(definitions, utc)
    ensures var p := PlanOf(decisions, definitions, utc);
            |p.preferences| == |p.resizes|
            && Answer(PlanResults(p, startCall, stopCall, hibernateCall, n, afterStart, afterHibernate), multiset(decisions))
  {
    var p := PlanOf(decisions, definitions, utc);
    PlanPreferences(decisions, definitions, utc);
    PicksArePartition(decisions, definitions);
    PickRequests(decisions, definitions, Starts);
    PickRequests(decisions, definitions, Stops);
    PickRequests(decisions, definitions, Hibernates);
    hide Answer, Pick, CarriedAll, StartResults, HibernateResults, StopResults, ResizeResults, PreferencesOf, AllRequest;
    CarriedAnswers(p.unknown, UnknownSchedule);
    StartAnswers(p.starts, startCall, n);
    HibernateAnswers(p.hibernates, hibernateCall, stopCall, afterStart);
    StopAnswers(p.stops, stopCall, afterHibernate);
    ResizeAnswers(p.resizes, p.preferences);
    CarriedAnswers(p.idles, Nothing);
    AnswerSix(CarriedAll(p.unknown, UnknownSchedule), p.unknown, StartResults(p.starts, startCall, n), p.starts,
              HibernateResults(p.hibernates, hibernateCall, stopCall, afterStart), p.hibernates,
              StopResults(p.stops, stopCall, afterHibernate), p.stops,
              ResizeResults(p.resizes, p.preferences), p.resizes, CarriedAll(p.idles, Nothing), p.idles);
  }

  lemma AnswerSix(a: seq<ScheduleResult>, x: seq<Ec2Decision>, b: seq<ScheduleResult>, y: seq<Ec2Decision>,
                  c: seq<ScheduleResult>, z: seq<Ec2Decision>, d: seq<ScheduleResult>, u: seq<Ec2Decision>,
                  e: seq<ScheduleResult>, v: seq<Ec2Decision>, f: seq<ScheduleResult>, w: seq<Ec2Decision>)
    requires Answer(a, multiset(x)) && Answer(b, multiset(y)) && Answer(c, multiset(z))
    requires Answer(d, multiset(u)) && Answer(e, multiset(v)) && Answer(f, multiset(w))
    ensures Answer(a + b + c + d + e + f,
                   multiset(x) + multiset(y) + multiset(z) + multiset(u) + multiset(v) + multiset(w))
  {
    hide Answer;
    AnswerBoth(a, multiset(x), b, multiset(y));
    AnswerBoth(a + b, multiset(x) + multiset(y), c, multiset(z));
    var m := multiset(x) + multiset(y) + multiset(z);
    AnswerBoth(a + b + c, m, d, multiset(u));
    AnswerBoth(a + b + c + d, m + multiset(u), e, multiset(v));
    AnswerBoth(a + b + c + d + e, m + multiset(u) + multiset(v), f, multiset(w));
  }

  /* ---------- what the results of a pass say ---------- */

  lemma {:induction false} InPick(decisions: seq<Ec2Decision>, definitions: map<string, Definition>, kind: Kind)
    ensures forall d | d in Pick(decisions, definitions, kind) :: d in decisions && KindOf(d, definitions) == kind
  {
    hide KindOf;
    if decisions != [] {
      InPick(decisions[1..], definitions, kind);
    }
  }

  /** The schedule asks for the instance to run with a type that it does not have. */
  predicate AsksForOtherType(instance: Instance, schedule: S.InstanceSchedule, utc: int, desired: string)
    requires S.LocalTime(schedule, utc) >= 1
  {
    S.IsRunning(S.DesiredState(schedule, utc)) && S.DesiredState(schedule, utc).value.instanceType == Some(desired)
    && desired !in ["", instance.size]
  }

  /** Does a result of a pass say what happened?  Calls are those made after `n` others. */
  ghost predicate PassTells(
    r: ScheduleResult, definitions: map<string, Definition>, utc: int, startCall: Call, stopCall: Call, hibernateCall: Call, n: nat)
    requires InTime(definitions, utc)
  {
    var d := r.decision;
    if d.instance.scheduleName !in definitions then r == Carried(d, UnknownSchedule) && r.stored == d.instance.stored
    else
      var schedule := definitions[d.instance.scheduleName].schedule;
      match d.action
      case Start => StartTells(startCall, n, r)
      case Stop => if schedule.hibernate then HibernateTells(hibernateCall, stopCall, n, r) else StopTells(stopCall, n, r)
      case Resize => exists desired :: AsksForOtherType(d.instance, schedule, utc, desired) && r == Resizing(d, [desired])
      case _ => r == Carried(d, Nothing)
  }

  lemma StopTellsLater(call: Call, n: nat, later: nat, r: ScheduleResult)
    requires n <= later && StopTells(call, later, r)
    ensures StopTells(call, n, r)
  {
    LaterCalls(call, n, later, r.decision);
  }

  lemma HibernateTellsLater(call: Call, stopCall: Call, n: nat, later: nat, r: ScheduleResult)
    requires n <= later && HibernateTells(call, stopCall, later, r)
    ensures HibernateTells(call, stopCall, n, r)
  {
    LaterCalls(call, n, later, r.decision);
    LaterCalls(stopCall, n, later, r.decision);
  }

  lemma ResizesAskForOtherType(instance: Instance, definitions: map<string, Definition>, utc: int)
    requires InTime(definitions, utc) && instance.scheduleName in definitions
    requires DecisionFor(instance, definitions, utc).Some?
    ensures var schedule := definitions[instance.scheduleName].schedule;
            DecisionFor(instance, definitions, utc).value.action == Resize <==>
            exists desired :: AsksForOtherType(instance, schedule, utc, desired)
    ensures forall desired | AsksForOtherType(instance, definitions[instance.scheduleName].schedule, utc, desired) ::
              DesiredTypes(instance, definitions, utc) == [desired]
  {
    hide S.DesiredState, MakeSchedulingDecision;
    var definition := definitions[instance.scheduleName];
    var decision := MakeSchedulingDecision(instance.stored, instance.runtime.isUp, definition.schedule, utc, definition.windows);
    if decision.Some? {
      OnlyKnownActions(instance.stored, instance.runtime.isUp, definition.schedule, utc, definition.windows);
    }
    var verdict := S.DesiredState(definition.schedule, utc);
    if WantsResize(instance, verdict.value) {
      assert AsksForOtherType(instance, definition.schedule, utc, verdict.value.instanceType.value);
    }
  }

  lemma ResizeTells(
    decisions: seq<Ec2Decision>, instances: seq<Instance>, definitions: map<string, Definition>, utc: int, r: ScheduleResult)
    requires InTime(definitions, utc) && IsDecisionList(decisions, instances, definitions, utc)
    requires var resizes := Pick(decisions, definitions, Resizes);
             r in ResizeResults(resizes, PreferencesOf(resizes, definitions, utc))
    ensures r.decision in decisions && r.decision.instance.scheduleName in definitions && r.decision.action == Resize
    ensures exists desired ::
              AsksForOtherType(r.decision.instance, definitions[r.decision.instance.scheduleName].schedule, utc, desired)
              && r == Resizing(r.decision, [desired])
  {
    hide Pick, DecisionFor, S.DesiredState, DesiredTypes, AsksForOtherType;
    var resizes := Pick(decisions, definitions, Resizes);
    InPick(decisions, definitions, Resizes);
    var i :| 0 <= i < |resizes| && ResizeResults(resizes, PreferencesOf(resizes, definitions, utc))[i] == r;
    assert resizes[i] in resizes;
    var instance := DecidedFor(decisions, instances, definitions, utc, r.decision);
    ResizesAskForOtherType(instance, definitions, utc);
  }

  lemma DecidedFor(
    decisions: seq<Ec2Decision>, instances: seq<Instance>, definitions: map<string, Definition>, utc: int, d: Ec2Decision)
    returns (instance: Instance)
    requires InTime(definitions, utc) && IsDecisionList(decisions, instances, definitions, utc) && d in decisions
    ensures instance in instances && d.instance == instance && DecisionFor(instance, definitions, utc) == Some(d)
  {
    hide S.DesiredState, MakeSchedulingDecision, WantsResize;
    var k :| 0 <= k < |decisions| && decisions[k] == d;
    instance := instances[k];
  }

  lemma UnknownIsLeftAlone(instance: Instance, definitions: map<string, Definition>, utc: int)
    requires InTime(definitions, utc) && instance.scheduleName !in definitions
    ensures DecisionFor(instance, definitions, utc) == Some(Ec2Decision(instance, DoNothing, instance.stored))
  {
  }

  lemma KindMeans(d: Ec2Decision, definitions: map<string, Definition>)
    ensures KindOf(d, definitions) == Unknowns <==> d.instance.scheduleName !in definitions
    ensures KindOf(d, definitions) == Starts ==> d.action == Start
    ensures KindOf(d, definitions) in {Stops, Hibernates} ==>
              d.action == Stop
              && (KindOf(d, definitions) == Hibernates <==> definitions[d.instance.scheduleName].schedule.hibernate)
    ensures KindOf(d, definitions) == Resizes ==> d.action == Resize
    ensures KindOf(d, definitions) == Idles ==> d.action !in {Start, Stop, Resize}
  {
  }

  lemma UnknownTell(
    decisions: seq<Ec2Decision>, instances: seq<Instance>, definitions: map<string, Definition>, utc: int,
    startCall: Call, stopCall: Call, hibernateCall: Call, n: nat, r: ScheduleResult)
    requires InTime(definitions, utc) && IsDecisionList(decisions, instances, definitions, utc)
    requires r in CarriedAll(Pick(decisions, definitions, Unknowns), UnknownSchedule)
    ensures r.decision in decisions && PassTells(r, definitions, utc, startCall, stopCall, hibernateCall, n)
  {
    hide KindOf, Pick, IsDecisionList, DecisionFor, InTime;
    InPick(decisions, definitions, Unknowns);
    InCarried(Pick(decisions, definitions, Unknowns), UnknownSchedule, r);
    KindMeans(r.decision, definitions);
    var instance := DecidedFor(decisions, instances, definitions, utc, r.decision);
    UnknownIsLeftAlone(instance, definitions, utc);
  }

  lemma StartsTell(
    decisions: seq<Ec2Decision>, definitions: map<string, Definition>, utc: int,
    startCall: Call, stopCall: Call, hibernateCall: Call, n: nat, r: ScheduleResult)
    requires InTime(definitions, utc) && r in StartResults(Pick(decisions, definitions, Starts), startCall, n)
    ensures r.decision in decisions && PassTells(r, definitions, utc, startCall, stopCall, hibernateCall, n)
  {
    hide KindOf, Pick, StartResults, StartTells, InTime;
    InPick(decisions, definitions, Starts);
    StartTellsTheTruth(Pick(decisions, definitions, Starts), startCall, n, r);
    KindMeans(r.decision, definitions);
  }

  lemma HibernatesTell(
    decisions: seq<Ec2Decision>, definitions: map<string, Definition>, utc: int,
    startCall: Call, stopCall: Call, hibernateCall: Call, n: nat, later: nat, r: ScheduleResult)
    requires InTime(definitions, utc) && n <= later
    requires r in HibernateResults(Pick(decisions, definitions, Hibernates), hibernateCall, stopCall, later)
    ensures r.decision in decisions && PassTells(r, definitions, utc, startCall, stopCall, hibernateCall, n)
  {
    hide KindOf, Pick, HibernateResults, HibernateTells, InTime;
    InPick(decisions, definitions, Hibernates);
    HibernateTellsTheTruth(Pick(decisions, definitions, Hibernates), hibernateCall, stopCall, later, r);
    HibernateTellsLater(hibernateCall, stopCall, n, later, r);
    KindMeans(r.decision, definitions);
  }

  lemma StopsTell(
    decisions: seq<Ec2Decision>, definitions: map<string, Definition>, utc: int,
    startCall: Call, stopCall: Call, hibernateCall: Call, n: nat, later: nat, r: ScheduleResult)
    requires InTime(definitions, utc) && n <= later
    requires r in StopResults(Pick(decisions, definitions, Stops), stopCall, later)
    ensures r.decision in decisions && PassTells(r, definitions, utc, startCall, stopCall, hibernateCall, n)
  {
    hide KindOf, Pick, StopResults, StopTells, InTime;
    InPick(decisions, definitions, Stops);
    StopTellsTheTruth(Pick(decisions, definitions, Stops), stopCall, later, r);
    StopTellsLater(stopCall, n, later, r);
    KindMeans(r.decision, definitions);
  }

  lemma ResizesTell(
    decisions: seq<Ec2Decision>, instances: seq<Instance>, definitions: map<string, Definition>, utc: int,
    startCall: Call, stopCall: Call, hibernateCall: Call, n: nat, r: ScheduleResult)
    requires InTime(definitions, utc) && IsDecisionList(decisions, instances, definitions, utc)
    requires var resizes := Pick(decisions, definitions, Resizes);
             r in ResizeResults(resizes, PreferencesOf(resizes, definitions, utc))
    ensures r.decision in decisions && PassTells(r, definitions, utc, startCall, stopCall, hibernateCall, n)
  {
    ResizeTells(decisions, instances, definitions, utc, r);
    hide Pick, IsDecisionList, InTime, AsksForOtherType;
  }

  lemma IdlesTell(
    decisions: seq<Ec2Decision>, definitions: map<string, Definition>, utc: int,
    startCall: Call, stopCall: Call, hibernateCall: Call, n: nat, r: ScheduleResult)
    requires InTime(definitions, utc) && r in CarriedAll(Pick(decisions, definitions, Idles), Nothing)
    ensures r.decision in decisions && PassTells(r, definitions, utc, startCall, stopCall, hibernateCall, n)
  {
    hide KindOf, Pick, InTime;
    InPick(decisions, definitions, Idles);
    InCarried(Pick(decisions, definitions, Idles), Nothing, r);
    KindMeans(r.decision, definitions);
  }

  /**
   Whatever the calls do, every result of a pass says what happened: stop decisions of schedules that
   hibernate go to the hibernate call and those of others to the stop call, start decisions to the start
   call, resizes to the queue with the type the schedule asks for, and everything else is left alone.
   */
  lemma PassTellsTheTruth(
    decisions: seq<Ec2Decision>, instances: seq<Instance>, definitions: map<string, Definition>, utc: int,
    startCall: Call, stopCall: Call, hibernateCall: Call, n: nat, r: ScheduleResult)
    requires InTime(definitions, utc) && IsDecisionList(decisions, instances, definitions, utc)
    requires r in PassResults(decisions, definitions, utc, startCall, stopCall, hibernateCall, n)
    ensures r.decision in decisions && PassTells(r, definitions, utc, startCall, stopCall, hibernateCall, n)
  {
    hide PassResults, Pick, IsDecisionList, StartResults, StopResults, HibernateResults, ResizeResults, CarriedAll, PassTells,
         PreferencesOf, InTime;
    var resizes := Pick(decisions, definitions, Resizes);
    var afterStart, afterHibernate := PartsOfPass(decisions, definitions, utc, startCall, stopCall, hibernateCall, n);
    var a := CarriedAll(Pick(decisions, definitions, Unknowns), UnknownSchedule);
    var b := StartResults(Pick(decisions, definitions, Starts), startCall, n);
    var c := HibernateResults(Pick(decisions, definitions, Hibernates), hibernateCall, stopCall, afterStart);
    var d := StopResults(Pick(decisions, definitions, Stops), stopCall, afterHibernate);
    var e := ResizeResults(resizes, PreferencesOf(resizes, definitions, utc));
    var f := CarriedAll(Pick(decisions, definitions, Idles), Nothing);
    InOneOfSix(a, b, c, d, e, f, r);
    if r in a {
      UnknownTell(decisions, instances, definitions, utc, startCall, stopCall, hibernateCall, n, r);
    } else if r in b {
      StartsTell(decisions, definitions, utc, startCall, stopCall, hibernateCall, n, r);
    } else if r in c {
      HibernatesTell(decisions, definitions, utc, startCall, stopCall, hibernateCall, n, afterStart, r);
    } else if r in d {
      StopsTell(decisions, definitions, utc, startCall, stopCall, hibernateCall, n, afterHibernate, r);
    } else if r in e {
      ResizesTell(decisions, instances, definitions, utc, startCall, stopCall, hibernateCall, n, r);
    } else {
      IdlesTell(decisions, definitions, utc, startCall, stopCall, hibernateCall, n, r);
    }
  }

  lemma InOneOfSix<T>(a: seq<T>, b: seq<T>, c: seq<T>, d: seq<T>, e: seq<T>, f: seq<T>, x: T)
    requires x in a + b + c + d + e + f
    ensures x in a || x in b || x in c || x in d || x in e || x in f
  {
  }

  /** The results of a pass come from its lists, each processed after the calls for the lists before it. */
  lemma PartsOfPass(
    decisions: seq<Ec2Decision>, definitions: map<string, Definition>, utc: int,
    startCall: Call, stopCall: Call, hibernateCall: Call, n: nat) returns (afterStart: nat, afterHibernate: nat)
    requires InTime(definitions, utc)
    ensures n <= afterStart <= afterHibernate
    ensures var resizes := Pick(decisions, definitions, Resizes);
            PassResults(decisions, definitions, utc, startCall, stopCall, hibernateCall, n)
            == CarriedAll(Pick(decisions, definitions, Unknowns), UnknownSchedule)
               + StartResults(Pick(decisions, definitions, Starts), startCall, n)
               + HibernateResults(Pick(decisions, definitions, Hibernates), hibernateCall, stopCall, afterStart)
               + StopResults(Pick(decisions, definitions, Stops), stopCall, afterHibernate)
               + ResizeResults(resizes, PreferencesOf(resizes, definitions, utc))
               + CarriedAll(Pick(decisions, definitions, Idles), Nothing)
  {
    hide Pick, StartResults, StopResults, HibernateResults, ResizeResults, CarriedAll, PreferencesOf, InTime,
         StartCalls, HibernateCalls;
    var p := PlanOf(decisions, definitions, utc);
    afterStart := n + StartCalls(p.starts, startCall, n);
    afterHibernate := afterStart + HibernateCalls(p.hibernates, hibernateCall, stopCall, afterStart);
  }

  lemma NeverRaised(call: Call, n: nat)
    requires forall m: nat, batch: seq<Ec2Decision> :: call(m, batch).Done?
    ensures forall d, error :: !WasRaised(call, n, d, error)
  {
  }

  lemma HibernatedByKind(
    r: ScheduleResult, definitions: map<string, Definition>, utc: int, startCall: Call, stopCall: Call, hibernateCall: Call, n: nat)
    requires InTime(definitions, utc) && PassTells(r, definitions, utc, startCall, stopCall, hibernateCall, n)
    requires forall d, error :: !WasRaised(hibernateCall, n, d, error)
    ensures var d := r.decision;
            r.taken == Hibernated <==>
            d.instance.scheduleName in definitions && definitions[d.instance.scheduleName].schedule.hibernate
            && d.action == Stop && !d.instance.runtime.isDown
  {
    hide InTime, WasDone, WasRaised, AsksForOtherType;
  }

  /**
   When the hibernate call never fails, exactly the stop decisions of schedules that hibernate, on
   instances that are not down, are hibernated.
   */
  lemma HibernatingSchedulesHibernate(
    decisions: seq<Ec2Decision>, instances: seq<Instance>, definitions: map<string, Definition>, utc: int,
    startCall: Call, stopCall: Call, hibernateCall: Call, n: nat, r: ScheduleResult)
    requires InTime(definitions, utc) && IsDecisionList(decisions, instances, definitions, utc)
    requires r in PassResults(decisions, definitions, utc, startCall, stopCall, hibernateCall, n)
    requires forall m: nat, batch: seq<Ec2Decision> :: hibernateCall(m, batch).Done?
    ensures var d := r.decision;
            r.taken == Hibernated <==>
            d.instance.scheduleName in definitions && definitions[d.instance.scheduleName].schedule.hibernate
            && d.action == Stop && !d.instance.runtime.isDown
  {
    NeverRaised(hibernateCall, n);
    hide PassResults, IsDecisionList, InTime, PassTells, WasRaised;
    PassTellsTheTruth(decisions, instances, definitions, utc, startCall, stopCall, hibernateCall, n, r);
    HibernatedByKind(r, definitions, utc, startCall, stopCall, hibernateCall, n);
  }

  ghost predicate IsDecisionList(
    decisions: seq<Ec2Decision>, instances: seq<Instance>, definitions: map<string, Definition>, utc: int)
    requires InTime(definitions, utc)
  {
    |decisions| == |instances|
    && forall i | 0 <= i < |instances| :: DecisionFor(instances[i], definitions, utc) == Some(decisions[i])
  }

  predicate SendsNothing(results: seq<ScheduleResult>) {
    forall r | r in results :: r.taken != ResizeRequested
  }

  lemma CarriedSendsNothing(decisions: seq<Ec2Decision>, taken: Taken)
    requires taken != ResizeRequested
    ensures SendsNothing(CarriedAll(decisions, taken))
  {
  }

  lemma StopSendsNothing(decisions: seq<Ec2Decision>, call: Call, n: nat)
    ensures SendsNothing(StopResults(decisions, call, n))
  {
    hide Bisect, WithDown, SucceededInputs;
  }

  lemma HibernateSendsNothing(decisions: seq<Ec2Decision>, call: Call, stopCall: Call, n: nat)
    ensures SendsNothing(HibernateResults(decisions, call, stopCall, n))
  {
    hide Bisect, WithDown, SucceededInputs, WithHibernation, FailedInputs, StopResults;
    var r := Bisect(WithDown(decisions, false), call, n);
    StopSendsNothing(FailedInputs(WithHibernation(r.failures, false)), stopCall, n + |r.sent|);
  }

  lemma OnlyTwoSend(hasQueue: bool, a: seq<ScheduleResult>, b: seq<ScheduleResult>, c: seq<ScheduleResult>,
                    d: seq<ScheduleResult>, e: seq<ScheduleResult>, f: seq<ScheduleResult>)
    requires SendsNothing(a) && SendsNothing(c) && SendsNothing(d) && SendsNothing(f)
    ensures Requests(hasQueue, a + b + c + d + e + f) == Requests(hasQueue, b) + Requests(hasQueue, e)
  {
    NoRequests(hasQueue, a);
    NoRequests(hasQueue, c);
    NoRequests(hasQueue, d);
    NoRequests(hasQueue, f);
    hide Requests, SendsNothing;
    RequestsConcat(hasQueue, a, b);
    var toB := a + b;
    assert Requests(hasQueue, toB) == Requests(hasQueue, b);
    RequestsConcat(hasQueue, toB, c);
    var toC := toB + c;
    assert Requests(hasQueue, toC) == Requests(hasQueue, b);
    RequestsConcat(hasQueue, toC, d);
    var toD := toC + d;
    assert Requests(hasQueue, toD) == Requests(hasQueue, b);
    RequestsConcat(hasQueue, toD, e);
    RequestsConcat(hasQueue, toD + e, f);
  }

  lemma PlanPreferences(decisions: seq<Ec2Decision>, definitions: map<string, Definition>, utc: int)
    requires InTime(definitions, utc)
    ensures var p := PlanOf(decisions, definitions, utc); |p.preferences| == |p.resizes|
  {
  }

  lemma ResizeHasType(instance: Instance, verdict: S.Verdict)
    requires WantsResize(instance, verdict)
    ensures verdict.instanceType.Some?
  {
  }

  lemma DecisionForKnown(instance: Instance, definitions: map<string, Definition>, utc: int)
    requires InTime(definitions, utc) && instance.scheduleName in definitions
    ensures var definition := definitions[instance.scheduleName];
            var verdict := S.DesiredState(definition.schedule, utc);
            var decision := MakeSchedulingDecision(
              instance.stored, instance.runtime.isUp, definition.schedule, utc, definition.windows);
            DecisionFor(instance, definitions, utc) ==
            if verdict.None? then None
            else if WantsResize(instance, verdict.value) then Some(Ec2Decision(instance, Resize, StoredRunning))
            else if decision.None? then None
            else Some(Ec2Decision(instance, decision.value.action, decision.value.newState))
  {
    hide S.DesiredState, MakeSchedulingDecision, WantsResize;
  }

  class Ec2Service {
    const hasResizeQueue: bool
    const startCall: Call
    const stopCall: Call
    const hibernateCall: Call
    var calls: nat
    var queue: seq<ResizeRequest>
    var registry: map<string, InstanceState>

    constructor (hasResizeQueue: bool, startCall: Call, stopCall: Call, hibernateCall: Call,
                 registry: map<string, InstanceState>)
      ensures this.hasResizeQueue == hasResizeQueue && this.startCall == startCall && this.stopCall == stopCall
      ensures this.hibernateCall == hibernateCall && this.registry == registry && queue == []
    {
      this.hasResizeQueue, this.startCall, this.stopCall := hasResizeQueue, startCall, stopCall;
      this.hibernateCall, this.registry, calls, queue := hibernateCall, registry, 0, [];
    }

    /** One bisecting call. */
    method Retry(decisions: seq<Ec2Decision>, call: Call)
      returns (succeeded: seq<Ec2Decision>, failures: seq<Failure<Ec2Decision, AwsError>>)
      modifies this`calls
      ensures succeeded == SucceededInputs(Bisect(decisions, call, old(calls)).successes)
      ensures failures == Bisect(decisions, call, old(calls)).failures
      ensures calls == old(calls) + |Bisect(decisions, call, old(calls)).sent|
    {
      hide Bisect;
      var r, sent := BisectRetry(decisions, call, calls);
      calls := calls + sent;
      succeeded := Flatten(r.successResponses);
      failures := r.failureResponses;
    }

    /** The inputs of all successful batches. */
    method Flatten(successes: seq<Success<Ec2Decision, ()>>) returns (succeeded: seq<Ec2Decision>)
      ensures succeeded == SucceededInputs(successes)
    {
      succeeded := [];
      for i := 0 to |successes|
        invariant succeeded == SucceededInputs(successes[..i])
      {
        assert successes[..i + 1] == successes[..i] + [successes[i]];
        SucceededConcat(successes[..i], [successes[i]]);
        assert SucceededInputs([successes[i]]) == successes[i].successfulInput;
        succeeded := succeeded + successes[i].successfulInput;
      }
      Whole(successes);
    }

    method SendResizeRequest(d: Ec2Decision, preferences: seq<string>) returns (r: ScheduleResult)
      modifies this`queue
      ensures r == Resizing(d, preferences)
      ensures queue == old(queue) + Requests(hasResizeQueue, [r])
    {
      if hasResizeQueue && |preferences| > 0 {
        queue := queue + [ResizeRequest(d.instance.id, preferences)];
      }
      r := ScheduleResult(d, Resize, ResizeRequested, d.newState, preferences);
      assert [r][1..] == [];
    }

    /** Results for decisions that were carried out. */
    method Success(decisions: seq<Ec2Decision>, taken: Taken) returns (results: seq<ScheduleResult>)
      ensures results == CarriedAll(decisions, taken)
    {
      results := [];
      for i := 0 to |decisions|
        invariant results == CarriedAll(decisions[..i], taken)
      {
        results := results + [ScheduleResult(decisions[i], decisions[i].action, taken, decisions[i].newState, [])];
      }
      Whole(decisions);
    }

    /** Results for the decisions on instances that are stopped already, and the other decisions. */
    method SkipStopped(decisions: seq<Ec2Decision>) returns (results: seq<ScheduleResult>, todo: seq<Ec2Decision>)
      ensures results == CarriedAll(WithDown(decisions, true), Nothing)
      ensures todo == WithDown(decisions, false)
    {
      hide WithDown;
      results, todo := [], [];
      NothingToDo(stopCall, 0);
      for i := 0 to |decisions|
        invariant results == CarriedAll(WithDown(decisions[..i], true), Nothing)
        invariant todo == WithDown(decisions[..i], false)
      {
        var decision := decisions[i];
        assert decisions[..i + 1] == decisions[..i] + [decision];
        WithDownAppend(decisions[..i], decision, true);
        WithDownAppend(decisions[..i], decision, false);
        if decision.instance.runtime.isDown {
          results := results + [ScheduleResult(decision, decision.action, Nothing, decision.newState, [])];
        } else {
          todo := todo + [decision];
        }
      }
      Whole(decisions);
    }

    method StopInstances(decisions: seq<Ec2Decision>) returns (results: seq<ScheduleResult>)
      modifies this`calls
      ensures results == StopResults(decisions, stopCall, old(calls))
      ensures calls == old(calls) + StopCalls(decisions, stopCall, old(calls))
    {
      hide Bisect, WithDown, SucceededInputs;
      var todo;
      results, todo := SkipStopped(decisions);
      var succeeded, failures := Retry(todo, stopCall);
      var successes := Success(succeeded, Performed);
      results := results + successes;
      ghost var before := results;
      for i := 0 to |failures|
        invariant results == before + RefusedAll(failures[..i], StopFailed)
      {
        var d := failures[i].failedInput;
        results := results + [ScheduleResult(d, d.action, Error, StopFailed, [])];
      }
      Whole(failures);
    }

    method HibernateInstances(decisions: seq<Ec2Decision>) returns (results: seq<ScheduleResult>)
      modifies this`calls
      ensures results == HibernateResults(decisions, hibernateCall, stopCall, old(calls))
      ensures calls == old(calls) + HibernateCalls(decisions, hibernateCall, stopCall, old(calls))
    {
      hide Bisect, WithDown, SucceededInputs, WithHibernation, FailedInputs, StopResults, CarriedAll;
      var todo;
      results, todo := SkipStopped(decisions);
      var succeeded, failures := Retry(todo, hibernateCall);
      var successes := Success(succeeded, Hibernated);
      results := results + successes;
      ghost var before := results;
      ghost var called := calls;
      var retryAsStop: seq<Ec2Decision> := [];
      NothingToDo(stopCall, calls);
      for i := 0 to |failures|
        invariant calls == called
        invariant results == before + RefusedAll(WithHibernation(failures[..i], true), StopFailed)
        invariant retryAsStop == FailedInputs(WithHibernation(failures[..i], false))
      {
        var d := failures[i].failedInput;
        assert failures[..i + 1] == failures[..i] + [failures[i]];
        WithHibernationAppend(failures[..i], failures[i]);
        if failures[i].error == UnsupportedHibernation {
          retryAsStop := retryAsStop + [d];
        } else {
          results := results + [ScheduleResult(d, d.action, Error, StopFailed, [])];
        }
      }
      Whole(failures);
      if |retryAsStop| > 0 {
        var stopped := StopInstances(retryAsStop);
        results := results + stopped;
      } else {
        NothingToDo(stopCall, calls);
        assert results + [] == results;
      }
    }

    /** Results for instances that are up already or have to be resized first, and the other decisions. */
    method SkipStarted(decisions: seq<Ec2Decision>) returns (results: seq<ScheduleResult>, todo: seq<Ec2Decision>)
      modifies this`queue
      ensures results == NotStarted(decisions) && todo == ToStart(decisions)
      ensures queue == old(queue) + Requests(hasResizeQueue, results)
    {
      hide NotStarted, ToStart, Requests;
      results, todo := [], [];
      assert Requests(hasResizeQueue, []) == [] by { NoRequests(hasResizeQueue, []); }
      NothingToDo(startCall, 0);
      for i := 0 to |decisions|
        invariant results == NotStarted(decisions[..i]) && todo == ToStart(decisions[..i])
        invariant queue == old(queue) + Requests(hasResizeQueue, results)
      {
        var decision := decisions[i];
        var instance := decision.instance;
        assert decisions[..i + 1] == decisions[..i] + [decision];
        StartAppend(decisions[..i], decision);
        if instance.runtime.isUp {
          var r := ScheduleResult(decision, decision.action, Nothing, decision.newState, []);
          RequestsConcat(hasResizeQueue, results, [r]);
          NoRequests(hasResizeQueue, [r]);
          results := results + [r];
        } else if |instance.preferredTypes| > 0 && instance.size != instance.preferredTypes[0] {
          var r := SendResizeRequest(decision, instance.preferredTypes);
          RequestsConcat(hasResizeQueue, results, [r]);
          results := results + [r];
        } else {
          todo := todo + [decision];
        }
      }
      Whole(decisions);
    }

    method StartInstances(decisions: seq<Ec2Decision>) returns (results: seq<ScheduleResult>)
      modifies this`calls, this`queue
      ensures results == StartResults(decisions, startCall, old(calls))
      ensures calls == old(calls) + StartCalls(decisions, startCall, old(calls))
      ensures queue == old(queue) + Requests(hasResizeQueue, results)
    {
      hide Bisect, ToStart, NotStarted, SucceededInputs, Requests;
      var todo;
      results, todo := SkipStarted(decisions);
      var succeeded, failures := Retry(todo, startCall);
      var successes := Success(succeeded, Performed);
      RequestsConcat(hasResizeQueue, results, successes);
      NoRequests(hasResizeQueue, successes);
      results := results + successes;
      ghost var called := calls;
      ghost var before := results;
      for i := 0 to |failures|
        invariant calls == called
        invariant results == before + StartRefusedAll(failures[..i])
        invariant queue == old(queue) + Requests(hasResizeQueue, results)
      {
        var d := failures[i].failedInput;
        var r := ScheduleResult(d, d.action, Error, StartFailed, []);
        NoRequests(hasResizeQueue, [r]);
        if failures[i].error == InsufficientCapacity && |d.instance.preferredTypes| >= 2 {
          r := SendResizeRequest(d, d.instance.preferredTypes);
        }
        RequestsConcat(hasResizeQueue, results, [r]);
        results := results + [r];
      }
      Whole(failures);
    }

    method SendResizeRequests(decisions: seq<Ec2Decision>, preferences: seq<seq<string>>)
      returns (results: seq<ScheduleResult>)
      requires |preferences| == |decisions|
      modifies this`queue
      ensures results == ResizeResults(decisions, preferences)
      ensures queue == old(queue) + Requests(hasResizeQueue, results)
    {
      results := [];
      for i := 0 to |decisions|
        invariant results == ResizeResults(decisions[..i], preferences[..i])
        invariant queue == old(queue) + Requests(hasResizeQueue, results)
      {
        var r := SendResizeRequest(decisions[i], preferences[i]);
        RequestsConcat(hasResizeQueue, results, [r]);
        results := results + [r];
      }
      Whole(decisions);
      Whole(preferences);
    }

    /* ---------- the pass over all described instances ---------- */

    /** Sorts the decisions for the described instances by what they request. */
    method SortDecisions(instances: seq<Instance>, definitions: map<string, Definition>, utc: int)
      returns (plan: Option<Plan>, ghost decisions: seq<Ec2Decision>)
      requires InTime(definitions, utc)
      ensures plan.None? <==> exists instance | instance in instances :: DecisionFor(instance, definitions, utc).None?
      ensures plan.Some? ==> IsDecisionList(decisions, instances, definitions, utc)
      ensures plan.Some? ==> plan.value == PlanOf(decisions, definitions, utc)
    {
      hide DecisionFor, S.DesiredState, Placed, InTime;
      decisions := [];
      var p := Plan([], [], [], [], [], [], []);
      for i := 0 to |instances|
        invariant p == PlanOf(decisions, definitions, utc)
        invariant IsDecisionList(decisions, instances[..i], definitions, utc)
        invariant forall instance | instance in instances[..i] :: DecisionFor(instance, definitions, utc).Some?
      {
        var instance := instances[i];
        assert instances[..i + 1] == instances[..i] + [instance];
        var q := PlanOne(p, instance, definitions, utc);
        if q.None? {
          return None, [];
        }
        p := q.value;
        PlacedIsPlan(decisions, DecisionFor(instance, definitions, utc).value, definitions, utc);
        decisions := decisions + [DecisionFor(instance, definitions, utc).value];
      }
      Whole(instances);
      plan := Some(p);
    }

    /** One instance of that loop. */
    method PlanOne(p: Plan, instance: Instance, definitions: map<string, Definition>, utc: int) returns (q: Option<Plan>)
      requires InTime(definitions, utc)
      ensures q.None? <==> DecisionFor(instance, definitions, utc).None?
      ensures q.Some? ==> q.value == Placed(p, DecisionFor(instance, definitions, utc).value, definitions, utc)
    {
      hide S.DesiredState, MakeSchedulingDecision, WantsResize;
      if instance.scheduleName !in definitions {
        var d := Ec2Decision(instance, DoNothing, instance.stored);
        return Some(p.(unknown := p.unknown + [d]));
      }
      var definition := definitions[instance.scheduleName];
      var verdict := S.DesiredState(definition.schedule, utc);
      if verdict.None? {
        return None;
      }
      DecisionForKnown(instance, definitions, utc);
      hide DecisionFor;
      if WantsResize(instance, verdict.value) {
        ResizeHasType(instance, verdict.value);
        var d := Ec2Decision(instance, Resize, StoredRunning);
        return Some(p.(resizes := p.resizes + [d],
                       preferences := p.preferences + [[verdict.value.instanceType.value]]));
      }
      var decision := MakeSchedulingDecision(
        instance.stored, instance.runtime.isUp, definition.schedule, utc, definition.windows);
      if decision.None? {
        return None;
      }
      OnlyKnownActions(instance.stored, instance.runtime.isUp, definition.schedule, utc, definition.windows);
      var d := Ec2Decision(instance, decision.value.action, decision.value.newState);
      hide DesiredTypes;
      match d.action
      case Start =>
        return Some(p.(starts := p.starts + [d]));
      case Stop =>
        if definition.schedule.hibernate {
          return Some(p.(hibernates := p.hibernates + [d]));
        } else {
          return Some(p.(stops := p.stops + [d]));
        }
      case DoNothing =>
        return Some(p.(idles := p.idles + [d]));
      case _ =>
        assert false;
    }

    /**
     The whole pass.  Every described instance gets exactly one decision and every decision exactly one
     result; the queue gets the requests of the results and the registry what they store.  A pass that
     raises does so before the first call and changes nothing.
     */
    method ScheduleTarget(instances: seq<Instance>, definitions: map<string, Definition>, utc: int)
      returns (results: Option<seq<ScheduleResult>>, ghost decisions: seq<Ec2Decision>)
      requires InTime(definitions, utc)
      modifies this
      ensures results.None? <==> exists instance | instance in instances :: DecisionFor(instance, definitions, utc).None?
      ensures results.None? ==> registry == old(registry) && queue == old(queue) && calls == old(calls)
      ensures results.Some? ==> IsDecisionList(decisions, instances, definitions, utc)
      ensures results.Some? ==>
                results == Some(PassResults(decisions, definitions, utc, startCall, stopCall, hibernateCall, old(calls)))
      ensures results.Some? ==> Answer(results.value, multiset(decisions))
      ensures results.Some? ==>
                forall r | r in results.value :: PassTells(r, definitions, utc, startCall, stopCall, hibernateCall, old(calls))
      ensures results.Some? ==> queue == old(queue) + Requests(hasResizeQueue, results.value)
      ensures results.Some? ==> registry == StoreAll(old(registry), results.value)
    {
      hide Answer, DecisionFor, IsDecisionList, StartResults, HibernateResults, StopResults, ResizeResults, PlanOf, StoreAll,
           CarriedAll, Requests, InTime, StartCalls, HibernateCalls, StopCalls, PassTells;
      var plan;
      plan, decisions := SortDecisions(instances, definitions, utc);
      if plan.None? {
        return None, [];
      }
      var p := plan.value;
      ghost var n, before := calls, queue;
      var unknown := Success(p.unknown, UnknownSchedule);
      var started := StartInstances(p.starts);
      var hibernated := HibernateInstances(p.hibernates);
      var stopped := StopInstances(p.stops);
      assert |p.preferences| == |p.resizes| by { PlanPreferences(decisions, definitions, utc); }
      var resized := SendResizeRequests(p.resizes, p.preferences);
      var idle := Success(p.idles, Nothing);
      var all := unknown + started + hibernated + stopped + resized + idle;
      assert queue == before + Requests(hasResizeQueue, all) by {
        HibernateSendsNothing(p.hibernates, hibernateCall, stopCall, n + StartCalls(p.starts, startCall, n));
        StopSendsNothing(p.stops, stopCall, n + StartCalls(p.starts, startCall, n)
            + HibernateCalls(p.hibernates, hibernateCall, stopCall, n + StartCalls(p.starts, startCall, n)));
        CarriedSendsNothing(p.unknown, UnknownSchedule);
        CarriedSendsNothing(p.idles, Nothing);
        OnlyTwoSend(hasResizeQueue, unknown, started, hibernated, stopped, resized, idle);
      }
      PassAnswers(decisions, definitions, utc, startCall, stopCall, hibernateCall, n);
      forall r | r in all ensures PassTells(r, definitions, utc, startCall, stopCall, hibernateCall, n) {
        PassTellsTheTruth(decisions, instances, definitions, utc, startCall, stopCall, hibernateCall, n, r);
      }
      StoreResults(all);
      results := Some(all);
    }

    method StoreResults(results: seq<ScheduleResult>)
      modifies this`registry
      ensures registry == StoreAll(old(registry), results)
    {
      for i := 0 to |results|
        invariant StoreAll(registry, results[i..]) == StoreAll(old(registry), results)
      {
        var r := results[i];
        assert results[i..][1..] == results[i + 1..];
        if r.stored != r.decision.instance.stored {
          registry := registry[r.decision.instance.id := r.stored];
        }
      }
    }
  }

  /* ---------- the registry afterwards ---------- */

  function StoreAll(registry: map<string, InstanceState>, results: seq<ScheduleResult>): map<string, InstanceState>
    decreases results
  {
    if results == [] then registry
    else
      var r := results[0];
      StoreAll(if r.stored != r.decision.instance.stored then registry[r.decision.instance.id := r.stored] else registry,
               results[1..])
  }

  /** Each instance's entry ends up as its result says; entries of instances without a result are kept. */
  lemma {:induction false} StoredAsResulted(registry: map<string, InstanceState>, results: seq<ScheduleResult>, id: string)
    requires forall i, j | 0 <= i < j < |results| :: results[i].decision.instance.id != results[j].decision.instance.id
    ensures var after := StoreAll(registry, results);
            if exists r | r in results :: r.decision.instance.id == id && r.stored != r.decision.instance.stored
            then id in after && forall r | r in results && r.decision.instance.id == id :: after[id] == r.stored
            else (id in after <==> id in registry) && (id in after ==> after[id] == registry[id])
    decreases results
  {
    if results != [] {
      var r := results[0];
      var registry' := if r.stored != r.decision.instance.stored then registry[r.decision.instance.id := r.stored] else registry;
      StoredAsResulted(registry', results[1..], id);
      forall q | q in results[1..] ensures q.decision.instance.id != r.decision.instance.id {
        var j :| 0 <= j < |results[1..]| && results[1..][j] == q;
        assert results[0].decision.instance.id != results[j + 1].decision.instance.id;
      }
      assert forall q | q in results :: q == r || q in results[1..];
    }
  }
}
