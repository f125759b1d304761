/**
 The per-instance decision, what is stored after a scheduling cycle, and runs of cycles.
 */
module SchedulingDecision {
  import opened Wrappers
  import S = Schedules
  import MW = MaintenanceWindow

  /** The state kept for an instance between cycles. */
  datatype InstanceState =
    | StoredRunning | StoredAny | StoredStopped
    | Unknown | StoppedForResize | RetainRunning | StartFailed | StopFailed | Configured | ConfigurationFailed

  datatype RequestedAction = DoNothing | Start | Stop | Configure | Resize

  datatype Decision = Decision(action: RequestedAction, newState: InstanceState)

  /* ---------- one decision ---------- */

  /** The decision when no maintenance window is active. */
  function Decide(stored: InstanceState, isUp: bool, s: S.InstanceSchedule, state: S.ScheduleState): Decision {
    match state
    case Stopped =>
      if stored == Unknown && !s.stopNewInstances then Decision(DoNothing, StoredStopped)
      else if s.enforced then Decision(Stop, StoredStopped)
      else if stored == RetainRunning && s.retainRunning then Decision(DoNothing, StoredStopped)
      else if stored != StoredStopped then Decision(Stop, StoredStopped)
      else Decision(DoNothing, StoredStopped)
    case Running =>
      if s.enforced then Decision(Start, StoredRunning)
      else if s.retainRunning && stored == StoredStopped && isUp then Decision(DoNothing, RetainRunning)
      else if stored == RetainRunning then Decision(DoNothing, RetainRunning)
      else if stored == StartFailed then Decision(Start, StoredRunning)
      else if stored != StoredRunning then Decision(Start, StoredRunning)
      else Decision(DoNothing, StoredRunning)
    case Any => Decision(DoNothing, StoredAny)
  }

  /** Is one of these window schedules running?  They are looked at in order, up to the first that is. */
  function AnyActive(windows: seq<S.InstanceSchedule>, utc: int): Option<bool>
    requires forall w | w in windows :: S.LocalTime(w, utc) >= 1
  {
    if windows == [] then Some(false)
    else
      match S.DesiredState(windows[0], utc)
      case None => None
      case Some(v) => if v.state == S.Running then Some(true) else AnyActive(windows[1..], utc)
  }

  function MakeSchedulingDecision(
    stored: InstanceState, isUp: bool, s: S.InstanceSchedule, utc: int, windows: seq<S.InstanceSchedule>)
    : Option<Decision>
    requires S.LocalTime(s, utc) >= 1 && forall w | w in windows :: S.LocalTime(w, utc) >= 1
  {
    match if s.useMaintenanceWindow then AnyActive(windows, utc) else Some(false)
    case None => None
    case Some(true) => Some(Decision(Start, StoredRunning))
    case Some(false) =>
      match S.DesiredState(s, utc)
      case None => None
      case Some(v) => Some(Decide(stored, isUp, s, v.state))
  }

  /* ---------- one cycle ---------- */

  datatype Service = Ec2 | Rds

  datatype Runtime = Runtime(isUp: bool, isDown: bool, schedulable: bool)

  /** How a start or stop call ends; EC2 may hand an instance over to its resize queue instead. */
  datatype Outcome = Succeeded | Failed | HandedToResize

  /** What one cycle sees: the schedule, the maintenance windows, the instance and the service. */
  datatype Input = Input(
    state: S.ScheduleState, windowActive: bool, wantsResize: bool, runtime: Runtime, outcome: Outcome)

  datatype CycleResult = CycleResult(stored: InstanceState, requested: RequestedAction, failed: bool, skipped: bool)

  function Process(decision: Decision, runtime: Runtime, outcome: Outcome): CycleResult {
    match decision.action
    case Start =>
      if !runtime.isUp && outcome == Failed then CycleResult(StartFailed, Start, true, false)
      else CycleResult(decision.newState, Start, false, false)
    case Stop =>
      if !runtime.isDown && outcome == Failed then CycleResult(StopFailed, Stop, true, false)
      else CycleResult(decision.newState, Stop, false, false)
    case action => CycleResult(decision.newState, action, false, false)
  }

  predicate Skips(service: Service, input: Input) {
    service == Rds && !input.runtime.schedulable
  }

  predicate Resizes(service: Service, input: Input) {
    service == Ec2 && input.state == S.Running && input.wantsResize
  }

  predicate StartsForWindow(s: S.InstanceSchedule, input: Input) {
    s.useMaintenanceWindow && input.windowActive
  }

  function Cycle(service: Service, s: S.InstanceSchedule, stored: InstanceState, input: Input): CycleResult {
    if Skips(service, input) then CycleResult(stored, DoNothing, false, true)
    else if Resizes(service, input) then CycleResult(StoredRunning, Resize, false, false)
    else
      var decision :=
        if StartsForWindow(s, input) then Decision(Start, StoredRunning)
        else Decide(stored, input.runtime.isUp, s, input.state);
      Process(decision, input.runtime, input.outcome)
  }

  /* ---------- runs ---------- */

  function Trace(service: Service, s: S.InstanceSchedule, stored: InstanceState, inputs: seq<Input>): (trace: seq<CycleResult>)
    ensures |trace| == |inputs|
    decreases inputs
  {
    if inputs == [] then []
    else
      var r := Cycle(service, s, stored, inputs[0]);
      [r] + Trace(service, s, r.stored, inputs[1..])
  }

  /** The state stored when cycle `i` of a run begins. */
  function StoredBefore(service: Service, s: S.InstanceSchedule, stored: InstanceState, inputs: seq<Input>, i: nat): InstanceState
    requires i <= |inputs|
  {
    if i == 0 then stored else Trace(service, s, stored, inputs)[i - 1].stored
  }

  lemma {:induction false} TraceStep(service: Service, s: S.InstanceSchedule, stored: InstanceState, inputs: seq<Input>, i: nat)
    requires i < |inputs|
    ensures Trace(service, s, stored, inputs)[i]
         == Cycle(service, s, StoredBefore(service, s, stored, inputs, i), inputs[i])
    decreases i
  {
    if i > 0 {
      TraceStep(service, s, Cycle(service, s, stored, inputs[0]).stored, inputs[1..], i - 1);
    }
  }

  /** The schedule asks for `state`, no maintenance window interferes. */
  predicate Calm(s: S.InstanceSchedule, input: Input, state: S.ScheduleState) {
    input.state == state && !StartsForWindow(s, input)
  }

  ghost predicate CalmStretch(s: S.InstanceSchedule, inputs: seq<Input>, state: S.ScheduleState) {
    forall k | 0 <= k < |inputs| :: Calm(s, inputs[k], state)
  }

  predicate Settled(stored: InstanceState, state: S.ScheduleState) {
    if state == S.Running then stored == StoredRunning || stored == RetainRunning else stored == StoredStopped
  }

  lemma {:induction false} StaysSettled(
    service: Service, s: S.InstanceSchedule, stored: InstanceState, inputs: seq<Input>, state: S.ScheduleState, i: nat, j: nat)
    requires !s.enforced && state != S.Any && CalmStretch(s, inputs, state) && i < j <= |inputs|
    requires Settled(Trace(service, s, stored, inputs)[i].stored, state)
    ensures Settled(StoredBefore(service, s, stored, inputs, j), state)
    decreases j
  {
    if i + 1 < j {
      StaysSettled(service, s, stored, inputs, state, i, j - 1);
      TraceStep(service, s, stored, inputs, j - 1);
      assert Calm(s, inputs[j - 1], state);
    }
  }

  /**
   In every run of a schedule that is not enforced, within a stretch of running (or of stopped) cycles:
   after a cycle that did not fail, no later cycle of the stretch requests a start or a stop again.
   */
  lemma NoRepeatedRequest(
    service: Service, s: S.InstanceSchedule, stored: InstanceState, inputs: seq<Input>, state: S.ScheduleState, i: nat, j: nat)
    requires !s.enforced && state != S.Any && CalmStretch(s, inputs, state) && i < j < |inputs|
    requires var r := Trace(service, s, stored, inputs)[i]; !r.failed && !r.skipped
    ensures var r := Trace(service, s, stored, inputs)[j];
            r.requested != Start && r.requested != Stop && !r.failed
  {
    TraceStep(service, s, stored, inputs, i);
    TraceStep(service, s, stored, inputs, j);
    assert Calm(s, inputs[i], state) && Calm(s, inputs[j], state);
    StaysSettled(service, s, stored, inputs, state, i, j);
  }

  /** A failed start or stop is requested again at the next cycle of the stretch that looks at the instance. */
  lemma FailedRequestIsRetried(
    service: Service, s: S.InstanceSchedule, stored: InstanceState, inputs: seq<Input>, state: S.ScheduleState, i: nat)
    requires state != S.Any && CalmStretch(s, inputs, state) && i + 1 < |inputs|
    requires Trace(service, s, stored, inputs)[i].failed
    requires !Skips(service, inputs[i + 1]) && !Resizes(service, inputs[i + 1])
    ensures Trace(service, s, stored, inputs)[i + 1].requested == Trace(service, s, stored, inputs)[i].requested
         == if state == S.Running then Start else Stop
  {
    TraceStep(service, s, stored, inputs, i);
    TraceStep(service, s, stored, inputs, i + 1);
    assert Calm(s, inputs[i], state) && Calm(s, inputs[i + 1], state);
  }

  function Wanted(state: S.ScheduleState): RequestedAction {
    match state
    case Running => Start
    case Stopped => Stop
    case Any => DoNothing
  }

  /** The reasons for which a first request is not made: see `RequestsExactly`. */
  predicate Excused(s: S.InstanceSchedule, stored: InstanceState, isUp: bool, state: S.ScheduleState) {
    if state == S.Running then s.retainRunning && stored == StoredStopped && isUp
    else (s.retainRunning && stored == RetainRunning) || (!s.stopNewInstances && stored == Unknown)
  }

  ghost predicate NothingDoneYet(service: Service, s: S.InstanceSchedule, stored: InstanceState, inputs: seq<Input>, i: nat)
    requires i <= |inputs|
  {
    forall k | 0 <= k < i :: Skips(service, inputs[k]) || Trace(service, s, stored, inputs)[k].failed
  }

  /** The state stored while a stretch has done nothing but fail. */
  lemma {:induction false} StoredInStretch(
    service: Service, s: S.InstanceSchedule, stored: InstanceState, inputs: seq<Input>, state: S.ScheduleState, i: nat)
    requires !s.enforced && state != S.Any && CalmStretch(s, inputs, state) && i <= |inputs|
    ensures var before := StoredBefore(service, s, stored, inputs, i);
            if SkippedSoFar(service, inputs, i) then before == stored
            else if NothingDoneYet(service, s, stored, inputs, i) then before == FailureOf(Wanted(state))
            else Settled(before, state)
    decreases i
  {
    assert i == 0 ==> SkippedSoFar(service, inputs, i);
    if i > 0 {
      assert Calm(s, inputs[i - 1], state);
      hide Trace, Cycle, Settled, Calm, Skips, SkippedSoFar, NothingDoneYet;
      OneMoreCycle(service, s, stored, inputs, i);
      StoredInStretch(service, s, stored, inputs, state, i - 1);
      TraceStep(service, s, stored, inputs, i - 1);
      CycleInStretch(service, s, StoredBefore(service, s, stored, inputs, i - 1), inputs[i - 1], state);
    }
  }

  lemma OneMoreCycle(service: Service, s: S.InstanceSchedule, stored: InstanceState, inputs: seq<Input>, i: nat)
    requires 0 < i <= |inputs|
    ensures SkippedSoFar(service, inputs, i) <==> SkippedSoFar(service, inputs, i - 1) && Skips(service, inputs[i - 1])
    ensures NothingDoneYet(service, s, stored, inputs, i) <==>
            NothingDoneYet(service, s, stored, inputs, i - 1)
            && (Skips(service, inputs[i - 1]) || Trace(service, s, stored, inputs)[i - 1].failed)
  {
    hide Trace, Skips;
  }

  lemma CycleInStretch(service: Service, s: S.InstanceSchedule, stored: InstanceState, input: Input, state: S.ScheduleState)
    requires !s.enforced && state != S.Any && Calm(s, input, state)
    ensures var r := Cycle(service, s, stored, input);
            if Skips(service, input) then r.stored == stored && !r.failed
            else if r.failed then r.stored == FailureOf(Wanted(state)) && !Settled(stored, state)
            else Settled(r.stored, state)
  {
  }

  function FailureOf(action: RequestedAction): InstanceState {
    if action == Start then StartFailed else StopFailed
  }

  /**
   In every run of a schedule that is not enforced, within a stretch of running (or of stopped) cycles:
   a cycle that looks at the instance requests the start (or stop) exactly if all cycles before it failed
   or did not look, unless, at the first look, the state is stored already or the instance is excused:
   found up by a schedule that retains running instances, retained by such a schedule, or new and to be
   left alone.
   */
  lemma RequestsExactly(
    service: Service, s: S.InstanceSchedule, stored: InstanceState, inputs: seq<Input>, state: S.ScheduleState, i: nat)
    requires !s.enforced && state != S.Any && CalmStretch(s, inputs, state) && i < |inputs|
    requires !Skips(service, inputs[i]) && !Resizes(service, inputs[i])
    ensures Trace(service, s, stored, inputs)[i].requested == Wanted(state) <==>
            NothingDoneYet(service, s, stored, inputs, i)
            && (SkippedSoFar(service, inputs, i) ==>
                  !Settled(stored, state) && !Excused(s, stored, inputs[i].runtime.isUp, state))
    ensures Trace(service, s, stored, inputs)[i].requested in {Wanted(state), DoNothing}
  {
    StoredInStretch(service, s, stored, inputs, state, i);
    TraceStep(service, s, stored, inputs, i);
    assert Calm(s, inputs[i], state);
    hide Trace;
  }

  /**
   In every run, the entry stored after a cycle tells what came of it: a call that was needed and failed
   leaves its failure, and otherwise the state that was asked for is stored, a window counting as
   running; only a schedule that retains running instances marks one, and only one that it finds up.
   */
  lemma StoredTellsWhatHappened(service: Service, s: S.InstanceSchedule, stored: InstanceState, inputs: seq<Input>, i: nat)
    requires i < |inputs|
    ensures var r := Trace(service, s, stored, inputs)[i];
            var input, before := inputs[i], StoredBefore(service, s, stored, inputs, i);
            var called := (r.requested == Start && !input.runtime.isUp) || (r.requested == Stop && !input.runtime.isDown);
            && (r.skipped <==> Skips(service, input))
            && (r.skipped ==> r.stored == before && r.requested == DoNothing && !r.failed)
            && (r.failed <==> called && input.outcome == Failed)
            && (r.failed ==> r.stored == FailureOf(r.requested))
            && (r.requested == Resize <==> !r.skipped && Resizes(service, input))
            && (StartsForWindow(s, input) && !r.skipped && r.requested != Resize ==> r.requested == Start)
            && (!StartsForWindow(s, input) && input.state == S.Any ==> r.requested == DoNothing)
            && (!r.skipped && !r.failed ==>
                  if StartsForWindow(s, input) || r.requested == Resize then r.stored == StoredRunning
                  else match input.state
                       case Running => r.stored == StoredRunning || r.stored == RetainRunning
                       case Stopped => r.stored == StoredStopped
                       case Any => r.stored == StoredAny)
            && (r.stored == RetainRunning && before != RetainRunning ==>
                  s.retainRunning && !s.enforced && before == StoredStopped && input.runtime.isUp)
  {
    TraceStep(service, s, stored, inputs, i);
    hide Trace;
  }

  predicate SkippedSoFar(service: Service, inputs: seq<Input>, i: nat)
    requires i <= |inputs|
  {
    forall k | 0 <= k < i :: Skips(service, inputs[k])
  }

  /** An instance is new until the first cycle that looks at it. */
  lemma {:induction false} NewUntilSeen(service: Service, s: S.InstanceSchedule, stored: InstanceState, inputs: seq<Input>, i: nat)
    requires i <= |inputs|
    ensures StoredBefore(service, s, stored, inputs, i) == Unknown <==> stored == Unknown && SkippedSoFar(service, inputs, i)
    decreases i
  {
    if i > 0 {
      hide Trace, Cycle, Skips;
      NewUntilSeen(service, s, stored, inputs, i - 1);
      TraceStep(service, s, stored, inputs, i - 1);
      SeenOnce(service, s, StoredBefore(service, s, stored, inputs, i - 1), inputs[i - 1]);
    }
  }

  lemma SeenOnce(service: Service, s: S.InstanceSchedule, stored: InstanceState, input: Input)
    ensures Cycle(service, s, stored, input).stored == Unknown <==> stored == Unknown && Skips(service, input)
  {
  }

  /**
   In every run of an enforced schedule, every cycle that looks at the instance requests the schedule's
   state, whatever happened before; only a new instance that is to be left alone gets no stop, at the
   first cycle that looks at it.
   */
  lemma EnforcedAlwaysRequests(service: Service, s: S.InstanceSchedule, stored: InstanceState, inputs: seq<Input>, i: nat)
    requires s.enforced && i < |inputs|
    requires !Skips(service, inputs[i]) && !Resizes(service, inputs[i]) && !StartsForWindow(s, inputs[i])
    ensures var r := Trace(service, s, stored, inputs)[i];
            match inputs[i].state
            case Running => r.requested == Start
            case Stopped =>
              r.requested == Stop <==> !(stored == Unknown && !s.stopNewInstances && SkippedSoFar(service, inputs, i))
            case Any => r.requested == DoNothing
  {
    TraceStep(service, s, stored, inputs, i);
    NewUntilSeen(service, s, stored, inputs, i);
  }

  /** A new instance that is to be left alone gets no stop in the stopped stretch it is found in. */
  lemma {:induction false} NewInstanceIsLeftAlone(
    service: Service, s: S.InstanceSchedule, stored: InstanceState, inputs: seq<Input>, j: nat)
    requires !s.enforced && !s.stopNewInstances && (stored == Unknown || stored == StoredStopped)
    requires CalmStretch(s, inputs, S.Stopped) && j < |inputs|
    ensures Trace(service, s, stored, inputs)[j].requested != Stop
    decreases j
  {
    assert Calm(s, inputs[0], S.Stopped);
    if j > 0 {
      var next := Cycle(service, s, stored, inputs[0]).stored;
      NewInstanceIsLeftAlone(service, s, next, inputs[1..], j - 1);
    }
  }

  /* ---------- retain running ---------- */

  /** A cycle of a running stretch after which an instance is still marked to be kept up. */
  predicate KeepsMark(service: Service, s: S.InstanceSchedule, input: Input) {
    Skips(service, input) || (Calm(s, input, S.Running) && !Resizes(service, input))
  }

  predicate MarkLost(stored: InstanceState) {
    stored == StoredRunning || stored == StoredAny || stored == StartFailed
  }

  lemma {:induction false} MarkUntilLost(
    service: Service, s: S.InstanceSchedule, stored: InstanceState, inputs: seq<Input>, j: nat)
    requires !s.enforced && j <= |inputs|
    requires forall k | 0 <= k < j :: inputs[k].state != S.Stopped
    requires stored == RetainRunning
    ensures var before := StoredBefore(service, s, stored, inputs, j);
            if forall k | 0 <= k < j :: KeepsMark(service, s, inputs[k]) then before == RetainRunning else MarkLost(before)
    decreases j
  {
    if j > 0 {
      MarkUntilLost(service, s, stored, inputs, j - 1);
      TraceStep(service, s, stored, inputs, j - 1);
    }
  }

  /**
   An instance that is already up, though stored as stopped, when a running stretch of a
   retain-running schedule begins is not stopped at the first stopped cycle after it, exactly when no
   cycle in between asked for the any state, started it for a maintenance window or resized it.
   */
  lemma RetainRunningIsHonoured(service: Service, s: S.InstanceSchedule, inputs: seq<Input>)
    requires !s.enforced && s.retainRunning && |inputs| >= 2
    requires KeepsMark(service, s, inputs[0]) && !Skips(service, inputs[0]) && inputs[0].runtime.isUp
    requires forall k | 0 < k < |inputs| - 1 :: inputs[k].state != S.Stopped
    requires Calm(s, inputs[|inputs| - 1], S.Stopped) && !Skips(service, inputs[|inputs| - 1])
    ensures Trace(service, s, StoredStopped, inputs)[|inputs| - 1].requested != Stop
       <==> forall k | 0 < k < |inputs| - 1 :: KeepsMark(service, s, inputs[k])
  {
    var last := |inputs| - 1;
    var first := Cycle(service, s, StoredStopped, inputs[0]);
    assert first.stored == RetainRunning;
    var rest := inputs[1..];
    assert Trace(service, s, StoredStopped, inputs) == [first] + Trace(service, s, RetainRunning, rest);
    MarkUntilLost(service, s, RetainRunning, rest, last - 1);
    TraceStep(service, s, RetainRunning, rest, last - 1);
    assert forall k | 0 <= k < last - 1 :: rest[k] == inputs[k + 1];
    assert forall k | 0 < k < last :: inputs[k] == rest[k - 1];
  }

  /* ---------- maintenance windows ---------- */

  lemma {:induction false} ActiveWindowIsFound(windows: seq<S.InstanceSchedule>, utc: int, i: nat)
    requires forall w | w in windows :: S.LocalTime(w, utc) >= 1
    requires i < |windows| && S.IsRunning(S.DesiredState(windows[i], utc))
    requires forall j | 0 <= j < i :: S.DesiredState(windows[j], utc).Some?
    ensures AnyActive(windows, utc) == Some(true)
    decreases i
  {
    if i > 0 && !S.IsRunning(S.DesiredState(windows[0], utc)) {
      ActiveWindowIsFound(windows[1..], utc, i - 1);
    }
  }

  /** A window is active exactly if one of them is running and those before it give an answer. */
  lemma {:induction false} AnyActiveExactly(windows: seq<S.InstanceSchedule>, utc: int)
    requires forall w | w in windows :: S.LocalTime(w, utc) >= 1
    ensures AnyActive(windows, utc) == Some(true) <==>
            exists i | 0 <= i < |windows| :: S.IsRunning(S.DesiredState(windows[i], utc)) && AnswerBefore(windows, utc, i)
    ensures AnyActive(windows, utc) == Some(false) <==>
            forall w | w in windows :: S.DesiredState(w, utc).Some? && !S.IsRunning(S.DesiredState(w, utc))
    decreases windows
  {
    hide S.DesiredState;
    if windows != [] {
      var rest := windows[1..];
      AnyActiveExactly(rest, utc);
      if i :| 0 <= i < |rest| && S.IsRunning(S.DesiredState(rest[i], utc)) && AnswerBefore(rest, utc, i) {
        assert S.DesiredState(windows[0], utc).Some? ==> AnswerBefore(windows, utc, i + 1);
        assert windows[i + 1] == rest[i];
      }
      if i :| 0 <= i < |windows| && S.IsRunning(S.DesiredState(windows[i], utc)) && AnswerBefore(windows, utc, i) {
        if i > 0 {
          assert rest[i - 1] == windows[i] && AnswerBefore(rest, utc, i - 1);
        }
      }
      assert AnswerBefore(windows, utc, 0);
    }
  }

  predicate AnswerBefore(windows: seq<S.InstanceSchedule>, utc: int, i: nat)
    requires i <= |windows| && forall w | w in windows :: S.LocalTime(w, utc) >= 1
  {
    forall j | 0 <= j < i :: S.DesiredState(windows[j], utc).Some?
  }

  /**
   While an SSM window is under way, the decision for an instance whose schedule uses it is to start,
   whatever the schedule says, whatever is stored and whichever other windows are listed after ones that
   answer; only the minute that the window's schedule loses is the exception.
   */
  lemma UnderWayWindowStarts(
    w: MW.Window, interval: nat, stored: InstanceState, isUp: bool, s: S.InstanceSchedule, utc: int,
    windows: seq<S.InstanceSchedule>, i: nat)
    requires MW.IsWindow(w) && MW.IsInterval(interval) && MW.InCalendar(w, interval)
    requires utc + w.offset >= 1 && S.LocalTime(s, utc) >= 1 && s.useMaintenanceWindow
    requires MW.UnderWay(w, utc + w.offset) && !MW.LastMinuteLost(w, interval, utc + w.offset)
    requires forall window | window in windows :: S.LocalTime(window, utc) >= 1
    requires i < |windows| && MW.ToSchedule(w, interval) == Ok(windows[i])
    requires forall j | 0 <= j < i :: S.DesiredState(windows[j], utc).Some?
    ensures MakeSchedulingDecision(stored, isUp, s, utc, windows) == Some(Decision(Start, StoredRunning))
  {
    hide S.DesiredStateAt, MW.PeriodsBetween, MW.RunsAt;
    MW.WindowItselfIsCovered(w, interval, utc);
    ActiveWindowIsFound(windows, utc, i);
  }
}
