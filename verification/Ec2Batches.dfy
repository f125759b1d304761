/**
 What stopping, hibernating, starting and resizing a list of EC2 instances results in.

 A list is bisected until the instances that fail are found; instances in the desired state already are
 left out, and what fails may be handed on to another call or to the resize queue.
 */
module Ec2Batches {
  import opened Wrappers
  import opened Batch
  import opened SchedulingDecision

  datatype Instance = Instance(
    id: string, scheduleName: string, stored: InstanceState, runtime: Runtime, size: string, preferredTypes: seq<string>)

  datatype Ec2Decision = Ec2Decision(instance: Instance, action: RequestedAction, newState: InstanceState)

  datatype AwsError = InsufficientCapacity | UnsupportedHibernation | OtherError

  datatype Taken = Nothing | Performed | Hibernated | ResizeRequested | Error | UnknownSchedule

  /** `preferences` are the instance types that go into a resize request. */
  datatype ScheduleResult = ScheduleResult(
    decision: Ec2Decision, requested: RequestedAction, taken: Taken, stored: InstanceState, preferences: seq<string>)

  datatype ResizeRequest = ResizeRequest(id: string, preferredTypes: seq<string>)

  type Call = Action<Ec2Decision, (), AwsError>

  type Refusal = Failure<Ec2Decision, AwsError>

  predicate AllRequest(decisions: seq<Ec2Decision>, action: RequestedAction) {
    forall d | d in decisions :: d.action == action
  }

  /* ---------- results ---------- */

  function Carried(d: Ec2Decision, taken: Taken): ScheduleResult {
    ScheduleResult(d, d.action, taken, d.newState, [])
  }

  function Refused(d: Ec2Decision, state: InstanceState): ScheduleResult {
    ScheduleResult(d, d.action, Error, state, [])
  }

  function Resizing(d: Ec2Decision, preferences: seq<string>): ScheduleResult {
    ScheduleResult(d, Resize, ResizeRequested, d.newState, preferences)
  }

  function CarriedAll(decisions: seq<Ec2Decision>, taken: Taken): seq<ScheduleResult> {
    seq(|decisions|, i requires 0 <= i < |decisions| => Carried(decisions[i], taken))
  }

  function RefusedAll(failures: seq<Refusal>, state: InstanceState): seq<ScheduleResult> {
    seq(|failures|, i requires 0 <= i < |failures| => Refused(failures[i].failedInput, state))
  }

  /* ---------- stopping ---------- */

  /** The decisions on instances that are stopped already, or on the others. */
  function WithDown(decisions: seq<Ec2Decision>, down: bool): seq<Ec2Decision> {
    if decisions == [] then []
    else IfDown(decisions[0], down) + WithDown(decisions[1..], down)
  }

  function IfDown(d: Ec2Decision, down: bool): seq<Ec2Decision> {
    if d.instance.runtime.isDown == down then [d] else []
  }

  /** What stopping a list of decisions gives when `n` calls have been made before. */
  function StopResults(decisions: seq<Ec2Decision>, call: Call, n: nat): seq<ScheduleResult> {
    var r := Bisect(WithDown(decisions, false), call, n);
    CarriedAll(WithDown(decisions, true), Nothing)
    + CarriedAll(SucceededInputs(r.successes), Performed)
    + RefusedAll(r.failures, StopFailed)
  }

  function StopCalls(decisions: seq<Ec2Decision>, call: Call, n: nat): nat {
    |Bisect(WithDown(decisions, false), call, n).sent|
  }

  lemma {:induction false} InWithDown(decisions: seq<Ec2Decision>, down: bool)
    ensures forall d | d in WithDown(decisions, down) :: d in decisions && d.instance.runtime.isDown == down
  {
    if decisions != [] {
      InWithDown(decisions[1..], down);
    }
  }

  /* ---------- hibernating ---------- */

  /** The failures of instances that can hibernate, or of the others. */
  function WithHibernation(failures: seq<Refusal>, supported: bool): seq<Refusal> {
    if failures == [] then []
    else IfSupported(failures[0], supported) + WithHibernation(failures[1..], supported)
  }

  function IfSupported(f: Refusal, supported: bool): seq<Refusal> {
    if (f.error != UnsupportedHibernation) == supported then [f] else []
  }

  lemma {:induction false} InWithHibernation(failures: seq<Refusal>, supported: bool)
    ensures forall f | f in WithHibernation(failures, supported) :: f in failures
  {
    if failures != [] {
      InWithHibernation(failures[1..], supported);
    }
  }

  /** What cannot hibernate is stopped instead. */
  function HibernateResults(decisions: seq<Ec2Decision>, call: Call, stopCall: Call, n: nat): seq<ScheduleResult> {
    var r := Bisect(WithDown(decisions, false), call, n);
    CarriedAll(WithDown(decisions, true), Nothing)
    + CarriedAll(SucceededInputs(r.successes), Hibernated)
    + RefusedAll(WithHibernation(r.failures, true), StopFailed)
    + StopResults(FailedInputs(WithHibernation(r.failures, false)), stopCall, n + |r.sent|)
  }

  function HibernateCalls(decisions: seq<Ec2Decision>, call: Call, stopCall: Call, n: nat): nat {
    var r := Bisect(WithDown(decisions, false), call, n);
    |r.sent| + StopCalls(FailedInputs(WithHibernation(r.failures, false)), stopCall, n + |r.sent|)
  }

  /* ---------- starting ---------- */

  predicate HasPreferredType(instance: Instance) {
    instance.preferredTypes == [] || instance.size == instance.preferredTypes[0]
  }

  predicate NeedsStart(instance: Instance) {
    !instance.runtime.isUp && HasPreferredType(instance)
  }

  function ToStart(decisions: seq<Ec2Decision>): seq<Ec2Decision> {
    if decisions == [] then [] else IfToStart(decisions[0]) + ToStart(decisions[1..])
  }

  function IfToStart(d: Ec2Decision): seq<Ec2Decision> {
    if NeedsStart(d.instance) then [d] else []
  }

  lemma {:induction false} InToStart(decisions: seq<Ec2Decision>)
    ensures forall d | d in ToStart(decisions) :: d in decisions && NeedsStart(d.instance)
  {
    if decisions != [] {
      InToStart(decisions[1..]);
    }
  }

  /** The results for instances that are up already or have to be resized first. */
  function NotStarted(decisions: seq<Ec2Decision>): seq<ScheduleResult> {
    if decisions == [] then [] else IfNotStarted(decisions[0]) + NotStarted(decisions[1..])
  }

  function IfNotStarted(d: Ec2Decision): seq<ScheduleResult> {
    if d.instance.runtime.isUp then [Carried(d, Nothing)]
    else if !HasPreferredType(d.instance) then [Resizing(d, d.instance.preferredTypes)]
    else []
  }

  /** Without capacity for its type, an instance with a second choice is handed over for resizing. */
  function StartRefused(f: Refusal): ScheduleResult {
    var d := f.failedInput;
    if f.error == InsufficientCapacity && |d.instance.preferredTypes| >= 2 then Resizing(d, d.instance.preferredTypes)
    else Refused(d, StartFailed)
  }

  function StartRefusedAll(failures: seq<Refusal>): seq<ScheduleResult> {
    seq(|failures|, i requires 0 <= i < |failures| => StartRefused(failures[i]))
  }

  function StartResults(decisions: seq<Ec2Decision>, call: Call, n: nat): seq<ScheduleResult> {
    var r := Bisect(ToStart(decisions), call, n);
    NotStarted(decisions) + CarriedAll(SucceededInputs(r.successes), Performed) + StartRefusedAll(r.failures)
  }

  function StartCalls(decisions: seq<Ec2Decision>, call: Call, n: nat): nat {
    |Bisect(ToStart(decisions), call, n).sent|
  }

  /* ---------- resizing ---------- */

  function ResizeResults(decisions: seq<Ec2Decision>, preferences: seq<seq<string>>): seq<ScheduleResult>
    requires |decisions| == |preferences|
  {
    seq(|decisions|, i requires 0 <= i < |decisions| => Resizing(decisions[i], preferences[i]))
  }

  /** The messages that results put into the resize queue, if there is one. */
  function Requests(hasQueue: bool, results: seq<ScheduleResult>): seq<ResizeRequest> {
    if results == [] then [] else RequestOf(hasQueue, results[0]) + Requests(hasQueue, results[1..])
  }

  function RequestOf(hasQueue: bool, r: ScheduleResult): seq<ResizeRequest> {
    if hasQueue && r.taken == ResizeRequested && r.preferences != [] then
      [ResizeRequest(r.decision.instance.id, r.preferences)]
    else []
  }

  lemma {:induction false} RequestsConcat(hasQueue: bool, a: seq<ScheduleResult>, b: seq<ScheduleResult>)
    ensures Requests(hasQueue, a + b) == Requests(hasQueue, a) + Requests(hasQueue, b)
    decreases a
  {
    hide RequestOf;
    if a == [] {
      assert a + b == b;
    } else {
      RequestsConcat(hasQueue, a[1..], b);
      assert (a + b)[1..] == a[1..] + b;
      assert Requests(hasQueue, a + b) == RequestOf(hasQueue, a[0]) + Requests(hasQueue, a[1..] + b);
      hide Requests;
      ConcatAssociates(RequestOf(hasQueue, a[0]), Requests(hasQueue, a[1..]), Requests(hasQueue, b));
    }
  }

  lemma {:induction false} NoRequests(hasQueue: bool, results: seq<ScheduleResult>)
    requires forall r | r in results :: r.taken != ResizeRequested
    ensures Requests(hasQueue, results) == []
  {
    if results != [] {
      NoRequests(hasQueue, results[1..]);
    }
  }

  /** With a queue, the messages are those of the results that ask for a resize with some type to resize to. */
  lemma {:induction false} RequestsAreOfResults(hasQueue: bool, results: seq<ScheduleResult>, q: ResizeRequest)
    ensures q in Requests(hasQueue, results) <==>
            hasQueue && exists r | r in results ::
              r.taken == ResizeRequested && r.preferences != [] && q == ResizeRequest(r.decision.instance.id, r.preferences)
  {
    if results != [] {
      RequestsAreOfResults(hasQueue, results[1..], q);
      assert forall r | r in results :: r == results[0] || r in results[1..];
      assert results[0] in results;
    }
  }

  /* ---------- every decision has one result ---------- */

  function DecisionsOf(results: seq<ScheduleResult>): seq<Ec2Decision> {
    seq(|results|, i requires 0 <= i < |results| => results[i].decision)
  }

  /**
   An error stores the failure state of a start or stop that was really attempted, and everything else
   the decided state; what is requested is the decision's action or, for a hand-over, a resize.
   */
  predicate FollowsFrom(r: ScheduleResult) {
    var action := r.decision.action;
    if r.taken == Error then
      r.requested == action
      && ((action == Start && !r.decision.instance.runtime.isUp && r.stored == StartFailed)
          || (action == Stop && !r.decision.instance.runtime.isDown && r.stored == StopFailed))
    else
      r.stored == r.decision.newState && r.requested == if r.taken == ResizeRequested then Resize else action
  }

  /** Every one of these decisions has exactly one result. */
  ghost predicate Answer(results: seq<ScheduleResult>, decisions: multiset<Ec2Decision>) {
    multiset(DecisionsOf(results)) == decisions && forall r | r in results :: FollowsFrom(r)
  }

  lemma AnswerBoth(results: seq<ScheduleResult>, decisions: multiset<Ec2Decision>,
                   results': seq<ScheduleResult>, decisions': multiset<Ec2Decision>)
    requires Answer(results, decisions) && Answer(results', decisions')
    ensures Answer(results + results', decisions + decisions')
  {
    assert DecisionsOf(results + results') == DecisionsOf(results) + DecisionsOf(results');
  }

  /** Three kinds of results for one list: for what is left out, what succeeds and what fails. */
  lemma AnswerThree(skipped: multiset<Ec2Decision>, a: seq<ScheduleResult>,
                    succeeded: multiset<Ec2Decision>, b: seq<ScheduleResult>,
                    failed: multiset<Ec2Decision>, c: seq<ScheduleResult>, all: multiset<Ec2Decision>)
    requires Answer(a, skipped) && Answer(b, succeeded) && Answer(c, failed)
    requires skipped + (succeeded + failed) == all
    ensures Answer(a + b + c, all)
  {
    hide Answer;
    AnswerBoth(a, skipped, b, succeeded);
    AnswerBoth(a + b, skipped + succeeded, c, failed);
    assert skipped + succeeded + failed == all;
  }

  lemma CarriedAnswers(decisions: seq<Ec2Decision>, taken: Taken)
    requires taken != Error && taken != ResizeRequested
    ensures Answer(CarriedAll(decisions, taken), multiset(decisions))
  {
    assert DecisionsOf(CarriedAll(decisions, taken)) == decisions;
  }

  lemma ResizeAnswers(decisions: seq<Ec2Decision>, preferences: seq<seq<string>>)
    requires |decisions| == |preferences|
    ensures Answer(ResizeResults(decisions, preferences), multiset(decisions))
  {
    assert DecisionsOf(ResizeResults(decisions, preferences)) == decisions;
  }

  /** Do the elements of `a` and `b` together make up `all`? */
  ghost predicate Divides<T>(a: seq<T>, b: seq<T>, all: seq<T>) {
    multiset(a) + multiset(b) == multiset(all)
  }

  /** One element more, in front of one of the two sides. */
  lemma DividesOneMore<T>(a: seq<T>, b: seq<T>, all: seq<T>, x: T, one: seq<T>, a': seq<T>, other: seq<T>, b': seq<T>, rest: seq<T>)
    requires a == one + a' && b == other + b' && all == [x] + rest
    requires (one == [x] && other == []) || (one == [] && other == [x])
    requires Divides(a', b', rest)
    ensures Divides(a, b, all)
  {
  }

  lemma NothingDivided<T>()
    ensures Divides<T>([], [], [])
  {
  }

  lemma WithDownStep(decisions: seq<Ec2Decision>, down: bool)
    requires decisions != []
    ensures WithDown(decisions, down) == IfDown(decisions[0], down) + WithDown(decisions[1..], down)
  {
  }

  lemma {:induction false} WithDownDivides(decisions: seq<Ec2Decision>)
    ensures Divides(WithDown(decisions, true), WithDown(decisions, false), decisions)
  {
    hide Divides;
    if decisions == [] {
      NothingDivided<Ec2Decision>();
    } else {
      var d, rest := decisions[0], decisions[1..];
      WithDownDivides(rest);
      WithDownStep(decisions, true);
      WithDownStep(decisions, false);
      hide WithDown;
      DividesOneMore(WithDown(decisions, true), WithDown(decisions, false), decisions, d,
                     IfDown(d, true), WithDown(rest, true), IfDown(d, false), WithDown(rest, false), rest);
    }
  }

  /** Failures that are split up in two ways have their inputs split up in two ways. */
  lemma {:induction false} FailedInputsDivide(failures: seq<Refusal>)
    ensures Divides(FailedInputs(WithHibernation(failures, true)), FailedInputs(WithHibernation(failures, false)),
                    FailedInputs(failures))
  {
    hide Divides;
    if failures == [] {
      NothingDivided<Ec2Decision>();
    } else {
      var f, rest := failures[0], failures[1..];
      FailedInputsDivide(rest);
      WithHibernationStep(failures, true);
      WithHibernationStep(failures, false);
      assert FailedInputs(failures) == [f.failedInput] + FailedInputs(rest);
      hide WithHibernation, FailedInputs;
      FailedOfOne(f, true, WithHibernation(rest, true));
      FailedOfOne(f, false, WithHibernation(rest, false));
      DividesOneMore(FailedInputs(WithHibernation(failures, true)), FailedInputs(WithHibernation(failures, false)),
                     FailedInputs(failures), f.failedInput,
                     FailedInputs(IfSupported(f, true)), FailedInputs(WithHibernation(rest, true)),
                     FailedInputs(IfSupported(f, false)), FailedInputs(WithHibernation(rest, false)), FailedInputs(rest));
    }
  }

  lemma WithHibernationStep(failures: seq<Refusal>, supported: bool)
    requires failures != []
    ensures WithHibernation(failures, supported)
         == IfSupported(failures[0], supported) + WithHibernation(failures[1..], supported)
  {
  }

  lemma FailedOfOne(f: Refusal, supported: bool, rest: seq<Refusal>)
    ensures FailedInputs(IfSupported(f, supported) + rest) == FailedInputs(IfSupported(f, supported)) + FailedInputs(rest)
    ensures FailedInputs(IfSupported(f, supported))
         == if (f.error != UnsupportedHibernation) == supported then [f.failedInput] else []
  {
    FailedConcat(IfSupported(f, supported), rest);
    assert [f][1..] == [];
  }

  lemma {:induction false} FailedInputsAt(failures: seq<Refusal>)
    ensures |FailedInputs(failures)| == |failures|
    ensures forall i | 0 <= i < |failures| :: FailedInputs(failures)[i] == failures[i].failedInput
  {
    if failures != [] {
      FailedInputsAt(failures[1..]);
    }
  }

  lemma AmongAll<T>(a: multiset<T>, b: multiset<T>, all: seq<T>, x: T)
    requires a + b == multiset(all) && (x in a || x in b)
    ensures x in all
  {
    assert x in a + b;
  }

  /** The succeeded and the failed decisions of a bisected batch together are the batch. */
  lemma BatchIsPartition(decisions: seq<Ec2Decision>, call: Call, n: nat)
    ensures var r := Bisect(decisions, call, n);
            && multiset(SucceededInputs(r.successes)) + multiset(FailedInputs(r.failures)) == multiset(decisions)
            && (forall d | d in SucceededInputs(r.successes) :: d in decisions)
            && (forall f | f in r.failures :: f.failedInput in decisions)
  {
    hide Bisect, SucceededInputs, FailedInputs, Interleave;
    var r := Bisect(decisions, call, n);
    var succeeded, failed := SucceededInputs(r.successes), FailedInputs(r.failures);
    EveryInputAnsweredOnce(decisions, call, n);
    InterleaveIsPartition(succeeded, failed, decisions);
    FailedInputsAt(r.failures);
    forall d | d in succeeded ensures d in decisions {
      AmongAll(multiset(succeeded), multiset(failed), decisions, d);
    }
    forall f | f in r.failures ensures f.failedInput in decisions {
      var i :| 0 <= i < |r.failures| && r.failures[i] == f;
      assert failed[i] in failed;
      AmongAll(multiset(succeeded), multiset(failed), decisions, failed[i]);
    }
  }

  lemma RefusedAnswers(failures: seq<Refusal>)
    requires forall f | f in failures :: f.failedInput.action == Stop && !f.failedInput.instance.runtime.isDown
    ensures Answer(RefusedAll(failures, StopFailed), multiset(FailedInputs(failures)))
  {
    FailedInputsAt(failures);
    assert DecisionsOf(RefusedAll(failures, StopFailed)) == FailedInputs(failures);
    assert forall i | 0 <= i < |failures| :: failures[i] in failures;
  }

  /** Every stop decision has exactly one result. */
  lemma StopAnswers(decisions: seq<Ec2Decision>, call: Call, n: nat)
    requires AllRequest(decisions, Stop)
    ensures Answer(StopResults(decisions, call, n), multiset(decisions))
  {
    var todo, down := WithDown(decisions, false), WithDown(decisions, true);
    var r := Bisect(todo, call, n);
    WithDownDivides(decisions);
    BatchIsPartition(todo, call, n);
    InWithDown(decisions, false);
    hide Answer, Bisect, WithDown, CarriedAll, RefusedAll, SucceededInputs, FailedInputs;
    CarriedAnswers(down, Nothing);
    CarriedAnswers(SucceededInputs(r.successes), Performed);
    RefusedAnswers(r.failures);
    AnswerThree(multiset(down), CarriedAll(down, Nothing),
                multiset(SucceededInputs(r.successes)), CarriedAll(SucceededInputs(r.successes), Performed),
                multiset(FailedInputs(r.failures)), RefusedAll(r.failures, StopFailed), multiset(decisions));
  }

  /** What is refused or stopped after hibernating failed answers all the failures. */
  lemma HibernateFallback(todo: seq<Ec2Decision>, failures: seq<Refusal>, stopCall: Call, n: nat)
    requires forall f | f in failures :: f.failedInput.action == Stop && !f.failedInput.instance.runtime.isDown
    ensures Answer(RefusedAll(WithHibernation(failures, true), StopFailed)
                   + StopResults(FailedInputs(WithHibernation(failures, false)), stopCall, n),
                   multiset(FailedInputs(failures)))
  {
    var supported, others := WithHibernation(failures, true), WithHibernation(failures, false);
    var again := FailedInputs(others);
    FailedInputsDivide(failures);
    InWithHibernation(failures, true);
    InWithHibernation(failures, false);
    FailedInputsAt(others);
    forall d | d in again ensures d.action == Stop {
      var i :| 0 <= i < |again| && again[i] == d;
      assert others[i] in others;
    }
    hide Answer, RefusedAll, StopResults, WithHibernation, FailedInputs;
    RefusedAnswers(supported);
    StopAnswers(again, stopCall, n);
    AnswerBoth(RefusedAll(supported, StopFailed), multiset(FailedInputs(supported)),
               StopResults(again, stopCall, n), multiset(again));
  }

  /** Every hibernate decision has exactly one result, the fallback to stopping included. */
  lemma HibernateAnswers(decisions: seq<Ec2Decision>, call: Call, stopCall: Call, n: nat)
    requires AllRequest(decisions, Stop)
    ensures Answer(HibernateResults(decisions, call, stopCall, n), multiset(decisions))
  {
    var todo, down := WithDown(decisions, false), WithDown(decisions, true);
    var r := Bisect(todo, call, n);
    WithDownDivides(decisions);
    BatchIsPartition(todo, call, n);
    InWithDown(decisions, false);
    hide Answer, Bisect, WithDown, CarriedAll, RefusedAll, SucceededInputs, FailedInputs, StopResults, WithHibernation;
    CarriedAnswers(down, Nothing);
    CarriedAnswers(SucceededInputs(r.successes), Hibernated);
    HibernateFallback(todo, r.failures, stopCall, n + |r.sent|);
    var a, b := CarriedAll(down, Nothing), CarriedAll(SucceededInputs(r.successes), Hibernated);
    var refused := RefusedAll(WithHibernation(r.failures, true), StopFailed);
    var stopped := StopResults(FailedInputs(WithHibernation(r.failures, false)), stopCall, n + |r.sent|);
    assert a + b + refused + stopped == a + b + (refused + stopped);
    AnswerThree(multiset(down), a, multiset(SucceededInputs(r.successes)), b,
                multiset(FailedInputs(r.failures)), refused + stopped, multiset(decisions));
  }

  lemma DecisionsConcat(a: seq<ScheduleResult>, b: seq<ScheduleResult>)
    ensures DecisionsOf(a + b) == DecisionsOf(a) + DecisionsOf(b)
  {
  }

  lemma NotStartedOne(d: Ec2Decision)
    ensures DecisionsOf(IfNotStarted(d)) == if NeedsStart(d.instance) then [] else [d]
    ensures forall r | r in IfNotStarted(d) :: FollowsFrom(r)
  {
  }

  lemma {:induction false} NotStartedFollow(decisions: seq<Ec2Decision>)
    ensures forall r | r in NotStarted(decisions) :: FollowsFrom(r)
  {
    if decisions != [] {
      NotStartedFollow(decisions[1..]);
      NotStartedOne(decisions[0]);
      hide IfNotStarted, FollowsFrom;
    }
  }

  lemma {:induction false} NotStartedDivides(decisions: seq<Ec2Decision>)
    ensures Divides(DecisionsOf(NotStarted(decisions)), ToStart(decisions), decisions)
  {
    hide Divides;
    if decisions == [] {
      NoDecisions();
      NothingDivided<Ec2Decision>();
    } else {
      var d, rest := decisions[0], decisions[1..];
      NotStartedDivides(rest);
      NotStartedOne(d);
      DecisionsConcat(IfNotStarted(d), NotStarted(rest));
      assert NotStarted(decisions) == IfNotStarted(d) + NotStarted(rest);
      assert ToStart(decisions) == IfToStart(d) + ToStart(rest);
      hide NotStarted, ToStart, IfNotStarted, DecisionsOf, NeedsStart;
      DividesOneMore(DecisionsOf(NotStarted(decisions)), ToStart(decisions), decisions, d,
                     DecisionsOf(IfNotStarted(d)), DecisionsOf(NotStarted(rest)), IfToStart(d), ToStart(rest), rest);
    }
  }

  lemma NoDecisions()
    ensures DecisionsOf([]) == []
  {
  }

  lemma StartRefusedAnswers(failures: seq<Refusal>)
    requires forall f | f in failures :: f.failedInput.action == Start && !f.failedInput.instance.runtime.isUp
    ensures Answer(StartRefusedAll(failures), multiset(FailedInputs(failures)))
  {
    FailedInputsAt(failures);
    hide FailedInputs;
    assert forall i | 0 <= i < |failures| :: failures[i] in failures;
    assert DecisionsOf(StartRefusedAll(failures)) == FailedInputs(failures);
  }

  /** Every start decision has exactly one result, the hand-overs to the resize queue included. */
  lemma StartAnswers(decisions: seq<Ec2Decision>, call: Call, n: nat)
    requires AllRequest(decisions, Start)
    ensures Answer(StartResults(decisions, call, n), multiset(decisions))
  {
    var todo := ToStart(decisions);
    var r := Bisect(todo, call, n);
    NotStartedFollow(decisions);
    NotStartedDivides(decisions);
    BatchIsPartition(todo, call, n);
    InToStart(decisions);
    var skipped := multiset(DecisionsOf(NotStarted(decisions)));
    assert Answer(NotStarted(decisions), skipped);
    hide Answer, Bisect, ToStart, NotStarted, CarriedAll, StartRefusedAll, SucceededInputs, FailedInputs, DecisionsOf;
    CarriedAnswers(SucceededInputs(r.successes), Performed);
    StartRefusedAnswers(r.failures);
    AnswerThree(skipped, NotStarted(decisions),
                multiset(SucceededInputs(r.successes)), CarriedAll(SucceededInputs(r.successes), Performed),
                multiset(FailedInputs(r.failures)), StartRefusedAll(r.failures), multiset(decisions));
  }

  /* ---------- who fails ---------- */

  lemma {:induction false} SelectedBy(decisions: seq<Ec2Decision>, bad: set<Ec2Decision>, keepBad: bool)
    ensures forall d :: d in Select(decisions, bad, keepBad) <==> d in decisions && (d in bad) == keepBad
  {
    if decisions != [] {
      SelectedBy(decisions[1..], bad, keepBad);
      assert decisions == [decisions[0]] + decisions[1..];
    }
  }

  lemma BatchSplitsByBad(decisions: seq<Ec2Decision>, call: Call, n: nat, bad: set<Ec2Decision>)
    requires FailsOn(call, bad)
    ensures var r := Bisect(decisions, call, n);
            (forall d | d in SucceededInputs(r.successes) :: d !in bad) && (forall f | f in r.failures :: f.failedInput in bad)
  {
    hide Bisect, SucceededInputs, FailedInputs, Select, FailsOn;
    var r := Bisect(decisions, call, n);
    BadInputsAreFound(decisions, call, n, bad);
    SelectedBy(decisions, bad, true);
    SelectedBy(decisions, bad, false);
    FailedInputsAt(r.failures);
    forall f | f in r.failures ensures f.failedInput in bad {
      var i :| 0 <= i < |r.failures| && r.failures[i] == f;
      assert FailedInputs(r.failures)[i] in FailedInputs(r.failures);
    }
  }

  lemma InCarried(decisions: seq<Ec2Decision>, taken: Taken, r: ScheduleResult)
    requires r in CarriedAll(decisions, taken)
    ensures r.decision in decisions && r == Carried(r.decision, taken)
  {
  }

  lemma InRefused(failures: seq<Refusal>, state: InstanceState, r: ScheduleResult) returns (f: Refusal)
    requires r in RefusedAll(failures, state)
    ensures f in failures && r.decision == f.failedInput && r == Refused(r.decision, state)
  {
    var i :| 0 <= i < |failures| && RefusedAll(failures, state)[i] == r;
    f := failures[i];
  }

  lemma InStartRefused(failures: seq<Refusal>, r: ScheduleResult) returns (f: Refusal)
    requires r in StartRefusedAll(failures)
    ensures f in failures && r.decision == f.failedInput && r == StartRefused(f)
  {
    var i :| 0 <= i < |failures| && StartRefusedAll(failures)[i] == r;
    f := failures[i];
  }

  /**
   When stopping fails exactly on the batches with a bad instance, each instance is reported for what it
   is: already down, bad and marked as failed, or stopped with its new state.
   */
  lemma BadInstancesFailToStop(decisions: seq<Ec2Decision>, call: Call, n: nat, bad: set<Ec2Decision>, r: ScheduleResult)
    requires FailsOn(call, bad) && r in StopResults(decisions, call, n)
    ensures r == if r.decision.instance.runtime.isDown then Carried(r.decision, Nothing)
                 else if r.decision in bad then Refused(r.decision, StopFailed)
                 else Carried(r.decision, Performed)
  {
    hide Bisect, FailsOn, WithDown, SucceededInputs, FailedInputs, CarriedAll, RefusedAll, Carried, Refused;
    var todo := WithDown(decisions, false);
    var batch := Bisect(todo, call, n);
    BatchSplitsByBad(todo, call, n, bad);
    BatchIsPartition(todo, call, n);
    InWithDown(decisions, true);
    InWithDown(decisions, false);
    if r in CarriedAll(WithDown(decisions, true), Nothing) {
      InCarried(WithDown(decisions, true), Nothing, r);
    } else if r in CarriedAll(SucceededInputs(batch.successes), Performed) {
      InCarried(SucceededInputs(batch.successes), Performed, r);
    } else {
      var f := InRefused(batch.failures, StopFailed, r);
    }
  }

  lemma {:induction false} NotStartedResult(decisions: seq<Ec2Decision>, r: ScheduleResult)
    requires r in NotStarted(decisions)
    ensures IfNotStarted(r.decision) == [r]
  {
    if r !in IfNotStarted(decisions[0]) {
      NotStartedResult(decisions[1..], r);
    }
  }

  /** Likewise for starting: a bad instance is marked as failed or handed over for resizing. */
  lemma BadInstancesFailToStart(decisions: seq<Ec2Decision>, call: Call, n: nat, bad: set<Ec2Decision>, r: ScheduleResult)
    requires FailsOn(call, bad) && r in StartResults(decisions, call, n)
    ensures var d := r.decision;
            if d.instance.runtime.isUp then r == Carried(d, Nothing)
            else if !HasPreferredType(d.instance) then r == Resizing(d, d.instance.preferredTypes)
            else if d in bad then
              r == Refused(d, StartFailed) || (|d.instance.preferredTypes| >= 2 && r == Resizing(d, d.instance.preferredTypes))
            else r == Carried(d, Performed)
  {
    hide Bisect, FailsOn, ToStart, NotStarted, SucceededInputs, FailedInputs, CarriedAll, StartRefusedAll,
         Carried, Refused, Resizing;
    var todo := ToStart(decisions);
    var batch := Bisect(todo, call, n);
    BatchSplitsByBad(todo, call, n, bad);
    BatchIsPartition(todo, call, n);
    InToStart(decisions);
    if r in NotStarted(decisions) {
      NotStartedResult(decisions, r);
    } else if r in CarriedAll(SucceededInputs(batch.successes), Performed) {
      InCarried(SucceededInputs(batch.successes), Performed, r);
    } else {
      var f := InStartRefused(batch.failures, r);
    }
  }

  /* ---------- every result is what its calls answered ---------- */

  /** A call made after `n` others, with a batch that holds this decision, succeeded. */
  ghost predicate WasDone(call: Call, n: nat, d: Ec2Decision) {
    exists m: nat, batch: seq<Ec2Decision> :: m >= n && d in batch && call(m, batch).Done?
  }

  /** A call made after `n` others, with this decision alone, raised this error. */
  ghost predicate WasRaised(call: Call, n: nat, d: Ec2Decision, error: AwsError) {
    exists m: nat :: m >= n && call(m, [d]) == Raised(error)
  }

  lemma {:induction false} InSucceeded(successes: seq<Success<Ec2Decision, ()>>, d: Ec2Decision)
    returns (s: Success<Ec2Decision, ()>)
    requires d in SucceededInputs(successes)
    ensures s in successes && d in s.successfulInput
  {
    if d in successes[0].successfulInput {
      s := successes[0];
    } else {
      s := InSucceeded(successes[1..], d);
    }
  }

  lemma BatchTells(decisions: seq<Ec2Decision>, call: Call, n: nat)
    ensures var r := Bisect(decisions, call, n);
            && (forall d | d in SucceededInputs(r.successes) :: WasDone(call, n, d))
            && (forall f | f in r.failures :: WasRaised(call, n, f.failedInput, f.error))
  {
    hide Bisect, SucceededInputs;
    var r := Bisect(decisions, call, n);
    EveryReportIsOfACall(decisions, call, n);
    forall d | d in SucceededInputs(r.successes) ensures WasDone(call, n, d) {
      var s := InSucceeded(r.successes, d);
      var k: nat :| k < |r.sent| && r.sent[k] == s.successfulInput && call(n + k, r.sent[k]) == Done(s.response);
      assert d in r.sent[k] && call(n + k, r.sent[k]).Done?;
    }
    forall f | f in r.failures ensures WasRaised(call, n, f.failedInput, f.error) {
      var k: nat :| k < |r.sent| && r.sent[k] == [f.failedInput] && call(n + k, r.sent[k]) == Raised(f.error);
      assert call(n + k, [f.failedInput]) == Raised(f.error);
    }
  }

  /** Does a result of stopping say what happened? */
  ghost predicate StopTells(call: Call, n: nat, r: ScheduleResult) {
    var d := r.decision;
    match r.taken
    case Nothing => d.instance.runtime.isDown && r == Carried(d, Nothing)
    case Performed => !d.instance.runtime.isDown && r == Carried(d, Performed) && WasDone(call, n, d)
    case Error =>
      !d.instance.runtime.isDown && r == Refused(d, StopFailed) && exists error :: WasRaised(call, n, d, error)
    case _ => false
  }

  /** Whatever the calls do, every result of stopping is what they answered. */
  lemma StopTellsTheTruth(decisions: seq<Ec2Decision>, call: Call, n: nat, r: ScheduleResult)
    requires r in StopResults(decisions, call, n)
    ensures r.decision in decisions && StopTells(call, n, r)
  {
    hide Bisect, WithDown, SucceededInputs, FailedInputs, CarriedAll, RefusedAll, WasDone, WasRaised;
    var todo := WithDown(decisions, false);
    var batch := Bisect(todo, call, n);
    BatchTells(todo, call, n);
    BatchIsPartition(todo, call, n);
    InWithDown(decisions, true);
    InWithDown(decisions, false);
    if r in CarriedAll(WithDown(decisions, true), Nothing) {
      InCarried(WithDown(decisions, true), Nothing, r);
    } else if r in CarriedAll(SucceededInputs(batch.successes), Performed) {
      InCarried(SucceededInputs(batch.successes), Performed, r);
    } else {
      var f := InRefused(batch.failures, StopFailed, r);
    }
  }

  /** Does a result of hibernating say what happened?  Only what cannot hibernate is stopped. */
  ghost predicate HibernateTells(call: Call, stopCall: Call, n: nat, r: ScheduleResult) {
    var d := r.decision;
    match r.taken
    case Nothing => d.instance.runtime.isDown && r == Carried(d, Nothing)
    case Hibernated => !d.instance.runtime.isDown && r == Carried(d, Hibernated) && WasDone(call, n, d)
    case Performed =>
      !d.instance.runtime.isDown && r == Carried(d, Performed)
      && WasRaised(call, n, d, UnsupportedHibernation) && WasDone(stopCall, n, d)
    case Error =>
      !d.instance.runtime.isDown && r == Refused(d, StopFailed)
      && exists error :: WasRaised(call, n, d, error)
                         && (error == UnsupportedHibernation ==> exists again :: WasRaised(stopCall, n, d, again))
    case _ => false
  }

  lemma LaterCalls(call: Call, n: nat, later: nat, d: Ec2Decision)
    requires n <= later
    ensures WasDone(call, later, d) ==> WasDone(call, n, d)
    ensures forall error :: WasRaised(call, later, d, error) ==> WasRaised(call, n, d, error)
  {
  }

  lemma {:induction false} SupportedOf(failures: seq<Refusal>, supported: bool)
    ensures forall f | f in WithHibernation(failures, supported) ::
              f in failures && ((f.error != UnsupportedHibernation) == supported)
  {
    if failures != [] {
      SupportedOf(failures[1..], supported);
    }
  }

  lemma HibernateTellsTheTruth(decisions: seq<Ec2Decision>, call: Call, stopCall: Call, n: nat, r: ScheduleResult)
    requires r in HibernateResults(decisions, call, stopCall, n)
    ensures r.decision in decisions && HibernateTells(call, stopCall, n, r)
  {
    hide Bisect, WithDown, SucceededInputs, FailedInputs, CarriedAll, RefusedAll, WasDone, WasRaised, WithHibernation,
         StopResults;
    var todo := WithDown(decisions, false);
    var batch := Bisect(todo, call, n);
    BatchTells(todo, call, n);
    BatchIsPartition(todo, call, n);
    InWithDown(decisions, true);
    InWithDown(decisions, false);
    var others := WithHibernation(batch.failures, false);
    SupportedOf(batch.failures, true);
    SupportedOf(batch.failures, false);
    if r in CarriedAll(WithDown(decisions, true), Nothing) {
      InCarried(WithDown(decisions, true), Nothing, r);
    } else if r in CarriedAll(SucceededInputs(batch.successes), Hibernated) {
      InCarried(SucceededInputs(batch.successes), Hibernated, r);
    } else if r in RefusedAll(WithHibernation(batch.failures, true), StopFailed) {
      var f := InRefused(WithHibernation(batch.failures, true), StopFailed, r);
    } else {
      var later := n + |batch.sent|;
      StopTellsTheTruth(FailedInputs(others), stopCall, later, r);
      FailedInputsAt(others);
      var i :| 0 <= i < |others| && FailedInputs(others)[i] == r.decision;
      assert others[i] in others;
      LaterCalls(stopCall, n, later, r.decision);
    }
  }

  /** Is the size of the instance another than the first of its preferred types? */
  predicate HasOtherSize(instance: Instance) {
    |instance.preferredTypes| > 0 && instance.size != instance.preferredTypes[0]
  }

  /** Does a result of starting say what happened? */
  ghost predicate StartTells(call: Call, n: nat, r: ScheduleResult) {
    var d := r.decision;
    var types := d.instance.preferredTypes;
    match r.taken
    case Nothing => d.instance.runtime.isUp && r == Carried(d, Nothing)
    case Performed =>
      !d.instance.runtime.isUp && !HasOtherSize(d.instance) && r == Carried(d, Performed) && WasDone(call, n, d)
    case ResizeRequested =>
      !d.instance.runtime.isUp && r == Resizing(d, types)
      && (HasOtherSize(d.instance) || (|types| >= 2 && WasRaised(call, n, d, InsufficientCapacity)))
    case Error =>
      !d.instance.runtime.isUp && !HasOtherSize(d.instance) && r == Refused(d, StartFailed)
      && exists error :: WasRaised(call, n, d, error) && (error == InsufficientCapacity ==> |types| < 2)
    case _ => false
  }

  lemma {:induction false} NotStartedOf(decisions: seq<Ec2Decision>)
    ensures forall r | r in NotStarted(decisions) :: r.decision in decisions
  {
    if decisions != [] {
      NotStartedOf(decisions[1..]);
    }
  }

  lemma StartTellsTheTruth(decisions: seq<Ec2Decision>, call: Call, n: nat, r: ScheduleResult)
    requires r in StartResults(decisions, call, n)
    ensures r.decision in decisions && StartTells(call, n, r)
  {
    hide Bisect, ToStart, NotStarted, SucceededInputs, FailedInputs, CarriedAll, StartRefusedAll, WasDone, WasRaised;
    var todo := ToStart(decisions);
    var batch := Bisect(todo, call, n);
    BatchTells(todo, call, n);
    BatchIsPartition(todo, call, n);
    InToStart(decisions);
    if r in NotStarted(decisions) {
      NotStartedOf(decisions);
      NotStartedResult(decisions, r);
    } else if r in CarriedAll(SucceededInputs(batch.successes), Performed) {
      InCarried(SucceededInputs(batch.successes), Performed, r);
    } else {
      var f := InStartRefused(batch.failures, r);
    }
  }

  /* ---------- one element more ---------- */

  lemma Whole<T>(s: seq<T>)
    ensures s[..|s|] == s
  {
  }

  lemma {:induction false} WithDownAppend(decisions: seq<Ec2Decision>, d: Ec2Decision, down: bool)
    ensures WithDown(decisions + [d], down) == WithDown(decisions, down) + IfDown(d, down)
  {
    hide IfDown;
    if decisions == [] {
      assert [d][1..] == [];
    } else {
      WithDownAppend(decisions[1..], d, down);
      assert (decisions + [d])[1..] == decisions[1..] + [d];
    }
  }

  lemma {:induction false} WithHibernationAppends(failures: seq<Refusal>, f: Refusal, supported: bool)
    ensures WithHibernation(failures + [f], supported) == WithHibernation(failures, supported) + IfSupported(f, supported)
  {
    hide IfSupported;
    if failures == [] {
      assert [f][1..] == [];
    } else {
      WithHibernationAppends(failures[1..], f, supported);
      assert (failures + [f])[1..] == failures[1..] + [f];
    }
  }

  lemma WithHibernationAppend(failures: seq<Refusal>, f: Refusal)
    ensures WithHibernation(failures + [f], true)
         == WithHibernation(failures, true) + if f.error != UnsupportedHibernation then [f] else []
    ensures FailedInputs(WithHibernation(failures + [f], false))
         == FailedInputs(WithHibernation(failures, false)) + if f.error == UnsupportedHibernation then [f.failedInput] else []
  {
    hide WithHibernation;
    WithHibernationAppends(failures, f, true);
    WithHibernationAppends(failures, f, false);
    FailedConcat(WithHibernation(failures, false), IfSupported(f, false));
    FailedOfOne(f, false, []);
  }

  lemma {:induction false} StartAppend(decisions: seq<Ec2Decision>, d: Ec2Decision)
    ensures NotStarted(decisions + [d]) == NotStarted(decisions) + IfNotStarted(d)
    ensures ToStart(decisions + [d]) == ToStart(decisions) + IfToStart(d)
  {
    hide IfNotStarted, IfToStart;
    if decisions == [] {
      assert [d][1..] == [];
      assert [] + [d] == [d];
    } else {
      StartAppend(decisions[1..], d);
      assert (decisions + [d])[1..] == decisions[1..] + [d];
    }
  }

  lemma NothingToDo(call: Call, n: nat)
    ensures WithDown([], true) == [] && WithDown([], false) == [] && NotStarted([]) == [] && ToStart([]) == []
    ensures WithHibernation([], true) == [] && WithHibernation([], false) == []
    ensures FailedInputs<Ec2Decision, AwsError>([]) == []
    ensures StopResults([], call, n) == [] && StopCalls([], call, n) == 0
  {
  }
}
