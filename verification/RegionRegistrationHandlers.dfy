/**
 The three handlers of the registration protocol as they run when nothing interrupts them: each is a
 run of the protocol's steps, so everything proved about runs holds of their executions.
 */
module RegionRegistrationHandlers {
  import opened RegionRegistration

  lemma {:induction false} RunsConcat(request: Request, s: State, first: seq<Step>, second: seq<Step>)
    requires IsRun(request, s, first) && IsRun(request, After(request, s, first), second)
    ensures IsRun(request, s, first + second)
    ensures After(request, s, first + second) == After(request, After(request, s, first), second)
    decreases first
  {
    if first == [] {
      assert first + second == second;
    } else {
      RunsConcat(request, Apply(request, s, first[0]), first[1..], second);
      assert (first + second)[1..] == first[1..] + second;
    }
  }

  lemma OneMoreStep(request: Request, s: State, steps: seq<Step>, step: Step)
    requires IsRun(request, s, steps) && Enabled(After(request, s, steps), step)
    ensures IsRun(request, s, steps + [step])
    ensures After(request, s, steps + [step]) == Apply(request, After(request, s, steps), step)
  {
    var end := After(request, s, steps);
    assert [step][1..] == [];
    assert IsRun(request, Apply(request, end, step), []);
    RunsConcat(request, s, steps, [step]);
  }

  function MessagesInOrder(regions: seq<string>, operation: Operation): (messages: seq<Message>)
    ensures forall m :: m in messages <==> m.region in regions && m.operation == operation
  {
    if regions == [] then [] else [Message(regions[0], operation)] + MessagesInOrder(regions[1..], operation)
  }

  predicate RemovalsFirst(messages: seq<Message>) {
    forall i, j | 0 <= i < j < |messages| && messages[j].operation == Deregister :: messages[i].operation == Deregister
  }

  /** The parameters, the messages in flight and the registry, changed in place by the handlers. */
  class Deployment {
    const request: Request
    var pending: seq<Message>
    var written: bool
    var params: map<string, ParamState>
    var jobs: seq<Job>
    var registered: set<(string, Service)>
    var complete: bool

    constructor (event: Event, ownRegion: string, params: map<string, ParamState>, registered: set<(string, Service)>)
      ensures this.request == RequestOf(event, ownRegion) && View() == State([], false, params, [], registered, false)
    {
      this.request, this.pending, this.written, this.params := RequestOf(event, ownRegion), [], false, params;
      this.jobs, this.registered, this.complete := [], registered, false;
    }

    function View(): State
      reads this
    {
      State(pending, written, params, jobs, registered, complete)
    }

    method PutParameter(region: string, value: ParamState)
      modifies this`params
      ensures params == old(params)[region := value]
    {
      params := params[region := value];
    }

    /** The messages of the request: of a list, one per region in order; of an update, first those of the removed regions. */
    method Outgoing() returns (messages: seq<Message>)
      ensures forall m :: m in messages <==> m in Messages(request)
      ensures request.CreateRequest? ==> messages == MessagesInOrder(request.regions, Register)
      ensures request.DeleteRequest? ==> messages == MessagesInOrder(request.regions, Deregister)
      ensures request.UpdateRequest? ==> DistinctRegions(messages) && RemovalsFirst(messages)
    {
      match request
      case CreateRequest(regions) => messages := MessagesInOrder(regions, Register);
      case DeleteRequest(regions) => messages := MessagesInOrder(regions, Deregister);
      case UpdateRequest(current, previous) =>
        var removed := OnePerRegion(Regions(previous) - Regions(current), Deregister);
        var added := OnePerRegion(Regions(current) - Regions(previous), Register);
        messages := removed + added;
    }

    /** The regions of a set, in any order. */
    method OnePerRegion(regions: set<string>, operation: Operation) returns (messages: seq<Message>)
      ensures forall m :: m in messages <==> m.region in regions && m.operation == operation
      ensures DistinctRegions(messages)
    {
      messages := [];
      var rest := regions;
      while rest != {}
        invariant rest <= regions
        invariant forall m :: m in messages <==> m.region in regions - rest && m.operation == operation
        invariant DistinctRegions(messages)
        decreases |rest|
      {
        var region :| region in rest;
        rest := rest - {region};
        assert forall m | m in messages :: m.region != region;
        messages := messages + [Message(region, operation)];
      }
    }

    /** The request handler: for each region, first the parameter, then the message. */
    method IssueRequest() returns (ghost start: State, ghost steps: seq<Step>)
      requires pending == [] && !written && jobs == [] && !complete
      modifies this
      ensures start == old(View()).(pending := start.pending) && Initial(request, start)
      ensures !request.UpdateRequest? ==>
                start.pending == MessagesInOrder(request.regions, if request.CreateRequest? then Register else Deregister)
      ensures request.UpdateRequest? ==> DistinctRegions(start.pending) && RemovalsFirst(start.pending)
      ensures IsRun(request, start, steps) && View() == After(request, start, steps)
      ensures pending == [] && !written
    {
      pending := Outgoing();
      start := View();
      steps := [];
      while pending != []
        invariant !written
        invariant IsRun(request, start, steps) && View() == After(request, start, steps)
        decreases |pending|
      {
        hide IsRun, After;
        var message := pending[0];
        OneMoreStep(request, start, steps, Step.PutParameter);
        PutParameter(message.region, FirstState(message.operation));
        written := true;
        steps := steps + [Step.PutParameter];
        OneMoreStep(request, start, steps, Send);
        jobs := jobs + [Job(message, Waiting)];
        pending := pending[1..];
        written := false;
        steps := steps + [Send];
      }
    }

    method SetStatus(i: nat, status: Status)
      requires i < |jobs|
      modifies this`jobs
      ensures jobs == old(jobs)[i := old(jobs)[i].(status := status)]
    {
      jobs := jobs[i := jobs[i].(status := status)];
    }

    /** Reports that the region is being registered and registers its services one by one. */
    method RegisterServices(i: nat, ghost s: State, ghost before: seq<Step>) returns (ghost steps: seq<Step>)
      requires i < |jobs| && jobs[i] == Job(jobs[i].message, Running(0)) && jobs[i].message.operation == Register
      requires IsRun(request, s, before) && View() == After(request, s, before)
      modifies this
      ensures IsRun(request, s, steps) && View() == After(request, s, steps)
      ensures |jobs| == |old(jobs)| && jobs[i] == Job(old(jobs)[i].message, Running(LastStage(Register)))
    {
      hide IsRun, After;
      var m := jobs[i].message;
      OneMoreStep(request, s, before, Advance(i));
      PutParameter(m.region, Registering);
      SetStatus(i, Running(1));
      steps := before + [Advance(i)];
      for k := 0 to 3
        invariant |jobs| == |old(jobs)| && jobs[i] == Job(m, Running(k + 1))
        invariant IsRun(request, s, steps) && View() == After(request, s, steps)
      {
        OneMoreStep(request, s, steps, Advance(i));
        registered := registered + {(m.region, SERVICES[k])};
        SetStatus(i, Running(k + 2));
        steps := steps + [Advance(i)];
      }
    }

    method DeregisterServices(i: nat, ghost s: State, ghost before: seq<Step>) returns (ghost steps: seq<Step>)
      requires i < |jobs| && jobs[i] == Job(jobs[i].message, Running(0)) && jobs[i].message.operation == Deregister
      requires IsRun(request, s, before) && View() == After(request, s, before)
      modifies this
      ensures IsRun(request, s, steps) && View() == After(request, s, steps)
      ensures |jobs| == |old(jobs)| && jobs[i] == Job(old(jobs)[i].message, Running(LastStage(Deregister)))
    {
      hide IsRun, After;
      var m := jobs[i].message;
      steps := before;
      for k := 0 to 3
        invariant |jobs| == |old(jobs)| && jobs[i] == Job(m, Running(k))
        invariant IsRun(request, s, steps) && View() == After(request, s, steps)
      {
        OneMoreStep(request, s, steps, Advance(i));
        registered := registered - {(m.region, SERVICES[k])};
        SetStatus(i, Running(k + 1));
        steps := steps + [Advance(i)];
      }
    }

    /** The spoke function for one message: report, work through the services, report again. */
    method HandleMessage(i: nat) returns (ghost steps: seq<Step>)
      requires i < |jobs| && jobs[i].status == Waiting
      modifies this
      ensures IsRun(request, old(View()), steps) && View() == After(request, old(View()), steps)
      ensures |jobs| == |old(jobs)| && jobs[i] == old(jobs)[i].(status := Finished)
      ensures var m := jobs[i].message; m.region in params && params[m.region] == Target(m.operation)
    {
      ghost var s := View();
      var m := jobs[i].message;
      steps := [Receive(i)];
      SetStatus(i, Running(0));
      OneMoreStep(request, s, [], Receive(i));
      assert [] + [Receive(i)] == steps;
      hide IsRun, After;
      if m.operation == Register {
        steps := RegisterServices(i, s, steps);
      } else {
        steps := DeregisterServices(i, s, steps);
      }
      OneMoreStep(request, s, steps, Advance(i));
      PutParameter(m.region, Target(m.operation));
      SetStatus(i, Finished);
      steps := steps + [Advance(i)];
    }

    /** The poll: looks at the parameters one by one, gives up at the first that is not there yet, else clears them. */
    method PollIsComplete() returns (isComplete: bool, ghost steps: seq<Step>)
      requires pending == [] && !complete
      modifies this
      ensures IsRun(request, old(View()), steps) && View() == After(request, old(View()), steps)
      ensures isComplete == complete == PollCompletes(request, old(params))
    {
      ghost var s := View();
      steps := [Poll];
      OneMoreStep(request, s, [], Poll);
      assert [] + [Poll] == steps;
      hide IsRun, After;
      var rest := params.Keys;
      while rest != {}
        invariant rest <= params.Keys && View() == s
        invariant forall region | region in params && region !in rest :: PollAccepts(request, region, params[region])
      {
        var region :| region in rest;
        rest := rest - {region};
        if !PollAccepts(request, region, params[region]) {
          return false, steps;
        }
      }
      rest := if request.DeleteRequest? then Regions(request.regions) else params.Keys;
      ghost var all := rest;
      while rest != {}
        invariant rest <= all && params == s.params - (all - rest)
        invariant View() == s.(params := params)
      {
        var region :| region in rest;
        rest := rest - {region};
        params := params - {region};
      }
      complete := true;
      assert params == Cleared(request, s.params);
      return true, steps;
    }
  }
}
