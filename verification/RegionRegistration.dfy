/**
 The registration protocol between a region-registration custom resource, the spoke registration
 function that works asynchronously, and the completion poll.

 A request writes a parameter and sends a message per region; each message becomes a job of the spoke
 function, which reports through the parameter; the poll reads the parameters.  Steps of the request,
 of all jobs and of the poll interleave in any order, jobs can crash at any point, and messages can be
 delivered more than once.
 */
module RegionRegistration {
  datatype ParamState = Created | Registering | Managed | Deleting | Deleted | OtherState

  datatype Operation = Register | Deregister

  datatype Message = Message(region: string, operation: Operation)

  datatype Request =
    | CreateRequest(regions: seq<string>)
    | UpdateRequest(current: seq<string>, previous: seq<string>)
    | DeleteRequest(regions: seq<string>)

  /** The custom resource's event, with the regions of its properties (and, for an update, of its old ones). */
  datatype Event =
    | CreateEvent(regions: seq<string>)
    | UpdateEvent(regions: seq<string>, oldRegions: seq<string>)
    | DeleteEvent(regions: seq<string>)

  /** The regions of a property: a lone empty string means none, and none means the function's own region. */
  function RegionsOf(regions: seq<string>, ownRegion: string): (r: seq<string>)
    ensures r != []
  {
    if regions == [] || regions == [""] then [ownRegion] else regions
  }

  /** The request that an event makes of the function in `ownRegion`. */
  function RequestOf(event: Event, ownRegion: string): Request {
    match event
    case CreateEvent(regions) => CreateRequest(RegionsOf(regions, ownRegion))
    case UpdateEvent(regions, oldRegions) => UpdateRequest(RegionsOf(regions, ownRegion), RegionsOf(oldRegions, ownRegion))
    case DeleteEvent(regions) => DeleteRequest(RegionsOf(regions, ownRegion))
  }

  function Regions(regions: seq<string>): set<string> {
    set r | r in regions
  }

  /** The messages of a request; an update leaves the regions it keeps alone. */
  function Messages(request: Request): set<Message> {
    match request
    case CreateRequest(regions) => set r | r in regions :: Message(r, Register)
    case DeleteRequest(regions) => set r | r in regions :: Message(r, Deregister)
    case UpdateRequest(current, previous) =>
      (set r | r in previous && r !in current :: Message(r, Deregister))
      + (set r | r in current && r !in previous :: Message(r, Register))
  }

  /** The state a region's parameter has to reach. */
  function Target(operation: Operation): ParamState {
    if operation == Register then Managed else Deleted
  }

  function FirstState(operation: Operation): ParamState {
    if operation == Register then Created else Deleting
  }

  /** Leaving the regions out asks for the function's own region, and naming it instead asks for nothing new. */
  lemma NoRegionsMeansOwnRegion(ownRegion: string, none: seq<string>)
    requires none == [] || none == [""]
    ensures Messages(RequestOf(CreateEvent(none), ownRegion)) == {Message(ownRegion, Register)}
    ensures Messages(RequestOf(DeleteEvent(none), ownRegion)) == {Message(ownRegion, Deregister)}
    ensures Messages(RequestOf(UpdateEvent(none, [ownRegion]), ownRegion)) == {}
    ensures Messages(RequestOf(UpdateEvent([ownRegion], none), ownRegion)) == {}
  {
    assert RegionsOf(none, ownRegion) == [ownRegion] == RegionsOf([ownRegion], ownRegion);
  }

  /* ---------- states and steps ---------- */

  datatype Status = Waiting | Running(stage: nat) | Finished | Crashed

  datatype Job = Job(message: Message, status: Status)

  datatype Service = Ec2 | Rds | AutoScaling

  const SERVICES := [Ec2, Rds, AutoScaling]

  /** `written` tells whether the parameter of the next message to send has been put. */
  datatype State = State(
    pending: seq<Message>, written: bool, params: map<string, ParamState>, jobs: seq<Job>,
    registered: set<(string, Service)>, complete: bool)

  datatype Step = PutParameter | Send | Receive(job: nat) | Advance(job: nat) | Crash(job: nat) | Redeliver(job: nat) | Poll

  /** The number of stages of a job before its last status write. */
  function LastStage(operation: Operation): nat {
    if operation == Register then 4 else 3
  }

  predicate Enabled(s: State, step: Step) {
    match step
    case PutParameter => s.pending != [] && !s.written
    case Send => s.pending != [] && s.written
    case Receive(i) => i < |s.jobs| && s.jobs[i].status == Waiting
    case Advance(i) =>
      i < |s.jobs| && s.jobs[i].status.Running? && s.jobs[i].status.stage <= LastStage(s.jobs[i].message.operation)
    case Crash(i) => i < |s.jobs| && s.jobs[i].status.Running?
    case Redeliver(i) => i < |s.jobs|
    case Poll => s.pending == [] && !s.complete
  }

  function WithStatus(s: State, i: nat, status: Status): State
    requires i < |s.jobs|
  {
    s.(jobs := s.jobs[i := s.jobs[i].(status := status)])
  }

  /**
   One action of a job.  Registering writes its status, registers the three services and reports;
   deregistering removes them and reports.
   */
  function AdvanceJob(s: State, i: nat): State
    requires Enabled(s, Advance(i))
  {
    var region, stage := s.jobs[i].message.region, s.jobs[i].status.stage;
    match s.jobs[i].message.operation
    case Register =>
      if stage == 0 then WithStatus(s, i, Running(1)).(params := s.params[region := Registering])
      else if stage == 4 then WithStatus(s, i, Finished).(params := s.params[region := Managed])
      else WithStatus(s, i, Running(stage + 1)).(registered := s.registered + {(region, SERVICES[stage - 1])})
    case Deregister =>
      if stage == 3 then WithStatus(s, i, Finished).(params := s.params[region := Deleted])
      else WithStatus(s, i, Running(stage + 1)).(registered := s.registered - {(region, SERVICES[stage])})
  }

  /** What the poll of a request demands of one parameter. */
  predicate PollAccepts(request: Request, region: string, value: ParamState) {
    match request
    case CreateRequest(_) => value == Managed
    case DeleteRequest(_) => value == Deleted
    case UpdateRequest(current, previous) =>
      if region in previous && region !in current then value == Deleted
      else region in current && value == Managed
  }

  predicate PollCompletes(request: Request, params: map<string, ParamState>) {
    forall region | region in params :: PollAccepts(request, region, params[region])
  }

  /** On success the poll clears the parameters; a delete request only clears those of its regions. */
  function Cleared(request: Request, params: map<string, ParamState>): map<string, ParamState> {
    match request
    case DeleteRequest(regions) => params - Regions(regions)
    case _ => map[]
  }

  function Apply(request: Request, s: State, step: Step): State
    requires Enabled(s, step)
  {
    match step
    case PutParameter =>
      s.(params := s.params[s.pending[0].region := FirstState(s.pending[0].operation)], written := true)
    case Send => s.(jobs := s.jobs + [Job(s.pending[0], Waiting)], pending := s.pending[1..], written := false)
    case Receive(i) => WithStatus(s, i, Running(0))
    case Advance(i) => AdvanceJob(s, i)
    case Crash(i) => WithStatus(s, i, Crashed)
    case Redeliver(i) => s.(jobs := s.jobs + [Job(s.jobs[i].message, Waiting)])
    case Poll =>
      if PollCompletes(request, s.params) then s.(complete := true, params := Cleared(request, s.params)) else s
  }

  /** A request starts with nothing of it done; parameters of earlier requests may be left over. */
  ghost predicate Initial(request: Request, s: State) {
    && (forall m :: m in s.pending <==> m in Messages(request))
    && !s.written && s.jobs == [] && !s.complete
  }

  ghost predicate IsRun(request: Request, s: State, steps: seq<Step>)
    decreases steps
  {
    steps == [] || (Enabled(s, steps[0]) && IsRun(request, Apply(request, s, steps[0]), steps[1..]))
  }

  function After(request: Request, s: State, steps: seq<Step>): State
    requires IsRun(request, s, steps)
    decreases steps
  {
    if steps == [] then s else After(request, Apply(request, s, steps[0]), steps[1..])
  }

  /* ---------- safety, with crashes and redelivery ---------- */

  /** The region's parameter has been put by this request. */
  predicate IsPut(request: Request, s: State, m: Message) {
    m in Messages(request) && (m !in s.pending || (s.written && s.pending[0] == m) || exists job | job in s.jobs :: job.message == m)
  }

  predicate IsRegistered(s: State, region: string, service: Service) {
    (region, service) in s.registered
  }

  /** The first `count` services of the region are registered (or, deregistering, gone). */
  predicate Progress(s: State, m: Message, count: nat)
    requires count <= 3
  {
    forall k | 0 <= k < count :: IsRegistered(s, m.region, SERVICES[k]) <==> m.operation == Register
  }

  function ServicesDone(m: Message, stage: nat): nat {
    if m.operation == Deregister then (if stage <= 3 then stage else 3)
    else if stage == 0 then 0 else if stage <= 4 then stage - 1 else 3
  }

  predicate IsDone(s: State, m: Message) {
    Progress(s, m, 3)
  }

  ghost predicate Safe(request: Request, s: State) {
    && (forall m | m in s.pending :: m in Messages(request))
    && (s.written ==> s.pending != [])
    && (forall job | job in s.jobs :: job.message in Messages(request))
    && (forall job | job in s.jobs && job.status.Running? :: Progress(s, job.message, ServicesDone(job.message, job.status.stage)))
    && (forall m | IsPut(request, s, m) :: ParamIsHonest(s, m))
    && (s.complete ==> s.pending == [] && forall m | m in Messages(request) :: IsDone(s, m))
  }

  /** A put parameter is there until the poll clears it, and says done only when the work is done. */
  predicate ParamIsHonest(s: State, m: Message) {
    && (m.region !in s.params ==> s.complete)
    && (m.region in s.params && s.params[m.region] == Target(m.operation) ==> IsDone(s, m))
  }

  lemma OneOperationPerRegion(request: Request, m: Message, n: Message)
    requires m in Messages(request) && n in Messages(request) && m.region == n.region
    ensures m == n
  {
  }

  lemma InitiallySafe(request: Request, s: State)
    requires Initial(request, s)
    ensures Safe(request, s)
  {
  }

  /** Registering and deregistering never undo each other, since a region has one operation only. */
  lemma WorkKeepsProgress(request: Request, s: State, m: Message, service: Service, n: Message, count: nat)
    requires m in Messages(request) && n in Messages(request) && count <= 3 && Progress(s, n, count)
    ensures var registered := if m.operation == Register then s.registered + {(m.region, service)}
                              else s.registered - {(m.region, service)};
            Progress(s.(registered := registered), n, count)
  {
    if m.region == n.region {
      OneOperationPerRegion(request, m, n);
    }
  }

  lemma PutIsSafe(request: Request, s: State)
    requires Safe(request, s) && Enabled(s, PutParameter)
    ensures Safe(request, Apply(request, s, PutParameter))
  {
    var next, head := Apply(request, s, PutParameter), s.pending[0];
    forall m | IsPut(request, next, m) ensures ParamIsHonest(next, m) {
      if m.region == head.region {
        OneOperationPerRegion(request, m, head);
      } else {
        assert IsPut(request, s, m);
      }
    }
  }

  lemma SendIsSafe(request: Request, s: State)
    requires Safe(request, s) && Enabled(s, Send)
    ensures Safe(request, Apply(request, s, Send))
  {
    var next := Apply(request, s, Send);
    assert s.pending == [s.pending[0]] + next.pending;
    forall m | IsPut(request, next, m) ensures ParamIsHonest(next, m) {
      assert IsPut(request, s, m);
    }
  }

  lemma JobMessagesKept(s: State, i: nat, status: Status, m: Message)
    requires i < |s.jobs|
    ensures (exists job | job in WithStatus(s, i, status).jobs :: job.message == m)
       <==> exists job | job in s.jobs :: job.message == m
  {
    var next := WithStatus(s, i, status);
    if job :| job in s.jobs && job.message == m {
      var k :| 0 <= k < |s.jobs| && s.jobs[k] == job;
      assert next.jobs[k] in next.jobs && next.jobs[k].message == m;
    }
    if job :| job in next.jobs && job.message == m {
      var k :| 0 <= k < |next.jobs| && next.jobs[k] == job;
      assert s.jobs[k] in s.jobs && s.jobs[k].message == m;
    }
  }

  /** Changing one job's status, to one that does not promise more work than is done, is safe. */
  lemma StatusIsSafe(request: Request, s: State, i: nat, status: Status)
    requires Safe(request, s) && i < |s.jobs|
    requires status.Running? ==> Progress(s, s.jobs[i].message, ServicesDone(s.jobs[i].message, status.stage))
    ensures Safe(request, WithStatus(s, i, status))
  {
    var next := WithStatus(s, i, status);
    forall m ensures IsPut(request, next, m) <==> IsPut(request, s, m) {
      JobMessagesKept(s, i, status, m);
    }
    forall job | job in next.jobs ensures job.message in Messages(request)
      && (job.status.Running? ==> Progress(next, job.message, ServicesDone(job.message, job.status.stage)))
    {
      var k :| 0 <= k < |next.jobs| && next.jobs[k] == job;
      assert s.jobs[k] in s.jobs;
    }
    forall m | IsPut(request, next, m) ensures ParamIsHonest(next, m) {
      assert ParamIsHonest(s, m);
    }
  }

  /** Writing a region's parameter is safe unless it says done too early. */
  lemma ReportIsSafe(request: Request, s: State, m: Message, value: ParamState)
    requires Safe(request, s) && m in Messages(request)
    requires value == Target(m.operation) ==> IsDone(s, m)
    ensures Safe(request, s.(params := s.params[m.region := value]))
  {
    var next := s.(params := s.params[m.region := value]);
    forall n | IsPut(request, next, n) ensures ParamIsHonest(next, n) {
      assert IsPut(request, s, n);
      if n.region == m.region {
        OneOperationPerRegion(request, m, n);
      }
    }
  }

  lemma WorkIsSafe(request: Request, s: State, m: Message, service: Service)
    requires Safe(request, s) && m in Messages(request)
    ensures var registered := if m.operation == Register then s.registered + {(m.region, service)}
                              else s.registered - {(m.region, service)};
            Safe(request, s.(registered := registered))
  {
    var registered := if m.operation == Register then s.registered + {(m.region, service)}
                      else s.registered - {(m.region, service)};
    var next := s.(registered := registered);
    forall n | IsPut(request, next, n) ensures ParamIsHonest(next, n) {
      assert IsPut(request, s, n) && ParamIsHonest(s, n);
      if IsDone(s, n) {
        WorkKeepsProgress(request, s, m, service, n, 3);
      }
    }
    forall job | job in next.jobs && job.status.Running?
      ensures Progress(next, job.message, ServicesDone(job.message, job.status.stage))
    {
      WorkKeepsProgress(request, s, m, service, job.message, ServicesDone(job.message, job.status.stage));
    }
    if s.complete {
      forall n | n in Messages(request) ensures IsDone(next, n) {
        WorkKeepsProgress(request, s, m, service, n, 3);
      }
    }
  }

  lemma JobIsSafe(request: Request, s: State, i: nat)
    requires Safe(request, s) && i < |s.jobs|
    ensures s.jobs[i].message in Messages(request)
    ensures s.jobs[i].status.Running? ==>
              Progress(s, s.jobs[i].message, ServicesDone(s.jobs[i].message, s.jobs[i].status.stage))
  {
    assert s.jobs[i] in s.jobs;
  }

  lemma AdvanceIsSafe(request: Request, s: State, i: nat)
    requires Safe(request, s) && Enabled(s, Advance(i))
    ensures Safe(request, Apply(request, s, Advance(i)))
  {
    hide Safe;
    var job := s.jobs[i];
    var m, stage := job.message, job.status.stage;
    JobIsSafe(request, s, i);
    if stage == LastStage(m.operation) {
      StatusIsSafe(request, s, i, Finished);
      ReportIsSafe(request, WithStatus(s, i, Finished), m, Target(m.operation));
    } else if m.operation == Register && stage == 0 {
      StatusIsSafe(request, s, i, Running(1));
      ReportIsSafe(request, WithStatus(s, i, Running(1)), m, Registering);
    } else {
      var service := SERVICES[if m.operation == Register then stage - 1 else stage];
      var registered := if m.operation == Register then s.registered + {(m.region, service)}
                        else s.registered - {(m.region, service)};
      var worked := s.(registered := registered);
      WorkIsSafe(request, s, m, service);
      WorkKeepsProgress(request, s, m, service, m, ServicesDone(m, stage));
      StatusIsSafe(request, worked, i, Running(stage + 1));
    }
  }

  lemma PollIsSafe(request: Request, s: State)
    requires Safe(request, s) && Enabled(s, Poll)
    ensures Safe(request, Apply(request, s, Poll))
  {
    if PollCompletes(request, s.params) {
      forall m | m in Messages(request) ensures IsDone(s, m) {
        assert IsPut(request, s, m) && ParamIsHonest(s, m);
        assert PollAccepts(request, m.region, s.params[m.region]);
      }
      var next := Apply(request, s, Poll);
      forall m | IsPut(request, next, m) ensures ParamIsHonest(next, m) {
        assert IsDone(s, m);
      }
    }
  }

  lemma StepIsSafe(request: Request, s: State, step: Step)
    requires Safe(request, s) && Enabled(s, step)
    ensures Safe(request, Apply(request, s, step))
  {
    hide Safe, AdvanceJob;
    match step
    case PutParameter => PutIsSafe(request, s);
    case Send => SendIsSafe(request, s);
    case Receive(i) => NoWorkYet(s, i); StatusIsSafe(request, s, i, Running(0));
    case Advance(i) => AdvanceIsSafe(request, s, i);
    case Crash(i) => StatusIsSafe(request, s, i, Crashed);
    case Redeliver(i) => RedeliverIsSafe(request, s, i);
    case Poll => PollIsSafe(request, s);
  }

  lemma NoWorkYet(s: State, i: nat)
    requires i < |s.jobs|
    ensures Progress(s, s.jobs[i].message, ServicesDone(s.jobs[i].message, 0))
  {
  }

  lemma RedeliverIsSafe(request: Request, s: State, i: nat)
    requires Safe(request, s) && i < |s.jobs|
    ensures Safe(request, Apply(request, s, Redeliver(i)))
  {
    var next := Apply(request, s, Redeliver(i));
    assert s.jobs[i] in s.jobs;
    forall m | IsPut(request, next, m) ensures ParamIsHonest(next, m) {
      assert IsPut(request, s, m);
    }
  }

  lemma {:induction false} RunIsSafe(request: Request, s: State, steps: seq<Step>)
    requires Safe(request, s) && IsRun(request, s, steps)
    ensures Safe(request, After(request, s, steps))
    decreases steps
  {
    if steps != [] {
      StepIsSafe(request, s, steps[0]);
      RunIsSafe(request, Apply(request, s, steps[0]), steps[1..]);
    }
  }

  /**
   In every run, whatever the interleaving, crashes, redelivered messages and left-over parameters: once
   the poll has reported complete, every region the request registers has all its services registered
   and every region it deregisters has none.
   */
  lemma CompleteMeansDone(request: Request, s: State, steps: seq<Step>, m: Message)
    requires Initial(request, s) && IsRun(request, s, steps)
    requires After(request, s, steps).complete && m in Messages(request)
    ensures forall service ::
              (m.region, service) in After(request, s, steps).registered <==> m.operation == Register
  {
    InitiallySafe(request, s);
    RunIsSafe(request, s, steps);
    var end := After(request, s, steps);
    assert IsDone(end, m);
    forall service ensures (m.region, service) in end.registered <==> m.operation == Register {
      var k := match service case Ec2 => 0 case Rds => 1 case AutoScaling => 2;
      assert SERVICES[k] == service && IsRegistered(end, m.region, SERVICES[k]) <==> m.operation == Register;
    }
  }

  /* ---------- nothing outstanding, with once-only delivery ---------- */

  predicate DistinctRegions(messages: seq<Message>) {
    forall i, j | 0 <= i < j < |messages| :: messages[i].region != messages[j].region
  }

  predicate Outstanding(job: Job) {
    job.status != Finished
  }

  /** The parameter of a job's region is at its target exactly when the job has finished. */
  predicate ParamTracks(s: State, job: Job) {
    job.message.region in s.params && Tells(s.params[job.message.region], job)
  }

  /** Is this the parameter of a job's region, by how far the job has come? */
  predicate Tells(value: ParamState, job: Job) {
    match (job.message.operation, job.status)
    case (Register, Waiting) => value == Created
    case (Register, Running(stage)) => value == if stage == 0 then Created else Registering
    case (Register, Crashed) => value == Created || value == Registering
    case (Register, Finished) => value == Managed
    case (Deregister, Finished) => value == Deleted
    case (Deregister, _) => value == Deleting
  }

  /** Every message is on its way at most once, and its parameter tells whether it has been dealt with. */
  ghost predicate Tracked(request: Request, s: State) {
    && Safe(request, s)
    && DistinctRegions(s.pending)
    && (forall i, j | 0 <= i < j < |s.jobs| :: s.jobs[i].message.region != s.jobs[j].message.region)
    && (forall job, m | job in s.jobs && m in s.pending :: job.message.region != m.region)
    && (forall job | job in s.jobs :: if s.complete then !Outstanding(job) else ParamTracks(s, job))
    && (s.complete ==> forall m | m in Messages(request) :: m.region !in s.params)
    && (s.written ==> s.pending[0].region in s.params
                      && s.params[s.pending[0].region] == FirstState(s.pending[0].operation))
    && (forall m | m in Messages(request) :: m in s.pending || exists job | job in s.jobs :: job.message == m)
  }

  predicate OnceOnly(steps: seq<Step>) {
    forall step | step in steps :: !step.Redeliver?
  }

  lemma TrackedPut(request: Request, s: State)
    requires Tracked(request, s) && Enabled(s, PutParameter) && !s.complete
    ensures Tracked(request, Apply(request, s, PutParameter))
  {
    PutIsSafe(request, s);
    assert s.pending[0] in s.pending;
    var next := Apply(request, s, PutParameter);
    forall job | job in next.jobs ensures ParamTracks(next, job) {
      assert ParamTracks(s, job);
    }
  }

  lemma TrackedSend(request: Request, s: State)
    requires Tracked(request, s) && Enabled(s, Send) && !s.complete
    ensures Tracked(request, Apply(request, s, Send))
  {
    SendIsSafe(request, s);
    hide Safe;
    var next, head := Apply(request, s, Send), s.pending[0];
    SplitPending(s.pending);
    assert head in s.pending;
    assert ParamTracks(next, Job(head, Waiting));
    forall job | job in next.jobs ensures ParamTracks(next, job) {
      if job in s.jobs {
        assert ParamTracks(s, job);
      }
    }
    hide ParamTracks, DistinctRegions;
    forall i | 0 <= i < |s.jobs| ensures s.jobs[i].message.region != head.region {
      assert s.jobs[i] in s.jobs;
    }
    forall m | m in Messages(request) ensures m in next.pending || exists job | job in next.jobs :: job.message == m {
      if m == head {
        assert next.jobs[|s.jobs|] in next.jobs;
      } else if job :| job in s.jobs && job.message == m {
        assert job in next.jobs;
      }
    }
  }

  lemma SplitPending(pending: seq<Message>)
    requires pending != [] && DistinctRegions(pending)
    ensures DistinctRegions(pending[1..])
    ensures forall m :: m in pending <==> m == pending[0] || m in pending[1..]
    ensures forall m | m in pending[1..] :: m.region != pending[0].region
  {
    assert pending == [pending[0]] + pending[1..];
  }

  /** Only the status of job `i` and the parameter of its region may differ. */
  predicate TouchesOnly(s: State, i: nat, next: State)
    requires i < |s.jobs|
  {
    && |next.jobs| == |s.jobs| && next.jobs == s.jobs[i := s.jobs[i].(status := next.jobs[i].status)]
    && next.pending == s.pending && next.written == s.written && next.complete == s.complete
    && next.params.Keys >= s.params.Keys
    && forall region | region in s.params && region != s.jobs[i].message.region :: next.params[region] == s.params[region]
  }

  lemma OtherJobsTrack(s: State, i: nat, next: State, k: nat)
    requires i < |s.jobs| && k < |s.jobs| && TouchesOnly(s, i, next) && ParamTracks(next, next.jobs[i])
    requires i != k ==> ParamTracks(s, s.jobs[k]) && s.jobs[k].message.region != s.jobs[i].message.region
    ensures ParamTracks(next, next.jobs[k]) && next.jobs[k].message == s.jobs[k].message
  {
  }

  /** A step of job `i` that leaves its parameter in line with its status. */
  lemma TrackedJob(request: Request, s: State, i: nat, next: State)
    requires Tracked(request, s) && i < |s.jobs| && !s.complete && Safe(request, next)
    requires TouchesOnly(s, i, next) && ParamTracks(next, next.jobs[i])
    ensures Tracked(request, next)
  {
    if s.written {
      assert s.pending[0] in s.pending;
    }
    hide Safe, ParamTracks, Messages;
    assert s.jobs[i] in s.jobs;
    forall job | job in next.jobs ensures ParamTracks(next, job) && exists was | was in s.jobs :: was.message == job.message {
      var k :| 0 <= k < |next.jobs| && next.jobs[k] == job;
      assert s.jobs[k] in s.jobs;
      OtherJobsTrack(s, i, next, k);
    }
    assert WithStatus(s, i, next.jobs[i].status).jobs == next.jobs;
    forall m | m in Messages(request) ensures m in next.pending || exists job | job in next.jobs :: job.message == m {
      JobMessagesKept(s, i, next.jobs[i].status, m);
    }
  }

  lemma TrackedJobStep(request: Request, s: State, step: Step, i: nat)
    requires Tracked(request, s) && Enabled(s, step) && !s.complete
    requires step == Receive(i) || step == Advance(i) || step == Crash(i)
    ensures Tracked(request, Apply(request, s, step))
  {
    StepIsSafe(request, s, step);
    hide Safe;
    assert s.jobs[i] in s.jobs && ParamTracks(s, s.jobs[i]);
    TrackedJob(request, s, i, Apply(request, s, step));
  }

  lemma TrackedPoll(request: Request, s: State)
    requires Tracked(request, s) && Enabled(s, Poll)
    ensures Tracked(request, Apply(request, s, Poll))
  {
    PollIsSafe(request, s);
    if PollCompletes(request, s.params) {
      forall job | job in s.jobs ensures !Outstanding(job) {
        assert ParamTracks(s, job) && PollAccepts(request, job.message.region, s.params[job.message.region]);
      }
    }
  }

  lemma TrackedStep(request: Request, s: State, step: Step)
    requires Tracked(request, s) && Enabled(s, step) && !step.Redeliver?
    ensures Tracked(request, Apply(request, s, step))
  {
    if s.complete {
      forall i | 0 <= i < |s.jobs| ensures s.jobs[i].status == Finished {
        assert s.jobs[i] in s.jobs;
      }
      assert false;
    }
    hide Tracked, Apply;
    match step
    case PutParameter => TrackedPut(request, s);
    case Send => TrackedSend(request, s);
    case Receive(i) => TrackedJobStep(request, s, step, i);
    case Advance(i) => TrackedJobStep(request, s, step, i);
    case Crash(i) => TrackedJobStep(request, s, step, i);
    case Poll => TrackedPoll(request, s);
  }

  lemma {:induction false} TrackedRun(request: Request, s: State, steps: seq<Step>)
    requires Tracked(request, s) && IsRun(request, s, steps) && OnceOnly(steps)
    ensures Tracked(request, After(request, s, steps))
    decreases steps
  {
    if steps != [] {
      hide Tracked;
      TrackedStep(request, s, steps[0]);
      TrackedRun(request, Apply(request, s, steps[0]), steps[1..]);
    }
  }

  /**
   With once-only delivery of distinct regions, a request that has reported complete has left nothing
   behind: every job has finished, none has crashed, and no parameter of its regions remains.
   */
  lemma CompleteMeansQuiet(request: Request, s: State, steps: seq<Step>)
    requires Initial(request, s) && DistinctRegions(s.pending) && IsRun(request, s, steps) && OnceOnly(steps)
    requires After(request, s, steps).complete
    ensures var end := After(request, s, steps);
            && end.pending == []
            && (forall job | job in end.jobs :: job.status == Finished)
            && (forall m | m in Messages(request) :: m.region !in end.params)
  {
    InitiallySafe(request, s);
    TrackedRun(request, s, steps);
  }

  /**
   With once-only delivery of distinct regions, until the request is complete every job's parameter says
   how far it has come: created, then being registered, then managed; or being deleted, then deleted.
   */
  lemma ParametersTellProgress(request: Request, s: State, steps: seq<Step>, job: Job)
    requires Initial(request, s) && DistinctRegions(s.pending) && IsRun(request, s, steps) && OnceOnly(steps)
    requires var end := After(request, s, steps); !end.complete && job in end.jobs
    ensures var end := After(request, s, steps);
            job.message.region in end.params && Tells(end.params[job.message.region], job)
  {
    InitiallySafe(request, s);
    TrackedRun(request, s, steps);
  }

  /* ---------- when the poll completes ---------- */

  predicate Named(request: Request, region: string) {
    exists m | m in Messages(request) :: m.region == region
  }

  /** The parameters of regions that the request does not name are the same. */
  predicate SameLeftovers(request: Request, before: map<string, ParamState>, after: map<string, ParamState>) {
    (forall region | region in before && !Named(request, region) :: region in after && after[region] == before[region])
    && (forall region | region in after && !Named(request, region) :: region in before)
  }

  /** Until a request is complete it leaves the parameters of other regions alone; once complete it stays so. */
  lemma LeftoversStayInStep(request: Request, s: State, step: Step)
    requires Safe(request, s) && Enabled(s, step)
    ensures var next := Apply(request, s, step); next.complete || SameLeftovers(request, s.params, next.params)
    ensures s.complete ==> Apply(request, s, step).complete
  {
    match step
    case PutParameter =>
      assert s.pending[0] in s.pending;
      PutIsNamed(request, s.params, s.pending[0], FirstState(s.pending[0].operation));
    case Advance(i) =>
      assert s.jobs[i] in s.jobs;
      var value := AdvanceWrites(s, i);
      hide Safe, AdvanceJob;
      PutIsNamed(request, s.params, s.jobs[i].message, value);
    case _ =>
  }

  lemma PutIsNamed(request: Request, params: map<string, ParamState>, m: Message, value: ParamState)
    requires m in Messages(request)
    ensures SameLeftovers(request, params, params) && SameLeftovers(request, params, params[m.region := value])
  {
    hide Messages;
    assert Named(request, m.region);
  }

  /** A job writes no parameter but that of its own region. */
  lemma AdvanceWrites(s: State, i: nat) returns (value: ParamState)
    requires Enabled(s, Advance(i))
    ensures var next := AdvanceJob(s, i);
            next.complete == s.complete && next.params in {s.params, s.params[s.jobs[i].message.region := value]}
  {
    var Job(m, status) := s.jobs[i];
    value := if status.stage == LastStage(m.operation) then Target(m.operation) else Registering;
  }

  lemma {:induction false} LeftoversStay(request: Request, s: State, steps: seq<Step>)
    requires Safe(request, s) && IsRun(request, s, steps)
    ensures var end := After(request, s, steps); end.complete || SameLeftovers(request, s.params, end.params)
    ensures s.complete ==> After(request, s, steps).complete
    decreases steps
  {
    if steps != [] {
      hide Safe, Apply, Enabled, Named;
      StepIsSafe(request, s, steps[0]);
      LeftoversStayInStep(request, s, steps[0]);
      LeftoversStay(request, Apply(request, s, steps[0]), steps[1..]);
    }
  }

  /** Does the poll accept the parameters that were left over before the request? */
  predicate LeftoversAccepted(request: Request, params: map<string, ParamState>) {
    forall region | region in params && !Named(request, region) :: PollAccepts(request, region, params[region])
  }

  /**
   With once-only delivery of distinct regions, a poll reports complete exactly when every job of the
   request has finished and the poll accepts every parameter that was left over before the request.
   */
  lemma PollCompletesExactly(request: Request, s: State, steps: seq<Step>)
    requires Initial(request, s) && DistinctRegions(s.pending) && IsRun(request, s, steps) && OnceOnly(steps)
    requires Enabled(After(request, s, steps), Poll)
    ensures var end := After(request, s, steps);
            PollCompletes(request, end.params) <==>
            (forall job | job in end.jobs :: job.status == Finished) && LeftoversAccepted(request, s.params)
  {
    InitiallySafe(request, s);
    hide Safe, Tracked, SameLeftovers;
    InitiallyTracked(request, s);
    TrackedRun(request, s, steps);
    LeftoversStay(request, s, steps);
    PollDecides(request, s.params, After(request, s, steps));
  }

  lemma InitiallyTracked(request: Request, s: State)
    requires Initial(request, s) && DistinctRegions(s.pending) && Safe(request, s)
    ensures Tracked(request, s)
  {
  }

  lemma PollDecides(request: Request, before: map<string, ParamState>, end: State)
    requires Tracked(request, end) && Enabled(end, Poll) && SameLeftovers(request, before, end.params)
    ensures PollCompletes(request, end.params) <==>
            (forall job | job in end.jobs :: job.status == Finished) && LeftoversAccepted(request, before)
  {
    if PollCompletes(request, end.params) {
      forall job | job in end.jobs ensures job.status == Finished {
        AcceptedMeansFinished(request, end, job);
      }
      forall region | region in before && !Named(request, region) ensures PollAccepts(request, region, before[region]) {
        assert PollAccepts(request, region, end.params[region]);
      }
    } else {
      var region :| region in end.params && !PollAccepts(request, region, end.params[region]);
      if Named(request, region) {
        var m :| m in Messages(request) && m.region == region;
        RefusedMeansUnfinished(request, end, m);
      }
    }
  }

  lemma AcceptedMeansFinished(request: Request, end: State, job: Job)
    requires Tracked(request, end) && Enabled(end, Poll) && PollCompletes(request, end.params) && job in end.jobs
    ensures job.status == Finished
  {
    assert job.message in Messages(request) && ParamTracks(end, job);
    hide Tracked, Safe;
    assert PollAccepts(request, job.message.region, end.params[job.message.region]);
  }

  lemma RefusedMeansUnfinished(request: Request, end: State, m: Message)
    requires Tracked(request, end) && Enabled(end, Poll) && m in Messages(request)
    requires m.region in end.params && !PollAccepts(request, m.region, end.params[m.region])
    ensures exists job | job in end.jobs :: job.status != Finished
  {
    var job :| job in end.jobs && job.message == m;
    assert ParamTracks(end, job);
    hide Tracked, Safe;
  }

  /**
   A parameter left over before any kind of request that its poll does not accept keeps the request from
   ever completing, whatever the interleaving, crashes and redelivered messages.
   */
  lemma {:induction false} RefusedLeftoverBlocks(request: Request, s: State, steps: seq<Step>)
    requires Safe(request, s) && !s.complete && IsRun(request, s, steps)
    requires !LeftoversAccepted(request, s.params)
    ensures !After(request, s, steps).complete
    decreases steps
  {
    if steps != [] {
      var next := Apply(request, s, steps[0]);
      StepIsSafe(request, s, steps[0]);
      LeftoversStayInStep(request, s, steps[0]);
      hide Safe, Named;
      var region :| region in s.params && !Named(request, region) && !PollAccepts(request, region, s.params[region]);
      assert !next.complete;
      RefusedLeftoverBlocks(request, next, steps[1..]);
    }
  }

  /** A create request beside a region still being deleted is one that never completes. */
  lemma LeftoverBlocksCreate(regions: seq<string>, s: State, steps: seq<Step>, region: string)
    requires Initial(CreateRequest(regions), s) && IsRun(CreateRequest(regions), s, steps)
    requires region !in regions && region in s.params && s.params[region] != Managed
    ensures !After(CreateRequest(regions), s, steps).complete
  {
    InitiallySafe(CreateRequest(regions), s);
    assert !PollAccepts(CreateRequest(regions), region, s.params[region]);
    RefusedLeftoverBlocks(CreateRequest(regions), s, steps);
  }

  /** Which left-over parameters a request can complete with, by its kind. */
  lemma LeftoversAcceptedExactly(request: Request, params: map<string, ParamState>)
    ensures LeftoversAccepted(request, params) <==>
            match request
            case CreateRequest(regions) => forall region | region in params && region !in regions :: params[region] == Managed
            case DeleteRequest(regions) => forall region | region in params && region !in regions :: params[region] == Deleted
            case UpdateRequest(current, previous) =>
              forall region | region in params && (region in current <==> region in previous) ::
                region in current && params[region] == Managed
  {
    forall region ensures Named(request, region) <==> Changes(request, region) {
      NamedByRegion(request, region);
    }
    hide Named;
  }

  /** Is the region one that the request sends a message to? */
  predicate Changes(request: Request, region: string) {
    match request
    case CreateRequest(regions) => region in regions
    case DeleteRequest(regions) => region in regions
    case UpdateRequest(current, previous) => !(region in current <==> region in previous)
  }

  lemma NamedByRegion(request: Request, region: string)
    ensures Named(request, region) <==> Changes(request, region)
  {
    match request
    case CreateRequest(regions) =>
      assert region in regions ==> Message(region, Register) in Messages(request);
    case DeleteRequest(regions) =>
      assert region in regions ==> Message(region, Deregister) in Messages(request);
    case UpdateRequest(current, previous) =>
      assert region in current && region !in previous ==> Message(region, Register) in Messages(request);
      assert region in previous && region !in current ==> Message(region, Deregister) in Messages(request);
  }

  /* ---------- what a whole request leaves behind ---------- */

  ghost predicate SameRegistered(request: Request, before: set<(string, Service)>, after: set<(string, Service)>) {
    forall region, service | !Named(request, region) :: (region, service) in before <==> (region, service) in after
  }

  /** A step leaves the services of other regions alone. */
  lemma OtherServicesStayInStep(request: Request, s: State, step: Step)
    requires Safe(request, s) && Enabled(s, step)
    ensures SameRegistered(request, s.registered, Apply(request, s, step).registered)
  {
    if step.Advance? {
      var m := s.jobs[step.job].message;
      assert s.jobs[step.job] in s.jobs;
      assert Named(request, m.region);
    }
    hide Safe, Named;
  }

  lemma {:induction false} OtherServicesStay(request: Request, s: State, steps: seq<Step>)
    requires Safe(request, s) && IsRun(request, s, steps)
    ensures SameRegistered(request, s.registered, After(request, s, steps).registered)
    decreases steps
  {
    if steps != [] {
      hide Safe, Apply, Enabled, Named;
      StepIsSafe(request, s, steps[0]);
      OtherServicesStayInStep(request, s, steps[0]);
      OtherServicesStay(request, Apply(request, s, steps[0]), steps[1..]);
    }
  }

  /** What is registered once a request is complete, given what was registered before it. */
  predicate RegisteredAfter(request: Request, before: set<(string, Service)>, region: string, service: Service) {
    match request
    case CreateRequest(regions) => region in regions || (region, service) in before
    case DeleteRequest(regions) => region !in regions && (region, service) in before
    case UpdateRequest(current, previous) => region in current || (region !in previous && (region, service) in before)
  }

  /**
   In every run, whatever the interleaving, crashes, redelivered messages and left-over parameters: once
   a create request is complete its regions are registered besides what was before, once a delete request
   is complete exactly its regions are gone, and once an update is complete its current regions have taken
   the place of its previous ones, if these were registered when it began.
   */
  lemma CompleteMeansAsRequested(request: Request, s: State, steps: seq<Step>, region: string, service: Service)
    requires Initial(request, s) && IsRun(request, s, steps) && After(request, s, steps).complete
    requires request.UpdateRequest? ==>
               forall r, other: Service | r in request.previous :: (r, other) in s.registered
    ensures (region, service) in After(request, s, steps).registered <==> RegisteredAfter(request, s.registered, region, service)
  {
    InitiallySafe(request, s);
    OtherServicesStay(request, s, steps);
    NamedByRegion(request, region);
    if Named(request, region) {
      var m :| m in Messages(request) && m.region == region;
      CompleteMeansDone(request, s, steps, m);
    }
    hide Safe, IsRun, After, Named;
  }

  /**
   Until completion the left-over parameters of other regions stay; completing clears them all, except
   that a delete request keeps them.
   */
  ghost predicate LeftoversAreAt(request: Request, before: map<string, ParamState>, s: State) {
    if s.complete && !request.DeleteRequest? then forall region | region in s.params :: Named(request, region)
    else SameLeftovers(request, before, s.params)
  }

  lemma LeftoversAtStep(request: Request, before: map<string, ParamState>, s: State, step: Step)
    requires Safe(request, s) && Enabled(s, step) && LeftoversAreAt(request, before, s)
    ensures LeftoversAreAt(request, before, Apply(request, s, step))
  {
    match step
    case PutParameter =>
      assert s.pending[0] in s.pending;
      assert Named(request, s.pending[0].region);
      hide Safe, Named;
    case Advance(i) =>
      assert s.jobs[i] in s.jobs;
      assert Named(request, s.jobs[i].message.region);
      var value := AdvanceWrites(s, i);
      hide Safe, AdvanceJob, Named;
    case Poll =>
      if request.DeleteRequest? {
        assert forall region | region in request.regions :: Message(region, Deregister) in Messages(request);
      }
      hide Safe;
    case _ =>
  }

  lemma {:induction false} LeftoversAtEnd(request: Request, before: map<string, ParamState>, s: State, steps: seq<Step>)
    requires Safe(request, s) && IsRun(request, s, steps) && LeftoversAreAt(request, before, s)
    ensures LeftoversAreAt(request, before, After(request, s, steps))
    decreases steps
  {
    if steps != [] {
      hide Safe, Apply, Enabled, LeftoversAreAt;
      StepIsSafe(request, s, steps[0]);
      LeftoversAtStep(request, before, s, steps[0]);
      LeftoversAtEnd(request, before, Apply(request, s, steps[0]), steps[1..]);
    }
  }

  /** In every run, a completed create or update leaves no parameter of another region, a completed delete all of them. */
  lemma LeftoversAfterCompletion(request: Request, s: State, steps: seq<Step>, region: string)
    requires Initial(request, s) && IsRun(request, s, steps) && After(request, s, steps).complete && !Named(request, region)
    ensures var end := After(request, s, steps);
            if request.DeleteRequest? then
              (region in end.params <==> region in s.params)
              && (region in end.params ==> end.params[region] == s.params[region])
            else region !in end.params
  {
    InitiallySafe(request, s);
    LeftoversAtEnd(request, s.params, s, steps);
    hide Safe, IsRun, After, Named;
  }
}
