/**
 * The life of one asynchronous task across all Pub replicas: the replica that runs it keeps a task
 * object in memory, a storage shared by all replicas keeps a copy with the address of the owner,
 * and a poll or status request on any replica may find the owner gone and take the task over.
 *
 * `Step` lists the atomic steps. `Enabled` says when the code can make a step; `Trusted` states
 * what is assumed of the environment.
 */
module AsyncLifecycle {
  import opened Wrappers
  import opened AsyncTask

  // Address of a published task object
  type Ref = nat

  // Progress of one background call
  datatype Phase =
    | Calling                 // waiting for the job
    | Responded               // the response code is written to the task object
    | Backoff(copy: Task)     // the call failed, the next attempt is due after the retry interval
    | Closing                 // the final status is published, the channel is about to be closed

  datatype Call = Call(replica: Addr, phase: Phase)

  // A long-polling request that waits for the channel
  datatype Poller = Poller(replica: Addr, done: Channel)

  // History of a task: crash retries, takeovers and job calls made so far
  datatype Lineage = Lineage(crashRetries: nat, takeovers: nat, jobCalls: nat) {
    function Attempts(): nat {
      1 + crashRetries + takeovers
    }
  }

  datatype State = State(
    objects: seq<Task>,        // published task objects, by address
    held: map<Addr, Ref>,      // the entry for this task in every replica's localTasks
    stored: Option<Task>,      // the entry for this task in the shared storage
    calls: map<Ref, Call>,     // background calls, by the task object they work on
    channels: nat,             // number of channels made so far
    closed: seq<Channel>,      // channels closed so far, in order
    dropped: set<Channel>,     // channels whose call ended without closing them, or died
    pending: map<nat, Addr>,   // delayed deletes, by the number of their timer
    timers: nat,
    pollers: map<nat, Poller>, // waiting requests, by number
    lineage: Lineage)

  // What the owner answers when asked for the task
  datatype Probe = Unreachable | NotFound | Found(status: Status)

  datatype Step =
    | Respond(p: Ref, code: int)
    | End(p: Ref, result: CallResult)
    | Retry(p: Ref, detailsError: Option<string>)
    | Close(p: Ref)
    | Request(r: Addr, poll: bool, probe: Probe, detailsError: Option<string>)
    | LocalPoll(r: Addr, n: nat)
    | Wake(n: nat)
    | DelayedDelete(timer: nat)
    | CleanUp(r: Addr)

  // A call that has not published its final status yet
  predicate Live(s: State, p: Ref) {
    p in s.calls && !s.calls[p].phase.Closing?
  }

  predicate RunsOn(s: State, p: Ref, r: Addr) {
    Live(s, p) && s.calls[p].replica == r
  }

  // CreateTask, by replica r
  function Created(r: Addr): State {
    State([NewTask(r, 0)], map[r := 0], Some(NewTask(r, 0)), map[0 := Call(r, Calling)], 1, [], {}, map[], 0, map[],
          Lineage(0, 0, 1))
  }

  // UpdateTask: the task becomes visible locally and in the storage
  function Publish(s: State, r: Addr, t: Task): State {
    s.(objects := s.objects + [t], held := s.held[r := |s.objects|], stored := Some(t))
  }

  // DeleteTask on replica r
  function Remove(s: State, r: Addr): State {
    s.(held := s.held - {r}, stored := None)
  }

  // respondTaskResult: the result has been sent, delete the task some time later
  function Schedule(s: State, r: Addr): State {
    s.(pending := s.pending[s.timers := r], timers := s.timers + 1)
  }

  // retryJobCall: publish the next attempt and, unless the job's details could not be read,
  // start a background call for it
  function Attempt(s: State, r: Addr, t: Task, detailsError: Option<string>): State {
    var published := Publish(s, r, NextAttempt(t, r, detailsError));
    if detailsError.Some? then published.(dropped := s.dropped + {t.done})
    else published.(calls := s.calls[|s.objects| := Call(r, Calling)],
                    lineage := s.lineage.(jobCalls := s.lineage.jobCalls + 1))
  }

  // handleBackgroundJobCall after its job call: back off and retry, or publish the outcome
  function EndCall(s: State, p: Ref, result: CallResult, maxAttempts: int): State
    requires p in s.calls && p < |s.objects|
  {
    var r := s.calls[p].replica;
    var copy := FinishedCopy(s.objects[p], result);
    if CanBeRetried(copy, maxAttempts) then
      s.(calls := s.calls[p := Call(r, Backoff(copy))])
    else
      Publish(s, r, copy).(calls := s.calls[p := Call(r, Closing)])
  }

  function RetryCall(s: State, p: Ref, detailsError: Option<string>): State
    requires p in s.calls && s.calls[p].phase.Backoff?
  {
    Attempt(s.(calls := s.calls - {p}, lineage := s.lineage.(crashRetries := s.lineage.crashRetries + 1)),
            s.calls[p].replica, s.calls[p].phase.copy, detailsError)
  }

  // isTaskMissing, on replica r
  predicate Missing(stored: Task, r: Addr, probe: Probe) {
    stored.owner == r || !probe.Found?
  }

  // NewLocalTask and retryJobCall: replica r takes the task over on a channel of its own
  function TakeOver(s: State, r: Addr, detailsError: Option<string>): State
    requires s.stored.Some?
  {
    Attempt(s.(channels := s.channels + 1, lineage := s.lineage.(takeovers := s.lineage.takeovers + 1)),
            r, s.stored.value.(done := s.channels), detailsError)
  }

  // TaskPollEndpoint and TaskStatusEndpoint on replica r. The part of a poll that waits for a task
  // this replica holds, and a poll forwarded to the owner, are LocalPoll steps.
  function HandleRequest(s: State, r: Addr, poll: bool, probe: Probe, detailsError: Option<string>): State {
    if r in s.held || s.stored.None? then s
    else if s.stored.value.Terminal() then
      if poll then Schedule(s, r) else s
    else if Missing(s.stored.value, r, probe) then TakeOver(s, r, detailsError)
    else s
  }

  // Whether the step is a request that takes the task over
  predicate TakesOver(s: State, step: Step) {
    && step.Request? && step.r !in s.held
    && s.stored.Some? && !s.stored.value.Terminal() && Missing(s.stored.value, step.r, step.probe)
  }

  // GetLocalTask on replica r
  function Lookup(s: State, r: Addr): Option<Task> {
    if r in s.held && s.held[r] < |s.objects| then Some(s.objects[s.held[r]]) else None
  }

  // LocalTaskPollEndpoint up to the wait, for request number n
  function HandleLocalPoll(s: State, r: Addr, n: nat): State {
    match Lookup(s, r)
    case None => s
    case Some(t) => if t.Terminal() then Schedule(s, r) else s.(pollers := s.pollers[n := Poller(r, t.done)])
  }

  // LocalTaskPollEndpoint after the wait, whether it was the channel or the time-out that ended it
  function WakeUp(s: State, n: nat): State
    requires n in s.pollers
  {
    var woken := s.(pollers := s.pollers - {n});
    var r := s.pollers[n].replica;
    match Lookup(s, r)
    case None => woken
    case Some(t) => if t.Terminal() then Schedule(woken, r) else woken
  }

  // The channels of the calls that run on a replica
  function ChannelsOn(s: State, r: Addr): set<Channel> {
    set p | p in s.calls && s.calls[p].replica == r && p < |s.objects| :: s.objects[p].done
  }

  // A replica dies, and with it its tasks, its background calls and its requests
  function Crashed(s: State, r: Addr): State {
    s.(held := s.held - {r},
       calls := map p | p in s.calls && s.calls[p].replica != r :: s.calls[p],
       pending := map k | k in s.pending && s.pending[k] != r :: s.pending[k],
       dropped := s.dropped + ChannelsOn(s, r),
       pollers := map n | n in s.pollers && s.pollers[n].replica != r :: s.pollers[n])
  }

  // Whether the code can make the step while `replicas` are running
  predicate Enabled(s: State, replicas: set<Addr>, step: Step) {
    match step
    case Respond(p, _) => p in s.calls && p < |s.objects| && s.calls[p].phase.Calling?
    case End(p, result) =>
      && p in s.calls && p < |s.objects|
      && (s.calls[p].phase.Responded? || (s.calls[p].phase.Calling? && result.CallError?))
    case Retry(p, _) => p in s.calls && s.calls[p].phase.Backoff?
    case Close(p) => p in s.calls && p < |s.objects| && s.calls[p].phase.Closing?
    case Request(r, _, _, _) => r in replicas
    case LocalPoll(r, n) => r in replicas && n !in s.pollers
    case Wake(n) => n in s.pollers
    case DelayedDelete(k) => k in s.pending
    case CleanUp(r) => r in s.held
  }

  // What is assumed of the environment:
  // - the answer to a probe tells whether the owner has the task: an owner that is slow or cut off
  //   is not reported as missing while it still runs the task;
  // - the clean-up of old tasks does not hit a task whose call is still running on that replica.
  ghost predicate Trusted(s: State, step: Step) {
    match step
    case Request(r, _, probe, _) =>
      s.stored.Some? && s.stored.value.owner != r ==> (probe.Found? <==> s.stored.value.owner in s.held)
    case CleanUp(r) => forall p: Ref | Live(s, p) :: s.calls[p].replica != r
    case _ => true
  }

  function Next(s: State, replicas: set<Addr>, step: Step, maxAttempts: int): State
    requires Enabled(s, replicas, step)
  {
    match step
    case Respond(p, code) =>
      s.(objects := s.objects[p := s.objects[p].(code := Some(code))],
         calls := s.calls[p := s.calls[p].(phase := Responded)])
    case End(p, result) => EndCall(s, p, result, maxAttempts)
    case Retry(p, detailsError) => RetryCall(s, p, detailsError)
    case Close(p) => s.(closed := s.closed + [s.objects[p].done], calls := s.calls - {p})
    case Request(r, poll, probe, detailsError) => HandleRequest(s, r, poll, probe, detailsError)
    case LocalPoll(r, n) => HandleLocalPoll(s, r, n)
    case Wake(n) => WakeUp(s, n)
    case DelayedDelete(k) => Remove(s, s.pending[k]).(pending := s.pending - {k})
    case CleanUp(r) => Remove(s, r)
  }

  // ---------------------------------------------------------------------------------------------
  // The invariant

  function Max(a: int, b: int): int {
    if a > b then a else b
  }

  // A stored snapshot and the task object its owner holds: they differ at most in the response
  // code that a running call has already written.
  predicate Agree(stored: Task, held: Task) {
    stored == if held.Terminal() then held else held.(code := stored.code)
  }

  predicate HeldOk(s: State, r: Addr)
    requires r in s.held
  {
    var p := s.held[r];
    && p < |s.objects|
    && s.objects[p].owner == r
    && s.objects[p].attempts == s.lineage.Attempts()
    && (!s.objects[p].Terminal() ==> RunsOn(s, p, r) && s.stored.Some?)
    && (s.stored.Some? ==> Agree(s.stored.value, s.objects[p]))
  }

  predicate StoredOk(s: State) {
    s.stored.Some? ==> s.stored.value.attempts == s.lineage.Attempts() && s.stored.value.Sound()
  }

  // The call works on the object its replica holds as Ongoing; its channel is still open.
  predicate CallOk(s: State, p: Ref, maxAttempts: int)
    requires p in s.calls
  {
    var Call(r, phase) := s.calls[p];
    && p < |s.objects|
    && s.objects[p].done < s.channels
    && s.objects[p].done !in s.closed
    && (!phase.Closing? ==> !s.objects[p].Terminal() && r in s.held && s.held[r] == p)
    && (phase.Responded? ==> s.objects[p].code.Some?)
    && (phase.Backoff? ==>
      && CanBeRetried(phase.copy, maxAttempts)
      && phase.copy.error.Some?
      && phase.copy.(status := Ongoing, error := s.objects[p].error, retriable := s.objects[p].retriable) == s.objects[p])
  }

  // Nothing shows the task as Ongoing any more, and nothing runs it.
  ghost predicate Finished(s: State) {
    && (s.stored.Some? ==> s.stored.value.Terminal())
    && (forall r | r in s.held :: s.held[r] < |s.objects| && s.objects[s.held[r]].Terminal())
    && (forall p: Ref | p in s.calls :: s.calls[p].phase.Closing?)
  }

  // Something happened that only an ended task allows.
  ghost predicate Over(s: State) {
    || s.closed != []
    || s.pending != map[]
    || exists p: Ref :: p in s.calls && s.calls[p].phase.Closing?
  }

  predicate LineageOk(l: Lineage, maxAttempts: int) {
    && l.jobCalls <= l.Attempts()
    && l.Attempts() <= Max(1, maxAttempts) + l.takeovers
  }

  ghost predicate CallsOk(s: State, maxAttempts: int) {
    && (forall p | p in s.calls :: CallOk(s, p, maxAttempts))
    && (forall p, q | p in s.calls && q in s.calls :: p == q)
  }

  ghost predicate ShownOk(s: State) {
    && (forall r | r in s.held :: HeldOk(s, r))
    && (forall r, q | r in s.held && q in s.held :: r == q)
    && StoredOk(s)
    && (forall i | 0 <= i < |s.objects| :: s.objects[i].Sound())
  }

  // A waiting poller waits for the channel of the call that runs on its replica, or for an ended task.
  ghost predicate PollerOk(s: State, w: Poller) {
    || Finished(s)
    || (w.replica in s.held && s.held[w.replica] < |s.objects| && s.objects[s.held[w.replica]].done == w.done)
  }

  ghost predicate ChannelsOk(s: State) {
    && (forall i | 0 <= i < |s.closed| :: s.closed[i] < s.channels)
    && (forall i, j | 0 <= i < j < |s.closed| :: s.closed[i] != s.closed[j])
    && (forall n | n in s.pollers :: PollerOk(s, s.pollers[n]))
  }

  ghost predicate Inv(s: State, maxAttempts: int) {
    && ShownOk(s)
    && CallsOk(s, maxAttempts)
    && ChannelsOk(s)
    && (Over(s) ==> Finished(s))
    && LineageOk(s.lineage, maxAttempts)
  }

  lemma CreatedInv(r: Addr, maxAttempts: int)
    ensures Inv(Created(r), maxAttempts)
  {
  }

  lemma CrashKeepsShown(s: State, r: Addr, maxAttempts: int)
    requires Inv(s, maxAttempts)
    ensures ShownOk(Crashed(s, r)) && CallsOk(Crashed(s, r), maxAttempts)
  {
  }

  lemma CrashKeepsInv(s: State, r: Addr, maxAttempts: int)
    requires Inv(s, maxAttempts)
    ensures Inv(Crashed(s, r), maxAttempts)
  {
    CrashKeepsShown(s, r, maxAttempts);
  }

  lemma RespondKeepsInv(s: State, replicas: set<Addr>, p: Ref, code: int, maxAttempts: int)
    requires Inv(s, maxAttempts) && Enabled(s, replicas, Respond(p, code))
    ensures Inv(Next(s, replicas, Respond(p, code), maxAttempts), maxAttempts)
  {
  }

  lemma BackoffKeepsInv(s: State, replicas: set<Addr>, p: Ref, result: CallResult, maxAttempts: int)
    requires Inv(s, maxAttempts) && Enabled(s, replicas, End(p, result))
    requires CanBeRetried(FinishedCopy(s.objects[p], result), maxAttempts)
    ensures Inv(EndCall(s, p, result, maxAttempts), maxAttempts)
  {
  }

  lemma PublishKeepsInv(s: State, replicas: set<Addr>, p: Ref, result: CallResult, maxAttempts: int)
    requires Inv(s, maxAttempts) && Enabled(s, replicas, End(p, result))
    requires !CanBeRetried(FinishedCopy(s.objects[p], result), maxAttempts)
    ensures Inv(EndCall(s, p, result, maxAttempts), maxAttempts)
    ensures Finished(EndCall(s, p, result, maxAttempts))
  {
    assert CallOk(s, p, maxAttempts);
    var s' := EndCall(s, p, result, maxAttempts);
    assert s'.held == map[s.calls[p].replica := |s.objects|];
    assert s'.objects[|s.objects|].Sound();
  }

  lemma RetryKeepsInv(s: State, p: Ref, detailsError: Option<string>, maxAttempts: int)
    requires Inv(s, maxAttempts) && p in s.calls && s.calls[p].phase.Backoff?
    ensures Inv(RetryCall(s, p, detailsError), maxAttempts)
  {
    RetryKeepsShown(s, p, detailsError, maxAttempts);
  }

  lemma RetryKeepsShown(s: State, p: Ref, detailsError: Option<string>, maxAttempts: int)
    requires Inv(s, maxAttempts) && p in s.calls && s.calls[p].phase.Backoff?
    ensures ShownOk(RetryCall(s, p, detailsError)) && CallsOk(RetryCall(s, p, detailsError), maxAttempts)
  {
    assert CallOk(s, p, maxAttempts);
  }

  // An Ongoing task whose owner lacks it is held, run and waited for by nobody.
  lemma OrphanIsIdle(s: State, maxAttempts: int)
    requires Inv(s, maxAttempts) && s.stored.Some? && !s.stored.value.Terminal() && s.stored.value.owner !in s.held
    ensures s.held == map[] && s.calls == map[] && s.pollers == map[] && s.closed == [] && s.pending == map[]
  {
  }

  lemma TakeOverKeepsInv(s: State, r: Addr, detailsError: Option<string>, maxAttempts: int)
    requires Inv(s, maxAttempts) && s.stored.Some? && !s.stored.value.Terminal() && s.stored.value.owner !in s.held
    ensures Inv(TakeOver(s, r, detailsError), maxAttempts)
  {
    OrphanIsIdle(s, maxAttempts);
  }

  lemma CloseKeepsInv(s: State, replicas: set<Addr>, p: Ref, maxAttempts: int)
    requires Inv(s, maxAttempts) && Enabled(s, replicas, Close(p))
    ensures Inv(Next(s, replicas, Close(p), maxAttempts), maxAttempts)
  {
  }

  lemma ScheduleKeepsInv(s: State, r: Addr, maxAttempts: int)
    requires Inv(s, maxAttempts) && Finished(s)
    ensures Inv(Schedule(s, r), maxAttempts)
  {
  }

  lemma LocalPollKeepsInv(s: State, r: Addr, n: nat, maxAttempts: int)
    requires Inv(s, maxAttempts)
    ensures Inv(HandleLocalPoll(s, r, n), maxAttempts)
  {
  }

  lemma WakeUpKeepsInv(s: State, n: nat, maxAttempts: int)
    requires Inv(s, maxAttempts) && n in s.pollers
    ensures Inv(WakeUp(s, n), maxAttempts)
  {
    var woken := s.(pollers := s.pollers - {n});
    assert Inv(woken, maxAttempts);
    var r := s.pollers[n].replica;
    var t := Lookup(s, r);
    if t.Some? && t.value.Terminal() {
      assert Lookup(woken, r) == t;
      ShownResultMeansFinished(woken, t.value, maxAttempts);
      ScheduleKeepsInv(woken, r, maxAttempts);
    }
  }

  // The task is visible somewhere with these contents.
  ghost predicate Shown(s: State, t: Task) {
    s.stored == Some(t) || exists r :: Lookup(s, r) == Some(t)
  }

  lemma HeldMeansFound(s: State, r: Addr, maxAttempts: int)
    requires Inv(s, maxAttempts)
    ensures r in s.held <==> Lookup(s, r).Some?
  {
  }

  lemma ShownResultMeansFinished(s: State, t: Task, maxAttempts: int)
    requires Inv(s, maxAttempts) && Shown(s, t) && t.Terminal()
    ensures Settled(s, t)
  {
  }

  // The task has ended, and wherever it is still visible it is visible as t.
  ghost predicate Settled(s: State, t: Task) {
    && Finished(s)
    && (s.stored.Some? ==> s.stored.value == t)
    && (forall r | r in s.held :: s.objects[s.held[r]] == t)
  }

  lemma RequestKeepsInv(s: State, replicas: set<Addr>, step: Step, maxAttempts: int)
    requires Inv(s, maxAttempts) && Enabled(s, replicas, step) && Trusted(s, step) && step.Request?
    ensures Inv(Next(s, replicas, step, maxAttempts), maxAttempts)
  {
    if step.r !in s.held && s.stored.Some? {
      if s.stored.value.Terminal() {
        ShownResultMeansFinished(s, s.stored.value, maxAttempts);
        ScheduleKeepsInv(s, step.r, maxAttempts);
      } else if Missing(s.stored.value, step.r, step.probe) {
        TakeOverKeepsInv(s, step.r, step.detailsError, maxAttempts);
      }
    }
  }

  lemma DeleteKeepsInv(s: State, replicas: set<Addr>, step: Step, maxAttempts: int)
    requires Inv(s, maxAttempts) && Enabled(s, replicas, step) && Trusted(s, step) && (step.DelayedDelete? || step.CleanUp?)
    ensures Inv(Next(s, replicas, step, maxAttempts), maxAttempts)
  {
  }

  lemma StepKeepsInv(s: State, replicas: set<Addr>, step: Step, maxAttempts: int)
    requires Inv(s, maxAttempts) && Enabled(s, replicas, step) && Trusted(s, step)
    ensures Inv(Next(s, replicas, step, maxAttempts), maxAttempts)
  {
    match step
    case Respond(p, code) => RespondKeepsInv(s, replicas, p, code, maxAttempts);
    case End(p, result) =>
      if CanBeRetried(FinishedCopy(s.objects[p], result), maxAttempts) {
        BackoffKeepsInv(s, replicas, p, result, maxAttempts);
      } else {
        PublishKeepsInv(s, replicas, p, result, maxAttempts);
      }
    case Retry(p, detailsError) => RetryKeepsInv(s, p, detailsError, maxAttempts);
    case Close(p) => CloseKeepsInv(s, replicas, p, maxAttempts);
    case Request(_, _, _, _) => RequestKeepsInv(s, replicas, step, maxAttempts);
    case LocalPoll(r, n) => LocalPollKeepsInv(s, r, n, maxAttempts);
    case Wake(n) => WakeUpKeepsInv(s, n, maxAttempts);
    case DelayedDelete(_) => DeleteKeepsInv(s, replicas, step, maxAttempts);
    case CleanUp(_) => DeleteKeepsInv(s, replicas, step, maxAttempts);
  }

  // ---------------------------------------------------------------------------------------------
  // What the invariant means

  // At most one call chain is live, and while it lives its replica holds the task as Ongoing and
  // the storage shows it as Ongoing and owned by that replica.
  lemma AtMostOneChain(s: State, p: Ref, q: Ref, maxAttempts: int)
    requires Inv(s, maxAttempts) && Live(s, p) && Live(s, q)
    ensures p == q
    ensures var r := s.calls[p].replica;
      && Lookup(s, r).Some? && Lookup(s, r).value.status == Ongoing
      && s.stored.Some? && s.stored.value.status == Ongoing && s.stored.value.owner == r
  {
  }

  // A response code is kept in the object of the call that received it.
  lemma ResponseIsKept(s: State, replicas: set<Addr>, p: Ref, code: int, maxAttempts: int)
    requires Inv(s, maxAttempts) && Enabled(s, replicas, Respond(p, code))
    ensures var s' := Next(s, replicas, Respond(p, code), maxAttempts);
      && p < |s'.objects| && s'.objects[p].code == Some(code) && p in s'.calls && s'.calls[p].phase == Responded
      && s'.objects[p].status == Ongoing && s'.stored == s.stored
  {
    assert CallOk(s, p, maxAttempts);
  }

  predicate HasResponse(s: State, p: Ref) {
    p in s.calls && s.calls[p].phase.Responded? && p < |s.objects|
  }

  lemma OnlyResponsesRespond(s: State, replicas: set<Addr>, step: Step, p: Ref, maxAttempts: int)
    requires Enabled(s, replicas, step) && !(step.Respond? && step.p == p)
    requires var s' := Next(s, replicas, step, maxAttempts); p in s'.calls && s'.calls[p].phase.Responded?
    ensures p in s.calls && s.calls[p].phase.Responded?
  {
  }

  // A call that has its response got it in this step or before it.
  lemma RespondedBefore(s: State, replicas: set<Addr>, step: Step, p: Ref, maxAttempts: int)
    requires Inv(s, maxAttempts) && Enabled(s, replicas, step) && !(step.Respond? && step.p == p)
    requires HasResponse(Next(s, replicas, step, maxAttempts), p)
    ensures HasResponse(s, p) && Next(s, replicas, step, maxAttempts).objects[p].code == s.objects[p].code
  {
    OnlyResponsesRespond(s, replicas, step, p, maxAttempts);
    assert CallOk(s, p, maxAttempts);
    if !step.Respond? {
      OnlyResponsesWriteObjects(s, replicas, step, maxAttempts);
    }
  }

  // The task is shown as t by replica r and by the storage.
  ghost predicate ShownBy(s: State, r: Addr, t: Task) {
    Lookup(s, r) == Some(t) && s.stored == Some(t)
  }

  // A job call that ended well: the replica and the storage show the task as Completed, with the response
  // code, without an error, and as the same attempt.
  lemma CallThatEndedWellIsCompleted(s: State, replicas: set<Addr>, p: Ref, maxAttempts: int) returns (t: Task)
    requires Inv(s, maxAttempts) && Enabled(s, replicas, End(p, CallResult.CallOk))
    ensures var s' := Next(s, replicas, End(p, CallResult.CallOk), maxAttempts);
      ShownBy(s', s.calls[p].replica, t) && Settled(s', t)
    ensures t.status == Completed && t.error == None && t.code == s.objects[p].code && t.code.Some?
    ensures t.attempts == s.objects[p].attempts && t.owner == s.calls[p].replica
  {
    assert CallOk(s, p, maxAttempts);
    var step := End(p, CallResult.CallOk);
    PublishKeepsInv(s, replicas, p, CallResult.CallOk, maxAttempts);
    t := Next(s, replicas, step, maxAttempts).stored.value;
    ShownResultMeansFinished(Next(s, replicas, step, maxAttempts), t, maxAttempts);
  }

  // A job call that ended badly: if the error is retriable and an attempt is left, nothing is published and
  // the call waits for its next attempt; otherwise the replica and the storage show the task as Failed with
  // this error.
  lemma CallThatEndedBadlyIsRetriedOrFailed(s: State, replicas: set<Addr>, p: Ref, message: string, retriable: bool, maxAttempts: int)
    requires Inv(s, maxAttempts) && Enabled(s, replicas, End(p, CallError(message, retriable)))
    ensures var s' := Next(s, replicas, End(p, CallError(message, retriable)), maxAttempts);
      var r := s.calls[p].replica;
      if retriable && s.objects[p].attempts < maxAttempts then
        && s'.objects == s.objects && s'.held == s.held && s'.stored == s.stored
        && s'.calls.Keys == s.calls.Keys && s'.calls[p].replica == r && s'.calls[p].phase.Backoff?
      else
        && Lookup(s', r).Some? && s'.stored == Lookup(s', r) && s'.stored.value.status == Failed
        && s'.stored.value.error == Some(message) && s'.stored.value.attempts == s.objects[p].attempts
  {
    assert CallOk(s, p, maxAttempts);
  }

  // A crash retry shows the next attempt on the same replica: Ongoing and running, or Failed with the reason
  // why the job's details could not be read.
  lemma CrashRetryShowsTheNextAttempt(s: State, p: Ref, detailsError: Option<string>, maxAttempts: int)
    requires Inv(s, maxAttempts) && p in s.calls && s.calls[p].phase.Backoff?
    ensures var s' := RetryCall(s, p, detailsError);
      var r := s.calls[p].replica;
      && Lookup(s', r).Some? && s'.stored == Lookup(s', r)
      && s'.stored.value.attempts == s.objects[p].attempts + 1 && s'.stored.value.owner == r
      && (detailsError.None? ==> s'.stored.value.status == Ongoing && RunsOn(s', s'.held[r], r) && s'.calls[s'.held[r]].phase == Calling)
      && (detailsError.Some? ==> s'.stored.value.status == Failed && s'.stored.value.error == detailsError && s'.calls == map[])
  {
    assert CallOk(s, p, maxAttempts);
  }

  // The step ends the task with this status and error: a job call that ended well, or badly with no retry due,
  // or a retry or takeover for which the job's details could not be read.
  predicate Concludes(s: State, step: Step, status: Status, error: Option<string>, maxAttempts: int) {
    match step
    case End(p, CallOk) => status == Completed && error == None
    case End(p, CallError(message, retriable)) =>
      p < |s.objects| && !(retriable && s.objects[p].attempts < maxAttempts) && status == Failed && error == Some(message)
    case Retry(_, detailsError) => detailsError.Some? && status == Failed && error == detailsError
    case Request(_, _, _, detailsError) => TakesOver(s, step) && detailsError.Some? && status == Failed && error == detailsError
    case _ => false
  }

  // What a step concludes is what the task is from then on.
  lemma ConclusionIsShown(s: State, replicas: set<Addr>, step: Step, status: Status, error: Option<string>, maxAttempts: int) returns (t: Task)
    requires Inv(s, maxAttempts) && Enabled(s, replicas, step) && Trusted(s, step) && Concludes(s, step, status, error, maxAttempts)
    ensures Settled(Next(s, replicas, step, maxAttempts), t) && Next(s, replicas, step, maxAttempts).stored == Some(t)
    ensures t.status == status && t.error == error && t.Terminal()
  {
    StepKeepsInv(s, replicas, step, maxAttempts);
    var s' := Next(s, replicas, step, maxAttempts);
    ConclusionIsStored(s, replicas, step, status, error, maxAttempts);
    t := s'.stored.value;
    ShownResultMeansFinished(s', t, maxAttempts);
  }

  lemma ConclusionIsStored(s: State, replicas: set<Addr>, step: Step, status: Status, error: Option<string>, maxAttempts: int)
    requires Enabled(s, replicas, step) && Concludes(s, step, status, error, maxAttempts)
    ensures var stored := Next(s, replicas, step, maxAttempts).stored;
      stored.Some? && stored.value.status == status && stored.value.error == error && stored.value.Terminal()
  {
  }

  lemma OnlyConclusionsAreStored(s: State, replicas: set<Addr>, step: Step, t: Task, maxAttempts: int)
    requires Enabled(s, replicas, step) && !Concludes(s, step, t.status, t.error, maxAttempts)
    requires Next(s, replicas, step, maxAttempts).stored == Some(t) && t.Terminal()
    ensures s.stored == Some(t)
  {
  }

  // A step publishes a task locally and in the storage, or not at all.
  lemma PublishedIsStored(s: State, replicas: set<Addr>, step: Step, r: Addr, t: Task, maxAttempts: int)
    requires Enabled(s, replicas, step)
    requires var s' := Next(s, replicas, step, maxAttempts); Lookup(s', r) == Some(t) && s'.stored != Some(t)
    ensures r in s.held && Next(s, replicas, step, maxAttempts).held[r] == s.held[r]
  {
    if !step.Respond? {
      StepPublishesOrNot(s, replicas, step, maxAttempts);
    }
  }

  lemma ResultsAreHeldBefore(s: State, replicas: set<Addr>, step: Step, r: Addr, t: Task, maxAttempts: int)
    requires Inv(s, maxAttempts) && Enabled(s, replicas, step) && t.Terminal()
    requires var s' := Next(s, replicas, step, maxAttempts); Lookup(s', r) == Some(t) && s'.stored != Some(t)
    ensures Lookup(s, r) == Some(t)
  {
    PublishedIsStored(s, replicas, step, r, t, maxAttempts);
    assert HeldOk(s, r);
    if step.Respond? {
      ResponseIsKept(s, replicas, step.p, step.code, maxAttempts);
    } else {
      OnlyResponsesWriteObjects(s, replicas, step, maxAttempts);
    }
  }

  // A result that is shown was shown before, unless this step concluded it.
  lemma OnlyConclusionsAreShown(s: State, replicas: set<Addr>, step: Step, t: Task, maxAttempts: int)
    requires Inv(s, maxAttempts) && Enabled(s, replicas, step) && !Concludes(s, step, t.status, t.error, maxAttempts)
    requires Shown(Next(s, replicas, step, maxAttempts), t) && t.Terminal()
    ensures Shown(s, t)
  {
    var s' := Next(s, replicas, step, maxAttempts);
    if s'.stored == Some(t) {
      OnlyConclusionsAreStored(s, replicas, step, t, maxAttempts);
    } else {
      var r :| Lookup(s', r) == Some(t);
      ResultsAreHeldBefore(s, replicas, step, r, t, maxAttempts);
    }
  }

  // A task that has ended stays as it ended: it can only be deleted.
  lemma StepKeepsSettled(s: State, replicas: set<Addr>, step: Step, t: Task, maxAttempts: int)
    requires Settled(s, t) && Enabled(s, replicas, step)
    ensures Settled(Next(s, replicas, step, maxAttempts), t)
  {
  }

  lemma CrashKeepsSettled(s: State, r: Addr, t: Task)
    requires Settled(s, t)
    ensures Settled(Crashed(s, r), t)
  {
  }

  // s' has a new task object, shown by replica r and by the storage.
  ghost predicate Publication(s: State, s': State, r: Addr, t: Task) {
    s'.objects == s.objects + [t] && s'.held == s.held[r := |s.objects|] && s'.stored == Some(t)
  }

  // s' has the same task objects, and every replica shows the same one or none.
  ghost predicate NoPublication(s: State, s': State) {
    s'.objects == s.objects && forall r | r in s'.held :: r in s.held && s'.held[r] == s.held[r]
  }

  lemma RetryPublishes(s: State, p: Ref, detailsError: Option<string>)
    requires p in s.calls && s.calls[p].phase.Backoff?
    ensures var r := s.calls[p].replica; Publication(s, RetryCall(s, p, detailsError), r, NextAttempt(s.calls[p].phase.copy, r, detailsError))
  {
  }

  lemma TakeOverPublishes(s: State, r: Addr, detailsError: Option<string>)
    requires s.stored.Some?
    ensures Publication(s, TakeOver(s, r, detailsError), r, NextAttempt(s.stored.value.(done := s.channels), r, detailsError))
  {
  }

  lemma EndPublishesOrNot(s: State, p: Ref, result: CallResult, maxAttempts: int)
    requires p in s.calls && p < |s.objects|
    ensures var s' := EndCall(s, p, result, maxAttempts);
      NoPublication(s, s') || Publication(s, s', s.calls[p].replica, FinishedCopy(s.objects[p], result))
  {
  }

  lemma OthersDoNotPublish(s: State, replicas: set<Addr>, step: Step, maxAttempts: int)
    requires Enabled(s, replicas, step) && !step.Respond? && !step.End? && !step.Retry? && !TakesOver(s, step)
    ensures NoPublication(s, Next(s, replicas, step, maxAttempts))
  {
  }

  // Apart from responses, a step publishes one new object or none.
  lemma StepPublishesOrNot(s: State, replicas: set<Addr>, step: Step, maxAttempts: int)
    requires Enabled(s, replicas, step) && !step.Respond?
    ensures var s' := Next(s, replicas, step, maxAttempts); NoPublication(s, s') || exists r, t :: Publication(s, s', r, t)
  {
    if step.End? {
      EndPublishesOrNot(s, step.p, step.result, maxAttempts);
    } else if step.Retry? {
      RetryPublishes(s, step.p, step.detailsError);
    } else if TakesOver(s, step) {
      TakeOverPublishes(s, step.r, step.detailsError);
    } else {
      OthersDoNotPublish(s, replicas, step, maxAttempts);
    }
  }

  lemma OnlyResponsesWriteObjects(s: State, replicas: set<Addr>, step: Step, maxAttempts: int)
    requires Enabled(s, replicas, step) && !step.Respond?
    ensures s.objects <= Next(s, replicas, step, maxAttempts).objects
  {
    StepPublishesOrNot(s, replicas, step, maxAttempts);
  }

  // A task object published with a terminal status is never written again.
  lemma TerminalObjectsAreFrozen(s: State, replicas: set<Addr>, step: Step, i: Ref, maxAttempts: int)
    requires Inv(s, maxAttempts) && Enabled(s, replicas, step) && i < |s.objects| && s.objects[i].Terminal()
    ensures var s' := Next(s, replicas, step, maxAttempts); i < |s'.objects| && s'.objects[i] == s.objects[i]
  {
    if step.Respond? {
      assert CallOk(s, step.p, maxAttempts);
    } else {
      OnlyResponsesWriteObjects(s, replicas, step, maxAttempts);
    }
  }

  // Along a crash-retry chain the channel stays the same, so a poller that subscribed at an earlier
  // attempt waits for the channel that the last attempt closes.
  lemma ChainSharesChannel(s: State, replicas: set<Addr>, step: Step, maxAttempts: int)
    requires Inv(s, maxAttempts) && Enabled(s, replicas, step) && (step.End? || step.Retry?)
    ensures var r := s.calls[step.p].replica;
      var now := Lookup(Next(s, replicas, step, maxAttempts), r);
      now.Some? && now.value.done == s.objects[step.p].done
  {
  }

  // A local poll of an Ongoing task waits, under its number, for the channel of that task; it waits until it
  // wakes up, and no other step but a crash touches it.
  lemma PollersComeAndGo(s: State, replicas: set<Addr>, step: Step, maxAttempts: int)
    requires Enabled(s, replicas, step)
    ensures var pollers := Next(s, replicas, step, maxAttempts).pollers;
      if step.Wake? then pollers == s.pollers - {step.n}
      else if step.LocalPoll? && Lookup(s, step.r).Some? && Lookup(s, step.r).value.status == Ongoing then
        pollers == s.pollers[step.n := Poller(step.r, Lookup(s, step.r).value.done)]
      else pollers == s.pollers
  {
  }

  // A crash takes away what the replica had in memory, and nothing else.
  lemma CrashLosesWhatTheReplicaHad(s: State, r: Addr)
    ensures var s' := Crashed(s, r);
      && s'.objects == s.objects && s'.stored == s.stored && s'.closed == s.closed && s'.channels == s.channels
      && (forall q :: q in s'.held <==> q in s.held && q != r) && (forall q | q in s'.held :: s'.held[q] == s.held[q])
      && (forall p :: p in s'.calls <==> p in s.calls && s.calls[p].replica != r) && (forall p | p in s'.calls :: s'.calls[p] == s.calls[p])
      && (forall k :: k in s'.pending <==> k in s.pending && s.pending[k] != r) && (forall k | k in s'.pending :: s'.pending[k] == s.pending[k])
      && (forall n :: n in s'.pollers <==> n in s.pollers && s.pollers[n].replica != r) && (forall n | n in s'.pollers :: s'.pollers[n] == s.pollers[n])
  {
  }

  // A poller woken by the close of its channel never reads Ongoing.
  lemma WokenPollerNeverReadsOngoing(s: State, n: nat, maxAttempts: int)
    requires Inv(s, maxAttempts) && n in s.pollers && s.pollers[n].done in s.closed
    ensures var t := Lookup(s, s.pollers[n].replica); t.Some? ==> t.value.Terminal()
  {
  }

  // While a task is Ongoing on its replica, every poller there waits for the channel of its live call.
  lemma PollersWaitForTheLiveCall(s: State, n: nat, p: Ref, maxAttempts: int)
    requires Inv(s, maxAttempts) && n in s.pollers && Live(s, p)
    ensures s.pollers[n] == Poller(s.calls[p].replica, s.objects[p].done)
  {
  }

  // The task as any reader finds it: the number of attempts, and a response code or an error.
  lemma ShownTasksAreAccountedFor(s: State, t: Task, maxAttempts: int)
    requires Inv(s, maxAttempts) && Shown(s, t)
    ensures t.attempts == 1 + s.lineage.crashRetries + s.lineage.takeovers
    ensures s.lineage.jobCalls <= t.attempts <= Max(1, maxAttempts) + s.lineage.takeovers
    ensures t.Sound()
  {
  }

  // A crash retry starts strictly below the maximum, so maxAttempts - attempts decreases with it.
  lemma CrashRetryUsesUpAttempts(s: State, replicas: set<Addr>, p: Ref, detailsError: Option<string>, maxAttempts: int)
    requires Inv(s, maxAttempts) && Enabled(s, replicas, Retry(p, detailsError))
    ensures var now := Lookup(RetryCall(s, p, detailsError), s.calls[p].replica);
      && now.Some?
      && 0 <= maxAttempts - now.value.attempts < maxAttempts - s.objects[p].attempts
  {
  }

  // No Ongoing task is stranded: either it is running at its owner, or the next request on any
  // replica moves it to a new attempt run by that replica, or to Failed.
  lemma OngoingTaskIsRunningOrRetried(s: State, replicas: set<Addr>, step: Step, maxAttempts: int)
    requires Inv(s, maxAttempts) && Enabled(s, replicas, step) && Trusted(s, step) && step.Request?
    requires s.stored.Some? && s.stored.value.status == Ongoing
    ensures var owner := s.stored.value.owner;
      if owner in s.held then RunsOn(s, s.held[owner], owner)
      else var s' := HandleRequest(s, step.r, step.poll, step.probe, step.detailsError);
        && s'.stored.Some? && s'.stored == Lookup(s', step.r)
        && s'.stored.value.owner == step.r && s'.stored.value.attempts == s.stored.value.attempts + 1
        && (step.detailsError.None? ==> s'.stored.value.status == Ongoing && RunsOn(s', s'.held[step.r], step.r))
        && (step.detailsError.Some? ==> s'.stored.value.status == Failed && s'.stored.value.error == step.detailsError && Finished(s'))
  {
  }

  // ---------------------------------------------------------------------------------------------
  // What does not hold

  // An owner wrongly reported as missing gives the task two live calls.
  lemma WrongProbeForksTheCall(a: Addr, b: Addr, maxAttempts: int)
    requires a != b
    ensures var s := Created(a);
      var step := Request(b, true, Unreachable, None);
      && Inv(s, maxAttempts) && Enabled(s, {a, b}, step) && !Trusted(s, step)
      && var s' := Next(s, {a, b}, step, maxAttempts);
      && Live(s', 0) && Live(s', 1)
  {
  }

  // A clean-up that hits a running call leaves the call without its task.
  lemma EarlyCleanUpLosesTheTask(a: Addr, maxAttempts: int)
    ensures var s := Created(a);
      && Inv(s, maxAttempts) && Enabled(s, {a}, CleanUp(a)) && !Trusted(s, CleanUp(a))
      && var s' := Next(s, {a}, CleanUp(a), maxAttempts);
      && Live(s', 0) && Lookup(s', a).None? && s'.stored.None?
  {
    CreatedInv(a, maxAttempts);
    assert Live(Created(a), 0);
  }

  // The two assumptions are exactly what the invariant needs.
  lemma TakeOverIsSafeExactlyWhenTheOwnerLostTheTask(s: State, r: Addr, detailsError: Option<string>, maxAttempts: int)
    requires Inv(s, maxAttempts) && s.stored.Some? && s.stored.value.status == Ongoing && r !in s.held
    ensures Inv(TakeOver(s, r, detailsError), maxAttempts) <==> s.stored.value.owner !in s.held
  {
    var owner := s.stored.value.owner;
    if owner !in s.held {
      TakeOverKeepsInv(s, r, detailsError, maxAttempts);
    } else {
      var s' := TakeOver(s, r, detailsError);
      assert owner in s'.held && r in s'.held;
    }
  }

  lemma CleanUpIsSafeExactlyWhenNoCallRunsThere(s: State, r: Addr, maxAttempts: int)
    requires Inv(s, maxAttempts) && r in s.held
    ensures Inv(Remove(s, r), maxAttempts) <==> Trusted(s, CleanUp(r))
  {
  }

  // Takeovers are not limited by maxAttempts: a takeover stays within the maximum exactly if an
  // attempt was left, which the code does not ask.
  lemma TakeOverStaysWithinMaximumExactlyWhenAnAttemptIsLeft(s: State, r: Addr, detailsError: Option<string>, maxAttempts: int)
    requires s.stored.Some?
    ensures TakeOver(s, r, detailsError).stored.value.attempts <= maxAttempts <==> s.stored.value.attempts < maxAttempts
  {
  }

  // For instance a task with one attempt whose owner crashed
  lemma TakeoverExceedsMaxAttempts(a: Addr, b: Addr)
    requires a != b
    ensures var lost := Crashed(Created(a), a);
      var step := Request(b, false, Unreachable, None);
      && Inv(lost, 1) && Enabled(lost, {b}, step) && Trusted(lost, step)
      && Next(lost, {b}, step, 1).stored.value.attempts > 1
  {
    CreatedInv(a, 1);
    CrashKeepsInv(Created(a), a, 1);
  }

  // A crash retry abandons the channel of its chain exactly when the job's details cannot be read: the
  // task has ended, the channel is open, and no call is left that could close it.
  lemma RetryAbandonsItsChannelExactlyWhenDetailsFail(s: State, p: Ref, detailsError: Option<string>, maxAttempts: int)
    requires Inv(s, maxAttempts) && p in s.calls && s.calls[p].phase.Backoff?
    ensures Abandoned(RetryCall(s, p, detailsError), s.objects[p].done) <==> detailsError.Some?
  {
  }

  ghost predicate Abandoned(s: State, c: Channel) {
    Finished(s) && s.calls == map[] && c !in s.closed
  }

  // ---------------------------------------------------------------------------------------------
  // What becomes of every channel

  // There is a call that closes the channel, unless it is dropped first.
  predicate Promised(s: State, c: Channel) {
    exists p :: p in s.calls && p < |s.objects| && s.objects[p].done == c
  }

  // Every channel made is closed, or promised by a call, or dropped, and never two of these.
  ghost predicate Accounted(s: State) {
    && (forall c: Channel | c < s.channels :: c in s.closed || c in s.dropped || Promised(s, c))
    && (forall c: Channel | c in s.dropped :: c < s.channels && c !in s.closed && !Promised(s, c))
  }

  lemma CreatedIsAccounted(r: Addr)
    ensures Accounted(Created(r))
  {
    assert Created(r).calls[0] == Call(r, Calling);
  }

  lemma CrashKeepsAccounts(s: State, r: Addr, maxAttempts: int)
    requires Inv(s, maxAttempts) && Accounted(s)
    ensures Accounted(Crashed(s, r))
  {
  }

  // The channels and the calls on them are the same.
  ghost predicate SamePromises(s: State, s': State) {
    && s'.channels == s.channels && s'.closed == s.closed && s'.dropped == s.dropped && s'.calls.Keys == s.calls.Keys
    && (forall p | p in s.calls :: p < |s.objects| && p < |s'.objects| && s'.objects[p].done == s.objects[p].done)
  }

  lemma SamePromisesKeepAccounts(s: State, s': State)
    requires SamePromises(s, s') && Accounted(s)
    ensures Accounted(s')
  {
    assert forall c: Channel :: Promised(s', c) <==> Promised(s, c) by {
      assert forall p :: p in s.calls <==> p in s'.calls;
    }
  }

  lemma EndKeepsPromises(s: State, replicas: set<Addr>, step: Step, maxAttempts: int)
    requires Inv(s, maxAttempts) && Enabled(s, replicas, step) && (step.Respond? || step.End?)
    ensures SamePromises(s, Next(s, replicas, step, maxAttempts))
  {
  }

  lemma OtherStepsKeepPromises(s: State, replicas: set<Addr>, step: Step, maxAttempts: int)
    requires Inv(s, maxAttempts) && Enabled(s, replicas, step)
    requires !step.Respond? && !step.End? && !step.Retry? && !step.Close? && !TakesOver(s, step)
    ensures SamePromises(s, Next(s, replicas, step, maxAttempts))
  {
  }

  lemma AttemptKeepsAccounts(s: State, r: Addr, t: Task, detailsError: Option<string>)
    requires s.calls == map[] && t.done < s.channels && t.done !in s.closed && t.done !in s.dropped
    requires forall c: Channel | c < s.channels && c != t.done :: c in s.closed || c in s.dropped
    requires forall c: Channel | c in s.dropped :: c < s.channels && c !in s.closed
    ensures Accounted(Attempt(s, r, t, detailsError))
  {
    var s' := Attempt(s, r, t, detailsError);
    assert forall c: Channel :: Promised(s', c) <==> detailsError.None? && c == t.done by {
      assert detailsError.None? ==> |s.objects| in s'.calls;
    }
  }

  lemma RetryKeepsAccounts(s: State, p: Ref, detailsError: Option<string>, maxAttempts: int)
    requires Inv(s, maxAttempts) && Accounted(s) && p in s.calls && s.calls[p].phase.Backoff?
    ensures Accounted(RetryCall(s, p, detailsError))
  {
    var between := s.(calls := s.calls - {p}, lineage := s.lineage.(crashRetries := s.lineage.crashRetries + 1));
    var copy := s.calls[p].phase.copy;
    assert CallOk(s, p, maxAttempts) && Promised(s, copy.done);
    assert forall c: Channel :: Promised(s, c) <==> c == copy.done;
    assert between.calls == map[];
    AttemptKeepsAccounts(between, s.calls[p].replica, copy, detailsError);
  }

  lemma TakeOverKeepsAccounts(s: State, r: Addr, detailsError: Option<string>, maxAttempts: int)
    requires Inv(s, maxAttempts) && s.stored.Some? && !s.stored.value.Terminal() && s.stored.value.owner !in s.held
    requires Accounted(s)
    ensures Accounted(TakeOver(s, r, detailsError))
  {
    OrphanIsIdle(s, maxAttempts);
    var between := s.(channels := s.channels + 1, lineage := s.lineage.(takeovers := s.lineage.takeovers + 1));
    assert forall c: Channel :: !Promised(s, c);
    AttemptKeepsAccounts(between, r, s.stored.value.(done := s.channels), detailsError);
  }

  lemma CloseKeepsAccounts(s: State, replicas: set<Addr>, p: Ref, maxAttempts: int)
    requires Inv(s, maxAttempts) && Accounted(s) && Enabled(s, replicas, Close(p))
    ensures Accounted(Next(s, replicas, Close(p), maxAttempts))
  {
    assert CallOk(s, p, maxAttempts) && Promised(s, s.objects[p].done);
    assert forall c: Channel :: Promised(s, c) <==> c == s.objects[p].done;
    assert s.calls - {p} == map[];
  }

  lemma StepKeepsAccounts(s: State, replicas: set<Addr>, step: Step, maxAttempts: int)
    requires Inv(s, maxAttempts) && Accounted(s) && Enabled(s, replicas, step) && Trusted(s, step)
    ensures Accounted(Next(s, replicas, step, maxAttempts))
  {
    if step.Retry? {
      RetryKeepsAccounts(s, step.p, step.detailsError, maxAttempts);
    } else if step.Close? {
      CloseKeepsAccounts(s, replicas, step.p, maxAttempts);
    } else if TakesOver(s, step) {
      TakeOverKeepsAccounts(s, step.r, step.detailsError, maxAttempts);
    } else if step.Respond? || step.End? {
      EndKeepsPromises(s, replicas, step, maxAttempts);
      SamePromisesKeepAccounts(s, Next(s, replicas, step, maxAttempts));
    } else {
      OtherStepsKeepPromises(s, replicas, step, maxAttempts);
      SamePromisesKeepAccounts(s, Next(s, replicas, step, maxAttempts));
    }
  }

  // The step leaves the channel without anybody to close it: the job's details cannot be read for a
  // retry on this channel, or for a takeover on a new one.
  predicate Drops(s: State, step: Step, c: Channel) {
    || (step.Retry? && step.p in s.calls && s.calls[step.p].phase.Backoff? && step.detailsError.Some? && c == s.calls[step.p].phase.copy.done)
    || (TakesOver(s, step) && step.detailsError.Some? && c == s.channels)
  }

  lemma StepDropsExactly(s: State, replicas: set<Addr>, step: Step, c: Channel, maxAttempts: int)
    requires Enabled(s, replicas, step)
    ensures c in Next(s, replicas, step, maxAttempts).dropped <==> c in s.dropped || Drops(s, step, c)
  {
  }

  // The attempts so far change with crash retries, which have an attempt left, and with takeovers.
  lemma StepCountsAttempts(s: State, replicas: set<Addr>, step: Step, maxAttempts: int)
    requires Inv(s, maxAttempts) && Enabled(s, replicas, step)
    ensures Next(s, replicas, step, maxAttempts).lineage.Attempts() == s.lineage.Attempts() + if step.Retry? || TakesOver(s, step) then 1 else 0
    ensures step.Retry? ==> s.lineage.Attempts() < maxAttempts
    ensures TakesOver(s, step) ==> s.stored.value.attempts == s.lineage.Attempts()
  {
    LineageCountsAttempts(s, replicas, step, maxAttempts);
    if step.Retry? {
      RetryHasAnAttemptLeft(s, step.p, maxAttempts);
    }
  }

  lemma LineageCountsAttempts(s: State, replicas: set<Addr>, step: Step, maxAttempts: int)
    requires Enabled(s, replicas, step)
    ensures Next(s, replicas, step, maxAttempts).lineage.Attempts() == s.lineage.Attempts() + if step.Retry? || TakesOver(s, step) then 1 else 0
  {
  }

  lemma RetryHasAnAttemptLeft(s: State, p: Ref, maxAttempts: int)
    requires Inv(s, maxAttempts) && p in s.calls && s.calls[p].phase.Backoff?
    ensures s.lineage.Attempts() < maxAttempts
  {
    assert CallOk(s, p, maxAttempts) && HeldOk(s, s.calls[p].replica);
  }

  // ---------------------------------------------------------------------------------------------
  // Delayed deletes

  // Every timer is set once.
  ghost predicate TimersOk(s: State) {
    forall k | k in s.pending :: k < s.timers
  }

  lemma StepKeepsTimers(s: State, replicas: set<Addr>, step: Step, maxAttempts: int)
    requires TimersOk(s) && Enabled(s, replicas, step)
    ensures TimersOk(Next(s, replicas, step, maxAttempts))
  {
  }

  // The step sends the result of the task to a client: a poll on a replica that finds it in the storage, or a
  // local poll, before or after its wait.
  predicate SendsResult(s: State, step: Step) {
    match step
    case Request(r, poll, _, _) => poll && r !in s.held && s.stored.Some? && s.stored.value.Terminal()
    case LocalPoll(r, _) => Lookup(s, r).Some? && Lookup(s, r).value.Terminal()
    case Wake(n) => n in s.pollers && var t := Lookup(s, s.pollers[n].replica); t.Some? && t.value.Terminal()
    case _ => false
  }

  // A request that sends the result schedules exactly one delete, and every other step but the firing of a
  // timer leaves the scheduled deletes alone; in particular a status request schedules none.
  lemma EachResultSentSchedulesOneDelete(s: State, replicas: set<Addr>, step: Step, maxAttempts: int)
    requires TimersOk(s) && Enabled(s, replicas, step) && !step.DelayedDelete?
    ensures var s' := Next(s, replicas, step, maxAttempts);
      if SendsResult(s, step) then s.timers !in s.pending && s'.pending.Keys == s.pending.Keys + {s.timers} && s'.pending - {s.timers} == s.pending
      else s'.pending == s.pending
  {
  }

  // A delete that fires empties the storage and the entry of its replica. The task is then nowhere to be
  // found exactly when no other replica held it: the owner keeps its entry if another replica sent the result.
  lemma DeleteLeavesTheTaskNowhereExactlyWhenNoOtherReplicaHeldIt(s: State, replicas: set<Addr>, timer: nat, maxAttempts: int)
    requires Inv(s, maxAttempts) && Enabled(s, replicas, DelayedDelete(timer))
    ensures var s', r := Next(s, replicas, DelayedDelete(timer), maxAttempts), s.pending[timer];
      && s'.stored == None && Lookup(s', r) == None && timer !in s'.pending
      && ((forall t :: !Shown(s', t)) <==> s.held.Keys <= {r})
  {
    var s', r := Next(s, replicas, DelayedDelete(timer), maxAttempts), s.pending[timer];
    if q :| q in s.held && q != r {
      assert HeldOk(s, q);
      assert Shown(s', s.objects[s.held[q]]) by { assert Lookup(s', q) == Some(s.objects[s.held[q]]); }
    }
  }
}
