/**
 * Runs of a cluster of Pub replicas, and what they promise for every asynchronous task.
 * The tasks of a cluster do not touch each other: a replica's localTasks map, the storage, the
 * background calls and the channels are all kept per task, so a cluster is a set of running
 * replicas and one `AsyncLifecycle.State` per task id.
 */
module AsyncCluster {
  import opened Wrappers
  import opened AsyncTask
  import opened AsyncLifecycle

  type TaskId = string

  datatype Cluster = Cluster(replicas: set<Addr>, tasks: map<TaskId, State>)

  datatype Event =
    | Join(r: Addr)
    | Crash(r: Addr)
    | Start(r: Addr, id: TaskId)
    | Act(id: TaskId, step: Step)

  const EMPTY := Cluster({}, map[])

  ghost predicate Possible(c: Cluster, e: Event) {
    match e
    case Join(r) => r !in c.replicas
    case Crash(r) => r in c.replicas
    case Start(r, id) => r in c.replicas && id !in c.tasks
    case Act(id, step) => id in c.tasks && Enabled(c.tasks[id], c.replicas, step) && Trusted(c.tasks[id], step)
  }

  ghost function After(c: Cluster, e: Event, maxAttempts: int): Cluster
    requires Possible(c, e)
  {
    match e
    case Join(r) => c.(replicas := c.replicas + {r})
    case Crash(r) => Cluster(c.replicas - {r}, map id | id in c.tasks :: Crashed(c.tasks[id], r))
    case Start(r, id) => c.(tasks := c.tasks[id := Created(r)])
    case Act(id, step) => c.(tasks := c.tasks[id := Next(c.tasks[id], c.replicas, step, maxAttempts)])
  }

  ghost predicate IsRun(run: seq<Cluster>, events: seq<Event>, maxAttempts: int) {
    && |run| == |events| + 1
    && run[0] == EMPTY
    && forall i | 0 <= i < |events| :: Possible(run[i], events[i]) && run[i + 1] == After(run[i], events[i], maxAttempts)
  }

  // What replica r has in its localTasks map
  ghost function LocalTasks(c: Cluster, r: Addr): map<TaskId, Task> {
    map id | id in c.tasks && Lookup(c.tasks[id], r).Some? :: Lookup(c.tasks[id], r).value
  }

  ghost function Storage(c: Cluster): map<TaskId, Task> {
    map id | id in c.tasks && c.tasks[id].stored.Some? :: c.tasks[id].stored.value
  }

  // Every background call, waiting poller and local task is on a running replica.
  ghost predicate Alive(s: State, replicas: set<Addr>) {
    && s.held.Keys <= replicas
    && CallsAlive(s, replicas)
    && PollersAlive(s, replicas)
  }

  ghost predicate CallsAlive(s: State, replicas: set<Addr>) {
    forall p | p in s.calls :: s.calls[p].replica in replicas
  }

  ghost predicate PollersAlive(s: State, replicas: set<Addr>) {
    forall n | n in s.pollers :: s.pollers[n].replica in replicas
  }

  ghost predicate ClusterInv(c: Cluster, maxAttempts: int) {
    forall id | id in c.tasks :: TaskInv(c, id, maxAttempts)
  }

  ghost predicate TaskInv(c: Cluster, id: TaskId, maxAttempts: int)
    requires id in c.tasks
  {
    Inv(c.tasks[id], maxAttempts) && Alive(c.tasks[id], c.replicas) && Accounted(c.tasks[id]) && TimersOk(c.tasks[id])
  }

  lemma StepKeepsAlive(s: State, replicas: set<Addr>, step: Step, maxAttempts: int)
    requires Alive(s, replicas) && Enabled(s, replicas, step)
    ensures Alive(Next(s, replicas, step, maxAttempts), replicas)
  {
    StepKeepsPollersAlive(s, replicas, step, maxAttempts);
    StepKeepsCallsAlive(s, replicas, step, maxAttempts);
  }

  lemma StepKeepsPollersAlive(s: State, replicas: set<Addr>, step: Step, maxAttempts: int)
    requires PollersAlive(s, replicas) && Enabled(s, replicas, step)
    ensures PollersAlive(Next(s, replicas, step, maxAttempts), replicas)
  {
  }

  lemma StepKeepsCallsAlive(s: State, replicas: set<Addr>, step: Step, maxAttempts: int)
    requires CallsAlive(s, replicas) && Enabled(s, replicas, step)
    ensures CallsAlive(Next(s, replicas, step, maxAttempts), replicas)
  {
  }

  lemma CrashKeepsAlive(s: State, replicas: set<Addr>, r: Addr)
    requires Alive(s, replicas)
    ensures Alive(Crashed(s, r), replicas - {r})
  {
  }

  lemma EventKeepsTask(c: Cluster, e: Event, id: TaskId, maxAttempts: int)
    requires Possible(c, e) && id in After(c, e, maxAttempts).tasks
    requires id in c.tasks ==> TaskInv(c, id, maxAttempts)
    ensures TaskInv(After(c, e, maxAttempts), id, maxAttempts)
  {
    if e.Act? && e.id == id {
      StepKeepsInv(c.tasks[id], c.replicas, e.step, maxAttempts);
      StepKeepsAlive(c.tasks[id], c.replicas, e.step, maxAttempts);
      StepKeepsAccounts(c.tasks[id], c.replicas, e.step, maxAttempts);
      StepKeepsTimers(c.tasks[id], c.replicas, e.step, maxAttempts);
    } else if e.Crash? {
      CrashKeepsInv(c.tasks[id], e.r, maxAttempts);
      CrashKeepsAlive(c.tasks[id], c.replicas, e.r);
      CrashKeepsAccounts(c.tasks[id], e.r, maxAttempts);
    } else if e.Start? && e.id == id {
      CreatedInv(e.r, maxAttempts);
      CreatedIsAccounted(e.r);
    }
  }

  lemma EventKeepsInv(c: Cluster, e: Event, maxAttempts: int)
    requires ClusterInv(c, maxAttempts) && Possible(c, e)
    ensures ClusterInv(After(c, e, maxAttempts), maxAttempts)
  {
    var c' := After(c, e, maxAttempts);
    forall id | id in c'.tasks ensures TaskInv(c', id, maxAttempts) {
      EventKeepsTask(c, e, id, maxAttempts);
    }
  }

  lemma {:induction false} RunKeepsInv(run: seq<Cluster>, events: seq<Event>, i: nat, maxAttempts: int)
    requires IsRun(run, events, maxAttempts) && i < |run|
    ensures ClusterInv(run[i], maxAttempts)
  {
    if i > 0 {
      RunKeepsInv(run, events, i - 1, maxAttempts);
      EventKeepsInv(run[i - 1], events[i - 1], maxAttempts);
    }
  }

  // In every run, at most one background call chain is live per task across all replicas; while it
  // lives, its replica is running and holds the task as Ongoing, and the storage names that replica.
  lemma OneLiveChainPerTask(run: seq<Cluster>, events: seq<Event>, i: nat, id: TaskId, p: Ref, q: Ref, maxAttempts: int)
    requires IsRun(run, events, maxAttempts) && i < |run| && id in run[i].tasks
    requires Live(run[i].tasks[id], p) && Live(run[i].tasks[id], q)
    ensures p == q
    ensures var r := run[i].tasks[id].calls[p].replica;
      && r in run[i].replicas
      && id in LocalTasks(run[i], r) && LocalTasks(run[i], r)[id].status == Ongoing
      && id in Storage(run[i]) && Storage(run[i])[id].status == Ongoing && Storage(run[i])[id].owner == r
  {
    RunKeepsInv(run, events, i, maxAttempts);
    AtMostOneChain(run[i].tasks[id], p, q, maxAttempts);
  }

  lemma EventKeepsSettled(c: Cluster, e: Event, id: TaskId, t: Task, maxAttempts: int)
    requires Possible(c, e) && id in c.tasks && Settled(c.tasks[id], t)
    ensures var c' := After(c, e, maxAttempts); id in c'.tasks && Settled(c'.tasks[id], t)
  {
    match e
    case Join(_) =>
    case Crash(r) => CrashKeepsSettled(c.tasks[id], r, t);
    case Start(_, _) =>
    case Act(id', step) =>
      if id' == id {
        StepKeepsSettled(c.tasks[id], c.replicas, step, t, maxAttempts);
      }
  }

  // Once the storage or any replica shows a task as Completed or Failed, no later state runs it or
  // shows it with any other contents, on any replica or in the storage.
  lemma {:induction false} ResultsAreFinal(run: seq<Cluster>, events: seq<Event>, i: nat, j: nat, id: TaskId, t: Task, maxAttempts: int)
    requires IsRun(run, events, maxAttempts) && i <= j < |run| && id in run[i].tasks
    requires Shown(run[i].tasks[id], t) && t.Terminal()
    ensures id in run[j].tasks && Settled(run[j].tasks[id], t)
    ensures id in Storage(run[j]) ==> Storage(run[j])[id] == t
    ensures forall r | id in LocalTasks(run[j], r) :: LocalTasks(run[j], r)[id] == t
    decreases j
  {
    if i == j {
      RunKeepsInv(run, events, i, maxAttempts);
      ShownResultMeansFinished(run[i].tasks[id], t, maxAttempts);
    } else {
      ResultsAreFinal(run, events, i, j - 1, id, t, maxAttempts);
      EventKeepsSettled(run[j - 1], events[j - 1], id, t, maxAttempts);
    }
  }

  // A delayed delete that is still to come never hits a task that somebody runs or shows as Ongoing.
  lemma DelayedDeleteNeverHitsALiveCall(run: seq<Cluster>, events: seq<Event>, i: nat, id: TaskId, timer: nat, p: Ref, maxAttempts: int)
    requires IsRun(run, events, maxAttempts) && i < |run| && id in run[i].tasks && timer in run[i].tasks[id].pending
    ensures !Live(run[i].tasks[id], p)
    ensures forall t | Shown(run[i].tasks[id], t) :: t.Terminal()
  {
    RunKeepsInv(run, events, i, maxAttempts);
    var s := run[i].tasks[id];
    assert Over(s) && Finished(s);
    forall t | Shown(s, t) ensures t.Terminal() {
      if s.stored != Some(t) {
        var r :| Lookup(s, r) == Some(t);
        assert r in s.held;
      }
    }
  }

  // In every reachable state, every attempt beyond the first is a crash retry or a takeover, there are no
  // more job calls than attempts, and crash retries alone never exceed the maximum: a task that was never
  // taken over makes at most max(1, maxAttempts) job calls. A reader sees exactly that number of attempts.
  lemma AttemptsCountRetries(run: seq<Cluster>, events: seq<Event>, i: nat, id: TaskId, maxAttempts: int)
    requires IsRun(run, events, maxAttempts) && i < |run| && id in run[i].tasks
    ensures var l := run[i].tasks[id].lineage;
      && l.jobCalls <= 1 + l.crashRetries + l.takeovers <= Max(1, maxAttempts) + l.takeovers
      && forall t | Shown(run[i].tasks[id], t) :: t.attempts == 1 + l.crashRetries + l.takeovers
  {
    RunKeepsInv(run, events, i, maxAttempts);
    forall t | Shown(run[i].tasks[id], t) ensures t.attempts == run[i].tasks[id].lineage.Attempts() {
      ShownTasksAreAccountedFor(run[i].tasks[id], t, maxAttempts);
    }
  }

  // The event takes over a task that has used up its attempts.
  ghost predicate Overruns(c: Cluster, e: Event, id: TaskId, maxAttempts: int) {
    && e.Act? && e.id == id && id in c.tasks && TakesOver(c.tasks[id], e.step)
    && c.tasks[id].stored.value.attempts >= Max(1, maxAttempts)
  }

  // Some event before the i-th state did.
  ghost predicate Overrun(run: seq<Cluster>, events: seq<Event>, i: nat, id: TaskId, maxAttempts: int)
    requires i <= |events| <= |run|
  {
    exists j | 0 <= j < i :: Overruns(run[j], events[j], id, maxAttempts)
  }

  lemma EventCountsAttempts(c: Cluster, e: Event, id: TaskId, maxAttempts: int)
    requires Possible(c, e) && id in c.tasks && Inv(c.tasks[id], maxAttempts)
    ensures var before, after := c.tasks[id].lineage.Attempts(), After(c, e, maxAttempts).tasks[id].lineage.Attempts();
      after <= Max(1, maxAttempts) <==> before <= Max(1, maxAttempts) && !Overruns(c, e, id, maxAttempts)
  {
    if e.Act? && e.id == id {
      StepCountsAttempts(c.tasks[id], c.replicas, e.step, maxAttempts);
    }
  }

  // Over every run, the attempts of a task stay within max(1, maxAttempts) exactly as long as no request
  // takes it over when it has used them up.
  lemma {:induction false} AttemptsStayWithinMaximumExactlyWithoutOverruns(run: seq<Cluster>, events: seq<Event>, i: nat, id: TaskId, maxAttempts: int)
    requires IsRun(run, events, maxAttempts) && i < |run| && id in run[i].tasks
    ensures run[i].tasks[id].lineage.Attempts() <= Max(1, maxAttempts) <==> !Overrun(run, events, i, id, maxAttempts)
  {
    if i > 0 {
      if id in run[i - 1].tasks {
        AttemptsStayWithinMaximumExactlyWithoutOverruns(run, events, i - 1, id, maxAttempts);
        RunKeepsInv(run, events, i - 1, maxAttempts);
        assert TaskInv(run[i - 1], id, maxAttempts);
        EventCountsAttempts(run[i - 1], events[i - 1], id, maxAttempts);
      } else {
        TasksStay(run, events, i - 1, id, maxAttempts);
        TaskIsNew(run[i - 1], events[i - 1], id, maxAttempts);
      }
    }
  }

  lemma TaskIsNew(c: Cluster, e: Event, id: TaskId, maxAttempts: int)
    requires Possible(c, e) && id !in c.tasks && id in After(c, e, maxAttempts).tasks
    ensures e.Start? && After(c, e, maxAttempts).tasks[id] == Created(e.r)
  {
  }

  lemma {:induction false} TasksStay(run: seq<Cluster>, events: seq<Event>, i: nat, id: TaskId, maxAttempts: int)
    requires IsRun(run, events, maxAttempts) && i < |run| && id !in run[i].tasks
    ensures forall j | 0 <= j <= i :: id !in run[j].tasks
  {
    if i > 0 {
      assert run[i] == After(run[i - 1], events[i - 1], maxAttempts);
      TasksStay(run, events, i - 1, id, maxAttempts);
    }
  }

  // In every reachable state a Completed task carries a response code and no error, and a Failed
  // one an error message, so the result can always be sent.
  lemma ShownResultsAreComplete(run: seq<Cluster>, events: seq<Event>, i: nat, id: TaskId, t: Task, maxAttempts: int)
    requires IsRun(run, events, maxAttempts) && i < |run| && id in run[i].tasks && Shown(run[i].tasks[id], t)
    ensures t.status == Completed ==> t.code.Some? && t.error.None?
    ensures t.status == Failed ==> t.error.Some?
  {
    RunKeepsInv(run, events, i, maxAttempts);
    ShownTasksAreAccountedFor(run[i].tasks[id], t, maxAttempts);
  }

  // Over every run a channel is closed at most once, and from then on its pollers read a result or nothing.
  lemma ChannelsCloseOnce(run: seq<Cluster>, events: seq<Event>, i: nat, id: TaskId, maxAttempts: int)
    requires IsRun(run, events, maxAttempts) && i < |run| && id in run[i].tasks
    ensures var s := run[i].tasks[id];
      && (forall a, b | 0 <= a < b < |s.closed| :: s.closed[a] != s.closed[b])
      && (forall n | n in s.pollers && s.pollers[n].done in s.closed :: ReadsResult(s, s.pollers[n].replica))
  {
    RunKeepsInv(run, events, i, maxAttempts);
    var s := run[i].tasks[id];
    forall n | n in s.pollers && s.pollers[n].done in s.closed ensures ReadsResult(s, s.pollers[n].replica) {
      WokenPollerNeverReadsOngoing(s, n, maxAttempts);
    }
  }

  ghost predicate ReadsResult(s: State, r: Addr) {
    Lookup(s, r).None? || Lookup(s, r).value.Terminal()
  }

  // In every reachable state each channel ever made is closed, or belongs to a call that is to close it, or
  // was dropped, and only one of these.
  lemma ChannelsAreAccountedFor(run: seq<Cluster>, events: seq<Event>, i: nat, id: TaskId, ch: Channel, maxAttempts: int)
    requires IsRun(run, events, maxAttempts) && i < |run| && id in run[i].tasks && ch < run[i].tasks[id].channels
    ensures var s := run[i].tasks[id];
      && (ch in s.dropped <==> ch !in s.closed && !Promised(s, ch))
      && !(ch in s.closed && Promised(s, ch))
  {
    RunKeepsInv(run, events, i, maxAttempts);
    assert TaskInv(run[i], id, maxAttempts);
  }

  // The event drops the channel: the replica of its call dies, or the job's details cannot be read for the
  // next attempt on it.
  ghost predicate EventDrops(c: Cluster, e: Event, id: TaskId, ch: Channel) {
    && id in c.tasks
    && match e
       case Crash(r) => ch in ChannelsOn(c.tasks[id], r)
       case Act(id', step) => id' == id && Drops(c.tasks[id], step, ch)
       case _ => false
  }

  lemma EventDropsExactly(c: Cluster, e: Event, id: TaskId, ch: Channel, maxAttempts: int)
    requires Possible(c, e) && id in c.tasks
    ensures var c' := After(c, e, maxAttempts);
      id in c'.tasks && (ch in c'.tasks[id].dropped <==> ch in c.tasks[id].dropped || EventDrops(c, e, id, ch))
  {
    if e.Act? && e.id == id {
      StepDropsExactly(c.tasks[id], c.replicas, e.step, ch, maxAttempts);
    }
  }

  // A channel is dropped exactly if some event of the run dropped it.
  lemma {:induction false} ChannelsAreDroppedByEvents(run: seq<Cluster>, events: seq<Event>, i: nat, id: TaskId, ch: Channel, maxAttempts: int)
    requires IsRun(run, events, maxAttempts) && i < |run| && id in run[i].tasks
    ensures ch in run[i].tasks[id].dropped <==> exists j | 0 <= j < i :: EventDrops(run[j], events[j], id, ch)
  {
    if i > 0 {
      if id in run[i - 1].tasks {
        ChannelsAreDroppedByEvents(run, events, i - 1, id, ch, maxAttempts);
        EventDropsExactly(run[i - 1], events[i - 1], id, ch, maxAttempts);
      } else {
        TasksStay(run, events, i - 1, id, maxAttempts);
      }
    }
  }

  // A dropped channel is never closed, and no later call is promised to close it.
  lemma DroppedChannelsNeverClose(run: seq<Cluster>, events: seq<Event>, i: nat, j: nat, id: TaskId, ch: Channel, maxAttempts: int)
    requires IsRun(run, events, maxAttempts) && i <= j < |run| && id in run[i].tasks && ch in run[i].tasks[id].dropped
    ensures id in run[j].tasks && ch in run[j].tasks[id].dropped
    ensures ch !in run[j].tasks[id].closed && !Promised(run[j].tasks[id], ch)
  {
    if id !in run[j].tasks {
      TasksStay(run, events, j, id, maxAttempts);
    }
    ChannelsAreDroppedByEvents(run, events, i, id, ch, maxAttempts);
    ChannelsAreDroppedByEvents(run, events, j, id, ch, maxAttempts);
    RunKeepsInv(run, events, j, maxAttempts);
    assert TaskInv(run[j], id, maxAttempts);
  }

  lemma StepExtendsClosed(s: State, replicas: set<Addr>, step: Step, maxAttempts: int)
    requires Enabled(s, replicas, step)
    ensures s.closed <= Next(s, replicas, step, maxAttempts).closed
  {
  }

  lemma EventKeepsPublished(c: Cluster, e: Event, id: TaskId, p: Ref, maxAttempts: int)
    requires Possible(c, e) && id in c.tasks && Inv(c.tasks[id], maxAttempts)
    requires p < |c.tasks[id].objects| && c.tasks[id].objects[p].Terminal()
    ensures var c' := After(c, e, maxAttempts);
      && id in c'.tasks && p < |c'.tasks[id].objects|
      && c'.tasks[id].objects[p] == c.tasks[id].objects[p]
      && c.tasks[id].closed <= c'.tasks[id].closed
  {
    if e.Act? && e.id == id {
      TerminalObjectsAreFrozen(c.tasks[id], c.replicas, e.step, p, maxAttempts);
      StepExtendsClosed(c.tasks[id], c.replicas, e.step, maxAttempts);
    }
  }

  // The task objects a replica published with a terminal status, and the log of closed channels,
  // are never changed by any later event.
  lemma {:induction false} PublishedResultsAreNeverWritten(run: seq<Cluster>, events: seq<Event>, i: nat, j: nat, id: TaskId, p: Ref, maxAttempts: int)
    requires IsRun(run, events, maxAttempts) && i <= j < |run| && id in run[i].tasks
    requires p < |run[i].tasks[id].objects| && run[i].tasks[id].objects[p].Terminal()
    ensures id in run[j].tasks && p < |run[j].tasks[id].objects|
    ensures run[j].tasks[id].objects[p] == run[i].tasks[id].objects[p]
    ensures run[i].tasks[id].closed <= run[j].tasks[id].closed
    decreases j
  {
    if i < j {
      PublishedResultsAreNeverWritten(run, events, i, j - 1, id, p, maxAttempts);
      RunKeepsInv(run, events, j - 1, maxAttempts);
      EventKeepsPublished(run[j - 1], events[j - 1], id, p, maxAttempts);
    }
  }

  ghost predicate IsRunBy(s: State, r: Addr) {
    exists p: Ref :: RunsOn(s, p, r)
  }

  // In every run, an Ongoing task that its recorded owner no longer holds is moved by the next
  // request on any running replica to a new attempt there, or to Failed.
  lemma OngoingTasksAreNeverStranded(run: seq<Cluster>, events: seq<Event>, i: nat, id: TaskId, maxAttempts: int)
    requires IsRun(run, events, maxAttempts) && i < |events| && events[i].Act? && events[i].id == id && events[i].step.Request?
    requires id in Storage(run[i]) && Storage(run[i])[id].status == Ongoing
    requires id !in LocalTasks(run[i], Storage(run[i])[id].owner)
    ensures var r := events[i].step.r;
      && id in Storage(run[i + 1]) && id in LocalTasks(run[i + 1], r)
      && Storage(run[i + 1])[id] == LocalTasks(run[i + 1], r)[id]
      && Storage(run[i + 1])[id].owner == r
      && Storage(run[i + 1])[id].attempts == Storage(run[i])[id].attempts + 1
      && (Storage(run[i + 1])[id].status == Failed || IsRunBy(run[i + 1].tasks[id], r))
  {
    RunKeepsInv(run, events, i, maxAttempts);
    var s, step := run[i].tasks[id], events[i].step;
    assert Possible(run[i], events[i]);
    HeldMeansFound(s, s.stored.value.owner, maxAttempts);
    OngoingTaskIsRunningOrRetried(s, run[i].replicas, step, maxAttempts);
    var s' := run[i + 1].tasks[id];
    assert s' == HandleRequest(s, step.r, step.poll, step.probe, step.detailsError);
    assert step.detailsError.None? ==> RunsOn(s', s'.held[step.r], step.r);
  }

  // ---------------------------------------------------------------------------------------------
  // What a task is shown as, in terms of what happened to its job calls

  // The event ends the task with this status and error.
  ghost predicate EventConcludes(c: Cluster, e: Event, id: TaskId, status: Status, error: Option<string>, maxAttempts: int) {
    e.Act? && e.id == id && id in c.tasks && Concludes(c.tasks[id], e.step, status, error, maxAttempts)
  }

  // Some event before the i-th state did.
  ghost predicate Concluded(run: seq<Cluster>, events: seq<Event>, i: nat, id: TaskId, status: Status, error: Option<string>, maxAttempts: int)
    requires i <= |events| <= |run|
  {
    exists j: nat | j < i :: EventConcludes(run[j], events[j], id, status, error, maxAttempts)
  }

  // From its conclusion on the task is over, and wherever it is visible it is as concluded.
  lemma {:induction false} ConclusionIsFinal(run: seq<Cluster>, events: seq<Event>, j: nat, i: nat, id: TaskId, status: Status, error: Option<string>, maxAttempts: int)
    returns (t: Task)
    requires IsRun(run, events, maxAttempts) && j < i < |run| && EventConcludes(run[j], events[j], id, status, error, maxAttempts)
    ensures id in run[i].tasks && Settled(run[i].tasks[id], t)
    ensures t.status == status && t.error == error && t.Terminal()
    ensures run[j + 1].tasks[id].stored == Some(t)
    decreases i
  {
    if i == j + 1 {
      RunKeepsTask(run, events, j, id, maxAttempts);
      assert Possible(run[j], events[j]);
      t := ConclusionIsShown(run[j].tasks[id], run[j].replicas, events[j].step, status, error, maxAttempts);
    } else {
      t := ConclusionIsFinal(run, events, j, i - 1, id, status, error, maxAttempts);
      EventKeepsSettled(run[i - 1], events[i - 1], id, t, maxAttempts);
    }
  }

  lemma EventShowsResult(c: Cluster, e: Event, id: TaskId, t: Task, maxAttempts: int)
    requires Possible(c, e) && (id in c.tasks ==> TaskInv(c, id, maxAttempts)) && !EventConcludes(c, e, id, t.status, t.error, maxAttempts)
    requires id in After(c, e, maxAttempts).tasks && Shown(After(c, e, maxAttempts).tasks[id], t) && t.Terminal()
    ensures id in c.tasks && Shown(c.tasks[id], t)
  {
    if e.Act? && e.id == id {
      OnlyConclusionsAreShown(c.tasks[id], c.replicas, e.step, t, maxAttempts);
    } else if e.Crash? && c.tasks[id].stored != Some(t) {
      var r :| Lookup(Crashed(c.tasks[id], e.r), r) == Some(t);
      assert Lookup(c.tasks[id], r) == Some(t);
    }
  }

  lemma {:induction false} ResultWasConcluded(run: seq<Cluster>, events: seq<Event>, i: nat, id: TaskId, t: Task, maxAttempts: int)
    requires IsRun(run, events, maxAttempts) && i < |run| && id in run[i].tasks && Shown(run[i].tasks[id], t) && t.Terminal()
    ensures Concluded(run, events, i, id, t.status, t.error, maxAttempts)
  {
    if i > 0 {
      RunKeepsTask(run, events, i - 1, id, maxAttempts);
      ResultStep(run[i - 1], events[i - 1], id, t, maxAttempts);
      if !EventConcludes(run[i - 1], events[i - 1], id, t.status, t.error, maxAttempts) {
        ResultWasConcluded(run, events, i - 1, id, t, maxAttempts);
      }
    }
  }

  lemma ResultStep(c: Cluster, e: Event, id: TaskId, t: Task, maxAttempts: int)
    requires Possible(c, e) && (id in c.tasks ==> TaskInv(c, id, maxAttempts))
    requires id in After(c, e, maxAttempts).tasks && Shown(After(c, e, maxAttempts).tasks[id], t) && t.Terminal()
    ensures EventConcludes(c, e, id, t.status, t.error, maxAttempts) || (id in c.tasks && Shown(c.tasks[id], t))
  {
    if !EventConcludes(c, e, id, t.status, t.error, maxAttempts) {
      EventShowsResult(c, e, id, t, maxAttempts);
    }
  }

  // Over every run, a task is shown with a status other than Ongoing and an error or none exactly if an event
  // concluded it so: Completed by a job call that ended well, Failed with the error of a job call that ended
  // badly and was not to be retried, or with the error of reading the job's details for a retry or takeover.
  lemma ResultsAreExactlyTheConclusions(run: seq<Cluster>, events: seq<Event>, i: nat, id: TaskId, t: Task, status: Status, error: Option<string>, maxAttempts: int)
    requires IsRun(run, events, maxAttempts) && i < |run| && id in run[i].tasks && Shown(run[i].tasks[id], t) && status != Ongoing
    ensures t.status == status && t.error == error <==> Concluded(run, events, i, id, status, error, maxAttempts)
  {
    if t.status == status && t.error == error {
      ResultWasConcluded(run, events, i, id, t, maxAttempts);
    }
    if j: nat :| j < i && EventConcludes(run[j], events[j], id, status, error, maxAttempts) {
      var t' := ConclusionIsFinal(run, events, j, i, id, status, error, maxAttempts);
    }
  }

  // A job call for the task ends well.
  predicate EndsWell(e: Event, id: TaskId) {
    e.Act? && e.id == id && e.step.End? && e.step.result.CallOk?
  }

  // In particular it is shown as Completed exactly if a job call for it has ended well.
  lemma CompletedExactlyWhenACallEndedWell(run: seq<Cluster>, events: seq<Event>, i: nat, id: TaskId, t: Task, maxAttempts: int)
    requires IsRun(run, events, maxAttempts) && i < |run| && id in run[i].tasks && Shown(run[i].tasks[id], t)
    ensures t.status == Completed <==> exists j: nat | j < i :: EndsWell(events[j], id)
  {
    if t.status == Completed {
      ResultWasConcluded(run, events, i, id, t, maxAttempts);
      var j: nat :| j < i && EventConcludes(run[j], events[j], id, t.status, t.error, maxAttempts);
      assert EndsWell(events[j], id);
    }
    if j: nat :| j < i && EndsWell(events[j], id) {
      assert Possible(run[j], events[j]);
      var t' := ConclusionIsFinal(run, events, j, i, id, Completed, None, maxAttempts);
    }
  }

  // No job call for the task ends after its conclusion.
  lemma NoCallEndsAfterTheConclusion(run: seq<Cluster>, events: seq<Event>, j: nat, i: nat, id: TaskId, status: Status, error: Option<string>, maxAttempts: int)
    requires IsRun(run, events, maxAttempts) && j < i < |events| && EventConcludes(run[j], events[j], id, status, error, maxAttempts)
    ensures !(events[i].Act? && events[i].id == id && events[i].step.End?)
  {
    var t := ConclusionIsFinal(run, events, j, i, id, status, error, maxAttempts);
    assert Possible(run[i], events[i]);
  }

  // The event brings the response code of the job call that works on object p.
  predicate Responds(e: Event, id: TaskId, p: Ref, code: int) {
    e.Act? && e.id == id && e.step == Respond(p, code)
  }

  lemma RunKeepsTask(run: seq<Cluster>, events: seq<Event>, i: nat, id: TaskId, maxAttempts: int)
    requires IsRun(run, events, maxAttempts) && i < |run|
    ensures id in run[i].tasks ==> TaskInv(run[i], id, maxAttempts)
  {
    RunKeepsInv(run, events, i, maxAttempts);
  }

  lemma EventBringsResponse(c: Cluster, e: Event, maxAttempts: int)
    requires Possible(c, e) && e.Act? && e.step.Respond? && TaskInv(c, e.id, maxAttempts)
    ensures var s' := After(c, e, maxAttempts).tasks[e.id]; e.step.p < |s'.objects| && s'.objects[e.step.p].code == Some(e.step.code)
  {
    ResponseIsKept(c.tasks[e.id], c.replicas, e.step.p, e.step.code, maxAttempts);
  }

  // The code of the response to this job call, if it is among the events before the i-th state
  ghost predicate Received(events: seq<Event>, i: nat, id: TaskId, p: Ref, code: int)
    requires i <= |events|
  {
    exists k: nat | k < i :: Responds(events[k], id, p, code)
  }

  lemma ResponseStep(c: Cluster, e: Event, id: TaskId, p: Ref, code: int, maxAttempts: int)
    requires Possible(c, e) && (id in c.tasks ==> TaskInv(c, id, maxAttempts))
    requires id in After(c, e, maxAttempts).tasks && HasResponse(After(c, e, maxAttempts).tasks[id], p)
    requires After(c, e, maxAttempts).tasks[id].objects[p].code == Some(code)
    ensures Responds(e, id, p, code) || (id in c.tasks && HasResponse(c.tasks[id], p) && c.tasks[id].objects[p].code == Some(code))
  {
    if e.Act? && e.id == id && e.step.Respond? && e.step.p == p {
      EventBringsResponse(c, e, maxAttempts);
    } else if e.Act? && e.id == id {
      RespondedBefore(c.tasks[id], c.replicas, e.step, p, maxAttempts);
    }
  }

  lemma {:induction false} ResponseWasReceived(run: seq<Cluster>, events: seq<Event>, i: nat, id: TaskId, p: Ref, code: int, maxAttempts: int)
    requires IsRun(run, events, maxAttempts) && i < |run| && id in run[i].tasks && HasResponse(run[i].tasks[id], p)
    requires run[i].tasks[id].objects[p].code == Some(code)
    ensures Received(events, i, id, p, code)
  {
    if i > 0 {
      RunKeepsTask(run, events, i - 1, id, maxAttempts);
      ResponseStep(run[i - 1], events[i - 1], id, p, code, maxAttempts);
      if !Responds(events[i - 1], id, p, code) {
        ResponseWasReceived(run, events, i - 1, id, p, code, maxAttempts);
      }
    }
  }

  // A Completed task carries the response code that its job sent.
  lemma CompletedTaskCarriesTheResponse(run: seq<Cluster>, events: seq<Event>, i: nat, id: TaskId, t: Task, maxAttempts: int) returns (p: Ref)
    requires IsRun(run, events, maxAttempts) && i < |run| && id in run[i].tasks && Shown(run[i].tasks[id], t) && t.status == Completed
    ensures t.error == None && t.code.Some? && Received(events, i, id, p, t.code.value)
  {
    CompletedExactlyWhenACallEndedWell(run, events, i, id, t, maxAttempts);
    var j: nat :| j < i && EndsWell(events[j], id);
    assert Possible(run[j], events[j]);
    var t' := ConclusionIsFinal(run, events, j, i, id, Completed, None, maxAttempts);
    p := events[j].step.p;
    RunKeepsTask(run, events, j, id, maxAttempts);
    GoodEndKeepsTheCode(run[j].tasks[id], run[j].replicas, p, maxAttempts);
    ResponseWasReceived(run, events, j, id, p, t.code.value, maxAttempts);
  }

  lemma GoodEndKeepsTheCode(s: State, replicas: set<Addr>, p: Ref, maxAttempts: int)
    requires Inv(s, maxAttempts) && Enabled(s, replicas, End(p, CallResult.CallOk))
    ensures var stored := Next(s, replicas, End(p, CallResult.CallOk), maxAttempts).stored;
      HasResponse(s, p) && stored.Some? && stored.value.code == s.objects[p].code && stored.value.code.Some?
  {
    var t := CallThatEndedWellIsCompleted(s, replicas, p, maxAttempts);
  }

  // Over every run, sending the result of a task schedules exactly one delete, and a status request none.
  lemma ResultsSentAreDeletedOnce(run: seq<Cluster>, events: seq<Event>, i: nat, id: TaskId, maxAttempts: int)
    requires IsRun(run, events, maxAttempts) && i < |events| && events[i].Act? && events[i].id == id && !events[i].step.DelayedDelete?
    ensures id in run[i].tasks && id in run[i + 1].tasks
    ensures |run[i + 1].tasks[id].pending| == |run[i].tasks[id].pending| + if SendsResult(run[i].tasks[id], events[i].step) then 1 else 0
  {
    RunKeepsInv(run, events, i, maxAttempts);
    assert Possible(run[i], events[i]) && TaskInv(run[i], id, maxAttempts);
    var s, s' := run[i].tasks[id], run[i + 1].tasks[id];
    EachResultSentSchedulesOneDelete(s, run[i].replicas, events[i].step, maxAttempts);
    assert |s.pending.Keys| == |s.pending| && |s'.pending.Keys| == |s'.pending|;
  }
}
