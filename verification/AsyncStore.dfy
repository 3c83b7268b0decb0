/**
 * The task store of one Pub replica and the code that works on it. Task objects are updated in
 * place and shared by reference between the localTasks map and the background call; the storage
 * keeps copies. Each method is specified by the record functions of `AsyncTask`, the same ones the
 * steps of `AsyncLifecycle` are made of.
 */
module AsyncStore {
  import opened Wrappers
  import opened AsyncTask
  import L = AsyncLifecycle

  type TaskId = string

  // 125 minutes, in seconds
  const CLEAN_UP_TIMEOUT: int := 7500

  class TaskObject {
    const id: TaskId
    const startedAt: int
    var status: Status
    var attempts: int
    var owner: Addr
    var code: Option<int>
    var error: Option<string>
    var retriable: bool
    var done: Channel

    constructor (id: TaskId, startedAt: int, t: Task)
      ensures this.id == id && this.startedAt == startedAt && Value() == t
    {
      this.id := id;
      this.startedAt := startedAt;
      status, attempts, owner, code := t.status, t.attempts, t.owner, t.code;
      error, retriable, done := t.error, t.retriable, t.done;
    }

    function Value(): Task
      reads this
    {
      Task(status, attempts, owner, code, error, retriable, done)
    }
  }

  class TaskStorage {
    var tasks: map<TaskId, Task>

    constructor ()
      ensures tasks == map[]
    {
      tasks := map[];
    }

    method Read(id: TaskId) returns (t: Option<Task>)
      ensures t == if id in tasks then Some(tasks[id]) else None
    {
      t := if id in tasks then Some(tasks[id]) else None;
    }

    method Write(id: TaskId, t: Task)
      modifies this
      ensures tasks == old(tasks)[id := t]
    {
      tasks := tasks[id := t];
    }

    method Delete(id: TaskId)
      modifies this
      ensures tasks == old(tasks) - {id}
    {
      tasks := tasks - {id};
    }
  }

  class AsyncTaskStore {
    const myAddr: Addr
    const storage: TaskStorage
    var localTasks: map<TaskId, TaskObject>
    var channels: nat

    ghost predicate Valid()
      reads this
    {
      forall id | id in localTasks :: localTasks[id].id == id
    }

    constructor (myAddr: Addr, storage: TaskStorage)
      ensures Valid() && this.myAddr == myAddr && this.storage == storage && localTasks == map[] && channels == 0
    {
      this.myAddr := myAddr;
      this.storage := storage;
      localTasks := map[];
      channels := 0;
    }

    // CreateTask and UpdateTask
    method Publish(task: TaskObject)
      requires Valid()
      modifies this`localTasks, storage
      ensures Valid()
      ensures localTasks == old(localTasks)[task.id := task]
      ensures storage.tasks == old(storage.tasks)[task.id := task.Value()]
    {
      localTasks := localTasks[task.id := task];
      storage.Write(task.id, task.Value());
    }

    method DeleteTask(id: TaskId)
      requires Valid()
      modifies this`localTasks, storage
      ensures Valid()
      ensures localTasks == old(localTasks) - {id}
      ensures storage.tasks == old(storage.tasks) - {id}
    {
      localTasks := localTasks - {id};
      storage.Delete(id);
    }

    method Start(id: TaskId, now: int) returns (task: TaskObject)
      requires Valid()
      modifies this, storage
      ensures Valid() && fresh(task) && task.id == id && task.startedAt == now
      ensures task.Value() == NewTask(myAddr, old(channels)) && channels == old(channels) + 1
      ensures task.status == Ongoing && task.attempts == 1 && task.owner == myAddr && task.done == old(channels)
      ensures localTasks == old(localTasks)[id := task]
      ensures storage.tasks == old(storage.tasks)[id := task.Value()]
    {
      task := new TaskObject(id, now, NewTask(myAddr, channels));
      channels := channels + 1;
      Publish(task);
    }

    // handleBackgroundJobCall once the job call has ended. The task object itself is left alone: the
    // outcome goes to a fresh copy, which is published unless another attempt is due.
    method FinishCall(task: TaskObject, result: CallResult, maxAttempts: int) returns (copy: TaskObject, retry: bool)
      requires Valid()
      modifies this`localTasks, storage
      ensures Valid() && fresh(copy) && copy.id == task.id && copy.startedAt == task.startedAt
      ensures copy.Value() == FinishedCopy(task.Value(), result)
      ensures copy.code == task.code && copy.attempts == task.attempts && copy.owner == task.owner && copy.done == task.done
      ensures result.CallOk? ==> copy.status == Completed && copy.error == None
      ensures result.CallError? ==> copy.status == Failed && copy.error == Some(result.message)
      ensures retry <==> result.CallError? && result.retriable && task.attempts < maxAttempts
      ensures if retry then localTasks == old(localTasks) && storage.tasks == old(storage.tasks)
              else localTasks == old(localTasks)[task.id := copy] && storage.tasks == old(storage.tasks)[task.id := copy.Value()]
    {
      copy := new TaskObject(task.id, task.startedAt, task.Value());
      match result {
        case CallOk =>
          copy.status, copy.error, copy.retriable := Completed, None, false;
        case CallError(message, retriable) =>
          copy.status, copy.error, copy.retriable := Failed, Some(message), retriable;
      }
      retry := copy.attempts < maxAttempts && copy.status == Failed && copy.retriable;
      if !retry {
        Publish(copy);
      }
    }

    method RetryJobCall(task: TaskObject, detailsError: Option<string>) returns (calling: bool)
      requires Valid()
      modifies this`localTasks, storage, task
      ensures Valid() && calling == detailsError.None?
      ensures task.Value() == NextAttempt(old(task.Value()), myAddr, detailsError)
      ensures task.attempts == old(task.attempts) + 1 && task.owner == myAddr && task.done == old(task.done)
      ensures if calling then task.status == Ongoing else task.status == Failed && task.error == detailsError
      ensures localTasks == old(localTasks)[task.id := task]
      ensures storage.tasks == old(storage.tasks)[task.id := task.Value()]
    {
      task.attempts := task.attempts + 1;
      task.owner := myAddr;
      task.status := Ongoing;
      if detailsError.Some? {
        task.status := Failed;
        task.error := detailsError;
      }
      Publish(task);
      calling := detailsError.None?;
    }

    // TaskStatusEndpoint and TaskPollEndpoint for a task: what they publish, if anything
    method RetryIfMissing(id: TaskId, startedAt: int, probe: L.Probe, detailsError: Option<string>) returns (taken: bool)
      requires Valid()
      modifies this, storage
      ensures Valid()
      ensures taken == (id !in old(localTasks) && id in old(storage.tasks) && !old(storage.tasks)[id].Terminal()
                        && L.Missing(old(storage.tasks)[id], myAddr, probe))
      ensures !taken ==> localTasks == old(localTasks) && storage.tasks == old(storage.tasks) && channels == old(channels)
      ensures taken ==>
        var next := NextAttempt(old(storage.tasks)[id].(done := old(channels)), myAddr, detailsError);
        && channels == old(channels) + 1
        && localTasks.Keys == old(localTasks).Keys + {id} && fresh(localTasks[id]) && localTasks[id].Value() == next
        && localTasks - {id} == old(localTasks)
        && storage.tasks == old(storage.tasks)[id := next]
    {
      taken := false;
      if id in localTasks {
        return;
      }
      var stored := storage.Read(id);
      if stored.None? || stored.value.status != Ongoing {
        return;
      }
      if stored.value.owner == myAddr || !probe.Found? {
        var task := new TaskObject(id, startedAt, stored.value.(done := channels));
        channels := channels + 1;
        var calling := RetryJobCall(task, detailsError);
        assert (localTasks - {id}) == old(localTasks);
        taken := true;
      }
    }

    ghost function Obsolete(tasks: map<TaskId, TaskObject>, now: int): set<TaskId> {
      set id | id in tasks && tasks[id].startedAt + CLEAN_UP_TIMEOUT < now
    }

    // One round of cleanUpRoutine. It deletes the local entry by its key and the stored one by the id of
    // the task object; the two are the same for every entry.
    method CleanUp(now: int)
      requires Valid()
      modifies this`localTasks, storage
      ensures Valid()
      ensures forall id :: id in localTasks <==> id in old(localTasks) && now <= old(localTasks)[id].startedAt + 125 * 60
      ensures localTasks == old(localTasks) - Obsolete(old(localTasks), now)
      ensures storage.tasks == old(storage.tasks) - Obsolete(old(localTasks), now)
    {
      var unseen := localTasks.Keys;
      while unseen != {}
        invariant Valid()
        invariant unseen <= old(localTasks).Keys
        invariant localTasks == old(localTasks) - (Obsolete(old(localTasks), now) - unseen)
        invariant storage.tasks == old(storage.tasks) - (Obsolete(old(localTasks), now) - unseen)
        decreases unseen
      {
        var id :| id in unseen;
        var task := localTasks[id];
        if task.startedAt + CLEAN_UP_TIMEOUT < now {
          localTasks := localTasks - {id};
          DeleteTask(task.id);
        }
        unseen := unseen - {id};
      }
    }
  }

  // What FinishCall, RetryJobCall and RetryIfMissing leave in a replica's map and in the storage is
  // what the corresponding steps of the protocol leave there.
  lemma StepsPublishTheSameRecords(s: L.State, replicas: set<Addr>, step: L.Step, maxAttempts: int)
    requires L.Inv(s, maxAttempts) && L.Enabled(s, replicas, step)
    ensures step.End? ==>
      var r, s', copy := s.calls[step.p].replica, L.Next(s, replicas, step, maxAttempts), FinishedCopy(s.objects[step.p], step.result);
      if CanBeRetried(copy, maxAttempts) then L.Lookup(s', r) == L.Lookup(s, r) && s'.stored == s.stored
      else L.Lookup(s', r) == Some(copy) && s'.stored == Some(copy)
    ensures step.Retry? ==>
      var r, s' := s.calls[step.p].replica, L.Next(s, replicas, step, maxAttempts);
      var next := NextAttempt(s.calls[step.p].phase.copy, r, step.detailsError);
      L.Lookup(s', r) == Some(next) && s'.stored == Some(next) && (next.status == Ongoing <==> step.detailsError.None?)
    ensures step.Request? && step.r !in s.held && s.stored.Some? && !s.stored.value.Terminal() ==>
      var s' := L.Next(s, replicas, step, maxAttempts);
      if L.Missing(s.stored.value, step.r, step.probe) then
        var next := NextAttempt(s.stored.value.(done := s.channels), step.r, step.detailsError);
        L.Lookup(s', step.r) == Some(next) && s'.stored == Some(next)
      else s' == s
  {
  }
}
