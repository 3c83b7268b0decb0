/**
 * One asynchronous job call, and what the Pub code does to a task record:
 * finishing a call, deciding on a retry, preparing the next attempt.
 */
module AsyncTask {
  import opened Wrappers

  type Addr = string
  // Identity of a `doneChannel`
  type Channel = nat

  datatype Status = Ongoing | Completed | Failed

  datatype Task = Task(
    status: Status,
    attempts: int,
    owner: Addr,
    code: Option<int>,
    error: Option<string>,
    retriable: bool,
    done: Channel)
  {
    predicate Terminal() {
      status != Ongoing
    }

    // What a reader of the result relies on: `*task.ResponseStatusCode` is dereferenced for
    // Completed tasks, and the error is reported for Failed ones.
    predicate Sound() {
      && (status == Completed ==> code.Some? && error.None?)
      && (status == Failed ==> error.Some?)
    }
  }

  // What makeJobCall returns
  datatype CallResult = CallOk | CallError(message: string, retriable: bool)

  // The task a new request creates
  function NewTask(me: Addr, done: Channel): (t: Task) {
    Task(Ongoing, 1, me, None, None, false, done)
  }

  // The copy that a background call fills in once its job call has ended
  function FinishedCopy(t: Task, result: CallResult): Task {
    match result
    case CallOk => t.(status := Completed, error := None, retriable := false)
    case CallError(message, retriable) => t.(status := Failed, error := Some(message), retriable := retriable)
  }

  predicate CanBeRetried(t: Task, maxAttempts: int) {
    t.attempts < maxAttempts && t.status == Failed && t.retriable
  }

  // The next attempt of a task, owned by replica `me`. `detailsError` is the failure of reading
  // the job's details from Lifecycle, if there was one.
  function NextAttempt(t: Task, me: Addr, detailsError: Option<string>): Task {
    var again := t.(attempts := t.attempts + 1, owner := me, status := Ongoing);
    match detailsError
    case None => again
    case Some(message) => again.(status := Failed, error := Some(message))
  }
}
