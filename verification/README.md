# Racetrack: verified model of its core logic

Racetrack deploys jobs to an infrastructure and serves calls to them. This project models the parts of
it in which many steps have to fit together, and proves what they promise together:

- **Asynchronous job calls across Pub replicas** (`AsyncTask`, `AsyncLifecycle`, `AsyncCluster`,
  `AsyncStore`). Every replica keeps task objects in memory, a storage shared by all keeps copies with the
  address of the owner. Calls end, fail and are retried; replicas crash; a poll or status request on any
  replica may find the owner gone and take a task over. `AsyncLifecycle` is the state machine of one task
  across all replicas, `AsyncCluster` the runs of a whole cluster, `AsyncStore` the task store of one
  replica with its objects in the heap.
- **The record mapper** (`Schema`, `RecordMapper`, `RecordUpdate`): cascade delete over the foreign keys of
  the Lifecycle database, and updates that write only the edited fields.
- **Conditions and queries** (`SqlText`, `Conditions`, `QueryBuilder`): a tree of and/or conditions is
  compiled to flat text with positional parameters; `SqlText` is an independent reader of such text.
- **The authorization cache of Pub** (`LifecycleCache`), which answers like an append-only log.
- **The job registry** (`Jobs`, `Resources`, `RegistrySync`, `Deployments`): synchronization with the
  infrastructure, and the state machine of deployments, rollbacks, deletes and the trash.
- **Versions** (`Strings`, `SemVer`, `LatestVersion`, `VersionPattern`, `VersionAliases`).
- **Two printers and their readers** (`EventStream`, `LogFormat`).

`dafny verify dfyconfig.toml` checks the whole project.

## Assumptions

Each is a guard of a step or a parameter of an operation.

- Async calls: a handler's look-up, probe and retry are one step; publishing a task locally and in the
  storage is one step, and so are the two halves of a delete; storage writes succeed. Replica addresses are
  distinct and non-empty. `AsyncLifecycle.Trusted` holds the two assumptions that are about time: an owner
  is reported as missing only if it really lacks the entry, and the clean-up of old tasks does not hit a
  task whose call still runs on that replica. Both are shown to be exactly what is needed.
- Outcomes of job calls, probes, image builds, health checks, plugins and Lifecycle replies, clocks and new
  identifiers are parameters and range over all values. Identifiers are fresh, hashes free of collisions.
- Deployments: the operations on one job follow one another (`Deployments.Serial`); operations on different
  jobs, synchronization passes and aborts interleave freely. The manifest of a stored job carries the name
  and version of its record.
- The methods of the authorization cache are atomic, and clocks do not go back; the handler that uses the
  cache is not atomic, its requests are in flight while Lifecycle is asked. (`RecoverFailedResponse` deletes
  from the map under a read lock, pub/lifecycle_cache.go:80-84, so in the program that method is not atomic.)

## Where the code and its promises differ

The model follows the code; each point has a lemma.

- A takeover ignores `AsyncMaxAttempts`. Over every run the attempts stay within max(1, maximum) exactly as
  long as no request takes a call over that has used them up
  (`AsyncCluster.AttemptsStayWithinMaximumExactlyWithoutOverruns`).
- Not every done channel is closed. Each one is closed, or still promised by a call, or dropped, and it is
  dropped exactly by the crash of the replica that runs its call or by a failed read of the job's details
  (`AsyncCluster.ChannelsAreAccountedFor`, `AsyncCluster.ChannelsAreDroppedByEvents`); a dropped channel is
  never closed, so its pollers wait for their time-out (`AsyncCluster.DroppedChannelsNeverClose`).
- A result sent by another replica than the owner is deleted from the storage but not from the owner's memory,
  where it stays until the clean-up
  (`AsyncLifecycle.DeleteLeavesTheTaskNowhereExactlyWhenNoOtherReplicaHeldIt`).
- "A second synchronization writes nothing" fails for replica names with a comma in them and for a single
  empty name; the exact condition is proved (`RegistrySync.SecondPassWritesNothing`).
- Filter conditions are documented as "joined with AND", but they are joined without parentheses. The list
  is read as one conjunction exactly when no member has an `or` outside parentheses
  (`QueryBuilder.ListReadsAsAConjunctionExactlyWhenItsMembersDo`). Otherwise the last operand of the `or`
  captures the next condition: A or B, and C, become A or (B and C), which is right exactly for the rows where
  A implies C (`QueryBuilder.OrInAListIsRightExactlyWhereTheRestFollows`). It can be right for all rows, for
  instance when A and C are the same word, so there is no converse in terms of truth values alone.
- The clean-up of the cache is invisible exactly if the maximum time-to-live is not below the minimum, or not
  positive, in which case nothing is stored (`LifecycleCache.CleanUpNeverMattersExactlyWhenSane`).
- A version pattern of two components relates the second one to the patch number: `x.3` matches `1.2.3`
  (`VersionPattern.XPatternMatchesExactly`).
- A new deployment over an existing job that fails its health check deletes the job without a trace in the
  trash, exactly when it is forced or overwriting is allowed
  (`Deployments.FailedDeploymentLosesAnExistingJobExactlyWhenForced`).
- An update after the primary key was edited goes to the row that has the new key, or fails; the row that was
  read stays as it is (`RecordUpdate.EditedPrimaryKeyGoesToAnotherRow`).
- After an update that failed, the record counts as unchanged, because the remembered values are replaced
  before the query runs (contract of `RecordUpdate.Session.Update`).
- Keys of log lines are written as they are, so a key with an equals sign cannot be read back
  (`LogFormat.LogLineReadsBackExactlyWhenKeysArePlain`); for a key that is not a string neither the key nor the
  value is written.

## Model

| member | source | states |
|---|---|---|
| `AsyncLifecycle.StepKeepsInv` | pub/async.go:120-187 | every step of the protocol (response, end of a call, crash retry, close, poll or status request with takeover, local poll, wake-up, delayed delete, clean-up) keeps the invariant that ties local entries, storage, calls, channels, pollers and attempt counts together |
| `AsyncLifecycle.CrashKeepsInv` | pub/async_store.go:17-27 | so does the crash of a replica at any moment, which loses its tasks, calls, timers and pollers |
| `AsyncLifecycle.CrashLosesWhatTheReplicaHad` | pub/async_store.go:17-27 | a crash takes away exactly the replica's entry, calls, timers and pollers |
| `AsyncLifecycle.RetryKeepsInv` | pub/async.go:162-172 | so does a crash retry, whether or not the job's details can be read |
| `AsyncLifecycle.TakeOverKeepsInv` | pub/async.go:556-578 | so does a takeover of an Ongoing task that its owner lacks |
| `AsyncLifecycle.OrphanIsIdle` | pub/async.go:580-596 | an Ongoing task that its owner lacks is held, run and waited for by nobody, and no delete is pending for it |
| `AsyncLifecycle.AtMostOneChain` | pub/async.go:506-553 | at most one call chain is live; its replica holds it as Ongoing and the storage names that replica as owner |
| `AsyncLifecycle.ResponseIsKept` | pub/async.go:240-242 | a response code is kept in the object of the call that received it; nothing is published yet |
| `AsyncLifecycle.CallThatEndedWellIsCompleted` | pub/async.go:132-138 | a job call that ended well: replica and storage show Completed, no error, the response code, the same attempt and owner |
| `AsyncLifecycle.CallThatEndedBadlyIsRetriedOrFailed` | pub/async.go:148-181 | a job call that ended badly: back-off with nothing published if and only if the error is retriable and an attempt is left, otherwise Failed with that error |
| `AsyncLifecycle.CrashRetryShowsTheNextAttempt` | pub/async.go:513-552 | the next attempt on the same replica, Ongoing and running, or Failed with the reason why job details could not be read |
| `AsyncLifecycle.ConclusionIsShown` | pub/async.go:132-181 | the step that concludes a task leaves it settled with exactly that status and error |
| `AsyncLifecycle.OnlyConclusionsAreShown` | pub/async.go:132-181 | a result that is shown was shown before, or this step concluded it |
| `AsyncLifecycle.EachResultSentSchedulesOneDelete` | pub/async.go:636-651 | sending a result schedules exactly one delete; status requests and all other steps none |
| `AsyncLifecycle.DeleteLeavesTheTaskNowhereExactlyWhenNoOtherReplicaHeldIt` | pub/async_store.go:133-142 | a delete that fires empties the storage and its replica's entry; nothing is left anywhere if and only if no other replica held an entry |
| `AsyncLifecycle.StepKeepsSettled` | pub/async.go:563-568 | a task that has ended is never run again and keeps its contents wherever it is visible |
| `AsyncLifecycle.TerminalObjectsAreFrozen` | pub/async.go:130-160 | a task object published with a terminal status is never written again |
| `AsyncLifecycle.ChainSharesChannel` | pub/async.go:132-187 | along a crash-retry chain the done channel stays the same |
| `AsyncLifecycle.WokenPollerNeverReadsOngoing` | pub/async.go:430-457 | a poller whose channel is closed finds a result or no entry, never Ongoing |
| `AsyncLifecycle.PollersWaitForTheLiveCall` | pub/async.go:411-444 | while a call is live, every waiting poller is on its replica and waits for its channel, whichever attempt it subscribed at |
| `AsyncLifecycle.PollersComeAndGo` | pub/async.go:411-444 | a local poll of an Ongoing task waits for that task's channel until it wakes up; no other step touches it |
| `AsyncLifecycle.ShownTasksAreAccountedFor` | pub/async.go:598-634 | a visible task counts its attempts exactly, and has a code or an error according to its status |
| `AsyncLifecycle.CrashRetryUsesUpAttempts` | pub/async.go:502-516 | a crash retry starts strictly below the maximum, so maximum minus attempts decreases and stays non-negative |
| `AsyncLifecycle.OngoingTaskIsRunningOrRetried` | pub/async.go:529-552 | an Ongoing task runs at its owner, or the next request moves it to a new attempt on the asking replica or to Failed |
| `AsyncLifecycle.TakeOverIsSafeExactlyWhenTheOwnerLostTheTask` | pub/async.go:580-596 | a takeover keeps the invariant if and only if the owner lacks the entry |
| `AsyncLifecycle.CleanUpIsSafeExactlyWhenNoCallRunsThere` | pub/async_store.go:144-169 | a clean-up keeps the invariant if and only if no call for it is live on that replica |
| `AsyncLifecycle.WrongProbeForksTheCall` | pub/async.go:586-592 | an owner wrongly taken for missing leads to two live calls |
| `AsyncLifecycle.EarlyCleanUpLosesTheTask` | pub/async_store.go:84-84 | a clean-up that is too early leaves a live call whose task is nowhere to be found |
| `AsyncLifecycle.TakeOverStaysWithinMaximumExactlyWhenAnAttemptIsLeft` | pub/async.go:556-578 | a takeover stays within the maximum if and only if an attempt was left, which is not asked |
| `AsyncLifecycle.TakeoverExceedsMaxAttempts` | pub/async.go:573-573 | a reachable state in which it does not |
| `AsyncLifecycle.StepCountsAttempts` | pub/async.go:513-513 | attempts grow exactly with crash retries, which have an attempt left, and with takeovers |
| `AsyncLifecycle.RetryAbandonsItsChannelExactlyWhenDetailsFail` | pub/async.go:529-552 | a crash retry leaves its channel open with no call to close it if and only if the job's details cannot be read |
| `AsyncLifecycle.StepKeepsAccounts` | pub/async.go:162-187 | every step keeps the account of channels: each is closed, promised by a call, or dropped, and only one of these |
| `AsyncLifecycle.CrashKeepsAccounts` | pub/async_store.go:17-27 | so does a crash, which drops the channels of the calls it kills |
| `AsyncLifecycle.StepDropsExactly` | pub/async.go:543-552 | a step drops a channel if and only if it is a retry or takeover on it without job details |
| `AsyncCluster.RunKeepsInv` | pub/async.go:40-118 | in every reachable state of a cluster, every task satisfies the invariant and everything that runs or waits is on a running replica |
| `AsyncCluster.OneLiveChainPerTask` | pub/async.go:506-596 | over every run, at most one call chain per task across all replicas, with matching local and stored entries |
| `AsyncCluster.ResultsAreFinal` | pub/async_store.go:114-142 | once any replica or the storage shows a result, every later state shows that very result or nothing |
| `AsyncCluster.ResultsAreExactlyTheConclusions` | pub/async.go:130-181 | over every run, a task is shown with a given result if and only if an event concluded it so: a good end, a bad end with no retry due, or failed job details |
| `AsyncCluster.CompletedExactlyWhenACallEndedWell` | pub/async.go:135-138 | over every run, shown as Completed if and only if a job call for it ended well |
| `AsyncCluster.CompletedTaskCarriesTheResponse` | pub/async.go:242-264 | its code is one that the job sent for that call |
| `AsyncCluster.NoCallEndsAfterTheConclusion` | pub/async.go:182-186 | after the conclusion no further job call ends |
| `AsyncCluster.ResultsSentAreDeletedOnce` | pub/async.go:636-651 | over every run, the number of pending deletes grows by one exactly when a result is sent |
| `AsyncCluster.DelayedDeleteNeverHitsALiveCall` | pub/async.go:636-651 | while a delayed delete is pending nobody runs that task or shows it as Ongoing |
| `AsyncCluster.AttemptsCountRetries` | pub/async.go:162-172 | in every reachable state, visible or not: job calls are at most one plus crash retries plus takeovers, which is at most max(1, maximum) plus takeovers; a reader sees exactly that number of attempts |
| `AsyncCluster.AttemptsStayWithinMaximumExactlyWithoutOverruns` | pub/async.go:556-578 | over every run, attempts stay within max(1, maximum) if and only if no request so far took over a call that had used them up |
| `AsyncCluster.ShownResultsAreComplete` | pub/async.go:242-264 | Completed comes with a response code and no error, Failed with an error |
| `AsyncCluster.ChannelsCloseOnce` | pub/async.go:182-186 | over every run each channel is closed at most once, and its pollers then read a result or nothing |
| `AsyncCluster.ChannelsAreAccountedFor` | pub/async.go:162-187 | in every reachable state, each channel ever made is in exactly one of three states: closed, promised by a call, dropped |
| `AsyncCluster.ChannelsAreDroppedByEvents` | pub/async.go:529-552 | a channel is dropped if and only if an earlier event dropped it: a crash of its call's replica, or a failed read of job details |
| `AsyncCluster.DroppedChannelsNeverClose` | pub/async.go:162-172 | over every run, a dropped channel stays dropped, is never closed and never promised again |
| `AsyncCluster.PublishedResultsAreNeverWritten` | pub/async.go:130-181 | over every run, terminal task objects and the log of closed channels are never changed |
| `AsyncCluster.OngoingTasksAreNeverStranded` | pub/async.go:305-325 | over every run, the next request for an orphaned task moves it to a new attempt of the asking replica or to Failed |
| `AsyncStore.AsyncTaskStore.Publish` | pub/async_store.go:103-119 | publishing shares the object locally and stores a copy of its value; nothing else changes |
| `AsyncStore.AsyncTaskStore.DeleteTask` | pub/async_store.go:133-142 | the entry disappears from both maps, the others stay |
| `AsyncStore.AsyncTaskStore.Start` | pub/async.go:84-100 | a new request publishes a fresh first attempt on a channel of its own |
| `AsyncStore.AsyncTaskStore.FinishCall` | pub/async.go:132-181 | a fresh copy, Completed without error or Failed with the call's error, which is published unless the error is retriable and an attempt is left; the shared object is untouched |
| `AsyncStore.AsyncTaskStore.RetryJobCall` | pub/async.go:506-553 | the object becomes the next attempt of this replica, Ongoing, or Failed with the reason if the job's details are missing, and is published |
| `AsyncStore.AsyncTaskStore.RetryIfMissing` | pub/async.go:290-325 | a request publishes something exactly if the async call is stored as Ongoing, not held here and missing at its owner |
| `AsyncStore.AsyncTaskStore.CleanUp` | pub/async_store.go:144-169 | exactly the tasks started more than 125 minutes ago go, locally by key and in the storage by the object's own id |
| `AsyncStore.StepsPublishTheSameRecords` | pub/async.go:154-181 | the steps of the protocol leave in map and storage what these methods leave there |
| `Schema.RacetrackIsRanked` | lifecycle/lifecycle/database/schema/tables.py:347-361 | in the list of all tables, every table comes after the tables it refers to |
| `Schema.FamilyTakesItsJobsAndPermissions` | lifecycle/lifecycle/database/schema/tables.py:280-289 | the diamond: with a job family go its jobs, the permissions for these and the permissions for the family |
| `Schema.OwnersTakeTheirSubjectsTokensAndPermissions` | lifecycle/lifecycle/database/schema/tables.py:211-266 | with a user, an ESC or a family go its auth subject, that subject's tokens and permissions |
| `Schema.JobsTakeTheirEndpointRequests` | lifecycle/lifecycle/database/schema/tables.py:120-127 | with a job go its public endpoint requests |
| `Schema.ClosedDeletionKeepsIntact` | lifecycle/lifecycle/database/record_mapper.py:394-407 | deleting a set that contains every record referring to a member leaves no dangling foreign key |
| `Schema.FamilyInClosedSet` | lifecycle/lifecycle/database/record_mapper.py:394-407 | everything that reaches a record through foreign keys lies in any such set that has its direct dependants |
| `RecordMapper.Mapper.PopulateDependants` | lifecycle/lifecycle/database/record_mapper.py:409-415 | the index lists exactly the reversed foreign keys of the schema |
| `RecordMapper.Mapper.FindMany` | lifecycle/lifecycle/database/record_mapper.py:60-83 | exactly the rows that refer to the key, each once |
| `RecordMapper.Mapper.DeleteOne` | lifecycle/lifecycle/database/base_engine.py:82-89 | one row is deleted, or the statement fails because there is none |
| `RecordMapper.Mapper.DeleteRecord` | lifecycle/lifecycle/database/record_mapper.py:365-379 | removes exactly the record and everything that reaches it through reversed foreign keys, diamonds included; no single-row delete misses its row unless the record itself does not exist; no intermediate state has a dangling key; terminates by table rank |
| `RecordMapper.Mapper.DeleteCascadeDependencies` | lifecycle/lifecycle/database/record_mapper.py:394-407 | when it ends, all direct dependants are gone, only members of the family are, and the record is still there |
| `RecordMapper.DeletingOneDependant` | lifecycle/lifecycle/database/record_mapper.py:402-404 | a record found by the query is still there when its turn comes, although the ones before it took their families along |
| `RecordUpdate.Session.Find` | lifecycle/lifecycle/database/record_mapper.py:441-454 | a record remembers the row it was read from |
| `RecordUpdate.Session.Update` | lifecycle/lifecycle/database/record_mapper.py:291-318 | exactly the changed fields are written, to the record with the current primary key; an update without changes always succeeds; a failed update still replaces the remembered values |
| `RecordUpdate.UpdateKeepsKeys` | lifecycle/lifecycle/database/record_mapper.py:303-318 | no update moves, adds or removes a row |
| `RecordUpdate.UpdateWritesExactlyTheEdits` | lifecycle/lifecycle/database/record_mapper.py:466-478 | after read, edit and update the whole database is the current one, except for the edited fields of the one record |
| `RecordUpdate.EditedPrimaryKeyGoesToAnotherRow` | lifecycle/lifecycle/database/record_mapper.py:303-305 | with an edited primary key the update succeeds if and only if a row with the new key exists, and the row that was read is untouched |
| `RecordUpdate.SessionsCommuteExactlyWhenEditsAgree` | lifecycle/lifecycle/database/record_mapper.py:291-318 | two updates have the same outcomes in either order, and leave the same database if and only if they are for different records, or for a missing one, or agree on the fields both write |
| `RecordUpdate.DeleteCommutesWithUpdate` | lifecycle/lifecycle/database/base_engine.py:82-89 | a delete before or after an update leaves the same database; the update fails because of it if and only if it had something to write to a deleted record |
| `RecordUpdate.DirtyUpdateIsFullUpdateWithoutOtherWriters` | lifecycle/lifecycle/database/record_mapper.py:306-312 | the database is the same as after a full-row update if and only if the record is missing or nobody else changed an unedited field meanwhile |
| `SqlText.EvaluableIsAligned` | lifecycle/lifecycle/database/condition_builder.py:5-8 | a condition that can be evaluated has as many parameters as placeholders |
| `SqlText.ReadOrExtends` | lifecycle/lifecycle/database/condition_builder.py:22-24 | what a text means does not depend on what follows it, unless that continues the expression |
| `Conditions.EvalJoinedOr` | lifecycle/lifecycle/database/condition_builder.py:18-25 | joined alternatives evaluate to the disjunction of their values |
| `Conditions.EvalJoinedAnd` | lifecycle/lifecycle/database/condition_builder.py:28-35 | joined conditions evaluate to their conjunction |
| `Conditions.BuildPreservesMeaning` | lifecycle/lifecycle/database/condition_builder.py:17-35 | for every nesting, with empty conditions anywhere, reading the text with the usual precedence gives the truth value of the tree |
| `Conditions.BuildIsAligned` | lifecycle/lifecycle/database/condition_builder.py:24-45 | placeholders and parameters agree in number |
| `QueryBuilder.Select` | lifecycle/lifecycle/database/postgres/query_builder.py:41-60 | fields, table, join, where clause, order, limit and offset in place, each with its own value, placeholders and parameters aligned |
| `QueryBuilder.Update` | lifecycle/lifecycle/database/postgres/query_builder.py:77-94 | the i-th assignment is of the i-th column and the i-th parameter its value; the where clause and its parameters come after them |
| `QueryBuilder.UpdateStatementMeansTheEdits` | lifecycle/lifecycle/database/postgres/query_builder.py:84-94 | read independently, the statement writes to every column the value given for it, on the rows for which the condition tree holds |
| `QueryBuilder.DeleteOrCount` | lifecycle/lifecycle/database/postgres/query_builder.py:96-122 | likewise for delete and count |
| `QueryBuilder.WhereClauseMeansTheTree` | lifecycle/lifecycle/database/postgres/query_builder.py:124-134 | the where clause of a condition tree selects the rows for which the tree holds; a tree without conditions selects all rows and its stray parameter does not reach the query |
| `QueryBuilder.WhereClauseIsAConjunction` | lifecycle/lifecycle/database/postgres/query_builder.py:131-134 | a list of one condition, or of conditions without a bare `or`, selects the rows for which all hold |
| `QueryBuilder.ListReadsAsAConjunctionExactlyWhenItsMembersDo` | lifecycle/lifecycle/database/postgres/query_builder.py:131-134 | joined conditions are read as one conjunction with nothing left over if and only if each of them is |
| `QueryBuilder.OrInAListIsRightExactlyWhereTheRestFollows` | lifecycle/lifecycle/database/postgres/query_builder.py:131-134 | for every pair with a bare `or` in the first: what is selected instead, and that it is the conjunction if and only if the freed part implies the second condition |
| `QueryBuilder.OrInAListIsNotAConjunction` | lifecycle/lifecycle/database/postgres/query_builder.py:29-29 | a list that selects more than the conjunction |
| `LifecycleCache.Cache.Put` | pub/lifecycle_cache.go:40-54 | stores the answer, appends it to the log and keeps the two in step |
| `LifecycleCache.Cache.RetrieveResponse` | pub/lifecycle_cache.go:56-71 | the entry for the request if it is no older than the minimum; with the limits in order, the last answer ever stored for it |
| `LifecycleCache.Cache.RecoverFailedResponse` | pub/lifecycle_cache.go:73-89 | the last answer ever stored, if it is no older than the maximum |
| `LifecycleCache.Cache.CleanUp` | pub/lifecycle_cache.go:91-102 | drops exactly what has outlived the maximum, and stays in step with the log |
| `LifecycleCache.Cache.BeginAuthorization` | pub/proxy.go:245-259 | a request is answered at once exactly from an entry no older than the minimum |
| `LifecycleCache.Cache.FinishAuthorization` | pub/proxy.go:261-310 | the answer or error code, the cache and the log after Lifecycle's reply, whatever happened to the cache since the request came |
| `LifecycleCache.AnswersAreFreshOrRecent` | pub/proxy.go:245-310 | over every run, with requests in flight and clean-ups in between: every served answer is Lifecycle's own reply, or the last one stored for this request when it came, aged at most the minimum, or, only after a failure other than of authentication, the last one stored when the failure came, aged at most the maximum |
| `LifecycleCache.RecentAnswersAreServedAtOnce` | pub/proxy.go:245-259 | conversely, over every run with the limits in order: a request is served at once if and only if the last answer stored for it is aged at most the minimum, and waits otherwise |
| `LifecycleCache.RepliesAreAnswered` | pub/proxy.go:266-310 | over every run: a granted reply is served; after a failure other than of authentication the last stored answer is served if and only if it is aged at most the maximum, else 404, 503 or 500 by kind of failure; failed authentication is 401 |
| `LifecycleCache.GrantedAnswersAreStored` | pub/proxy.go:306-308 | a granted answer becomes the last stored one for its request if the maximum is positive; nothing else changes what is stored |
| `LifecycleCache.WaitingWasAsked` | pub/proxy.go:261-266 | Lifecycle is only asked about a request that could not be answered when it came |
| `LifecycleCache.LatestIsLast` | pub/lifecycle_cache.go:51-53 | what the log gives is a stored answer for this request with none stored after it |
| `LifecycleCache.CacheAnswersLikeLog` | pub/lifecycle_cache.go:40-102 | over every such run with the limits in order, the response to every event is the one the append-only log gives |
| `LifecycleCache.CleanUpsAreInvisible` | pub/lifecycle_cache.go:91-102 | two worlds with the same log and requests in flight respond alike for ever, one with and one without clean-ups |
| `LifecycleCache.CleanUpNeverMattersExactlyWhenSane` | pub/lifecycle_cache.go:91-102 | removing all clean-ups from any run the program can make changes no response, if and only if the minimum does not exceed the maximum or the maximum is not positive |
| `LifecycleCache.CleanUpHidesAYoungAnswer` | pub/lifecycle_cache.go:29-38 | a possible run in which it matters, for all limits out of order |
| `Resources.ResourceNameIsInjective` | racetrack_commons/racetrack_commons/deploy/resource.py:1-6 | no two jobs with dot-free names and label-free versions share a key |
| `Resources.ResourceNameIsALabel` | racetrack_commons/racetrack_commons/deploy/resource.py:1-6 | the name has no dots, and is made of the parts as they are if these have none |
| `Resources.DottedNamesCollide` | racetrack_commons/racetrack_commons/deploy/resource.py:6-6 | names with dots share keys |
| `Resources.LabelledVersionsCollide` | racetrack_commons/racetrack_commons/deploy/resource.py:6-6 | versions with labels may share keys |
| `RegistrySync.NamesRoundTrip` | lifecycle/lifecycle/job/models_registry.py:170-170 | replica names are read back as written if and only if none has a comma and they are not one empty name |
| `RegistrySync.SyncJob` | lifecycle/lifecycle/job/registry.py:164-200 | the job takes over what the infrastructure knows, and a change is flagged exactly if there is one |
| `RegistrySync.NoticeSaysWhatIsObsolete` | lifecycle/lifecycle/job/registry.py:207-215 | the obsolete notice is in the notice text if and only if the job type is not available or the infrastructure reports it already; the other notices are those reported |
| `RegistrySync.SecondPassIsQuietExactlyWhenNamesAreStorable` | lifecycle/lifecycle/job/registry.py:199-200 | for one job: a second pass has nothing to write if and only if its replica names can be stored |
| `RegistrySync.Registry.SyncOne` | lifecycle/lifecycle/job/registry.py:136-148 | the new record, and a write exactly if the job changed |
| `RegistrySync.Registry.SyncRegistered` | lifecycle/lifecycle/job/registry.py:135-148 | all records after the pass, the writes in order, and the counts of the new statuses |
| `RegistrySync.Registry.SyncRegistryJobs` | lifecycle/lifecycle/job/registry.py:121-161 | the registry, the writes and the counts after the whole pass: STARTING records are unchanged, jobs not reported are LOST and otherwise the same, reported jobs have everything the infrastructure reports and the later last call time; one ORPHANED for each reported key without a registered job |
| `RegistrySync.Registry.SyncWholeRegistry` | lifecycle/lifecycle/job/registry.py:121-161 | when each job has its own key, every status is counted once per job of the registry that has it afterwards, plus one ORPHANED per reported key the registry lacks; the counts sum to the registry's jobs plus these |
| `RegistrySync.Registry.SyncTwice` | lifecycle/lifecycle/supervisor/scheduler.py:26-26 | of two passes in a row on one listing of the infrastructure, both are conservative and count everything, and the second writes nothing if and only if all reported replica names can be stored |
| `RegistrySync.NoJobIsLostExactlyWithDistinctKeys` | lifecycle/lifecycle/job/registry.py:203-204 | the job map has as many jobs as the listing if and only if no two share a key |
| `RegistrySync.WholeListing` | lifecycle/lifecycle/job/registry.py:132-135 | with keys of their own, the job map of a whole listing has every job of the registry |
| `RegistrySync.CountOrphans` | lifecycle/lifecycle/job/registry.py:150-155 | the number of distinct infrastructure keys that the registry lacks |
| `RegistrySync.JobMapIsKeyed` | lifecycle/lifecycle/job/registry.py:203-204 | the job map has exactly the keys of the jobs, each with a job of that key, in order of insertion |
| `RegistrySync.LastJobStays` | lifecycle/lifecycle/job/registry.py:203-204 | of several jobs with the same key the map has the last |
| `RegistrySync.UniqueKeysKeepEveryJob` | lifecycle/lifecycle/job/registry.py:203-204 | with unique keys, a pass gets to every job |
| `RegistrySync.PlainJobsHaveTheirOwnKeys` | racetrack_commons/racetrack_commons/deploy/resource.py:1-6 | jobs with dot-free names and label-free versions never merge in a pass |
| `RegistrySync.SecondPassWritesNothing` | lifecycle/lifecycle/job/registry.py:199-200 | a second pass on the same listing writes nothing if and only if all reported replica names can be stored |
| `Deployments.RunKeepsInv` | lifecycle/lifecycle/job/models_registry.py:197-255 | over every run: ids are unique, no job is in registry and trash at once, a job under deployment has a record except before its first one is saved |
| `Deployments.DeletedJobsNeverReturn` | lifecycle/lifecycle/deployer/deploy.py:159-167 | over every run a deleted name and version stays out of the registry, is not under deployment and would be refused |
| `Deployments.EstablishedJobsAreNeverReplaced` | lifecycle/lifecycle/deployer/deploy.py:150-157 | over every run a deployed job keeps its record until it is deleted, and then stays in the trash |
| `Deployments.FailedHealthCheckLeavesNoRecord` | lifecycle/lifecycle/deployer/provision.py:97-108 | a first deployment that fails its health check leaves no record and no trash, so it can be claimed again; a redeployment leaves its record; other jobs are untouched |
| `Deployments.RecordsAreThereWhenNeeded` | lifecycle/lifecycle/deployer/provision.py:115-130 | the record to mark or to roll back exists, a new record is created exactly by first deployments, and no trash entry has the id of a deleted job already |
| `Deployments.DeployedJobsAreStartingAndThenRunning` | lifecycle/lifecycle/deployer/provision.py:89-116 | over every run, the record of a deployment is STARTING from its save to its end, whatever else happens, and RUNNING after a good end |
| `Deployments.JobsAreDeletedExactlyWhenLostOrDecommissioned` | lifecycle/lifecycle/job/registry.py:76-91 | a delete moves the job to the trash under its id if and only if it exists and is LOST or decommissioned first, and otherwise changes nothing |
| `Deployments.DeletedJobReturnsExactlyWhenForced` | lifecycle/lifecycle/deployer/deploy.py:44-45 | a new deployment brings a deleted job back if and only if it is forced or overwriting is allowed |
| `Deployments.FailedDeploymentLosesAnExistingJobExactlyWhenForced` | lifecycle/lifecycle/deployer/provision.py:103-108 | a new deployment over an existing job that fails its health check deletes it without a trash entry if and only if it is forced or overwriting is allowed; otherwise nothing changes |
| `Deployments.DeleteDuringDeploymentRevivesTheJob` | lifecycle/lifecycle/deployer/redeploy.py:26-45 | a delete in the middle of a redeployment is undone by it |
| `Deployments.ConcurrentDeploymentsLoseTheJob` | lifecycle/lifecycle/deployer/provision.py:123-130 | of two first deployments of a job, the one that fails deletes the record of the one that succeeded |
| `Deployments.JobRegistry.ProtectJobOverwriting` | lifecycle/lifecycle/deployer/deploy.py:150-167 | admits a job exactly if forced or neither registered nor in the trash |
| `Deployments.JobRegistry.ProvisionJob` | lifecycle/lifecycle/deployer/provision.py:30-120 | the record of the job for every outcome: unchanged, rolled back unless there was a previous job, STARTING or RUNNING with the id it had; other jobs and the trash untouched; the same as the steps of the state machine |
| `Deployments.JobRegistry.DeployNewJob` | lifecycle/lifecycle/deployer/deploy.py:31-63 | a refused deployment changes nothing, the others take the steps of the state machine |
| `Deployments.JobRegistry.RedeployJob` | lifecycle/lifecycle/deployer/redeploy.py:16-87 | likewise, for a job that exists |
| `Deployments.JobRegistry.DeleteJob` | lifecycle/lifecycle/job/registry.py:69-93 | fails without a change for a missing job or a failed decommission; otherwise the job moves to the trash |
| `SemVer.ParseAcceptsExactlyVersions` | racetrack_client/racetrack_client/utils/semver.py:17-26 | a text is accepted if and only if it is three numbers with dots and a label on one line |
| `SemVer.ParseFindsASplit` | racetrack_client/racetrack_client/utils/semver.py:17-26 | the parts found make up the text, with the longest possible patch number |
| `SemVer.PrintParse` | racetrack_client/racetrack_client/utils/semver.py:78-79 | a version is recovered from its text if and only if its label is on one line and does not start with a digit |
| `SemVer.ReparsePrinted` | racetrack_client/racetrack_client/utils/semver.py:78-79 | printing and parsing a parsed version gives it back |
| `SemVer.CompareIsATotalOrder` | racetrack_client/racetrack_client/utils/semver.py:81-136 | comparison is antisymmetric, transitive, total, and zero exactly for equal versions |
| `SemVer.CompareIsByPrecedence` | racetrack_client/racetrack_client/utils/semver.py:89-130 | less means a smaller major, then minor, then patch number, then a label before none, then the smaller character at the first difference of two labels |
| `SemVer.PreReleaseSortsBelowItsRelease` | racetrack_client/racetrack_client/utils/semver.py:117-130 | a label sorts below its release (section 11 of Semantic Versioning 2.0.0) and above earlier releases |
| `LatestVersion.ByVersionIsLast` | racetrack_client/racetrack_client/utils/semver.py:36-36 | of several objects with one version the dictionary keeps the last |
| `LatestVersion.FindLatestFindsTheLatest` | racetrack_client/racetrack_client/utils/semver.py:28-71 | an input element that passes the filter and precedes no other that does; nothing exactly if none passes; an error exactly if a version is malformed |
| `VersionPattern.PatternMatchesWhatItCovers` | racetrack_client/racetrack_client/utils/semver.py:148-160 | the compiled expression matches exactly what its components cover, although its wildcard spans dots |
| `VersionPattern.XPatternMatchesExactly` | racetrack_client/racetrack_client/utils/semver.py:148-187 | for every x-pattern and label-free version, a match component by component |
| `VersionPattern.AsteriskPatternMatchesExactly` | racetrack_client/racetrack_client/utils/semver.py:162-179 | the same for every asterisk pattern without a label |
| `VersionAliases.ResolvedJobIsTheLatest` | lifecycle/lifecycle/job/models_registry.py:51-107 | an alias resolves to a job of that name, not starting, with the greatest stable version it selects, and to nothing only if there is none |
| `VersionAliases.ExactVersionResolvesToItsJob` | lifecycle/lifecycle/job/models_registry.py:64-65 | any other version resolves to a job of exactly that name and version, if and only if there is one |
| `VersionAliases.FoundVersionIsTheLatest` | racetrack_commons/racetrack_commons/deploy/job_type.py:80-93 | the greatest of the listed versions that the alias lets through |
| `VersionAliases.MatchedJobTypeIsTheGreatestMatch` | racetrack_commons/racetrack_commons/deploy/job_type.py:75-97 | an alias gives the same name with the greatest listed version it matches, or fails because none matches; anything else gives itself if and only if it is listed |
| `VersionAliases.MatchedJobTypeIsListed` | racetrack_commons/racetrack_commons/deploy/job_type.py:68-97 | the result is a member of the list, whose entries have one colon each, as is asserted when they are gathered |
| `VersionAliases.SecondColonIsCutOff` | racetrack_commons/racetrack_commons/deploy/job_type.py:81-85 | without that assertion it may not be |
| `EventStream.SseGenerator` | racetrack_commons/racetrack_commons/api/server_sent_events.py:39-47 | one heartbeat per empty poll, then the result |
| `EventStream.EveryTimeoutSendsOneHeartbeat` | racetrack_commons/racetrack_commons/api/server_sent_events.py:39-47 | the stream has exactly one heartbeat line per empty poll, besides what the result itself has |
| `EventStream.MakeSseRequest` | racetrack_commons/racetrack_commons/api/server_sent_events.py:57-67 | the loop over the lines drops exactly the heartbeats |
| `EventStream.ReceivedAsSentExactlyWhenPlain` | racetrack_commons/racetrack_commons/api/server_sent_events.py:60-64 | a text comes through unchanged if and only if all its lines end in a newline and none is a heartbeat |
| `EventStream.StreamedResult` | racetrack_commons/racetrack_commons/api/server_sent_events.py:82-90 | for every number of heartbeats the client extracts what came through of the data line |
| `EventStream.PayloadSurvivesExactlyWhenPlain` | racetrack_commons/racetrack_commons/api/server_sent_events.py:39-90 | for every number of heartbeats and every payload, it is recovered if and only if it is plain |
| `EventStream.UnbrokenPayloadSurvives` | racetrack_commons/racetrack_commons/api/server_sent_events.py:39-90 | in particular every payload on one line is |
| `LogFormat.EscapeString` | pub/log.go:199-240 | the two scans with their flags compute the escaped and, where needed, quoted form |
| `LogFormat.ValueReadsBack` | pub/log.go:199-240 | every rune string is read back from its form, whatever follows on the line |
| `LogFormat.UnquotedHasNoQuotes` | pub/log.go:231-236 | an unquoted form has no character that would ask for quotes, so the two are never confused |
| `LogFormat.ValueIsQuotedExactlyWhenNeeded` | pub/log.go:199-212 | a value is quoted if and only if it has white space or a control character, an equals sign or a quote, and unchanged if and only if it has none of these and no backslash |
| `LogFormat.Logfmt` | pub/log.go:120-142 | the loop writes the pairs, with or without colour, separated by spaces and a newline |
| `LogFormat.LineReadsBackExactlyWhenKeysArePlain` | pub/log.go:120-142 | any list of pairs is read back from its line if and only if no key has an equals sign |
| `LogFormat.LogLineReadsBackExactlyWhenKeysArePlain` | pub/log.go:120-142 | what logfmt writes for a context, in every colour, is read back if and only if no string key has an equals sign |
| `LogFormat.ContextReadsBack` | pub/log.go:120-142 | every string key without an equals sign is recovered with its own value, in every colour |

## Left out

- HTTP, gin, websockets, forwarding of requests, the quit channel and cancelled requests: input and output.
- Response bodies and headers of async calls, and their timestamps: they travel with the response code.
- A storage that fails between the local and the stored half of a write or delete, and replicas that change
  their address.
- Metrics, logging of messages, audit events: no effect on the modelled state.
- Access control (users, tokens, permissions, ESCs), except as tables of the cascade delete.
- SHA-256, UUIDs, JSON and YAML: taken as injective, fresh and invertible.
- `delete_record` without cascade, inserting and listing records: easy members.
- SQL is modelled in words rather than characters; identifiers, quoting and join expressions are opaque words.
- `Deployments.RunKeepsInv`: the history of the Deployment table and the one-minute check for concurrent
  deployments are not modelled; deployments of one job follow one another instead.
- `move_job`: it passes no previous job, so its failure path deletes the record without a trash entry.
- The direct editing of tables through the records endpoint and the admin panel.
- `SemVer.ParseAcceptsExactlyVersions`: digits are the ten ASCII digits; Python's `\d` and `int` accept
  those of other scripts too.
- `VersionAliases.FoundVersionIsTheLatest`: the sorted list's last element is modelled as the last of the
  elements with the greatest version, which is what a stable sort leaves there.
- Which labelled versions an asterisk pattern matches, and patterns with labels, component by component: only
  the selection of the greatest match is proved for these.
- `LogFormat.EscapeString`: strings are sequences of runes; bytes that are not valid UTF-8 are replaced in
  the program when a value needs escaping.
- `LogFormat.Logfmt`: values that are not strings are formatted by Go's library before they are escaped; the
  model begins with the formatted text.
- `EventStream.MakeSseRequest`: the response arrives as one text; how the HTTP client puts lines together
  from chunks is not modelled, nor is the decoding of the JSON text.
- Plugins, image builder, Docker and Kubernetes deployers, git: outcomes are parameters.
- Quantities, portfolio scores, dashboard, installers, command line, version bumper, registry cleaner.
