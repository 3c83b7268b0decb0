/**
 * Deployments of jobs and the trash of deleted jobs, as a state machine over the job registry.
 * A deployment runs in the background for minutes: it is accepted, builds an image, saves a
 * STARTING record, waits for the health check, runs the post-deploy actions and marks the record
 * RUNNING. Everything else may happen between those steps.
 */
module Deployments {
  import opened Jobs

  type Uuid = nat

  datatype Record = Record(id: Uuid, status: JobStatus)

  datatype Phase = Building | Starting | Verified

  // A first deployment has no previous job; redeploying and reprovisioning do.
  datatype Deployment = Deployment(key: JobId, first: bool, phase: Phase)

  // The Job and TrashJob tables, the deployments in progress, and every identifier given out so far
  datatype State = State(jobs: map<JobId, Record>, trash: map<Uuid, JobId>, running: map<nat, Deployment>, ids: set<Uuid>)

  const EMPTY := State(map[], map[], map[], {})

  datatype Step =
    | Deploy(d: nat, key: JobId, force: bool)
    | Redeploy(d: nat, key: JobId)
    | Abort(d: nat) // the build, the infrastructure, a post-deploy action or Lifecycle itself fails
    | Save(d: nat, id: Uuid)
    | Healthy(d: nat)
    | Unhealthy(d: nat)
    | Finish(d: nat)
    | Delete(key: JobId, decommissioned: bool)
    | Sync(key: JobId, status: JobStatus)

  // _protect_job_overwriting, called unless overwriting is allowed
  predicate Admits(s: State, key: JobId, force: bool, overwrite: bool) {
    overwrite || force || (key !in s.jobs && key !in s.trash.Values)
  }

  function WithStatus(s: State, key: JobId, status: JobStatus): State {
    if key in s.jobs then s.(jobs := s.jobs[key := s.jobs[key].(status := status)]) else s
  }

  // save_job_model: a record that exists keeps its id.
  function Saved(s: State, key: JobId, id: Uuid): State {
    if key in s.jobs then WithStatus(s, key, STARTING)
    else s.(jobs := s.jobs[key := Record(id, STARTING)], ids := s.ids + {id})
  }

  function Dropped(s: State, d: nat): State {
    s.(running := s.running - {d})
  }

  predicate Deletable(s: State, key: JobId, decommissioned: bool) {
    key in s.jobs && (s.jobs[key].status == LOST || decommissioned)
  }

  function After(s: State, step: Step, overwrite: bool): State {
    match step
    case Deploy(d, key, force) =>
      if Admits(s, key, force, overwrite) then s.(running := s.running[d := Deployment(key, true, Building)]) else s
    case Redeploy(d, key) =>
      if key in s.jobs then s.(running := s.running[d := Deployment(key, false, Building)]) else s
    case Abort(d) => Dropped(s, d)
    case Save(d, id) =>
      if d in s.running then
        Saved(s, s.running[d].key, id).(running := s.running[d := s.running[d].(phase := Starting)])
      else s
    case Healthy(d) =>
      if d in s.running then s.(running := s.running[d := s.running[d].(phase := Verified)]) else s
    case Unhealthy(d) =>
      if d in s.running && s.running[d].first then Dropped(s.(jobs := s.jobs - {s.running[d].key}), d) else Dropped(s, d)
    case Finish(d) =>
      if d in s.running then Dropped(WithStatus(s, s.running[d].key, RUNNING), d) else s
    case Delete(key, decommissioned) =>
      if Deletable(s, key, decommissioned) then
        var id := s.jobs[key].id;
        s.(trash := if id in s.trash then s.trash else s.trash[id := key], jobs := s.jobs - {key})
      else s
    case Sync(key, status) => WithStatus(s, key, status)
  }

  // Which steps can happen in a state: deployment numbers and record ids are fresh.
  predicate Enabled(s: State, step: Step) {
    match step
    case Deploy(d, _, _) => d !in s.running
    case Redeploy(d, _) => d !in s.running
    case Abort(d) => d in s.running
    case Save(d, id) => d in s.running && s.running[d].phase == Building && id !in s.ids
    case Healthy(d) => d in s.running && s.running[d].phase == Starting
    case Unhealthy(d) => d in s.running && s.running[d].phase == Starting
    case Finish(d) => d in s.running && s.running[d].phase == Verified
    case Delete(_, _) => true
    case Sync(key, _) => key in s.jobs && s.jobs[key].status != STARTING
  }

  ghost predicate Idle(s: State, key: JobId) {
    forall d | d in s.running :: s.running[d].key != key
  }

  // The operations on one job follow one another, and nobody forces a deployment.
  ghost predicate Serial(s: State, step: Step) {
    match step
    case Deploy(_, key, force) => Idle(s, key) && !force
    case Redeploy(_, key) => Idle(s, key)
    case Delete(key, _) => Idle(s, key)
    case _ => true
  }

  ghost predicate IsRun(run: seq<State>, steps: seq<Step>) {
    && |run| == |steps| + 1
    && run[0] == EMPTY
    && forall i | 0 <= i < |steps| :: Enabled(run[i], steps[i]) && Serial(run[i], steps[i]) && run[i + 1] == After(run[i], steps[i], false)
  }

  // ---------------------------------------------------------------------------------------------

  ghost predicate IdsOk(s: State) {
    && (forall k | k in s.jobs :: s.jobs[k].id in s.ids && s.jobs[k].id !in s.trash)
    && (forall k, l | k in s.jobs && l in s.jobs && s.jobs[k].id == s.jobs[l].id :: k == l)
    && s.trash.Keys <= s.ids
  }

  ghost predicate TrashOk(s: State) {
    forall id | id in s.trash :: s.trash[id] !in s.jobs && Idle(s, s.trash[id])
  }

  ghost predicate OneAtATime(s: State) {
    forall d, e | d in s.running && e in s.running && s.running[d].key == s.running[e].key :: d == e
  }

  // A job under deployment has a record, except before its first deployment saves one.
  ghost predicate RunningOk(s: State) {
    && OneAtATime(s)
    && forall d | d in s.running :: s.running[d].key in s.jobs <==> !(s.running[d].first && s.running[d].phase == Building)
  }

  // Between its save and its end, a deployment's record is STARTING.
  ghost predicate StartingOk(s: State) {
    forall d | d in s.running && s.running[d].phase != Building && s.running[d].key in s.jobs :: s.jobs[s.running[d].key].status == STARTING
  }

  ghost predicate Inv(s: State) {
    IdsOk(s) && TrashOk(s) && RunningOk(s) && StartingOk(s)
  }

  lemma StepKeepsIds(s: State, step: Step)
    requires IdsOk(s) && Enabled(s, step)
    ensures IdsOk(After(s, step, false))
  {
  }

  lemma StepKeepsTrash(s: State, step: Step)
    requires TrashOk(s) && RunningOk(s) && Enabled(s, step) && Serial(s, step)
    ensures TrashOk(After(s, step, false))
  {
  }

  lemma StepKeepsOneAtATime(s: State, step: Step)
    requires OneAtATime(s) && Enabled(s, step) && Serial(s, step)
    ensures OneAtATime(After(s, step, false))
  {
  }

  lemma StepKeepsRunning(s: State, step: Step)
    requires RunningOk(s) && Enabled(s, step) && Serial(s, step)
    ensures RunningOk(After(s, step, false))
  {
    StepKeepsOneAtATime(s, step);
  }

  lemma StepKeepsInv(s: State, step: Step)
    requires Inv(s) && Enabled(s, step) && Serial(s, step)
    ensures Inv(After(s, step, false))
  {
    StepKeepsIds(s, step);
    StepKeepsTrash(s, step);
    StepKeepsRunning(s, step);
    StepKeepsStarting(s, step);
  }

  lemma StepKeepsStarting(s: State, step: Step)
    requires StartingOk(s) && OneAtATime(s) && Enabled(s, step) && Serial(s, step)
    ensures StartingOk(After(s, step, false))
  {
  }

  lemma {:induction false} RunKeepsInv(run: seq<State>, steps: seq<Step>, i: nat)
    requires IsRun(run, steps) && i < |run|
    ensures Inv(run[i])
  {
    if i > 0 {
      RunKeepsInv(run, steps, i - 1);
      StepKeepsInv(run[i - 1], steps[i - 1]);
    }
  }

  // ---------------------------------------------------------------------------------------------

  // A job that has been deployed and deleted: nothing of it is left but its entry in the trash.
  ghost predicate Gone(s: State, key: JobId, id: Uuid) {
    id in s.trash && s.trash[id] == key && key !in s.jobs && Idle(s, key)
  }

  // A job that is in the registry and whose first deployment is over
  ghost predicate Established(s: State, key: JobId, id: Uuid) {
    && key in s.jobs && s.jobs[key].id == id
    && forall d | d in s.running && s.running[d].key == key :: !s.running[d].first
  }

  lemma StepKeepsGone(s: State, step: Step, key: JobId, id: Uuid)
    requires Gone(s, key, id) && Enabled(s, step) && Serial(s, step)
    ensures Gone(After(s, step, false), key, id)
  {
  }

  lemma StepKeepsEstablished(s: State, step: Step, key: JobId, id: Uuid)
    requires IdsOk(s) && Established(s, key, id) && Enabled(s, step) && Serial(s, step)
    ensures var s' := After(s, step, false); Established(s', key, id) || Gone(s', key, id)
  {
  }

  // Over every run, a deleted name and version stays deleted, and its deployment is refused.
  lemma {:induction false} DeletedJobsNeverReturn(run: seq<State>, steps: seq<Step>, i: nat, j: nat, key: JobId)
    requires IsRun(run, steps) && i <= j < |run| && key in run[i].trash.Values
    ensures key in run[j].trash.Values && key !in run[j].jobs && Idle(run[j], key)
    ensures !Admits(run[j], key, false, false)
  {
    RunKeepsInv(run, steps, i);
    var id :| id in run[i].trash && run[i].trash[id] == key;
    GoneForGood(run, steps, i, j, key, id);
  }

  lemma {:induction false} GoneForGood(run: seq<State>, steps: seq<Step>, i: nat, j: nat, key: JobId, id: Uuid)
    requires IsRun(run, steps) && i <= j < |run| && Gone(run[i], key, id)
    ensures Gone(run[j], key, id)
    decreases j
  {
    if i < j {
      GoneForGood(run, steps, i, j - 1, key, id);
      StepKeepsGone(run[j - 1], steps[j - 1], key, id);
    }
  }

  // Over every run, a job once deployed keeps its record: no later deployment replaces it, and it
  // leaves the registry only for the trash.
  lemma {:induction false} EstablishedJobsAreNeverReplaced(run: seq<State>, steps: seq<Step>, i: nat, j: nat, key: JobId, id: Uuid)
    requires IsRun(run, steps) && i <= j < |run| && Established(run[i], key, id)
    ensures Established(run[j], key, id) || Gone(run[j], key, id)
    decreases j
  {
    if i < j {
      EstablishedJobsAreNeverReplaced(run, steps, i, j - 1, key, id);
      RunKeepsInv(run, steps, j - 1);
      if Gone(run[j - 1], key, id) {
        StepKeepsGone(run[j - 1], steps[j - 1], key, id);
      } else {
        StepKeepsEstablished(run[j - 1], steps[j - 1], key, id);
      }
    }
  }

  // The records other than the job's own
  function Others(s: State, key: JobId): map<JobId, Record> {
    s.jobs - {key}
  }

  // A first deployment that fails its health check leaves no record and no trash, so the name and
  // version can be claimed again; a redeployment that fails it leaves the record as it was saved.
  lemma FailedHealthCheckLeavesNoRecord(run: seq<State>, steps: seq<Step>, i: nat)
    requires IsRun(run, steps) && i < |steps| && steps[i].Unhealthy?
    ensures var dep := run[i].running[steps[i].d];
      && Others(run[i + 1], dep.key) == Others(run[i], dep.key) && run[i + 1].trash == run[i].trash
      && Idle(run[i + 1], dep.key)
      && if dep.first then Admits(run[i + 1], dep.key, false, false) else run[i + 1].jobs == run[i].jobs
  {
    RunKeepsInv(run, steps, i);
  }

  // The registry operations inside a deployment or a delete always find what they look for: the
  // record to roll back or to mark RUNNING is there, and no trash entry has the job's id yet.
  lemma RecordsAreThereWhenNeeded(run: seq<State>, steps: seq<Step>, i: nat)
    requires IsRun(run, steps) && i < |steps|
    ensures steps[i].Unhealthy? || steps[i].Finish? ==> run[i].running[steps[i].d].key in run[i].jobs
    ensures steps[i].Save? ==> (steps[i].id in run[i + 1].ids - run[i].ids <==> run[i].running[steps[i].d].first)
    ensures steps[i].Delete? && steps[i].key in run[i].jobs ==> run[i].jobs[steps[i].key].id !in run[i].trash
  {
    RunKeepsInv(run, steps, i);
  }

  // A deployment that has saved its record shows the job as STARTING until it ends, whatever else happens;
  // when it ends well the job is RUNNING.
  lemma DeployedJobsAreStartingAndThenRunning(run: seq<State>, steps: seq<Step>, i: nat, d: nat)
    requires IsRun(run, steps) && i < |run| && d in run[i].running
    ensures var dep := run[i].running[d];
      && (dep.phase != Building ==> dep.key in run[i].jobs && run[i].jobs[dep.key].status == STARTING)
      && (i < |steps| && steps[i] == Finish(d) ==> dep.key in run[i + 1].jobs && run[i + 1].jobs[dep.key].status == RUNNING)
  {
    RunKeepsInv(run, steps, i);
  }

  // A delete moves the job to the trash, under its own id, exactly when the job exists and is either LOST or
  // decommissioned first; otherwise it changes nothing.
  lemma JobsAreDeletedExactlyWhenLostOrDecommissioned(run: seq<State>, steps: seq<Step>, i: nat)
    requires IsRun(run, steps) && i < |steps| && steps[i].Delete?
    ensures var s, s', key := run[i], run[i + 1], steps[i].key;
      if key in s.jobs && (s.jobs[key].status == LOST || steps[i].decommissioned) then
        && s'.jobs == s.jobs - {key} && s'.trash.Keys == s.trash.Keys + {s.jobs[key].id} && s'.trash[s.jobs[key].id] == key
        && forall id | id in s.trash :: s'.trash[id] == s.trash[id]
      else s' == s
  {
    RunKeepsInv(run, steps, i);
  }

  // ---------------------------------------------------------------------------------------------
  // What the assumptions of a run keep out

  // A deleted job can be brought back by a new deployment exactly when that is forced or
  // overwriting is allowed.
  lemma DeletedJobReturnsExactlyWhenForced(s: State, key: JobId, d: nat, id: Uuid, force: bool, overwrite: bool)
    requires Inv(s) && key in s.trash.Values && d !in s.running
    ensures key in After(After(s, Deploy(d, key, force), overwrite), Save(d, id), overwrite).jobs <==> force || overwrite
  {
  }

  // A new deployment over an existing job that fails its health check deletes the job, and no trash entry
  // remembers it, exactly when it is forced or overwriting is allowed; otherwise nothing changes.
  lemma FailedDeploymentLosesAnExistingJobExactlyWhenForced(s: State, key: JobId, d: nat, id: Uuid, force: bool, overwrite: bool)
    requires Inv(s) && key in s.jobs && d !in s.running
    ensures var s' := After(After(After(s, Deploy(d, key, force), overwrite), Save(d, id), overwrite), Unhealthy(d), overwrite);
      && (key !in s'.jobs <==> force || overwrite)
      && (force || overwrite ==> Admits(s', key, false, false))
      && (!force && !overwrite ==> s' == s)
  {
  }

  // Deleting a job in the middle of one of its deployments lets that deployment bring it back.
  lemma DeleteDuringDeploymentRevivesTheJob(s: State, d: nat, id: Uuid, overwrite: bool)
    requires IdsOk(s) && d in s.running && s.running[d].phase == Building && s.running[d].key in s.jobs
    ensures var key := s.running[d].key;
      var s' := After(After(s, Delete(key, true), overwrite), Save(d, id), overwrite);
      key in s'.jobs && key in s'.trash.Values
  {
    var key := s.running[d].key;
    assert After(s, Delete(key, true), overwrite).trash[s.jobs[key].id] == key;
  }

  // Of two first deployments of one job, the one that fails its health check takes the record of
  // the other away with it, even when the other has finished; no trash entry remembers the job.
  lemma ConcurrentDeploymentsLoseTheJob(s: State, key: JobId, d: nat, e: nat, id: Uuid, id': Uuid)
    requires Inv(s) && Admits(s, key, false, false) && d != e && d !in s.running && e !in s.running
    ensures
      var both := After(After(s, Deploy(d, key, false), false), Deploy(e, key, false), false);
      var one := After(After(After(both, Save(d, id), false), Healthy(d), false), Finish(d), false);
      var end := After(After(one, Save(e, id'), false), Unhealthy(e), false);
      key in one.jobs && one.jobs[key].status == RUNNING && Admits(end, key, false, false)
  {
  }

  // ---------------------------------------------------------------------------------------------

  datatype Outcome = Fails | Sick | FailsAfterwards | Works

  // What an accepted deployment does until it ends
  function Provisioned(s: State, d: nat, id: Uuid, outcome: Outcome, overwrite: bool): State {
    if outcome.Fails? then After(s, Abort(d), overwrite)
    else
      var starting := After(s, Save(d, id), overwrite);
      if outcome.Sick? then After(starting, Unhealthy(d), overwrite)
      else
        var verified := After(starting, Healthy(d), overwrite);
        After(verified, if outcome.Works? then Finish(d) else Abort(d), overwrite)
  }

  // The operations of the deployer and the registry on the two tables. Outcomes of the image
  // builder, the infrastructure and the plugins, and new ids, are parameters.
  class JobRegistry {
    const overwrite: bool
    var jobs: map<JobId, Record>
    var trash: map<Uuid, JobId>

    constructor (overwrite: bool)
      ensures this.overwrite == overwrite && jobs == map[] && trash == map[]
    {
      this.overwrite := overwrite;
      jobs, trash := map[], map[];
    }

    // The registry at rest, and with one deployment running
    ghost function Resting(): State
      reads this
    {
      State(jobs, trash, map[], {})
    }

    ghost function Accepted(key: JobId, first: bool): State
      reads this
    {
      State(jobs, trash, map[0 := Deployment(key, first, Building)], {})
    }

    method ProtectJobOverwriting(key: JobId, force: bool) returns (ok: bool)
      ensures ok == Admits(Resting(), key, force, false) == (force || (key !in jobs && key !in trash.Values))
    {
      if key in jobs {
        ok := force;
      } else if key in trash.Values {
        ok := force;
      } else {
        ok := true;
      }
    }

    method SaveJobModel(key: JobId, id: Uuid)
      modifies this
      ensures jobs == Saved(old(Resting()), key, id).jobs && trash == old(trash)
    {
      if key in jobs {
        jobs := jobs[key := jobs[key].(status := STARTING)];
      } else {
        jobs := jobs[key := Record(id, STARTING)];
      }
    }

    method DeleteJobModel(key: JobId) returns (ok: bool)
      modifies this
      ensures ok == (key in old(jobs))
      ensures jobs == old(jobs) - {key} && trash == old(trash)
    {
      ok := key in jobs;
      if ok {
        jobs := jobs - {key};
      }
    }

    method RollBackUnsuccessfulDeployment(key: JobId)
      modifies this
      ensures jobs == old(jobs) - {key} && trash == old(trash)
    {
      var _ := DeleteJobModel(key);
    }

    method ProvisionJob(key: JobId, previous: bool, id: Uuid, outcome: Outcome) returns (ok: bool)
      modifies this
      ensures ok == outcome.Works?
      ensures Resting() == Provisioned(old(Accepted(key, !previous)), 0, id, outcome, overwrite).(ids := {})
      ensures trash == old(trash) && jobs - {key} == old(jobs) - {key}
      ensures var record := Record(if key in old(jobs) then old(jobs)[key].id else id, STARTING);
        match outcome
        case Fails => jobs == old(jobs)
        case Sick => if previous then key in jobs && jobs[key] == record else key !in jobs
        case FailsAfterwards => key in jobs && jobs[key] == record
        case Works => key in jobs && jobs[key] == record.(status := RUNNING)
    {
      if outcome == Fails {
        return false;
      }
      SaveJobModel(key, id);
      if outcome == Sick {
        if !previous {
          RollBackUnsuccessfulDeployment(key);
        }
        return false;
      }
      if outcome == FailsAfterwards {
        return false;
      }
      jobs := jobs[key := jobs[key].(status := RUNNING)];
      return true;
    }

    // A deployment that is refused changes nothing; the others take the steps of Provisioned.
    method DeployNewJob(key: JobId, force: bool, id: Uuid, outcome: Outcome) returns (ok: bool)
      modifies this
      ensures ok == (Admits(old(Resting()), key, force, overwrite) && outcome.Works?)
      ensures var s := After(old(Resting()), Deploy(0, key, force), overwrite);
        Resting() == (if 0 in s.running then Provisioned(s, 0, id, outcome, overwrite) else s).(ids := {})
    {
      if !overwrite {
        var admitted := ProtectJobOverwriting(key, force);
        if !admitted {
          return false;
        }
      }
      ok := ProvisionJob(key, false, id, outcome);
    }

    // redeploy_job and reprovision_job
    method RedeployJob(key: JobId, id: Uuid, outcome: Outcome) returns (ok: bool)
      modifies this
      ensures ok == (key in old(jobs) && outcome.Works?)
      ensures var s := After(old(Resting()), Redeploy(0, key), overwrite);
        Resting() == (if 0 in s.running then Provisioned(s, 0, id, outcome, overwrite) else s).(ids := {})
    {
      if key !in jobs {
        return false;
      }
      ok := ProvisionJob(key, true, id, outcome);
    }

    method DeleteJob(key: JobId, decommissioned: bool) returns (ok: bool)
      modifies this
      ensures ok == Deletable(old(Resting()), key, decommissioned)
      ensures Resting() == After(old(Resting()), Delete(key, decommissioned), overwrite)
    {
      if key !in jobs {
        return false;
      }
      var record := jobs[key];
      if record.status != LOST && !decommissioned {
        return false;
      }
      if record.id !in trash {
        trash := trash[record.id := key];
      }
      ok := DeleteJobModel(key);
    }
  }
}
