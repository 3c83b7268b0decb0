/**
 * The periodic synchronisation of the job registry with the infrastructure.
 */
module RegistrySync {
  import opened Wrappers
  import opened Strings
  import opened Jobs
  import opened Resources

  // A job as the code handles it, read from the registry or reported by the infrastructure
  datatype Job = Job(
    id: JobId,
    status: JobStatus,
    error: Option<string>,
    notice: Option<string>,
    target: Option<string>,
    internalName: Option<string>,
    replicas: seq<string>,
    stats: string,
    lastCall: Option<int>,
    jobType: string)

  // A job as the database stores it: the names of the replicas are one text
  datatype Record = Record(job: Job, replicaNames: string)

  function JoinNames(names: seq<string>): string {
    Join(names, ',')
  }

  function SplitNames(text: string): seq<string> {
    PartsOf(text, ',')
  }

  function ToRecord(j: Job): Record {
    Record(j.(replicas := []), JoinNames(j.replicas))
  }

  function ToJob(r: Record): Job {
    r.job.(replicas := SplitNames(r.replicaNames))
  }

  // A list of names is read back as it was written exactly when no name has a comma in it and it is
  // not the list of one empty name.
  lemma NamesRoundTrip(names: seq<string>)
    ensures SplitNames(JoinNames(names)) == names <==> names == [] || (Free(names, ',') && names != [""])
  {
    PartsRoundTrip(names, ',');
  }

  // What was read is written back unchanged.
  lemma StoredNamesAreStable(text: string)
    ensures JoinNames(SplitNames(text)) == text
  {
    PartsAreStable(text, ',');
  }

  // ---------------------------------------------------------------------------------------------
  // One job

  const OBSOLETE: string := OBSOLETE_1 + OBSOLETE_2 + OBSOLETE_3 + OBSOLETE_4
  const OBSOLETE_1: string := "This version of t"
  const OBSOLETE_2: string := "he job type is ob"
  const OBSOLETE_3: string := "solete and no lon"
  const OBSOLETE_4: string := "ger available."

  lemma ObsoleteIsOneNotice()
    ensures ';' !in OBSOLETE
  {
    assert ';' !in OBSOLETE_1;
    assert ';' !in OBSOLETE_2;
    assert ';' !in OBSOLETE_3;
    assert ';' !in OBSOLETE_4;
  }

  // The notices that make up the text, if there is one
  function Notices(notice: Option<string>): seq<string> {
    if notice.Some? then PartsOf(notice.value, ';') else []
  }

  // _apply_job_notice
  function Notice(registered: Job, found: Job, jobTypes: set<string>): string {
    var notices := Notices(found.notice);
    Join(if registered.jobType !in jobTypes && OBSOLETE !in notices then notices + [OBSOLETE] else notices, ';')
  }

  // The obsolete notice is in the text exactly when the job type is not available any more or the
  // infrastructure has it already; the other notices are those of the infrastructure.
  lemma NoticeSaysWhatIsObsolete(registered: Job, found: Job, jobTypes: set<string>, n: string)
    ensures n in Notices(Some(Notice(registered, found, jobTypes)))
      <==> n in Notices(found.notice) || (n == OBSOLETE && registered.jobType !in jobTypes)
  {
    if found.notice.Some? {
      SplitIsFree(found.notice.value, ';');
      PartsAreStable(found.notice.value, ';');
    }
    ObsoleteIsOneNotice();
    NoticeIsAdded(Notices(found.notice), OBSOLETE, registered.jobType !in jobTypes, n);
  }

  lemma NoticeIsAdded(notices: seq<string>, notice: string, due: bool, n: string)
    requires Free(notices, ';') && notices != [""] && ';' !in notice && notice != ""
    ensures n in PartsOf(Join(if due && notice !in notices then notices + [notice] else notices, ';'), ';') <==> n in notices || (n == notice && due)
  {
    var all := if due && notice !in notices then notices + [notice] else notices;
    assert Free(all, ';') && all != [""] by {
      assert all != notices ==> all[|notices|] == notice;
    }
    PartsRoundTrip(all, ';');
  }

  function Later(a: Option<int>, b: Option<int>): Option<int> {
    if b.Some? && (a.None? || a.value < b.value) then b else a
  }

  // The registered job with what the infrastructure knows about it
  function Synced(registered: Job, found: Job): Job {
    registered.(status := found.status, error := found.error, notice := found.notice, target := found.target,
                internalName := found.internalName, replicas := found.replicas, stats := found.stats,
                lastCall := Later(registered.lastCall, found.lastCall))
  }

  predicate Differs(registered: Job, found: Job) {
    || registered.status != found.status || registered.error != found.error || registered.notice != found.notice
    || registered.target != found.target || registered.internalName != found.internalName
    || registered.replicas != found.replicas || registered.stats != found.stats
    || registered.lastCall != Later(registered.lastCall, found.lastCall)
  }

  lemma SyncChangesWhatDiffers(registered: Job, found: Job)
    ensures Differs(registered, found) <==> Synced(registered, found) != registered
  {
  }

  // _sync_registry_job: field by field, remembering whether anything changed
  method SyncJob(registered: Job, found: Job) returns (job: Job, changed: bool)
    ensures job == Synced(registered, found)
    ensures changed <==> job != registered
  {
    changed := false;
    var status, error, notice, target := registered.status, registered.error, registered.notice, registered.target;
    var internalName, replicas, stats, lastCall := registered.internalName, registered.replicas, registered.stats, registered.lastCall;
    if status != found.status {
      status, changed := found.status, true;
    }
    if error != found.error {
      error, changed := found.error, true;
    }
    if notice != found.notice {
      notice, changed := found.notice, true;
    }
    if target != found.target {
      target, changed := found.target, true;
    }
    if internalName != found.internalName {
      internalName, changed := found.internalName, true;
    }
    if replicas != found.replicas {
      replicas, changed := found.replicas, true;
    }
    if stats != found.stats {
      stats, changed := found.stats, true;
    }
    if found.lastCall.Some? {
      if lastCall.None? || lastCall.value < found.lastCall.value {
        lastCall, changed := found.lastCall, true;
      }
    }
    SyncChangesWhatDiffers(registered, found);
    job := registered.(status := status, error := error, notice := notice, target := target,
                       internalName := internalName, replicas := replicas, stats := stats, lastCall := lastCall);
  }

  type Listing = map<string, Job>

  // What a pass makes of a registered job
  function Passed(j: Job, infrastructure: Listing, jobTypes: set<string>): Job {
    if j.status == STARTING then j
    else if ResourceName(j.id) in infrastructure then
      var found := infrastructure[ResourceName(j.id)];
      Synced(j, found.(notice := Some(Notice(j, found, jobTypes))))
    else j.(status := LOST)
  }

  // The record of a job after a pass; it is only written if the pass changed something
  function RecordAfter(r: Record, infrastructure: Listing, jobTypes: set<string>): Record {
    var p := Passed(ToJob(r), infrastructure, jobTypes);
    if p == ToJob(r) then r else ToRecord(p)
  }

  // The names of the job's replicas, as the infrastructure reports them, can be stored.
  predicate Storable(j: Job, infrastructure: Listing) {
    || j.status == STARTING
    || ResourceName(j.id) !in infrastructure
    || var found := infrastructure[ResourceName(j.id)];
       found.status == STARTING || SplitNames(JoinNames(found.replicas)) == found.replicas
  }

  ghost predicate AllStorable(records: map<JobId, Record>, infrastructure: Listing) {
    forall id | id in records :: Storable(ToJob(records[id]), infrastructure)
  }

  // A second pass on the same listing finds nothing to write exactly when the names of the replicas
  // can be stored; otherwise every pass writes the job again.
  lemma SecondPassIsQuietExactlyWhenNamesAreStorable(r: Record, infrastructure: Listing, jobTypes: set<string>)
    ensures var r' := RecordAfter(r, infrastructure, jobTypes);
      Passed(ToJob(r'), infrastructure, jobTypes) == ToJob(r') <==> Storable(ToJob(r), infrastructure)
  {
    StoredNamesAreStable(r.replicaNames);
    var j := ToJob(r);
    var p := Passed(j, infrastructure, jobTypes);
    var j' := ToJob(RecordAfter(r, infrastructure, jobTypes));
    assert j' == if p == j then j else p.(replicas := SplitNames(JoinNames(p.replicas)));
  }

  // ---------------------------------------------------------------------------------------------
  // A whole pass

  // _generate_job_map: of several jobs with the same key, the last one stays
  function JobMap(jobs: seq<Job>): Listing {
    if jobs == [] then map[]
    else JobMap(jobs[..|jobs| - 1])[ResourceName(jobs[|jobs| - 1].id) := jobs[|jobs| - 1]]
  }

  // The keys of the job map in the order of their insertion
  function JobKeys(jobs: seq<Job>): seq<string> {
    if jobs == [] then []
    else
      var keys, key := JobKeys(jobs[..|jobs| - 1]), ResourceName(jobs[|jobs| - 1].id);
      if key in keys then keys else keys + [key]
  }

  lemma {:induction false} JobMapIsKeyed(jobs: seq<Job>)
    ensures forall k :: k in JobMap(jobs) <==> k in JobKeys(jobs)
    ensures forall k | k in JobMap(jobs) :: JobMap(jobs)[k] in jobs && ResourceName(JobMap(jobs)[k].id) == k
    ensures forall i, j | 0 <= i < j < |JobKeys(jobs)| :: JobKeys(jobs)[i] != JobKeys(jobs)[j]
    ensures forall j | j in jobs :: ResourceName(j.id) in JobMap(jobs)
  {
    if jobs != [] {
      JobMapIsKeyed(jobs[..|jobs| - 1]);
      assert jobs == jobs[..|jobs| - 1] + [jobs[|jobs| - 1]];
    }
  }

  // jobs[i] is the last job with this key.
  ghost predicate IsLastWith(jobs: seq<Job>, key: string, i: nat) {
    i < |jobs| && ResourceName(jobs[i].id) == key && forall j | i < j < |jobs| :: ResourceName(jobs[j].id) != key
  }

  // Of several jobs with the same key, the job map has the last one.
  lemma {:induction false} LastJobStays(jobs: seq<Job>, key: string) returns (i: nat)
    requires key in JobMap(jobs)
    ensures IsLastWith(jobs, key, i) && JobMap(jobs)[key] == jobs[i]
  {
    var n := |jobs| - 1;
    if ResourceName(jobs[n].id) == key {
      i := n;
    } else {
      i := LastJobStays(jobs[..n], key);
      assert forall j | i < j < n :: jobs[..n][j] == jobs[j];
    }
  }

  // The jobs that are in the job map, in the order of their keys
  function Kept(jobs: seq<Job>): (kept: seq<Job>)
    ensures |kept| == |JobKeys(jobs)|
    ensures forall i | 0 <= i < |kept| :: JobKeys(jobs)[i] in JobMap(jobs) && kept[i] == JobMap(jobs)[JobKeys(jobs)[i]]
  {
    JobMapIsKeyed(jobs);
    seq(|JobKeys(jobs)|, i requires 0 <= i < |JobKeys(jobs)| => JobMap(jobs)[JobKeys(jobs)[i]])
  }

  ghost predicate DistinctIds(jobs: seq<Job>) {
    forall i, j | 0 <= i < j < |jobs| :: jobs[i].id != jobs[j].id
  }

  lemma KeptJobs(jobs: seq<Job>)
    ensures forall j | j in Kept(jobs) :: j in jobs
    ensures DistinctIds(Kept(jobs))
  {
    JobMapIsKeyed(jobs);
  }

  ghost function Ids(jobs: seq<Job>): set<JobId> {
    set j | j in jobs :: j.id
  }

  // The jobs in the registry, in the order of the listing
  function Registered(records: map<JobId, Record>, order: seq<JobId>): (jobs: seq<Job>)
    requires forall id | id in order :: id in records
    ensures |jobs| == |order|
    ensures forall i | 0 <= i < |jobs| :: jobs[i] == ToJob(records[order[i]])
  {
    seq(|order|, i requires 0 <= i < |order| => ToJob(records[order[i]]))
  }

  ghost predicate Consistent(records: map<JobId, Record>) {
    forall id | id in records :: records[id].job.id == id
  }

  // These are jobs of the registry as it stands.
  ghost predicate AreCurrent(jobs: seq<Job>, records: map<JobId, Record>) {
    forall i | 0 <= i < |jobs| :: jobs[i].id in records && ToJob(records[jobs[i].id]) == jobs[i]
  }

  lemma RegisteredAreCurrent(records: map<JobId, Record>, order: seq<JobId>)
    requires Consistent(records) && forall id | id in order :: id in records
    ensures AreCurrent(Kept(Registered(records, order)), records) && DistinctIds(Kept(Registered(records, order)))
  {
    var jobs := Registered(records, order);
    KeptJobs(jobs);
    forall j | j in Kept(jobs) ensures j.id in records && ToJob(records[j.id]) == j {
      assert j in jobs;
      var i :| 0 <= i < |jobs| && jobs[i] == j;
      assert order[i] in order;
    }
  }

  function Statuses(jobs: seq<Job>, infrastructure: Listing, jobTypes: set<string>): (ss: seq<JobStatus>)
    ensures |ss| == |jobs|
  {
    seq(|jobs|, i requires 0 <= i < |jobs| => Passed(jobs[i], infrastructure, jobTypes).status)
  }

  // The job's id if a pass writes the job, and nothing otherwise
  function Update(j: Job, infrastructure: Listing, jobTypes: set<string>): seq<JobId> {
    if Passed(j, infrastructure, jobTypes) == j then [] else [j.id]
  }

  // The jobs among these that a pass writes, in order
  function Updated(jobs: seq<Job>, infrastructure: Listing, jobTypes: set<string>): seq<JobId> {
    if jobs == [] then []
    else Updated(jobs[..|jobs| - 1], infrastructure, jobTypes) + Update(jobs[|jobs| - 1], infrastructure, jobTypes)
  }

  // The registry after a pass that gets to the jobs with these ids
  ghost function RecordsAfter(records: map<JobId, Record>, ids: set<JobId>, infrastructure: Listing, jobTypes: set<string>): map<JobId, Record> {
    map id | id in records :: if id in ids then RecordAfter(records[id], infrastructure, jobTypes) else records[id]
  }

  lemma UpdatedNext(writes: seq<JobId>, jobs: seq<Job>, i: nat, infrastructure: Listing, jobTypes: set<string>)
    requires i < |jobs|
    ensures writes + Updated(jobs[..i + 1], infrastructure, jobTypes)
      == writes + Updated(jobs[..i], infrastructure, jobTypes) + Update(jobs[i], infrastructure, jobTypes)
  {
    assert jobs[..i + 1][..i] == jobs[..i];
  }

  lemma PassOverOneJob(records: map<JobId, Record>, jobs: seq<Job>, i: nat, infrastructure: Listing, jobTypes: set<string>)
    requires AreCurrent(jobs, records) && DistinctIds(jobs) && i < |jobs|
    ensures var before := RecordsAfter(records, Ids(jobs[..i]), infrastructure, jobTypes);
      && jobs[i].id in before && before[jobs[i].id] == records[jobs[i].id]
      && before[jobs[i].id := RecordAfter(records[jobs[i].id], infrastructure, jobTypes)]
         == RecordsAfter(records, Ids(jobs[..i + 1]), infrastructure, jobTypes)
    ensures multiset(Statuses(jobs[..i + 1], infrastructure, jobTypes))
      == multiset(Statuses(jobs[..i], infrastructure, jobTypes)) + multiset{Passed(jobs[i], infrastructure, jobTypes).status}
  {
    assert jobs[..i + 1] == jobs[..i] + [jobs[i]];
    assert Ids(jobs[..i + 1]) == Ids(jobs[..i]) + {jobs[i].id};
    assert jobs[i].id !in Ids(jobs[..i]);
    assert Statuses(jobs[..i + 1], infrastructure, jobTypes)
        == Statuses(jobs[..i], infrastructure, jobTypes) + [Passed(jobs[i], infrastructure, jobTypes).status];
  }

  // Keys of jobs in the infrastructure that the registry does not know
  function Orphans(keys: seq<string>, registered: Listing): seq<string> {
    if keys == [] then []
    else Orphans(keys[..|keys| - 1], registered) + if keys[|keys| - 1] in registered then [] else [keys[|keys| - 1]]
  }

  ghost predicate DistinctTexts(keys: seq<string>) {
    forall i, j | 0 <= i < j < |keys| :: keys[i] != keys[j]
  }

  ghost function UnknownKeys(keys: seq<string>, registered: Listing): set<string> {
    set k | k in keys && k !in registered
  }

  lemma UnknownOfMore(keys: seq<string>, last: string, registered: Listing)
    requires last !in keys
    ensures |UnknownKeys(keys + [last], registered)| == |UnknownKeys(keys, registered)| + if last in registered then 0 else 1
  {
    var before := UnknownKeys(keys, registered);
    assert UnknownKeys(keys + [last], registered) == before + if last in registered then {} else {last};
    assert last !in before;
  }

  lemma {:induction false} OrphansAreTheUnknownKeys(keys: seq<string>, registered: Listing)
    requires DistinctTexts(keys)
    ensures |Orphans(keys, registered)| == |UnknownKeys(keys, registered)|
  {
    if keys != [] {
      var front, last := keys[..|keys| - 1], keys[|keys| - 1];
      OrphansAreTheUnknownKeys(front, registered);
      assert keys == front + [last] && last !in front;
      UnknownOfMore(front, last, registered);
    }
  }

  // The infrastructure's keys that the registry does not have
  method CountOrphans(keys: seq<string>, registered: Listing) returns (n: nat)
    ensures DistinctTexts(keys) ==> n == |UnknownKeys(keys, registered)|
  {
    n := 0;
    for i := 0 to |keys|
      invariant n == |Orphans(keys[..i], registered)|
    {
      assert keys[..i + 1][..i] == keys[..i];
      if keys[i] !in registered {
        n := n + 1;
      }
    }
    assert keys[..|keys|] == keys;
    if DistinctTexts(keys) {
      OrphansAreTheUnknownKeys(keys, registered);
    }
  }

  // The keys of jobs
  ghost function KeysOf(jobs: seq<Job>): set<string> {
    set j | j in jobs :: ResourceName(j.id)
  }

  lemma UnknownKeysOfJobs(found: seq<Job>, jobs: seq<Job>)
    ensures DistinctTexts(JobKeys(found)) && UnknownKeys(JobKeys(found), JobMap(jobs)) == KeysOf(found) - KeysOf(jobs)
  {
    JobMapIsKeyed(found);
    JobMapIsKeyed(jobs);
  }

  // The ids among these whose record has a status
  ghost function IdsWith(ids: seq<JobId>, records: map<JobId, Record>, status: JobStatus): set<JobId> {
    set id | id in ids && id in records && records[id].job.status == status
  }

  lemma IdsWithMore(ids: seq<JobId>, last: JobId, records: map<JobId, Record>, status: JobStatus)
    requires last !in ids && last in records
    ensures |IdsWith(ids + [last], records, status)| == |IdsWith(ids, records, status)| + if records[last].job.status == status then 1 else 0
  {
    var before := IdsWith(ids, records, status);
    assert IdsWith(ids + [last], records, status) == before + if records[last].job.status == status then {last} else {};
    assert last !in before;
  }

  lemma {:induction false} StatusesCountIds(ids: seq<JobId>, statuses: seq<JobStatus>, records: map<JobId, Record>, status: JobStatus)
    requires |ids| == |statuses| && forall i, j | 0 <= i < j < |ids| :: ids[i] != ids[j]
    requires forall i | 0 <= i < |ids| :: ids[i] in records && statuses[i] == records[ids[i]].job.status
    ensures multiset(statuses)[status] == |IdsWith(ids, records, status)|
  {
    if ids == [] {
      assert statuses == [];
    } else {
      var n := |ids| - 1;
      StatusesCountIds(ids[..n], statuses[..n], records, status);
      assert statuses == statuses[..n] + [statuses[n]] && ids == ids[..n] + [ids[n]];
      IdsWithMore(ids[..n], ids[n], records, status);
    }
  }

  // The jobs of the registry with a status
  ghost function WithStatus(records: map<JobId, Record>, status: JobStatus): set<JobId> {
    set id | id in records && records[id].job.status == status
  }

  // Every status is counted once for each job of the registry that has it, and ORPHANED also for the orphans.
  ghost predicate Counts(counts: multiset<JobStatus>, records: map<JobId, Record>, orphans: nat) {
    forall s :: counts[s] == |WithStatus(records, s)| + if s == ORPHANED then orphans else 0
  }

  lemma StatusAfter(r: Record, infrastructure: Listing, jobTypes: set<string>)
    ensures RecordAfter(r, infrastructure, jobTypes).job.status == Passed(ToJob(r), infrastructure, jobTypes).status
  {
  }

  function IdSeq(jobs: seq<Job>): (ids: seq<JobId>)
    ensures |ids| == |jobs| && forall i | 0 <= i < |jobs| :: ids[i] == jobs[i].id
  {
    seq(|jobs|, i requires 0 <= i < |jobs| => jobs[i].id)
  }

  // The statuses a pass counts are those of the records it leaves.
  lemma StatusesOfRecords(records: map<JobId, Record>, jobs: seq<Job>, i: nat, infrastructure: Listing, jobTypes: set<string>)
    requires AreCurrent(jobs, records) && i < |jobs|
    ensures var after := RecordsAfter(records, records.Keys, infrastructure, jobTypes);
      jobs[i].id in after && Statuses(jobs, infrastructure, jobTypes)[i] == after[jobs[i].id].job.status
  {
    StatusAfter(records[jobs[i].id], infrastructure, jobTypes);
  }

  lemma StatusesCountRecords(records: map<JobId, Record>, jobs: seq<Job>, infrastructure: Listing, jobTypes: set<string>, status: JobStatus)
    requires AreCurrent(jobs, records) && DistinctIds(jobs) && Ids(jobs) == records.Keys
    ensures multiset(Statuses(jobs, infrastructure, jobTypes))[status]
      == |WithStatus(RecordsAfter(records, records.Keys, infrastructure, jobTypes), status)|
  {
    var ids, statuses := IdSeq(jobs), Statuses(jobs, infrastructure, jobTypes);
    var after := RecordsAfter(records, records.Keys, infrastructure, jobTypes);
    forall i | 0 <= i < |jobs| ensures ids[i] in after && statuses[i] == after[ids[i]].job.status {
      StatusesOfRecords(records, jobs, i, infrastructure, jobTypes);
    }
    StatusesCountIds(ids, statuses, after, status);
    SameIds(jobs, ids);
    AllIdsWith(ids, after, status);
  }

  lemma AllIdsWith(ids: seq<JobId>, records: map<JobId, Record>, status: JobStatus)
    requires forall id :: id in ids <==> id in records
    ensures WithStatus(records, status) == IdsWith(ids, records, status)
  {
  }

  lemma CountsOfPass(records: map<JobId, Record>, jobs: seq<Job>, infrastructure: Listing, jobTypes: set<string>, orphans: nat)
    requires AreCurrent(jobs, records) && DistinctIds(jobs) && Ids(jobs) == records.Keys
    ensures Counts(multiset(Statuses(jobs, infrastructure, jobTypes)) + multiset{}[ORPHANED := orphans],
                   RecordsAfter(records, records.Keys, infrastructure, jobTypes), orphans)
  {
    var after := RecordsAfter(records, records.Keys, infrastructure, jobTypes);
    var statuses := multiset(Statuses(jobs, infrastructure, jobTypes));
    forall s ensures statuses[s] == |WithStatus(after, s)| {
      StatusesCountRecords(records, jobs, infrastructure, jobTypes, s);
    }
  }

  lemma SameIds(jobs: seq<Job>, ids: seq<JobId>)
    requires |ids| == |jobs| && forall i | 0 <= i < |jobs| :: ids[i] == jobs[i].id
    ensures forall id :: id in ids <==> id in Ids(jobs)
  {
    forall id | id in Ids(jobs) ensures id in ids {
      var j :| j in jobs && j.id == id;
      var i :| 0 <= i < |jobs| && jobs[i] == j;
      assert ids[i] == id;
    }
    forall id | id in ids ensures id in Ids(jobs) {
      var i :| 0 <= i < |ids| && ids[i] == id;
      assert jobs[i] in jobs;
    }
  }

  class Registry {
    var records: map<JobId, Record>
    // The jobs written, in order
    var writes: seq<JobId>

    ghost predicate Valid()
      reads this
    {
      Consistent(records)
    }

    constructor (records: map<JobId, Record>)
      requires Consistent(records)
      ensures Valid() && this.records == records && writes == []
    {
      this.records := records;
      writes := [];
    }

    // update_job: read the record by name and version and overwrite it
    method UpdateJob(job: Job)
      requires Valid() && job.id in records
      modifies this
      ensures Valid()
      ensures records == old(records)[job.id := ToRecord(job)] && writes == old(writes) + [job.id]
    {
      records := records[job.id := ToRecord(job)];
      writes := writes + [job.id];
    }

    // The part of the pass for one registered job: what is left in the registry, and the job's status
    method SyncOne(registered: Job, infrastructure: Listing, jobTypes: set<string>) returns (status: JobStatus)
      requires Valid() && registered.id in records && ToJob(records[registered.id]) == registered
      modifies this
      ensures Valid()
      ensures status == Passed(registered, infrastructure, jobTypes).status
      ensures records == old(records)[registered.id := RecordAfter(old(records)[registered.id], infrastructure, jobTypes)]
      ensures writes == old(writes) + Update(registered, infrastructure, jobTypes)
    {
      var job := registered;
      if job.status != STARTING {
        var key := ResourceName(job.id);
        if key in infrastructure {
          var found := infrastructure[key];
          found := found.(notice := Some(Notice(job, found, jobTypes)));
          var changed;
          job, changed := SyncJob(job, found);
          if changed {
            UpdateJob(job);
          }
        } else if job.status != LOST {
          job := job.(status := LOST);
          UpdateJob(job);
        }
      }
      status := job.status;
    }

    // The first loop of sync_registry_jobs
    method SyncRegistered(jobs: seq<Job>, infrastructure: Listing, jobTypes: set<string>) returns (counts: multiset<JobStatus>)
      requires Valid() && AreCurrent(jobs, records) && DistinctIds(jobs)
      modifies this
      ensures Valid()
      ensures records == RecordsAfter(old(records), Ids(jobs), infrastructure, jobTypes)
      ensures counts == multiset(Statuses(jobs, infrastructure, jobTypes))
      ensures writes == old(writes) + Updated(jobs, infrastructure, jobTypes)
    {
      counts := multiset{};
      ghost var before := records;
      for i := 0 to |jobs|
        invariant Valid()
        invariant records == RecordsAfter(before, Ids(jobs[..i]), infrastructure, jobTypes)
        invariant counts == multiset(Statuses(jobs[..i], infrastructure, jobTypes))
        invariant writes == old(writes) + Updated(jobs[..i], infrastructure, jobTypes)
      {
        PassOverOneJob(before, jobs, i, infrastructure, jobTypes);
        UpdatedNext(old(writes), jobs, i, infrastructure, jobTypes);
        var status := SyncOne(jobs[i], infrastructure, jobTypes);
        counts := counts + multiset{status};
      }
      assert jobs[..|jobs|] == jobs;
    }

    // sync_registry_jobs. The pass gets to the jobs that the job map keeps; it counts their new
    // statuses, and one ORPHANED for every job in the infrastructure that the registry does not know.
    method SyncRegistryJobs(order: seq<JobId>, found: seq<Job>, jobTypes: set<string>) returns (counts: multiset<JobStatus>)
      requires Valid() && forall id | id in order :: id in records
      modifies this
      ensures Valid()
      ensures var kept := Kept(Registered(old(records), order));
        var registered := Registered(old(records), order);
        && records == RecordsAfter(old(records), Ids(kept), JobMap(found), jobTypes)
        && counts == multiset(Statuses(kept, JobMap(found), jobTypes)) + multiset{}[ORPHANED := |KeysOf(found) - KeysOf(registered)|]
        && |counts| == |kept| + |KeysOf(found) - KeysOf(registered)|
        && writes == old(writes) + Updated(kept, JobMap(found), jobTypes)
        && Conservative(old(records), records, Ids(kept), JobMap(found), jobTypes)
    {
      PassLeavesConservative(records, Ids(Kept(Registered(records, order))), JobMap(found), jobTypes);
      var jobs := Registered(records, order);
      RegisteredAreCurrent(records, order);
      counts := SyncRegistered(Kept(jobs), JobMap(found), jobTypes);
      UnknownKeysOfJobs(found, jobs);
      var orphans := CountOrphans(JobKeys(found), JobMap(jobs));
      counts := counts + multiset{}[ORPHANED := orphans];
    }

    // A pass over a listing of the whole registry, whose jobs have keys of their own: it counts the jobs of
    // the registry by their new status, and one ORPHANED for every key that the infrastructure has and the
    // registry does not. It is conservative for every job.
    method SyncWholeRegistry(order: seq<JobId>, found: seq<Job>, jobTypes: set<string>) returns (counts: multiset<JobStatus>)
      requires Valid() && Lists(order, records) && OwnKeys(records.Keys)
      modifies this
      ensures Valid()
      ensures records == RecordsAfter(old(records), old(records).Keys, JobMap(found), jobTypes) && records.Keys == old(records).Keys
      ensures Counts(counts, records, |KeysOf(found) - Names(old(records).Keys)|)
      ensures |counts| == |old(records)| + |KeysOf(found) - Names(old(records).Keys)|
      ensures Conservative(old(records), records, old(records).Keys, JobMap(found), jobTypes)
      ensures writes == old(writes) + Updated(Kept(Registered(old(records), order)), JobMap(found), jobTypes)
    {
      WholeListing(records, order);
      RegisteredAreCurrent(records, order);
      CountsOfPass(records, Kept(Registered(records, order)), JobMap(found), jobTypes, |KeysOf(found) - Names(records.Keys)|);
      counts := SyncRegistryJobs(order, found, jobTypes);
    }

    // Two passes in a row, as the scheduler makes them, on the same listing of the infrastructure and on
    // listings of the registry in any order: the second one writes nothing exactly when the reported
    // replica names can be stored.
    method SyncTwice(order: seq<JobId>, again: seq<JobId>, found: seq<Job>, jobTypes: set<string>)
      returns (first: multiset<JobStatus>, second: multiset<JobStatus>, ghost between: map<JobId, Record>, ghost written: seq<JobId>)
      requires Valid() && Lists(order, records) && Lists(again, records) && OwnKeys(records.Keys)
      modifies this
      ensures Valid()
      ensures Counts(first, between, |KeysOf(found) - Names(old(records).Keys)|) && Counts(second, records, |KeysOf(found) - Names(old(records).Keys)|)
      ensures |first| == |second| == |old(records)| + |KeysOf(found) - Names(old(records).Keys)|
      ensures Conservative(old(records), between, old(records).Keys, JobMap(found), jobTypes)
      ensures Conservative(between, records, between.Keys, JobMap(found), jobTypes)
      ensures old(writes) <= written
      ensures writes == written <==> AllStorable(old(records), JobMap(found))
    {
      first := SyncWholeRegistry(order, found, jobTypes);
      between, written := records, writes;
      second := SyncAgain(again, found, jobTypes, old(records));
    }

    // The second of two passes; `before` is the registry before the first one.
    method SyncAgain(again: seq<JobId>, found: seq<Job>, jobTypes: set<string>, ghost before: map<JobId, Record>)
      returns (counts: multiset<JobStatus>)
      requires Consistent(before) && Lists(again, before) && OwnKeys(before.Keys)
      requires records == RecordsAfter(before, before.Keys, JobMap(found), jobTypes)
      modifies this
      ensures Valid()
      ensures Counts(counts, records, |KeysOf(found) - Names(before.Keys)|)
      ensures |counts| == |before| + |KeysOf(found) - Names(before.Keys)|
      ensures Conservative(old(records), records, old(records).Keys, JobMap(found), jobTypes)
      ensures writes == old(writes) <==> AllStorable(before, JobMap(found))
    {
      SecondListingWritesNothing(before, again, JobMap(found), jobTypes);
      assert records.Keys == before.Keys && |records.Keys| == |before.Keys|;
      ghost var written, updated := writes, Updated(Kept(Registered(records, again)), JobMap(found), jobTypes);
      counts := SyncWholeRegistry(again, found, jobTypes);
      AppendingNothing(written, updated);
    }
  }

  // ---------------------------------------------------------------------------------------------
  // What a pass leaves behind

  // A STARTING job is left alone, and nothing happens to the jobs that the pass does not get to. Every other
  // job that the infrastructure does not report is LOST and otherwise the same; one that it does report has
  // its status and the rest of what the infrastructure knows, the later of the two times of a last call, and
  // the obsolete notice if its job type is not available any more.
  ghost predicate Conservative(before: map<JobId, Record>, after: map<JobId, Record>, reached: set<JobId>, infrastructure: Listing, jobTypes: set<string>) {
    && after.Keys == before.Keys
    && (forall id | id in before :: id in reached ==> ConservativeFor(before[id], after[id], infrastructure, jobTypes))
    && (forall id | id in before :: id !in reached ==> after[id] == before[id])
  }

  ghost predicate ConservativeFor(r: Record, r': Record, infrastructure: Listing, jobTypes: set<string>) {
    var j, j' := ToJob(r), ToJob(r');
    var key := ResourceName(j.id);
    if j.status == STARTING then r' == r
    else if key !in infrastructure then j' == j.(status := LOST)
    else Reports(j, j', infrastructure[key], jobTypes)
  }

  ghost predicate Reports(j: Job, j': Job, found: Job, jobTypes: set<string>) {
    && j'.id == j.id && j'.jobType == j.jobType
    && j'.status == found.status && j'.error == found.error && j'.target == found.target
    && j'.internalName == found.internalName && j'.stats == found.stats && JoinNames(j'.replicas) == JoinNames(found.replicas)
    && (forall n :: n in Notices(j'.notice) <==> n in Notices(found.notice) || (n == OBSOLETE && j.jobType !in jobTypes))
    && (j'.lastCall == j.lastCall || j'.lastCall == found.lastCall) && NotBefore(j'.lastCall, j.lastCall) && NotBefore(j'.lastCall, found.lastCall)
  }

  predicate NotBefore(a: Option<int>, b: Option<int>) {
    b.Some? ==> a.Some? && b.value <= a.value
  }

  lemma PassIsConservativeFor(r: Record, infrastructure: Listing, jobTypes: set<string>)
    ensures ConservativeFor(r, RecordAfter(r, infrastructure, jobTypes), infrastructure, jobTypes)
  {
    var j := ToJob(r);
    var j' := ToJob(RecordAfter(r, infrastructure, jobTypes));
    StoredNamesAreStable(r.replicaNames);
    if j.status != STARTING && ResourceName(j.id) in infrastructure {
      var found := infrastructure[ResourceName(j.id)];
      StoredNamesAreStable(JoinNames(found.replicas));
      assert j'.notice == Some(Notice(j, found, jobTypes));
      forall n ensures n in Notices(j'.notice) <==> n in Notices(found.notice) || (n == OBSOLETE && j.jobType !in jobTypes) {
        NoticeSaysWhatIsObsolete(j, found, jobTypes, n);
      }
    }
  }

  lemma PassLeavesConservative(records: map<JobId, Record>, ids: set<JobId>, infrastructure: Listing, jobTypes: set<string>)
    ensures Conservative(records, RecordsAfter(records, ids, infrastructure, jobTypes), ids, infrastructure, jobTypes)
  {
    forall id | id in records ensures ConservativeFor(records[id], RecordAfter(records[id], infrastructure, jobTypes), infrastructure, jobTypes) {
      PassIsConservativeFor(records[id], infrastructure, jobTypes);
    }
  }

  // ---------------------------------------------------------------------------------------------
  // Passes over a registry whose jobs have keys of their own

  ghost predicate KeysAreUnique(jobs: seq<Job>) {
    forall i, j | 0 <= i < |jobs| && 0 <= j < |jobs| && ResourceName(jobs[i].id) == ResourceName(jobs[j].id) :: jobs[i] == jobs[j]
  }

  // The pass gets to every job when the keys are unique, as they are for names without dots and
  // versions without labels.
  lemma UniqueKeysKeepEveryJob(jobs: seq<Job>)
    requires KeysAreUnique(jobs)
    ensures Ids(Kept(jobs)) == Ids(jobs)
  {
    JobMapIsKeyed(jobs);
    KeptJobs(jobs);
    var kept, keys := Kept(jobs), JobKeys(jobs);
    forall j | j in jobs ensures j in kept {
      var key := ResourceName(j.id);
      var i :| 0 <= i < |keys| && keys[i] == key;
      assert kept[i] in jobs && ResourceName(kept[i].id) == key;
    }
  }

  ghost predicate DistinctKeys(jobs: seq<Job>) {
    forall i, j | 0 <= i < j < |jobs| :: ResourceName(jobs[i].id) != ResourceName(jobs[j].id)
  }

  lemma KeyIsTaken(jobs: seq<Job>, key: string)
    ensures key in JobKeys(jobs) <==> exists i | 0 <= i < |jobs| :: ResourceName(jobs[i].id) == key
  {
    JobMapIsKeyed(jobs);
  }

  lemma DistinctKeysOfMore(jobs: seq<Job>)
    requires jobs != []
    ensures var front, key := jobs[..|jobs| - 1], ResourceName(jobs[|jobs| - 1].id);
      DistinctKeys(jobs) <==> DistinctKeys(front) && key !in JobKeys(front)
  {
    var front := jobs[..|jobs| - 1];
    KeyIsTaken(front, ResourceName(jobs[|jobs| - 1].id));
    assert forall i | 0 <= i < |front| :: front[i] == jobs[i];
  }

  lemma {:induction false} AsManyKeysAsJobsExactlyWhenDistinct(jobs: seq<Job>)
    ensures |JobKeys(jobs)| <= |jobs| && (|JobKeys(jobs)| == |jobs| <==> DistinctKeys(jobs))
  {
    if jobs != [] {
      AsManyKeysAsJobsExactlyWhenDistinct(jobs[..|jobs| - 1]);
      DistinctKeysOfMore(jobs);
    }
  }

  // The job map has as many jobs as there are exactly when no two of them share a key.
  lemma NoJobIsLostExactlyWithDistinctKeys(jobs: seq<Job>)
    ensures |Kept(jobs)| <= |jobs| && (|Kept(jobs)| == |jobs| <==> DistinctKeys(jobs))
  {
    AsManyKeysAsJobsExactlyWhenDistinct(jobs);
  }

  // Each job has a key of its own, for instance because names are free of dots and versions of labels.
  ghost predicate OwnKeys(ids: set<JobId>) {
    forall a, b | a in ids && b in ids && ResourceName(a) == ResourceName(b) :: a == b
  }

  ghost function Names(ids: set<JobId>): set<string> {
    set id | id in ids :: ResourceName(id)
  }

  lemma PlainJobsHaveTheirOwnKeys(ids: set<JobId>)
    requires forall id | id in ids :: '.' !in id.name && IsLabelFree(id.version)
    ensures OwnKeys(ids)
  {
    forall a, b | a in ids && b in ids && ResourceName(a) == ResourceName(b) ensures a == b {
      ResourceNameIsInjective(a, b);
    }
  }

  // The listing of the whole registry, in some order
  ghost predicate Lists(order: seq<JobId>, records: map<JobId, Record>) {
    && (forall id :: id in order <==> id in records)
    && (forall i, j | 0 <= i < j < |order| :: order[i] != order[j])
  }

  lemma {:induction false} ListingHasLength(order: seq<JobId>, ids: set<JobId>)
    requires (forall id :: id in order <==> id in ids) && forall i, j | 0 <= i < j < |order| :: order[i] != order[j]
    ensures |order| == |ids|
  {
    if order == [] {
      assert ids == {};
    } else {
      var last := order[|order| - 1];
      assert order == order[..|order| - 1] + [last];
      ListingHasLength(order[..|order| - 1], ids - {last});
    }
  }

  lemma ListedJobs(records: map<JobId, Record>, order: seq<JobId>)
    requires Consistent(records) && Lists(order, records)
    ensures var jobs := Registered(records, order); Ids(jobs) == records.Keys && forall i | 0 <= i < |jobs| :: jobs[i].id == order[i] && order[i] in records
  {
    var jobs := Registered(records, order);
    assert forall i | 0 <= i < |order| :: order[i] in order && jobs[i].id == order[i];
    forall id | id in records ensures id in Ids(jobs) {
      var i :| 0 <= i < |order| && order[i] == id;
      assert jobs[i] in jobs;
    }
  }

  lemma ListedJobsHaveDistinctKeys(records: map<JobId, Record>, order: seq<JobId>)
    requires Consistent(records) && Lists(order, records) && OwnKeys(records.Keys)
    ensures var jobs := Registered(records, order); DistinctKeys(jobs) && KeysAreUnique(jobs)
  {
    ListedJobs(records, order);
  }

  lemma KeysAreNames(jobs: seq<Job>)
    ensures KeysOf(jobs) == Names(Ids(jobs))
  {
    forall j | j in jobs ensures ResourceName(j.id) in Names(Ids(jobs)) {
      assert j.id in Ids(jobs);
    }
  }

  // With keys of their own, a pass over a whole listing gets to every job of the registry.
  lemma WholeListing(records: map<JobId, Record>, order: seq<JobId>)
    requires Consistent(records) && Lists(order, records) && OwnKeys(records.Keys)
    ensures var kept := Kept(Registered(records, order)); |kept| == |records| && Ids(kept) == records.Keys
    ensures KeysOf(Registered(records, order)) == Names(records.Keys)
  {
    var jobs := Registered(records, order);
    ListedJobs(records, order);
    ListedJobsHaveDistinctKeys(records, order);
    NoJobIsLostExactlyWithDistinctKeys(jobs);
    UniqueKeysKeepEveryJob(jobs);
    ListingHasLength(order, records.Keys);
    KeysAreNames(jobs);
  }

  lemma {:induction false} NothingUpdated(jobs: seq<Job>, infrastructure: Listing, jobTypes: set<string>)
    ensures Updated(jobs, infrastructure, jobTypes) == [] <==> forall j | j in jobs :: Passed(j, infrastructure, jobTypes) == j
  {
    if jobs != [] {
      var front, last := jobs[..|jobs| - 1], jobs[|jobs| - 1];
      NothingUpdated(front, infrastructure, jobTypes);
      assert jobs == front + [last];
    }
  }

  lemma AppendingNothing<T>(a: seq<T>, b: seq<T>)
    ensures a + b == a <==> b == []
  {
    assert a + b == a ==> |b| == 0;
  }

  // After a pass, a second pass on the same listing writes nothing exactly when the replica names that
  // the infrastructure reports for its jobs can all be stored. `again` are the jobs the second pass reads.
  lemma SecondPassWritesNothing(records: map<JobId, Record>, ids: set<JobId>, again: seq<Job>, infrastructure: Listing, jobTypes: set<string>)
    requires AreCurrent(again, RecordsAfter(records, ids, infrastructure, jobTypes)) && Ids(again) <= ids
    ensures Updated(again, infrastructure, jobTypes) == []
      <==> (forall j | j in again :: Storable(ToJob(records[j.id]), infrastructure))
  {
    NothingUpdated(again, infrastructure, jobTypes);
    forall j | j in again
      ensures j.id in records && (Passed(j, infrastructure, jobTypes) == j <==> Storable(ToJob(records[j.id]), infrastructure))
    {
      assert j.id in Ids(again);
      SecondPassIsQuietExactlyWhenNamesAreStorable(records[j.id], infrastructure, jobTypes);
    }
  }

  lemma SecondListingWritesNothing(records: map<JobId, Record>, again: seq<JobId>, infrastructure: Listing, jobTypes: set<string>)
    requires Consistent(records) && Lists(again, records) && OwnKeys(records.Keys)
    ensures var after := RecordsAfter(records, records.Keys, infrastructure, jobTypes);
      && Lists(again, after) && Consistent(after)
      && (Updated(Kept(Registered(after, again)), infrastructure, jobTypes) == []
          <==> AllStorable(records, infrastructure))
  {
    var after := RecordsAfter(records, records.Keys, infrastructure, jobTypes);
    PassLeavesConservative(records, records.Keys, infrastructure, jobTypes);
    assert Consistent(after);
    RegisteredAreCurrent(after, again);
    WholeListing(after, again);
    var kept := Kept(Registered(after, again));
    SecondPassWritesNothing(records, records.Keys, kept, infrastructure, jobTypes);
    assert forall id :: id in records <==> id in Ids(kept);
  }
}
