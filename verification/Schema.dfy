/**
 * Tables, foreign keys and database contents, as far as deleting records is concerned.
 */
module Schema {
  import opened Wrappers

  datatype Table =
    | JobFamily | Job | Deployment | Esc | PublicEndpointRequest | TrashJob | AuditLogEvent | User
    | AuthSubject | AuthToken | AuthResourcePermission | Setting | AsyncJobCall

  type Column = string
  type Key = string

  datatype ForeignKey = ForeignKey(column: Column, origin: Table)

  // `tables` is the list of all tables in order, `cascade` the on_delete_cascade entries of each
  datatype Schema = Schema(tables: seq<Table>, cascade: map<Table, seq<ForeignKey>>) {
    predicate HasEdge(dependant: Table, column: Column, origin: Table) {
      dependant in tables && dependant in cascade && ForeignKey(column, origin) in cascade[dependant]
    }

    // Every table comes after the tables it refers to.
    ghost predicate Ranked() {
      forall t, c, o | HasEdge(t, c, o) :: Rank(o) < Rank(t)
    }

    function Rank(t: Table): nat {
      IndexOf(tables, t)
    }
  }

  function IndexOf(ts: seq<Table>, t: Table): (i: nat)
    ensures i <= |ts|
    ensures t in ts ==> i < |ts| && ts[i] == t
  {
    if ts == [] || ts[0] == t then 0 else 1 + IndexOf(ts[1..], t)
  }

  // A row: the values of its foreign key columns, None being NULL
  type Row = map<Column, Option<Key>>

  datatype RecordId = RecordId(table: Table, key: Key)

  type Database = map<RecordId, Row>

  predicate Refers(row: Row, column: Column, key: Key) {
    column in row && row[column] == Some(key)
  }

  // Record x has a foreign key that points to y.
  ghost predicate DependsOn(schema: Schema, db: Database, x: RecordId, y: RecordId) {
    x in db && exists c :: schema.HasEdge(x.table, c, y.table) && Refers(db[x], c, y.key)
  }

  // No foreign key points to a record that does not exist.
  ghost predicate Intact(schema: Schema, db: Database) {
    forall x, y | DependsOn(schema, db, x, y) :: y in db
  }

  ghost predicate IsPath(schema: Schema, db: Database, p: seq<RecordId>) {
    |p| > 0 && forall i | 0 <= i < |p| - 1 :: DependsOn(schema, db, p[i + 1], p[i])
  }

  ghost predicate PathBetween(schema: Schema, db: Database, p: seq<RecordId>, root: RecordId, x: RecordId) {
    IsPath(schema, db, p) && p[0] == root && p[|p| - 1] == x
  }

  ghost predicate Reaches(schema: Schema, db: Database, root: RecordId, x: RecordId) {
    exists p :: PathBetween(schema, db, p, root, x)
  }

  // The records that refer to root, directly or through other records, and root itself
  ghost function Family(schema: Schema, db: Database, root: RecordId): set<RecordId> {
    set x | x in db && Reaches(schema, db, root, x)
  }

  // With a record, the set contains every record that refers to it.
  ghost predicate ClosedUnder(schema: Schema, db: Database, d: set<RecordId>) {
    forall x, y | DependsOn(schema, db, x, y) && y in d :: x in d
  }

  lemma {:induction false} PathStaysInClosedSet(schema: Schema, db: Database, p: seq<RecordId>, d: set<RecordId>)
    requires IsPath(schema, db, p) && ClosedUnder(schema, db, d) && p[0] in d
    ensures p[|p| - 1] in d
  {
    if |p| > 1 {
      assert IsPath(schema, db, p[..|p| - 1]);
      PathStaysInClosedSet(schema, db, p[..|p| - 1], d);
      assert DependsOn(schema, db, p[|p| - 2 + 1], p[|p| - 2]);
    }
  }

  lemma {:induction false} PathRaisesRank(schema: Schema, db: Database, p: seq<RecordId>)
    requires schema.Ranked() && IsPath(schema, db, p)
    ensures |p| > 1 ==> schema.Rank(p[0].table) < schema.Rank(p[|p| - 1].table)
  {
    if |p| > 1 {
      PathRaisesRank(schema, db, p[..|p| - 1]);
      assert DependsOn(schema, db, p[|p| - 2 + 1], p[|p| - 2]);
    }
  }

  // Members of a family other than its root are in later tables.
  lemma FamilyRank(schema: Schema, db: Database, root: RecordId, x: RecordId)
    requires schema.Ranked() && x in Family(schema, db, root) && x != root
    ensures schema.Rank(root.table) < schema.Rank(x.table)
  {
    var p :| PathBetween(schema, db, p, root, x);
    PathRaisesRank(schema, db, p);
  }

  lemma FamilyHasRoot(schema: Schema, db: Database, root: RecordId)
    ensures root in db ==> root in Family(schema, db, root)
  {
    assert PathBetween(schema, db, [root], root, root);
  }

  // A record that refers to a member of the family is a member.
  lemma FamilyIsClosed(schema: Schema, db: Database, root: RecordId, x: RecordId, y: RecordId)
    requires y == root || y in Family(schema, db, root)
    requires DependsOn(schema, db, x, y)
    ensures x in Family(schema, db, root)
  {
    var p := [root];
    if y != root {
      p :| PathBetween(schema, db, p, root, y);
    }
    assert PathBetween(schema, db, p + [x], root, x);
  }

  // The family of a direct dependant, in a part of the database, belongs to the family.
  lemma FamilyOfDependant(schema: Schema, part: Database, db: Database, root: RecordId, x: RecordId, y: RecordId)
    requires forall z | z in part :: z in db && db[z] == part[z]
    requires DependsOn(schema, db, x, root) && y in Family(schema, part, x)
    ensures y in Family(schema, db, root)
  {
    var p :| PathBetween(schema, part, p, x, y);
    forall i | 0 <= i < |p| - 1 ensures DependsOn(schema, db, p[i + 1], p[i]) {
      assert DependsOn(schema, part, p[i + 1], p[i]);
    }
    assert PathBetween(schema, db, [root] + p, root, y);
  }

  // A closed set that contains all direct dependants of root contains the rest of its family.
  lemma FamilyInClosedSet(schema: Schema, db: Database, root: RecordId, d: set<RecordId>, y: RecordId)
    requires ClosedUnder(schema, db, d) && (forall x | DependsOn(schema, db, x, root) :: x in d)
    requires y in Family(schema, db, root) && y != root
    ensures y in d
  {
    var p :| PathBetween(schema, db, p, root, y);
    assert DependsOn(schema, db, p[0 + 1], p[0]);
    forall i | 0 <= i < |p| - 2 ensures DependsOn(schema, db, p[1..][i + 1], p[1..][i]) {
      assert DependsOn(schema, db, p[(i + 1) + 1], p[i + 1]);
    }
    PathStaysInClosedSet(schema, db, p[1..], d);
  }

  // Deleting a closed set leaves no dangling foreign key behind.
  lemma ClosedDeletionKeepsIntact(schema: Schema, db: Database, d: set<RecordId>)
    requires Intact(schema, db) && ClosedUnder(schema, db, d)
    ensures Intact(schema, db - d)
  {
    forall x, y | DependsOn(schema, db - d, x, y) ensures y in db - d {
      assert DependsOn(schema, db, x, y);
    }
  }

  // ---------------------------------------------------------------------------------------------
  // The tables of the Lifecycle database

  const ALL_TABLES: seq<Table> := [
    JobFamily, Job, Deployment, Esc, PublicEndpointRequest, TrashJob, AuditLogEvent, User,
    AuthSubject, AuthToken, AuthResourcePermission, Setting, AsyncJobCall]

  function OnDeleteCascade(t: Table): seq<ForeignKey> {
    match t
    case Job => [ForeignKey("family_id", JobFamily)]
    case PublicEndpointRequest => [ForeignKey("job_id", Job)]
    case AuthSubject => [ForeignKey("user_id", User), ForeignKey("esc_id", Esc), ForeignKey("job_family_id", JobFamily)]
    case AuthToken => [ForeignKey("auth_subject_id", AuthSubject)]
    case AuthResourcePermission =>
      [ForeignKey("auth_subject_id", AuthSubject), ForeignKey("job_family_id", JobFamily), ForeignKey("job_id", Job)]
    case _ => []
  }

  const RACETRACK := Schema(ALL_TABLES, map t | t in ALL_TABLES :: OnDeleteCascade(t))

  lemma {:induction false} IndexOfElement(ts: seq<Table>, i: nat)
    requires i < |ts| && forall j | 0 <= j < i :: ts[j] != ts[i]
    ensures IndexOf(ts, ts[i]) == i
  {
    if i > 0 {
      IndexOfElement(ts[1..], i - 1);
    }
  }

  function Position(t: Table): (i: nat)
    ensures i < |ALL_TABLES| && ALL_TABLES[i] == t
  {
    match t
    case JobFamily => 0
    case Job => 1
    case Deployment => 2
    case Esc => 3
    case PublicEndpointRequest => 4
    case TrashJob => 5
    case AuditLogEvent => 6
    case User => 7
    case AuthSubject => 8
    case AuthToken => 9
    case AuthResourcePermission => 10
    case Setting => 11
    case AsyncJobCall => 12
  }

  lemma TablesAreDistinct(j: nat)
    requires j < |ALL_TABLES|
    ensures Position(ALL_TABLES[j]) == j
  {
  }

  lemma RankIsPosition(t: Table)
    ensures RACETRACK.Rank(t) == Position(t)
  {
    forall j | 0 <= j < |ALL_TABLES| ensures Position(ALL_TABLES[j]) == j {
      TablesAreDistinct(j);
    }
    IndexOfElement(ALL_TABLES, Position(t));
  }

  lemma CascadePointsBack(t: Table, i: nat)
    requires i < |OnDeleteCascade(t)|
    ensures Position(OnDeleteCascade(t)[i].origin) < Position(t)
  {
  }

  lemma EdgePointsBack(t: Table, c: Column, o: Table)
    requires RACETRACK.HasEdge(t, c, o)
    ensures RACETRACK.Rank(o) < RACETRACK.Rank(t)
  {
    var keys := RACETRACK.cascade[t];
    var i :| 0 <= i < |keys| && keys[i] == ForeignKey(c, o);
    CascadePointsBack(t, i);
    RankIsPosition(t);
    RankIsPosition(o);
  }

  lemma RacetrackIsRanked()
    ensures RACETRACK.Ranked()
  {
    forall t, c, o | RACETRACK.HasEdge(t, c, o) ensures RACETRACK.Rank(o) < RACETRACK.Rank(t) {
      EdgePointsBack(t, c, o);
    }
  }

  lemma RacetrackEdge(t: Table, c: Column, o: Table, i: nat)
    requires i < |OnDeleteCascade(t)| && OnDeleteCascade(t)[i] == ForeignKey(c, o)
    ensures RACETRACK.HasEdge(t, c, o)
  {
    assert ALL_TABLES[Position(t)] == t;
  }

  lemma ReferenceJoinsFamily(db: Database, root: RecordId, x: RecordId, y: RecordId, c: Column, i: nat)
    requires i < |OnDeleteCascade(x.table)| && OnDeleteCascade(x.table)[i] == ForeignKey(c, y.table)
    requires x in db && Refers(db[x], c, y.key) && (y == root || y in Family(RACETRACK, db, root))
    ensures x in Family(RACETRACK, db, root)
  {
    RacetrackEdge(x.table, c, y.table, i);
    assert DependsOn(RACETRACK, db, x, y);
    FamilyIsClosed(RACETRACK, db, root, x, y);
  }

  // The diamond: with a job family go its jobs, the permissions for these jobs, and the permissions for the
  // family itself, whether or not they are also for one of its jobs.
  lemma FamilyTakesItsJobsAndPermissions(db: Database, family: RecordId, job: RecordId, forJob: RecordId, forFamily: RecordId)
    requires family.table == JobFamily && job.table == Job && forJob.table == AuthResourcePermission && forFamily.table == AuthResourcePermission
    requires job in db && Refers(db[job], "family_id", family.key)
    requires forJob in db && Refers(db[forJob], "job_id", job.key)
    requires forFamily in db && Refers(db[forFamily], "job_family_id", family.key)
    ensures {job, forJob, forFamily} <= Family(RACETRACK, db, family)
  {
    ReferenceJoinsFamily(db, family, job, family, "family_id", 0);
    ReferenceJoinsFamily(db, family, forFamily, family, "job_family_id", 1);
    ReferenceJoinsFamily(db, family, forJob, job, "job_id", 2);
  }

  // The other way from a family, an ESC or a user to tokens and permissions leads over the auth subject.
  lemma OwnersTakeTheirSubjectsTokensAndPermissions(db: Database, owner: RecordId, subject: RecordId, token: RecordId, permission: RecordId)
    requires subject.table == AuthSubject && token.table == AuthToken && permission.table == AuthResourcePermission
    requires subject in db
    requires || (owner.table == User && Refers(db[subject], "user_id", owner.key))
             || (owner.table == Esc && Refers(db[subject], "esc_id", owner.key))
             || (owner.table == JobFamily && Refers(db[subject], "job_family_id", owner.key))
    requires token in db && Refers(db[token], "auth_subject_id", subject.key)
    requires permission in db && Refers(db[permission], "auth_subject_id", subject.key)
    ensures {subject, token, permission} <= Family(RACETRACK, db, owner)
  {
    if owner.table == User {
      ReferenceJoinsFamily(db, owner, subject, owner, "user_id", 0);
    } else if owner.table == Esc {
      ReferenceJoinsFamily(db, owner, subject, owner, "esc_id", 1);
    } else {
      ReferenceJoinsFamily(db, owner, subject, owner, "job_family_id", 2);
    }
    ReferenceJoinsFamily(db, owner, token, subject, "auth_subject_id", 0);
    ReferenceJoinsFamily(db, owner, permission, subject, "auth_subject_id", 0);
  }

  lemma JobsTakeTheirEndpointRequests(db: Database, job: RecordId, request: RecordId)
    requires job.table == Job && request.table == PublicEndpointRequest
    requires request in db && Refers(db[request], "job_id", job.key)
    ensures request in Family(RACETRACK, db, job)
  {
    ReferenceJoinsFamily(db, job, request, job, "job_id", 0);
  }
}
