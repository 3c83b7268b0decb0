/**
 * The record mapper of the Lifecycle database: deleting a record together with everything that
 * refers to it.
 * Every single-row statement is executed on its own, so the states in between are visible to others.
 */
module RecordMapper {
  import opened Schema

  // A foreign key seen from the table it points to
  datatype Dependant = Dependant(table: Table, column: Column)

  datatype Outcome = Done | NoRowsAffected

  predicate Listed(index: map<Table, seq<Dependant>>, origin: Table, t: Table, c: Column) {
    origin in index && Dependant(t, c) in index[origin]
  }

  ghost predicate Indexes(schema: Schema, index: map<Table, seq<Dependant>>) {
    forall origin, t, c :: Listed(index, origin, t, c) <==> schema.HasEdge(t, c, origin)
  }

  ghost predicate IntactSince(schema: Schema, states: seq<Database>, start: nat) {
    forall k | start <= k < |states| :: Intact(schema, states[k])
  }

  // In the middle of deleting rec from `before`: `gone` is deleted so far, none of it is rec itself,
  // and with every record in it all records that refer to it are gone too.
  ghost predicate Progress(schema: Schema, before: Database, rec: RecordId, db: Database, gone: set<RecordId>) {
    && db == before - gone
    && gone <= Family(schema, before, rec)
    && ClosedUnder(schema, before, gone)
    && (forall y | y in gone :: schema.Rank(rec.table) < schema.Rank(y.table))
  }

  lemma FamilyExtendsProgress(schema: Schema, before: Database, rec: RecordId, db: Database, gone: set<RecordId>, x: RecordId)
    requires schema.Ranked() && Progress(schema, before, rec, db, gone) && DependsOn(schema, before, x, rec)
    ensures Progress(schema, before, rec, db - Family(schema, db, x), gone + Family(schema, db, x))
  {
    var family := Family(schema, db, x);
    assert schema.Rank(rec.table) < schema.Rank(x.table);
    forall y | y in family ensures y in Family(schema, before, rec) && schema.Rank(rec.table) < schema.Rank(y.table) {
      FamilyOfDependant(schema, db, before, rec, x, y);
      if y != x {
        FamilyRank(schema, db, x, y);
      }
    }
    forall z, y | DependsOn(schema, before, z, y) && y in gone + family ensures z in gone + family {
      if y !in gone && z !in gone {
        assert DependsOn(schema, db, z, y);
        FamilyIsClosed(schema, db, x, z, y);
      }
    }
    assert db - family == before - (gone + family);
  }

  // When all direct dependants are gone, the whole family but the record itself is.
  lemma ProgressIsComplete(schema: Schema, before: Database, rec: RecordId, db: Database, gone: set<RecordId>)
    requires schema.Ranked() && Progress(schema, before, rec, db, gone)
    requires forall x | DependsOn(schema, before, x, rec) :: x in gone
    ensures rec !in gone && ClosedUnder(schema, before, gone + {rec})
    ensures db - {rec} == before - Family(schema, before, rec)
  {
    FamilyHasRoot(schema, before, rec);
    forall y | y in Family(schema, before, rec) && y != rec ensures y in gone {
      FamilyInClosedSet(schema, before, rec, gone, y);
    }
  }

  // The index misses no record that refers to rec.
  lemma DependantsAreIndexed(schema: Schema, index: map<Table, seq<Dependant>>, db: Database, rec: RecordId, gone: set<RecordId>)
    requires Indexes(schema, index)
    requires forall k, x | rec.table in index && 0 <= k < |index[rec.table]| && IsDependant(db, index[rec.table][k], rec, x) :: x in gone
    ensures forall x | DependsOn(schema, db, x, rec) :: x in gone
  {
  }

  // A record of the same table is not in the family.
  lemma SiblingSurvives(schema: Schema, db: Database, x: RecordId, y: RecordId)
    requires schema.Ranked() && x.table == y.table && x != y
    ensures y !in Family(schema, db, x)
  {
    if y in Family(schema, db, x) {
      FamilyRank(schema, db, x, y);
    }
  }

  // Deleting the j-th of the records found for one foreign key, with its family: the records that
  // come after it in the list are still there.
  lemma DeletingOneDependant(schema: Schema, before: Database, rec: RecordId, edge: Dependant, db: Database, gone: set<RecordId>,
                             records: seq<RecordId>, j: nat)
    requires schema.Ranked() && schema.HasEdge(edge.table, edge.column, rec.table) && j < |records|
    requires Progress(schema, before, rec, db, gone)
    requires forall k | j <= k < |records| :: IsDependant(db, edge, rec, records[k])
    requires forall k | j < k < |records| :: records[k] != records[j]
    ensures schema.Rank(rec.table) < schema.Rank(records[j].table) <= |schema.tables|
    ensures records[j] in Family(schema, db, records[j])
    ensures Progress(schema, before, rec, db - Family(schema, db, records[j]), gone + Family(schema, db, records[j]))
    ensures forall k | j < k < |records| :: IsDependant(db - Family(schema, db, records[j]), edge, rec, records[k])
    ensures Intact(schema, before) ==> Intact(schema, db)
  {
    var x := records[j];
    assert IsDependant(db, edge, rec, x);
    assert DependsOn(schema, before, x, rec);
    FamilyExtendsProgress(schema, before, rec, db, gone, x);
    FamilyHasRoot(schema, db, x);
    forall k | j < k < |records| ensures IsDependant(db - Family(schema, db, x), edge, rec, records[k]) {
      assert IsDependant(db, edge, rec, records[k]);
      SiblingSurvives(schema, db, x, records[k]);
    }
    if Intact(schema, before) {
      ClosedDeletionKeepsIntact(schema, before, gone);
    }
  }

  class Mapper {
    const schema: Schema
    var db: Database
    // For every table, the foreign keys that point to it
    var dependants: map<Table, seq<Dependant>>
    // Number of single-row statements that hit no row
    var misses: nat
    // The database after every single-row delete so far
    ghost var history: seq<Database>

    ghost predicate Valid()
      reads this
    {
      schema.Ranked() && Indexes(schema, dependants)
    }

    constructor (schema: Schema, db: Database)
      requires schema.Ranked()
      ensures Valid() && this.schema == schema && this.db == db && history == [] && misses == 0
    {
      this.schema := schema;
      this.db := db;
      history := [];
      misses := 0;
      dependants := map[];
      new;
      PopulateDependants();
    }

    // _populate_delete_cascade_dependants
    method PopulateDependants()
      requires dependants == map[]
      modifies this`dependants
      ensures Indexes(schema, dependants)
    {
      for i := 0 to |schema.tables|
        invariant forall origin, t, c :: Listed(dependants, origin, t, c) <==> t in schema.tables[..i] && schema.HasEdge(t, c, origin)
      {
        var t := schema.tables[i];
        var keys := if t in schema.cascade then schema.cascade[t] else [];
        for j := 0 to |keys|
          invariant forall origin, t', c :: Listed(dependants, origin, t', c) <==>
            (t' in schema.tables[..i] && schema.HasEdge(t', c, origin)) || (t' == t && ForeignKey(c, origin) in keys[..j])
        {
          var ForeignKey(column, origin) := keys[j];
          var known := if origin in dependants then dependants[origin] else [];
          ghost var before := dependants;
          dependants := dependants[origin := known + [Dependant(t, column)]];
          assert forall o, t', c :: Listed(dependants, o, t', c) <==> Listed(before, o, t', c) || (o == origin && t' == t && c == column);
          assert keys[..j + 1] == keys[..j] + [keys[j]];
        }
      }
    }

    // find_many by one foreign key column
    method FindMany(d: Dependant, key: Key) returns (records: seq<RecordId>)
      ensures forall x :: x in records <==> x in db && x.table == d.table && Refers(db[x], d.column, key)
      ensures forall i, j | 0 <= i < j < |records| :: records[i] != records[j]
    {
      records := [];
      var rest := db.Keys;
      while rest != {}
        invariant rest <= db.Keys
        invariant forall x :: x in records <==> x in db && x !in rest && x.table == d.table && Refers(db[x], d.column, key)
        invariant forall i, j | 0 <= i < j < |records| :: records[i] != records[j]
        decreases rest
      {
        var x :| x in rest;
        rest := rest - {x};
        if x.table == d.table && Refers(db[x], d.column, key) {
          records := records + [x];
        }
      }
    }

    // delete_one: a DELETE that has to hit exactly one row
    method DeleteOne(rec: RecordId) returns (outcome: Outcome)
      modifies this`db, this`history, this`misses
      ensures outcome.Done? <==> rec in old(db)
      ensures misses == old(misses) + if outcome.Done? then 0 else 1
      ensures db == old(db) - {rec}
      ensures history == old(history) + if outcome.Done? then [db] else []
    {
      outcome := if rec in db then Done else NoRowsAffected;
      db := db - {rec};
      if outcome.Done? {
        history := history + [db];
      } else {
        misses := misses + 1;
      }
    }

    // delete_record with cascade: removes exactly the record and everything that reaches it through
    // foreign keys. It fails only if the record itself does not exist, and at no moment does it
    // leave a foreign key dangling that was not dangling before.
    method DeleteRecord(rec: RecordId) returns (outcome: Outcome)
      requires Valid()
      modifies this`db, this`history, this`misses
      ensures db == old(db) - Family(schema, old(db), rec)
      ensures outcome.Done? <==> rec in old(db)
      ensures misses == old(misses) + if rec in old(db) then 0 else 1
      ensures old(history) <= history
      ensures Intact(schema, old(db)) ==> IntactSince(schema, history, |old(history)|) && Intact(schema, db)
      decreases |schema.tables| - schema.Rank(rec.table), 2
    {
      ghost var before := db;
      ghost var gone := DeleteCascadeDependencies(rec);
      ProgressIsComplete(schema, before, rec, db, gone);
      if Intact(schema, before) {
        ClosedDeletionKeepsIntact(schema, before, gone + {rec});
        assert db - {rec} == before - (gone + {rec});
      }
      outcome := DeleteOne(rec);
    }

    // _delete_cascade_dependencies
    method DeleteCascadeDependencies(rec: RecordId) returns (ghost gone: set<RecordId>)
      requires Valid()
      modifies this`db, this`history, this`misses
      ensures Progress(schema, old(db), rec, db, gone) && misses == old(misses)
      ensures forall x | DependsOn(schema, old(db), x, rec) :: x in gone
      ensures old(history) <= history
      ensures Intact(schema, old(db)) ==> IntactSince(schema, history, |old(history)|)
      decreases |schema.tables| - schema.Rank(rec.table), 1
    {
      ghost var before := db;
      var edges := if rec.table in dependants then dependants[rec.table] else [];
      gone := {};
      for i := 0 to |edges|
        invariant Progress(schema, before, rec, db, gone) && misses == old(misses)
        invariant forall k, x | 0 <= k < i && IsDependant(before, edges[k], rec, x) :: x in gone
        invariant old(history) <= history
        invariant Intact(schema, before) ==> IntactSince(schema, history, |old(history)|)
      {
        assert Listed(dependants, rec.table, edges[i].table, edges[i].column);
        gone := DeleteDependants(rec, edges[i], before, gone);
      }
      DependantsAreIndexed(schema, dependants, before, rec, gone);
    }

    // The inner loop of _delete_cascade_dependencies, for one foreign key: the referring records are looked
    // up once and then deleted one by one. A failure of one of these deletes would end the whole
    // cascade; it cannot happen, because a record found by the query is still there when its turn comes.
    method DeleteDependants(rec: RecordId, edge: Dependant, ghost before: Database, ghost gone: set<RecordId>)
      returns (ghost gone': set<RecordId>)
      requires Valid() && schema.HasEdge(edge.table, edge.column, rec.table)
      requires Progress(schema, before, rec, db, gone)
      modifies this`db, this`history, this`misses
      ensures misses == old(misses)
      ensures Progress(schema, before, rec, db, gone') && gone <= gone'
      ensures forall x | IsDependant(before, edge, rec, x) :: x in gone'
      ensures old(history) <= history
      ensures Intact(schema, before) ==> IntactSince(schema, history, |old(history)|)
      decreases |schema.tables| - schema.Rank(rec.table), 0
    {
      gone' := gone;
      var records := FindMany(edge, rec.key);
      for j := 0 to |records|
        invariant Progress(schema, before, rec, db, gone') && gone <= gone' && misses == old(misses)
        invariant forall k | 0 <= k < j :: records[k] in gone'
        invariant forall k | j <= k < |records| :: IsDependant(db, edge, rec, records[k])
        invariant old(history) <= history
        invariant Intact(schema, before) ==> IntactSince(schema, history, |old(history)|)
      {
        var x := records[j];
        DeletingOneDependant(schema, before, rec, edge, db, gone', records, j);
        gone' := gone' + Family(schema, db, x);
        var outcome := DeleteRecord(x);
        assert outcome.Done?;
      }
    }
  }

  // Record x refers to rec through this foreign key.
  ghost predicate IsDependant(db: Database, edge: Dependant, rec: RecordId, x: RecordId) {
    x in db && x.table == edge.table && Refers(db[x], edge.column, rec.key)
  }
}
