/**
 * Updating a record that was read from the database: only the fields that differ from the values
 * remembered at reading time are written.
 */
module RecordUpdate {
  import opened Wrappers
  import opened Schema
  import opened RecordMapper

  function PrimaryKeyColumn(t: Table): Column {
    if t == Setting then "name" else "id"
  }

  // _extract_changed_data
  function Changed(fields: Row, originals: Row): Row {
    map c | c in fields && (c !in originals || fields[c] != originals[c]) :: fields[c]
  }

  // What an update that writes `data` makes of a row
  function Overwritten(row: Row, data: Row): Row {
    row + data
  }

  // An update as it is sent: the record it is for, found by its current primary key, and the fields to write
  datatype Edit = Edit(id: RecordId, data: Row)

  // No query is made without fields to write.
  predicate Succeeds(db: Database, e: Edit) {
    e.data == map[] || e.id in db
  }

  function Updated(db: Database, e: Edit): Database {
    if e.data != map[] && e.id in db then db[e.id := Overwritten(db[e.id], e.data)] else db
  }

  function IdOf(t: Table, fields: Row): RecordId
    requires PrimaryKeyColumn(t) in fields && fields[PrimaryKeyColumn(t)].Some?
  {
    RecordId(t, fields[PrimaryKeyColumn(t)].value)
  }

  // What is sent for a record of table t that was read as `read` and has these fields now
  function EditOf(t: Table, fields: Row, read: Row, onlyChanged: bool): Edit
    requires PrimaryKeyColumn(t) in fields && fields[PrimaryKeyColumn(t)].Some?
  {
    Edit(IdOf(t, fields), if onlyChanged then Changed(fields, read) else fields)
  }

  class Record {
    const table: Table
    var fields: Row
    // _original_fields; empty for a record that was not read from the database
    var originals: Row

    constructor (table: Table, fields: Row)
      ensures this.table == table && this.fields == fields && originals == map[]
    {
      this.table := table;
      this.fields := fields;
      originals := map[];
    }
  }

  class Session {
    var db: Database

    constructor (db: Database)
      ensures this.db == db
    {
      this.db := db;
    }

    // find_one by primary key
    method Find(id: RecordId) returns (record: Result<Record, string>)
      ensures record.Ok? <==> id in db
      ensures record.Ok? ==> fresh(record.value) && record.value.table == id.table
      ensures record.Ok? ==> record.value.fields == db[id] && record.value.originals == db[id]
    {
      if id !in db {
        return Err("record not found");
      }
      var found := new Record(id.table, db[id]);
      found.originals := found.fields;
      record := Ok(found);
    }

    // An update without changes is no query at all, so it also succeeds for a record that is gone.
    // The remembered values are replaced before the query runs: after an update that failed, the
    // record counts as unchanged.
    method Update(record: Record, onlyChanged: bool) returns (outcome: Outcome)
      requires PrimaryKeyColumn(record.table) in record.fields && record.fields[PrimaryKeyColumn(record.table)].Some?
      modifies this, record`originals
      ensures var e := EditOf(record.table, record.fields, old(record.originals), onlyChanged);
        && (outcome.Done? <==> Succeeds(old(db), e))
        && db == Updated(old(db), e)
        && (record.originals == if onlyChanged && e.data != map[] then record.fields else old(record.originals))
    {
      var data: Row;
      if onlyChanged {
        data := Changed(record.fields, record.originals);
        if data == map[] {
          return Done;
        }
        record.originals := record.fields;
      } else {
        data := record.fields;
      }
      var id := IdOf(record.table, record.fields);
      if id in db {
        db := db[id := Overwritten(db[id], data)];
        outcome := Done;
      } else {
        outcome := NoRowsAffected;
      }
    }
  }

  // Every row has its key in its primary key column.
  ghost predicate Keyed(db: Database) {
    forall id | id in db :: Refers(db[id], PrimaryKeyColumn(id.table), id.key)
  }

  // An update never moves, adds or removes a row.
  lemma UpdateKeepsKeys(db: Database, t: Table, fields: Row, read: Row, onlyChanged: bool)
    requires PrimaryKeyColumn(t) in fields && fields[PrimaryKeyColumn(t)].Some?
    ensures var db' := Updated(db, EditOf(t, fields, read, onlyChanged)); db'.Keys == db.Keys && (Keyed(db) ==> Keyed(db'))
  {
  }

  // After read, edit and update, the database is the current one, whatever others wrote to it meanwhile,
  // except that the edited fields of this one record have their new values.
  lemma UpdateWritesExactlyTheEdits(db: Database, t: Table, fields: Row, read: Row, id: RecordId, c: Column)
    requires PrimaryKeyColumn(t) in fields && fields[PrimaryKeyColumn(t)].Some? && fields.Keys == read.Keys
    requires id in db && c in db[id] && (id.table == t ==> db[id].Keys == fields.Keys)
    ensures var db' := Updated(db, EditOf(t, fields, read, true));
      && id in db' && db'[id].Keys == db[id].Keys
      && db'[id][c] == if id == IdOf(t, fields) && fields[c] != read[c] then fields[c] else db[id][c]
  {
    assert id.table == t && fields[c] != read[c] ==> c in Changed(fields, read);
  }

  // When the primary key itself was edited, the record that was read is left alone: the update goes to the
  // row that has the new key already, and fails if there is none.
  lemma EditedPrimaryKeyGoesToAnotherRow(db: Database, t: Table, fields: Row, read: Row)
    requires PrimaryKeyColumn(t) in fields && fields[PrimaryKeyColumn(t)].Some?
    requires PrimaryKeyColumn(t) in read && read[PrimaryKeyColumn(t)].Some? && IdOf(t, fields) != IdOf(t, read)
    ensures var e := EditOf(t, fields, read, true);
      && (Succeeds(db, e) <==> IdOf(t, fields) in db)
      && (IdOf(t, read) in db ==> Updated(db, e)[IdOf(t, read)] == db[IdOf(t, read)])
  {
    assert PrimaryKeyColumn(t) in Changed(fields, read);
  }

  ghost predicate Agree(d: Row, d': Row) {
    forall c | c in d && c in d' :: d[c] == d'[c]
  }

  lemma OverwritesCommuteExactlyWhenTheyAgree(row: Row, d: Row, d': Row)
    ensures Overwritten(Overwritten(row, d), d') == Overwritten(Overwritten(row, d'), d) <==> Agree(d, d')
  {
    var a, b := Overwritten(Overwritten(row, d), d'), Overwritten(Overwritten(row, d'), d);
    assert forall c | c in d && c in d' :: a[c] == d'[c] && b[c] == d[c];
    if Agree(d, d') {
      assert a == b;
    }
  }

  // Two updates have the same outcomes in either order, and leave the same database exactly when they are
  // for different records, or for one that is gone, or agree on the fields both write. In particular
  // sessions that edit disjoint fields commute.
  lemma SessionsCommuteExactlyWhenEditsAgree(db: Database, e: Edit, e': Edit)
    ensures (Succeeds(db, e) <==> Succeeds(Updated(db, e'), e)) && (Succeeds(db, e') <==> Succeeds(Updated(db, e), e'))
    ensures Updated(Updated(db, e), e') == Updated(Updated(db, e'), e) <==> e.id != e'.id || e.id !in db || Agree(e.data, e'.data)
  {
    var a, b := Updated(Updated(db, e), e'), Updated(Updated(db, e'), e);
    if e.id == e'.id && e.id in db {
      OverwritesCommuteExactlyWhenTheyAgree(db[e.id], e.data, e'.data);
      assert a[e.id] == Overwritten(Overwritten(db[e.id], e.data), e'.data) by { WritingNothing(db[e.id], e.data, e'.data); }
      assert b[e.id] == Overwritten(Overwritten(db[e.id], e'.data), e.data) by { WritingNothing(db[e.id], e'.data, e.data); }
      assert a == db[e.id := a[e.id]] && b == db[e.id := b[e.id]];
    } else {
      assert a == b;
    }
  }

  lemma WritingNothing(row: Row, d: Row, d': Row)
    ensures Overwritten(row, map[]) == row && Overwritten(Overwritten(row, d), map[]) == Overwritten(row, d)
  {
  }

  // A delete commutes with an update as far as the database goes; the update notices it exactly when it has
  // something to write to a record that is deleted.
  lemma DeleteCommutesWithUpdate(db: Database, e: Edit, gone: set<RecordId>)
    ensures Updated(db - gone, e) == Updated(db, e) - gone
    ensures (Succeeds(db - gone, e) <==> Succeeds(db, e)) <==> e.data == map[] || e.id !in gone || e.id !in db
  {
  }

  // Writing only the edited fields is as good as writing the whole row exactly when the row is gone, or no
  // other writer has meanwhile changed a field that was not edited.
  lemma DirtyUpdateIsFullUpdateWithoutOtherWriters(db: Database, t: Table, fields: Row, read: Row)
    requires PrimaryKeyColumn(t) in fields && fields[PrimaryKeyColumn(t)].Some? && fields.Keys == read.Keys
    requires IdOf(t, fields) in db ==> db[IdOf(t, fields)].Keys == fields.Keys
    ensures var id := IdOf(t, fields);
      Updated(db, EditOf(t, fields, read, true)) == Updated(db, EditOf(t, fields, read, false))
      <==> (id in db ==> forall c | c in fields && fields[c] == read[c] :: db[id][c] == read[c])
  {
    var id := IdOf(t, fields);
    if id in db {
      RowsAgreeExactlyWithoutOtherWriters(fields, read, db[id]);
      WritingNothing(db[id], map[], map[]);
      assert Updated(db, EditOf(t, fields, read, true)) == db[id := Overwritten(db[id], Changed(fields, read))];
      assert Updated(db, EditOf(t, fields, read, false)) == db[id := Overwritten(db[id], fields)];
      assert db[id := Overwritten(db[id], fields)][id] == Overwritten(db[id], fields);
    }
  }

  lemma RowsAgreeExactlyWithoutOtherWriters(fields: Row, read: Row, current: Row)
    requires fields.Keys == read.Keys == current.Keys
    ensures Overwritten(current, Changed(fields, read)) == Overwritten(current, fields)
      <==> (forall c | c in fields && fields[c] == read[c] :: current[c] == read[c])
  {
    var dirty, full := Overwritten(current, Changed(fields, read)), Overwritten(current, fields);
    assert forall c | c in current :: full[c] == fields[c] && (dirty[c] == if fields[c] != read[c] then fields[c] else current[c]);
    if forall c | c in fields && fields[c] == read[c] :: current[c] == read[c] {
      assert dirty == full;
    }
  }
}
