/** Each statement works on its own table alone: it touches no other file and no other state,
    and what it does depends on nothing but its file and its state. */
module Locality {
  import opened Wrappers
  import opened SortedEntries
  import opened Schemas
  import opened Sql
  import opened TableFile
  import opened RowIndex
  import opened Storage
  import opened Numbers
  import opened Database
  import opened Coherence
  import opened RowBuilding

  // ---------- Other tables ----------

  /** Only the file and the state of the table may differ, and no state but that of the table
      may be new. */
  ghost predicate TouchesOnly(before: Db, after: Db, name: string) {
    && (forall n | n != name :: FileOf(after.files, n) == FileOf(before.files, n))
    && |before.tables| <= |after.tables|
    && (forall k | 0 <= k < |before.tables| ::
          && after.tables[k].name == before.tables[k].name
          && (before.tables[k].name != name ==> after.tables[k] == before.tables[k]))
    && (forall k | |before.tables| <= k < |after.tables| :: after.tables[k].name == name)
  }

  lemma TouchesNothing(db: Db, name: string)
    ensures TouchesOnly(db, db, name)
  {
  }

  lemma TouchesTwice(a: Db, b: Db, c: Db, name: string)
    requires TouchesOnly(a, b, name) && TouchesOnly(b, c, name)
    ensures TouchesOnly(a, c, name)
  {
    hide FileOf;
  }

  lemma LoadedTouches(db: Db, schema: Schema, pk: nat)
    requires Loaded(db, schema, pk).Some?
    ensures TouchesOnly(db, Loaded(db, schema, pk).value, schema.table)
    ensures Fresh(db.files, schema, pk).Some? ==> Fresh(db.files, schema, pk).value.name == schema.table
  {
    hide TableRows, Indexed, MaxKey;
  }

  lemma WithTableTouches(db: Db, k: nat, t: Table, name: string)
    requires k < |db.tables| && db.tables[k].name == t.name == name
    ensures TouchesOnly(db, WithTable(db, k, t), name)
  {
  }

  lemma AppendTouches(db: Db, schema: Schema, row: seq<string>)
    ensures TouchesOnly(db, db.(files := AfterAppend(db.files, schema, row).0), schema.table)
  {
    hide Appended;
  }

  lemma AllocatedTouches(db: Db, schema: Schema, pk: nat)
    ensures TouchesOnly(db, Allocated(db, schema, pk).0, schema.table)
  {
    hide TouchesOnly, Loaded;
    TouchesNothing(db, schema.table);
    if Loaded(db, schema, pk).Some? {
      var l := Loaded(db, schema, pk).value;
      var k := Find(l.tables, schema.table);
      var u := l.tables[k].(nextId := l.tables[k].nextId + 1);
      LoadedTouches(db, schema, pk);
      WithTableTouches(l, k, u, schema.table);
      TouchesTwice(db, l, WithTable(l, k, u), schema.table);
    }
  }

  lemma {:induction false} CompletedTouches(db: Db, schema: Schema, cells: Cells, i: nat)
    requires i <= |cells|
    ensures TouchesOnly(db, Completed(db, schema, cells, i).0, schema.table)
    decreases |cells| - i
  {
    hide TouchesOnly, Allocated, IntToText;
    TouchesNothing(db, schema.table);
    if i < |cells| {
      if cells[i].Some? {
        CompletedTouches(db, schema, cells, i + 1);
      } else if schema.primaryKey == Some(i) {
        var (d, id) := Allocated(db, schema, i);
        AllocatedTouches(db, schema, i);
        CompletedTouches(d, schema, cells, i + 1);
        TouchesTwice(db, d, Completed(d, schema, cells, i + 1).0, schema.table);
      }
    }
  }

  lemma BuiltRowTouches(db: Db, schema: Schema, columns: Option<seq<string>>, values: seq<Literal>)
    requires columns.Some? ==> |columns.value| == |values|
    ensures TouchesOnly(db, BuiltRow(db, schema, columns, values).0, schema.table)
  {
    hide TouchesOnly, Completed, Placed, InOrder;
    TouchesNothing(db, schema.table);
    if columns.Some? {
      var placed := Placed(schema.columns, columns.value, values, Blank(|schema.columns|));
      if placed.Some? {
        CompletedTouches(db, schema, placed.value, 0);
      }
    }
  }

  lemma RegisteredTouches(db: Db, schema: Schema, k: nat, id: int, offset: nat)
    requires k < |db.tables| && db.tables[k].name == schema.table
    ensures TouchesOnly(db, Registered(db, schema, k, id, offset).0, schema.table)
  {
    hide TouchesOnly, Holds, Inserted;
    var t := db.tables[k];
    TouchesNothing(db, schema.table);
    WithTableTouches(db, k, Remembered(t.(entries := Inserted(t.entries, id, offset)), id), schema.table);
  }

  lemma StoredTouches(db: Db, schema: Schema, row: seq<string>)
    ensures TouchesOnly(db, Stored(db, schema, row).0, schema.table)
  {
    hide TouchesOnly, Loaded, ParseInt, Holds, Registered, AfterAppend;
    TouchesNothing(db, schema.table);
    match schema.primaryKey
    case None => AppendTouches(db, schema, row);
    case Some(pk) =>
      if pk < |row| && ParseInt(row[pk]).Some? && Loaded(db, schema, pk).Some? {
        var l, id := Loaded(db, schema, pk).value, ParseInt(row[pk]).value;
        LoadedTouches(db, schema, pk);
        var k := Find(l.tables, schema.table);
        var (files, offset) := AfterAppend(l.files, schema, row);
        var a := l.(files := files);
        AppendTouches(l, schema, row);
        TouchesTwice(db, l, a, schema.table);
        if offset.Some? {
          RegisteredTouches(a, schema, k, id, offset.value);
          TouchesTwice(db, a, Registered(a, schema, k, id, offset.value).0, schema.table);
        }
      }
  }

  lemma InsertingTouches(db: Db, schemas: map<string, Schema>, table: string, columns: Option<seq<string>>,
                         values: seq<Literal>)
    requires table in schemas ==> schemas[table].table == table
    requires columns.Some? ==> |columns.value| == |values|
    ensures TouchesOnly(db, Inserting(db, schemas, table, columns, values).0, table)
  {
    hide TouchesOnly, BuiltRow, Stored;
    TouchesNothing(db, table);
    if table in schemas {
      var (b, row) := BuiltRow(db, schemas[table], columns, values);
      BuiltRowTouches(db, schemas[table], columns, values);
      if row.Some? {
        StoredTouches(b, schemas[table], row.value);
        TouchesTwice(db, b, Stored(b, schemas[table], row.value).0, table);
      }
    }
  }

  lemma SelectingTouches(db: Db, schemas: map<string, Schema>, table: string, columns: Option<seq<string>>,
                         condition: Option<Where>)
    requires table in schemas ==> schemas[table].table == table
    ensures TouchesOnly(db, Selecting(db, schemas, table, columns, condition).0, table)
  {
    hide TouchesOnly, Loaded, ParseInt, ResolvedTest, SelectedColumns;
    TouchesNothing(db, table);
    if table in schemas && condition.Some? && ResolvedTest(schemas[table], condition.value).Some? {
      var pk := ResolvedTest(schemas[table], condition.value).value.column;
      if Loaded(db, schemas[table], pk).Some? {
        LoadedTouches(db, schemas[table], pk);
      }
    }
  }

  /** Whatever a statement does, accepted or refused, it does to its own table. */
  lemma ExecutedTouches(db: Db, schemas: map<string, Schema>, statement: Statement)
    requires GoodSchemas(schemas) && Paired(statement)
    ensures TouchesOnly(db, Executed(db, schemas, statement).0, statement.table)
  {
    hide TouchesOnly, Inserting, Selecting;
    match statement
    case Insert(table, columns, values) => InsertingTouches(db, schemas, table, columns, values);
    case Select(table, columns, condition) => SelectingTouches(db, schemas, table, columns, condition);
  }

  // ---------- The own table ----------

  /** The files and one state. */
  ghost function Only(db: Db, k: nat): Db
    requires k < |db.tables|
  {
    Db(db.files, [db.tables[k]])
  }

  /** The outcome in a database is the outcome with the one state alone, put into its slot. */
  ghost predicate AsAlone<T>(db: Db, k: nat, a: (Db, T), b: (Db, T))
    requires k < |db.tables|
  {
    && |b.0.tables| == 1 && b.0.tables[0].name == db.tables[k].name
    && a.1 == b.1 && a.0 == Db(b.0.files, db.tables[k := b.0.tables[0]])
  }

  lemma AloneStays<T>(db: Db, k: nat, r: T)
    requires k < |db.tables|
    ensures AsAlone(db, k, (db, r), (Only(db, k), r))
  {
  }

  lemma AloneFound(db: Db, k: nat, name: string)
    requires Find(db.tables, name) == k < |db.tables|
    ensures Find(Only(db, k).tables, name) == 0
  {
  }

  /** Where the next step starts. */
  lemma AloneNext<T>(db: Db, k: nat, a: (Db, T), b: (Db, T), name: string)
    requires Find(db.tables, name) == k < |db.tables| && AsAlone(db, k, a, b)
    ensures k < |a.0.tables| && Only(a.0, k) == b.0 && Find(a.0.tables, name) == k
  {
    StillFound(db.tables, name, b.0.tables[0]);
  }

  lemma AllocatedAlone(db: Db, schema: Schema, pk: nat, k: nat)
    requires Find(db.tables, schema.table) == k < |db.tables|
    ensures AsAlone(db, k, Allocated(db, schema, pk), Allocated(Only(db, k), schema, pk))
  {
    AloneFound(db, k, schema.table);
  }

  lemma {:induction false} CompletedAlone(db: Db, schema: Schema, cells: Cells, i: nat, k: nat)
    requires Find(db.tables, schema.table) == k < |db.tables| && i <= |cells|
    ensures AsAlone(db, k, Completed(db, schema, cells, i), Completed(Only(db, k), schema, cells, i))
    decreases |cells| - i
  {
    hide Allocated, IntToText, Find;
    if i < |cells| {
      if cells[i].Some? {
        CompletedAlone(db, schema, cells, i + 1, k);
      } else if schema.primaryKey == Some(i) {
        var a, b := Allocated(db, schema, i), Allocated(Only(db, k), schema, i);
        AllocatedAlone(db, schema, i, k);
        AloneNext(db, k, a, b, schema.table);
        CompletedAlone(a.0, schema, cells, i + 1, k);
      }
    }
  }

  lemma BuiltRowAlone(db: Db, schema: Schema, columns: Option<seq<string>>, values: seq<Literal>, k: nat)
    requires Find(db.tables, schema.table) == k < |db.tables|
    requires columns.Some? ==> |columns.value| == |values|
    ensures AsAlone(db, k, BuiltRow(db, schema, columns, values), BuiltRow(Only(db, k), schema, columns, values))
  {
    hide Completed, Placed, InOrder, Find;
    if columns.Some? {
      var placed := Placed(schema.columns, columns.value, values, Blank(|schema.columns|));
      if placed.Some? {
        CompletedAlone(db, schema, placed.value, 0, k);
      }
    }
  }

  lemma RegisteredAlone(db: Db, schema: Schema, k: nat, id: int, offset: nat)
    requires k < |db.tables|
    ensures AsAlone(db, k, Registered(db, schema, k, id, offset), Registered(Only(db, k), schema, 0, id, offset))
  {
    hide Holds, Inserted;
  }

  lemma StoredAlone(db: Db, schema: Schema, row: seq<string>, k: nat)
    requires Find(db.tables, schema.table) == k < |db.tables|
    ensures AsAlone(db, k, Stored(db, schema, row), Stored(Only(db, k), schema, row))
  {
    AloneFound(db, k, schema.table);
    hide ParseInt, Holds, Registered, AfterAppend, Find;
    match schema.primaryKey
    case None =>
    case Some(pk) =>
      if pk < |row| && ParseInt(row[pk]).Some? {
        var o, id := Only(db, k), ParseInt(row[pk]).value;
        StateOfSlot(db, schema, pk);
        StateOfSlot(o, schema, pk);
        var (files, offset) := AfterAppend(db.files, schema, row);
        if offset.Some? {
          RegisteredAlone(db.(files := files), schema, k, id, offset.value);
        }
      }
  }

  /** An INSERT into a loaded table does to its file and state what it would do were they
      alone, wherever the state is kept. */
  lemma InsertingAlone(db: Db, schemas: map<string, Schema>, table: string, columns: Option<seq<string>>,
                       values: seq<Literal>, k: nat)
    requires table in schemas && schemas[table].table == table && Find(db.tables, table) == k < |db.tables|
    requires columns.Some? ==> |columns.value| == |values|
    ensures AsAlone(db, k, Inserting(db, schemas, table, columns, values),
                    Inserting(Only(db, k), schemas, table, columns, values))
  {
    hide BuiltRow, Stored, Find;
    var schema := schemas[table];
    var a, b := BuiltRow(db, schema, columns, values), BuiltRow(Only(db, k), schema, columns, values);
    BuiltRowAlone(db, schema, columns, values, k);
    AloneNext(db, k, a, b, table);
    if a.1.Some? {
      StoredAlone(a.0, schema, a.1.value, k);
    }
  }

  // ---------- The first use of a table ----------

  /** Loading a table first does not change what a statement does, unless the statement is
      refused before it would have loaded the table. */
  ghost predicate LoadedAlike<T>(db: Db, l: Db, a: (Db, T), b: (Db, T)) {
    a == b || (a.0 == db && b.0 == l && a.1 == b.1)
  }

  lemma {:induction false} CompletedLoaded(db: Db, l: Db, schema: Schema, pk: nat, cells: Cells, i: nat)
    requires schema.primaryKey == Some(pk) && i <= |cells| && Loaded(db, schema, pk) == Some(l)
    ensures LoadedAlike(db, l, Completed(db, schema, cells, i), Completed(l, schema, cells, i))
    decreases |cells| - i
  {
    LoadedTwice(db, schema, pk);
    AllocatedLoaded(db, l, schema, pk);
    hide Loaded, Allocated, IntToText;
    if i < |cells| && cells[i].Some? {
      CompletedLoaded(db, l, schema, pk, cells, i + 1);
    }
  }

  lemma AllocatedLoaded(db: Db, l: Db, schema: Schema, pk: nat)
    requires Loaded(db, schema, pk) == Some(l)
    ensures Allocated(db, schema, pk) == Allocated(l, schema, pk)
  {
    LoadedTwice(db, schema, pk);
    hide Loaded;
  }

  lemma StoredLoaded(db: Db, l: Db, schema: Schema, pk: nat, row: seq<string>)
    requires schema.primaryKey == Some(pk) && Loaded(db, schema, pk) == Some(l)
    ensures Stored(db, schema, row) == Stored(l, schema, row)
            || (Stored(db, schema, row) == (db, false) && Stored(l, schema, row) == (l, false))
  {
    LoadedTwice(db, schema, pk);
    hide Loaded, ParseInt, Holds, AfterAppend, Registered;
  }

  lemma BuiltRowLoaded(db: Db, l: Db, schema: Schema, pk: nat, columns: Option<seq<string>>, values: seq<Literal>)
    requires schema.primaryKey == Some(pk) && Loaded(db, schema, pk) == Some(l)
    requires columns.Some? ==> |columns.value| == |values|
    ensures LoadedAlike(db, l, BuiltRow(db, schema, columns, values), BuiltRow(l, schema, columns, values))
  {
    if columns.Some? {
      var placed := Placed(schema.columns, columns.value, values, Blank(|schema.columns|));
      hide Placed, Completed, Loaded;
      if placed.Some? {
        CompletedLoaded(db, l, schema, pk, placed.value, 0);
      }
    }
  }

  lemma {:induction false} InsertingLoaded(db: Db, l: Db, schemas: map<string, Schema>, table: string, pk: nat,
                                           columns: Option<seq<string>>, values: seq<Literal>)
    requires table in schemas && schemas[table].primaryKey == Some(pk) && Loaded(db, schemas[table], pk) == Some(l)
    requires columns.Some? ==> |columns.value| == |values|
    ensures var (d, ok) := Inserting(db, schemas, table, columns, values);
            (d, ok) == Inserting(l, schemas, table, columns, values)
            || ((d, ok) == (db, false) && Inserting(l, schemas, table, columns, values) == (l, false))
  {
    hide Loaded, BuiltRow, Stored;
    var schema := schemas[table];
    BuiltRowLoaded(db, l, schema, pk, columns, values);
    var (b, row) := BuiltRow(db, schema, columns, values);
    if row.Some? {
      StoredLoaded(db, l, schema, pk, row.value);
    }
  }
}
