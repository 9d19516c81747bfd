/** The automatic ids of a table: new and increasing along a run, and when the next one is the
    one that a restart would compute. */
module AutomaticIds {
  import opened Wrappers
  import opened SortedEntries
  import opened Schemas
  import opened Sql
  import opened TableFile
  import opened RowIndex
  import opened Storage
  import opened Numbers
  import opened Database
  import opened Coherence
  import opened RowBuilding
  import opened Locality
  import opened Runs

  // ---------- Automatic ids over a run ----------

  ghost predicate NoRestart(commands: seq<Command>) {
    forall c | c in commands :: c.Execute?
  }

  /** States stay in place, and the next automatic id never decreases. */
  ghost predicate NeverBack(before: Db, after: Db) {
    && |before.tables| <= |after.tables|
    && forall k | 0 <= k < |before.tables| ::
         after.tables[k].name == before.tables[k].name && before.tables[k].nextId <= after.tables[k].nextId
  }

  lemma {:induction false} StatementNeverGoesBack(db: Db, schemas: map<string, Schema>, statement: Statement)
    requires GoodSchemas(schemas) && Coherent(db, schemas) && Acceptable(statement)
    ensures NeverBack(db, Executed(db, schemas, statement).0)
  {
    match statement
    case Insert(table, columns, values) =>
      InsertIsCoherent(db, schemas, table, columns, values);
      hide Coherent, Inserting, RowOk;
    case Select(table, columns, condition) =>
      SelectIsCoherent(db, schemas, table, columns, condition);
      hide Coherent, Selecting;
  }

  lemma {:induction false} RunNeverGoesBack(db: Db, schemas: map<string, Schema>, commands: seq<Command>)
    requires GoodSchemas(schemas) && Coherent(db, schemas) && AcceptableCommands(commands) && NoRestart(commands)
    ensures Coherent(Run(db, schemas, commands), schemas) && NeverBack(db, Run(db, schemas, commands))
  {
    hide Coherent, Executed;
    if commands != [] {
      var n := |commands| - 1;
      var front, last := commands[..n], commands[n];
      assert last in commands;
      RunNeverGoesBack(db, schemas, front);
      var d := Run(db, schemas, front);
      StepIsCoherent(d, schemas, last);
      StatementNeverGoesBack(d, schemas, last.statement);
    }
  }

  /** An INSERT that leaves its primary key to the program. */
  ghost predicate TakesId(db: Db, schema: Schema, pk: nat, names: seq<string>, values: seq<Literal>) {
    && schema.primaryKey == Some(pk) && |names| == |values|
    && Given(schema.columns, names, values, pk).None?
    && BuiltRow(db, schema, Some(names), values).1.Some?
  }

  ghost function TakenId(db: Db, schema: Schema, pk: nat, names: seq<string>, values: seq<Literal>): int
    requires TakesId(db, schema, pk, names, values)
  {
    var row := BuiltRow(db, schema, Some(names), values).1.value;
    if pk < |row| && ParseInt(row[pk]).Some? then ParseInt(row[pk]).value else 0
  }

  /** The table has a state, and its next automatic id is above `id`. */
  ghost predicate PassedBy(db: Db, table: string, id: int) {
    var k := Find(db.tables, table);
    k < |db.tables| && id < db.tables[k].nextId
  }

  lemma {:induction false} PassedForGood(before: Db, after: Db, table: string, id: int)
    requires NeverBack(before, after) && PassedBy(before, table, id)
    ensures PassedBy(after, table, id)
  {
    SameSlot(before, after, table);
  }

  lemma {:induction false} TakenIdIsPassed(db: Db, schemas: map<string, Schema>, schema: Schema, pk: nat,
                                           names: seq<string>, values: seq<Literal>)
    requires GoodSchemas(schemas) && Coherent(db, schemas) && schema.table in schemas && schemas[schema.table] == schema
    requires TakesId(db, schema, pk, names, values) && CleanLiterals(values)
    ensures var d := Inserting(db, schemas, schema.table, Some(names), values).0;
            Coherent(d, schemas) && PassedBy(d, schema.table, TakenId(db, schema, pk, names, values))
  {
    var (b, row) := BuiltRow(db, schema, Some(names), values);
    assert Inserting(db, schemas, schema.table, Some(names), values) == Stored(b, schema, row.value);
    var id := TakenId(db, schema, pk, names, values);
    assert PassedBy(b, schema.table, id) by {
      hide Coherent, BuiltRow, Stored, Inserting, Given;
      AutomaticIdIsNew(db, schemas, schema, pk, names, values);
    }
    hide Coherent, BuiltRow, Stored, Inserting, Given, PassedBy, TakenId;
    BuiltRowIsCoherent(db, schema, Some(names), values, schemas);
    assert Ready(b, schema, row.value, schemas);
    StoredNeverGoesBack(b, schema, row.value, schemas);
    PassedForGood(b, Stored(b, schema, row.value).0, schema.table, id);
  }

  lemma {:induction false} TakenIdIsNext(db: Db, schemas: map<string, Schema>, schema: Schema, pk: nat,
                                         names: seq<string>, values: seq<Literal>)
    requires GoodSchemas(schemas) && Coherent(db, schemas) && schema.table in schemas && schemas[schema.table] == schema
    requires TakesId(db, schema, pk, names, values) && Find(db.tables, schema.table) < |db.tables|
    requires CleanLiterals(values)
    ensures TakenId(db, schema, pk, names, values) == db.tables[Find(db.tables, schema.table)].nextId
  {
    hide Coherent, BuiltRow, Given;
    AutomaticIdIsNew(db, schemas, schema, pk, names, values);
    BuiltRowIsCoherent(db, schema, Some(names), values, schemas);
    SameSlot(db, BuiltRow(db, schema, Some(names), values).0, schema.table);
  }

  /** Automatic ids increase strictly along a run, rejected statements included. */
  lemma {:induction false} AutomaticIdsIncrease(db: Db, schemas: map<string, Schema>, schema: Schema, pk: nat,
                                                names: seq<string>, values: seq<Literal>, between: seq<Command>,
                                                names': seq<string>, values': seq<Literal>)
    requires GoodSchemas(schemas) && Coherent(db, schemas) && schema.table in schemas && schemas[schema.table] == schema
    requires TakesId(db, schema, pk, names, values) && CleanLiterals(values) && CleanLiterals(values')
    requires AcceptableCommands(between) && NoRestart(between)
    requires var d := Run(Inserting(db, schemas, schema.table, Some(names), values).0, schemas, between);
             TakesId(d, schema, pk, names', values')
    ensures var d := Run(Inserting(db, schemas, schema.table, Some(names), values).0, schemas, between);
            TakenId(db, schema, pk, names, values) < TakenId(d, schema, pk, names', values')
  {
    assert |names| == |values|;
    hide *;
    TakenIdIsPassed(db, schemas, schema, pk, names, values);
    var c := Inserting(db, schemas, schema.table, Some(names), values).0;
    RunNeverGoesBack(c, schemas, between);
    var d := Run(c, schemas, between);
    PassedForGood(c, d, schema.table, TakenId(db, schema, pk, names, values));
    PassedMeans(d, schema.table, TakenId(db, schema, pk, names, values));
    TakenIdIsNext(d, schemas, schema, pk, names', values');
  }

  lemma PassedMeans(db: Db, table: string, id: int)
    requires PassedBy(db, table, id)
    ensures Find(db.tables, table) < |db.tables| && id < db.tables[Find(db.tables, table)].nextId
  {
  }

  lemma StoredNeverGoesBack(db: Db, schema: Schema, row: seq<string>, schemas: map<string, Schema>)
    requires Ready(db, schema, row, schemas)
    ensures var d := Stored(db, schema, row).0; Coherent(d, schemas) && NeverBack(db, d)
  {
    StoredIsCoherent(db, schema, row, schemas);
    hide Coherent, Stored, Ready;
  }

  lemma SameSlot(before: Db, after: Db, name: string)
    requires |before.tables| <= |after.tables|
    requires forall k | 0 <= k < |before.tables| :: after.tables[k].name == before.tables[k].name
    requires Find(before.tables, name) < |before.tables|
    ensures Find(after.tables, name) == Find(before.tables, name)
  {
    FindIs(after.tables, name, Find(before.tables, name));
  }

  // ---------- The next id after a restart ----------

  /** Rebuilding gives back the whole live state, the next id included, exactly when that id
      is the one after the largest in the index. */
  lemma {:induction false} RestartAgrees(db: Db, schemas: map<string, Schema>, k: nat)
    requires GoodSchemas(schemas) && Coherent(db, schemas) && k < |db.tables|
    ensures var t := db.tables[k];
            && t.name in schemas && schemas[t.name].primaryKey.Some?
            && (Fresh(db.files, schemas[t.name], schemas[t.name].primaryKey.value) == Some(t)
                <==> t.nextId == MaxKey(t.entries) + 1)
  {
    hide *;
    TableOfSlot(db, schemas, k);
    FreshInStep(db.tables[k], db.files, schemas);
  }

  lemma TableOfSlot(db: Db, schemas: map<string, Schema>, k: nat)
    requires GoodSchemas(schemas) && Coherent(db, schemas) && k < |db.tables|
    ensures var t := db.tables[k];
            InStep(t, db.files, schemas) && Ahead(t) && t.name in schemas && schemas[t.name].table == t.name
  {
    assert db.tables[k] in db.tables;
    assert InStep(db.tables[k], db.files, schemas);
    hide TableRows, Indexed, WellFormed;
  }

  lemma FreshInStep(t: Table, files: map<string, string>, schemas: map<string, Schema>)
    requires InStep(t, files, schemas) && Ahead(t) && schemas[t.name].table == t.name
    ensures t.name in schemas && schemas[t.name].primaryKey.Some?
    ensures Fresh(files, schemas[t.name], schemas[t.name].primaryKey.value) == Some(t)
            <==> t.nextId == MaxKey(t.entries) + 1
  {
    hide TableRows, Indexed, MaxKey;
  }

  /** The next id after a row was registered, in a state whose next id, before the row took
      one, was the one after the largest. */
  lemma {:induction false} RegistrationAgrees(t: Table, u: Table, id: int, offset: nat)
    requires Ahead(t) && t.nextId == MaxKey(t.entries) + 1 && Sorted(t.entries) && !Holds(t.entries, id) && InRange(id)
    requires u == t || (u == t.(nextId := t.nextId + 1) && id == t.nextId != INT_MAX)
    ensures var r := Registration(u, id, offset);
            r.nextId == MaxKey(r.entries) + 1 <==> id != INT_MAX && (t.entries != [] || id >= 0)
  {
    HoldsIsMember(t.entries, id);
    MaxKeyInserted(t.entries, id, offset);
    LastIsHeld(t.entries, id);
    hide Inserted, Holds;
  }

  lemma LastIsHeld(es: seq<Entry>, id: int)
    requires Sorted(es) && !Holds(es, id)
    ensures es != [] ==> MaxKey(es) != id
  {
    HoldsIsMember(es, id);
  }

  /** What an accepted INSERT makes of the state of its table. */
  lemma {:induction false} AcceptedRegisters(db: Db, schemas: map<string, Schema>, table: string, pk: nat,
                                             columns: Option<seq<string>>, values: seq<Literal>)
    returns (u: Table, id: int, offset: nat)
    requires GoodSchemas(schemas) && Coherent(db, schemas) && CleanLiterals(values)
    requires columns.Some? ==> |columns.value| == |values|
    requires table in schemas && schemas[table].primaryKey == Some(pk) && Find(db.tables, table) < |db.tables|
    requires Inserting(db, schemas, table, columns, values).1
    ensures var k, d := Find(db.tables, table), Inserting(db, schemas, table, columns, values).0;
            && |d.tables| == |db.tables| && d.tables[k] == Registration(u, id, offset)
            && InRange(id) && !Holds(db.tables[k].entries, id)
            && (u == db.tables[k]
                || (u == db.tables[k].(nextId := db.tables[k].nextId + 1) && id == db.tables[k].nextId != INT_MAX))
  {
    var schema, k := schemas[table], Find(db.tables, table);
    assert schema.table == table && WellFormed(schema);
    var (b, built) := BuiltRow(db, schema, columns, values);
    var row := built.value;
    assert Inserting(db, schemas, table, columns, values) == Stored(b, schema, row);
    hide *;
    BuiltRowIsCoherent(db, schema, columns, values, schemas);
    ReadyIs(b, schema, row, schemas);
    RowIsStorable(b, schema, row, schemas);
    BuiltSlot(db, schemas, schema, pk, columns, values);
    StoredMeans(b, schema, pk, row);
    StateOfSlot(b, schema, pk);
    u, id, offset := b.tables[k], ParseInt(row[pk]).value, Appended(FileOf(b.files, table), schema, row).value.1;
    ParsedInRange(row[pk]);
  }

  lemma ParsedInRange(text: string)
    requires ParseInt(text).Some?
    ensures InRange(ParseInt(text).value)
  {
  }

  lemma ReadyIs(db: Db, schema: Schema, row: seq<string>, schemas: map<string, Schema>)
    requires GoodSchemas(schemas) && schema.table in schemas && schemas[schema.table] == schema
    requires Coherent(db, schemas) && RowOk(schema.columns, row)
    ensures Ready(db, schema, row, schemas)
  {
  }

  /** The state of a loaded table once the row of an INSERT is built. */
  lemma {:induction false} BuiltSlot(db: Db, schemas: map<string, Schema>, schema: Schema, pk: nat,
                                     columns: Option<seq<string>>, values: seq<Literal>)
    requires GoodSchemas(schemas) && Coherent(db, schemas) && schema.table in schemas && schemas[schema.table] == schema
    requires schema.primaryKey == Some(pk) && Find(db.tables, schema.table) < |db.tables|
    requires columns.Some? ==> |columns.value| == |values|
    requires BuiltRow(db, schema, columns, values).1.Some?
    ensures var k, (b, row) := Find(db.tables, schema.table), BuiltRow(db, schema, columns, values);
            && |b.tables| == |db.tables| && Find(b.tables, schema.table) == k
            && b.tables[k].entries == db.tables[k].entries
            && (b.tables[k] == db.tables[k]
                || (b.tables[k] == db.tables[k].(nextId := db.tables[k].nextId + 1)
                    && pk < |row.value| && ParseInt(row.value[pk]) == Some(db.tables[k].nextId)
                    && db.tables[k].nextId != INT_MAX))
  {
    var k, row := Find(db.tables, schema.table), BuiltRow(db, schema, columns, values).1;
    assert pk < |schema.columns|;
    hide Coherent, GoodSchemas, BuiltRow, CallsForId, Given, ParseInt;
    BuiltState(db, schema, pk, columns, values);
    AllocatedSlot(db, schema, pk);
    if CallsForId(schema, pk, columns, values) {
      CallMeans(schema, pk, columns, values);
      AutomaticIdIsNew(db, schemas, schema, pk, columns.value, values);
      if Allocated(db, schema, pk).1.None? {
        NoIdNoRow(db, schema, pk, columns, values);
      }
    }
  }

  lemma CallMeans(schema: Schema, pk: nat, columns: Option<seq<string>>, values: seq<Literal>)
    requires CallsForId(schema, pk, columns, values)
    ensures columns.Some? && |columns.value| == |values| && Given(schema.columns, columns.value, values, pk).None?
  {
  }

  lemma AllocatedSlot(db: Db, schema: Schema, pk: nat)
    requires Find(db.tables, schema.table) < |db.tables|
    ensures var k, (d, id) := Find(db.tables, schema.table), Allocated(db, schema, pk);
            && |d.tables| == |db.tables| && Find(d.tables, schema.table) == k
            && (id.Some? ==> d.tables[k] == db.tables[k].(nextId := db.tables[k].nextId + 1)
                             && id.value == db.tables[k].nextId != INT_MAX)
            && (id.None? ==> d == db)
  {
    var k := Find(db.tables, schema.table);
    var t := db.tables[k];
    if t.nextId != INT_MAX {
      StillFound(db.tables, schema.table, t.(nextId := t.nextId + 1));
    }
  }

  /** An INSERT into a table in use. */
  lemma {:induction false} SlotKeepsAgreement(db: Db, schemas: map<string, Schema>, table: string, pk: nat,
                                              columns: Option<seq<string>>, values: seq<Literal>)
    returns (id: int, offset: nat)
    requires GoodSchemas(schemas) && Coherent(db, schemas) && CleanLiterals(values)
    requires columns.Some? ==> |columns.value| == |values|
    requires table in schemas && schemas[table].primaryKey == Some(pk) && Find(db.tables, table) < |db.tables|
    requires Fresh(db.files, schemas[table], pk) == Some(db.tables[Find(db.tables, table)])
    ensures var k, (d, ok) := Find(db.tables, table), Inserting(db, schemas, table, columns, values);
            && k < |d.tables| && d.tables[k].name == table
            && d.tables[k].entries == (if ok then Inserted(db.tables[k].entries, id, offset) else db.tables[k].entries)
            && (Fresh(d.files, schemas[table], pk) == Some(d.tables[k])
                <==> if ok then id != INT_MAX && (db.tables[k].entries != [] || id >= 0)
                     else !TakesAnId(db, schemas[table], pk, columns, values))
  {
    var schema, k := schemas[table], Find(db.tables, table);
    var t := db.tables[k];
    var (d, ok) := Inserting(db, schemas, table, columns, values);
    id, offset := 0, 0;
    hide *;
    TableName(schemas, table);
    InsertIsCoherent(db, schemas, table, columns, values);
    RestartAgrees(db, schemas, k);
    SlotFacts(db, schemas, k);
    if ok {
      var u;
      u, id, offset := AcceptedRegisters(db, schemas, table, pk, columns, values);
      RegistrationAgrees(t, u, id, offset);
      RegistrationMeans(u, id, offset);
      RestartAgrees(d, schemas, k);
    } else {
      InsertEffectMeans(db, d, schemas, table);
      SameSlot(db, d, table);
      RestartAgrees(d, schemas, k);
      RefusedInsertTakesId(db, schemas, table, pk, columns, values);
      NextIdOfSlot(db, schema, pk);
      NextIdOfSlot(d, schema, pk);
      if TakesAnId(db, schema, pk, columns, values) {
        NextIdIs(db, schema, pk);
      }
    }
  }

  /** The live next id is the one a restart computes until a refused statement takes an id,
      or an accepted one stores the largest int, or a negative id as the first. */
  lemma {:induction false} InsertKeepsAgreement(db: Db, schemas: map<string, Schema>, table: string, pk: nat,
                                                columns: Option<seq<string>>, values: seq<Literal>)
    returns (id: int, offset: nat)
    requires GoodSchemas(schemas) && Coherent(db, schemas) && CleanLiterals(values)
    requires columns.Some? ==> |columns.value| == |values|
    requires table in schemas && schemas[table].primaryKey == Some(pk) && StateOf(db, schemas[table], pk).Some?
    requires Fresh(db.files, schemas[table], pk) == StateOf(db, schemas[table], pk)
    ensures var (d, ok) := Inserting(db, schemas, table, columns, values);
            var t, u := StateOf(db, schemas[table], pk).value, StateOf(d, schemas[table], pk);
            && u.Some? && u.value.entries == (if ok then Inserted(t.entries, id, offset) else t.entries)
            && (Fresh(d.files, schemas[table], pk) == u
                <==> if ok then id != INT_MAX && (t.entries != [] || id >= 0)
                     else !TakesAnId(db, schemas[table], pk, columns, values))
  {
    var schema := schemas[table];
    var (d, ok) := Inserting(db, schemas, table, columns, values);
    hide *;
    TableName(schemas, table);
    StateMeans(db, schema, pk);
    var l := Loaded(db, schema, pk).value;
    LoadedIsCoherent(db, schema, pk, schemas);
    LoadedTwice(db, schema, pk);
    StateOfSlot(l, schema, pk);
    SameStateSameId(db, l, schema, pk, columns, values);
    InsertingLoaded(db, l, schemas, table, pk, columns, values);
    id, offset := SlotKeepsAgreement(l, schemas, table, pk, columns, values);
    if (d, ok) == Inserting(l, schemas, table, columns, values) {
      InsertIsCoherent(db, schemas, table, columns, values);
      FoundBySlot(d, schemas, table, Find(l.tables, table));
      StateOfSlot(d, schema, pk);
    }
  }

  lemma SameStateSameId(a: Db, b: Db, schema: Schema, pk: nat, columns: Option<seq<string>>, values: seq<Literal>)
    requires StateOf(a, schema, pk) == StateOf(b, schema, pk)
    ensures TakesAnId(a, schema, pk, columns, values) == TakesAnId(b, schema, pk, columns, values)
  {
    hide StateOf, CallsForId;
  }

  lemma FoundBySlot(db: Db, schemas: map<string, Schema>, name: string, k: nat)
    requires Coherent(db, schemas) && k < |db.tables| && db.tables[k].name == name
    ensures Find(db.tables, name) == k
  {
    FindIs(db.tables, name, k);
  }

  lemma TableName(schemas: map<string, Schema>, table: string)
    requires GoodSchemas(schemas) && table in schemas
    ensures schemas[table].table == table
  {
  }

  lemma SlotFacts(db: Db, schemas: map<string, Schema>, k: nat)
    requires Coherent(db, schemas) && k < |db.tables|
    ensures Ahead(db.tables[k]) && Sorted(db.tables[k].entries)
  {
    IndexIsTheIdMap(db, schemas, k);
    assert db.tables[k] in db.tables;
  }

  lemma InsertEffectMeans(before: Db, after: Db, schemas: map<string, Schema>, table: string)
    requires InsertEffect(before, after, schemas, table, false)
    ensures |before.tables| <= |after.tables|
    ensures forall k | 0 <= k < |before.tables| ::
              after.tables[k].name == before.tables[k].name && after.tables[k].entries == before.tables[k].entries
  {
  }

  lemma NextIdOfSlot(db: Db, schema: Schema, pk: nat)
    requires Find(db.tables, schema.table) < |db.tables|
    ensures NextId(db, schema, pk) == Some(db.tables[Find(db.tables, schema.table)].nextId)
  {
  }
}
