/** Whole runs of the program: statements and restarts in any order, starting from a data
    directory without cut lines. */
module Runs {
  import opened Wrappers
  import opened Limits
  import opened SortedEntries
  import opened Schemas
  import opened Sql
  import opened TableFile
  import opened RowIndex
  import opened Selection
  import opened Storage
  import opened Numbers
  import opened Database
  import opened Coherence
  import Csv

  /** A restart forgets the states in memory and keeps the files. */
  datatype Command = Execute(statement: Statement) | Restart

  ghost predicate Acceptable(statement: Statement) {
    Paired(statement) && (statement.Insert? ==> CleanLiterals(statement.values))
  }

  ghost predicate AcceptableCommands(commands: seq<Command>) {
    forall c | c in commands && c.Execute? :: Acceptable(c.statement)
  }

  ghost function Step(db: Db, schemas: map<string, Schema>, command: Command): Db
    requires command.Execute? ==> Acceptable(command.statement)
  {
    match command
    case Execute(s) => Executed(db, schemas, s).0
    case Restart => db.(tables := [])
  }

  ghost function Run(db: Db, schemas: map<string, Schema>, commands: seq<Command>): Db
    requires AcceptableCommands(commands)
  {
    if commands == [] then db
    else
      var n := |commands| - 1;
      Step(Run(db, schemas, commands[..n]), schemas, commands[n])
  }

  // ---------- The invariant over runs ----------

  /** A SELECT changes no file and no index. */
  lemma {:induction false} SelectIsCoherent(db: Db, schemas: map<string, Schema>, table: string,
                                            columns: Option<seq<string>>, condition: Option<Where>)
    requires GoodSchemas(schemas) && Coherent(db, schemas)
    ensures var d := Selecting(db, schemas, table, columns, condition).0;
            Coherent(d, schemas) && Advances(db, d)
  {
    AdvancesItself(db);
    hide Coherent, Advances, Loaded, ShownAt, Scanned, Find;
    if table in schemas && condition.Some? && ResolvedTest(schemas[table], condition.value).Some? {
      var schema, test := schemas[table], ResolvedTest(schemas[table], condition.value).value;
      assert schema.table == table;
      if UsesIndex(schema, test) && Loaded(db, schema, test.column).Some? {
        LoadedIsCoherent(db, schema, test.column, schemas);
      }
    }
  }

  lemma {:induction false} StepIsCoherent(db: Db, schemas: map<string, Schema>, command: Command)
    requires GoodSchemas(schemas) && Coherent(db, schemas) && (command.Execute? ==> Acceptable(command.statement))
    ensures Coherent(Step(db, schemas, command), schemas)
  {
    match command
    case Restart =>
    case Execute(s) =>
      match s
      case Insert(table, columns, values) =>
        InsertIsCoherent(db, schemas, table, columns, values);
      case Select(table, columns, condition) =>
        SelectIsCoherent(db, schemas, table, columns, condition);
  }

  /** Whatever is executed, with restarts at any point, the index of every table in use is
      the index of its file. The files may contain anything but a line of a table with a
      primary key that the end of its file cuts. */
  lemma {:induction false} RunIsCoherent(files: map<string, string>, schemas: map<string, Schema>,
                                         commands: seq<Command>)
    requires GoodSchemas(schemas) && UncutFiles(files, schemas) && AcceptableCommands(commands)
    ensures Coherent(Run(Db(files, []), schemas, commands), schemas)
  {
    hide Step;
    if commands == [] {
    } else {
      var n := |commands| - 1;
      RunIsCoherent(files, schemas, commands[..n]);
      assert commands[n] in commands;
      StepIsCoherent(Run(Db(files, []), schemas, commands[..n]), schemas, commands[n]);
      hide Coherent;
    }
  }

  // ---------- Restart ----------

  /** Rebuilding the state of a table from the bytes on disk gives back the live index. It
      succeeds exactly when the largest id is not the largest int, and then the next
      automatic id is not above the live one. */
  lemma {:induction false} RestartRebuilds(db: Db, schemas: map<string, Schema>, k: nat)
    requires GoodSchemas(schemas) && Coherent(db, schemas) && k < |db.tables|
    ensures var t := db.tables[k];
            && t.name in schemas && schemas[t.name].primaryKey.Some?
            && var state := Fresh(db.files, schemas[t.name], schemas[t.name].primaryKey.value);
               && (state.Some? <==> MaxKey(t.entries) != INT_MAX)
               && (state.Some? ==> state.value.entries == t.entries && state.value.nextId <= t.nextId)
  {
    var t := db.tables[k];
    assert InStep(t, db.files, schemas) && Ahead(t);
    assert schemas[t.name].table == t.name;
    hide TableRows, Indexed;
    if t.entries != [] {
      assert t.entries[|t.entries| - 1] in t.entries;
    }
  }

  /** After a restart the table can be loaded again, with the same index. */
  lemma {:induction false} RestartReloads(db: Db, schemas: map<string, Schema>, k: nat)
    requires GoodSchemas(schemas) && Coherent(db, schemas) && k < |db.tables| && MaxKey(db.tables[k].entries) != INT_MAX
    ensures var t := db.tables[k];
            && t.name in schemas && schemas[t.name].primaryKey.Some?
            && var d := Loaded(db.(tables := []), schemas[t.name], schemas[t.name].primaryKey.value);
               && d.Some? && |d.value.tables| == 1
               && d.value.tables[0].entries == t.entries && d.value.tables[0].nextId <= t.nextId
  {
    RestartRebuilds(db, schemas, k);
    hide Fresh, Coherent;
  }

  // ---------- The index against the linear scans ----------

  /** The searches through the file that the index replaced give the same answers. */
  lemma {:induction false} IndexAgreesWithScans(db: Db, schemas: map<string, Schema>, k: nat, target: int)
    requires Coherent(db, schemas) && k < |db.tables|
    ensures var t := db.tables[k];
            && t.name in schemas && schemas[t.name].primaryKey.Some?
            && var pk, scan := schemas[t.name].primaryKey.value, TableRows(FileOf(db.files, t.name), schemas[t.name]);
               && scan.complete
               && MaxId(scan.rows, pk) == Some(MaxKey(t.entries))
               && Occurs(scan, pk, target) == Some(Lookup(t.entries, target).Some?)
  {
    var t := db.tables[k];
    assert InStep(t, db.files, schemas);
    var pk, scan := schemas[t.name].primaryKey.value, TableRows(FileOf(db.files, t.name), schemas[t.name]);
    assert scan.complete && Indexed(scan.rows, pk) == Some(t.entries);
    hide *;
    MaxIdIsMaxKey(scan.rows, pk);
    OccursIsLookup(scan, pk, target);
  }

  /** Ids are unique, and the index maps each to the offset of its line. */
  lemma {:induction false} IndexIsTheIdMap(db: Db, schemas: map<string, Schema>, k: nat)
    requires Coherent(db, schemas) && k < |db.tables|
    ensures var t := db.tables[k];
            && t.name in schemas && schemas[t.name].primaryKey.Some?
            && var pk := schemas[t.name].primaryKey.value;
               var rows := TableRows(FileOf(db.files, t.name), schemas[t.name]).rows;
               IdsDistinct(rows, pk) && Describes(t.entries, rows, pk)
  {
    var t := db.tables[k];
    assert InStep(t, db.files, schemas);
    var pk, scan := schemas[t.name].primaryKey.value, TableRows(FileOf(db.files, t.name), schemas[t.name]);
    assert scan.complete && Indexed(scan.rows, pk) == Some(t.entries);
    hide *;
    IndexedDescribes(scan.rows, pk);
    IndexedExactly(scan.rows, pk);
  }

  // ---------- SELECT through the index ----------

  lemma TakenOut<E>(s: seq<E>, x: E) returns (l: seq<E>, r: seq<E>)
    requires x in multiset(s)
    ensures s == l + [x] + r && multiset(l + r) == multiset(s) - multiset{x} && |l + r| == |s| - 1
  {
    var j :| 0 <= j < |s| && s[j] == x;
    l, r := s[..j], s[j + 1..];
    assert s == l + [x] + r;
  }

  lemma PickedAround(l: seq<seq<string>>, x: seq<string>, r: seq<seq<string>>, selected: seq<nat>)
    ensures multiset(PickedAll(l + [x] + r, selected))
            == multiset(PickedAll(l + r, selected)) + multiset{Picked(x, selected)}
  {
    assert PickedAll([x], selected) == [Picked(x, selected)] + PickedAll([], selected);
    hide *;
    PickedConcat(l + [x], r, selected);
    PickedConcat(l, [x], selected);
    PickedConcat(l, r, selected);
  }

  lemma {:induction false} PickedBag(a: seq<seq<string>>, b: seq<seq<string>>, selected: seq<nat>)
    requires multiset(a) == multiset(b)
    ensures multiset(PickedAll(a, selected)) == multiset(PickedAll(b, selected))
    decreases |a|
  {
    hide *;
    if a == [] {
      assert |multiset(b)| == |b|;
      assert b == [];
    } else {
      var x := a[0];
      assert x in multiset(a);
      var k, q := TakenOut(a, x);
      var l, r := TakenOut(b, x);
      PickedBag(k + q, l + r, selected);
      PickedAround(k, x, q, selected);
      PickedAround(l, x, r, selected);
    }
  }

  /** Shows the same rows, each as often. */
  ghost predicate SameRows(a: Output, b: Output) {
    a.ok == b.ok && multiset(a.rows) == multiset(b.rows)
  }

  /** Shows the given rows in ascending order of their ids. */
  ghost predicate InIdOrder(out: Output, matching: seq<seq<string>>, pk: nat, selected: seq<nat>) {
    exists rows | multiset(rows) == multiset(matching) ::
      IdsIncrease(rows, pk) && out == Output(PickedAll(rows, selected), true)
  }

  ghost function Matching(db: Db, schema: Schema, test: Test): seq<seq<string>> {
    Values(Filtered(TableRows(FileOf(db.files, schema.table), schema), test).rows)
  }

  /** Once the table is loaded, answering `=`, `>` or `<` on the primary key from the index
      shows what the linear scan would show: the same list for `=`, the same rows in the
      order of their ids for the ranges. */
  lemma {:induction false} IndexedSelectRefinesScan(db: Db, schemas: map<string, Schema>, schema: Schema,
                                                    selected: seq<nat>, test: Test)
    requires GoodSchemas(schemas) && Coherent(db, schemas) && schema.table in schemas && schemas[schema.table] == schema
    requires UsesIndex(schema, test) && test.dataType.IntType? && ParseInt(test.literal.text).Some?
    requires Loaded(db, schema, test.column).Some?
    ensures var out := Answered(db, schema, selected, test).1;
            && out.ok && SameRows(out, Scanned(db, schema, selected, test))
            && (test.operator.Equal? ==> out == Scanned(db, schema, selected, test))
            && InIdOrder(out, Matching(db, schema, test), test.column, selected)
  {
    var d := Loaded(db, schema, test.column).value;
    LoadedIsCoherent(db, schema, test.column, schemas);
    var t := d.tables[Find(d.tables, schema.table)];
    var target := ParseInt(test.literal.text).value;
    assert t in d.tables;
    assert InStep(t, d.files, schemas) && d.files == db.files;
    var file := FileOf(db.files, schema.table);
    var offsets := FoundOffsets(t.entries, test.operator, target);
    var out := ShownAt(file, schema, offsets, selected);
    assert Answered(db, schema, selected, test).1 == out;
    assert TableRows(file, schema).complete && Indexed(TableRows(file, schema).rows, test.column) == Some(t.entries);
    assert OnPrimaryKey(test, test.column, target);
    assert Matching(db, schema, test) == Values(Filtered(TableRows(file, schema), test).rows);
    assert Scanned(db, schema, selected, test) == Shown(Filtered(TableRows(file, schema), test), selected);
    hide *;
    RowsThroughIndex(file, schema, test, target, t.entries, selected);
  }

  lemma {:induction false} RowsThroughIndex(file: Option<string>, schema: Schema, test: Test, target: int,
                                            es: seq<Entry>, selected: seq<nat>)
    requires TableRows(file, schema).complete && Indexed(TableRows(file, schema).rows, test.column) == Some(es)
    requires OnPrimaryKey(test, test.column, target)
    ensures var out := ShownAt(file, schema, FoundOffsets(es, test.operator, target), selected);
            var scanned := Shown(Filtered(TableRows(file, schema), test), selected);
            && out.ok && SameRows(out, scanned) && (test.operator.Equal? ==> out == scanned)
            && InIdOrder(out, Values(Filtered(TableRows(file, schema), test).rows), test.column, selected)
  {
    var offsets := Offsets(Range(es, test.operator, target));
    var bytes := if file.Some? then file.value else "";
    OffsetsAreRows(TableRows(file, schema).rows, test.column, es, test.operator, target);
    assert TableRows(Some(bytes), schema) == TableRows(file, schema);
    IndexRefinesScan(bytes, schema, test.column, test, target);
    var fetched, filtered := Fetched(bytes, offsets, |schema.columns|), Filtered(TableRows(file, schema), test);
    PickedBag(fetched.rows, Values(filtered.rows), selected);
    NothingWithoutHeader(file, schema, test, target, es);
    assert offsets == [] ==> fetched.rows == [] && PickedAll([], selected) == [];
    assert ShownAt(file, schema, offsets, selected) == Output(PickedAll(fetched.rows, selected), true);
    hide PickedAll, Fetched, Filtered, Values, TableRows, Indexed, Range;
  }

  lemma OffsetsAreRows(rows: seq<Row>, pk: nat, es: seq<Entry>, operator: Operator, target: int)
    requires Indexed(rows, pk) == Some(es)
    ensures FoundOffsets(es, operator, target) == Offsets(Range(es, operator, target))
  {
    IndexedDescribes(rows, pk);
    RangeIsPart(es, operator, target);
    var range := Range(es, operator, target);
    hide Range, Id;
    if range != [] {
      assert range[0] in range;
    }
  }

  lemma NothingWithoutHeader(file: Option<string>, schema: Schema, test: Test, target: int, es: seq<Entry>)
    requires TableRows(file, schema).complete && Indexed(TableRows(file, schema).rows, test.column) == Some(es)
    requires OnPrimaryKey(test, test.column, target)
    ensures (file.Some? && HeaderOk(file.value, schema)) || Range(es, test.operator, target) == []
  {
    if file.None? || !HeaderOk(file.value, schema) {
      assert TableRows(file, schema).rows == [];
      assert es == [];
    }
  }

  /** What a table must be like to be loaded: in use already, or readable to its end, with
      distinct ids, the largest int not among them, and a free state. */
  ghost predicate CanLoad(db: Db, schema: Schema, pk: nat) {
    var scan := TableRows(FileOf(db.files, schema.table), schema);
    || (exists t | t in db.tables :: t.name == schema.table)
    || (scan.complete && AllHaveIds(scan.rows, pk) && IdsDistinct(scan.rows, pk)
        && (forall r | r in scan.rows :: Id(r, pk) != Some(INT_MAX))
        && |db.tables| < MAX_TABLES)
  }

  lemma {:induction false} LoadsExactly(db: Db, schema: Schema, pk: nat)
    ensures Loaded(db, schema, pk).Some? <==> CanLoad(db, schema, pk)
  {
    var scan := TableRows(FileOf(db.files, schema.table), schema);
    FoundIsUsed(db.tables, schema.table);
    hide TableRows, Id, Find;
    IndexedExactly(scan.rows, pk);
    if Indexed(scan.rows, pk).Some? {
      MaxKeyIsTaken(scan.rows, pk);
    }
  }

  lemma FoundIsUsed(tables: seq<Table>, name: string)
    ensures Find(tables, name) < |tables| <==> exists t | t in tables :: t.name == name
  {
    if Find(tables, name) < |tables| {
      assert tables[Find(tables, name)] in tables;
    }
  }

  /** The largest key is the largest int exactly when a row has that id. */
  lemma {:induction false} MaxKeyIsTaken(rows: seq<Row>, pk: nat)
    requires Indexed(rows, pk).Some?
    ensures MaxKey(Indexed(rows, pk).value) == INT_MAX <==> exists r | r in rows :: Id(r, pk) == Some(INT_MAX)
  {
    var es := Indexed(rows, pk).value;
    IndexedDescribes(rows, pk);
    hide Indexed;
    if r :| r in rows && Id(r, pk) == Some(INT_MAX) {
      var e := Entry(INT_MAX, r.offset);
      assert e in es;
      var last := es[|es| - 1];
      assert last in es;
      var q :| q in rows && Id(q, pk) == Some(last.key);
      assert last.key <= INT_MAX;
    } else if es != [] {
      assert es[|es| - 1] in es;
    }
  }

  /** A SELECT that is answered from the index succeeds with the rows of the linear scan
      exactly when its table can be loaded, and then it shows them in the order of their
      ids; for `=` the two outputs are one. */
  lemma {:induction false} SelectThroughIndex(db: Db, schemas: map<string, Schema>, table: string,
                                              columns: Option<seq<string>>, condition: Where)
    requires GoodSchemas(schemas) && Coherent(db, schemas) && table in schemas
    requires SelectedColumns(schemas[table], columns).Some? && ResolvedTest(schemas[table], condition).Some?
    requires UsesIndex(schemas[table], ResolvedTest(schemas[table], condition).value)
    ensures var schema, out := schemas[table], Selecting(db, schemas, table, columns, Some(condition)).1;
            var selected, test := SelectedColumns(schema, columns).value, ResolvedTest(schema, condition).value;
            var scanned := Scanned(db, schema, selected, test);
            && (out.ok && SameRows(out, scanned) <==> CanLoad(db, schema, test.column))
            && (CanLoad(db, schema, test.column) ==>
                  && InIdOrder(out, Matching(db, schema, test), test.column, selected)
                  && (test.operator.Equal? ==> out == scanned))
  {
    var schema, out := schemas[table], Selecting(db, schemas, table, columns, Some(condition)).1;
    var selected, test := SelectedColumns(schema, columns).value, ResolvedTest(schema, condition).value;
    assert out == Answered(db, schema, selected, test).1;
    assert schema.table == table;
    ResolvedIsInt(schema, condition);
    LoadsExactly(db, schema, test.column);
    hide *;
    if Loaded(db, schema, test.column).Some? {
      IndexedSelectRefinesScan(db, schemas, schema, selected, test);
    } else {
      NotLoadedFails(db, schema, selected, test);
    }
  }

  lemma NotLoadedFails(db: Db, schema: Schema, selected: seq<nat>, test: Test)
    requires UsesIndex(schema, test) && Loaded(db, schema, test.column).None?
    ensures !Answered(db, schema, selected, test).1.ok
  {
    hide ParseInt, Loaded;
  }

  lemma ResolvedIsInt(schema: Schema, condition: Where)
    requires ResolvedTest(schema, condition).Some? && UsesIndex(schema, ResolvedTest(schema, condition).value)
    ensures var test := ResolvedTest(schema, condition).value;
            test.dataType.IntType? && ParseInt(test.literal.text).Some?
  {
    hide ParseInt, ColumnIndex;
  }

  // ---------- Reading what was written ----------

  lemma InsertedRow(before: Db, after: Db, schemas: map<string, Schema>, table: string)
    returns (row: seq<string>, offset: nat)
    requires GoodSchemas(schemas) && Coherent(before, schemas) && InsertEffect(before, after, schemas, table, true)
    ensures table in schemas && schemas[table].table == table && RowOk(schemas[table].columns, row)
    ensures Ready(before, schemas[table], row, schemas)
    ensures Appends(before, after, schemas[table], row, IdOf(schemas[table], row), offset)
  {
    hide Coherent, RowOk, Appends, WellFormed;
    var schema := schemas[table];
    row, offset :| RowOk(schema.columns, row) && Appends(before, after, schema, row, IdOf(schema, row), offset);
  }

  lemma AppendsMeans(before: Db, after: Db, schema: Schema, row: seq<string>, id: Option<int>, offset: nat)
    requires Appends(before, after, schema, row, id, offset)
    ensures var file := FileOf(before.files, schema.table);
            && Appended(file, schema, row).Some? && Appended(file, schema, row).value.1 == offset
            && FileOf(after.files, schema.table) == Some(Appended(file, schema, row).value.0)
    ensures forall n | n != schema.table :: FileOf(after.files, n) == FileOf(before.files, n)
  {
    hide Appended, Inserted;
  }

  lemma AppendAdds(file: Option<string>, schema: Schema, row: seq<string>)
    requires WellFormed(schema) && Csv.Storable(row) && |row| == |schema.columns| && Appended(file, schema, row).Some?
    ensures var (all, offset) := Appended(file, schema, row).value;
            TableRows(Some(all), schema) == AndRow(TableRows(file, schema), Row(offset, row))
            <==> !CutFile(file, schema)
  {
    assert CutFile(file, schema) <==> file.Some? && HasCutLine(file.value, schema);
    hide *;
    AppendSafe(file, schema, row);
  }

  /** After an accepted INSERT the table has the rows it had and the new one at its end,
      exactly when its file has no cut line, which a table with a primary key never has;
      every other file is as it was. */
  lemma {:induction false} InsertThenRead(db: Db, schemas: map<string, Schema>, table: string,
                                          columns: Option<seq<string>>, values: seq<Literal>)
    returns (row: seq<string>, offset: nat)
    requires GoodSchemas(schemas) && Coherent(db, schemas) && CleanLiterals(values)
    requires columns.Some? ==> |columns.value| == |values|
    requires Inserting(db, schemas, table, columns, values).1
    ensures var d := Inserting(db, schemas, table, columns, values).0;
            && table in schemas && RowOk(schemas[table].columns, row)
            && Appends(db, d, schemas[table], row, IdOf(schemas[table], row), offset)
            && (TableRows(FileOf(d.files, table), schemas[table])
                == AndRow(TableRows(FileOf(db.files, table), schemas[table]), Row(offset, row))
                <==> !CutFile(FileOf(db.files, table), schemas[table]))
            && (schemas[table].primaryKey.Some? ==> !CutFile(FileOf(db.files, table), schemas[table]))
            && forall n | n != table :: FileOf(d.files, n) == FileOf(db.files, n)
  {
    hide *;
    var d := Inserting(db, schemas, table, columns, values).0;
    InsertIsCoherent(db, schemas, table, columns, values);
    row, offset := InsertedRow(db, d, schemas, table);
    var schema := schemas[table];
    AppendsMeans(db, d, schema, row, IdOf(schema, row), offset);
    RowIsStorable(db, schema, row, schemas);
    AppendAdds(FileOf(db.files, table), schema, row);
  }

  /** Of rows with distinct ids the only one with the id of the last is the last. */
  lemma {:induction false} OnlyLastMeets(rows: seq<Row>, n: nat, last: Row, pk: nat, test: Test, id: int)
    requires AllHaveIds(rows + [last], pk) && IdsDistinct(rows + [last], pk) && Id(last, pk) == Some(id) && n <= |rows|
    requires OnPrimaryKey(test, pk, id) && test.operator.Equal?
    ensures Meeting(rows[..n], test) == []
  {
    if n > 0 {
      var all := rows + [last];
      assert all[n - 1] == rows[n - 1] && all[|rows|] == last;
      assert rows[..n][..n - 1] == rows[..n - 1];
      OnlyLastMeets(rows, n - 1, last, pk, test, id);
      assert all[n - 1] in all;
      IdTest(rows[n - 1], pk, test, id);
      hide Id, Meets;
    }
  }

  /** Looking up the id of an accepted INSERT shows exactly its row. */
  lemma {:induction false} InsertThenLookup(db: Db, schemas: map<string, Schema>, table: string,
                                            columns: Option<seq<string>>, values: seq<Literal>,
                                            selected: seq<nat>, test: Test) returns (row: seq<string>)
    requires GoodSchemas(schemas) && Coherent(db, schemas) && CleanLiterals(values)
    requires columns.Some? ==> |columns.value| == |values|
    requires Inserting(db, schemas, table, columns, values).1
    requires table in schemas && UsesIndex(schemas[table], test) && test.dataType.IntType? && test.operator.Equal?
    ensures RowOk(schemas[table].columns, row)
    ensures IdOf(schemas[table], row).Some? && ParseInt(test.literal.text) == IdOf(schemas[table], row) ==>
              Answered(Inserting(db, schemas, table, columns, values).0, schemas[table], selected, test).1
              == Output([Picked(row, selected)], true)
  {
    var d := Inserting(db, schemas, table, columns, values).0;
    var offset;
    InsertIsCoherent(db, schemas, table, columns, values);
    row, offset := InsertThenRead(db, schemas, table, columns, values);
    if IdOf(schemas[table], row).Some? && ParseInt(test.literal.text) == IdOf(schemas[table], row) {
      hide *;
      NewRowIsFound(db, d, schemas, table, row, offset, selected, test);
    }
  }

  /** `SELECT ... WHERE id = <the inserted id>` after an accepted INSERT shows exactly its
      row, however the id is spelled. */
  lemma {:induction false} InsertThenSelect(db: Db, schemas: map<string, Schema>, table: string, pk: nat,
                                            columns: Option<seq<string>>, values: seq<Literal>,
                                            shown: Option<seq<string>>, text: string) returns (row: seq<string>)
    requires GoodSchemas(schemas) && Coherent(db, schemas) && CleanLiterals(values)
    requires columns.Some? ==> |columns.value| == |values|
    requires Inserting(db, schemas, table, columns, values).1
    requires table in schemas && schemas[table].primaryKey == Some(pk) && pk < |schemas[table].columns|
    requires SelectedColumns(schemas[table], shown).Some?
    ensures RowOk(schemas[table].columns, row) && IdOf(schemas[table], row).Some?
    ensures var d := Inserting(db, schemas, table, columns, values).0;
            var condition := Where(schemas[table].columns[pk].name, Equal, Literal(IntLiteral, text));
            ParseInt(text) == IdOf(schemas[table], row) ==>
              Selecting(d, schemas, table, shown, Some(condition)).1
              == Output([Picked(row, SelectedColumns(schemas[table], shown).value)], true)
  {
    var schema, literal := schemas[table], Literal(IntLiteral, text);
    var test, selected := Test(pk, IntType, Equal, literal), SelectedColumns(schema, shown).value;
    var condition := Where(schema.columns[pk].name, Equal, literal);
    assert UsesIndex(schema, test);
    hide *;
    row := InsertThenLookup(db, schemas, table, columns, values, selected, test);
    RowHasId(schemas, table, pk, row);
    if ParseInt(text) == IdOf(schema, row) {
      KeyCondition(Inserting(db, schemas, table, columns, values).0, schemas, table, pk, shown, text);
    }
  }

  lemma RowHasId(schemas: map<string, Schema>, table: string, pk: nat, row: seq<string>)
    requires GoodSchemas(schemas) && table in schemas && schemas[table].primaryKey == Some(pk)
    requires RowOk(schemas[table].columns, row)
    ensures IdOf(schemas[table], row).Some?
  {
    assert CellOk(schemas[table].columns[pk].dataType, row[pk]);
    hide ParseInt;
  }

  lemma KeyCondition(db: Db, schemas: map<string, Schema>, table: string, pk: nat, shown: Option<seq<string>>,
                     text: string)
    requires GoodSchemas(schemas) && table in schemas && schemas[table].primaryKey == Some(pk)
    requires pk < |schemas[table].columns| && SelectedColumns(schemas[table], shown).Some? && ParseInt(text).Some?
    ensures var schema, literal := schemas[table], Literal(IntLiteral, text);
            Selecting(db, schemas, table, shown, Some(Where(schema.columns[pk].name, Equal, literal)))
            == Answered(db, schema, SelectedColumns(schema, shown).value, Test(pk, IntType, Equal, literal))
  {
    var schema := schemas[table];
    assert WellFormed(schema);
    assert ColumnIndex(schema.columns, schema.columns[pk].name) == pk;
    hide Answered, ParseInt, ColumnIndex;
  }

  lemma {:induction false} NewRowIsFound(db: Db, d: Db, schemas: map<string, Schema>, table: string, row: seq<string>,
                                         offset: nat, selected: seq<nat>, test: Test)
    requires GoodSchemas(schemas) && Coherent(d, schemas) && table in schemas
    requires UsesIndex(schemas[table], test) && test.dataType.IntType? && test.operator.Equal?
    requires IdOf(schemas[table], row).Some? && ParseInt(test.literal.text) == IdOf(schemas[table], row)
    requires Appends(db, d, schemas[table], row, IdOf(schemas[table], row), offset)
    requires TableRows(FileOf(d.files, table), schemas[table])
             == AndRow(TableRows(FileOf(db.files, table), schemas[table]), Row(offset, row))
    ensures Answered(d, schemas[table], selected, test).1 == Output([Picked(row, selected)], true)
  {
    var schema, pk, id := schemas[table], test.column, IdOf(schemas[table], row).value;
    assert schema.table == table && schema.primaryKey == Some(pk) && OnPrimaryKey(test, pk, id);
    var k := Find(d.tables, table);
    assert Loaded(d, schema, pk) == Some(d) && k < |d.tables| && d.tables[k].name == table;
    var before, line := TableRows(FileOf(db.files, table), schema), Row(offset, row);
    var scan := TableRows(FileOf(d.files, table), schema);
    assert Id(line, pk) == Some(id);
    assert InStep(d.tables[k], d.files, schemas);
    assert scan.complete && scan.rows == before.rows + [line] && Indexed(scan.rows, pk).Some?;
    assert Scanned(d, schema, selected, test) == Shown(Filtered(scan, test), selected);
    hide *;
    IndexedSelectRefinesScan(d, schemas, schema, selected, test);
    IndexedExactly(scan.rows, pk);
    OnlyMatch(scan, before.rows, line, pk, test, id, selected);
  }

  lemma {:induction false} OnlyMatch(scan: Scan, rows: seq<Row>, last: Row, pk: nat, test: Test, id: int,
                                     selected: seq<nat>)
    requires scan == Scan(rows + [last], true) && Id(last, pk) == Some(id)
    requires AllHaveIds(scan.rows, pk) && IdsDistinct(scan.rows, pk)
    requires OnPrimaryKey(test, pk, id) && test.operator.Equal?
    ensures Shown(Filtered(scan, test), selected) == Output([Picked(last.values, selected)], true)
  {
    forall r | r in scan.rows
      ensures Meets(r, test).Some?
    {
      IdTest(r, pk, test, id);
    }
    IdTest(last, pk, test, id);
    assert InRangeOf(id, test.operator, id);
    assert rows[..|rows|] == rows;
    assert Values([]) == [] && PickedAll([], selected) == [];
    hide Meets, Id, Filtered, Meeting, InRangeOf, Values, PickedAll, Picked;
    FilteredIsMeeting(scan, test);
    OnlyLastMeets(rows, |rows|, last, pk, test, id);
    MeetingEnds(rows, last, test);
    ShownNothing(selected);
    ShownMore([], last, selected);
    assert [] + [last] == [last] && [] + [Picked(last.values, selected)] == [Picked(last.values, selected)];
  }

  lemma MeetingEnds(rows: seq<Row>, last: Row, test: Test)
    requires Meets(last, test) == Some(true)
    ensures Meeting(rows + [last], test) == Meeting(rows, test) + [last]
  {
    assert (rows + [last])[..|rows|] == rows;
  }
}
