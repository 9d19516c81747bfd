/** The invariant of the running program: for every table in use, the index in memory is
    the index of the file on disk, and no automatic id can collide with a stored one. It is
    kept by every statement, if no file of a table with a primary key has a cut line at the
    start; and an INSERT into a file that has one breaks it. */
module Coherence {
  import opened Wrappers
  import opened Limits
  import opened SortedEntries
  import opened Schemas
  import opened Sql
  import opened TableFile
  import opened RowIndex
  import opened Storage
  import opened Numbers
  import opened Database
  import Csv

  // ---------- The invariant ----------

  ghost predicate GoodSchemas(schemas: map<string, Schema>) {
    forall n | n in schemas :: schemas[n].table == n && WellFormed(schemas[n])
  }

  /** No line of a table with a primary key is cut by the end of its file. */
  ghost predicate UncutFiles(files: map<string, string>, schemas: map<string, Schema>) {
    forall n | n in files && n in schemas && schemas[n].primaryKey.Some? :: !HasCutLine(files[n], schemas[n])
  }

  /** Without a file there is no line to be cut. */
  ghost predicate CutFile(file: Option<string>, schema: Schema) {
    file.Some? && HasCutLine(file.value, schema)
  }

  /** The table's file can be read to its end and the state's entries are its index. */
  ghost predicate InStep(t: Table, files: map<string, string>, schemas: map<string, Schema>) {
    && t.name in schemas && schemas[t.name].primaryKey.Some?
    && var scan := TableRows(FileOf(files, t.name), schemas[t.name]);
       scan.complete && Indexed(scan.rows, schemas[t.name].primaryKey.value) == Some(t.entries)
  }

  /** Every stored id is below the next automatic one, except the largest int, which is
      never handed out. */
  ghost predicate Ahead(t: Table) {
    && InRange(t.nextId)
    && (t.entries == [] ==> t.nextId >= 1)
    && forall e | e in t.entries :: e.key < t.nextId || e.key == INT_MAX
  }

  ghost predicate NamesDistinct(tables: seq<Table>) {
    forall i, j | 0 <= i < j < |tables| :: tables[i].name != tables[j].name
  }

  ghost predicate Coherent(db: Db, schemas: map<string, Schema>) {
    && UncutFiles(db.files, schemas)
    && |db.tables| <= MAX_TABLES
    && NamesDistinct(db.tables)
    && forall t | t in db.tables :: InStep(t, db.files, schemas) && Ahead(t)
  }

  /** Nothing but bookkeeping: files and indexes stay, further tables may have been loaded
      and ids may have been used up. */
  ghost predicate Advances(before: Db, after: Db) {
    && after.files == before.files
    && |before.tables| <= |after.tables|
    && forall k | 0 <= k < |before.tables| ::
         && after.tables[k].name == before.tables[k].name
         && after.tables[k].entries == before.tables[k].entries
         && before.tables[k].nextId <= after.tables[k].nextId
  }

  lemma AdvancesTransitive(a: Db, b: Db, c: Db)
    requires Advances(a, b) && Advances(b, c)
    ensures Advances(a, c)
  {
  }

  // ---------- Loading ----------

  lemma {:induction false} FreshIsGood(files: map<string, string>, schema: Schema, pk: nat,
                                       schemas: map<string, Schema>)
    requires schema.table in schemas && schemas[schema.table] == schema && schema.primaryKey == Some(pk)
    requires Fresh(files, schema, pk).Some?
    ensures InStep(Fresh(files, schema, pk).value, files, schemas) && Ahead(Fresh(files, schema, pk).value)
    ensures Fresh(files, schema, pk).value.name == schema.table
  {
    hide *;
    var t := Fresh(files, schema, pk).value;
    FreshParts(files, schema, pk);
    IndexedDescribes(TableRows(FileOf(files, schema.table), schema).rows, pk);
    FreshIsAhead(t, TableRows(FileOf(files, schema.table), schema).rows, pk);
    InStepIs(t, files, schemas);
  }

  lemma FreshParts(files: map<string, string>, schema: Schema, pk: nat)
    requires Fresh(files, schema, pk).Some?
    ensures var t, scan := Fresh(files, schema, pk).value, TableRows(FileOf(files, schema.table), schema);
            && t.name == schema.table && scan.complete && Indexed(scan.rows, pk) == Some(t.entries)
            && t.nextId == MaxKey(t.entries) + 1 && MaxKey(t.entries) != INT_MAX
  {
    hide TableRows, Indexed, MaxKey;
  }

  lemma FreshIsAhead(t: Table, rows: seq<Row>, pk: nat)
    requires Describes(t.entries, rows, pk) && t.nextId == MaxKey(t.entries) + 1 && MaxKey(t.entries) != INT_MAX
    ensures Ahead(t)
  {
    forall e | e in t.entries
      ensures e.key < t.nextId
    {
      var i :| 0 <= i < |t.entries| && t.entries[i] == e;
      assert e.key <= MaxKey(t.entries);
    }
    MaxIsInRange(t.entries, rows, pk);
    hide Describes;
  }

  lemma MaxIsInRange(es: seq<Entry>, rows: seq<Row>, pk: nat)
    requires Describes(es, rows, pk)
    ensures InRange(MaxKey(es))
  {
    if es != [] {
      var e := es[|es| - 1];
      assert e in es;
      var r :| r in rows && Id(r, pk) == Some(e.key);
    }
  }

  /** The state of a table, once it is loaded. */
  ghost function StateOf(db: Db, schema: Schema, pk: nat): Option<Table> {
    match Loaded(db, schema, pk)
    case None => None
    case Some(d) => Some(d.tables[Find(d.tables, schema.table)])
  }

  lemma StateMeans(db: Db, schema: Schema, pk: nat)
    requires StateOf(db, schema, pk).Some?
    ensures Loaded(db, schema, pk).Some?
    ensures var l := Loaded(db, schema, pk).value;
            && l.files == db.files && Find(l.tables, schema.table) < |l.tables|
            && StateOf(db, schema, pk) == Some(l.tables[Find(l.tables, schema.table)])
            && l.tables[Find(l.tables, schema.table)].name == schema.table
  {
  }

  lemma StateOfSlot(db: Db, schema: Schema, pk: nat)
    requires Find(db.tables, schema.table) < |db.tables|
    ensures StateOf(db, schema, pk) == Some(db.tables[Find(db.tables, schema.table)])
    ensures Loaded(db, schema, pk) == Some(db)
  {
  }

  lemma {:induction false} LoadedIsCoherent(db: Db, schema: Schema, pk: nat, schemas: map<string, Schema>)
    requires schema.table in schemas && schemas[schema.table] == schema && schema.primaryKey == Some(pk)
    requires Coherent(db, schemas) && Loaded(db, schema, pk).Some?
    ensures Coherent(Loaded(db, schema, pk).value, schemas) && Advances(db, Loaded(db, schema, pk).value)
  {
    if Find(db.tables, schema.table) == |db.tables| {
      FreshIsGood(db.files, schema, pk, schemas);
      hide InStep, Ahead, Fresh;
    }
  }

  /** Replacing one table state by another that is as good. */
  lemma {:induction false} WithTableIsCoherent(db: Db, k: nat, t: Table, schemas: map<string, Schema>)
    requires Coherent(db, schemas) && k < |db.tables| && t.name == db.tables[k].name
    requires InStep(t, db.files, schemas) && Ahead(t)
    ensures Coherent(WithTable(db, k, t), schemas)
  {
    hide InStep, Ahead;
    var tables := db.tables[k := t];
    forall u | u in tables
      ensures InStep(u, db.files, schemas) && Ahead(u)
    {
      var i :| 0 <= i < |tables| && tables[i] == u;
      assert i != k ==> db.tables[i] in db.tables;
    }
  }

  // ---------- Automatic ids ----------

  lemma {:induction false} IdTaken(db: Db, k: nat, schemas: map<string, Schema>)
    requires Coherent(db, schemas) && k < |db.tables| && db.tables[k].nextId != INT_MAX
    ensures var d := WithTable(db, k, db.tables[k].(nextId := db.tables[k].nextId + 1));
            Coherent(d, schemas) && Advances(db, d)
    ensures !HasKey(db.tables[k].entries, db.tables[k].nextId) && InRange(db.tables[k].nextId)
  {
    var t := db.tables[k];
    var u := t.(nextId := t.nextId + 1);
    assert t in db.tables;
    assert InStep(t, db.files, schemas) && Ahead(t);
    assert InStep(u, db.files, schemas) by {
      hide TableRows, Indexed;
    }
    assert Ahead(u);
    forall i | 0 <= i < |t.entries|
      ensures t.entries[i].key != t.nextId
    {
      assert t.entries[i] in t.entries;
    }
    hide InStep, Ahead;
    WithTableIsCoherent(db, k, u, schemas);
  }

  lemma {:induction false} StillFound(tables: seq<Table>, name: string, t: Table)
    requires Find(tables, name) < |tables| && t.name == name
    ensures Find(tables[Find(tables, name) := t], name) == Find(tables, name)
  {
    FindIs(tables[Find(tables, name) := t], name, Find(tables, name));
  }

  lemma {:induction false} FoundStays(db: Db, schema: Schema, pk: nat)
    requires Loaded(db, schema, pk).Some? && Find(Loaded(db, schema, pk).value.tables, schema.table) < |db.tables|
    ensures Loaded(db, schema, pk) == Some(db)
  {
  }

  /** An id that is handed out is new, and smaller than any handed out later. */
  lemma {:induction false} AllocatedIsNew(db: Db, schema: Schema, pk: nat, schemas: map<string, Schema>)
    requires schema.table in schemas && schemas[schema.table] == schema && schema.primaryKey == Some(pk)
    requires Coherent(db, schemas)
    ensures var (d, id) := Allocated(db, schema, pk);
            && Coherent(d, schemas) && Advances(db, d)
            && (id.Some? ==>
                  var k := Find(d.tables, schema.table);
                  && InRange(id.value) && id.value != INT_MAX
                  && k < |d.tables| && d.tables[k].nextId == id.value + 1
                  && (k < |db.tables| ==> id.value == db.tables[k].nextId)
                  && !HasKey(d.tables[k].entries, id.value))
  {
    match Loaded(db, schema, pk)
    case None =>
    case Some(l) =>
      LoadedIsCoherent(db, schema, pk, schemas);
      var k := Find(l.tables, schema.table);
      hide Coherent, Find, Loaded, HasKey;
      if l.tables[k].nextId != INT_MAX {
        IdTaken(l, k, schemas);
        var u := l.tables[k].(nextId := l.tables[k].nextId + 1);
        StillFound(l.tables, schema.table, u);
        AdvancesTransitive(db, l, WithTable(l, k, u));
        if k < |db.tables| {
          FoundStays(db, schema, pk);
        }
      }
  }

  // ---------- Rows ----------

  /** Text that a cell can hold, survive storage with, and, for an int column, be read from. */
  ghost predicate CellOk(dataType: DataType, text: string) {
    && Csv.Clean(text) && |text| <= MAX_TEXT_LEN
    && (dataType.IntType? ==> ParseInt(text).Some?)
  }

  /** What the tokenizer guarantees about literals. */
  ghost predicate CleanLiterals(values: seq<Literal>) {
    forall v | v in values :: Csv.Clean(v.text) && |v.text| <= MAX_TEXT_LEN
  }

  ghost predicate RowOk(columns: seq<Column>, row: seq<string>) {
    && |row| == |columns|
    && forall i | 0 <= i < |row| :: CellOk(columns[i].dataType, row[i])
  }

  ghost predicate CellsOk(columns: seq<Column>, cells: Cells) {
    && |cells| == |columns|
    && forall i | 0 <= i < |cells| && cells[i].Some? :: CellOk(columns[i].dataType, cells[i].value)
  }

  lemma {:induction false} InOrderOk(columns: seq<Column>, values: seq<Literal>)
    requires CleanLiterals(values) && InOrder(columns, values).Some?
    ensures RowOk(columns, InOrder(columns, values).value)
  {
    if columns != [] {
      assert values[0] in values;
      assert CellOk(columns[0].dataType, values[0].text);
      InOrderOk(columns[1..], values[1..]);
      hide CellOk, Fits;
    }
  }

  lemma {:induction false} PlacedOk(columns: seq<Column>, names: seq<string>, values: seq<Literal>, cells: Cells)
    requires |names| == |values| && CleanLiterals(values) && CellsOk(columns, cells)
    requires Placed(columns, names, values, cells).Some?
    ensures CellsOk(columns, Placed(columns, names, values, cells).value)
    decreases |names|
  {
    if names != [] {
      assert values[0] in values;
      var c := ColumnIndex(columns, names[0]);
      assert CellOk(columns[c].dataType, values[0].text);
      hide CellOk, Fits;
      PlacedOk(columns, names[1..], values[1..], cells[c := Some(values[0].text)]);
    }
  }

  lemma {:induction false} DigitsClean(n: nat)
    ensures Csv.Clean(Digits(n))
  {
    DigitsRead(n);
    hide Digits;
  }

  lemma IdIsCellOk(id: int)
    requires InRange(id)
    ensures CellOk(IntType, IntToText(id))
  {
    assert Csv.Clean(IntToText(id)) by {
      var d := Digits(if id < 0 then -id else id);
      DigitsClean(if id < 0 then -id else id);
      hide Digits;
      assert IntToText(id) == d || IntToText(id) == "-" + d;
    }
    hide IntToText, ParseInt, Csv.Clean;
    IntRoundTrip(id);
    IntIsShort(id);
  }

  lemma {:induction false} CompletedIsCoherent(db: Db, schema: Schema, cells: Cells, i: nat,
                                               schemas: map<string, Schema>)
    requires GoodSchemas(schemas) && schema.table in schemas && schemas[schema.table] == schema
    requires Coherent(db, schemas) && CellsOk(schema.columns, cells) && i <= |cells|
    ensures var (d, row) := Completed(db, schema, cells, i);
            && Coherent(d, schemas) && Advances(db, d)
            && (row.Some? ==> RowOk(schema.columns[i..], row.value))
    decreases |cells| - i
  {
    hide Coherent, Allocated, CellOk, Advances, GoodSchemas, IntToText;
    AdvancesItself(db);
    if i < |cells| {
      var columns := schema.columns;
      if cells[i].Some? {
        CompletedIsCoherent(db, schema, cells, i + 1, schemas);
        RowOkBefore(columns, i, cells[i].value, Completed(db, schema, cells, i + 1).1);
      } else if schema.primaryKey == Some(i) {
        AllocatedIsNew(db, schema, i, schemas);
        KeyIsInt(schema, i, schemas);
        var (d, id) := Allocated(db, schema, i);
        if id.Some? {
          CompletedIsCoherent(d, schema, cells, i + 1, schemas);
          AdvancesTransitive(db, d, Completed(d, schema, cells, i + 1).0);
          IdIsCellOk(id.value);
          RowOkBefore(columns, i, IntToText(id.value), Completed(d, schema, cells, i + 1).1);
        }
      }
    }
  }

  lemma KeyIsInt(schema: Schema, i: nat, schemas: map<string, Schema>)
    requires GoodSchemas(schemas) && schema.table in schemas && schemas[schema.table] == schema
    requires schema.primaryKey == Some(i)
    ensures i < |schema.columns| && schema.columns[i].dataType == IntType
  {
  }

  lemma AdvancesItself(db: Db)
    ensures Advances(db, db)
  {
  }

  lemma RowOkBefore(columns: seq<Column>, i: nat, text: string, rest: Option<seq<string>>)
    requires i < |columns| && CellOk(columns[i].dataType, text)
    requires rest.Some? ==> RowOk(columns[i + 1..], rest.value)
    ensures rest.Some? ==> RowOk(columns[i..], [text] + rest.value)
  {
    hide CellOk;
  }

  lemma {:induction false} BuiltRowIsCoherent(db: Db, schema: Schema, columns: Option<seq<string>>,
                                              values: seq<Literal>, schemas: map<string, Schema>)
    requires GoodSchemas(schemas) && schema.table in schemas && schemas[schema.table] == schema
    requires Coherent(db, schemas) && CleanLiterals(values) && (columns.Some? ==> |columns.value| == |values|)
    ensures var (d, row) := BuiltRow(db, schema, columns, values);
            && Coherent(d, schemas) && Advances(db, d)
            && (row.Some? ==> RowOk(schema.columns, row.value))
  {
    hide Coherent, CellOk, Fits, Completed, Placed, InOrder, CleanLiterals, GoodSchemas;
    match columns
    case None =>
      if InOrder(schema.columns, values).Some? {
        InOrderOk(schema.columns, values);
      }
    case Some(names) =>
      var placed := Placed(schema.columns, names, values, Blank(|schema.columns|));
      if placed.Some? {
        PlacedOk(schema.columns, names, values, Blank(|schema.columns|));
        CompletedIsCoherent(db, schema, placed.value, 0, schemas);
        assert schema.columns[0..] == schema.columns;
      }
  }

  // ---------- Storing a row ----------

  /** The row went to the end of its table's file, its id into the index, nothing else
      changed but bookkeeping. */
  ghost predicate Appends(before: Db, after: Db, schema: Schema, row: seq<string>, id: Option<int>, offset: nat) {
    && Appended(FileOf(before.files, schema.table), schema, row).Some?
    && Appended(FileOf(before.files, schema.table), schema, row).value.1 == offset
    && after.files == before.files[schema.table := Appended(FileOf(before.files, schema.table), schema, row).value.0]
    && (id.Some? ==> Find(after.tables, schema.table) < |after.tables|)
    && |before.tables| <= |after.tables|
    && forall k | 0 <= k < |before.tables| ::
         var t, u := before.tables[k], after.tables[k];
         && u.name == t.name && t.nextId <= u.nextId
         && u.entries == if t.name == schema.table && id.Some? then Inserted(t.entries, id.value, offset) else t.entries
  }

  /** A table that is not written to stays in step. */
  lemma OtherTablesStay(t: Table, files: map<string, string>, name: string, bytes: string, schemas: map<string, Schema>)
    requires InStep(t, files, schemas) && t.name != name
    ensures InStep(t, files[name := bytes], schemas)
  {
    assert FileOf(files[name := bytes], t.name) == FileOf(files, t.name);
    hide TableRows, Indexed;
  }

  /** The table that is written to is in step again once the entry is registered, exactly
      when no line of it was cut. */
  lemma {:induction false} WrittenTableIsInStep(t: Table, files: map<string, string>, schema: Schema, row: seq<string>,
                                                schemas: map<string, Schema>)
    requires GoodSchemas(schemas) && schema.table in schemas && schemas[schema.table] == schema
    requires InStep(t, files, schemas) && t.name == schema.table
    requires RowOk(schema.columns, row) && Appended(FileOf(files, schema.table), schema, row).Some?
    requires schema.primaryKey.Some? && schema.primaryKey.value < |row| && ParseInt(row[schema.primaryKey.value]).Some?
    requires !Holds(t.entries, ParseInt(row[schema.primaryKey.value]).value)
    ensures var (bytes, offset) := Appended(FileOf(files, schema.table), schema, row).value;
            var u := t.(entries := Inserted(t.entries, ParseInt(row[schema.primaryKey.value]).value, offset));
            InStep(u, files[schema.table := bytes], schemas) <==> !CutFile(FileOf(files, schema.table), schema)
  {
    var file := FileOf(files, schema.table);
    var (bytes, offset) := Appended(file, schema, row).value;
    var pk := schema.primaryKey.value;
    var scan, more := TableRows(file, schema), TableRows(Some(bytes), schema);
    var id, line := ParseInt(row[pk]).value, Row(offset, row);
    var es := Inserted(t.entries, id, offset);
    assert Csv.Storable(row) && WellFormed(schema);
    assert scan.complete && Indexed(scan.rows, pk) == Some(t.entries);
    assert FileOf(files[schema.table := bytes], schema.table) == Some(bytes);
    assert Id(line, pk) == Some(id);
    assert AndEntry(Some(t.entries), line, pk) == Some(es);
    assert CutFile(file, schema) <==> file.Some? && HasCutLine(file.value, schema);
    hide *;
    AppendSafe(file, schema, row);
    IndexedStep(scan.rows, line, pk);
    InStepIs(t.(entries := es), files[schema.table := bytes], schemas);
    if CutFile(file, schema) {
      IndexedDescribes(scan.rows, pk);
      CutScan(file.value, schema, row, t.entries, id, offset);
    } else {
      ScanMore(scan, line);
    }
  }

  lemma ScanMore(scan: Scan, line: Row)
    requires scan.complete
    ensures AndRow(scan, line) == Scan(scan.rows + [line], true)
  {
  }

  /** After an append to a file with a cut line the index no longer fits it. */
  lemma {:induction false} CutScan(file: string, schema: Schema, row: seq<string>, es: seq<Entry>, id: int, offset: nat)
    requires HasCutLine(file, schema) && Csv.Storable(row) && |row| == |schema.columns| && schema.primaryKey.Some?
    requires Indexed(TableRows(Some(file), schema).rows, schema.primaryKey.value) == Some(es)
    requires Appended(Some(file), schema, row).Some?
    ensures var scan := TableRows(Some(Appended(Some(file), schema, row).value.0), schema);
            !scan.complete || Indexed(scan.rows, schema.primaryKey.value) != Some(Inserted(es, id, offset))
  {
    var bytes, pk := Appended(Some(file), schema, row).value.0, schema.primaryKey.value;
    var scan := TableRows(Some(bytes), schema);
    assert HeaderOk(file, schema) && bytes == Repaired(file) + Csv.Row(row);
    InsertedAt(es, id, offset);
    hide Indexed, TableRows, HasCutLine, Appended, Csv.Row, Csv.Storable, Repaired, HeaderOk, Inserted;
    AppendToFile(file, schema, row);
    IndexedDescribes(TableRows(Some(file), schema).rows, pk);
    if Indexed(scan.rows, pk).Some? {
      IndexedDescribes(scan.rows, pk);
    }
  }

  lemma InStepIs(t: Table, files: map<string, string>, schemas: map<string, Schema>)
    requires t.name in schemas && schemas[t.name].primaryKey.Some?
    ensures InStep(t, files, schemas) <==>
              var scan := TableRows(FileOf(files, t.name), schemas[t.name]);
              scan.complete && Indexed(scan.rows, schemas[t.name].primaryKey.value) == Some(t.entries)
  {
  }

  lemma {:induction false} RememberedIsAhead(t: Table, id: int, offset: int)
    requires Ahead(t) && InRange(id)
    ensures Ahead(Remembered(t.(entries := Inserted(t.entries, id, offset)), id))
    ensures t.nextId <= Remembered(t.(entries := Inserted(t.entries, id, offset)), id).nextId
  {
    var u := Remembered(t.(entries := Inserted(t.entries, id, offset)), id);
    InsertedMember(t.entries, id, offset, Entry(id, offset));
    forall e | e in u.entries
      ensures e.key < u.nextId || e.key == INT_MAX
    {
      InsertedMember(t.entries, id, offset, e);
    }
    hide Inserted;
  }

  /** Writing to one file keeps all other tables in step. */
  lemma {:induction false} WriteIsCoherent(db: Db, name: string, bytes: string, tables: seq<Table>,
                                           schemas: map<string, Schema>)
    requires Coherent(db, schemas) && (name in schemas ==> !HasCutLine(bytes, schemas[name]))
    requires |tables| == |db.tables| && forall i | 0 <= i < |tables| :: tables[i].name == db.tables[i].name
    requires forall i | 0 <= i < |tables| ::
               if tables[i].name == name then InStep(tables[i], db.files[name := bytes], schemas) && Ahead(tables[i])
               else tables[i] == db.tables[i]
    ensures Coherent(Db(db.files[name := bytes], tables), schemas)
  {
    hide InStep, Ahead;
    var files := db.files[name := bytes];
    forall t | t in tables
      ensures InStep(t, files, schemas) && Ahead(t)
    {
      var i :| 0 <= i < |tables| && tables[i] == t;
      assert db.tables[i] in db.tables;
      if t.name != name {
        OtherTablesStay(t, db.files, name, bytes, schemas);
      }
    }
  }

  ghost predicate Ready(db: Db, schema: Schema, row: seq<string>, schemas: map<string, Schema>) {
    && GoodSchemas(schemas) && schema.table in schemas && schemas[schema.table] == schema
    && Coherent(db, schemas) && RowOk(schema.columns, row)
  }

  lemma RowIsStorable(db: Db, schema: Schema, row: seq<string>, schemas: map<string, Schema>)
    requires Ready(db, schema, row, schemas)
    ensures Csv.Storable(row) && WellFormed(schema) && |row| == |schema.columns|
    ensures schema.primaryKey.Some? ==> !CutFile(FileOf(db.files, schema.table), schema)
    ensures schema.primaryKey.Some? ==> schema.primaryKey.value < |row| && ParseInt(row[schema.primaryKey.value]).Some?
  {
    assert schema.table in schemas;
    if schema.primaryKey.Some? {
      assert CellOk(schema.columns[schema.primaryKey.value].dataType, row[schema.primaryKey.value]);
    }
    hide ParseInt;
  }

  ghost function IdOf(schema: Schema, row: seq<string>): Option<int> {
    if schema.primaryKey.Some? && schema.primaryKey.value < |row| then ParseInt(row[schema.primaryKey.value]) else None
  }

  /** The state of a table after a row with this id went to this offset. */
  ghost function Registration(t: Table, id: int, offset: nat): Table {
    Remembered(t.(entries := Inserted(t.entries, id, offset)), id)
  }

  lemma AppendedIsUncut(file: Option<string>, schema: Schema, row: seq<string>)
    requires Csv.Storable(row) && WellFormed(schema) && |row| == |schema.columns| && Appended(file, schema, row).Some?
    ensures !HasCutLine(Appended(file, schema, row).value.0, schema)
  {
    hide *;
    AppendSafe(file, schema, row);
  }

  lemma {:induction false} RegisteredIsCoherent(db: Db, k: nat, schema: Schema, row: seq<string>, id: int,
                                                schemas: map<string, Schema>)
    requires Ready(db, schema, row, schemas) && IdOf(schema, row) == Some(id)
    requires k < |db.tables| && db.tables[k].name == schema.table && !Holds(db.tables[k].entries, id)
    requires Appended(FileOf(db.files, schema.table), schema, row).Some?
    ensures var (bytes, offset) := Appended(FileOf(db.files, schema.table), schema, row).value;
            var d := Db(db.files[schema.table := bytes], db.tables[k := Registration(db.tables[k], id, offset)]);
            Coherent(d, schemas) && Appends(db, d, schema, row, Some(id), offset)
  {
    hide *;
    var (bytes, offset) := Appended(FileOf(db.files, schema.table), schema, row).value;
    var t := db.tables[k];
    RowIsStorable(db, schema, row, schemas);
    ReadyMeans(db, k, schema, row, id, schemas);
    AppendedIsUncut(FileOf(db.files, schema.table), schema, row);
    WrittenTableIsInStep(t, db.files, schema, row, schemas);
    RememberedIsAhead(t, id, offset);
    RegistrationMeans(t, id, offset);
    var files, tables := db.files[schema.table := bytes], db.tables[k := Registration(t, id, offset)];
    SameEntriesInStep(t.(entries := Inserted(t.entries, id, offset)), tables[k], files, schemas);
    WriteIsCoherent(db, schema.table, bytes, tables, schemas);
    assert tables[k].name == schema.table;
    AppendsIs(db, Db(files, tables), schema, row, id, offset);
  }

  lemma ReadyMeans(db: Db, k: nat, schema: Schema, row: seq<string>, id: int, schemas: map<string, Schema>)
    requires Ready(db, schema, row, schemas) && IdOf(schema, row) == Some(id)
    requires k < |db.tables| && db.tables[k].name == schema.table
    ensures GoodSchemas(schemas) && schema.table in schemas && schemas[schema.table] == schema
    ensures Coherent(db, schemas) && RowOk(schema.columns, row) && InRange(id)
    ensures InStep(db.tables[k], db.files, schemas) && Ahead(db.tables[k])
    ensures schema.primaryKey.Some? && schema.primaryKey.value < |row|
    ensures ParseInt(row[schema.primaryKey.value]) == Some(id)
    ensures forall j | 0 <= j < |db.tables| && j != k :: db.tables[j].name != schema.table
  {
    assert db.tables[k] in db.tables;
    hide InStep, Ahead, RowOk, UncutFiles, GoodSchemas, ParseInt;
  }

  lemma AppendsIs(before: Db, after: Db, schema: Schema, row: seq<string>, id: int, offset: nat)
    requires Appended(FileOf(before.files, schema.table), schema, row).Some?
    requires Appended(FileOf(before.files, schema.table), schema, row).value.1 == offset
    requires after.files
             == before.files[schema.table := Appended(FileOf(before.files, schema.table), schema, row).value.0]
    requires |before.tables| == |after.tables|
    requires exists k | 0 <= k < |after.tables| :: after.tables[k].name == schema.table
    requires forall k | 0 <= k < |before.tables| ::
               var t, u := before.tables[k], after.tables[k];
               && u.name == t.name && t.nextId <= u.nextId
               && u.entries == if t.name == schema.table then Inserted(t.entries, id, offset) else t.entries
    ensures Appends(before, after, schema, row, Some(id), offset)
  {
    hide Appended, Inserted;
  }

  lemma RegistrationMeans(t: Table, id: int, offset: nat)
    ensures var u := Registration(t, id, offset);
            u.name == t.name && t.nextId <= u.nextId && u.entries == Inserted(t.entries, id, offset)
    ensures Registration(t, id, offset) == Remembered(t.(entries := Inserted(t.entries, id, offset)), id)
  {
  }

  lemma SameEntriesInStep(t: Table, u: Table, files: map<string, string>, schemas: map<string, Schema>)
    requires InStep(t, files, schemas) && u.name == t.name && u.entries == t.entries
    ensures InStep(u, files, schemas)
  {
    hide TableRows, Indexed;
  }

  /** A table without a primary key has no state, so its file may grow freely. */
  lemma {:induction false} PlainAppendIsCoherent(db: Db, schema: Schema, row: seq<string>, schemas: map<string, Schema>)
    requires Ready(db, schema, row, schemas) && schema.primaryKey.None?
    requires Appended(FileOf(db.files, schema.table), schema, row).Some?
    ensures var (bytes, offset) := Appended(FileOf(db.files, schema.table), schema, row).value;
            var d := db.(files := db.files[schema.table := bytes]);
            Coherent(d, schemas) && Appends(db, d, schema, row, None, offset)
  {
    var (bytes, offset) := Appended(FileOf(db.files, schema.table), schema, row).value;
    RowIsStorable(db, schema, row, schemas);
    AppendedIsUncut(FileOf(db.files, schema.table), schema, row);
    NoStateWithoutKey(db, schema, schemas);
    assert Coherent(db, schemas);
    hide Coherent, Appended, TableRows, HeaderOk, ReadRow;
    WriteIsCoherent(db, schema.table, bytes, db.tables, schemas);
  }

  lemma NoStateWithoutKey(db: Db, schema: Schema, schemas: map<string, Schema>)
    requires Coherent(db, schemas) && schema.table in schemas && schemas[schema.table] == schema
    requires schema.primaryKey.None?
    ensures forall i | 0 <= i < |db.tables| :: db.tables[i].name != schema.table
  {
    forall i | 0 <= i < |db.tables|
      ensures db.tables[i].name != schema.table
    {
      assert InStep(db.tables[i], db.files, schemas);
    }
  }

  /** Either completely, in the file and in the index, or not at all. */
  ghost predicate StoredWell(db: Db, schema: Schema, row: seq<string>, schemas: map<string, Schema>) {
    var (d, ok) := Stored(db, schema, row);
    && Coherent(d, schemas)
    && (!ok ==> Advances(db, d))
    && (ok ==> exists offset: nat :: Appends(db, d, schema, row, IdOf(schema, row), offset))
  }

  /** In particular the registration in the index never fails once the row is in the file. */
  lemma {:induction false} StoredIsCoherent(db: Db, schema: Schema, row: seq<string>, schemas: map<string, Schema>)
    requires Ready(db, schema, row, schemas)
    ensures StoredWell(db, schema, row, schemas)
  {
    if schema.primaryKey.None? {
      StoredWithoutKey(db, schema, row, schemas);
    } else {
      StoredWithKey(db, schema, schema.primaryKey.value, row, schemas);
    }
  }

  lemma {:induction false} StoredWithoutKey(db: Db, schema: Schema, row: seq<string>, schemas: map<string, Schema>)
    requires Ready(db, schema, row, schemas) && schema.primaryKey.None?
    ensures StoredWell(db, schema, row, schemas)
  {
    assert Coherent(db, schemas);
    AdvancesItself(db);
    hide Coherent, Advances, Appends, Appended, Ready;
    if Appended(FileOf(db.files, schema.table), schema, row).Some? {
      PlainAppendIsCoherent(db, schema, row, schemas);
      var (bytes, offset) := Appended(FileOf(db.files, schema.table), schema, row).value;
      var d := db.(files := db.files[schema.table := bytes]);
      assert AfterAppend(db.files, schema, row) == (db.files[schema.table := bytes], Some(offset));
      assert Stored(db, schema, row) == (d, true);
      assert IdOf(schema, row) == None;
      assert Appends(db, d, schema, row, IdOf(schema, row), offset);
    }
  }

  lemma {:induction false} StoredWithKey(db: Db, schema: Schema, pk: nat, row: seq<string>,
                                         schemas: map<string, Schema>)
    requires Ready(db, schema, row, schemas) && schema.primaryKey == Some(pk)
    ensures StoredWell(db, schema, row, schemas)
  {
    hide *;
    RowIsStorable(db, schema, row, schemas);
    AdvancesItself(db);
    ReadyIsCoherent(db, schema, row, schemas);
    StoredMeans(db, schema, pk, row);
    var id := ParseInt(row[pk]).value;
    if Loaded(db, schema, pk).Some? {
      var l := Loaded(db, schema, pk).value;
      LoadedStillReady(db, schema, pk, row, schemas);
      var k := Find(l.tables, schema.table);
      if !Holds(l.tables[k].entries, id) && Appended(FileOf(l.files, schema.table), schema, row).Some? {
        RegisteredIsCoherent(l, k, schema, row, id, schemas);
        var (bytes, offset) := Appended(FileOf(l.files, schema.table), schema, row).value;
        AppendsAfterAdvance(db, l, Stored(db, schema, row).0, schema, row, Some(id), offset);
        StoredWellIs(db, schema, row, offset, schemas);
      } else {
        NotStoredWellIs(db, schema, row, schemas);
      }
    } else {
      NotStoredWellIs(db, schema, row, schemas);
    }
  }

  /** What storing a row does when the table has a primary key. */
  lemma StoredMeans(db: Db, schema: Schema, pk: nat, row: seq<string>)
    requires schema.primaryKey == Some(pk) && pk < |row| && ParseInt(row[pk]).Some?
    ensures IdOf(schema, row) == Some(ParseInt(row[pk]).value)
    ensures Loaded(db, schema, pk).None? ==> Stored(db, schema, row) == (db, false)
    ensures Loaded(db, schema, pk).Some? ==>
              var l, id := Loaded(db, schema, pk).value, ParseInt(row[pk]).value;
              var k := Find(l.tables, schema.table);
              && l.tables[k].name == schema.table
              && if Holds(l.tables[k].entries, id) || Appended(FileOf(l.files, schema.table), schema, row).None?
                 then Stored(db, schema, row) == (l, false)
                 else
                   var (bytes, offset) := Appended(FileOf(l.files, schema.table), schema, row).value;
                   var tables := l.tables[k := Registration(l.tables[k], id, offset)];
                   Stored(db, schema, row) == (Db(l.files[schema.table := bytes], tables), true)
  {
    hide ParseInt, Loaded, Appended, Holds, Inserted;
  }

  /** Storing a row in a table whose index fits its file: the index fits the longer file again
      exactly when no line of the table was cut. */
  lemma {:induction false} StoredInStep(db: Db, schema: Schema, pk: nat, row: seq<string>, schemas: map<string, Schema>)
    requires GoodSchemas(schemas) && schema.table in schemas && schemas[schema.table] == schema
    requires schema.primaryKey == Some(pk) && RowOk(schema.columns, row)
    requires Stored(db, schema, row).1 && StateOf(db, schema, pk).Some?
    requires InStep(StateOf(db, schema, pk).value, db.files, schemas)
    ensures var d := Stored(db, schema, row).0;
            && StateOf(d, schema, pk).Some?
            && (InStep(StateOf(d, schema, pk).value, d.files, schemas)
                <==> !CutFile(FileOf(db.files, schema.table), schema))
  {
    assert pk < |row| && ParseInt(row[pk]).Some? by {
      assert CellOk(schema.columns[pk].dataType, row[pk]);
      hide ParseInt;
    }
    hide *;
    StateMeans(db, schema, pk);
    var l := Loaded(db, schema, pk).value;
    var k := Find(l.tables, schema.table);
    StoredMeans(db, schema, pk, row);
    WrittenTableIsInStep(l.tables[k], l.files, schema, row, schemas);
    var d, id := Stored(db, schema, row).0, ParseInt(row[pk]).value;
    var offset := Appended(FileOf(l.files, schema.table), schema, row).value.1;
    var t, u := l.tables[k].(entries := Inserted(l.tables[k].entries, id, offset)), d.tables[k];
    RegistrationMeans(l.tables[k], id, offset);
    StillFound(l.tables, schema.table, u);
    StateOfSlot(d, schema, pk);
    if InStep(t, d.files, schemas) {
      SameEntriesInStep(t, u, d.files, schemas);
    }
    if InStep(u, d.files, schemas) {
      SameEntriesInStep(u, t, d.files, schemas);
    }
  }

  lemma ReadyIsCoherent(db: Db, schema: Schema, row: seq<string>, schemas: map<string, Schema>)
    requires Ready(db, schema, row, schemas)
    ensures Coherent(db, schemas)
  {
  }

  lemma StoredWellIs(db: Db, schema: Schema, row: seq<string>, offset: nat, schemas: map<string, Schema>)
    requires Stored(db, schema, row).1 && Coherent(Stored(db, schema, row).0, schemas)
    requires Appends(db, Stored(db, schema, row).0, schema, row, IdOf(schema, row), offset)
    ensures StoredWell(db, schema, row, schemas)
  {
    hide Stored, Coherent, Appends;
  }

  lemma NotStoredWellIs(db: Db, schema: Schema, row: seq<string>, schemas: map<string, Schema>)
    requires !Stored(db, schema, row).1 && Coherent(Stored(db, schema, row).0, schemas)
    requires Advances(db, Stored(db, schema, row).0)
    ensures StoredWell(db, schema, row, schemas)
  {
    hide Stored, Coherent, Advances;
  }

  lemma LoadedStillReady(db: Db, schema: Schema, pk: nat, row: seq<string>, schemas: map<string, Schema>)
    requires Ready(db, schema, row, schemas) && schema.primaryKey == Some(pk) && Loaded(db, schema, pk).Some?
    ensures var l := Loaded(db, schema, pk).value;
            Ready(l, schema, row, schemas) && Coherent(l, schemas) && Advances(db, l) && l.files == db.files
  {
    LoadedIsCoherent(db, schema, pk, schemas);
    hide Coherent, Loaded, RowOk, GoodSchemas;
  }

  lemma AppendsAfterAdvance(a: Db, b: Db, c: Db, schema: Schema, row: seq<string>, id: Option<int>, offset: nat)
    requires Advances(a, b) && Appends(b, c, schema, row, id, offset)
    ensures Appends(a, c, schema, row, id, offset)
  {
    hide Appended, Inserted;
  }

  /** What an INSERT may do to the database. */
  ghost predicate InsertEffect(before: Db, after: Db, schemas: map<string, Schema>, table: string, ok: bool) {
    if !ok then Advances(before, after)
    else
      && table in schemas
      && exists row: seq<string>, offset: nat ::
           && RowOk(schemas[table].columns, row)
           && Appends(before, after, schemas[table], row, IdOf(schemas[table], row), offset)
  }

  /** An INSERT keeps the invariant. Rejected, it changes no file and no index; accepted,
      it adds one row at the end of one file and its id to that table's index. */
  lemma {:induction false} InsertIsCoherent(db: Db, schemas: map<string, Schema>, table: string,
                                            columns: Option<seq<string>>, values: seq<Literal>)
    requires GoodSchemas(schemas) && Coherent(db, schemas) && CleanLiterals(values)
    requires columns.Some? ==> |columns.value| == |values|
    ensures var (d, ok) := Inserting(db, schemas, table, columns, values);
            Coherent(d, schemas) && InsertEffect(db, d, schemas, table, ok)
  {
    hide Coherent, Advances, Appends, BuiltRow, Stored, RowOk;
    AdvancesItself(db);
    if table in schemas {
      var schema := schemas[table];
      assert schema.table == table;
      BuiltRowIsCoherent(db, schema, columns, values, schemas);
      var (d, row) := BuiltRow(db, schema, columns, values);
      if row.Some? {
        assert Ready(d, schema, row.value, schemas);
        StoredIsCoherent(d, schema, row.value, schemas);
        var (e, ok) := Stored(d, schema, row.value);
        if ok {
          var offset: nat :| Appends(d, e, schema, row.value, IdOf(schema, row.value), offset);
          AppendsAfterAdvance(db, d, e, schema, row.value, IdOf(schema, row.value), offset);
        } else {
          AdvancesTransitive(db, d, e);
        }
      }
    }
  }
}
