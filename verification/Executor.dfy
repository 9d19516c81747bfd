/** The executor: it keeps the table states and the data directory, and every statement it
    executes has exactly the effect and the output that Database gives. */
module Executor {
  import opened Wrappers
  import opened Limits
  import opened SortedEntries
  import opened Schemas
  import opened Sql
  import opened TableFile
  import opened RowIndex
  import opened Selection
  import opened Storage
  import opened Numbers
  import opened BPlusIndex
  import opened Database
  import opened TableStates

  const BPTREE_ORDER: nat := 4

  class Executor {
    const schemas: map<string, Schema>
    const disk: Disk
    const states: States

    /** A fresh process over a data directory. */
    constructor (schemas: map<string, Schema>, disk: Disk)
      ensures Valid() && Db() == Database.Db(disk.files, [])
      ensures this.schemas == schemas && this.disk == disk && fresh(states.Repr())
    {
      this.schemas := schemas;
      this.disk := disk;
      states := new States();
    }

    ghost predicate Valid()
      reads disk, states, states.Repr()
    {
      states.Valid() && disk !in states.Repr()
    }

    ghost function Db(): Database.Db
      reads disk, states
    {
      Database.Db(disk.files, states.tables)
    }

    // ---------- Table states ----------

    /** Finds the state of a table, creating it on first use. */
    method GetTableStateIndex(schema: Schema, pk: nat) returns (k: Option<nat>)
      requires Valid()
      modifies states, states.slots
      ensures Valid() && fresh(states.Repr() - old(states.Repr())) && disk.files == old(disk.files)
      ensures match Loaded(old(Db()), schema, pk)
              case None => k == None && Db() == old(Db())
              case Some(d) => Db() == d && k == Some(Find(d.tables, schema.table))
    {
      hide States.Valid, Fresh;
      k := states.FindTableState(schema.table);
      if k.None? {
        k := CreateTableState(schema, pk);
      }
    }

    method CreateTableState(schema: Schema, pk: nat) returns (k: Option<nat>)
      requires Valid() && Find(states.tables, schema.table) == |states.tables|
      modifies states, states.slots
      ensures Valid() && fresh(states.Repr() - old(states.Repr())) && disk.files == old(disk.files)
      ensures match Loaded(old(Db()), schema, pk)
              case None => k == None && Db() == old(Db())
              case Some(d) => Db() == d && k == Some(Find(d.tables, schema.table))
    {
      hide States.Valid, Index.Valid, Index.Entries, TableRows, Indexed, MaxKey, Loaded, Find;
      var index := new Index(BPTREE_ORDER);
      var ok, maxId := RebuildPkIndex(disk, schema, pk, index);
      StateCreated(Db(), schema, pk, ok, maxId, index.Entries());
      if !ok || maxId == INT_MAX {
        return None;
      }
      k := states.FirstFree();
      if k.None? {
        return None;
      }
      states.Occupy(k.value, schema.table, maxId + 1, index);
      FoundAtEnd(old(states.tables), Table(schema.table, maxId + 1, index.Entries()));
    }

    method AllocateNextPrimaryKey(schema: Schema, pk: nat) returns (id: Option<int>)
      requires Valid()
      modifies states, states.slots
      ensures Valid() && fresh(states.Repr() - old(states.Repr())) && disk.files == old(disk.files)
      ensures (Db(), id) == Allocated(old(Db()), schema, pk)
    {
      hide States.Valid, Loaded;
      var k := GetTableStateIndex(schema, pk);
      if k.None? {
        return None;
      }
      var nextId := states.NextId(k.value);
      if nextId == INT_MAX {
        return None;
      }
      states.SetNextId(k.value, nextId + 1);
      id := Some(nextId);
    }

    method RememberExplicitPrimaryKey(k: nat, id: int)
      requires Valid() && k < |states.tables|
      modifies states`tables, states.slots
      ensures Valid() && states.Repr() == old(states.Repr()) && disk.files == old(disk.files)
      ensures states.tables == old(states.tables)[k := Remembered(old(states.tables)[k], id)]
    {
      hide States.Valid;
      var nextId := states.NextId(k);
      if id != INT_MAX && nextId <= id {
        states.SetNextId(k, id + 1);
      }
    }

    // ---------- INSERT ----------

    /** The cells of a row from the values listed by column name. */
    method PlaceValues(schema: Schema, names: seq<string>, values: seq<Literal>, cells: array<Option<string>>)
      returns (ok: bool)
      requires |names| == |values| && cells.Length == |schema.columns| && cells[..] == Blank(cells.Length)
      modifies cells
      ensures var placed := Placed(schema.columns, names, values, Blank(|schema.columns|));
              (ok <==> placed.Some?) && (ok ==> cells[..] == placed.value)
    {
      assert names[0..] == names && values[0..] == values;
      for i := 0 to |names|
        invariant Placed(schema.columns, names, values, Blank(|schema.columns|))
                  == Placed(schema.columns, names[i..], values[i..], cells[..])
      {
        var c := FindSchemaColumn(schema, names[i]);
        PlacedNext(schema.columns, names, values, cells[..], i);
        if c.None? || cells[c.value].Some? {
          return false;
        }
        var fits := Fits(schema.columns[c.value].dataType, values[i]);
        if !fits {
          return false;
        }
        ghost var before := cells[..];
        cells[c.value] := Some(values[i].text);
        assert cells[..] == before[c.value := Some(values[i].text)];
      }
      assert names[|names|..] == [];
      ok := true;
    }

    /** Fills the cells that are still empty: only the primary key may be. */
    method CompleteCells(schema: Schema, cells: array<Option<string>>) returns (row: Option<seq<string>>)
      requires Valid() && cells !in states.Repr() && cells.Length == |schema.columns|
      modifies states, states.slots, cells
      ensures Valid() && fresh(states.Repr() - old(states.Repr())) && disk.files == old(disk.files)
      ensures (Db(), row) == Completed(old(Db()), schema, old(cells[..]), 0)
    {
      hide States.Valid, Allocated, Completed, IntToText;
      ghost var given := cells[..];
      ghost var all := Completed(Db(), schema, given, 0);
      var done: seq<string> := [];
      DoneNothing(all);
      for i := 0 to cells.Length
        invariant Valid() && fresh(states.Repr() - old(states.Repr())) && disk.files == old(disk.files)
        invariant cells !in states.Repr()
        invariant cells[i..] == given[i..]
        invariant all == Done(done, Completed(Db(), schema, given, i))
      {
        CompletedNext(Db(), schema, given, i, done);
        assert cells[i] == cells[i..][0] == given[i];
        assert cells[i + 1..] == cells[i..][1..] && given[i + 1..] == given[i..][1..];
        if cells[i].None? {
          if schema.primaryKey != Some(i) {
            return None;
          }
          var id := AllocateNextPrimaryKey(schema, i);
          if id.None? {
            return None;
          }
          cells[i] := Some(IntToText(id.value));
        }
        done := done + [cells[i].value];
      }
      CompletedAll(Db(), schema, given, done);
      row := Some(done);
    }

    method BuildInsertRowValues(schema: Schema, columns: Option<seq<string>>, values: seq<Literal>)
      returns (row: Option<seq<string>>)
      requires Valid() && (columns.Some? ==> |columns.value| == |values|)
      modifies states, states.slots
      ensures Valid() && fresh(states.Repr() - old(states.Repr())) && disk.files == old(disk.files)
      ensures (Db(), row) == BuiltRow(old(Db()), schema, columns, values)
    {
      hide States.Valid, InOrder, Placed, Completed;
      if columns.None? {
        row := ValuesInOrder(schema, values);
        return;
      }
      var cells := new Option<string>[|schema.columns|](_ => None);
      assert cells[..] == Blank(cells.Length);
      var ok := PlaceValues(schema, columns.value, values, cells);
      if !ok {
        return None;
      }
      row := CompleteCells(schema, cells);
    }

    method ValidatePrimaryKeyUnique(schema: Schema, pk: nat, id: int) returns (k: Option<nat>)
      requires Valid()
      modifies states, states.slots
      ensures Valid() && fresh(states.Repr() - old(states.Repr())) && disk.files == old(disk.files)
      ensures match Loaded(old(Db()), schema, pk)
              case None => k == None && Db() == old(Db())
              case Some(d) =>
                && Db() == d
                && k == (if Holds(d.tables[Find(d.tables, schema.table)].entries, id) then None
                         else Some(Find(d.tables, schema.table)))
    {
      hide States.Valid, Loaded, Lookup;
      k := GetTableStateIndex(schema, pk);
      if k.None? {
        return None;
      }
      var existing := states.SearchEntry(k.value, id);
      if existing.Some? {
        return None;
      }
    }

    /** Appends a finished row and registers its id. */
    method StoreRow(schema: Schema, row: seq<string>) returns (ok: bool)
      requires Valid()
      modifies disk, states.Repr()
      ensures Valid() && fresh(states.Repr() - old(states.Repr()))
      ensures (Db(), ok) == Stored(old(Db()), schema, row)
    {
      hide States.Valid, Loaded, AfterAppend, Remembered, Inserted;
      if schema.primaryKey.None? {
        var offset := AppendRow(disk, schema, row);
        return offset.Some?;
      }
      var pk := schema.primaryKey.value;
      var id := ReadId(TableFile.Row(0, row), pk);
      if id.None? {
        return false;
      }
      var k := ValidatePrimaryKeyUnique(schema, pk, id.value);
      if k.None? {
        return false;
      }
      ghost var tables := states.tables;
      var offset := AppendRow(disk, schema, row);
      if offset.None? {
        return false;
      }
      ok := states.InsertEntry(k.value, id.value, offset.value);
      if ok {
        ghost var registered := states.tables[k.value];
        RememberExplicitPrimaryKey(k.value, id.value);
        Rewritten(tables, k.value, registered, states.tables[k.value]);
      }
    }

    method ExecuteInsert(table: string, columns: Option<seq<string>>, values: seq<Literal>) returns (ok: bool)
      requires Valid() && (columns.Some? ==> |columns.value| == |values|)
      modifies disk, states.Repr()
      ensures Valid() && fresh(states.Repr() - old(states.Repr()))
      ensures (Db(), ok) == Inserting(old(Db()), schemas, table, columns, values)
    {
      hide States.Valid, BuiltRow, Stored;
      if table !in schemas {
        return false;
      }
      var row := BuildInsertRowValues(schemas[table], columns, values);
      if row.None? {
        return false;
      }
      ok := StoreRow(schemas[table], row.value);
    }

    // ---------- SELECT ----------

    /** `=` on the primary key: one lookup, one row. */
    method SelectWithIndex(schema: Schema, selected: seq<nat>, test: Test) returns (out: Output)
      requires Valid() && UsesIndex(schema, test) && test.operator.Equal?
      modifies states, states.slots
      ensures Valid() && fresh(states.Repr() - old(states.Repr())) && disk.files == old(disk.files)
      ensures (Db(), out) == Answered(old(Db()), schema, selected, test)
    {
      hide States.Valid, Loaded, ShownAt, Lookup, ParseInt;
      var target := ParseInt(test.literal.text);
      if target.None? {
        return Output([], false);
      }
      var k := GetTableStateIndex(schema, test.column);
      if k.None? {
        return Output([], false);
      }
      var offset := states.SearchEntry(k.value, target.value);
      OneOffset(states.tables[k.value].entries, target.value);
      out := PrintRowAtOffset(disk, schema, if offset.Some? then offset.value else -1, selected);
    }

    /** `>` and `<` on the primary key: a range visit that collects offsets, then the rows. */
    method SelectWithIndexRange(schema: Schema, selected: seq<nat>, test: Test) returns (out: Output)
      requires Valid() && UsesIndex(schema, test) && !test.operator.Equal?
      modifies states, states.slots
      ensures Valid() && fresh(states.Repr() - old(states.Repr())) && disk.files == old(disk.files)
      ensures (Db(), out) == Answered(old(Db()), schema, selected, test)
    {
      hide States.Valid, Loaded, ShownAt, ParseInt, Above, Below, VisitAll, Offsets;
      var target := ParseInt(test.literal.text);
      if target.None? {
        return Output([], false);
      }
      var k := GetTableStateIndex(schema, test.column);
      if k.None? {
        return Output([], false);
      }
      var ok, offsets := states.VisitRange(k.value, test.operator.Greater?, target.value, AppendOffset, []);
      CollectsOffsets(Range(states.tables[k.value].entries, test.operator, target.value));
      if !ok {
        return Output([], false);
      }
      out := PrintRowsAtOffsets(disk, schema, offsets, selected);
    }

    method ExecuteSelect(table: string, columns: Option<seq<string>>, condition: Option<Where>) returns (out: Output)
      requires Valid()
      modifies states, states.slots
      ensures Valid() && fresh(states.Repr() - old(states.Repr())) && disk.files == old(disk.files)
      ensures (Db(), out) == Selecting(old(Db()), schemas, table, columns, condition)
    {
      hide States.Valid, Answered, Scanned, Shown, Filtered;
      if table !in schemas {
        return Output([], false);
      }
      var schema := schemas[table];
      var selected := ResolveSelectedColumns(schema, columns);
      if selected.None? {
        return Output([], false);
      }
      if condition.None? {
        out := PrintRows(disk, schema, selected.value);
        return;
      }
      var test := ResolveWhereColumn(schema, condition.value);
      if test.None? {
        return Output([], false);
      }
      out := AnswerWhere(schema, selected.value, test.value);
    }

    /** The choice between the index and the scan. */
    method AnswerWhere(schema: Schema, selected: seq<nat>, test: Test) returns (out: Output)
      requires Valid()
      modifies states, states.slots
      ensures Valid() && fresh(states.Repr() - old(states.Repr())) && disk.files == old(disk.files)
      ensures (Db(), out) == Answered(old(Db()), schema, selected, test)
    {
      if UsesIndex(schema, test) {
        hide States.Valid, Answered;
        if test.operator.Equal? {
          out := SelectWithIndex(schema, selected, test);
        } else {
          out := SelectWithIndexRange(schema, selected, test);
        }
      } else {
        out := PrintRowsWhere(disk, schema, selected, test);
      }
    }

    // ---------- Programs ----------

    /** Executes the statements in order, up to the first that fails. */
    method ExecuteProgram(statements: seq<Statement>) returns (ok: bool, outputs: seq<Output>)
      requires Valid() && forall s | s in statements :: Paired(s)
      modifies disk, states.Repr()
      ensures Valid() && fresh(states.Repr() - old(states.Repr()))
      ensures (Db(), outputs) == ProgramRun(old(Db()), schemas, statements)
      ensures ok <==> |outputs| == |statements| && forall o | o in outputs :: o.ok
    {
      hide States.Valid, Executed;
      ghost var all := ProgramRun(Db(), schemas, statements);
      outputs := [];
      assert statements[0..] == statements;
      assert [] + all.1 == all.1;
      for i := 0 to |statements|
        invariant Valid() && fresh(states.Repr() - old(states.Repr()))
        invariant |outputs| == i && forall o | o in outputs :: o.ok
        invariant all.0 == ProgramRun(Db(), schemas, statements[i..]).0
        invariant all.1 == outputs + ProgramRun(Db(), schemas, statements[i..]).1
      {
        assert statements[i..][0] == statements[i] && statements[i..][1..] == statements[i + 1..];
        ProgramNext(Db(), schemas, statements[i..], outputs);
        var out := ExecuteStatement(statements[i]);
        outputs := outputs + [out];
        if !out.ok {
          return false, outputs;
        }
      }
      assert statements[|statements|..] == [] && outputs + [] == outputs;
      ok := true;
    }

    method ExecuteStatement(statement: Statement) returns (out: Output)
      requires Valid() && Paired(statement)
      modifies disk, states.Repr()
      ensures Valid() && fresh(states.Repr() - old(states.Repr()))
      ensures (Db(), out) == Executed(old(Db()), schemas, statement)
    {
      hide States.Valid, Inserting, Selecting;
      match statement
      case Insert(table, columns, values) =>
        var ok := ExecuteInsert(table, columns, values);
        out := Output([], ok);
      case Select(table, columns, condition) =>
        out := ExecuteSelect(table, columns, condition);
    }
  }

  /** What loading a table that is not in use comes to. */
  lemma StateCreated(db: Database.Db, schema: Schema, pk: nat, ok: bool, maxId: int, es: seq<Entry>)
    requires Find(db.tables, schema.table) == |db.tables|
    requires var scan := TableRows(FileOf(db.files, schema.table), schema);
             && (ok <==> scan.complete && Indexed(scan.rows, pk).Some?)
             && (ok ==> Indexed(scan.rows, pk) == Some(es) && maxId == MaxKey(es))
    ensures Loaded(db, schema, pk)
            == if !ok || maxId == INT_MAX || |db.tables| >= MAX_TABLES then None
               else Some(db.(tables := db.tables + [Table(schema.table, maxId + 1, es)]))
  {
    hide TableRows, Indexed, MaxKey, Find;
  }

  /** The database and the outputs after the statements up to the first that fails. */
  ghost function ProgramRun(db: Database.Db, schemas: map<string, Schema>,
                            statements: seq<Statement>): (Database.Db, seq<Output>)
    requires forall s | s in statements :: Paired(s)
    decreases |statements|
  {
    if statements == [] then (db, [])
    else
      var (d, out) := Executed(db, schemas, statements[0]);
      if !out.ok then (d, [out])
      else
        var (e, rest) := ProgramRun(d, schemas, statements[1..]);
        (e, [out] + rest)
  }

  /** A run without a failure is a run of all statements. */
  lemma {:induction false} AllOkIsAll(db: Database.Db, schemas: map<string, Schema>, statements: seq<Statement>)
    requires forall s | s in statements :: Paired(s)
    ensures var outputs := ProgramRun(db, schemas, statements).1;
            (forall o | o in outputs :: o.ok) ==> |outputs| == |statements|
    decreases |statements|
  {
    hide Executed;
    if statements != [] {
      var (d, out) := Executed(db, schemas, statements[0]);
      if out.ok {
        AllOkIsAll(d, schemas, statements[1..]);
      }
    }
  }

  lemma ProgramNext(db: Database.Db, schemas: map<string, Schema>, statements: seq<Statement>, outputs: seq<Output>)
    requires statements != [] && forall s | s in statements :: Paired(s)
    ensures var (d, out) := Executed(db, schemas, statements[0]);
            var all := ProgramRun(db, schemas, statements);
            if !out.ok then (all.0, outputs + all.1) == (d, outputs + [out])
            else
              var rest := ProgramRun(d, schemas, statements[1..]);
              (all.0, outputs + all.1) == (rest.0, outputs + [out] + rest.1)
  {
    hide Executed;
    var (d, out) := Executed(db, schemas, statements[0]);
    if out.ok {
      ConcatAssoc(outputs, [out], ProgramRun(d, schemas, statements[1..]).1);
    }
  }

  // ---------- Resolving names ----------

  method ResolveSelectedColumns(schema: Schema, columns: Option<seq<string>>) returns (selected: Option<seq<nat>>)
    ensures selected == SelectedColumns(schema, columns)
  {
    var indices: seq<nat> := [];
    if columns.None? {
      for i := 0 to |schema.columns|
        invariant indices == AllColumns(|schema.columns|)[..i]
      {
        indices := indices + [i];
      }
      assert AllColumns(|schema.columns|)[..|schema.columns|] == AllColumns(|schema.columns|);
      return Some(indices);
    }
    var names := columns.value;
    assert names[0..] == names;
    ghost var all := Resolved(schema.columns, names);
    assert all.Some? ==> [] + all.value == all.value;
    for i := 0 to |names|
      invariant var rest := Resolved(schema.columns, names[i..]);
                all == if rest.Some? then Some(indices + rest.value) else None
    {
      assert names[i..][0] == names[i] && names[i..][1..] == names[i + 1..];
      var c := FindSchemaColumn(schema, names[i]);
      if c.None? {
        return None;
      }
      ghost var rest := Resolved(schema.columns, names[i + 1..]);
      if rest.Some? {
        ConcatAssoc(indices, [c.value], rest.value);
      }
      indices := indices + [c.value];
    }
    assert names[|names|..] == [] && indices + [] == indices;
    selected := Some(indices);
  }

  method ResolveWhereColumn(schema: Schema, condition: Where) returns (test: Option<Test>)
    ensures test == ResolvedTest(schema, condition)
  {
    var c := FindSchemaColumn(schema, condition.column);
    if c.None? {
      return None;
    }
    var dataType := schema.columns[c.value].dataType;
    if !TypeMatches(dataType, condition.value) {
      return None;
    }
    if dataType.IntType? && ParseInt(condition.value.text).None? {
      return None;
    }
    if dataType.StringType? && (condition.operator.Greater? || condition.operator.Less?) {
      return None;
    }
    test := Some(Test(c.value, dataType, condition.operator, condition.value));
  }

  // ---------- Offsets from the index ----------

  /** The visitor of a range scan. */
  function AppendOffset(offsets: seq<int>, e: Entry): (seq<int>, bool) {
    (offsets + [e.offset], true)
  }

  lemma {:induction false} CollectsMore(es: seq<Entry>, offsets: seq<int>)
    ensures VisitAll(AppendOffset, offsets, es) == (offsets + Offsets(es), true)
  {
    if es == [] {
      assert offsets + Offsets(es) == offsets;
    } else {
      CollectsMore(es[1..], offsets + [es[0].offset]);
      assert Offsets(es) == [es[0].offset] + Offsets(es[1..]);
      assert offsets + ([es[0].offset] + Offsets(es[1..])) == offsets + [es[0].offset] + Offsets(es[1..]);
    }
  }

  /** It collects the offsets of the range in order, and never gives up. */
  lemma CollectsOffsets(es: seq<Entry>)
    ensures VisitAll(AppendOffset, [], es) == (Offsets(es), true)
  {
    CollectsMore(es, []);
    assert [] + Offsets(es) == Offsets(es);
  }

  lemma OneOffset(es: seq<Entry>, target: int)
    ensures Offsets(Range(es, Equal, target)) == match Lookup(es, target) case Some(o) => [o] case None => []
  {
  }

  lemma Rewritten(tables: seq<Table>, k: nat, t: Table, u: Table)
    requires k < |tables|
    ensures tables[k := t][k := u] == tables[k := u]
  {
  }

  /** The row when no columns are listed. */
  method ValuesInOrder(schema: Schema, values: seq<Literal>) returns (row: Option<seq<string>>)
    ensures row == InOrder(schema.columns, values)
  {
    var columns := schema.columns;
    if |values| != |columns| {
      return None;
    }
    var done: seq<string> := [];
    assert columns[0..] == columns && values[0..] == values;
    OrderedNothing(InOrder(columns, values));
    for i := 0 to |columns|
      invariant InOrder(columns, values) == Ordered(done, InOrder(columns[i..], values[i..]))
    {
      InOrderNext(columns, values, i, done);
      var fits := Fits(columns[i].dataType, values[i]);
      if !fits {
        return None;
      }
      done := done + [values[i].text];
    }
    assert columns[|columns|..] == [] && values[|columns|..] == [] && done + [] == done;
    row := Some(done);
  }

  ghost function Ordered(done: seq<string>, rest: Option<seq<string>>): Option<seq<string>> {
    if rest.Some? then Some(done + rest.value) else None
  }

  lemma OrderedNothing(row: Option<seq<string>>)
    ensures Ordered([], row) == row
  {
    if row.Some? {
      assert [] + row.value == row.value;
    }
  }

  lemma InOrderNext(columns: seq<Column>, values: seq<Literal>, i: nat, done: seq<string>)
    requires |columns| == |values| && i < |columns|
    ensures Ordered(done, InOrder(columns[i..], values[i..]))
         == if Fits(columns[i].dataType, values[i])
            then Ordered(done + [values[i].text], InOrder(columns[i + 1..], values[i + 1..]))
            else None
  {
    var cs, vs := columns[i..], values[i..];
    assert cs[1..] == columns[i + 1..] && vs[1..] == values[i + 1..];
    hide Fits;
    var rest := InOrder(columns[i + 1..], values[i + 1..]);
    if rest.Some? {
      assert done + ([values[i].text] + rest.value) == done + [values[i].text] + rest.value;
    }
  }

  lemma PlacedNext(columns: seq<Column>, names: seq<string>, values: seq<Literal>, cells: Cells, i: nat)
    requires |names| == |values| && |cells| == |columns| && i < |names|
    ensures var c := ColumnIndex(columns, names[i]);
            var rest := Placed(columns, names[i..], values[i..], cells);
            if c == |columns| || cells[c].Some? || !Fits(columns[c].dataType, values[i]) then rest == None
            else rest == Placed(columns, names[i + 1..], values[i + 1..], cells[c := Some(values[i].text)])
  {
    hide Fits, ColumnIndex;
    var ns, vs := names[i..], values[i..];
    assert ns[1..] == names[i + 1..] && vs[1..] == values[i + 1..];
  }

  /** What is still to come, after these cells. */
  ghost function Done(done: seq<string>, rest: (Database.Db, Option<seq<string>>)): (Database.Db, Option<seq<string>>) {
    (rest.0, Ordered(done, rest.1))
  }

  lemma DoneNothing(all: (Database.Db, Option<seq<string>>))
    ensures Done([], all) == all
  {
    OrderedNothing(all.1);
  }

  lemma CompletedNext(db: Database.Db, schema: Schema, cells: Cells, i: nat, done: seq<string>)
    requires i < |cells|
    ensures Done(done, Completed(db, schema, cells, i))
         == if cells[i].Some? then Done(done + [cells[i].value], Completed(db, schema, cells, i + 1))
            else if schema.primaryKey == Some(i) then
              var (d, id) := Allocated(db, schema, i);
              if id.None? then (d, None) else Done(done + [IntToText(id.value)], Completed(d, schema, cells, i + 1))
            else (db, None)
  {
    hide Allocated, IntToText;
    if cells[i].Some? {
      OrderedMore(done, cells[i].value, Completed(db, schema, cells, i + 1).1);
    } else if schema.primaryKey == Some(i) && Allocated(db, schema, i).1.Some? {
      var (d, id) := Allocated(db, schema, i);
      OrderedMore(done, IntToText(id.value), Completed(d, schema, cells, i + 1).1);
    }
  }

  lemma OrderedMore(done: seq<string>, text: string, rest: Option<seq<string>>)
    ensures Ordered(done, if rest.Some? then Some([text] + rest.value) else None) == Ordered(done + [text], rest)
  {
    if rest.Some? {
      assert done + ([text] + rest.value) == done + [text] + rest.value;
    }
  }

  lemma CompletedAll(db: Database.Db, schema: Schema, cells: Cells, done: seq<string>)
    ensures Done(done, Completed(db, schema, cells, |cells|)) == (db, Some(done))
  {
    assert done + [] == done;
  }
}
