/** Which INSERTs are accepted and what they store, said of the rows in the file and the words of
    the statement alone. */
module Inserts {
  import opened Wrappers
  import opened SortedEntries
  import opened Schemas
  import opened Sql
  import opened TableFile
  import opened RowIndex
  import opened Selection
  import opened Storage
  import opened Numbers
  import opened Database
  import opened Coherence
  import opened RowBuilding
  import opened Runs
  import opened AutomaticIds
  import Csv
  import Answers

  // ---------- The words of the statement ----------

  /** An int column takes a number in range, and a string column a string that a spreadsheet does
      not take for a formula. */
  ghost predicate Takes(dataType: DataType, value: Literal) {
    if dataType.IntType? then value.literalType.IntLiteral? && exists n :: FitsInt(value.text, n)
    else
      && value.literalType.StringLiteral?
      && (value.text == ""
          || (value.text[0] != '=' && value.text[0] != '+' && value.text[0] != '-' && value.text[0] != '@'))
  }

  /** The name of a column that takes the value. */
  ghost predicate TakenBy(columns: seq<Column>, name: string, value: Literal) {
    exists c | 0 <= c < |columns| :: columns[c].name == name && Takes(columns[c].dataType, value)
  }

  ghost predicate Lists(names: seq<string>, name: string) {
    exists i | 0 <= i < |names| :: names[i] == name
  }

  /** The values make a row: one for each column in order, or one for each listed column, and then
      every column but the primary key is listed, and none twice. */
  ghost predicate MakesRow(schema: Schema, names: Option<seq<string>>, values: seq<Literal>)
    requires names.Some? ==> |names.value| == |values|
  {
    match names
    case None =>
      |values| == |schema.columns| && forall c | 0 <= c < |values| :: Takes(schema.columns[c].dataType, values[c])
    case Some(ns) =>
      && (forall i | 0 <= i < |ns| :: TakenBy(schema.columns, ns[i], values[i]))
      && (forall i, j | 0 <= i < j < |ns| :: ns[i] != ns[j])
      && forall c | 0 <= c < |schema.columns| && schema.primaryKey != Some(c) :: Lists(ns, schema.columns[c].name)
  }

  /** The statement leaves the primary key to the program. */
  ghost predicate OmitsKey(schema: Schema, names: Option<seq<string>>) {
    && names.Some? && schema.primaryKey.Some? && schema.primaryKey.value < |schema.columns|
    && !Lists(names.value, schema.columns[schema.primaryKey.value].name)
  }

  /** The row of the statement: under each column the value given for it, and under an omitted
      primary key the next automatic id. */
  ghost predicate RowOf(db: Db, schema: Schema, names: Option<seq<string>>, values: seq<Literal>, row: seq<string>)
    requires names.Some? ==> |names.value| == |values|
  {
    && |row| == |schema.columns|
    && (names.None? ==> |values| == |row| && forall c | 0 <= c < |row| :: row[c] == values[c].text)
    && (names.Some? ==>
          forall i, c | 0 <= i < |values| && 0 <= c < |row| && schema.columns[c].name == names.value[i] ::
            row[c] == values[i].text)
    && (OmitsKey(schema, names) ==>
          var pk := schema.primaryKey.value;
          NextId(db, schema, pk).Some? && row[pk] == IntToText(NextId(db, schema, pk).value))
  }

  // ---------- Values ----------

  lemma FitsExactly(dataType: DataType, value: Literal)
    ensures Fits(dataType, value) <==> Takes(dataType, value)
  {
    Answers.NumberExactly(value.text);
    hide ParseInt, FitsInt;
  }

  lemma {:induction false} InOrderExactly(columns: seq<Column>, values: seq<Literal>)
    ensures InOrder(columns, values).Some?
            <==> |values| == |columns| && forall c | 0 <= c < |values| :: Takes(columns[c].dataType, values[c])
    ensures InOrder(columns, values).Some? ==>
              var row := InOrder(columns, values).value;
              |row| == |columns| && forall c | 0 <= c < |row| :: row[c] == values[c].text
  {
    if |values| == |columns| > 0 {
      FitsExactly(columns[0].dataType, values[0]);
      InOrderExactly(columns[1..], values[1..]);
      hide Fits, Takes;
      var cs, vs := columns[1..], values[1..];
      assert forall c | 1 <= c < |columns| :: columns[c] == cs[c - 1] && values[c] == vs[c - 1];
    }
  }

  lemma CanTakeExactly(schema: Schema, name: string, value: Literal)
    requires WellFormed(schema)
    ensures CanTake(schema.columns, name, value, Blank(|schema.columns|)) <==> TakenBy(schema.columns, name, value)
  {
    var k := ColumnIndex(schema.columns, name);
    forall c | 0 <= c < |schema.columns| && schema.columns[c].name == name
      ensures c == k
    {
      Answers.ColumnIs(schema, c);
    }
    if k < |schema.columns| {
      FitsExactly(schema.columns[k].dataType, value);
    }
    hide Fits, Takes, WellFormed, ColumnIndex;
  }

  lemma CanPlaceExactly(schema: Schema, names: seq<string>, values: seq<Literal>)
    requires WellFormed(schema) && |names| == |values|
    ensures CanPlace(schema.columns, names, values, Blank(|schema.columns|))
            <==> (forall i | 0 <= i < |names| :: TakenBy(schema.columns, names[i], values[i]))
                 && (forall i, j | 0 <= i < j < |names| :: names[i] != names[j])
  {
    hide CanTake, TakenBy, WellFormed;
    forall i | 0 <= i < |names|
      ensures CanTake(schema.columns, names[i], values[i], Blank(|schema.columns|))
              <==> TakenBy(schema.columns, names[i], values[i])
    {
      CanTakeExactly(schema, names[i], values[i]);
    }
  }

  lemma {:induction false} GivenExactly(schema: Schema, names: seq<string>, values: seq<Literal>, c: nat)
    requires WellFormed(schema) && |names| == |values| && c < |schema.columns|
    ensures Given(schema.columns, names, values, c).Some? <==> Lists(names, schema.columns[c].name)
  {
    Answers.ColumnIs(schema, c);
    hide WellFormed, ColumnIndex;
    if names != [] {
      GivenExactly(schema, names[1..], values[1..], c);
      NamedAt(schema, names[0], c);
      ListsFirst(names, schema.columns[c].name);
    }
  }

  lemma NamedAt(schema: Schema, name: string, c: nat)
    requires WellFormed(schema) && c < |schema.columns|
    ensures ColumnIndex(schema.columns, name) == c <==> name == schema.columns[c].name
  {
    Answers.ColumnIs(schema, c);
    hide WellFormed;
  }

  lemma ListsFirst(names: seq<string>, name: string)
    requires names != []
    ensures Lists(names, name) <==> names[0] == name || Lists(names[1..], name)
  {
    if Lists(names, name) && names[0] != name {
      var i :| 0 <= i < |names| && names[i] == name;
      assert names[1..][i - 1] == name;
    }
    if Lists(names[1..], name) {
      var i :| 0 <= i < |names[1..]| && names[1..][i] == name;
      assert names[i + 1] == name;
    }
  }

  // ---------- The row ----------

  /** A row comes of cells that lack at most the primary key, if there is an id for it. */
  lemma {:induction false} CompletedExactly(db: Db, schema: Schema, cells: Cells, i: nat)
    requires i <= |cells|
    ensures Completed(db, schema, cells, i).1.Some?
            <==> forall c | i <= c < |cells| && cells[c].None? ::
                   schema.primaryKey == Some(c) && Allocated(db, schema, c).1.Some?
    decreases |cells| - i
  {
    hide Allocated, IntToText;
    if i < |cells| {
      if cells[i].Some? {
        CompletedExactly(db, schema, cells, i + 1);
      } else if schema.primaryKey == Some(i) && Allocated(db, schema, i).1.Some? {
        CompletedExactly(Allocated(db, schema, i).0, schema, cells, i + 1);
      }
    }
  }

  /** The statement asks for no id, or there is one. */
  ghost predicate HasId(db: Db, schema: Schema, names: Option<seq<string>>) {
    OmitsKey(schema, names) ==>
      var next := NextId(db, schema, schema.primaryKey.value);
      next.Some? && next != Some(0x7fff_ffff)
  }

  lemma PlacedNames(schema: Schema, names: seq<string>, values: seq<Literal>) returns (cells: Cells)
    requires WellFormed(schema) && |names| == |values|
    requires Placed(schema.columns, names, values, Blank(|schema.columns|)).Some?
    ensures Placed(schema.columns, names, values, Blank(|schema.columns|)) == Some(cells)
    ensures |cells| == |schema.columns|
    ensures forall c | 0 <= c < |cells| :: cells[c].Some? <==> Lists(names, schema.columns[c].name)
  {
    hide Placed, Lists, WellFormed, Given;
    cells := Placed(schema.columns, names, values, Blank(|schema.columns|)).value;
    forall c | 0 <= c < |cells|
      ensures cells[c].Some? <==> Lists(names, schema.columns[c].name)
    {
      PlacedCells(schema.columns, names, values, Blank(|schema.columns|), c);
      GivenExactly(schema, names, values, c);
    }
  }

  lemma BuiltIs(db: Db, schema: Schema, names: seq<string>, values: seq<Literal>)
    requires |names| == |values|
    ensures BuiltRow(db, schema, Some(names), values).1
            == match Placed(schema.columns, names, values, Blank(|schema.columns|))
               case None => None
               case Some(cells) => Completed(db, schema, cells, 0).1
  {
    hide Placed, Completed;
  }

  /** Only the primary key is missing from the cells, and then there is an id. */
  lemma MissingExactly(db: Db, schema: Schema, names: seq<string>, cells: Cells)
    requires |cells| == |schema.columns| && (schema.primaryKey.Some? ==> schema.primaryKey.value < |schema.columns|)
    requires forall c | 0 <= c < |cells| :: cells[c].Some? <==> Lists(names, schema.columns[c].name)
    ensures (forall c | 0 <= c < |cells| && cells[c].None? ::
               schema.primaryKey == Some(c) && Allocated(db, schema, c).1.Some?)
            <==> (forall c | 0 <= c < |schema.columns| && schema.primaryKey != Some(c) ::
                    Lists(names, schema.columns[c].name))
                 && HasId(db, schema, Some(names))
  {
    if schema.primaryKey.Some? {
      AllocatedNextId(db, schema, schema.primaryKey.value);
      assert cells[schema.primaryKey.value].Some?
             <==> Lists(names, schema.columns[schema.primaryKey.value].name);
    }
    hide Allocated, NextId, Lists;
  }

  lemma {:induction false} ListedRowExactly(db: Db, schema: Schema, names: seq<string>, values: seq<Literal>)
    requires WellFormed(schema) && |names| == |values|
    ensures BuiltRow(db, schema, Some(names), values).1.Some?
            <==> MakesRow(schema, Some(names), values) && HasId(db, schema, Some(names))
  {
    PlacedExactly(schema.columns, names, values, Blank(|schema.columns|));
    CanPlaceExactly(schema, names, values);
    BuiltIs(db, schema, names, values);
    assert schema.primaryKey.Some? ==> schema.primaryKey.value < |schema.columns|;
    hide Placed, Completed, Allocated, CanPlace, TakenBy, Lists, HasId, BuiltRow, WellFormed;
    if Placed(schema.columns, names, values, Blank(|schema.columns|)).Some? {
      var cells := PlacedNames(schema, names, values);
      CompletedExactly(db, schema, cells, 0);
      MissingExactly(db, schema, names, cells);
    }
  }

  lemma BuiltRowExactly(db: Db, schema: Schema, names: Option<seq<string>>, values: seq<Literal>)
    requires WellFormed(schema) && (names.Some? ==> |names.value| == |values|)
    ensures BuiltRow(db, schema, names, values).1.Some?
            <==> MakesRow(schema, names, values) && HasId(db, schema, names)
  {
    if names.Some? {
      hide WellFormed, BuiltRow, MakesRow, HasId;
      ListedRowExactly(db, schema, names.value, values);
    } else {
      InOrderExactly(schema.columns, values);
      hide InOrder, Takes, WellFormed;
    }
  }

  /** And then it is the row of the statement. */
  lemma {:induction false} BuiltRowIs(db: Db, schema: Schema, names: Option<seq<string>>, values: seq<Literal>)
    requires WellFormed(schema) && (names.Some? ==> |names.value| == |values|)
    requires BuiltRow(db, schema, names, values).1.Some?
    ensures RowOf(db, schema, names, values, BuiltRow(db, schema, names, values).1.value)
  {
    match names
    case None =>
      InOrderExactly(schema.columns, values);
      hide InOrder, Takes, WellFormed;
    case Some(ns) =>
      hide *;
      ListedRow(db, schema, ns, values);
      ListedValues(db, schema, ns, values);
      ListedKey(db, schema, ns, values);
      RowOfIs(db, schema, ns, values, BuiltRow(db, schema, names, values).1.value);
  }

  lemma ListedValues(db: Db, schema: Schema, names: seq<string>, values: seq<Literal>)
    requires WellFormed(schema) && |names| == |values| && BuiltRow(db, schema, Some(names), values).1.Some?
    requires |BuiltRow(db, schema, Some(names), values).1.value| == |schema.columns|
    ensures var row := BuiltRow(db, schema, Some(names), values).1.value;
            forall i, c | 0 <= i < |names| && 0 <= c < |row| && schema.columns[c].name == names[i] ::
              row[c] == values[i].text
  {
    ListedRowExactly(db, schema, names, values);
    assert forall i, j | 0 <= i < j < |names| :: names[i] != names[j];
    var row := BuiltRow(db, schema, Some(names), values).1.value;
    forall i, c | 0 <= i < |names| && 0 <= c < |row| && schema.columns[c].name == names[i]
      ensures row[c] == values[i].text
    {
      hide *;
      NamedAt(schema, names[i], c);
      GivenIs(schema.columns, names, values, i);
      ListedRow(db, schema, names, values);
    }
  }

  lemma ListedKey(db: Db, schema: Schema, names: seq<string>, values: seq<Literal>)
    requires WellFormed(schema) && |names| == |values| && BuiltRow(db, schema, Some(names), values).1.Some?
    ensures OmitsKey(schema, Some(names)) ==>
              var row, pk := BuiltRow(db, schema, Some(names), values).1.value, schema.primaryKey.value;
              pk < |row| && NextId(db, schema, pk).Some? && row[pk] == IntToText(NextId(db, schema, pk).value)
  {
    if OmitsKey(schema, Some(names)) {
      var pk := schema.primaryKey.value;
      assert pk < |schema.columns| && !Lists(names, schema.columns[pk].name);
      hide *;
      ListedRow(db, schema, names, values);
      GivenExactly(schema, names, values, pk);
      AllocatedIsNext(db, schema, pk);
    }
  }

  lemma AllocatedIsNext(db: Db, schema: Schema, pk: nat)
    ensures Allocated(db, schema, pk).1.Some? ==> NextId(db, schema, pk) == Allocated(db, schema, pk).1
  {
    hide Loaded;
  }

  lemma RowOfIs(db: Db, schema: Schema, names: seq<string>, values: seq<Literal>, row: seq<string>)
    requires |names| == |values| && |row| == |schema.columns|
    requires forall i, c | 0 <= i < |names| && 0 <= c < |row| && schema.columns[c].name == names[i] ::
               row[c] == values[i].text
    requires OmitsKey(schema, Some(names)) ==>
               var pk := schema.primaryKey.value;
               pk < |row| && NextId(db, schema, pk).Some? && row[pk] == IntToText(NextId(db, schema, pk).value)
    ensures RowOf(db, schema, Some(names), values, row)
  {
    hide OmitsKey, NextId, IntToText;
  }

  // ---------- The statement ----------

  /** The i-th value is the one for the primary key. */
  ghost predicate KeyAt(schema: Schema, names: Option<seq<string>>, i: nat) {
    && schema.primaryKey.Some? && schema.primaryKey.value < |schema.columns|
    && match names
       case None => i == schema.primaryKey.value
       case Some(ns) => i < |ns| && ns[i] == schema.columns[schema.primaryKey.value].name
  }

  /** No row of the table has the id that the statement gives. */
  ghost predicate KeyIsFree(db: Db, schema: Schema, names: Option<seq<string>>, values: seq<Literal>) {
    forall i, n | 0 <= i < |values| && KeyAt(schema, names, i) && FitsInt(values[i].text, n) ::
      forall r | r in TableRows(FileOf(db.files, schema.table), schema).rows ::
        Id(r, schema.primaryKey.value) != Some(n)
  }

  /** What an INSERT must be like: the table exists and its file, if there is one, has its header;
      the values make a row; and for a table with a primary key, it can be loaded, a given id is
      free, and an omitted one can be had. */
  ghost predicate MayInsert(db: Db, schemas: map<string, Schema>, table: string, names: Option<seq<string>>,
                            values: seq<Literal>)
    requires names.Some? ==> |names.value| == |values|
  {
    && table in schemas
    && var schema, file := schemas[table], FileOf(db.files, table);
       && (file.Some? ==> HeaderOk(file.value, schema))
       && MakesRow(schema, names, values)
       && (schema.primaryKey.Some? ==>
             && CanLoad(db, schema, schema.primaryKey.value)
             && HasId(db, schema, names) && KeyIsFree(db, schema, names, values))
  }

  lemma KeylessHasId(db: Db, schema: Schema, names: Option<seq<string>>)
    requires schema.primaryKey.None?
    ensures HasId(db, schema, names)
  {
  }

  /** Storing a finished row. */
  lemma StoredExactly(db: Db, schema: Schema, row: seq<string>, schemas: map<string, Schema>)
    requires Ready(db, schema, row, schemas)
    ensures Stored(db, schema, row).1
            <==> && (FileOf(db.files, schema.table).Some? ==> HeaderOk(FileOf(db.files, schema.table).value, schema))
                 && (schema.primaryKey.Some? ==>
                       && Loaded(db, schema, schema.primaryKey.value).Some?
                       && forall r | r in TableRows(FileOf(db.files, schema.table), schema).rows ::
                            Id(r, schema.primaryKey.value) != IdOf(schema, row))
  {
    hide *;
    ReadySchema(db, schema, row, schemas);
    RowIsStorable(db, schema, row, schemas);
    AppendSafe(FileOf(db.files, schema.table), schema, row);
    if schema.primaryKey.Some? {
      var pk := schema.primaryKey.value;
      StoredMeans(db, schema, pk, row);
      if Loaded(db, schema, pk).Some? {
        LoadedStillReady(db, schema, pk, row, schemas);
        HeldExactly(Loaded(db, schema, pk).value, schema, pk, row, schemas);
      }
    } else {
      StoredKeyless(db, schema, row);
    }
  }

  lemma ReadySchema(db: Db, schema: Schema, row: seq<string>, schemas: map<string, Schema>)
    requires Ready(db, schema, row, schemas)
    ensures schema.table in schemas && schemas[schema.table] == schema
  {
  }

  lemma StoredKeyless(db: Db, schema: Schema, row: seq<string>)
    requires schema.primaryKey.None?
    ensures Stored(db, schema, row).1 <==> Appended(FileOf(db.files, schema.table), schema, row).Some?
  {
    hide Appended;
  }

  lemma HeldExactly(l: Db, schema: Schema, pk: nat, row: seq<string>, schemas: map<string, Schema>)
    requires Coherent(l, schemas) && schema.table in schemas && schemas[schema.table] == schema
    requires schema.primaryKey == Some(pk) && pk < |row| && ParseInt(row[pk]).Some?
    requires Find(l.tables, schema.table) < |l.tables|
    ensures Holds(l.tables[Find(l.tables, schema.table)].entries, ParseInt(row[pk]).value)
            <==> exists r | r in TableRows(FileOf(l.files, schema.table), schema).rows :: Id(r, pk) == IdOf(schema, row)
  {
    var t, id := l.tables[Find(l.tables, schema.table)], ParseInt(row[pk]).value;
    var rows := TableRows(FileOf(l.files, schema.table), schema).rows;
    assert t in l.tables && InStep(t, l.files, schemas) && t.name == schema.table;
    assert Indexed(rows, pk) == Some(t.entries) && IdOf(schema, row) == Some(id);
    hide InStep, Coherent, TableRows, Indexed, Holds, HasKey, ParseInt, Id;
    IndexedDescribes(rows, pk);
    HoldsIsMember(t.entries, id);
    if r :| r in rows && Id(r, pk) == Some(id) {
      assert Entry(id, r.offset) in t.entries;
    }
  }

  /** The given id of a finished row. */
  lemma GivenId(db: Db, schema: Schema, names: Option<seq<string>>, values: seq<Literal>, row: seq<string>, i: nat)
    requires names.Some? ==> |names.value| == |values|
    requires RowOf(db, schema, names, values, row) && i < |values| && KeyAt(schema, names, i)
    ensures IdOf(schema, row) == ParseInt(values[i].text)
  {
    hide ParseInt, OmitsKey, NextId;
  }

  lemma KeyIsFreeExactly(db: Db, schema: Schema, names: Option<seq<string>>, values: seq<Literal>, row: seq<string>)
    requires names.Some? ==> |names.value| == |values|
    requires RowOf(db, schema, names, values, row) && IdOf(schema, row).Some? && schema.primaryKey.Some?
    requires schema.primaryKey.value < |schema.columns| && !OmitsKey(schema, names)
    ensures KeyIsFree(db, schema, names, values)
            <==> forall r | r in TableRows(FileOf(db.files, schema.table), schema).rows ::
                   Id(r, schema.primaryKey.value) != IdOf(schema, row)
  {
    var i := KeyPlace(schema, names, values);
    var pk, id := schema.primaryKey.value, IdOf(schema, row).value;
    GivenId(db, schema, names, values, row, i);
    ParseExactly(values[i].text, id);
    forall j, n | 0 <= j < |values| && KeyAt(schema, names, j) && FitsInt(values[j].text, n)
      ensures n == id
    {
      GivenId(db, schema, names, values, row, j);
      ParseExactly(values[j].text, n);
    }
    hide FitsInt, KeyAt, TableRows, Id, RowOf, ParseInt;
  }

  lemma KeyPlace(schema: Schema, names: Option<seq<string>>, values: seq<Literal>) returns (i: nat)
    requires names.Some? ==> |names.value| == |values|
    requires schema.primaryKey.Some? && schema.primaryKey.value < |schema.columns| && !OmitsKey(schema, names)
    requires names.None? ==> |values| == |schema.columns|
    ensures i < |values| && KeyAt(schema, names, i)
  {
    match names
    case None => i := schema.primaryKey.value;
    case Some(ns) => i :| 0 <= i < |ns| && ns[i] == schema.columns[schema.primaryKey.value].name;
  }

  /** An omitted id is free by itself. */
  lemma OmittedIsFree(db: Db, schema: Schema, names: Option<seq<string>>, values: seq<Literal>)
    requires OmitsKey(schema, names)
    ensures KeyIsFree(db, schema, names, values)
  {
    hide FitsInt, TableRows, Id;
    forall i: nat
      ensures !KeyAt(schema, names, i)
    {
    }
  }

  lemma {:induction false} OmittedIsNotStored(db: Db, schemas: map<string, Schema>, schema: Schema, pk: nat,
                                              names: seq<string>, values: seq<Literal>)
    requires GoodSchemas(schemas) && Coherent(db, schemas) && schema.table in schemas && schemas[schema.table] == schema
    requires schema.primaryKey == Some(pk) && |names| == |values| && OmitsKey(schema, Some(names))
    requires CleanLiterals(values)
    requires BuiltRow(db, schema, Some(names), values).1.Some?
    ensures var (b, row) := BuiltRow(db, schema, Some(names), values);
            && Loaded(b, schema, pk).Some?
            && forall r | r in TableRows(FileOf(b.files, schema.table), schema).rows ::
                 Id(r, pk) != IdOf(schema, row.value)
  {
    var (b, row) := BuiltRow(db, schema, Some(names), values);
    OmittedFacts(schemas, schema, pk, names, values);
    hide *;
    GivenExactly(schema, names, values, pk);
    AutomaticIdIsNew(db, schemas, schema, pk, names, values);
    BuiltRowIsCoherent(db, schema, Some(names), values, schemas);
    StateOfSlot(b, schema, pk);
    HeldExactly(b, schema, pk, row.value, schemas);
    var k := Find(b.tables, schema.table);
    SlotFacts(b, schemas, k);
    HoldsIsMember(b.tables[k].entries, ParseInt(row.value[pk]).value);
  }

  lemma OmittedFacts(schemas: map<string, Schema>, schema: Schema, pk: nat, names: seq<string>, values: seq<Literal>)
    requires GoodSchemas(schemas) && schema.table in schemas && schemas[schema.table] == schema
    requires schema.primaryKey == Some(pk) && OmitsKey(schema, Some(names))
    ensures WellFormed(schema) && pk < |schema.columns| && !Lists(names, schema.columns[pk].name)
  {
    hide WellFormed;
  }

  /** Building the row does not change whether the table can be loaded, nor any file. */
  lemma BuiltLoads(db: Db, schema: Schema, pk: nat, names: Option<seq<string>>, values: seq<Literal>)
    requires schema.primaryKey == Some(pk) && pk < |schema.columns| && (names.Some? ==> |names.value| == |values|)
    ensures Loaded(BuiltRow(db, schema, names, values).0, schema, pk).Some? <==> Loaded(db, schema, pk).Some?
  {
    hide CallsForId, BuiltRow, Allocated, Loaded;
    BuiltState(db, schema, pk, names, values);
    AllocatedNextId(db, schema, pk);
    NextIdIs(db, schema, pk);
  }

  /** An INSERT into a table with a primary key, once its row is built. */
  lemma {:induction false} KeyedExactly(db: Db, schemas: map<string, Schema>, table: string, pk: nat,
                                        names: Option<seq<string>>, values: seq<Literal>)
    requires GoodSchemas(schemas) && Coherent(db, schemas) && CleanLiterals(values)
    requires (names.Some? ==> |names.value| == |values|) && table in schemas && schemas[table].primaryKey == Some(pk)
    requires pk < |schemas[table].columns| && BuiltRow(db, schemas[table], names, values).1.Some?
    ensures var schema, file := schemas[table], FileOf(db.files, table);
            Inserting(db, schemas, table, names, values).1
            <==> (file.Some? ==> HeaderOk(file.value, schema))
                 && CanLoad(db, schema, pk) && KeyIsFree(db, schema, names, values)
  {
    hide *;
    var schema := schemas[table];
    var (b, built) := BuiltRow(db, schema, names, values);
    var row := built.value;
    InsertStored(db, schemas, table, names, values);
    SchemaIs(schemas, table);
    BuiltRowIsCoherent(db, schema, names, values, schemas);
    ReadyIs(b, schema, row, schemas);
    StoredExactly(b, schema, row, schemas);
    SameFiles(db, b);
    BuiltLoads(db, schema, pk, names, values);
    LoadsExactly(db, schema, pk);
    BuiltRowIs(db, schema, names, values);
    RowIsStorable(b, schema, row, schemas);
    IdOfRow(schema, row, pk);
    if OmitsKey(schema, names) {
      OmittedIsFree(db, schema, names, values);
      NamesAre(schema, names);
      OmittedIsNotStored(db, schemas, schema, pk, names.value, values);
    } else {
      KeyIsFreeExactly(db, schema, names, values, row);
    }
  }

  lemma InsertStored(db: Db, schemas: map<string, Schema>, table: string, names: Option<seq<string>>,
                     values: seq<Literal>)
    requires (names.Some? ==> |names.value| == |values|) && table in schemas
    requires BuiltRow(db, schemas[table], names, values).1.Some?
    ensures var (b, row) := BuiltRow(db, schemas[table], names, values);
            Inserting(db, schemas, table, names, values) == Stored(b, schemas[table], row.value)
  {
    hide BuiltRow, Stored;
  }

  lemma SchemaIs(schemas: map<string, Schema>, table: string)
    requires GoodSchemas(schemas) && table in schemas
    ensures schemas[table].table == table && WellFormed(schemas[table])
    ensures schemas[table].primaryKey.Some? ==> schemas[table].primaryKey.value < |schemas[table].columns|
  {
  }

  lemma SameFiles(before: Db, after: Db)
    requires Advances(before, after)
    ensures after.files == before.files
  {
  }

  lemma IdOfRow(schema: Schema, row: seq<string>, pk: nat)
    requires schema.primaryKey == Some(pk) && pk < |row|
    ensures IdOf(schema, row) == ParseInt(row[pk])
  {
    hide ParseInt;
  }

  lemma NamesAre(schema: Schema, names: Option<seq<string>>)
    requires OmitsKey(schema, names)
    ensures names == Some(names.value)
  {
  }

  /** An INSERT is accepted exactly when it may be; refused, it leaves every file as it was. */
  lemma {:induction false} InsertsExactly(db: Db, schemas: map<string, Schema>, table: string,
                                          names: Option<seq<string>>, values: seq<Literal>)
    requires GoodSchemas(schemas) && Coherent(db, schemas) && CleanLiterals(values)
    requires names.Some? ==> |names.value| == |values|
    ensures var (d, ok) := Inserting(db, schemas, table, names, values);
            && (ok <==> MayInsert(db, schemas, table, names, values))
            && (!ok ==> d.files == db.files)
            && Executed(db, schemas, Insert(table, names, values)) == (d, Output([], ok))
  {
    InsertIsCoherent(db, schemas, table, names, values);
    hide Coherent, GoodSchemas, BuiltRow, Stored, MakesRow, HasId, KeyIsFree, CanLoad, HeaderOk, CleanLiterals;
    if table in schemas {
      var schema := schemas[table];
      SchemaIs(schemas, table);
      BuiltRowExactly(db, schema, names, values);
      if BuiltRow(db, schema, names, values).1.Some? {
        hide Inserting;
        match schema.primaryKey
        case Some(pk) => KeyedExactly(db, schemas, table, pk, names, values);
        case None => KeylessExactly(db, schemas, table, names, values);
      } else if schema.primaryKey.None? {
        KeylessHasId(db, schema, names);
      }
    }
  }

  lemma KeylessExactly(db: Db, schemas: map<string, Schema>, table: string, names: Option<seq<string>>,
                       values: seq<Literal>)
    requires GoodSchemas(schemas) && Coherent(db, schemas) && CleanLiterals(values)
    requires (names.Some? ==> |names.value| == |values|) && table in schemas && schemas[table].primaryKey.None?
    requires BuiltRow(db, schemas[table], names, values).1.Some?
    ensures var schema, file := schemas[table], FileOf(db.files, table);
            Inserting(db, schemas, table, names, values).1 <==> (file.Some? ==> HeaderOk(file.value, schema))
  {
    hide *;
    var (b, built) := BuiltRow(db, schemas[table], names, values);
    InsertStored(db, schemas, table, names, values);
    SchemaIs(schemas, table);
    BuiltRowIsCoherent(db, schemas[table], names, values, schemas);
    ReadyIs(b, schemas[table], built.value, schemas);
    StoredExactly(b, schemas[table], built.value, schemas);
    SameFiles(db, b);
  }

  /** What an accepted INSERT stores: at the end of its table, unless the end of its file cuts a line
      of it, the row of the statement; and that row's id goes into the index. */
  lemma {:induction false} InsertStores(db: Db, schemas: map<string, Schema>, table: string,
                                        names: Option<seq<string>>, values: seq<Literal>)
    returns (row: seq<string>, offset: nat)
    requires GoodSchemas(schemas) && Coherent(db, schemas) && CleanLiterals(values)
    requires names.Some? ==> |names.value| == |values|
    requires Inserting(db, schemas, table, names, values).1
    ensures table in schemas && RowOf(db, schemas[table], names, values, row)
    ensures var schema, d := schemas[table], Inserting(db, schemas, table, names, values).0;
            && Appends(db, d, schema, row, IdOf(schema, row), offset)
            && (TableRows(FileOf(d.files, table), schema)
                == AndRow(TableRows(FileOf(db.files, table), schema), Row(offset, row))
                <==> !CutFile(FileOf(db.files, table), schema))
            && forall n | n != table :: FileOf(d.files, n) == FileOf(db.files, n)
  {
    AcceptedIsBuilt(db, schemas, table, names, values);
    hide *;
    var schema, d := schemas[table], Inserting(db, schemas, table, names, values).0;
    var (b, built) := BuiltRow(db, schema, names, values);
    row := built.value;
    SchemaIs(schemas, table);
    BuiltRowIs(db, schema, names, values);
    InsertStored(db, schemas, table, names, values);
    BuiltRowIsCoherent(db, schema, names, values, schemas);
    ReadyIs(b, schema, row, schemas);
    StoredIsCoherent(b, schema, row, schemas);
    offset := StoredAt(b, schema, row, schemas);
    AppendsAfterAdvance(db, b, d, schema, row, IdOf(schema, row), offset);
    AppendsMeans(db, d, schema, row, IdOf(schema, row), offset);
    RowIsStorable(b, schema, row, schemas);
    AppendAdds(FileOf(db.files, table), schema, row);
  }

  lemma AcceptedIsBuilt(db: Db, schemas: map<string, Schema>, table: string, names: Option<seq<string>>,
                        values: seq<Literal>)
    requires (names.Some? ==> |names.value| == |values|) && Inserting(db, schemas, table, names, values).1
    ensures table in schemas && BuiltRow(db, schemas[table], names, values).1.Some?
  {
    hide BuiltRow, Stored;
  }

  lemma StoredAt(db: Db, schema: Schema, row: seq<string>, schemas: map<string, Schema>) returns (offset: nat)
    requires StoredWell(db, schema, row, schemas) && Stored(db, schema, row).1
    ensures Appends(db, Stored(db, schema, row).0, schema, row, IdOf(schema, row), offset)
  {
    hide Stored, Appends, Coherent;
    offset :| Appends(db, Stored(db, schema, row).0, schema, row, IdOf(schema, row), offset);
  }
}
