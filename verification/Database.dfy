/** What executing a statement means: the data directory, the run-time state of the
    tables used so far, and each operation of the executor as a function on them. */
module Database {
  import opened Wrappers
  import opened Limits
  import opened SortedEntries
  import opened Schemas
  import opened Sql
  import opened TableFile
  import opened RowIndex
  import opened Selection
  import opened Storage
  import opened Numbers

  /** The state of a table with a primary key, once it has been used. */
  datatype Table = Table(name: string, nextId: int, entries: seq<Entry>)

  datatype Db = Db(files: map<string, string>, tables: seq<Table>)

  // ---------- Table states ----------

  function Find(tables: seq<Table>, name: string): (k: nat)
    ensures k <= |tables|
    ensures k < |tables| ==> tables[k].name == name
    ensures forall j | 0 <= j < k :: tables[j].name != name
  {
    if tables == [] || tables[0].name == name then 0 else 1 + Find(tables[1..], name)
  }

  /** The state a table would start with: its index and the id after the largest one. */
  function Fresh(files: map<string, string>, schema: Schema, pk: nat): Option<Table> {
    var scan := TableRows(FileOf(files, schema.table), schema);
    if !scan.complete || Indexed(scan.rows, pk).None? then None
    else
      var es := Indexed(scan.rows, pk).value;
      if MaxKey(es) == INT_MAX then None else Some(Table(schema.table, MaxKey(es) + 1, es))
  }

  /** The database with the state of the table present, if that is possible. */
  function Loaded(db: Db, schema: Schema, pk: nat): (r: Option<Db>)
    ensures r.Some? ==> Find(r.value.tables, schema.table) < |r.value.tables|
  {
    if Find(db.tables, schema.table) < |db.tables| then Some(db)
    else if Fresh(db.files, schema, pk).None? || |db.tables| >= MAX_TABLES then None
    else
      var tables := db.tables + [Fresh(db.files, schema, pk).value];
      FoundAtEnd(db.tables, Fresh(db.files, schema, pk).value);
      Some(db.(tables := tables))
  }

  lemma FoundAtEnd(tables: seq<Table>, t: Table)
    requires Find(tables, t.name) == |tables|
    ensures Find(tables + [t], t.name) == |tables|
  {
    FindIs(tables + [t], t.name, |tables|);
  }

  lemma {:induction false} FindIs(tables: seq<Table>, name: string, k: nat)
    requires k < |tables| && tables[k].name == name && forall j | 0 <= j < k :: tables[j].name != name
    ensures Find(tables, name) == k
  {
  }

  function WithTable(db: Db, k: nat, t: Table): Db
    requires k < |db.tables|
  {
    db.(tables := db.tables[k := t])
  }

  // ---------- Ids ----------

  /** Takes the next automatic id. */
  function Allocated(db: Db, schema: Schema, pk: nat): (Db, Option<int>) {
    match Loaded(db, schema, pk)
    case None => (db, None)
    case Some(d) =>
      var k := Find(d.tables, schema.table);
      var t := d.tables[k];
      if t.nextId == INT_MAX then (d, None) else (WithTable(d, k, t.(nextId := t.nextId + 1)), Some(t.nextId))
  }

  /** Later automatic ids stay above an id given explicitly. */
  function Remembered(t: Table, id: int): Table {
    if id == INT_MAX || id < t.nextId then t else t.(nextId := id + 1)
  }

  // ---------- The row of an INSERT ----------

  /** No leading character that a spreadsheet takes for a formula. */
  predicate SafeForCsv(text: string) {
    text == "" || (text[0] != '=' && text[0] != '+' && text[0] != '-' && text[0] != '@')
  }

  predicate TypeMatches(dataType: DataType, literal: Literal) {
    if dataType.IntType? then literal.literalType.IntLiteral? else literal.literalType.StringLiteral?
  }

  /** A value that may be stored in a column. */
  predicate Fits(dataType: DataType, literal: Literal) {
    && TypeMatches(dataType, literal)
    && (dataType.IntType? ==> ParseInt(literal.text).Some?)
    && (dataType.StringType? ==> SafeForCsv(literal.text))
  }

  /** Values given in schema order. */
  function InOrder(columns: seq<Column>, values: seq<Literal>): Option<seq<string>> {
    if |values| != |columns| then None
    else if columns == [] then Some([])
    else if !Fits(columns[0].dataType, values[0]) then None
    else
      match InOrder(columns[1..], values[1..])
      case None => None
      case Some(rest) => Some([values[0].text] + rest)
  }

  /** Cells of a row that have been filled. */
  type Cells = seq<Option<string>>

  /** Values given by column name, put into their places one after the other. */
  function Placed(columns: seq<Column>, names: seq<string>, values: seq<Literal>, cells: Cells): (r: Option<Cells>)
    requires |names| == |values| && |cells| == |columns|
    ensures r.Some? ==> |r.value| == |columns|
    decreases |names|
  {
    if names == [] then Some(cells)
    else
      var c := ColumnIndex(columns, names[0]);
      if c == |columns| || cells[c].Some? || !Fits(columns[c].dataType, values[0]) then None
      else Placed(columns, names[1..], values[1..], cells[c := Some(values[0].text)])
  }

  /** The cells from `i` on, with an automatic id for an omitted primary key. The database
      comes back too: taking an id changes it even if a later cell is missing. */
  function Completed(db: Db, schema: Schema, cells: Cells, i: nat): (Db, Option<seq<string>>)
    requires i <= |cells|
    decreases |cells| - i
  {
    if i == |cells| then (db, Some([]))
    else if cells[i].Some? then
      var (d, rest) := Completed(db, schema, cells, i + 1);
      (d, if rest.Some? then Some([cells[i].value] + rest.value) else None)
    else if schema.primaryKey == Some(i) then
      var (d, id) := Allocated(db, schema, i);
      if id.None? then (d, None)
      else
        var (e, rest) := Completed(d, schema, cells, i + 1);
        (e, if rest.Some? then Some([IntToText(id.value)] + rest.value) else None)
    else (db, None)
  }

  function Blank(n: nat): (cells: Cells)
    ensures |cells| == n && forall i | 0 <= i < n :: cells[i].None?
  {
    seq(n, i => None)
  }

  function BuiltRow(db: Db, schema: Schema, columns: Option<seq<string>>,
                    values: seq<Literal>): (Db, Option<seq<string>>)
    requires columns.Some? ==> |columns.value| == |values|
  {
    match columns
    case None => (db, InOrder(schema.columns, values))
    case Some(names) =>
      match Placed(schema.columns, names, values, Blank(|schema.columns|))
      case None => (db, None)
      case Some(cells) => Completed(db, schema, cells, 0)
  }

  // ---------- Statements ----------

  /** Checks the id of a finished row, appends the row and registers it. */
  function Stored(db: Db, schema: Schema, row: seq<string>): (Db, bool) {
    match schema.primaryKey
    case None =>
      var (files, offset) := AfterAppend(db.files, schema, row);
      (db.(files := files), offset.Some?)
    case Some(pk) =>
      if pk >= |row| || ParseInt(row[pk]).None? then (db, false)
      else
        var id := ParseInt(row[pk]).value;
        match Loaded(db, schema, pk)
        case None => (db, false)
        case Some(d) =>
          var k := Find(d.tables, schema.table);
          if Holds(d.tables[k].entries, id) then (d, false)
          else
            var (files, offset) := AfterAppend(d.files, schema, row);
            if offset.None? then (d.(files := files), false)
            else Registered(d.(files := files), schema, k, id, offset.value)
  }

  /** The entry of a row that is in the file already. */
  function Registered(db: Db, schema: Schema, k: nat, id: int, offset: nat): (Db, bool)
    requires k < |db.tables|
  {
    var t := db.tables[k];
    if Holds(t.entries, id) then (db, false)
    else (WithTable(db, k, Remembered(t.(entries := Inserted(t.entries, id, offset)), id)), true)
  }

  function Inserting(db: Db, schemas: map<string, Schema>, table: string, columns: Option<seq<string>>,
                     values: seq<Literal>): (Db, bool)
    requires columns.Some? ==> |columns.value| == |values|
  {
    if table !in schemas then (db, false)
    else
      var (d, row) := BuiltRow(db, schemas[table], columns, values);
      if row.None? then (d, false) else Stored(d, schemas[table], row.value)
  }

  /** The positions of the selected columns. */
  function Resolved(columns: seq<Column>, names: seq<string>): Option<seq<nat>> {
    if names == [] then Some([])
    else
      var c := ColumnIndex(columns, names[0]);
      if c == |columns| then None
      else
        match Resolved(columns, names[1..])
        case None => None
        case Some(rest) => Some([c] + rest)
  }

  function AllColumns(n: nat): (r: seq<nat>)
    ensures |r| == n
  {
    seq(n, i requires 0 <= i < n => i)
  }

  function SelectedColumns(schema: Schema, columns: Option<seq<string>>): Option<seq<nat>> {
    match columns
    case None => Some(AllColumns(|schema.columns|))
    case Some(names) => Resolved(schema.columns, names)
  }

  /** The condition of a WHERE clause, if it makes sense for the schema. */
  function ResolvedTest(schema: Schema, condition: Where): Option<Test> {
    var c := ColumnIndex(schema.columns, condition.column);
    if c == |schema.columns| then None
    else
      var dataType := schema.columns[c].dataType;
      if !TypeMatches(dataType, condition.value) then None
      else if dataType.IntType? && ParseInt(condition.value.text).None? then None
      else if dataType.StringType? && (condition.operator.Greater? || condition.operator.Less?) then None
      else Some(Test(c, dataType, condition.operator, condition.value))
  }

  /** `=`, `>` and `<` on the primary key are answered from the index. */
  predicate UsesIndex(schema: Schema, test: Test) {
    schema.primaryKey == Some(test.column) && test.literal.literalType.IntLiteral? && !test.operator.NotEqual?
  }

  /** The offsets the index gives. A point lookup takes a negative one for "not found". */
  function FoundOffsets(es: seq<Entry>, operator: Operator, target: int): seq<int> {
    var offsets := Offsets(Range(es, operator, target));
    if operator.Equal? && offsets != [] && offsets[0] < 0 then [] else offsets
  }

  function Answered(db: Db, schema: Schema, selected: seq<nat>, test: Test): (Db, Output) {
    if UsesIndex(schema, test) then
      if ParseInt(test.literal.text).None? then (db, Output([], false))
      else
        match Loaded(db, schema, test.column)
        case None => (db, Output([], false))
        case Some(d) =>
          var es := d.tables[Find(d.tables, schema.table)].entries;
          var offsets := FoundOffsets(es, test.operator, ParseInt(test.literal.text).value);
          (d, ShownAt(FileOf(d.files, schema.table), schema, offsets, selected))
    else (db, Scanned(db, schema, selected, test))
  }

  function Scanned(db: Db, schema: Schema, selected: seq<nat>, test: Test): Output {
    Shown(Filtered(TableRows(FileOf(db.files, schema.table), schema), test), selected)
  }

  function Selecting(db: Db, schemas: map<string, Schema>, table: string, columns: Option<seq<string>>,
                     condition: Option<Where>): (Db, Output) {
    if table !in schemas || SelectedColumns(schemas[table], columns).None? then (db, Output([], false))
    else
      var schema := schemas[table];
      var selected := SelectedColumns(schema, columns).value;
      match condition
      case None => (db, Shown(TableRows(FileOf(db.files, schema.table), schema), selected))
      case Some(where) =>
        match ResolvedTest(schema, where)
        case None => (db, Output([], false))
        case Some(test) => Answered(db, schema, selected, test)
  }

  /** What the parser guarantees about an INSERT: as many values as columns are listed. */
  predicate Paired(statement: Statement) {
    statement.Insert? && statement.columns.Some? ==> |statement.columns.value| == |statement.values|
  }

  function Executed(db: Db, schemas: map<string, Schema>, statement: Statement): (Db, Output)
    requires Paired(statement)
  {
    match statement
    case Insert(table, columns, values) =>
      var (d, ok) := Inserting(db, schemas, table, columns, values);
      (d, Output([], ok))
    case Select(table, columns, condition) => Selecting(db, schemas, table, columns, condition)
  }
}
