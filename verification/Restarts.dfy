/** What a restart changes: nothing, as long as memory is a cache of the files, and everything
    for a table that cannot be loaded any more. */
module Restarts {
  import opened Wrappers
  import opened Limits
  import opened SortedEntries
  import opened Schemas
  import opened Sql
  import opened TableFile
  import opened RowIndex
  import opened Selection
  import opened Storage
  import opened Numbers
  import opened Database
  import opened Coherence
  import opened RowBuilding
  import opened Locality
  import opened Runs
  import opened AutomaticIds
  import Csv

  // ---------- What a statement depends on ----------

  /** Without a state, and without a way to load one, an INSERT does nothing. */
  lemma NotLoadedInsert(db: Db, schemas: map<string, Schema>, table: string, pk: nat,
                        columns: Option<seq<string>>, values: seq<Literal>)
    requires GoodSchemas(schemas) && table in schemas && schemas[table].primaryKey == Some(pk)
    requires columns.Some? ==> |columns.value| == |values|
    requires Loaded(db, schemas[table], pk).None?
    ensures Inserting(db, schemas, table, columns, values) == (db, false)
  {
    var schema := schemas[table];
    assert WellFormed(schema);
    hide Loaded, BuiltRow, CallsForId, ParseInt, GoodSchemas, WellFormed;
    BuiltState(db, schema, pk, columns, values);
  }

  /** With the same files and the same state of its table an INSERT has the same outcome. */
  lemma {:induction false} InsertFromState(db: Db, schemas: map<string, Schema>, table: string, pk: nat,
                                           columns: Option<seq<string>>, values: seq<Literal>)
    requires GoodSchemas(schemas) && table in schemas && schemas[table].primaryKey == Some(pk)
    requires columns.Some? ==> |columns.value| == |values|
    requires StateOf(db, schemas[table], pk).Some?
    ensures var (d, ok) := Inserting(db, schemas, table, columns, values);
            var alone := Db(db.files, [StateOf(db, schemas[table], pk).value]);
            var (e, sure) := Inserting(alone, schemas, table, columns, values);
            && |e.tables| == 1 && ok == sure && d.files == e.files
            && StateOf(d, schemas[table], pk) == Some(e.tables[0])
  {
    var schema := schemas[table];
    hide *;
    TableName(schemas, table);
    StateMeans(db, schema, pk);
    var l := Loaded(db, schema, pk).value;
    var k := Find(l.tables, table);
    OnlyIs(l, k);
    InsertingLoaded(db, l, schemas, table, pk, columns, values);
    InsertingAlone(l, schemas, table, columns, values, k);
    var a, b := Inserting(l, schemas, table, columns, values), Inserting(Only(l, k), schemas, table, columns, values);
    AloneMeans(l, k, a, b);
    if Inserting(db, schemas, table, columns, values) == a {
      AloneNext(l, k, a, b, table);
      OnlyIs(a.0, k);
      StateOfSlot(a.0, schema, pk);
    }
  }

  lemma OnlyIs(db: Db, k: nat)
    requires k < |db.tables|
    ensures Only(db, k) == Db(db.files, [db.tables[k]])
  {
  }

  lemma AloneMeans<T>(db: Db, k: nat, a: (Db, T), b: (Db, T))
    requires k < |db.tables| && AsAlone(db, k, a, b)
    ensures |b.0.tables| == 1 && a.1 == b.1 && a.0 == Db(b.0.files, db.tables[k := b.0.tables[0]])
  {
  }

  lemma {:induction false} CompletedKeyless(a: Db, b: Db, schema: Schema, cells: Cells, i: nat)
    requires schema.primaryKey.None? && i <= |cells|
    ensures Completed(a, schema, cells, i).0 == a
    ensures Completed(a, schema, cells, i).1 == Completed(b, schema, cells, i).1
    decreases |cells| - i
  {
    if i < |cells| && cells[i].Some? {
      CompletedKeyless(a, b, schema, cells, i + 1);
    }
  }

  /** An INSERT into a table without a primary key depends on its file alone. */
  lemma InsertKeyless(a: Db, b: Db, schemas: map<string, Schema>, table: string, columns: Option<seq<string>>,
                      values: seq<Literal>)
    requires table in schemas && schemas[table].primaryKey.None? && a.files == b.files
    requires columns.Some? ==> |columns.value| == |values|
    ensures var r, s := Inserting(a, schemas, table, columns, values), Inserting(b, schemas, table, columns, values);
            r.1 == s.1 && r.0.files == s.0.files && r.0.tables == a.tables
  {
    var schema := schemas[table];
    hide Completed, Placed, InOrder, AfterAppend;
    if columns.Some? {
      var placed := Placed(schema.columns, columns.value, values, Blank(|schema.columns|));
      if placed.Some? {
        CompletedKeyless(a, b, schema, placed.value, 0);
        CompletedKeyless(b, a, schema, placed.value, 0);
      }
    }
  }

  /** The same files, and the same state of the one table. */
  ghost predicate SameFor(a: Db, b: Db, schemas: map<string, Schema>, table: string) {
    && a.files == b.files
    && (table in schemas && schemas[table].primaryKey.Some? ==>
          StateOf(a, schemas[table], schemas[table].primaryKey.value)
          == StateOf(b, schemas[table], schemas[table].primaryKey.value))
  }

  lemma {:induction false} InsertSame(a: Db, b: Db, schemas: map<string, Schema>, table: string,
                                      columns: Option<seq<string>>, values: seq<Literal>)
    requires GoodSchemas(schemas) && SameFor(a, b, schemas, table)
    requires columns.Some? ==> |columns.value| == |values|
    ensures var r, s := Inserting(a, schemas, table, columns, values), Inserting(b, schemas, table, columns, values);
            r.1 == s.1 && SameFor(r.0, s.0, schemas, table)
  {
    if table in schemas {
      hide Inserting, StateOf, Loaded, GoodSchemas;
      match schemas[table].primaryKey
      case None => InsertKeyless(a, b, schemas, table, columns, values);
      case Some(pk) =>
        if StateOf(a, schemas[table], pk).Some? {
          InsertFromState(a, schemas, table, pk, columns, values);
          InsertFromState(b, schemas, table, pk, columns, values);
        } else {
          NoStateNotLoaded(a, schemas[table], pk);
          NoStateNotLoaded(b, schemas[table], pk);
          NotLoadedInsert(a, schemas, table, pk, columns, values);
          NotLoadedInsert(b, schemas, table, pk, columns, values);
        }
    }
  }

  lemma NoStateNotLoaded(db: Db, schema: Schema, pk: nat)
    ensures StateOf(db, schema, pk).None? <==> Loaded(db, schema, pk).None?
  {
  }

  lemma AnsweredFromState(db: Db, schema: Schema, selected: seq<nat>, test: Test)
    requires UsesIndex(schema, test)
    ensures var r := Answered(db, schema, selected, test);
            && r.0.files == db.files && StateOf(r.0, schema, test.column) == StateOf(db, schema, test.column)
            && r.1 == match StateOf(db, schema, test.column)
                      case None => Output([], false)
                      case Some(t) =>
                        if ParseInt(test.literal.text).None? then Output([], false)
                        else
                          var target := ParseInt(test.literal.text).value;
                          ShownAt(FileOf(db.files, schema.table), schema,
                                  FoundOffsets(t.entries, test.operator, target), selected)
  {
    hide ParseInt, Fresh, FoundOffsets, ShownAt;
    if Loaded(db, schema, test.column).Some? {
      LoadedTwice(db, schema, test.column);
    }
  }

  lemma {:induction false} SelectSame(a: Db, b: Db, schemas: map<string, Schema>, table: string,
                                      columns: Option<seq<string>>, condition: Option<Where>)
    requires SameFor(a, b, schemas, table)
    ensures var r := Selecting(a, schemas, table, columns, condition);
            var s := Selecting(b, schemas, table, columns, condition);
            r.1 == s.1 && SameFor(r.0, s.0, schemas, table)
  {
    hide StateOf, Loaded, ShownAt, Scanned, FoundOffsets, ResolvedTest, SelectedColumns, ParseInt;
    if table in schemas && SelectedColumns(schemas[table], columns).Some? && condition.Some?
       && ResolvedTest(schemas[table], condition.value).Some? {
      var schema, test := schemas[table], ResolvedTest(schemas[table], condition.value).value;
      var selected := SelectedColumns(schema, columns).value;
      if UsesIndex(schema, test) {
        hide Answered;
        AnsweredFromState(a, schema, selected, test);
        AnsweredFromState(b, schema, selected, test);
      } else {
        ScannedSame(a, b, schema, selected, test);
      }
    }
  }

  lemma ScannedSame(a: Db, b: Db, schema: Schema, selected: seq<nat>, test: Test)
    requires a.files == b.files
    ensures Scanned(a, schema, selected, test) == Scanned(b, schema, selected, test)
  {
  }

  /** A statement depends on nothing but the files and the state of its table, in memory or
      still to be loaded. */
  lemma {:induction false} ExecutedSame(a: Db, b: Db, schemas: map<string, Schema>, statement: Statement)
    requires GoodSchemas(schemas) && Paired(statement) && SameFor(a, b, schemas, statement.table)
    ensures var r, s := Executed(a, schemas, statement), Executed(b, schemas, statement);
            r.1 == s.1 && SameFor(r.0, s.0, schemas, statement.table)
  {
    hide SameFor, Inserting, Selecting, GoodSchemas;
    match statement
    case Insert(table, columns, values) => InsertSame(a, b, schemas, table, columns, values);
    case Select(table, columns, condition) => SelectSame(a, b, schemas, table, columns, condition);
  }

  // ---------- One restart ----------

  /** What a restart would do to the table: its next automatic id is the one after the largest
      stored, or, if it is not in use, it cannot be loaded or there is still room for it. */
  ghost predicate FitsFile(db: Db, schemas: map<string, Schema>, table: string) {
    table in schemas && schemas[table].primaryKey.Some? ==>
      var k := Find(db.tables, table);
      if k < |db.tables| then db.tables[k].nextId == MaxKey(db.tables[k].entries) + 1
      else Fresh(db.files, schemas[table], schemas[table].primaryKey.value).None? || |db.tables| < MAX_TABLES
  }

  ghost function Restarted(db: Db): Db {
    db.(tables := [])
  }

  /** Memory is a cache of the files, as far as a table is concerned, exactly then. */
  lemma {:induction false} CacheExactly(db: Db, schemas: map<string, Schema>, table: string)
    requires GoodSchemas(schemas) && Coherent(db, schemas)
    ensures SameFor(db, Restarted(db), schemas, table) <==> FitsFile(db, schemas, table)
  {
    if table in schemas && schemas[table].primaryKey.Some? {
      var schema, pk, k := schemas[table], schemas[table].primaryKey.value, Find(db.tables, table);
      TableName(schemas, table);
      FreshState(db.files, schema, pk);
      if k < |db.tables| {
        RestartAgrees(db, schemas, k);
      }
      hide Coherent, GoodSchemas, Fresh, MaxKey;
    }
  }

  lemma FreshState(files: map<string, string>, schema: Schema, pk: nat)
    ensures StateOf(Db(files, []), schema, pk) == Fresh(files, schema, pk)
  {
    if Fresh(files, schema, pk).Some? {
      assert [] + [Fresh(files, schema, pk).value] == [Fresh(files, schema, pk).value];
    }
    hide Fresh;
  }

  /** Then no statement on the table can tell whether the program was restarted before it:
      same output, same files, same state. */
  lemma RestartIsInvisible(db: Db, schemas: map<string, Schema>, statement: Statement)
    requires GoodSchemas(schemas) && Coherent(db, schemas) && Paired(statement)
    requires FitsFile(db, schemas, statement.table)
    ensures var r, s := Executed(db, schemas, statement), Executed(Restarted(db), schemas, statement);
            r.1 == s.1 && SameFor(r.0, s.0, schemas, statement.table)
  {
    hide *;
    CacheExactly(db, schemas, statement.table);
    ExecutedSame(db, Restarted(db), schemas, statement);
  }

  // ---------- Room for every table ----------

  ghost function Keyed(schemas: map<string, Schema>): set<string> {
    set n | n in schemas && schemas[n].primaryKey.Some?
  }

  /** There is a state for every table with a primary key. */
  ghost predicate Roomy(schemas: map<string, Schema>) {
    |Keyed(schemas)| <= MAX_TABLES
  }

  ghost function NamesOf(tables: seq<Table>): set<string> {
    set t | t in tables :: t.name
  }

  lemma {:induction false} NamesCount(tables: seq<Table>)
    requires NamesDistinct(tables)
    ensures |NamesOf(tables)| == |tables|
  {
    if tables != [] {
      var n := |tables| - 1;
      var front, last := tables[..n], tables[n];
      NamesCount(front);
      assert tables == front + [last];
      assert NamesOf(tables) == NamesOf(front) + {last.name};
      assert last.name !in NamesOf(front);
    }
  }

  lemma {:induction false} RoomLeft(db: Db, schemas: map<string, Schema>, table: string)
    requires Coherent(db, schemas) && Roomy(schemas) && table in Keyed(schemas)
    requires Find(db.tables, table) == |db.tables|
    ensures |db.tables| < MAX_TABLES
  {
    NamesCount(db.tables);
    forall n | n in NamesOf(db.tables)
      ensures n in Keyed(schemas) && n != table
    {
      var t :| t in db.tables && t.name == n;
      assert InStep(t, db.files, schemas);
    }
    hide Coherent, Find;
    Subset(NamesOf(db.tables) + {table}, Keyed(schemas));
  }

  lemma {:induction false} Subset<T>(a: set<T>, b: set<T>)
    requires a <= b
    ensures |a| <= |b|
  {
    assert b == a + (b - a);
  }

  /** The state in memory, or else the one that loading makes. */
  ghost function Seen(db: Db, schema: Schema, pk: nat): Option<Table> {
    var k := Find(db.tables, schema.table);
    if k < |db.tables| then Some(db.tables[k]) else Fresh(db.files, schema, pk)
  }

  lemma {:induction false} StateIsSeen(db: Db, schemas: map<string, Schema>, table: string)
    requires GoodSchemas(schemas) && Coherent(db, schemas) && Roomy(schemas) && table in Keyed(schemas)
    ensures var pk := schemas[table].primaryKey.value; StateOf(db, schemas[table], pk) == Seen(db, schemas[table], pk)
  {
    TableName(schemas, table);
    if Find(db.tables, table) == |db.tables| {
      RoomLeft(db, schemas, table);
    }
    hide Coherent, GoodSchemas, Fresh;
  }

  /** A statement on another table does not change that. */
  lemma {:induction false} SeenElsewhere(before: Db, after: Db, name: string, schema: Schema, pk: nat)
    requires TouchesOnly(before, after, name) && schema.table != name
    ensures Seen(after, schema, pk) == Seen(before, schema, pk)
  {
    var k := Find(before.tables, schema.table);
    if k < |before.tables| {
      FindIs(after.tables, schema.table, k);
    } else {
      assert Find(after.tables, schema.table) == |after.tables|;
      assert FileOf(after.files, schema.table) == FileOf(before.files, schema.table);
      hide TableRows, Indexed, MaxKey;
    }
  }

  // ---------- Runs with restarts ----------

  /** The same files, and the same state of every table, in memory or still to be loaded. */
  ghost predicate Alike(a: Db, b: Db, schemas: map<string, Schema>) {
    forall n :: SameFor(a, b, schemas, n)
  }

  lemma {:induction false} StepAlike(a: Db, b: Db, schemas: map<string, Schema>, statement: Statement)
    requires GoodSchemas(schemas) && Coherent(a, schemas) && Coherent(b, schemas) && Roomy(schemas)
    requires Acceptable(statement) && Alike(a, b, schemas)
    ensures var r, s := Executed(a, schemas, statement), Executed(b, schemas, statement);
            r.1 == s.1 && Alike(r.0, s.0, schemas)
  {
    var r, s := Executed(a, schemas, statement), Executed(b, schemas, statement);
    assert SameFor(a, b, schemas, statement.table);
    ExecutedSame(a, b, schemas, statement);
    ExecutedTouches(a, schemas, statement);
    ExecutedTouches(b, schemas, statement);
    StepIsCoherent(a, schemas, Execute(statement));
    StepIsCoherent(b, schemas, Execute(statement));
    hide *;
    forall n
      ensures SameFor(r.0, s.0, schemas, n)
    {
      AlikeAt(a, b, schemas, n);
      if n != statement.table {
        SameElsewhere(a, b, schemas, n, statement.table, r.0, s.0);
      }
    }
    AlikeIs(r.0, s.0, schemas);
  }

  lemma AlikeAt(a: Db, b: Db, schemas: map<string, Schema>, table: string)
    requires Alike(a, b, schemas)
    ensures SameFor(a, b, schemas, table) && a.files == b.files
  {
  }

  lemma AlikeIs(a: Db, b: Db, schemas: map<string, Schema>)
    requires forall n :: SameFor(a, b, schemas, n)
    ensures Alike(a, b, schemas)
  {
  }

  lemma SameElsewhere(a: Db, b: Db, schemas: map<string, Schema>, n: string, table: string, c: Db, d: Db)
    requires GoodSchemas(schemas) && Roomy(schemas) && Coherent(a, schemas) && Coherent(b, schemas)
    requires Coherent(c, schemas) && Coherent(d, schemas)
    requires TouchesOnly(a, c, table) && TouchesOnly(b, d, table) && n != table
    requires SameFor(a, b, schemas, n) && SameFor(c, d, schemas, table)
    ensures SameFor(c, d, schemas, n)
  {
    hide Coherent, GoodSchemas, StateOf, Seen, TouchesOnly, Roomy;
    if n in schemas && schemas[n].primaryKey.Some? {
      var schema, pk := schemas[n], schemas[n].primaryKey.value;
      TableName(schemas, n);
      StateIsSeen(a, schemas, n);
      StateIsSeen(b, schemas, n);
      StateIsSeen(c, schemas, n);
      StateIsSeen(d, schemas, n);
      SeenElsewhere(a, c, table, schema, pk);
      SeenElsewhere(b, d, table, schema, pk);
    }
  }

  /** Every state in memory is the one a restart would give back. */
  ghost predicate Cached(db: Db) {
    forall t | t in db.tables :: t.nextId == MaxKey(t.entries) + 1
  }

  lemma {:induction false} CachedExactly(db: Db, schemas: map<string, Schema>)
    requires GoodSchemas(schemas) && Coherent(db, schemas) && Roomy(schemas)
    ensures Cached(db) <==> Alike(db, Restarted(db), schemas)
  {
    if Cached(db) {
      forall n
        ensures SameFor(db, Restarted(db), schemas, n)
      {
        CachedFits(db, schemas, n);
        CacheExactly(db, schemas, n);
      }
    }
    if Alike(db, Restarted(db), schemas) {
      forall t | t in db.tables
        ensures t.nextId == MaxKey(t.entries) + 1
      {
        var k :| 0 <= k < |db.tables| && db.tables[k] == t;
        assert SameFor(db, Restarted(db), schemas, t.name);
        CacheExactly(db, schemas, t.name);
        FoundBySlot(db, schemas, t.name, k);
        TableOfSlot(db, schemas, k);
        RestartAgrees(db, schemas, k);
        hide Coherent, GoodSchemas, MaxKey, SameFor, Alike;
      }
    }
  }

  lemma CachedFits(db: Db, schemas: map<string, Schema>, table: string)
    requires GoodSchemas(schemas) && Coherent(db, schemas) && Roomy(schemas) && Cached(db)
    ensures FitsFile(db, schemas, table)
  {
    hide Coherent, GoodSchemas, Fresh, MaxKey;
    if table in Keyed(schemas) {
      var k := Find(db.tables, table);
      if k < |db.tables| {
        assert db.tables[k] in db.tables;
      } else {
        RoomLeft(db, schemas, table);
      }
    }
  }

  /** The outputs of a run. */
  ghost function Outputs(db: Db, schemas: map<string, Schema>, commands: seq<Command>): seq<Output>
    requires AcceptableCommands(commands)
  {
    if commands == [] then []
    else
      var n := |commands| - 1;
      var before := Outputs(db, schemas, commands[..n]);
      match commands[n]
      case Restart => before
      case Execute(s) => before + [Executed(Run(db, schemas, commands[..n]), schemas, s).1]
  }

  /** The run without its restarts. */
  ghost function Uninterrupted(commands: seq<Command>): (r: seq<Command>)
    ensures forall c | c in r :: c in commands
  {
    if commands == [] then []
    else
      var n := |commands| - 1;
      Uninterrupted(commands[..n]) + if commands[n].Restart? then [] else [commands[n]]
  }

  /** Every restart finds memory to be a cache of the files. */
  ghost predicate QuietRestarts(db: Db, schemas: map<string, Schema>, commands: seq<Command>)
    requires AcceptableCommands(commands)
  {
    forall k | 0 <= k < |commands| && commands[k].Restart? :: Cached(Run(db, schemas, commands[..k]))
  }

  /** Over a whole run such restarts change nothing: without them all outputs are the same, and
      in the end so are the files and the states. */
  lemma {:induction false} RestartsAreInvisible(db: Db, schemas: map<string, Schema>, commands: seq<Command>)
    requires GoodSchemas(schemas) && Coherent(db, schemas) && Roomy(schemas) && AcceptableCommands(commands)
    requires QuietRestarts(db, schemas, commands)
    ensures Outputs(db, schemas, commands) == Outputs(db, schemas, Uninterrupted(commands))
    ensures Alike(Run(db, schemas, commands), Run(db, schemas, Uninterrupted(commands)), schemas)
    ensures Coherent(Run(db, schemas, commands), schemas)
    ensures Coherent(Run(db, schemas, Uninterrupted(commands)), schemas)
  {
    hide *;
    if commands == [] {
      NothingRun(db, schemas);
    } else {
      var n := |commands| - 1;
      var front, last := commands[..n], commands[n];
      FrontIsQuiet(db, schemas, commands);
      RestartsAreInvisible(db, schemas, front);
      var a, b := Run(db, schemas, front), Run(db, schemas, Uninterrupted(front));
      RunMore(db, schemas, commands);
      StepIsCoherent(a, schemas, last);
      match last
      case Restart =>
        LastRestart(db, schemas, commands);
        CachedExactly(a, schemas);
        AlikeThen(a, b, Restarted(a), schemas);
      case Execute(s) =>
        StepIsCoherent(b, schemas, last);
        StepAlike(a, b, schemas, s);
        UninterruptedMore(db, schemas, commands, s);
    }
  }

  lemma NothingRun(db: Db, schemas: map<string, Schema>)
    ensures Uninterrupted([]) == [] && Run(db, schemas, []) == db
    ensures Alike(db, db, schemas)
  {
  }

  lemma FrontIsQuiet(db: Db, schemas: map<string, Schema>, commands: seq<Command>)
    requires commands != [] && AcceptableCommands(commands) && QuietRestarts(db, schemas, commands)
    ensures var front := commands[..|commands| - 1];
            && AcceptableCommands(front) && QuietRestarts(db, schemas, front)
            && AcceptableCommands(Uninterrupted(commands)) && AcceptableCommands(Uninterrupted(front))
            && (commands[|commands| - 1].Execute? ==> Acceptable(commands[|commands| - 1].statement))
  {
    hide Acceptable, Cached, Run;
    var front := commands[..|commands| - 1];
    assert forall k | 0 <= k < |front| :: front[..k] == commands[..k] && front[k] == commands[k];
    assert commands[|commands| - 1] in commands;
  }

  lemma RunMore(db: Db, schemas: map<string, Schema>, commands: seq<Command>)
    requires commands != [] && AcceptableCommands(commands) && AcceptableCommands(commands[..|commands| - 1])
    ensures var n := |commands| - 1;
            var a := Run(db, schemas, commands[..n]);
            && (commands[n].Execute? ==> Acceptable(commands[n].statement))
            && Run(db, schemas, commands) == Step(a, schemas, commands[n])
            && (commands[n].Restart? ==>
                  && Run(db, schemas, commands) == Restarted(a)
                  && Uninterrupted(commands) == Uninterrupted(commands[..n])
                  && Outputs(db, schemas, commands) == Outputs(db, schemas, commands[..n]))
            && (commands[n].Execute? ==>
                  var r := Executed(a, schemas, commands[n].statement);
                  && Run(db, schemas, commands) == r.0
                  && Outputs(db, schemas, commands) == Outputs(db, schemas, commands[..n]) + [r.1])
  {
    assert commands[|commands| - 1] in commands;
    hide Executed, Acceptable;
    assert Uninterrupted(commands[..|commands| - 1]) + [] == Uninterrupted(commands[..|commands| - 1]);
  }

  lemma UninterruptedMore(db: Db, schemas: map<string, Schema>, commands: seq<Command>, statement: Statement)
    requires commands != [] && commands[|commands| - 1] == Execute(statement) && AcceptableCommands(commands)
    requires AcceptableCommands(Uninterrupted(commands)) && Acceptable(statement)
    requires AcceptableCommands(Uninterrupted(commands[..|commands| - 1]))
    ensures var before := Uninterrupted(commands[..|commands| - 1]);
            var r := Executed(Run(db, schemas, before), schemas, statement);
            && Run(db, schemas, Uninterrupted(commands)) == r.0
            && Outputs(db, schemas, Uninterrupted(commands)) == Outputs(db, schemas, before) + [r.1]
            && Step(Run(db, schemas, before), schemas, Execute(statement)) == r.0
  {
    var before, all := Uninterrupted(commands[..|commands| - 1]), Uninterrupted(commands);
    assert all == before + [Execute(statement)];
    assert all[..|all| - 1] == before;
    hide Executed, Acceptable, Uninterrupted;
  }

  lemma LastRestart(db: Db, schemas: map<string, Schema>, commands: seq<Command>)
    requires commands != [] && commands[|commands| - 1].Restart? && AcceptableCommands(commands)
    requires QuietRestarts(db, schemas, commands) && AcceptableCommands(commands[..|commands| - 1])
    ensures Cached(Run(db, schemas, commands[..|commands| - 1]))
  {
  }

  lemma AlikeThen(a: Db, b: Db, c: Db, schemas: map<string, Schema>)
    requires Alike(a, b, schemas) && Alike(a, c, schemas)
    ensures Alike(c, b, schemas)
  {
    forall n
      ensures SameFor(c, b, schemas, n)
    {
      assert SameFor(a, b, schemas, n) && SameFor(a, c, schemas, n);
    }
    hide SameFor;
  }

  // ---------- Which statements keep memory a cache ----------

  /** A SELECT always does. */
  lemma {:induction false} SelectKeepsCache(db: Db, schemas: map<string, Schema>, table: string,
                                            columns: Option<seq<string>>, condition: Option<Where>)
    requires Cached(db)
    ensures Cached(Selecting(db, schemas, table, columns, condition).0)
  {
    hide ResolvedTest, SelectedColumns, ParseInt, TableRows, Indexed, MaxKey, ShownAt, Scanned, Shown, FoundOffsets;
    if table in schemas && condition.Some? && ResolvedTest(schemas[table], condition.value).Some? {
      var pk := ResolvedTest(schemas[table], condition.value).value.column;
      if Fresh(db.files, schemas[table], pk).Some? {
        FreshIsCached(db.files, schemas[table], pk);
      }
      hide Fresh;
    }
  }

  lemma FreshIsCached(files: map<string, string>, schema: Schema, pk: nat)
    requires Fresh(files, schema, pk).Some?
    ensures var t := Fresh(files, schema, pk).value; t.nextId == MaxKey(t.entries) + 1
  {
    hide TableRows, Indexed, MaxKey;
  }

  /** An INSERT into a table that can be loaded does so exactly unless it is refused after taking
      an id, stores the largest int, or stores a negative id as the first. */
  lemma {:induction false} InsertKeepsCache(db: Db, schemas: map<string, Schema>, table: string, pk: nat,
                                            columns: Option<seq<string>>, values: seq<Literal>)
    returns (id: int, offset: nat)
    requires GoodSchemas(schemas) && Coherent(db, schemas) && CleanLiterals(values) && Cached(db)
    requires columns.Some? ==> |columns.value| == |values|
    requires table in schemas && schemas[table].primaryKey == Some(pk) && StateOf(db, schemas[table], pk).Some?
    ensures var (d, ok) := Inserting(db, schemas, table, columns, values);
            var t, u := StateOf(db, schemas[table], pk).value, StateOf(d, schemas[table], pk);
            && u.Some? && u.value.entries == (if ok then Inserted(t.entries, id, offset) else t.entries)
            && (Cached(d) <==> if ok then id != INT_MAX && (t.entries != [] || id >= 0)
                               else !TakesAnId(db, schemas[table], pk, columns, values))
  {
    hide *;
    var (d, ok) := Inserting(db, schemas, table, columns, values);
    var schema := schemas[table];
    TableName(schemas, table);
    CachedIsFresh(db, schemas, table, pk);
    id, offset := InsertKeepsAgreement(db, schemas, table, pk, columns, values);
    InsertIsCoherent(db, schemas, table, columns, values);
    InsertingTouches(db, schemas, table, columns, values);
    CachedByTable(db, d, schemas, table, pk);
  }

  lemma {:induction false} CachedIsFresh(db: Db, schemas: map<string, Schema>, table: string, pk: nat)
    requires GoodSchemas(schemas) && Coherent(db, schemas) && Cached(db)
    requires table in schemas && schemas[table].primaryKey == Some(pk) && StateOf(db, schemas[table], pk).Some?
    ensures Fresh(db.files, schemas[table], pk) == StateOf(db, schemas[table], pk)
  {
    TableName(schemas, table);
    var k := Find(db.tables, table);
    if k < |db.tables| {
      assert db.tables[k] in db.tables;
      RestartAgrees(db, schemas, k);
    }
    hide Coherent, GoodSchemas, Fresh, MaxKey;
  }

  /** Whether memory is a cache after a statement hangs on its table alone. */
  lemma {:induction false} CachedByTable(db: Db, d: Db, schemas: map<string, Schema>, table: string, pk: nat)
    requires GoodSchemas(schemas) && Coherent(d, schemas) && Cached(db) && TouchesOnly(db, d, table)
    requires table in schemas && schemas[table].table == table && schemas[table].primaryKey == Some(pk)
    requires StateOf(d, schemas[table], pk).Some?
    ensures Cached(d) <==> Fresh(d.files, schemas[table], pk) == StateOf(d, schemas[table], pk)
  {
    var schema, k := schemas[table], Find(d.tables, table);
    hide Coherent, GoodSchemas, Fresh, MaxKey;
    if k < |d.tables| {
      RestartAgrees(d, schemas, k);
      assert d.tables[k] in d.tables;
      forall t | t in d.tables && t.name != table
        ensures t.nextId == MaxKey(t.entries) + 1
      {
        var j :| 0 <= j < |d.tables| && d.tables[j] == t;
        assert j < |db.tables| && db.tables[j] in db.tables;
      }
      forall t | t in d.tables && t.name == table
        ensures t == d.tables[k]
      {
        var j :| 0 <= j < |d.tables| && d.tables[j] == t;
        FoundBySlot(d, schemas, table, j);
      }
    } else {
      forall t | t in d.tables
        ensures t.nextId == MaxKey(t.entries) + 1
      {
        var j :| 0 <= j < |d.tables| && d.tables[j] == t;
        assert j < |db.tables| && db.tables[j] in db.tables;
      }
    }
  }

  /** Without a primary key, or with a table that cannot be loaded, there is nothing to keep. */
  lemma InsertElsewiseKeepsCache(db: Db, schemas: map<string, Schema>, table: string, columns: Option<seq<string>>,
                                 values: seq<Literal>)
    requires GoodSchemas(schemas) && Cached(db) && (columns.Some? ==> |columns.value| == |values|)
    requires table in schemas && schemas[table].primaryKey.Some? ==>
               StateOf(db, schemas[table], schemas[table].primaryKey.value).None?
    ensures Cached(Inserting(db, schemas, table, columns, values).0)
  {
    if table in schemas {
      hide Inserting, StateOf, GoodSchemas, Loaded;
      match schemas[table].primaryKey
      case None => InsertKeyless(db, db, schemas, table, columns, values);
      case Some(pk) =>
        NoStateNotLoaded(db, schemas[table], pk);
        NotLoadedInsert(db, schemas, table, pk, columns, values);
    }
  }

  // ---------- Tables that cannot be loaded any more ----------

  /** The table is not in use, and one of its rows has the largest int as its id. */
  ghost predicate Locked(db: Db, schema: Schema, pk: nat) {
    && (forall t | t in db.tables :: t.name != schema.table)
    && exists r | r in TableRows(FileOf(db.files, schema.table), schema).rows :: Id(r, pk) == Some(INT_MAX)
  }

  lemma LockedIsNotLoaded(db: Db, schema: Schema, pk: nat)
    requires Locked(db, schema, pk)
    ensures Loaded(db, schema, pk).None?
  {
    hide TableRows, Id;
    LoadsExactly(db, schema, pk);
  }

  lemma {:induction false} LockedStays(before: Db, after: Db, schema: Schema, pk: nat, name: string)
    requires Locked(before, schema, pk) && TouchesOnly(before, after, name) && schema.table != name
    ensures Locked(after, schema, pk)
    ensures FileOf(after.files, schema.table) == FileOf(before.files, schema.table)
  {
    hide TableRows, Id, FileOf;
    forall t | t in after.tables
      ensures t.name != schema.table
    {
      var k :| 0 <= k < |after.tables| && after.tables[k] == t;
      assert k < |before.tables| ==> before.tables[k] in before.tables;
    }
  }

  /** A statement on such a table: an INSERT is refused, and a SELECT changes nothing. One that
      is answered from the index fails. */
  lemma {:induction false} LockedStatement(db: Db, schemas: map<string, Schema>, pk: nat, statement: Statement)
    requires GoodSchemas(schemas) && Paired(statement) && statement.table in schemas
    requires schemas[statement.table].primaryKey == Some(pk) && Locked(db, schemas[statement.table], pk)
    ensures Executed(db, schemas, statement).0 == db
    ensures statement.Insert? ==> !Executed(db, schemas, statement).1.ok
    ensures var schema := schemas[statement.table];
            statement.Select? && SelectedColumns(schema, statement.columns).Some? && statement.condition.Some?
            && ResolvedTest(schema, statement.condition.value).Some?
            && UsesIndex(schema, ResolvedTest(schema, statement.condition.value).value) ==>
              Executed(db, schemas, statement).1 == Output([], false)
  {
    LockedIsNotLoaded(db, schemas[statement.table], pk);
    hide Locked, Loaded, GoodSchemas, ParseInt, ShownAt, Scanned, Shown, ResolvedTest, SelectedColumns;
    match statement
    case Insert(table, columns, values) =>
      hide Inserting;
      NotLoadedInsert(db, schemas, table, pk, columns, values);
    case Select(_, _, _) =>
  }

  lemma {:induction false} LockedStep(db: Db, schemas: map<string, Schema>, table: string, pk: nat, command: Command)
    requires GoodSchemas(schemas) && table in schemas && schemas[table].primaryKey == Some(pk)
    requires Locked(db, schemas[table], pk) && (command.Execute? ==> Acceptable(command.statement))
    ensures Locked(Step(db, schemas, command), schemas[table], pk)
    ensures FileOf(Step(db, schemas, command).files, table) == FileOf(db.files, table)
  {
    TableName(schemas, table);
    match command
    case Restart => hide TableRows, Id;
    case Execute(s) =>
      hide Locked, Executed, GoodSchemas;
      if s.table == table {
        LockedStatement(db, schemas, pk, s);
      } else {
        ExecutedTouches(db, schemas, s);
        LockedStays(db, Executed(db, schemas, s).0, schemas[table], pk, s.table);
      }
  }

  /** No statement and no restart ever changes that: the file stays as it is for good. */
  lemma {:induction false} LockedForGood(db: Db, schemas: map<string, Schema>, table: string, pk: nat,
                                         commands: seq<Command>)
    requires GoodSchemas(schemas) && table in schemas && schemas[table].primaryKey == Some(pk)
    requires Locked(db, schemas[table], pk) && AcceptableCommands(commands)
    ensures Locked(Run(db, schemas, commands), schemas[table], pk)
    ensures FileOf(Run(db, schemas, commands).files, table) == FileOf(db.files, table)
  {
    hide Locked, Step, GoodSchemas;
    if commands != [] {
      var n := |commands| - 1;
      assert commands[n] in commands;
      LockedForGood(db, schemas, table, pk, commands[..n]);
      LockedStep(Run(db, schemas, commands[..n]), schemas, table, pk, commands[n]);
    }
  }

  lemma AndRowMeans(scan: Scan, row: Row)
    requires AndRow(scan, row).complete
    ensures scan.complete && AndRow(scan, row).rows == scan.rows + [row]
  {
  }

  /** A table in use can be loaded by a new process exactly when it does not hold that id. */
  lemma {:induction false} LoadsAfterRestart(db: Db, schemas: map<string, Schema>, k: nat)
    requires GoodSchemas(schemas) && Coherent(db, schemas) && k < |db.tables|
    ensures var n := db.tables[k].name;
            && n in schemas && schemas[n].primaryKey.Some?
            && var schema, pk := schemas[n], schemas[n].primaryKey.value;
               var scan := TableRows(FileOf(db.files, n), schema);
               && scan.complete
               && (Loaded(Restarted(db), schema, pk).Some? <==> forall r | r in scan.rows :: Id(r, pk) != Some(INT_MAX))
  {
    var t := db.tables[k];
    assert InStep(t, db.files, schemas);
    var schema, pk := schemas[t.name], schemas[t.name].primaryKey.value;
    assert schema.table == t.name;
    hide TableRows, Indexed, Loaded, AllHaveIds, IdsDistinct, Id;
    IndexedExactly(TableRows(FileOf(db.files, t.name), schema).rows, pk);
    LoadsExactly(Restarted(db), schema, pk);
  }

  /** After an accepted INSERT, a new process can load the table exactly when neither the new
      row nor one before it has the largest int as its id. */
  lemma {:induction false} LoadsAfterInsert(db: Db, schemas: map<string, Schema>, table: string, pk: nat,
                                            columns: Option<seq<string>>, values: seq<Literal>)
    returns (row: seq<string>, offset: nat)
    requires GoodSchemas(schemas) && Coherent(db, schemas) && CleanLiterals(values)
    requires columns.Some? ==> |columns.value| == |values|
    requires table in schemas && schemas[table].primaryKey == Some(pk)
    requires Inserting(db, schemas, table, columns, values).1
    ensures var schema, d := schemas[table], Inserting(db, schemas, table, columns, values).0;
            var before := TableRows(FileOf(db.files, table), schema);
            && TableRows(FileOf(d.files, table), schema) == AndRow(before, Row(offset, row)) && before.complete
            && (Loaded(Restarted(d), schema, pk).Some?
                <==> forall r | r in before.rows + [Row(offset, row)] :: Id(r, pk) != Some(INT_MAX))
            && (IdOf(schema, row) == Some(INT_MAX) ==> Locked(Restarted(d), schema, pk))
  {
    hide *;
    var schema, d := schemas[table], Inserting(db, schemas, table, columns, values).0;
    TableName(schemas, table);
    InsertIsCoherent(db, schemas, table, columns, values);
    row, offset := InsertThenRead(db, schemas, table, columns, values);
    RowHasId(schemas, table, pk, row);
    var k := InsertedSlot(db, d, schemas, table, pk, row, offset);
    LoadsAfterRestart(d, schemas, k);
    AndRowMeans(TableRows(FileOf(db.files, table), schema), Row(offset, row));
    if IdOf(schema, row) == Some(INT_MAX) {
      LastIsLocked(d, schema, pk, TableRows(FileOf(db.files, table), schema).rows, Row(offset, row));
    }
  }

  lemma LastIsLocked(db: Db, schema: Schema, pk: nat, rows: seq<Row>, last: Row)
    requires TableRows(FileOf(db.files, schema.table), schema).rows == rows + [last]
    requires IdOf(schema, last.values) == Some(INT_MAX) && schema.primaryKey == Some(pk)
    ensures Locked(Restarted(db), schema, pk)
  {
    hide TableRows, ParseInt;
    assert last in rows + [last];
  }

  lemma InsertedSlot(db: Db, d: Db, schemas: map<string, Schema>, table: string, pk: nat, row: seq<string>, offset: nat)
    returns (k: nat)
    requires table in schemas && schemas[table].table == table && schemas[table].primaryKey == Some(pk)
    requires Appends(db, d, schemas[table], row, IdOf(schemas[table], row), offset)
    requires IdOf(schemas[table], row).Some?
    ensures k < |d.tables| && d.tables[k].name == table
  {
    k := Find(d.tables, table);
    hide Appended, Inserted;
  }

  /** The schema of a table of ids alone. */
  ghost function Ids(): Schema {
    Schema("t", [Column("id", IntType)], Some(0))
  }

  const LARGEST: string := "2147483647"

  /** The table after the largest id was stored first. */
  ghost function LargestStored(): Db {
    Db(map["t" := "id\n2147483647\n"], [Table("t", 1, [Entry(INT_MAX, 3)])])
  }

  lemma IdsLoaded()
    ensures Loaded(Db(map[], []), Ids(), 0) == Some(Db(map[], [Table("t", 1, [])]))
  {
    var first := Table("t", 1, []);
    assert Fresh(map[], Ids(), 0) == Some(first);
    assert [] + [first] == [first];
    hide Fresh;
  }

  lemma LargestRead()
    ensures ParseInt(LARGEST) == Some(INT_MAX) && AllDigits(LARGEST) && 0 < |LARGEST| <= MAX_TEXT_LEN
  {
    LargestIntText();
    IntRoundTrip(INT_MAX);
    DigitsRead(INT_MAX);
  }

  lemma DigitsArePlain(text: string)
    requires AllDigits(text) && |text| <= MAX_TEXT_LEN
    ensures Csv.Storable([text]) && Csv.Row([text]) == text + "\n"
  {
    assert Csv.Clean(text) && !Csv.NeedsQuote(text);
  }

  lemma IdsHeader()
    ensures HeaderText(Ids()) == "id\n" && Repaired("id\n") == "id\n"
  {
    assert Names(Ids()) == ["id"];
  }

  lemma AppendedFirst(schema: Schema, values: seq<string>, header: string, line: string)
    requires HeaderText(schema) == Repaired(header) == header && Csv.Row(values) == line
    ensures Appended(None, schema, values) == Some((header + line, |header|))
  {
    hide HeaderText, Repaired, Csv.Row;
  }

  lemma LargestBytes()
    ensures "id\n" + (LARGEST + "\n") == "id\n2147483647\n"
  {
  }

  lemma LargestAppended()
    ensures Csv.Storable([LARGEST]) && Appended(None, Ids(), [LARGEST]) == Some(("id\n2147483647\n", 3))
  {
    hide *;
    LargestRead();
    DigitsArePlain(LARGEST);
    IdsHeader();
    AppendedFirst(Ids(), [LARGEST], "id\n", LARGEST + "\n");
    LargestBytes();
  }

  lemma LargestFits()
    ensures InOrder(Ids().columns, [Literal(IntLiteral, LARGEST)]) == Some([LARGEST])
    ensures CleanLiterals([Literal(IntLiteral, LARGEST)])
  {
    LargestRead();
    hide ParseInt;
    assert InOrder([], []) == Some([]);
    assert [LARGEST] + [] == [LARGEST];
  }

  lemma FirstRegistration(t: Table)
    requires t == Table("t", 1, [])
    ensures Registration(t, INT_MAX, 3) == Table("t", 1, [Entry(INT_MAX, 3)]) && !Holds(t.entries, INT_MAX)
    ensures Find([t], "t") == 0
    ensures Db(map[]["t" := "id\n2147483647\n"], [t][0 := Table("t", 1, [Entry(INT_MAX, 3)])]) == LargestStored()
  {
    assert [t][0 := Table("t", 1, [Entry(INT_MAX, 3)])] == [Table("t", 1, [Entry(INT_MAX, 3)])];
  }

  lemma LargestRegistered()
    ensures Stored(Db(map[], []), Ids(), [LARGEST]) == (LargestStored(), true)
  {
    var first := Table("t", 1, []);
    assert Ids().table == "t" && Ids().primaryKey == Some(0) && FileOf(map[], "t") == None;
    hide *;
    IdsLoaded();
    LargestAppended();
    LargestRead();
    StoredMeans(Db(map[], []), Ids(), 0, [LARGEST]);
    FirstRegistration(first);
  }

  lemma EmptyIsCoherent()
    ensures GoodSchemas(map["t" := Ids()]) && Coherent(Db(map[], []), map["t" := Ids()])
  {
    IdSchema(Ids());
    hide WellFormed;
  }

  /** `INSERT INTO t VALUES (2147483647)` on an empty directory is accepted. */
  lemma LargestIsStored()
    ensures GoodSchemas(map["t" := Ids()]) && Coherent(LargestStored(), map["t" := Ids()])
    ensures Inserting(Db(map[], []), map["t" := Ids()], "t", None, [Literal(IntLiteral, LARGEST)])
            == (LargestStored(), true)
  {
    LargestFits();
    LargestRegistered();
    EmptyIsCoherent();
    hide Stored, InOrder, Coherent, CleanLiterals, GoodSchemas, LargestStored;
    InsertIsCoherent(Db(map[], []), map["t" := Ids()], "t", None, [Literal(IntLiteral, LARGEST)]);
  }

  /** After that no later process can load the table: looking the id up fails, although a scan
      shows it, and nothing can be inserted any more. */
  lemma {:induction false} LargestIdLocksTable()
    ensures var db, schemas := Restarted(LargestStored()), map["t" := Ids()];
            var literal := Literal(IntLiteral, LARGEST);
            && Coherent(db, schemas) && Locked(db, Ids(), 0) && !CanLoad(db, Ids(), 0)
            && !Selecting(db, schemas, "t", None, Some(Where("id", Equal, literal))).1.ok
            && Scanned(db, Ids(), [0], Test(0, IntType, Equal, literal)) == Output([[LARGEST]], true)
  {
    var db, schemas, literal := Restarted(LargestStored()), map["t" := Ids()], Literal(IntLiteral, LARGEST);
    hide *;
    LargestIsStored();
    LargestRows();
    LargestIsLocked(db);
    RestartIsCoherent(LargestStored(), schemas);
    LockedIsNotLoaded(db, Ids(), 0);
    LoadsExactly(db, Ids(), 0);
    LargestLookup(db, schemas);
    LargestScanned(db);
  }

  lemma LargestRows()
    ensures TableRows(Some("id\n2147483647\n"), Ids()) == Scan([Row(3, [LARGEST])], true)
  {
    IdSchema(Ids());
    LargestAppended();
    hide *;
    AppendSafe(None, Ids(), [LARGEST]);
    NoFileRows(Row(3, [LARGEST]));
  }

  lemma NoFileRows(row: Row)
    ensures AndRow(TableRows(None, Ids()), row) == Scan([row], true)
  {
    assert [] + [row] == [row];
  }

  lemma LargestIsLocked(db: Db)
    requires db == Restarted(LargestStored())
    requires TableRows(Some("id\n2147483647\n"), Ids()) == Scan([Row(3, [LARGEST])], true)
    ensures Locked(db, Ids(), 0) && FileOf(db.files, "t") == Some("id\n2147483647\n")
  {
    LargestRead();
    hide TableRows, ParseInt;
    assert Id(Row(3, [LARGEST]), 0) == Some(INT_MAX);
    assert Row(3, [LARGEST]) in TableRows(FileOf(db.files, "t"), Ids()).rows;
  }

  lemma RestartIsCoherent(db: Db, schemas: map<string, Schema>)
    requires Coherent(db, schemas)
    ensures Coherent(Restarted(db), schemas)
  {
  }

  lemma LargestLookup(db: Db, schemas: map<string, Schema>)
    requires schemas == map["t" := Ids()] && Loaded(db, Ids(), 0).None?
    ensures !Selecting(db, schemas, "t", None, Some(Where("id", Equal, Literal(IntLiteral, LARGEST)))).1.ok
  {
    LargestRead();
    hide Loaded, ParseInt;
  }

  lemma LargestScanned(db: Db)
    requires FileOf(db.files, "t") == Some("id\n2147483647\n")
    requires TableRows(Some("id\n2147483647\n"), Ids()) == Scan([Row(3, [LARGEST])], true)
    ensures Scanned(db, Ids(), [0], Test(0, IntType, Equal, Literal(IntLiteral, LARGEST))) == Output([[LARGEST]], true)
  {
    var row, test := Row(3, [LARGEST]), Test(0, IntType, Equal, Literal(IntLiteral, LARGEST));
    LargestRead();
    hide TableRows, ParseInt, Shown, PickedAll;
    assert Meets(row, test) == Some(true);
    assert Filtered(Scan([], true), test) == Scan([], true);
    assert Filtered(Scan([row], true), test) == Scan([row], true);
    LargestShown(row);
  }

  lemma LargestShown(row: Row)
    requires row.values == [LARGEST]
    ensures Shown(Scan([row], true), [0]) == Output([[LARGEST]], true)
  {
    ShownNothing([0]);
    ShownMore([], row, [0]);
    assert Picked(row.values, [0]) == [LARGEST];
    assert [] + [row] == [row] && [] + [[LARGEST]] == [[LARGEST]];
    hide Shown;
  }
}
