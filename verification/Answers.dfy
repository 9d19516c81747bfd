/** What a SELECT shows, said of the rows in the file and the words of the statement alone. */
module Answers {
  import opened Wrappers
  import opened Limits
  import opened SortedEntries
  import opened Schemas
  import opened Sql
  import opened TableFile
  import opened RowIndex
  import opened Selection
  import opened Storage
  import opened Numbers
  import opened Database
  import opened Coherence
  import opened Runs

  // ---------- The words of the statement ----------

  /** One number stands to another as the operator says. */
  ghost predicate Compares(operator: Operator, a: int, b: int) {
    match operator
    case Equal => a == b
    case Greater => a > b
    case Less => a < b
    case NotEqual => a != b
  }

  /** Every selected name is a column; `*` selects all. */
  ghost predicate Known(columns: seq<Column>, names: Option<seq<string>>) {
    names.Some? ==>
      forall j | 0 <= j < |names.value| :: exists c | 0 <= c < |columns| :: columns[c].name == names.value[j]
  }

  /** A row as it is shown: under each selected name the value of that column, and for `*` the
      row itself. */
  ghost predicate ShowsRow(columns: seq<Column>, names: Option<seq<string>>, values: seq<string>, shown: seq<string>) {
    match names
    case None => shown == values
    case Some(ns) =>
      && |shown| == |ns|
      && forall j, c | 0 <= j < |ns| && 0 <= c < |columns| && columns[c].name == ns[j] ::
           c < |values| && shown[j] == values[c]
  }

  /** The rows at the places `ks`, in the order of that list. */
  ghost predicate ShowsAt(shown: seq<seq<string>>, rows: seq<Row>, ks: seq<nat>, columns: seq<Column>,
                          names: Option<seq<string>>)
  {
    && |shown| == |ks|
    && forall i | 0 <= i < |ks| :: ks[i] < |rows| && ShowsRow(columns, names, rows[ks[i]].values, shown[i])
  }

  ghost predicate InFileOrder(ks: seq<nat>) {
    forall i, j | 0 <= i < j < |ks| :: ks[i] < ks[j]
  }

  // ---------- Columns ----------

  lemma ColumnIs(schema: Schema, c: nat)
    requires WellFormed(schema) && c < |schema.columns|
    ensures ColumnIndex(schema.columns, schema.columns[c].name) == c
  {
    hide PlainName;
  }

  lemma {:induction false} ResolvedExactly(columns: seq<Column>, names: seq<string>)
    ensures Resolved(columns, names).Some? <==> Known(columns, Some(names))
    ensures Resolved(columns, names).Some? ==>
              var selected := Resolved(columns, names).value;
              && |selected| == |names|
              && forall j | 0 <= j < |names| :: selected[j] < |columns| && columns[selected[j]].name == names[j]
  {
    if names != [] {
      ResolvedExactly(columns, names[1..]);
      assert forall j | 1 <= j < |names| :: names[j] == names[1..][j - 1];
      KnownFirst(columns, names);
    }
  }

  lemma KnownFirst(columns: seq<Column>, names: seq<string>)
    requires names != []
    ensures Known(columns, Some(names))
            <==> ColumnIndex(columns, names[0]) < |columns| && Known(columns, Some(names[1..]))
  {
    var rest := names[1..];
    if Known(columns, Some(names)) {
      assert exists c | 0 <= c < |columns| :: columns[c].name == names[0];
      forall j | 0 <= j < |rest|
        ensures exists c | 0 <= c < |columns| :: columns[c].name == rest[j]
      {
        assert rest[j] == names[j + 1];
      }
    }
    if ColumnIndex(columns, names[0]) < |columns| && Known(columns, Some(rest)) {
      forall j | 0 <= j < |names|
        ensures exists c | 0 <= c < |columns| :: columns[c].name == names[j]
      {
        if j == 0 {
          assert columns[ColumnIndex(columns, names[0])].name == names[0];
        } else {
          assert names[j] == rest[j - 1];
        }
      }
    }
  }

  lemma SelectedExactly(schema: Schema, names: Option<seq<string>>)
    ensures SelectedColumns(schema, names).Some? <==> Known(schema.columns, names)
  {
    if names.Some? {
      ResolvedExactly(schema.columns, names.value);
    }
    hide Resolved;
  }

  lemma PickedShows(schema: Schema, names: Option<seq<string>>, values: seq<string>)
    requires WellFormed(schema) && |values| == |schema.columns| && SelectedColumns(schema, names).Some?
    ensures ShowsRow(schema.columns, names, values, Picked(values, SelectedColumns(schema, names).value))
  {
    var selected := SelectedColumns(schema, names).value;
    var shown := Picked(values, selected);
    match names
    case None => assert shown == values;
    case Some(ns) =>
      ResolvedExactly(schema.columns, ns);
      forall j, c | 0 <= j < |ns| && 0 <= c < |schema.columns| && schema.columns[c].name == ns[j]
        ensures shown[j] == values[c]
      {
        assert schema.columns[selected[j]].name == schema.columns[c].name;
      }
  }

  // ---------- Rows ----------

  ghost function RowsAt(rows: seq<Row>, ks: seq<nat>): (r: seq<Row>)
    requires forall i | 0 <= i < |ks| :: ks[i] < |rows|
    ensures |r| == |ks| && forall i | 0 <= i < |ks| :: r[i] == rows[ks[i]]
  {
    seq(|ks|, i requires 0 <= i < |ks| => rows[ks[i]])
  }

  lemma {:induction false} ShownAtEach(rows: seq<Row>, selected: seq<nat>)
    ensures var shown := PickedAll(Values(rows), selected);
            |shown| == |rows| && forall i | 0 <= i < |rows| :: shown[i] == Picked(rows[i].values, selected)
  {
    hide Picked;
    if rows != [] {
      ShownAtEach(rows[1..], selected);
      assert Values(rows)[1..] == Values(rows[1..]);
    }
  }

  /** Every row of a table has a value for every column. */
  lemma RowsAreWide(file: Option<string>, schema: Schema)
    ensures forall r | r in TableRows(file, schema).rows :: |r.values| == |schema.columns|
  {
    if file.Some? {
      TableRowsAreAtTheirOffsets(file.value, schema);
    }
    hide TableRows, Line, TooLong;
  }

  lemma ShownRows(file: Option<string>, schema: Schema, names: Option<seq<string>>, ks: seq<nat>)
    requires WellFormed(schema) && SelectedColumns(schema, names).Some?
    requires forall i | 0 <= i < |ks| :: ks[i] < |TableRows(file, schema).rows|
    ensures var rows, selected := TableRows(file, schema).rows, SelectedColumns(schema, names).value;
            ShowsAt(PickedAll(Values(RowsAt(rows, ks)), selected), rows, ks, schema.columns, names)
  {
    var rows, selected := TableRows(file, schema).rows, SelectedColumns(schema, names).value;
    RowsAreWide(file, schema);
    ShownAtEach(RowsAt(rows, ks), selected);
    hide TableRows, WellFormed, SelectedColumns, ShowsRow, Picked, Values, PickedAll;
    forall i | 0 <= i < |ks|
      ensures ShowsRow(schema.columns, names, rows[ks[i]].values, Picked(rows[ks[i]].values, selected))
    {
      assert rows[ks[i]] in rows;
      PickedShows(schema, names, rows[ks[i]].values);
    }
  }

  // ---------- The linear scan ----------

  /** The rows before `m` that meet a condition. */
  ghost function Places(rows: seq<Row>, test: Test, m: nat): (ks: seq<nat>)
    requires m <= |rows|
    ensures forall i | 0 <= i < |ks| :: ks[i] < m
  {
    if m == 0 then []
    else Places(rows, test, m - 1) + if Meets(rows[m - 1], test) == Some(true) then [m - 1] else []
  }

  lemma {:induction false} PlacesAre(rows: seq<Row>, test: Test, m: nat)
    requires m <= |rows|
    ensures InFileOrder(Places(rows, test, m))
    ensures forall k: nat :: k in Places(rows, test, m) <==> k < m && Meets(rows[k], test) == Some(true)
    ensures Meeting(rows[..m], test) == RowsAt(rows, Places(rows, test, m))
  {
    hide Meets;
    if m > 0 {
      PlacesAre(rows, test, m - 1);
      assert rows[..m][..m - 1] == rows[..m - 1] && rows[..m][m - 1] == rows[m - 1];
    }
  }

  /** Up to the first row that cannot be compared. */
  lemma {:induction false} FilteredCut(scan: Scan, test: Test, m: nat)
    requires m < |scan.rows| && Meets(scan.rows[m], test).None?
    requires forall k | 0 <= k < m :: Meets(scan.rows[k], test).Some?
    ensures Filtered(scan, test) == Scan(Meeting(scan.rows[..m], test), false)
    decreases |scan.rows|
  {
    var rows := scan.rows;
    hide Meets;
    if m > 0 {
      var rest := Scan(rows[1..], scan.complete);
      FilteredCut(rest, test, m - 1);
      assert rows[..m][1..] == rest.rows[..m - 1] && rows[..m][0] == rows[0];
      MeetingFirst(rows[..m], test);
    }
  }

  lemma {:induction false} FirstIncomparable(rows: seq<Row>, test: Test) returns (m: nat)
    ensures m <= |rows| && (m < |rows| ==> Meets(rows[m], test).None?)
    ensures forall k | 0 <= k < m :: Meets(rows[k], test).Some?
  {
    m := 0;
    while m < |rows| && Meets(rows[m], test).Some?
      invariant m <= |rows| && forall k | 0 <= k < m :: Meets(rows[k], test).Some?
    {
      m := m + 1;
    }
  }

  /** What a scan shows: of the rows before the first that cannot be compared those that meet the
      condition, in file order. */
  lemma {:induction false} ScanShows(db: Db, schema: Schema, names: Option<seq<string>>, test: Test)
    returns (ks: seq<nat>, m: nat)
    requires WellFormed(schema) && SelectedColumns(schema, names).Some?
    ensures var scan := TableRows(FileOf(db.files, schema.table), schema);
            var out := Scanned(db, schema, SelectedColumns(schema, names).value, test);
            && m <= |scan.rows| && (m < |scan.rows| ==> Meets(scan.rows[m], test).None?)
            && (forall k | 0 <= k < m :: Meets(scan.rows[k], test).Some?)
            && InFileOrder(ks) && (forall k: nat :: k in ks <==> k < m && Meets(scan.rows[k], test) == Some(true))
            && ShowsAt(out.rows, scan.rows, ks, schema.columns, names)
            && (out.ok <==> scan.complete && m == |scan.rows|)
  {
    var scan, selected := TableRows(FileOf(db.files, schema.table), schema), SelectedColumns(schema, names).value;
    assert Scanned(db, schema, selected, test)
           == Output(PickedAll(Values(Filtered(scan, test).rows), selected), Filtered(scan, test).complete);
    hide *;
    m := FirstIncomparable(scan.rows, test);
    ks := Places(scan.rows, test, m);
    PlacesAre(scan.rows, test, m);
    if m < |scan.rows| {
      FilteredCut(scan, test, m);
    } else {
      AllComparable(scan.rows, test);
      FilteredIsMeeting(scan, test);
      assert scan.rows[..m] == scan.rows;
    }
    ShownRows(FileOf(db.files, schema.table), schema, names, ks);
  }

  lemma AllComparable(rows: seq<Row>, test: Test)
    requires forall k | 0 <= k < |rows| :: Meets(rows[k], test).Some?
    ensures Comparable(rows, test)
  {
    hide Meets;
  }

  // ---------- SELECT by scan ----------

  /** Without a condition all rows are shown, in file order. */
  lemma {:induction false} SelectAll(db: Db, schemas: map<string, Schema>, table: string, names: Option<seq<string>>)
    requires GoodSchemas(schemas) && table in schemas && Known(schemas[table].columns, names)
    ensures var columns, scan := schemas[table].columns, TableRows(FileOf(db.files, table), schemas[table]);
            var out := Selecting(db, schemas, table, names, None).1;
            && out.ok == scan.complete && |out.rows| == |scan.rows|
            && forall i | 0 <= i < |scan.rows| :: ShowsRow(columns, names, scan.rows[i].values, out.rows[i])
  {
    var schema := schemas[table];
    assert schema.table == table && WellFormed(schema);
    SelectedExactly(schema, names);
    var rows := TableRows(FileOf(db.files, table), schema).rows;
    var ks := seq(|rows|, i requires 0 <= i < |rows| => i);
    assert RowsAt(rows, ks) == rows;
    hide TableRows, WellFormed, SelectedColumns, PickedAll, Values, Known, ShowsRow;
    ShownRows(FileOf(db.files, table), schema, names, ks);
  }

  lemma TestIs(schema: Schema, c: nat, operator: Operator, literal: Literal)
    requires WellFormed(schema) && c < |schema.columns|
    ensures ResolvedTest(schema, Where(schema.columns[c].name, operator, literal))
            == if schema.columns[c].dataType.IntType? then
                 if literal.literalType.IntLiteral? && ParseInt(literal.text).Some?
                   then Some(Test(c, IntType, operator, literal)) else None
               else if literal.literalType.StringLiteral? && (operator.Equal? || operator.NotEqual?)
                 then Some(Test(c, StringType, operator, literal)) else None
  {
    ColumnIs(schema, c);
    hide ColumnIndex, PlainName, ParseInt;
  }

  lemma ScanAnswers(db: Db, schemas: map<string, Schema>, table: string, names: Option<seq<string>>, condition: Where,
                    test: Test)
    requires GoodSchemas(schemas) && table in schemas && Known(schemas[table].columns, names)
    requires ResolvedTest(schemas[table], condition) == Some(test) && !UsesIndex(schemas[table], test)
    ensures SelectedColumns(schemas[table], names).Some? && WellFormed(schemas[table]) && schemas[table].table == table
    ensures Selecting(db, schemas, table, names, Some(condition)).1
            == Scanned(db, schemas[table], SelectedColumns(schemas[table], names).value, test)
  {
    SelectedExactly(schemas[table], names);
    hide Scanned, ResolvedTest, SelectedColumns, WellFormed;
  }

  /** A condition on a string column: `=` shows exactly the rows with that text in the column and
      `!=` exactly the others, in file order. */
  lemma {:induction false} SelectByText(db: Db, schemas: map<string, Schema>, table: string, names: Option<seq<string>>,
                                        c: nat, operator: Operator, text: string) returns (ks: seq<nat>)
    requires GoodSchemas(schemas) && table in schemas && Known(schemas[table].columns, names)
    requires c < |schemas[table].columns| && schemas[table].columns[c].dataType.StringType?
    requires operator.Equal? || operator.NotEqual?
    ensures var columns, scan := schemas[table].columns, TableRows(FileOf(db.files, table), schemas[table]);
            var condition := Where(columns[c].name, operator, Literal(StringLiteral, text));
            var out := Selecting(db, schemas, table, names, Some(condition)).1;
            && out.ok == scan.complete && InFileOrder(ks) && ShowsAt(out.rows, scan.rows, ks, columns, names)
            && (forall r | r in scan.rows :: |r.values| == |columns|)
            && forall k: nat :: k in ks <==> k < |scan.rows| && (operator.Equal? <==> scan.rows[k].values[c] == text)
  {
    var schema, literal := schemas[table], Literal(StringLiteral, text);
    var test := Test(c, StringType, operator, literal);
    var condition := Where(schema.columns[c].name, operator, literal);
    assert WellFormed(schema) && !UsesIndex(schema, test);
    TestIs(schema, c, operator, literal);
    var rows := TableRows(FileOf(db.files, table), schema).rows;
    RowsAreWide(FileOf(db.files, table), schema);
    forall k | 0 <= k < |rows|
      ensures c < |rows[k].values| && Meets(rows[k], test) == Some(operator.Equal? <==> rows[k].values[c] == text)
    {
      assert rows[k] in rows;
    }
    hide *;
    ScanAnswers(db, schemas, table, names, condition, test);
    var m;
    ks, m := ScanShows(db, schema, names, test);
  }

  /** A condition on an int column that the index does not answer: the numbers in the column are
      compared with the one in the statement, up to the first value that is no number. */
  lemma {:induction false} SelectByNumber(db: Db, schemas: map<string, Schema>, table: string,
                                          names: Option<seq<string>>, c: nat, operator: Operator, text: string, n: int)
    returns (ks: seq<nat>, m: nat)
    requires GoodSchemas(schemas) && table in schemas && Known(schemas[table].columns, names)
    requires c < |schemas[table].columns| && schemas[table].columns[c].dataType.IntType? && ParseInt(text) == Some(n)
    requires schemas[table].primaryKey != Some(c) || operator.NotEqual?
    ensures var columns, scan := schemas[table].columns, TableRows(FileOf(db.files, table), schemas[table]);
            var condition := Where(columns[c].name, operator, Literal(IntLiteral, text));
            var out := Selecting(db, schemas, table, names, Some(condition)).1;
            && (forall r | r in scan.rows :: |r.values| == |columns|)
            && m <= |scan.rows| && (forall k | 0 <= k < m :: ParseInt(scan.rows[k].values[c]).Some?)
            && (m < |scan.rows| ==> ParseInt(scan.rows[m].values[c]).None?)
            && (out.ok <==> scan.complete && m == |scan.rows|)
            && InFileOrder(ks) && ShowsAt(out.rows, scan.rows, ks, columns, names)
            && forall k: nat :: k in ks <==> k < m && Compares(operator, ParseInt(scan.rows[k].values[c]).value, n)
  {
    var schema, literal := schemas[table], Literal(IntLiteral, text);
    var test := Test(c, IntType, operator, literal);
    var condition := Where(schema.columns[c].name, operator, literal);
    assert WellFormed(schema) && !UsesIndex(schema, test);
    TestIs(schema, c, operator, literal);
    var rows := TableRows(FileOf(db.files, table), schema).rows;
    RowsAreWide(FileOf(db.files, table), schema);
    forall k | 0 <= k < |rows|
      ensures c < |rows[k].values|
      ensures var v := ParseInt(rows[k].values[c]);
              Meets(rows[k], test) == if v.None? then None else Some(Compares(operator, v.value, n))
    {
      assert rows[k] in rows;
      hide ParseInt;
    }
    hide *;
    ScanAnswers(db, schemas, table, names, condition, test);
    ks, m := ScanShows(db, schema, names, test);
  }

  // ---------- SELECT by primary key ----------

  /** The rows at the places `ks` have ascending numbers in the column. */
  ghost predicate InIdOrderAt(rows: seq<Row>, ks: seq<nat>, c: nat)
    requires forall r | r in rows :: c < |r.values|
  {
    && (forall i | 0 <= i < |ks| :: ks[i] < |rows| && ParseInt(rows[ks[i]].values[c]).Some?)
    && forall i, j | 0 <= i < j < |ks| ::
         ParseInt(rows[ks[i]].values[c]).value < ParseInt(rows[ks[j]].values[c]).value
  }

  /** A list of rows with ascending ids that are the meeting rows of a table: their places. */
  lemma {:induction false} PlacesOf(rows: seq<Row>, test: Test, pk: nat, vs: seq<seq<string>>) returns (ks: seq<nat>)
    requires multiset(vs) == multiset(Values(Meeting(rows, test))) && IdsIncrease(vs, pk)
    ensures |ks| == |vs|
    ensures forall i | 0 <= i < |ks| ::
              ks[i] < |rows| && rows[ks[i]].values == vs[i] && Meets(rows[ks[i]], test) == Some(true)
  {
    hide *;
    var all := Places(rows, test, |rows|);
    PlacesAre(rows, test, |rows|);
    assert rows[..|rows|] == rows;
    ValuesAtEach(RowsAt(rows, all));
    ks := [];
    while |ks| < |vs|
      invariant |ks| <= |vs|
      invariant forall i | 0 <= i < |ks| ::
                  ks[i] < |rows| && rows[ks[i]].values == vs[i] && Meets(rows[ks[i]], test) == Some(true)
    {
      var v := vs[|ks|];
      assert v in multiset(vs);
      assert v in Values(RowsAt(rows, all));
      var a :| 0 <= a < |all| && Values(RowsAt(rows, all))[a] == v;
      assert all[a] in all;
      ks := ks + [all[a]];
    }
  }

  lemma {:induction false} ValuesAtEach(rows: seq<Row>)
    ensures |Values(rows)| == |rows| && forall i | 0 <= i < |rows| :: Values(rows)[i] == rows[i].values
  {
    if rows != [] {
      ValuesAtEach(rows[1..]);
    }
  }

  lemma {:induction false} MetIsShown(rows: seq<Row>, test: Test, vs: seq<seq<string>>, k: nat)
    requires multiset(vs) == multiset(Values(Meeting(rows, test))) && k < |rows| && Meets(rows[k], test) == Some(true)
    ensures rows[k].values in vs
  {
    hide *;
    var all := Places(rows, test, |rows|);
    PlacesAre(rows, test, |rows|);
    assert rows[..|rows|] == rows && k in all;
    var met := RowsAt(rows, all);
    ValuesAtEach(met);
    var a :| 0 <= a < |all| && all[a] == k;
    assert Values(met)[a] == rows[k].values;
    assert rows[k].values in multiset(Values(met));
  }

  lemma SameValuesSamePlace(rows: seq<Row>, pk: nat, j: nat, k: nat)
    requires AllHaveIds(rows, pk) && IdsDistinct(rows, pk) && j < |rows| && k < |rows|
    requires rows[j].values == rows[k].values
    ensures j == k
  {
    assert Id(rows[j], pk) == Id(rows[k], pk);
    hide Id;
  }

  /** Every meeting row is among them. */
  lemma {:induction false} AllPlaces(rows: seq<Row>, test: Test, pk: nat, vs: seq<seq<string>>, ks: seq<nat>, k: nat)
    requires multiset(vs) == multiset(Values(Meeting(rows, test))) && |ks| == |vs|
    requires forall i | 0 <= i < |ks| :: ks[i] < |rows| && rows[ks[i]].values == vs[i]
    requires AllHaveIds(rows, pk) && IdsDistinct(rows, pk) && k < |rows| && Meets(rows[k], test) == Some(true)
    ensures k in ks
  {
    hide *;
    MetIsShown(rows, test, vs, k);
    var i :| 0 <= i < |vs| && vs[i] == rows[k].values;
    SameValuesSamePlace(rows, pk, ks[i], k);
    assert ks[i] in ks;
  }

  /** `=`, `>` and `<` on the primary key: if the table can be loaded, exactly the rows whose id
      stands so to the number in the statement are shown, in ascending order of their ids; if it
      cannot, the statement fails and shows nothing. */
  lemma {:induction false} SelectByKey(db: Db, schemas: map<string, Schema>, table: string, names: Option<seq<string>>,
                                       c: nat, operator: Operator, text: string, n: int) returns (ks: seq<nat>)
    requires GoodSchemas(schemas) && Coherent(db, schemas) && table in schemas && Known(schemas[table].columns, names)
    requires schemas[table].primaryKey == Some(c) && c < |schemas[table].columns|
    requires ParseInt(text) == Some(n) && !operator.NotEqual?
    ensures var columns, scan := schemas[table].columns, TableRows(FileOf(db.files, table), schemas[table]);
            var condition := Where(columns[c].name, operator, Literal(IntLiteral, text));
            var out := Selecting(db, schemas, table, names, Some(condition)).1;
            if !CanLoad(db, schemas[table], c) then out == Output([], false)
            else
              && out.ok && scan.complete && (forall r | r in scan.rows :: |r.values| == |columns|)
              && (forall r | r in scan.rows :: ParseInt(r.values[c]).Some?)
              && InIdOrderAt(scan.rows, ks, c) && ShowsAt(out.rows, scan.rows, ks, columns, names)
              && forall k: nat :: k in ks <==>
                   k < |scan.rows| && Compares(operator, ParseInt(scan.rows[k].values[c]).value, n)
  {
    hide *;
    var schema, test := schemas[table], Test(c, IntType, operator, Literal(IntLiteral, text));
    KeyTestIs(schemas, table, c, operator, text, n);
    SelectedExactly(schema, names);
    KeyAnswers(db, schemas, table, names, Where(schema.columns[c].name, operator, Literal(IntLiteral, text)), test);
    LoadsExactly(db, schema, c);
    ks := [];
    if Loaded(db, schema, c).Some? {
      LoadedRows(db, schemas, table, c);
      RowsAreWide(FileOf(db.files, table), schema);
      IndexedSelectRefinesScan(db, schemas, schema, SelectedColumns(schema, names).value, test);
      IdsAreNumbers(TableRows(FileOf(db.files, table), schema).rows, c);
      ks := KeyShows(db, schema, names, test, n);
    } else {
      NotLoadedShowsNothing(db, schema, SelectedColumns(schema, names).value, test);
    }
  }

  lemma KeyTestIs(schemas: map<string, Schema>, table: string, c: nat, operator: Operator, text: string, n: int)
    requires GoodSchemas(schemas) && table in schemas && schemas[table].primaryKey == Some(c)
    requires c < |schemas[table].columns| && ParseInt(text) == Some(n) && !operator.NotEqual?
    ensures var schema, test := schemas[table], Test(c, IntType, operator, Literal(IntLiteral, text));
            && schema.table == table && WellFormed(schema) && UsesIndex(schema, test) && OnPrimaryKey(test, c, n)
            && ResolvedTest(schema, Where(schema.columns[c].name, operator, Literal(IntLiteral, text))) == Some(test)
  {
    TestIs(schemas[table], c, operator, Literal(IntLiteral, text));
    hide ParseInt, ResolvedTest, PlainName;
  }

  lemma IdsAreNumbers(rows: seq<Row>, c: nat)
    requires AllHaveIds(rows, c)
    ensures forall r | r in rows :: c < |r.values| && ParseInt(r.values[c]).Some?
  {
    hide ParseInt;
    forall r | r in rows
      ensures c < |r.values| && ParseInt(r.values[c]).Some?
    {
      assert Id(r, c).Some?;
    }
  }

  lemma KeyAnswers(db: Db, schemas: map<string, Schema>, table: string, names: Option<seq<string>>, condition: Where,
                   test: Test)
    requires table in schemas && SelectedColumns(schemas[table], names).Some?
    requires ResolvedTest(schemas[table], condition) == Some(test)
    ensures Selecting(db, schemas, table, names, Some(condition)).1
            == Answered(db, schemas[table], SelectedColumns(schemas[table], names).value, test).1
  {
    hide Answered, ResolvedTest, SelectedColumns;
  }

  lemma NotLoadedShowsNothing(db: Db, schema: Schema, selected: seq<nat>, test: Test)
    requires UsesIndex(schema, test) && Loaded(db, schema, test.column).None?
    ensures Answered(db, schema, selected, test).1 == Output([], false)
  {
    hide ParseInt, Loaded;
  }

  /** A table that can be loaded is readable, and its rows have distinct ids. */
  lemma LoadedRows(db: Db, schemas: map<string, Schema>, table: string, pk: nat)
    requires GoodSchemas(schemas) && Coherent(db, schemas) && table in schemas && schemas[table].primaryKey == Some(pk)
    requires Loaded(db, schemas[table], pk).Some?
    ensures var scan := TableRows(FileOf(db.files, table), schemas[table]);
            scan.complete && AllHaveIds(scan.rows, pk) && IdsDistinct(scan.rows, pk)
  {
    var l := Loaded(db, schemas[table], pk).value;
    assert schemas[table].table == table;
    LoadedIsCoherent(db, schemas[table], pk, schemas);
    var t := l.tables[Find(l.tables, table)];
    assert t in l.tables && InStep(t, l.files, schemas) && l.files == db.files;
    hide TableRows, Indexed, Loaded, Coherent, AllHaveIds, IdsDistinct;
    IndexedExactly(TableRows(FileOf(db.files, table), schemas[table]).rows, pk);
  }

  lemma {:induction false} KeyShows(db: Db, schema: Schema, names: Option<seq<string>>, test: Test, n: int)
    returns (ks: seq<nat>)
    requires WellFormed(schema) && SelectedColumns(schema, names).Some? && OnPrimaryKey(test, test.column, n)
    requires var scan := TableRows(FileOf(db.files, schema.table), schema);
             && AllHaveIds(scan.rows, test.column) && IdsDistinct(scan.rows, test.column)
             && forall r | r in scan.rows :: test.column < |r.values|
    requires InIdOrder(Answered(db, schema, SelectedColumns(schema, names).value, test).1, Matching(db, schema, test),
                       test.column, SelectedColumns(schema, names).value)
    ensures var rows := TableRows(FileOf(db.files, schema.table), schema).rows;
            && InIdOrderAt(rows, ks, test.column)
            && ShowsAt(Answered(db, schema, SelectedColumns(schema, names).value, test).1.rows, rows, ks,
                       schema.columns, names)
            && forall k: nat :: k in ks <==>
                 && k < |rows| && ParseInt(rows[k].values[test.column]).Some?
                 && Compares(test.operator, ParseInt(rows[k].values[test.column]).value, n)
  {
    var scan, selected := TableRows(FileOf(db.files, schema.table), schema), SelectedColumns(schema, names).value;
    var rows, c := scan.rows, test.column;
    var vs := RowsInOrder(Answered(db, schema, selected, test).1, Matching(db, schema, test), c, selected);
    KeyComparable(scan, test, n);
    assert Matching(db, schema, test) == Values(Meeting(rows, test));
    hide *;
    ks := PlacesOf(rows, test, c, vs);
    ValuesAtEach(RowsAt(rows, ks));
    assert Values(RowsAt(rows, ks)) == vs;
    ShownRows(FileOf(db.files, schema.table), schema, names, ks);
    KeyOrder(rows, ks, vs, c);
    forall k: nat
      ensures k in ks <==>
                && k < |rows| && ParseInt(rows[k].values[c]).Some?
                && Compares(test.operator, ParseInt(rows[k].values[c]).value, n)
    {
      if k < |rows| {
        KeyTest(rows[k], test, n);
        if Meets(rows[k], test) == Some(true) {
          AllPlaces(rows, test, c, vs, ks, k);
        }
      }
    }
  }

  lemma RowsInOrder(out: Output, matching: seq<seq<string>>, pk: nat, selected: seq<nat>) returns (vs: seq<seq<string>>)
    requires InIdOrder(out, matching, pk, selected)
    ensures multiset(vs) == multiset(matching) && IdsIncrease(vs, pk) && out.rows == PickedAll(vs, selected)
  {
    vs :| multiset(vs) == multiset(matching) && IdsIncrease(vs, pk) && out == Output(PickedAll(vs, selected), true);
  }

  lemma KeyComparable(scan: Scan, test: Test, n: int)
    requires OnPrimaryKey(test, test.column, n) && AllHaveIds(scan.rows, test.column)
    ensures Filtered(scan, test).rows == Meeting(scan.rows, test)
  {
    forall r | r in scan.rows
      ensures Meets(r, test).Some?
    {
      IdTest(r, test.column, test, n);
    }
    hide Meets, Id, OnPrimaryKey, Filtered, Meeting;
    FilteredIsMeeting(scan, test);
  }

  lemma KeyOrder(rows: seq<Row>, ks: seq<nat>, vs: seq<seq<string>>, c: nat)
    requires |ks| == |vs| && IdsIncrease(vs, c) && (forall r | r in rows :: c < |r.values|)
    requires forall i | 0 <= i < |ks| :: ks[i] < |rows| && rows[ks[i]].values == vs[i]
    requires AllHaveIds(rows, c)
    ensures InIdOrderAt(rows, ks, c)
  {
    hide ParseInt;
    forall i | 0 <= i < |ks|
      ensures ParseInt(rows[ks[i]].values[c]).Some?
    {
      assert rows[ks[i]] in rows;
      assert Id(rows[ks[i]], c).Some?;
    }
  }

  lemma KeyTest(row: Row, test: Test, n: int)
    requires OnPrimaryKey(test, test.column, n) && test.column < |row.values|
    ensures Meets(row, test) == Some(true)
            <==> ParseInt(row.values[test.column]).Some?
                 && Compares(test.operator, ParseInt(row.values[test.column]).value, n)
  {
    hide ParseInt;
  }

  // ---------- Refused statements ----------

  /** A condition that makes sense: a column that exists, a value of its type, for an int column a
      number in range, and for a string column `=` or `!=`. */
  ghost predicate Sensible(columns: seq<Column>, condition: Where) {
    exists c | 0 <= c < |columns| && columns[c].name == condition.column ::
      if columns[c].dataType.IntType? then
        condition.value.literalType.IntLiteral? && exists n :: FitsInt(condition.value.text, n)
      else condition.value.literalType.StringLiteral? && (condition.operator.Equal? || condition.operator.NotEqual?)
  }

  /** A SELECT from an unknown table, of an unknown column, or with a condition that makes no sense
      shows nothing and fails; a number out of range makes none. */
  lemma {:induction false} SelectIsRefused(db: Db, schemas: map<string, Schema>, table: string,
                                           names: Option<seq<string>>, condition: Option<Where>)
    requires GoodSchemas(schemas)
    requires table !in schemas || !Known(schemas[table].columns, names)
             || (condition.Some? && !Sensible(schemas[table].columns, condition.value))
    ensures Selecting(db, schemas, table, names, condition) == (db, Output([], false))
  {
    hide SelectedColumns, ResolvedTest, Known, Sensible, WellFormed;
    if table in schemas {
      var schema := schemas[table];
      SelectedExactly(schema, names);
      if condition.Some? {
        SensibleExactly(schema, condition.value);
      }
    }
  }

  lemma {:induction false} SensibleExactly(schema: Schema, condition: Where)
    requires WellFormed(schema)
    ensures ResolvedTest(schema, condition).Some? <==> Sensible(schema.columns, condition)
  {
    var columns, text := schema.columns, condition.value.text;
    var k := ColumnIndex(columns, condition.column);
    NumberExactly(text);
    forall c | 0 <= c < |columns| && columns[c].name == condition.column
      ensures c == k
    {
      ColumnIs(schema, c);
    }
    hide ParseInt, FitsInt, ColumnIndex, WellFormed;
  }

  lemma NumberExactly(text: string)
    ensures ParseInt(text).Some? <==> exists n :: FitsInt(text, n)
  {
    hide ParseInt, FitsInt;
    if ParseInt(text).Some? {
      ParseExactly(text, ParseInt(text).value);
    }
    if n :| FitsInt(text, n) {
      ParseExactly(text, n);
    }
  }
}
