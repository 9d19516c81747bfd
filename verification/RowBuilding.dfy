/** How an INSERT turns its values into a row: which cell gets which value, that the order
    of the listed columns does not matter, and which id an omitted primary key gets. */
module RowBuilding {
  import opened Wrappers
  import opened SortedEntries
  import opened Schemas
  import opened Sql
  import opened Numbers
  import opened TableFile
  import opened RowIndex
  import opened Database
  import opened Coherence

  // ---------- Listed columns ----------

  /** Every listed column exists, is listed once, is still empty and takes its value. */
  ghost predicate CanPlace(columns: seq<Column>, names: seq<string>, values: seq<Literal>, cells: Cells)
    requires |names| == |values| && |cells| == |columns|
  {
    && (forall i | 0 <= i < |names| :: CanTake(columns, names[i], values[i], cells))
    && (forall i, j | 0 <= i < j < |names| :: names[i] != names[j])
  }

  ghost predicate CanTake(columns: seq<Column>, name: string, value: Literal, cells: Cells)
    requires |cells| == |columns|
  {
    var c := ColumnIndex(columns, name);
    c < |columns| && cells[c].None? && Fits(columns[c].dataType, value)
  }

  lemma TakeStep(columns: seq<Column>, name: string, value: Literal, cells: Cells, other: string, text: string)
    requires |cells| == |columns| && ColumnIndex(columns, other) < |columns|
    ensures CanTake(columns, name, value, cells[ColumnIndex(columns, other) := Some(text)])
            <==> CanTake(columns, name, value, cells) && name != other
  {
    hide Fits;
  }

  /** The listed values can be placed exactly when each of them can and no name repeats. */
  lemma {:induction false} PlacedExactly(columns: seq<Column>, names: seq<string>, values: seq<Literal>, cells: Cells)
    requires |names| == |values| && |cells| == |columns|
    ensures Placed(columns, names, values, cells).Some? <==> CanPlace(columns, names, values, cells)
    decreases |names|
  {
    if names != [] {
      var c := ColumnIndex(columns, names[0]);
      hide ColumnIndex;
      if CanTake(columns, names[0], values[0], cells) {
        var next := cells[c := Some(values[0].text)];
        var ns, vs := names[1..], values[1..];
        PlacedExactly(columns, ns, vs, next);
        assert Placed(columns, names, values, cells) == Placed(columns, ns, vs, next);
        forall i | 0 <= i < |ns|
          ensures CanTake(columns, ns[i], vs[i], next)
                  <==> CanTake(columns, names[i + 1], values[i + 1], cells) && names[i + 1] != names[0]
        {
          TakeStep(columns, ns[i], vs[i], cells, names[0], values[0].text);
        }
        hide Placed, CanTake;
        RestCanPlace(columns, names, values, cells, next);
      } else {
        assert !CanPlace(columns, names, values, cells);
      }
    }
  }

  lemma RestCanPlace(columns: seq<Column>, names: seq<string>, values: seq<Literal>, cells: Cells, next: Cells)
    requires |names| == |values| > 0 && |cells| == |next| == |columns| && CanTake(columns, names[0], values[0], cells)
    requires forall i | 0 <= i < |names| - 1 ::
               CanTake(columns, names[1..][i], values[1..][i], next)
               <==> CanTake(columns, names[i + 1], values[i + 1], cells) && names[i + 1] != names[0]
    ensures CanPlace(columns, names[1..], values[1..], next) <==> CanPlace(columns, names, values, cells)
  {
    hide CanTake;
    var ns, vs := names[1..], values[1..];
    assert forall i | 0 <= i < |ns| :: ns[i] == names[i + 1] && vs[i] == values[i + 1];
    if CanPlace(columns, ns, vs, next) {
      forall i | 0 <= i < |names|
        ensures CanTake(columns, names[i], values[i], cells)
      {
        if i > 0 {
          assert CanTake(columns, ns[i - 1], vs[i - 1], next);
        }
      }
      forall i, j | 0 <= i < j < |names|
        ensures names[i] != names[j]
      {
        assert CanTake(columns, ns[j - 1], vs[j - 1], next);
        assert i > 0 ==> ns[i - 1] != ns[j - 1];
      }
    }
  }

  /** The text listed for a column. */
  ghost function Given(columns: seq<Column>, names: seq<string>, values: seq<Literal>, c: nat): Option<string>
    requires |names| == |values|
  {
    if names == [] then None
    else if ColumnIndex(columns, names[0]) == c then Some(values[0].text)
    else Given(columns, names[1..], values[1..], c)
  }

  /** Each cell holds the text listed for its column, or what it held before. */
  lemma {:induction false} PlacedCells(columns: seq<Column>, names: seq<string>, values: seq<Literal>, cells: Cells,
                                       c: nat)
    requires |names| == |values| && |cells| == |columns| && Placed(columns, names, values, cells).Some? && c < |columns|
    ensures var given := Given(columns, names, values, c);
            Placed(columns, names, values, cells).value[c] == (if given.Some? then given else cells[c])
            && (given.Some? ==> cells[c].None?)
    decreases |names|
  {
    hide ColumnIndex, Fits;
    if names != [] {
      PlacedCells(columns, names[1..], values[1..], cells[ColumnIndex(columns, names[0]) := Some(values[0].text)], c);
    }
  }

  lemma {:induction false} GivenIs(columns: seq<Column>, names: seq<string>, values: seq<Literal>, i: nat)
    requires |names| == |values| && i < |names| && ColumnIndex(columns, names[i]) < |columns|
    requires forall j, k | 0 <= j < k < |names| :: names[j] != names[k]
    ensures Given(columns, names, values, ColumnIndex(columns, names[i])) == Some(values[i].text)
  {
    if i > 0 {
      assert columns[ColumnIndex(columns, names[i])].name == names[i];
      hide ColumnIndex;
      GivenIs(columns, names[1..], values[1..], i - 1);
    }
  }

  lemma {:induction false} GivenBy(columns: seq<Column>, names: seq<string>, values: seq<Literal>, c: nat)
    returns (i: nat)
    requires |names| == |values| && Given(columns, names, values, c).Some?
    ensures i < |names| && ColumnIndex(columns, names[i]) == c
    ensures Given(columns, names, values, c) == Some(values[i].text)
  {
    hide ColumnIndex;
    i := 0;
    if ColumnIndex(columns, names[0]) != c {
      var k := GivenBy(columns, names[1..], values[1..], c);
      i := k + 1;
    }
  }

  // ---------- Order of the list ----------

  ghost function Pairs(names: seq<string>, values: seq<Literal>): (ps: seq<(string, Literal)>)
    requires |names| == |values|
    ensures |ps| == |names| && forall i | 0 <= i < |names| :: ps[i] == (names[i], values[i])
  {
    seq(|names|, i requires 0 <= i < |names| => (names[i], values[i]))
  }

  lemma {:induction false} Twice<E>(s: seq<E>, i: nat, j: nat)
    requires i < j < |s| && s[i] == s[j]
    ensures multiset(s)[s[i]] >= 2
  {
    var l, r := s[..j], s[j..];
    assert s == l + r && s[i] == l[i] && s[i] == r[0];
    assert l[i] in multiset(l) && r[0] in multiset(r);
  }

  lemma {:induction false} TwoPlaces<E>(s: seq<E>, x: E) returns (i: nat, j: nat)
    requires multiset(s)[x] >= 2
    ensures i < j < |s| && s[i] == s[j] == x
  {
    assert x in multiset(s);
    j :| 0 <= j < |s| && s[j] == x;
    var l, r := s[..j], s[j + 1..];
    assert s == l + [x] + r;
    if x in l {
      i :| 0 <= i < |l| && l[i] == x;
    } else {
      assert x in multiset(r);
      i := j;
      var k :| 0 <= k < |r| && r[k] == x;
      j := j + 1 + k;
    }
  }

  /** The same (column, value) pairs in another order. */
  ghost predicate Permuted(names: seq<string>, values: seq<Literal>, names': seq<string>, values': seq<Literal>) {
    |names| == |values| && |names'| == |values'| && multiset(Pairs(names, values)) == multiset(Pairs(names', values'))
  }

  lemma {:induction false} PairIn(names: seq<string>, values: seq<Literal>, names': seq<string>,
                                  values': seq<Literal>, j: nat) returns (i: nat)
    requires Permuted(names, values, names', values') && j < |names'|
    ensures i < |names| && names[i] == names'[j] && values[i] == values'[j]
  {
    var ps, qs := Pairs(names, values), Pairs(names', values');
    assert qs[j] in multiset(qs);
    assert qs[j] in ps;
    i :| 0 <= i < |ps| && ps[i] == qs[j];
  }

  /** A name listed twice in one order is listed twice in the other. */
  lemma {:induction false} RepeatedName(names: seq<string>, values: seq<Literal>, names': seq<string>,
                                        values': seq<Literal>, i: nat, j: nat)
    returns (k: nat, l: nat)
    requires Permuted(names, values, names', values') && i < j < |names'| && names'[i] == names'[j]
    ensures k < l < |names| && names[k] == names[l]
  {
    var ps, qs := Pairs(names, values), Pairs(names', values');
    if qs[i] == qs[j] {
      Twice(qs, i, j);
      k, l := TwoPlaces(ps, qs[i]);
    } else {
      k := PairIn(names, values, names', values', i);
      l := PairIn(names, values, names', values', j);
      assert ps[k] == qs[i] && ps[l] == qs[j];
      if k > l {
        k, l := l, k;
      }
    }
  }

  lemma {:induction false} NamesStayDistinct(names: seq<string>, values: seq<Literal>, names': seq<string>,
                                             values': seq<Literal>)
    requires Permuted(names, values, names', values')
    requires forall i, j | 0 <= i < j < |names| :: names[i] != names[j]
    ensures forall i, j | 0 <= i < j < |names'| :: names'[i] != names'[j]
  {
    forall i, j | 0 <= i < j < |names'|
      ensures names'[i] != names'[j]
    {
      if names'[i] == names'[j] {
        var k, l := RepeatedName(names, values, names', values', i, j);
        assert false;
      }
    }
  }

  lemma {:induction false} PermutedCanPlace(columns: seq<Column>, names: seq<string>, values: seq<Literal>,
                                            names': seq<string>, values': seq<Literal>, cells: Cells)
    requires Permuted(names, values, names', values') && |cells| == |columns| && CanPlace(columns, names, values, cells)
    ensures CanPlace(columns, names', values', cells)
  {
    hide CanTake;
    NamesStayDistinct(names, values, names', values');
    forall j | 0 <= j < |names'|
      ensures CanTake(columns, names'[j], values'[j], cells)
    {
      var i := PairIn(names, values, names', values', j);
    }
  }

  lemma {:induction false} GivenAlike(columns: seq<Column>, names: seq<string>, values: seq<Literal>,
                                      names': seq<string>, values': seq<Literal>, c: nat)
    requires Permuted(names, values, names', values') && c < |columns|
    requires forall i, j | 0 <= i < j < |names| :: names[i] != names[j]
    requires Given(columns, names', values', c).Some?
    ensures Given(columns, names, values, c) == Given(columns, names', values', c)
  {
    hide ColumnIndex;
    var j := GivenBy(columns, names', values', c);
    var i := PairIn(names, values, names', values', j);
    GivenIs(columns, names, values, i);
  }

  /** The order in which columns are listed does not matter to the cells. */
  lemma {:induction false} PlacedInAnyOrder(columns: seq<Column>, names: seq<string>, values: seq<Literal>,
                                            names': seq<string>, values': seq<Literal>, cells: Cells)
    requires Permuted(names, values, names', values') && |cells| == |columns|
    ensures Placed(columns, names, values, cells) == Placed(columns, names', values', cells)
  {
    PlacedExactly(columns, names, values, cells);
    PlacedExactly(columns, names', values', cells);
    if CanPlace(columns, names, values, cells) {
      PermutedCanPlace(columns, names, values, names', values', cells);
      var r, s := Placed(columns, names, values, cells).value, Placed(columns, names', values', cells).value;
      hide Placed, Given, CanTake;
      forall c | 0 <= c < |columns|
        ensures r[c] == s[c]
      {
        PlacedCells(columns, names, values, cells, c);
        PlacedCells(columns, names', values', cells, c);
        if Given(columns, names', values', c).Some? {
          GivenAlike(columns, names, values, names', values', c);
        } else if Given(columns, names, values, c).Some? {
          GivenAlike(columns, names', values', names, values, c);
        }
      }
      assert r == s;
    } else if CanPlace(columns, names', values', cells) {
      PermutedCanPlace(columns, names', values', names, values, cells);
    }
  }

  /** Nor does it matter to the statement: same outcome, same files, same state. */
  lemma {:induction false} ColumnOrderIrrelevant(db: Db, schemas: map<string, Schema>, table: string,
                                                 names: seq<string>, values: seq<Literal>,
                                                 names': seq<string>, values': seq<Literal>)
    requires Permuted(names, values, names', values')
    ensures Inserting(db, schemas, table, Some(names), values) == Inserting(db, schemas, table, Some(names'), values')
  {
    if table in schemas {
      PlacedInAnyOrder(schemas[table].columns, names, values, names', values', Blank(|schemas[table].columns|));
    }
  }

  // ---------- Omitted primary keys ----------

  /** Completing a row takes an id exactly when the primary key was omitted, and puts it
      into the primary key's cell; the database changes by that allocation alone. */
  lemma {:induction false} CompletedTakesId(db: Db, schema: Schema, cells: Cells, i: nat)
    requires i <= |cells|
    ensures var (d, row) := Completed(db, schema, cells, i);
            row.Some? ==>
              && |row.value| == |cells| - i
              && (forall j | i <= j < |cells| && cells[j].Some? :: row.value[j - i] == cells[j].value)
              && (forall j | i <= j < |cells| && cells[j].None? ::
                    schema.primaryKey == Some(j) && Allocated(db, schema, j).1.Some?
                    && row.value[j - i] == IntToText(Allocated(db, schema, j).1.value)
                    && d == Allocated(db, schema, j).0)
              && ((forall j | i <= j < |cells| :: cells[j].Some?) ==> d == db)
    decreases |cells| - i
  {
    hide Allocated, IntToText;
    if i < |cells| {
      if cells[i].Some? {
        CompletedTakesId(db, schema, cells, i + 1);
      } else if schema.primaryKey == Some(i) {
        var (d, id) := Allocated(db, schema, i);
        if id.Some? {
          CompletedTakesId(d, schema, cells, i + 1);
        }
      }
    }
  }

  lemma {:induction false} BuiltFromGiven(db: Db, schema: Schema, names: seq<string>, values: seq<Literal>)
    returns (cells: Cells)
    requires |names| == |values| && BuiltRow(db, schema, Some(names), values).1.Some?
    ensures |cells| == |schema.columns|
    ensures forall c | 0 <= c < |cells| :: cells[c] == Given(schema.columns, names, values, c)
    ensures BuiltRow(db, schema, Some(names), values) == Completed(db, schema, cells, 0)
  {
    var columns, blank := schema.columns, Blank(|schema.columns|);
    cells := Placed(columns, names, values, blank).value;
    hide Given, Placed, Completed;
    forall c | 0 <= c < |columns|
      ensures cells[c] == Given(columns, names, values, c)
    {
      PlacedCells(columns, names, values, blank, c);
    }
  }

  /** A row built from a column list has, in every column, the listed value; only an
      omitted primary key is filled in, with a new id. */
  lemma {:induction false} ListedRow(db: Db, schema: Schema, names: seq<string>, values: seq<Literal>)
    requires |names| == |values| && BuiltRow(db, schema, Some(names), values).1.Some?
    ensures var (d, row) := BuiltRow(db, schema, Some(names), values);
            && |row.value| == |schema.columns|
            && (forall c | 0 <= c < |schema.columns| ::
                  match Given(schema.columns, names, values, c)
                  case Some(text) => row.value[c] == text
                  case None =>
                    var (e, id) := Allocated(db, schema, c);
                    schema.primaryKey == Some(c) && id.Some? && row.value[c] == IntToText(id.value) && d == e)
            && ((forall c | 0 <= c < |schema.columns| :: Given(schema.columns, names, values, c).Some?) ==> d == db)
  {
    hide *;
    var cells := BuiltFromGiven(db, schema, names, values);
    CompletedTakesId(db, schema, cells, 0);
  }

  /** An id that is filled in was not stored before, and the next one will be larger. */
  lemma {:induction false} AutomaticIdIsNew(db: Db, schemas: map<string, Schema>, schema: Schema, pk: nat,
                                            names: seq<string>, values: seq<Literal>)
    requires GoodSchemas(schemas) && Coherent(db, schemas) && schema.table in schemas && schemas[schema.table] == schema
    requires schema.primaryKey == Some(pk) && |names| == |values|
    requires BuiltRow(db, schema, Some(names), values).1.Some? && Given(schema.columns, names, values, pk).None?
    ensures var (d, row) := BuiltRow(db, schema, Some(names), values);
            && pk < |row.value| && ParseInt(row.value[pk]).Some?
            && var id, k := ParseInt(row.value[pk]).value, Find(d.tables, schema.table);
               && k < |d.tables| && !HasKey(d.tables[k].entries, id)
               && d.tables[k].nextId == id + 1
               && (k < |db.tables| ==> id == db.tables[k].nextId)
  {
    assert pk < |schema.columns|;
    hide Coherent, BuiltRow, Allocated, Given, IntToText, ParseInt, HasKey, Find;
    ListedRow(db, schema, names, values);
    AllocatedIsNew(db, schema, pk, schemas);
    var id := Allocated(db, schema, pk).1.value;
    IntRoundTrip(id);
  }

  // ---------- Ids used up by refused statements ----------

  /** Behind the primary key nothing takes an id. */
  lemma {:induction false} CompletedPast(db: Db, schema: Schema, cells: Cells, i: nat)
    requires i <= |cells| && (schema.primaryKey.Some? ==> schema.primaryKey.value < i)
    ensures Completed(db, schema, cells, i).0 == db
    decreases |cells| - i
  {
    if i < |cells| && cells[i].Some? {
      CompletedPast(db, schema, cells, i + 1);
    }
  }

  /** Whether or not a row comes of it, completing takes an id exactly when the primary key is
      reached and empty. */
  lemma {:induction false} CompletedState(db: Db, schema: Schema, pk: nat, cells: Cells, i: nat)
    requires schema.primaryKey == Some(pk) && i <= pk < |cells|
    ensures Completed(db, schema, cells, i).0
            == if cells[pk].None? && (forall j | i <= j < pk :: cells[j].Some?) then Allocated(db, schema, pk).0 else db
    decreases pk - i
  {
    hide Allocated;
    if i < pk {
      if cells[i].Some? {
        CompletedState(db, schema, pk, cells, i + 1);
      }
    } else if cells[pk].None? {
      var (d, id) := Allocated(db, schema, pk);
      CompletedPast(d, schema, cells, pk + 1);
    } else {
      CompletedPast(db, schema, cells, pk + 1);
    }
  }

  /** The statement asks for an automatic id: its list can be placed and has every column
      before the primary key, but not the primary key. */
  ghost predicate CallsForId(schema: Schema, pk: nat, columns: Option<seq<string>>, values: seq<Literal>) {
    && columns.Some? && |columns.value| == |values|
    && CanPlace(schema.columns, columns.value, values, Blank(|schema.columns|))
    && Given(schema.columns, columns.value, values, pk).None?
    && forall c | 0 <= c < pk :: Given(schema.columns, columns.value, values, c).Some?
  }

  lemma {:induction false} BuiltState(db: Db, schema: Schema, pk: nat, columns: Option<seq<string>>,
                                      values: seq<Literal>)
    requires schema.primaryKey == Some(pk) && pk < |schema.columns| && (columns.Some? ==> |columns.value| == |values|)
    ensures BuiltRow(db, schema, columns, values).0
            == if CallsForId(schema, pk, columns, values) then Allocated(db, schema, pk).0 else db
  {
    if columns.Some? {
      var names, blank := columns.value, Blank(|schema.columns|);
      hide CanPlace, Given, Placed, Completed, Allocated, Fits;
      PlacedExactly(schema.columns, names, values, blank);
      var placed := Placed(schema.columns, names, values, blank);
      if placed.Some? {
        forall c | 0 <= c < |schema.columns|
          ensures placed.value[c] == Given(schema.columns, names, values, c)
        {
          PlacedCells(schema.columns, names, values, blank, c);
        }
        CompletedState(db, schema, pk, placed.value, 0);
      }
    }
  }

  /** The automatic id that the table's next row would get, once the state is loaded. */
  ghost function NextId(db: Db, schema: Schema, pk: nat): Option<int> {
    match StateOf(db, schema, pk)
    case None => None
    case Some(t) => Some(t.nextId)
  }

  /** An id that the statement asks for is there to be taken. */
  ghost predicate TakesAnId(db: Db, schema: Schema, pk: nat, columns: Option<seq<string>>, values: seq<Literal>) {
    && CallsForId(schema, pk, columns, values)
    && NextId(db, schema, pk).Some? && NextId(db, schema, pk) != Some(INT_MAX)
  }

  lemma {:induction false} AllocatedNextId(db: Db, schema: Schema, pk: nat)
    ensures var next, d := NextId(db, schema, pk), Allocated(db, schema, pk).0;
            && NextId(d, schema, pk) == (if next.Some? && next != Some(INT_MAX) then Some(next.value + 1) else next)
            && (Allocated(db, schema, pk).1.Some? <==> next.Some? && next != Some(INT_MAX))
            && (next.Some? ==> Loaded(d, schema, pk) == Some(d))
            && (next.None? ==> d == db)
  {
    if Loaded(db, schema, pk).Some? {
      var l := Loaded(db, schema, pk).value;
      var k := Find(l.tables, schema.table);
      var t := l.tables[k];
      hide Fresh;
      if t.nextId != INT_MAX {
        StillFound(l.tables, schema.table, t.(nextId := t.nextId + 1));
      }
    }
  }

  /** A row that is not stored leaves at most the loaded state behind. */
  lemma {:induction false} NotStoredState(db: Db, schema: Schema, pk: nat, row: seq<string>)
    requires schema.primaryKey == Some(pk) && !Stored(db, schema, row).1
    ensures Stored(db, schema, row).0 == db || Loaded(db, schema, pk) == Some(Stored(db, schema, row).0)
  {
    hide ParseInt, Loaded, Appended, Holds, Inserted;
    if pk < |row| && ParseInt(row[pk]).Some? {
      StoredMeans(db, schema, pk, row);
    }
  }

  lemma LoadedTwice(db: Db, schema: Schema, pk: nat)
    requires Loaded(db, schema, pk).Some?
    ensures Loaded(Loaded(db, schema, pk).value, schema, pk) == Loaded(db, schema, pk)
  {
    hide Fresh;
  }

  /** What a refused INSERT leaves behind: an id used up exactly when it asked for one that
      was to be had, and beyond that at most a state that was loaded. */
  lemma {:induction false} RefusedInsertState(db: Db, schemas: map<string, Schema>, table: string, pk: nat,
                                              columns: Option<seq<string>>, values: seq<Literal>)
    requires GoodSchemas(schemas) && table in schemas && schemas[table].primaryKey == Some(pk)
    requires (columns.Some? ==> |columns.value| == |values|) && !Inserting(db, schemas, table, columns, values).1
    ensures var schema, d := schemas[table], Inserting(db, schemas, table, columns, values).0;
            if CallsForId(schema, pk, columns, values) then d == Allocated(db, schema, pk).0
            else d == db || Loaded(db, schema, pk) == Some(d)
  {
    var schema := schemas[table];
    assert WellFormed(schema);
    var (b, row) := BuiltRow(db, schema, columns, values);
    hide CallsForId, Stored, BuiltRow, Allocated, Loaded, GoodSchemas, WellFormed, NextId;
    BuiltState(db, schema, pk, columns, values);
    AllocatedNextId(db, schema, pk);
    NextIdIs(db, schema, pk);
    if row.Some? {
      NotStoredState(b, schema, pk, row.value);
      if CallsForId(schema, pk, columns, values) && NextId(db, schema, pk).None? {
        NoIdNoRow(db, schema, pk, columns, values);
      }
    }
  }

  lemma NextIdIs(db: Db, schema: Schema, pk: nat)
    ensures NextId(db, schema, pk).Some? <==> Loaded(db, schema, pk).Some?
  {
  }

  lemma {:induction false} NoIdNoRow(db: Db, schema: Schema, pk: nat, columns: Option<seq<string>>,
                                     values: seq<Literal>)
    requires schema.primaryKey == Some(pk) && pk < |schema.columns| && CallsForId(schema, pk, columns, values)
    requires Allocated(db, schema, pk).1.None?
    ensures BuiltRow(db, schema, columns, values).1.None?
  {
    if BuiltRow(db, schema, columns, values).1.Some? {
      hide Allocated, BuiltRow;
      ListedRow(db, schema, columns.value, values);
      assert false;
    }
  }

  /** The next automatic id moves on a refused INSERT exactly when that takes an id. */
  lemma {:induction false} RefusedInsertTakesId(db: Db, schemas: map<string, Schema>, table: string, pk: nat,
                                                columns: Option<seq<string>>, values: seq<Literal>)
    requires GoodSchemas(schemas) && table in schemas && schemas[table].primaryKey == Some(pk)
    requires (columns.Some? ==> |columns.value| == |values|) && !Inserting(db, schemas, table, columns, values).1
    ensures var schema, d := schemas[table], Inserting(db, schemas, table, columns, values).0;
            NextId(d, schema, pk)
            == if TakesAnId(db, schema, pk, columns, values) then Some(NextId(db, schema, pk).value + 1)
               else NextId(db, schema, pk)
  {
    var schema := schemas[table];
    hide CallsForId, Inserting, Allocated, GoodSchemas, Fresh;
    RefusedInsertState(db, schemas, table, pk, columns, values);
    AllocatedNextId(db, schema, pk);
    if Loaded(db, schema, pk).Some? {
      LoadedTwice(db, schema, pk);
    }
  }

  /** The schema of a table of people. */
  ghost function People(): Schema {
    Schema("t", [Column("id", IntType), Column("name", StringType), Column("age", IntType)], Some(0))
  }

  lemma PeopleIsWellFormed()
    ensures WellFormed(People())
  {
    var columns := People().columns;
    assert columns[0].name[0] != columns[1].name[0] && columns[0].name[0] != columns[2].name[0]
           && columns[1].name[0] != columns[2].name[0];
    forall c | c in columns
      ensures PlainName(c.name)
    {
      assert c == columns[0] || c == columns[1] || c == columns[2];
    }
    hide PlainName;
  }

  lemma FirstIds()
    ensures Fresh(map[], People(), 0) == Some(Table("t", 1, []))
    ensures Allocated(Db(map[], []), People(), 0) == (Db(map[], [Table("t", 2, [])]), Some(1))
  {
    var db, first := Db(map[], []), Table("t", 1, []);
    assert Fresh(map[], People(), 0) == Some(first);
    assert [] + [first] == [first] && [first][0 := Table("t", 2, [])] == [Table("t", 2, [])];
    hide Fresh;
    assert Loaded(db, People(), 0) == Some(Db(map[], [first]));
  }

  lemma NamePlaced(cells: Cells)
    requires cells == [None, Some("a"), None]
    ensures Placed(People().columns, ["name"], [Literal(StringLiteral, "a")], Blank(3)) == Some(cells)
  {
    var columns := People().columns;
    assert columns[0].name[0] != "name"[0];
    assert ColumnIndex(columns[1..], "name") == 0;
    assert ColumnIndex(columns, "name") == 1;
    assert Blank(3)[1 := Some("a")] == cells;
  }

  lemma OnlyNameGiven(db: Db, cells: Cells)
    requires cells == [None, Some("a"), None]
    ensures Completed(db, People(), cells, 0) == (Allocated(db, People(), 0).0, None)
  {
    hide Allocated;
    var d := Allocated(db, People(), 0).0;
    assert Completed(d, People(), cells, 2) == (d, None);
    assert Completed(d, People(), cells, 1) == (d, None);
  }

  /** One such statement, on an empty data directory: `INSERT INTO t (name) VALUES ('a')`
      lacks the id and the age. It is refused, and yet the running program goes on with 2
      where a new one would start with 1. */
  lemma RefusedAfterTakingId()
    ensures GoodSchemas(map["t" := People()])
    ensures Inserting(Db(map[], []), map["t" := People()], "t", Some(["name"]), [Literal(StringLiteral, "a")])
            == (Db(map[], [Table("t", 2, [])]), false)
    ensures Fresh(map[], People(), 0) == Some(Table("t", 1, []))
  {
    var cells: Cells := [None, Some("a"), None];
    PeopleIsWellFormed();
    FirstIds();
    NamePlaced(cells);
    OnlyNameGiven(Db(map[], []), cells);
    hide Fresh, Allocated, Placed, Completed, WellFormed;
  }
}
