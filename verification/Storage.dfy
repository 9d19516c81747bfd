/** The storage layer: table files on disk, the reading loops over them, and appending.
    Every method is proved to compute the functions of TableFile, RowIndex and Selection. */
module Storage {
  import opened Wrappers
  import opened SortedEntries
  import opened Schemas
  import opened TableFile
  import opened RowIndex
  import opened Selection
  import opened Numbers
  import opened BPlusIndex
  import Csv

  /** The data directory: one file per table that has one. */
  class Disk {
    var files: map<string, string>

    constructor (files: map<string, string>)
      ensures this.files == files
    {
      this.files := files;
    }
  }

  function FileOf(files: map<string, string>, table: string): Option<string> {
    if table in files then Some(files[table]) else None
  }

  /** A file opened for reading. */
  class Reader {
    const bytes: string
    var position: nat

    constructor (bytes: string)
      ensures this.bytes == bytes && position == 0
    {
      this.bytes := bytes;
      position := 0;
    }

    method Gets() returns (line: Option<string>)
      modifies this
      ensures line == if old(position) < |bytes| then Some(Line(bytes, old(position))) else None
      ensures position == old(position) + if line.Some? then |line.value| else 0
    {
      if position >= |bytes| {
        return None;
      }
      line := Some(Line(bytes, position));
      position := position + |line.value|;
    }

    method Seek(offset: nat)
      modifies this
      ensures position == offset
    {
      position := offset;
    }
  }

  // ---------- Headers ----------

  method HeaderMatches(values: seq<string>, schema: Schema) returns (ok: bool)
    ensures ok <==> values == Names(schema)
  {
    if |values| != |schema.columns| {
      return false;
    }
    for i := 0 to |values|
      invariant forall j | 0 <= j < i :: values[j] == Names(schema)[j]
    {
      if values[i] != schema.columns[i].name {
        return false;
      }
    }
    ok := true;
  }

  /** Reads and checks the first line of a non-empty file. */
  method ReadHeader(reader: Reader, schema: Schema) returns (ok: bool)
    requires reader.position == 0 && reader.bytes != ""
    modifies reader
    ensures ok <==> HeaderOk(reader.bytes, schema)
    ensures ok ==> reader.position == |Line(reader.bytes, 0)|
  {
    var line := reader.Gets();
    if TooLong(line.value) {
      return false;
    }
    var values := Csv.ParseCsvLine(line.value);
    if values.None? {
      return false;
    }
    ok := HeaderMatches(values.value, schema);
  }

  method WriteHeader(schema: Schema) returns (text: string)
    ensures text == HeaderText(schema)
  {
    text := "";
    for i := 0 to |schema.columns|
      invariant text == Joined(Names(schema)[..i])
    {
      ghost var front := Names(schema)[..i];
      assert Names(schema)[..i + 1] == front + [schema.columns[i].name];
      if i > 0 {
        text := text + ",";
        JoinedExtended(front, schema.columns[i].name);
      }
      text := text + schema.columns[i].name;
    }
    assert Names(schema)[..|schema.columns|] == Names(schema);
    text := text + "\n";
  }

  lemma {:induction false} JoinedExtended(names: seq<string>, name: string)
    requires names != []
    ensures Joined(names + [name]) == Joined(names) + "," + name
  {
    var all := names + [name];
    assert all[0] == names[0] && all[1..] == names[1..] + [name];
    if |names| > 1 {
      JoinedExtended(names[1..], name);
    }
  }

  // ---------- Appending ----------

  /** Checks the header of an existing file, or creates the file. */
  method EnsureDataFile(disk: Disk, schema: Schema) returns (ok: bool)
    modifies disk
    ensures var file := old(FileOf(disk.files, schema.table));
            && (ok <==> file.Some? ==> HeaderOk(file.value, schema))
            && disk.files == if file.None? then old(disk.files)[schema.table := HeaderText(schema)] else old(disk.files)
  {
    if schema.table in disk.files {
      if disk.files[schema.table] == "" {
        return false;
      }
      var reader := new Reader(disk.files[schema.table]);
      ok := ReadHeader(reader, schema);
    } else {
      var header := WriteHeader(schema);
      disk.files := disk.files[schema.table := header];
      ok := true;
    }
  }

  /** Supplies a missing newline at the end of the file. */
  method EnsureAppendStartsOnNewLine(disk: Disk, table: string)
    requires table in disk.files
    modifies disk
    ensures disk.files == old(disk.files)[table := Repaired(old(disk.files)[table])]
  {
    var file := disk.files[table];
    if |file| > 0 && file[|file| - 1] != '\n' {
      disk.files := disk.files[table := file + "\n"];
    } else {
      assert disk.files == disk.files[table := file];
    }
  }

  /** The file system after an attempt to append, and the offset if it succeeded. */
  function AfterAppend(files: map<string, string>, schema: Schema,
                       values: seq<string>): (map<string, string>, Option<nat>) {
    match Appended(FileOf(files, schema.table), schema, values)
    case None => (files, None)
    case Some((bytes, offset)) => (files[schema.table := bytes], Some(offset))
  }

  method AppendRow(disk: Disk, schema: Schema, values: seq<string>) returns (offset: Option<nat>)
    modifies disk
    ensures (disk.files, offset) == AfterAppend(old(disk.files), schema, values)
  {
    var ok := EnsureDataFile(disk, schema);
    if !ok {
      return None;
    }
    EnsureAppendStartsOnNewLine(disk, schema.table);
    offset := Some(|disk.files[schema.table]|);
    var row := Csv.WriteRow(values);
    ghost var files, bytes := old(disk.files), disk.files[schema.table] + row;
    assert disk.files[schema.table := bytes] == files[schema.table := bytes];
    disk.files := disk.files[schema.table := disk.files[schema.table] + row];
  }

  // ---------- Reading rows ----------

  /** The reading loops have come to `position` and have seen these rows. */
  ghost predicate Reading(bytes: string, schema: Schema, seen: seq<Row>, position: nat) {
    && position <= |bytes|
    && var rest := RowsFrom(bytes, position, |schema.columns|);
       TableRows(Some(bytes), schema) == Scan(seen + rest.rows, rest.complete)
  }

  lemma ReadingStarts(bytes: string, schema: Schema)
    requires HeaderOk(bytes, schema)
    ensures Reading(bytes, schema, [], |Line(bytes, 0)|)
  {
    var rest := RowsFrom(bytes, |Line(bytes, 0)|, |schema.columns|);
    assert [] + rest.rows == rest.rows;
  }

  lemma ReadingEnds(bytes: string, schema: Schema, seen: seq<Row>, position: nat)
    requires Reading(bytes, schema, seen, position)
    requires position >= |bytes| || ReadRow(bytes, position, |schema.columns|).None?
    ensures TableRows(Some(bytes), schema) == Scan(seen, position >= |bytes|)
  {
    assert seen + [] == seen;
  }

  lemma ReadingContinues(bytes: string, schema: Schema, seen: seq<Row>, position: nat)
    requires Reading(bytes, schema, seen, position)
    requires position < |bytes| && ReadRow(bytes, position, |schema.columns|).Some?
    ensures Reading(bytes, schema, seen + [Row(position, ReadRow(bytes, position, |schema.columns|).value)],
                    position + |Line(bytes, position)|)
  {
    var rest := RowsFrom(bytes, position + |Line(bytes, position)|, |schema.columns|);
    var row := Row(position, ReadRow(bytes, position, |schema.columns|).value);
    assert seen + ([row] + rest.rows) == seen + [row] + rest.rows;
  }

  datatype Next = End | Unreadable | Got(values: seq<string>)

  function NextRow(bytes: string, position: nat, width: nat): Next {
    if position >= |bytes| then End
    else if ReadRow(bytes, position, width).None? then Unreadable
    else Got(ReadRow(bytes, position, width).value)
  }

  /** The checks every reading loop makes on a line. */
  method ReadNext(reader: Reader, schema: Schema) returns (next: Next)
    modifies reader
    ensures next == NextRow(reader.bytes, old(reader.position), |schema.columns|)
    ensures next.Got? ==> reader.position == old(reader.position) + |Line(reader.bytes, old(reader.position))|
    ensures next.End? ==> reader.position == old(reader.position) >= |reader.bytes|
    ensures next.Got? ==>
              && old(reader.position) < |reader.bytes|
              && ReadRow(reader.bytes, old(reader.position), |schema.columns|) == Some(next.values)
    ensures next.Got? ==> reader.position <= |reader.bytes|
    ensures next.Unreadable? ==>
              && old(reader.position) < |reader.bytes|
              && ReadRow(reader.bytes, old(reader.position), |schema.columns|).None?
  {
    var line := reader.Gets();
    if line.None? {
      return End;
    }
    if TooLong(line.value) {
      return Unreadable;
    }
    var values := Csv.ParseCsvLine(line.value);
    if values.None? || |values.value| != |schema.columns| {
      return Unreadable;
    }
    next := Got(values.value);
  }

  // ---------- The index of a table ----------

  /** Fills an empty index with the ids of a table and the offsets of their lines. It
      succeeds exactly when the table can be read to its end and its ids are distinct. */
  method RebuildPkIndex(disk: Disk, schema: Schema, pk: nat, index: Index) returns (ok: bool, maxId: int)
    requires index.Valid() && index.Entries() == [] && disk !in index.Repr()
    modifies index.Repr()
    ensures index.Valid() && fresh(index.Repr() - old(index.Repr()))
    ensures var scan := TableRows(FileOf(disk.files, schema.table), schema);
            && (ok <==> scan.complete && Indexed(scan.rows, pk).Some?)
            && (ok ==> Indexed(scan.rows, pk) == Some(index.Entries()) && maxId == MaxKey(index.Entries()))
  {
    assert Indexed([], pk) == Some([]) && MaxKey([]) == 0;
    hide HeaderOk, RowsFrom, Line, Indexed, MaxKey, Index.Valid, Index.Entries;
    maxId := 0;
    if schema.table !in disk.files || disk.files[schema.table] == "" {
      assert TableRows(FileOf(disk.files, schema.table), schema) == Scan([], true);
      return true, 0;
    }
    var reader := new Reader(disk.files[schema.table]);
    ok := ReadHeader(reader, schema);
    if !ok {
      assert TableRows(FileOf(disk.files, schema.table), schema) == Scan([], false);
      return;
    }
    assert FileOf(disk.files, schema.table) == Some(reader.bytes);
    hide TableRows;
    ok, maxId := IndexRows(reader, schema, pk, index);
  }

  lemma NoIndex(bytes: string, schema: Schema, seen: seq<Row>, position: nat, pk: nat)
    requires Reading(bytes, schema, seen, position) && Indexed(seen, pk).None?
    ensures Indexed(TableRows(Some(bytes), schema).rows, pk).None?
  {
    var rows := TableRows(Some(bytes), schema).rows;
    assert rows[..|seen|] == seen;
    hide Indexed, Reading, TableRows;
    NoIndexLater(rows, |seen|, pk);
  }

  /** Registers one row, unless it has no id or its id is taken. */
  method RegisterRow(index: Index, pk: nat, row: Row) returns (id: Option<int>)
    requires index.Valid()
    modifies index.Repr()
    ensures index.Valid() && fresh(index.Repr() - old(index.Repr()))
    ensures AndEntry(Some(old(index.Entries())), row, pk) == if id.Some? then Some(index.Entries()) else None
    ensures id.Some? ==> id == Id(row, pk) && !Holds(old(index.Entries()), id.value)
  {
    index.EntriesAreSorted();
    hide Index.Valid, Index.Entries, Inserted, Lookup;
    id := if pk < |row.values| then ParseInt(row.values[pk]) else None;
    if id.None? {
      return;
    }
    var existing, _ := index.Search(id.value);
    if existing.Some? {
      return None;
    }
    HoldsIsMember(index.Entries(), id.value);
    var inserted := index.Insert(id.value, row.offset);
    if !inserted {
      return None;
    }
  }

  /** The index holds the rows seen so far. */
  ghost predicate Indexing(reader: Reader, schema: Schema, pk: nat, index: Index, seen: seq<Row>, maxId: int,
                           foundValue: bool)
    reads reader, index, index.root, index.Repr()
  {
    && index.Valid() && reader !in index.Repr()
    && Reading(reader.bytes, schema, seen, reader.position)
    && Indexed(seen, pk) == Some(index.Entries()) && maxId == MaxKey(index.Entries())
    && (foundValue <==> index.Entries() != [])
  }

  /** The table is indexed, or cannot be. */
  ghost predicate IndexingEnded(bytes: string, schema: Schema, pk: nat, index: Index, ok: bool, maxId: int)
    reads index, index.root
  {
    var scan := TableRows(Some(bytes), schema);
    && (ok <==> scan.complete && Indexed(scan.rows, pk).Some?)
    && (ok ==> Indexed(scan.rows, pk) == Some(index.Entries()) && maxId == MaxKey(index.Entries()))
  }

  method IndexRows(reader: Reader, schema: Schema, pk: nat, index: Index) returns (ok: bool, maxId: int)
    requires index.Valid() && index.Entries() == [] && reader !in index.Repr()
    requires HeaderOk(reader.bytes, schema) && reader.position == |Line(reader.bytes, 0)|
    modifies index.Repr(), reader
    ensures index.Valid() && fresh(index.Repr() - old(index.Repr()))
    ensures IndexingEnded(reader.bytes, schema, pk, index, ok, maxId)
  {
    ghost var seen: seq<Row> := [];
    maxId := 0;
    var foundValue := false;
    hide Indexing, IndexingEnded, Index.Valid, Index.Entries, HeaderOk, Line;
    IndexingStarts(reader, schema, pk, index);
    while true
      invariant index.Valid() && fresh(index.Repr() - old(index.Repr()))
      invariant Indexing(reader, schema, pk, index, seen, maxId, foundValue)
      decreases |reader.bytes| - reader.position
    {
      var more: bool;
      more, ok, maxId, foundValue, seen := IndexRow(reader, schema, pk, index, maxId, foundValue, seen);
      if !more {
        return;
      }
    }
  }

  lemma IndexingStarts(reader: Reader, schema: Schema, pk: nat, index: Index)
    requires index.Valid() && index.Entries() == [] && reader !in index.Repr()
    requires HeaderOk(reader.bytes, schema) && reader.position == |Line(reader.bytes, 0)|
    ensures Indexing(reader, schema, pk, index, [], 0, false)
  {
    hide HeaderOk, Line, Index.Valid, Index.Entries, Index.Repr;
    ReadingStarts(reader.bytes, schema);
    assert Indexed([], pk) == Some([]) && MaxKey([]) == 0;
  }

  /** One turn of the loop: read a line, check it, search for its id, insert it. */
  method IndexRow(reader: Reader, schema: Schema, pk: nat, index: Index, maxSoFar: int, found: bool,
                  ghost seen: seq<Row>)
    returns (more: bool, ok: bool, maxId: int, foundValue: bool, ghost nowSeen: seq<Row>)
    requires Indexing(reader, schema, pk, index, seen, maxSoFar, found)
    modifies index.Repr(), reader
    ensures index.Valid() && fresh(index.Repr() - old(index.Repr()))
    ensures more ==> Indexing(reader, schema, pk, index, nowSeen, maxId, foundValue)
    ensures more ==> old(reader.position) < reader.position <= |reader.bytes|
    ensures !more ==> IndexingEnded(reader.bytes, schema, pk, index, ok, maxId)
  {
    hide Reading, TableRows, Indexed, MaxKey, HeaderOk, Line, ReadRow, Index.Valid, Index.Entries;
    hide AndEntry, Inserted, Id, Sorted, HasKey;
    ghost var es := index.Entries();
    var rowOffset := reader.position;
    var next := ReadNext(reader, schema);
    if !next.Got? {
      ReadingEnds(reader.bytes, schema, seen, rowOffset);
      return false, next.End?, maxSoFar, found, seen;
    }
    var row := Row(rowOffset, next.values);
    ReadingContinues(reader.bytes, schema, seen, rowOffset);
    IndexedStep(seen, row, pk);
    nowSeen := seen + [row];
    index.EntriesAreSorted();
    var id := RegisterRow(index, pk, row);
    maxId, foundValue := maxSoFar, found;
    if id.None? {
      NoIndex(reader.bytes, schema, nowSeen, reader.position, pk);
      return false, false, maxId, foundValue, nowSeen;
    }
    MaxKeyRegistered(es, row, pk, id.value);
    if !found || id.value > maxSoFar {
      maxId := id.value;
      foundValue := true;
    }
    more, ok := true, true;
  }

  lemma MaxKeyRegistered(es: seq<Entry>, row: Row, pk: nat, id: int)
    requires AndEntry(Some(es), row, pk).Some? && Id(row, pk) == Some(id) && Sorted(es)
    ensures var more := AndEntry(Some(es), row, pk).value;
            more != [] && MaxKey(more) == if es == [] || id > MaxKey(es) then id else MaxKey(es)
  {
    HoldsIsMember(es, id);
    MaxKeyInserted(es, id, row.offset);
  }

  // ---------- The linear scans ----------

  /** The largest value of an int column, 0 if there are no rows. */
  method FindMaxIntValue(disk: Disk, schema: Schema, column: nat) returns (r: Option<int>)
    ensures var scan := TableRows(FileOf(disk.files, schema.table), schema);
            r == if scan.complete then MaxId(scan.rows, column) else None
  {
    if schema.table !in disk.files || disk.files[schema.table] == "" {
      return Some(0);
    }
    var reader := new Reader(disk.files[schema.table]);
    var ok := ReadHeader(reader, schema);
    if !ok {
      return None;
    }
    ReadingStarts(reader.bytes, schema);
    assert FileOf(disk.files, schema.table) == Some(reader.bytes);
    r := MaxOfRows(reader, schema, column);
  }

  method MaxOfRows(reader: Reader, schema: Schema, column: nat) returns (r: Option<int>)
    requires Reading(reader.bytes, schema, [], reader.position)
    modifies reader
    ensures var scan := TableRows(Some(reader.bytes), schema);
            r == if scan.complete then MaxId(scan.rows, column) else None
  {
    hide *;
    ghost var seen: seq<Row> := [];
    var maxValue, foundValue := 0, false;
    NoRows(column);
    while true
      invariant Reading(reader.bytes, schema, seen, reader.position)
      invariant MaxId(seen, column) == Some(maxValue) && (foundValue <==> seen != [])
      decreases |reader.bytes| - reader.position
    {
      var position := reader.position;
      var next := ReadNext(reader, schema);
      if !next.Got? {
        ReadingEnds(reader.bytes, schema, seen, position);
        return if next.End? then Some(maxValue) else None;
      }
      var row := Row(position, next.values);
      ReadingContinues(reader.bytes, schema, seen, position);
      MaxIdStep(seen, row, column);
      seen := seen + [row];
      var value := ReadId(row, column);
      if value.None? {
        NoMax(reader.bytes, schema, seen, reader.position, column);
        return None;
      }
      if !foundValue || value.value > maxValue {
        maxValue := value.value;
        foundValue := true;
      }
    }
  }

  lemma NoRows(column: nat)
    ensures MaxId([], column) == Some(0)
  {
  }

  method ReadId(row: Row, column: nat) returns (id: Option<int>)
    ensures id == Id(row, column)
  {
    if column >= |row.values| {
      return None;
    }
    id := ParseInt(row.values[column]);
  }

  lemma NoMax(bytes: string, schema: Schema, seen: seq<Row>, position: nat, pk: nat)
    requires Reading(bytes, schema, seen, position) && MaxId(seen, pk).None?
    ensures MaxId(TableRows(Some(bytes), schema).rows, pk).None?
  {
    var rows := TableRows(Some(bytes), schema).rows;
    assert rows[..|seen|] == seen;
    hide MaxId, Reading, TableRows;
    NoMaxLater(rows, |seen|, pk);
  }

  /** Whether a value occurs in an int column; stops at the first occurrence. */
  method IntValueExists(disk: Disk, schema: Schema, column: nat, target: int) returns (r: Option<bool>)
    ensures r == Occurs(TableRows(FileOf(disk.files, schema.table), schema), column, target)
  {
    if schema.table !in disk.files || disk.files[schema.table] == "" {
      return Some(false);
    }
    var reader := new Reader(disk.files[schema.table]);
    var ok := ReadHeader(reader, schema);
    if !ok {
      return None;
    }
    r := ExistsFrom(reader, schema, column, target);
  }

  method ExistsFrom(reader: Reader, schema: Schema, column: nat, target: int) returns (r: Option<bool>)
    requires reader.position <= |reader.bytes|
    modifies reader
    ensures r == old(Occurs(RowsFrom(reader.bytes, reader.position, |schema.columns|), column, target))
  {
    hide *;
    ghost var expected := Occurs(RowsFrom(reader.bytes, reader.position, |schema.columns|), column, target);
    while true
      invariant reader.position <= |reader.bytes|
      invariant expected == Occurs(RowsFrom(reader.bytes, reader.position, |schema.columns|), column, target)
      decreases |reader.bytes| - reader.position
    {
      var position := reader.position;
      var next := ReadNext(reader, schema);
      OccursFirst(reader.bytes, position, |schema.columns|, column, target);
      if !next.Got? {
        return if next.End? then Some(false) else None;
      }
      var value := ReadId(Row(position, next.values), column);
      if value.None? {
        return None;
      }
      if value.value == target {
        return Some(true);
      }
    }
  }

  lemma OccursFirst(bytes: string, position: nat, width: nat, column: nat, target: int)
    requires position <= |bytes|
    ensures Occurs(RowsFrom(bytes, position, width), column, target)
         == if position == |bytes| then Some(false)
            else
              match ReadRow(bytes, position, width)
              case None => None
              case Some(values) =>
                match Id(Row(position, values), column)
                case None => None
                case Some(id) => if id == target then Some(true)
                                 else Occurs(RowsFrom(bytes, position + |Line(bytes, position)|, width), column, target)
  {
    if position < |bytes| && ReadRow(bytes, position, width).Some? {
      var row := Row(position, ReadRow(bytes, position, width).value);
      var rest := RowsFrom(bytes, position + |Line(bytes, position)|, width);
      assert RowsFrom(bytes, position, width).rows == [row] + rest.rows;
      assert ([row] + rest.rows)[1..] == rest.rows;
    }
  }

  // ---------- Showing rows ----------

  /** The selected columns of one row. */
  function Picked(values: seq<string>, selected: seq<nat>): (r: seq<string>)
    ensures |r| == |selected|
  {
    seq(|selected|, i requires 0 <= i < |selected| => if selected[i] < |values| then values[selected[i]] else "")
  }

  function PickedAll(rows: seq<seq<string>>, selected: seq<nat>): seq<seq<string>> {
    if rows == [] then [] else [Picked(rows[0], selected)] + PickedAll(rows[1..], selected)
  }

  method PickColumns(values: seq<string>, selected: seq<nat>) returns (r: seq<string>)
    ensures r == Picked(values, selected)
  {
    r := [];
    for i := 0 to |selected|
      invariant r == Picked(values, selected)[..i]
    {
      r := r + [if selected[i] < |values| then values[selected[i]] else ""];
    }
  }

  /** All rows. */
  method PrintRows(disk: Disk, schema: Schema, selected: seq<nat>) returns (out: Output)
    ensures out == Shown(TableRows(FileOf(disk.files, schema.table), schema), selected)
  {
    if schema.table !in disk.files || disk.files[schema.table] == "" {
      return Output([], true);
    }
    var reader := new Reader(disk.files[schema.table]);
    var ok := ReadHeader(reader, schema);
    if !ok {
      return Output([], false);
    }
    ReadingStarts(reader.bytes, schema);
    assert FileOf(disk.files, schema.table) == Some(reader.bytes);
    out := ShowAll(reader, schema, selected);
  }

  method ShowAll(reader: Reader, schema: Schema, selected: seq<nat>) returns (out: Output)
    requires Reading(reader.bytes, schema, [], reader.position)
    modifies reader
    ensures out == Shown(TableRows(Some(reader.bytes), schema), selected)
  {
    hide *;
    ghost var seen: seq<Row> := [];
    var rows: seq<seq<string>> := [];
    ShownNothing(selected);
    while true
      invariant Reading(reader.bytes, schema, seen, reader.position)
      invariant Output(rows, true) == Shown(Scan(seen, true), selected)
      decreases |reader.bytes| - reader.position
    {
      var position := reader.position;
      var next := ReadNext(reader, schema);
      if !next.Got? {
        ReadingEnds(reader.bytes, schema, seen, position);
        ShownCut(seen, selected);
        return Output(rows, next.End?);
      }
      ReadingContinues(reader.bytes, schema, seen, position);
      ShownMore(seen, Row(position, next.values), selected);
      seen := seen + [Row(position, next.values)];
      var picked := PickColumns(next.values, selected);
      rows := rows + [picked];
    }
  }

  lemma ShownNothing(selected: seq<nat>)
    ensures Shown(Scan([], true), selected) == Output([], true)
  {
  }

  function Shown(scan: Scan, selected: seq<nat>): Output {
    Output(PickedAll(Values(scan.rows), selected), scan.complete)
  }

  lemma ShownCut(rows: seq<Row>, selected: seq<nat>)
    ensures Shown(Scan(rows, false), selected) == Output(Shown(Scan(rows, true), selected).rows, false)
  {
  }

  lemma {:induction false} PickedConcat(a: seq<seq<string>>, b: seq<seq<string>>, selected: seq<nat>)
    ensures PickedAll(a + b, selected) == PickedAll(a, selected) + PickedAll(b, selected)
  {
    if a == [] {
      assert a + b == b;
    } else {
      var rest, c := a[1..], a + b;
      PickedConcat(rest, b, selected);
      assert c[0] == a[0] && c[1..] == rest + b;
      ConcatAssoc([Picked(a[0], selected)], PickedAll(rest, selected), PickedAll(b, selected));
    }
  }

  lemma ShownMore(rows: seq<Row>, row: Row, selected: seq<nat>)
    ensures Shown(Scan(rows + [row], true), selected)
            == Output(Shown(Scan(rows, true), selected).rows + [Picked(row.values, selected)], true)
  {
    ValuesConcat(rows, [row]);
    assert Values([row]) == [row.values] + Values([]) == [row.values];
    PickedConcat(Values(rows), [row.values], selected);
    assert PickedAll([row.values], selected)
           == [Picked(row.values, selected)] + PickedAll([], selected) == [Picked(row.values, selected)];
  }

  /** The rows that meet a condition, by reading the whole table. */
  method PrintRowsWhere(disk: Disk, schema: Schema, selected: seq<nat>, test: Test) returns (out: Output)
    ensures out == Shown(Filtered(TableRows(FileOf(disk.files, schema.table), schema), test), selected)
  {
    if schema.table !in disk.files || disk.files[schema.table] == "" {
      return Output([], true);
    }
    var reader := new Reader(disk.files[schema.table]);
    var ok := ReadHeader(reader, schema);
    if !ok {
      return Output([], false);
    }
    out := ShowFrom(reader, schema, selected, test);
  }

  method ShowFrom(reader: Reader, schema: Schema, selected: seq<nat>, test: Test) returns (out: Output)
    requires reader.position <= |reader.bytes|
    modifies reader
    ensures out == old(Shown(Filtered(RowsFrom(reader.bytes, reader.position, |schema.columns|), test), selected))
  {
    hide *;
    ghost var expected := Shown(Filtered(RowsFrom(reader.bytes, reader.position, |schema.columns|), test), selected);
    var rows: seq<seq<string>> := [];
    AfterNothing(expected.rows, expected.ok);
    while true
      invariant reader.position <= |reader.bytes|
      invariant var rest := RowsFrom(reader.bytes, reader.position, |schema.columns|);
                expected == After(rows, Shown(Filtered(rest, test), selected))
      decreases |reader.bytes| - reader.position
    {
      var position := reader.position;
      var next := ReadNext(reader, schema);
      ShownFirst(reader.bytes, position, |schema.columns|, test, selected);
      if !next.Got? {
        AfterNothing(rows, next.End?);
        return Output(rows, next.End?);
      }
      var meets := if test.column < |next.values|
                   then Matches(test.dataType, next.values[test.column], test.operator, test.literal)
                   else None;
      MeetsValue(Row(position, next.values), test, meets);
      if meets.None? {
        AfterNothing(rows, false);
        return Output(rows, false);
      }
      if !meets.value {
        continue;
      }
      var picked := PickColumns(next.values, selected);
      AfterOne(rows, picked, Shown(Filtered(RowsFrom(reader.bytes, reader.position, |schema.columns|), test),
                                   selected));
      rows := rows + [picked];
    }
  }

  ghost function After(rows: seq<seq<string>>, out: Output): Output {
    Output(rows + out.rows, out.ok)
  }

  lemma MeetsValue(row: Row, test: Test, meets: Option<bool>)
    requires meets == if test.column < |row.values|
                      then Matches(test.dataType, row.values[test.column], test.operator, test.literal)
                      else None
    ensures meets == Meets(row, test)
  {
  }

  lemma AfterNothing(rows: seq<seq<string>>, ok: bool)
    ensures After(rows, Output([], ok)) == Output(rows, ok) && After([], Output(rows, ok)) == Output(rows, ok)
  {
  }

  lemma AfterOne(rows: seq<seq<string>>, row: seq<string>, out: Output)
    ensures After(rows, After([row], out)) == After(rows + [row], out)
  {
    ConcatAssoc(rows, [row], out.rows);
  }

  lemma ShownFirst(bytes: string, position: nat, width: nat, test: Test, selected: seq<nat>)
    requires position <= |bytes|
    ensures Shown(Filtered(RowsFrom(bytes, position, width), test), selected)
         == if position == |bytes| then Output([], true)
            else
              match ReadRow(bytes, position, width)
              case None => Output([], false)
              case Some(values) =>
                var rest := Shown(Filtered(RowsFrom(bytes, position + |Line(bytes, position)|, width), test), selected);
                match Meets(Row(position, values), test)
                case None => Output([], false)
                case Some(meets) => if meets then After([Picked(values, selected)], rest) else rest
  {
    if position < |bytes| && ReadRow(bytes, position, width).Some? {
      var row := Row(position, ReadRow(bytes, position, width).value);
      var rest := RowsFrom(bytes, position + |Line(bytes, position)|, width);
      assert RowsFrom(bytes, position, width) == Scan([row] + rest.rows, rest.complete);
      hide RowsFrom, ReadRow, Meets, Picked;
      FilteredFirst(row, rest, test, selected);
    }
  }

  lemma FilteredFirst(row: Row, rest: Scan, test: Test, selected: seq<nat>)
    ensures Shown(Filtered(Scan([row] + rest.rows, rest.complete), test), selected)
         == match Meets(row, test)
            case None => Output([], false)
            case Some(meets) =>
              var out := Shown(Filtered(rest, test), selected);
              if meets then After([Picked(row.values, selected)], out) else out
  {
    hide Meets, Picked;
    var all := [row] + rest.rows;
    assert all[1..] == rest.rows && all[0] == row;
    var f := Filtered(rest, test);
    if Meets(row, test) == Some(true) {
      var kept := [row] + f.rows;
      assert kept[1..] == f.rows && kept[0] == row;
      assert Values(kept) == [row.values] + Values(f.rows);
      var vs := [row.values] + Values(f.rows);
      assert vs[1..] == Values(f.rows) && vs[0] == row.values;
    } else {
      assert [] + f.rows == f.rows;
    }
  }

  // ---------- Rows at offsets ----------

  /** What is shown for a list of offsets; the file is not opened for an empty list. */
  function ShownAt(file: Option<string>, schema: Schema, offsets: seq<int>, selected: seq<nat>): Output {
    if offsets == [] then Output([], true)
    else if file.None? || !HeaderOk(file.value, schema) then Output([], false)
    else
      var fetched := Fetched(file.value, offsets, |schema.columns|);
      Output(PickedAll(fetched.rows, selected), fetched.ok)
  }

  method OpenTable(disk: Disk, schema: Schema) returns (reader: Reader?)
    ensures reader == null <==>
              FileOf(disk.files, schema.table).None? || !HeaderOk(FileOf(disk.files, schema.table).value, schema)
    ensures reader != null ==> fresh(reader) && FileOf(disk.files, schema.table) == Some(reader.bytes)
  {
    if schema.table !in disk.files || disk.files[schema.table] == "" {
      return null;
    }
    var file := new Reader(disk.files[schema.table]);
    var ok := ReadHeader(file, schema);
    reader := if ok then file else null;
  }

  /** Reads one row at a position found in the index. */
  method ReadRowAt(reader: Reader, schema: Schema, offset: int, selected: seq<nat>) returns (r: Option<seq<string>>)
    modifies reader
    ensures r == if 0 <= offset < |reader.bytes| && ReadRow(reader.bytes, offset, |schema.columns|).Some?
                 then Some(Picked(ReadRow(reader.bytes, offset, |schema.columns|).value, selected)) else None
  {
    if offset < 0 {
      return None;
    }
    reader.Seek(offset);
    var next := ReadNext(reader, schema);
    if !next.Got? {
      return None;
    }
    var picked := PickColumns(next.values, selected);
    r := Some(picked);
  }

  /** A point lookup: nothing to show for a negative offset. */
  method PrintRowAtOffset(disk: Disk, schema: Schema, offset: int, selected: seq<nat>) returns (out: Output)
    ensures out == ShownAt(FileOf(disk.files, schema.table), schema, if offset < 0 then [] else [offset], selected)
  {
    if offset < 0 {
      return Output([], true);
    }
    var reader := OpenTable(disk, schema);
    if reader == null {
      return Output([], false);
    }
    FetchedNext(reader.bytes, [offset], |schema.columns|, selected);
    hide *;
    var row := ReadRowAt(reader, schema, offset, selected);
    out := if row.None? then Output([], false) else Output([row.value], true);
    AfterNothing(out.rows, out.ok);
  }

  method PrintRowsAtOffsets(disk: Disk, schema: Schema, offsets: seq<int>, selected: seq<nat>) returns (out: Output)
    ensures out == ShownAt(FileOf(disk.files, schema.table), schema, offsets, selected)
  {
    if |offsets| == 0 {
      return Output([], true);
    }
    var reader := OpenTable(disk, schema);
    if reader == null {
      return Output([], false);
    }
    out := ShowOffsets(reader, schema, offsets, selected);
  }

  function PickedFrom(bytes: string, offsets: seq<int>, width: nat, selected: seq<nat>): Output {
    var fetched := Fetched(bytes, offsets, width);
    Output(PickedAll(fetched.rows, selected), fetched.ok)
  }

  method ShowOffsets(reader: Reader, schema: Schema, offsets: seq<int>, selected: seq<nat>) returns (out: Output)
    modifies reader
    ensures out == PickedFrom(reader.bytes, offsets, |schema.columns|, selected)
  {
    hide *;
    var rows: seq<seq<string>> := [];
    assert offsets[0..] == offsets;
    ghost var all := PickedFrom(reader.bytes, offsets, |schema.columns|, selected);
    AfterNothing(all.rows, all.ok);
    for i := 0 to |offsets|
      invariant all == After(rows, PickedFrom(reader.bytes, offsets[i..], |schema.columns|, selected))
    {
      FetchedNext(reader.bytes, offsets[i..], |schema.columns|, selected);
      assert offsets[i..][1..] == offsets[i + 1..];
      var row := ReadRowAt(reader, schema, offsets[i], selected);
      if row.None? {
        AfterNothing(rows, false);
        return Output(rows, false);
      }
      AfterOne(rows, row.value, PickedFrom(reader.bytes, offsets[i + 1..], |schema.columns|, selected));
      rows := rows + [row.value];
    }
    NothingFetched(reader.bytes, |schema.columns|, selected);
    AfterNothing(rows, true);
    out := Output(rows, true);
  }

  lemma NothingFetched(bytes: string, width: nat, selected: seq<nat>)
    ensures PickedFrom(bytes, [], width, selected) == Output([], true)
  {
  }

  lemma FetchedNext(bytes: string, offsets: seq<int>, width: nat, selected: seq<nat>)
    requires offsets != []
    ensures PickedFrom(bytes, offsets, width, selected)
         == if 0 <= offsets[0] < |bytes| && ReadRow(bytes, offsets[0], width).Some?
            then After([Picked(ReadRow(bytes, offsets[0], width).value, selected)],
                       PickedFrom(bytes, offsets[1..], width, selected))
            else Output([], false)
  {
    hide ReadRow, Picked;
    if 0 <= offsets[0] < |bytes| && ReadRow(bytes, offsets[0], width).Some? {
      var v, rest := ReadRow(bytes, offsets[0], width).value, Fetched(bytes, offsets[1..], width).rows;
      assert ([v] + rest)[1..] == rest;
    }
  }
}
