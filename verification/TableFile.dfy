/** A table file as a byte sequence: lines as fgets cuts them, rows and their offsets,
    and what appending does to them. */
module TableFile {
  import opened Wrappers
  import opened Limits
  import opened Schemas
  import Csv

  /** A row and the byte offset where its line starts. */
  datatype Row = Row(offset: nat, values: seq<string>)

  /** The rows read in order until the end of the file or the first unreadable line. */
  datatype Scan = Scan(rows: seq<Row>, complete: bool)

  const LINE_LIMIT: nat := MAX_ROW_LEN - 1

  // ---------- Lines ----------

  /** How many bytes fgets takes at `pos`: up to a newline, the limit or the end. */
  function LineLength(file: string, pos: nat, limit: nat): (n: nat)
    requires pos <= |file|
    ensures n <= limit && pos + n <= |file|
    ensures n == 0 ==> limit == 0 || pos == |file|
    ensures forall i | pos <= i < pos + n - 1 :: file[i] != '\n'
    ensures n == limit || pos + n == |file| || (n > 0 && file[pos + n - 1] == '\n')
    decreases limit
  {
    if limit == 0 || pos == |file| then 0
    else if file[pos] == '\n' then 1
    else 1 + LineLength(file, pos + 1, limit - 1)
  }

  /** One read with the line buffer. */
  function Line(file: string, pos: nat): (line: string)
    requires pos < |file|
    ensures 0 < |line| <= LINE_LIMIT && pos + |line| <= |file|
    ensures line == file[pos..pos + |line|]
  {
    var n := LineLength(file, pos, LINE_LIMIT);
    file[pos..pos + n]
  }

  lemma {:induction false} LengthIs(file: string, pos: nat, limit: nat, n: nat)
    requires 0 < n <= limit && pos + n <= |file|
    requires forall i | pos <= i < pos + n - 1 :: file[i] != '\n'
    requires n == limit || pos + n == |file| || file[pos + n - 1] == '\n'
    ensures LineLength(file, pos, limit) == n
    decreases limit
  {
    if n > 1 {
      LengthIs(file, pos + 1, limit - 1, n - 1);
    }
  }

  /** The buffer is full and the line has not ended: it is cut. Reading exactly up to the
      end of the file also counts, since the end has then not been noticed. */
  predicate TooLong(line: string) {
    |line| == LINE_LIMIT && '\0' !in line && line[|line| - 1] != '\n'
  }

  // ---------- Rows ----------

  function ReadRow(file: string, pos: nat, width: nat): Option<seq<string>>
    requires pos < |file|
  {
    var line := Line(file, pos);
    if TooLong(line) then None
    else
      match Csv.Parse(line)
      case None => None
      case Some(values) => if |values| == width then Some(values) else None
  }

  function RowsFrom(file: string, pos: nat, width: nat): Scan
    requires pos <= |file|
    decreases |file| - pos
  {
    if pos == |file| then Scan([], true)
    else
      match ReadRow(file, pos, width)
      case None => Scan([], false)
      case Some(values) =>
        var rest := RowsFrom(file, pos + |Line(file, pos)|, width);
        Scan([Row(pos, values)] + rest.rows, rest.complete)
  }

  predicate HeaderOk(file: string, schema: Schema) {
    |file| > 0 && !TooLong(Line(file, 0)) && Csv.Parse(Line(file, 0)) == Some(Names(schema))
  }

  /** The rows of a table. A missing or empty file has none. */
  function TableRows(file: Option<string>, schema: Schema): Scan {
    if file.None? || file.value == "" then Scan([], true)
    else if !HeaderOk(file.value, schema) then Scan([], false)
    else RowsFrom(file.value, |Line(file.value, 0)|, |schema.columns|)
  }

  // ---------- Appending ----------

  function Joined(names: seq<string>): string {
    if names == [] then "" else if |names| == 1 then names[0] else names[0] + "," + Joined(names[1..])
  }

  function HeaderText(schema: Schema): string {
    Joined(Names(schema)) + "\n"
  }

  /** The end of the file after the missing final newline, if any, was supplied. */
  function Repaired(file: string): string {
    if |file| > 0 && file[|file| - 1] != '\n' then file + "\n" else file
  }

  /** The file and the offset of the new row. */
  function Appended(file: Option<string>, schema: Schema, values: seq<string>): Option<(string, nat)> {
    if file.Some? && !HeaderOk(file.value, schema) then None
    else
      var start := Repaired(if file.None? then HeaderText(schema) else file.value);
      Some((start + Csv.Row(values), |start|))
  }

  /** A line that fills the buffer, ends with the file and has no newline. The one that an
      append supplies falls outside of it. */
  predicate CutAt(file: string, pos: nat)
    requires pos < |file|
  {
    pos + LINE_LIMIT == |file| == pos + |Line(file, pos)| && file[|file| - 1] != '\n'
  }

  /** The header or a row of the table is such a line. The length check refuses one unless
      it holds a NUL, up to which it measures. */
  ghost predicate HasCutLine(file: string, schema: Schema) {
    && HeaderOk(file, schema)
    && (CutAt(file, 0)
        || exists r | r in TableRows(Some(file), schema).rows :: r.offset < |file| && CutAt(file, r.offset))
  }

  lemma EndedIsUncut(file: string, schema: Schema)
    requires file != "" && file[|file| - 1] == '\n'
    ensures !HasCutLine(file, schema)
  {
  }

  /** A read that starts inside the old bytes takes the same line as before, or the same
      line with the newline it was missing. */
  ghost predicate SameLine(file: string, all: string, pos: nat)
    requires pos < |file| <= |all|
  {
    var a, b := Line(file, pos), Line(all, pos);
    || (b == a && (pos + |a| == |file| && !CutAt(file, pos) ==> Repaired(file) == file))
    || (b == a + "\n" && pos + |a| == |file| && |Repaired(file)| == |file| + 1 && |a| < LINE_LIMIT)
  }

  lemma RepairedIs(file: string, tail: string)
    requires file != ""
    ensures var all := Repaired(file) + tail;
            && |file| <= |Repaired(file)| <= |all| && all[..|file|] == file && all[..|Repaired(file)|] == Repaired(file)
            && (file[|file| - 1] == '\n' ==> Repaired(file) == file)
            && (file[|file| - 1] != '\n' ==> |Repaired(file)| == |file| + 1 && all[|file|] == '\n')
  {
  }

  /** A line that was ended, or cut by the buffer, is the same in a longer file. */
  lemma EndedLine(file: string, all: string, pos: nat, n: nat)
    requires pos < |file| <= |all| && all[..|file|] == file
    requires n == LineLength(file, pos, LINE_LIMIT) > 0 && (n == LINE_LIMIT || file[pos + n - 1] == '\n')
    ensures Line(all, pos) == Line(file, pos)
  {
    assert forall i | 0 <= i < |file| :: all[i] == file[i];
    LengthIs(all, pos, LINE_LIMIT, n);
    assert all[pos..pos + n] == file[pos..pos + n];
  }

  /** A line that the end of the file cut short gets its newline. */
  lemma UnendedLine(file: string, all: string, pos: nat, n: nat)
    requires pos < |file| < |all| && all[..|file|] == file && all[|file|] == '\n'
    requires n == LineLength(file, pos, LINE_LIMIT) && 0 < n < LINE_LIMIT && file[pos + n - 1] != '\n'
    ensures pos + n == |file| && Line(all, pos) == Line(file, pos) + "\n"
  {
    assert forall i | 0 <= i < |file| :: all[i] == file[i];
    LengthIs(all, pos, LINE_LIMIT, n + 1);
    assert all[pos..pos + n + 1] == file[pos..pos + n] + "\n";
  }

  lemma {:induction false} LineKept(file: string, tail: string, pos: nat)
    requires pos < |file|
    ensures SameLine(file, Repaired(file) + tail, pos)
  {
    var n := LineLength(file, pos, LINE_LIMIT);
    var all := Repaired(file) + tail;
    assert |Line(file, pos)| == n && Line(file, pos) == file[pos..pos + n];
    hide Repaired, LineLength, Line;
    RepairedIs(file, tail);
    if n == LINE_LIMIT || file[pos + n - 1] == '\n' {
      EndedLine(file, all, pos, n);
    } else {
      UnendedLine(file, all, pos, n);
    }
  }

  /** Whatever is appended, a row read at any old offset stays what it was. */
  lemma {:induction false} RowKept(file: string, tail: string, pos: nat, width: nat)
    requires pos < |file|
    ensures ReadRow(Repaired(file) + tail, pos, width) == ReadRow(file, pos, width)
  {
    LineKept(file, tail, pos);
    var a := Line(file, pos);
    Csv.NewlineIgnored(a, false, [], "");
  }

  /** The line at the end of the file is the row just written. */
  lemma {:induction false} NewRowLine(start: string, values: seq<string>)
    requires Csv.Storable(values)
    ensures |start| < |start + Csv.Row(values)| && Line(start + Csv.Row(values), |start|) == Csv.Row(values)
    ensures !TooLong(Csv.Row(values))
  {
    var row := Csv.Row(values);
    var all := start + row;
    Csv.RowIsOneLine(values);
    Csv.RowFits(values);
    hide *;
    var n := |row|;
    forall i | |start| <= i < |all| - 1
      ensures all[i] != '\n'
    {
      assert all[i] == row[..n - 1][i - |start|];
      assert Csv.Clean(row[..n - 1]);
      CleanAt(row[..n - 1], i - |start|);
    }
    assert all[|all| - 1] == '\n';
    LengthIs(all, |start|, LINE_LIMIT, n);
    LineTaken(all, |start|, n);
    assert all[|start|..|start| + n] == row;
    NotTooLong(row);
  }

  lemma CleanAt(text: string, i: nat)
    requires Csv.Clean(text) && i < |text|
    ensures text[i] != '\n'
  {
  }

  lemma LineTaken(file: string, pos: nat, n: nat)
    requires pos < |file| && LineLength(file, pos, LINE_LIMIT) == n
    ensures pos + n <= |file| && Line(file, pos) == file[pos..pos + n]
  {
  }

  lemma NotTooLong(line: string)
    requires line != "" && line[|line| - 1] == '\n'
    ensures !TooLong(line)
  {
  }

  lemma {:induction false} NewRowRead(start: string, values: seq<string>)
    requires Csv.Storable(values)
    ensures var all := start + Csv.Row(values);
            && ReadRow(all, |start|, |values|) == Some(values)
            && RowsFrom(all, |start|, |values|) == Scan([Row(|start|, values)], true)
  {
    var all := start + Csv.Row(values);
    NewRowLine(start, values);
    Csv.RoundTrip(values);
    assert ReadRow(all, |start|, |values|) == Some(values);
    assert |start| + |Line(all, |start|)| == |all|;
    assert RowsFrom(all, |all|, |values|) == Scan([], true);
  }

  function AndRow(scan: Scan, row: Row): Scan {
    if scan.complete then Scan(scan.rows + [row], true) else scan
  }

  /** A scan and then another from where it ended. */
  ghost function Then(first: Scan, second: Scan): Scan {
    if first.complete then Scan(first.rows + second.rows, second.complete) else first
  }

  lemma ThenAfter(row: Row, rest: Scan, second: Scan)
    ensures Then(Scan([row] + rest.rows, rest.complete), second)
            == Scan([row] + Then(rest, second).rows, Then(rest, second).complete)
  {
    assert [row] + (rest.rows + second.rows) == [row] + rest.rows + second.rows;
  }

  /** Some row read from `pos` on is cut by the end of the file. */
  ghost predicate CutFrom(file: string, pos: nat, width: nat)
    requires pos <= |file|
    decreases |file| - pos
  {
    && pos < |file| && ReadRow(file, pos, width).Some?
    && (CutAt(file, pos) || CutFrom(file, pos + |Line(file, pos)|, width))
  }

  lemma {:induction false} CutFromIs(file: string, pos: nat, width: nat)
    requires pos <= |file|
    ensures CutFrom(file, pos, width) <==>
              exists r | r in RowsFrom(file, pos, width).rows :: r.offset < |file| && CutAt(file, r.offset)
    ensures CutFrom(file, pos, width) ==> RowsFrom(file, pos, width).complete
    decreases |file| - pos
  {
    hide CutAt, ReadRow;
    if pos < |file| && ReadRow(file, pos, width).Some? {
      var next := pos + |Line(file, pos)|;
      CutFromIs(file, next, width);
      var rows, rest := RowsFrom(file, pos, width).rows, RowsFrom(file, next, width).rows;
      assert rows == [Row(pos, ReadRow(file, pos, width).value)] + rest;
      hide RowsFrom;
      assert rows[0] in rows && forall r | r in rest :: r in rows;
      if CutAt(file, pos) {
        CutEndsFile(file, pos, width);
      }
    }
  }

  lemma CutEndsFile(file: string, pos: nat, width: nat)
    requires pos < |file| && CutAt(file, pos)
    ensures pos + |Line(file, pos)| == |file| && RowsFrom(file, |file|, width) == Scan([], true)
  {
  }

  /** Where the line after the last old one starts: behind the newline that was supplied,
      unless that newline became a line of its own. */
  ghost function Continuation(file: string, cut: bool): nat {
    if cut then |file| else |Repaired(file)|
  }

  /** Reading at `pos` gives the same row in both files, and the next line starts at the
      same place, or both at the end of the old bytes. */
  ghost predicate Kept(file: string, all: string, pos: nat, width: nat)
    requires pos < |file| <= |all|
  {
    var m, n := pos + |Line(file, pos)|, pos + |Line(all, pos)|;
    && ReadRow(all, pos, width) == ReadRow(file, pos, width)
    && n == if m < |file| then m else Continuation(file, CutAt(file, pos))
  }

  lemma EverythingKept(file: string, tail: string, pos: nat, width: nat)
    requires pos < |file|
    ensures Kept(file, Repaired(file) + tail, pos, width)
  {
    RowKept(file, tail, pos, width);
    LineKept(file, tail, pos);
  }

  lemma RowsStep(file: string, all: string, pos: nat, width: nat, more: Scan)
    requires pos < |file| <= |all| && ReadRow(all, pos, width) == ReadRow(file, pos, width)
    requires ReadRow(file, pos, width).Some? ==>
               RowsFrom(all, pos + |Line(all, pos)|, width)
               == Then(RowsFrom(file, pos + |Line(file, pos)|, width), more)
    ensures RowsFrom(all, pos, width) == Then(RowsFrom(file, pos, width), more)
  {
    var r := ReadRow(file, pos, width);
    if r.Some? {
      ThenAfter(Row(pos, r.value), RowsFrom(file, pos + |Line(file, pos)|, width), more);
    }
  }

  /** Reading on from the same place in the longer file. */
  lemma {:induction false} RowsKept(file: string, all: string, pos: nat, width: nat, start: nat)
    requires pos < |file| <= start <= |all| && start == Continuation(file, CutFrom(file, pos, width))
    requires forall p: nat | p < |file| :: Kept(file, all, p, width)
    ensures RowsFrom(all, pos, width) == Then(RowsFrom(file, pos, width), RowsFrom(all, start, width))
    decreases |file| - pos
  {
    hide *;
    KeptMeans(file, all, pos, width);
    NoRowsLeft(file, width, RowsFrom(all, start, width));
    var m := pos + |Line(file, pos)|;
    if m < |file| && ReadRow(file, pos, width).Some? {
      RowsKept(file, all, m, width, start);
    }
    RowsStep(file, all, pos, width, RowsFrom(all, start, width));
  }

  lemma NoRowsLeft(file: string, width: nat, more: Scan)
    ensures Then(RowsFrom(file, |file|, width), more) == more
  {
    assert [] + more.rows == more.rows;
  }

  lemma KeptMeans(file: string, all: string, pos: nat, width: nat)
    requires pos < |file| <= |all| && Kept(file, all, pos, width)
    ensures ReadRow(all, pos, width) == ReadRow(file, pos, width)
    ensures var m, n := pos + |Line(file, pos)|, pos + |Line(all, pos)|;
            ReadRow(file, pos, width).Some? ==>
              if m < |file| then n == m && CutFrom(file, pos, width) == CutFrom(file, m, width)
              else m == |file| && n == Continuation(file, CutFrom(file, pos, width))
  {
  }

  /** What comes after the old lines: the new row alone, or the newline and then the row. */
  lemma {:induction false} AfterOldLines(file: string, values: seq<string>)
    requires file != "" && Csv.Storable(values)
    ensures var all, row := Repaired(file) + Csv.Row(values), Row(|Repaired(file)|, values);
            && RowsFrom(all, |Repaired(file)|, |values|) == Scan([row], true)
            && (file[|file| - 1] != '\n' ==>
                  RowsFrom(all, |file|, |values|)
                  == if |values| == 1 then Scan([Row(|file|, [""]), row], true) else Scan([], false))
  {
    var all, row := Repaired(file) + Csv.Row(values), Row(|Repaired(file)|, values);
    NewRowRead(Repaired(file), values);
    if file[|file| - 1] != '\n' {
      assert all[|file|] == '\n';
      LengthIs(all, |file|, LINE_LIMIT, 1);
      assert Line(all, |file|) == "\n";
      hide Csv.Row, Csv.Storable;
      EmptyLine();
      assert [Row(|file|, [""])] + [row] == [Row(|file|, [""]), row];
    }
  }

  lemma EmptyLine()
    ensures Csv.Parse("\n") == Some([""]) && !TooLong("\n")
  {
    assert Csv.Scan("\n", false, [], "") == Some([] + [""]);
    assert [] + [""] == [""];
  }

  /** What appending a row to a file with a good header makes of the table: exactly that row
      is added at the end, at the offset reported, and a table that cannot be read to its end
      stays so. But the newline supplied after a cut line is read as a line of its own: as a
      row of one empty value, if that is a row of the table, and else as an unreadable one. */
  ghost function Grown(scan: Scan, row: Row, file: string, cut: bool): Scan {
    if !cut then AndRow(scan, row)
    else if |row.values| == 1 then Scan(scan.rows + [Row(|file|, [""]), row], true)
    else Scan(scan.rows, false)
  }

  lemma {:induction false} AppendToFile(file: string, schema: Schema, values: seq<string>)
    requires HeaderOk(file, schema) && Csv.Storable(values) && |values| == |schema.columns|
    ensures var all, row := Repaired(file) + Csv.Row(values), Row(|Repaired(file)|, values);
            && HeaderOk(all, schema)
            && TableRows(Some(all), schema) == Grown(TableRows(Some(file), schema), row, file, HasCutLine(file, schema))
            && (HasCutLine(file, schema) ==> TableRows(Some(file), schema).complete)
  {
    var width, row, cut := |values|, Row(|Repaired(file)|, values), HasCutLine(file, schema);
    var all, start := Repaired(file) + Csv.Row(values), Continuation(file, cut);
    hide *;
    HeaderKept(file, schema, Csv.Row(values));
    forall p: nat | p < |file|
      ensures Kept(file, all, p, width)
    {
      EverythingKept(file, Csv.Row(values), p, width);
    }
    AfterOldLines(file, values);
    ContinuationIs(file, schema, Csv.Row(values));
    var m := |Line(file, 0)|;
    if m < |file| {
      RowsKept(file, all, m, width, start);
    } else {
      NoRowsLeft(file, width, RowsFrom(all, start, width));
    }
    GrownIs(TableRows(Some(file), schema), row, file, cut, RowsFrom(all, start, width));
  }

  lemma HeaderKept(file: string, schema: Schema, tail: string)
    requires HeaderOk(file, schema)
    ensures file != "" && HeaderOk(Repaired(file) + tail, schema)
    ensures TableRows(Some(file), schema) == RowsFrom(file, |Line(file, 0)|, |schema.columns|)
    ensures var all := Repaired(file) + tail;
            TableRows(Some(all), schema) == RowsFrom(all, |Line(all, 0)|, |schema.columns|)
  {
    LineKept(file, tail, 0);
    Csv.NewlineIgnored(Line(file, 0), false, [], "");
    hide RowsFrom, Line, Names, TooLong;
  }

  lemma ContinuationIs(file: string, schema: Schema, tail: string)
    requires HeaderOk(file, schema)
    ensures var all, m, cut := Repaired(file) + tail, |Line(file, 0)|, HasCutLine(file, schema);
            && |file| <= Continuation(file, cut) <= |all|
            && (m < |file| ==> cut == CutFrom(file, m, |schema.columns|) && |Line(all, 0)| == m)
            && (m == |file| ==> |Line(all, 0)| == Continuation(file, cut))
            && (cut ==> file[|file| - 1] != '\n' && TableRows(Some(file), schema).complete)
  {
    var m := |Line(file, 0)|;
    LineKept(file, tail, 0);
    CutFromIs(file, m, |schema.columns|);
    assert TableRows(Some(file), schema) == RowsFrom(file, m, |schema.columns|);
    assert m == |file| ==> RowsFrom(file, m, |schema.columns|) == Scan([], true);
    hide RowsFrom, Line, HeaderOk, TableRows;
  }

  lemma GrownIs(scan: Scan, row: Row, file: string, cut: bool, more: Scan)
    requires cut ==> scan.complete
    requires more == if !cut then Scan([row], true)
                     else if |row.values| == 1 then Scan([Row(|file|, [""]), row], true)
                     else Scan([], false)
    ensures Grown(scan, row, file, cut) == Then(scan, more)
  {
    assert scan.rows + [] == scan.rows;
  }

  /** An append adds its row to the table exactly when no line of the table is cut. */
  lemma GrownExactly(scan: Scan, row: Row, file: string, cut: bool)
    requires cut ==> scan.complete
    ensures Grown(scan, row, file, cut) == AndRow(scan, row) <==> !cut
  {
    if cut {
      assert |(scan.rows + [Row(|file|, [""]), row])| == |scan.rows| + 2;
    }
  }

  /** A one-column table whose last line is cut: a "1", a NUL and whatever fills the buffer. */
  ghost function FullLastLine(filling: string): string {
    "id\n" + ("1\0" + filling)
  }

  /** It is read as one row, and after an append as three. */
  lemma {:induction false} CutLineBecomesTwo(filling: string, id: string)
    requires |filling| == LINE_LIMIT - 2 && Csv.Clean(filling) && Csv.Storable([id])
    ensures var file, schema := FullLastLine(filling), Schema("t", [Column("id", IntType)], Some(0));
            && WellFormed(schema) && HasCutLine(file, schema)
            && TableRows(Some(file), schema) == Scan([Row(3, ["1"])], true)
            && Appended(Some(file), schema, [id]).Some?
            && TableRows(Some(Appended(Some(file), schema, [id]).value.0), schema)
               == Scan([Row(3, ["1"]), Row(|file|, [""]), Row(|file| + 1, [id])], true)
  {
    var file, schema := FullLastLine(filling), Schema("t", [Column("id", IntType)], Some(0));
    LinesOfFullLastLine(filling);
    IdSchema(schema);
    assert TableRows(Some(file), schema) == Scan([Row(3, ["1"])], true) by {
      assert RowsFrom(file, |file|, 1) == Scan([], true);
      assert [Row(3, ["1"])] + [] == [Row(3, ["1"])];
    }
    assert HasCutLine(file, schema) by {
      assert Row(3, ["1"]) in TableRows(Some(file), schema).rows;
    }
    assert Appended(Some(file), schema, [id]) == Some((Repaired(file) + Csv.Row([id]), |Repaired(file)|));
    assert |Repaired(file)| == |file| + 1;
    hide *;
    AppendToFile(file, schema, [id]);
    GrownByTwo(Row(3, ["1"]), Row(|file|, [""]), Row(|file| + 1, [id]), file);
  }

  lemma GrownByTwo(first: Row, second: Row, third: Row, file: string)
    requires second == Row(|file|, [""]) && |third.values| == 1
    ensures Grown(Scan([first], true), third, file, true) == Scan([first, second, third], true)
  {
  }

  lemma IdSchema(schema: Schema)
    requires schema == Schema("t", [Column("id", IntType)], Some(0))
    ensures WellFormed(schema) && Names(schema) == ["id"] && |schema.columns| == 1
  {
  }

  lemma {:induction false} LinesOfFullLastLine(filling: string)
    requires |filling| == LINE_LIMIT - 2 && Csv.Clean(filling)
    ensures var file := FullLastLine(filling);
            && |file| == 3 + LINE_LIMIT && file[|file| - 1] != '\n'
            && Line(file, 0) == "id\n" && !TooLong("id\n") && Csv.Parse("id\n") == Some(["id"])
            && |Line(file, 3)| == LINE_LIMIT && CutAt(file, 3) && ReadRow(file, 3, 1) == Some(["1"])
  {
    var file, line := FullLastLine(filling), "1\0" + filling;
    assert line[|line| - 1] == filling[|filling| - 1] != '\n';
    assert file == "id\n" + line && line[1] == '\0';
    IdLine();
    CleanAtAll(filling);
    LinesAre("id\n", line);
    hide LineLength, Line, Csv.Clean, Csv.Parse;
    assert Csv.Parse(line) == Some(["1"]) by {
      assert Csv.Clean("1") && !Csv.NeedsQuote("1");
      ReadUpToNul("1", line, filling);
    }
  }

  lemma CleanAtAll(text: string)
    requires Csv.Clean(text)
    ensures '\n' !in text
  {
  }

  /** Of two lines the first is ended by its newline and the second by the buffer. */
  lemma {:induction false} LinesAre(first: string, second: string)
    requires first != "" && |first| < LINE_LIMIT && first[|first| - 1] == '\n' && '\n' !in first[..|first| - 1]
    requires |second| == LINE_LIMIT && '\n' !in second
    ensures Line(first + second, 0) == first && Line(first + second, |first|) == second
  {
    var file, n := first + second, |first|;
    assert forall i | 0 <= i < n - 1 :: file[i] == first[..n - 1][i];
    LengthIs(file, 0, LINE_LIMIT, n);
    assert forall i | n <= i < |file| :: file[i] == second[i - n];
    LengthIs(file, n, LINE_LIMIT, LINE_LIMIT);
    assert file[0..n] == first && file[n..n + LINE_LIMIT] == second;
  }

  lemma IdLine()
    ensures Csv.Parse("id\n") == Some(["id"]) && !TooLong("id\n")
  {
    Csv.RoundTrip(["id"]);
    assert Csv.Row(["id"]) == "id\n";
  }

  /** A line is read up to its first NUL. */
  lemma {:induction false} ReadUpToNul(v: string, line: string, rest: string)
    requires Csv.Clean(v) && !Csv.NeedsQuote(v) && |v| <= MAX_TEXT_LEN && line == v + "\0" + rest
    ensures Csv.Parse(line) == Some([v])
  {
    var tail := "\0" + rest;
    assert line == v + tail && "" + v == v;
    Csv.ScanPlain(v, tail, [], "");
    assert [] + [v] == [v];
  }

  // ---------- New files ----------

  lemma {:induction false} PlainFields(names: seq<string>)
    requires forall n | n in names :: PlainName(n)
    ensures Joined(names) == Csv.Fields(names)
  {
    if names != [] {
      assert PlainName(names[0]);
      PlainFields(names[1..]);
    }
  }

  /** Of a well-formed schema the header is written as a row would be. */
  lemma HeaderIsRow(schema: Schema)
    requires WellFormed(schema)
    ensures HeaderText(schema) == Csv.Row(Names(schema)) && Csv.Storable(Names(schema))
  {
    var names := Names(schema);
    forall n | n in names
      ensures PlainName(n)
    {
      var i :| 0 <= i < |names| && names[i] == n;
      assert schema.columns[i] in schema.columns;
    }
    PlainFields(names);
  }

  lemma {:induction false} JoinedQuotes(names: seq<string>)
    ensures Csv.Quotes(Joined(names)) == Csv.QuotesIn(names)
  {
    if |names| == 1 {
      assert names[1..] == [];
    } else if names != [] {
      Csv.QuotesConcat(names[0], ",");
      Csv.QuotesConcat(names[0] + ",", Joined(names[1..]));
      JoinedQuotes(names[1..]);
    }
  }

  lemma {:induction false} JoinedLength(names: seq<string>)
    requires forall n | n in names :: |n| <= MAX_TEXT_LEN && '\n' !in n
    ensures |Joined(names)| <= |names| * (MAX_TEXT_LEN + 1) && '\n' !in Joined(names)
  {
    if |names| > 1 {
      JoinedLength(names[1..]);
      assert |names| * (MAX_TEXT_LEN + 1) == MAX_TEXT_LEN + 1 + |names[1..]| * (MAX_TEXT_LEN + 1);
    }
  }

  /** Of the schemas that the loader delivers, those whose header is accepted after it was
      written are the ones without a quote in a column name. */
  lemma {:induction false} HeaderIsReadExactly(schema: Schema)
    requires FromLoader(schema)
    ensures HeaderOk(HeaderText(schema), schema) <==> forall c | c in schema.columns :: '"' !in c.name
  {
    var names, file := Names(schema), HeaderText(schema);
    WellFormedExactly(schema);
    if WellFormed(schema) {
      NewFile(schema);
    } else {
      var k: nat :| k < |schema.columns| && '"' in schema.columns[k].name;
      assert names[k] in names && '"' in names[k];
      hide *;
      Csv.NoQuotesIn(names);
      JoinedQuotes(names);
      HeaderLine(schema);
      HeaderQuotes(schema);
    }
  }

  /** The header of a table with one such column is written and then refused. */
  lemma QuotedNameIsRefused()
    ensures var schema := Schema("t", [Column("a\"b", StringType)], None);
            FromLoader(schema) && !HeaderOk(HeaderText(schema), schema)
  {
    var schema := Schema("t", [Column("a\"b", StringType)], None);
    assert schema.columns[0].name[1] == '"';
    HeaderIsReadExactly(schema);
  }

  lemma HeaderLine(schema: Schema)
    requires FromLoader(schema)
    ensures HeaderText(schema) != "" && Line(HeaderText(schema), 0) == HeaderText(schema)
  {
    var names, file := Names(schema), HeaderText(schema);
    forall n | n in names
      ensures |n| <= MAX_TEXT_LEN && '\n' !in n
    {
      var i :| 0 <= i < |names| && names[i] == n;
      assert schema.columns[i] in schema.columns;
    }
    JoinedLength(names);
    assert forall i | 0 <= i < |file| - 1 :: file[i] == Joined(names)[i];
    LengthIs(file, 0, LINE_LIMIT, |file|);
  }

  lemma {:induction false} HeaderQuotes(schema: Schema)
    requires HeaderText(schema) != "" && Line(HeaderText(schema), 0) == HeaderText(schema)
    requires Csv.Quotes(Joined(Names(schema))) == Csv.QuotesIn(Names(schema)) > 0
    ensures !HeaderOk(HeaderText(schema), schema)
  {
    Csv.QuotesConcat(Joined(Names(schema)), "\n");
    assert Csv.Quotes("\n") == 0 && Csv.Quotes("") == 0 && Csv.QuotesIn([]) == 0;
    Csv.ScanQuotes(HeaderText(schema), false, [], "");
    hide Csv.Scan, Csv.Quotes, Csv.QuotesIn, Line, Joined;
  }

  /** A table that was just created has a good header and no rows. */
  lemma {:induction false} NewFile(schema: Schema)
    requires WellFormed(schema)
    ensures var file := HeaderText(schema);
            && HeaderOk(file, schema) && !HasCutLine(file, schema) && Repaired(file) == file
            && TableRows(Some(file), schema) == Scan([], true)
  {
    var names, file := Names(schema), HeaderText(schema);
    HeaderIsRow(schema);
    NewRowLine("", names);
    assert "" + Csv.Row(names) == Csv.Row(names);
    Csv.RoundTrip(names);
    Csv.RowIsOneLine(names);
    EndedIsUncut(file, schema);
  }

  // ---------- Rows and their offsets ----------

  ghost predicate Ascending(rows: seq<Row>) {
    forall i, j | 0 <= i < j < |rows| :: rows[i].offset < rows[j].offset
  }

  /** The rows stand in the file at their offsets, from `pos` on. */
  ghost predicate Standing(rows: seq<Row>, file: string, pos: nat, width: nat) {
    && Ascending(rows)
    && forall r | r in rows :: pos <= r.offset < |file| && ReadRow(file, r.offset, width) == Some(r.values)
  }

  lemma StandingBefore(rows: seq<Row>, file: string, pos: nat, next: nat, width: nat)
    requires pos < next && pos < |file| && Standing(rows, file, next, width) && ReadRow(file, pos, width).Some?
    ensures Standing([Row(pos, ReadRow(file, pos, width).value)] + rows, file, pos, width)
  {
    hide ReadRow;
    assert forall i | 0 <= i < |rows| :: rows[i] in rows;
  }

  /** Seeking to the offset of any row and reading there gives that row again. */
  lemma {:induction false} RowsAreAtTheirOffsets(file: string, pos: nat, width: nat)
    requires pos <= |file|
    ensures Standing(RowsFrom(file, pos, width).rows, file, pos, width)
    decreases |file| - pos
  {
    if pos < |file| && ReadRow(file, pos, width).Some? {
      var next := pos + |Line(file, pos)|;
      var rest := RowsFrom(file, next, width).rows;
      assert RowsFrom(file, pos, width).rows == [Row(pos, ReadRow(file, pos, width).value)] + rest;
      hide *;
      RowsAreAtTheirOffsets(file, next, width);
      StandingBefore(rest, file, pos, next, width);
    }
  }

  /** No part of a line is ever taken for a row: in a file without NULs every row starts where a line
      starts. */
  lemma {:induction false} RowsAreWholeLines(file: string, schema: Schema)
    requires '\0' !in file
    ensures forall r | r in TableRows(Some(file), schema).rows :: 0 < r.offset < |file| && file[r.offset - 1] == '\n'
  {
    if file != "" && HeaderOk(file, schema) {
      AcceptedLineEnds(file, 0);
      LinesFrom(file, |Line(file, 0)|, |schema.columns|);
    }
  }

  /** A line that is not too long reaches its newline or the end of the file. */
  lemma AcceptedLineEnds(file: string, pos: nat)
    requires pos < |file| && '\0' !in file && !TooLong(Line(file, pos))
    ensures var next := pos + |Line(file, pos)|; next == |file| || file[next - 1] == '\n'
  {
    var line := Line(file, pos);
    if |line| == LINE_LIMIT {
      assert line[|line| - 1] == '\n';
    }
  }

  lemma {:induction false} LinesFrom(file: string, pos: nat, width: nat)
    requires 0 < pos <= |file| && '\0' !in file && (pos == |file| || file[pos - 1] == '\n')
    ensures forall r | r in RowsFrom(file, pos, width).rows :: pos <= r.offset < |file| && file[r.offset - 1] == '\n'
    decreases |file| - pos
  {
    if pos < |file| && ReadRow(file, pos, width).Some? {
      AcceptedLineEnds(file, pos);
      hide TooLong, ReadRow;
      LinesFrom(file, pos + |Line(file, pos)|, width);
    }
  }

  lemma TableRowsAreAtTheirOffsets(file: string, schema: Schema)
    ensures var rows := TableRows(Some(file), schema).rows;
            && Ascending(rows)
            && (rows != [] ==> file != "" && HeaderOk(file, schema))
            && forall r | r in rows :: r.offset < |file| && ReadRow(file, r.offset, |schema.columns|) == Some(r.values)
  {
    if file != "" && HeaderOk(file, schema) {
      RowsAreAtTheirOffsets(file, |Line(file, 0)|, |schema.columns|);
    }
  }

  /** Appending: the old bytes stay as a prefix and every row that could be read at an old
      offset stays what it was. Exactly one row is added to the table, at the offset reported,
      unless a line of the table was cut, and then it never is. It is refused exactly for a
      file whose header cannot be read or does not fit, an empty one included. */
  lemma {:induction false} AppendSafe(file: Option<string>, schema: Schema, values: seq<string>)
    requires WellFormed(schema) && Csv.Storable(values) && |values| == |schema.columns|
    ensures Appended(file, schema, values).None? <==> file.Some? && !HeaderOk(file.value, schema)
    ensures Appended(file, schema, values).Some? ==>
              var (all, offset) := Appended(file, schema, values).value;
              && HeaderOk(all, schema) && !HasCutLine(all, schema)
              && (TableRows(Some(all), schema) == AndRow(TableRows(file, schema), Row(offset, values))
                  <==> file.None? || !HasCutLine(file.value, schema))
              && offset < |all| && ReadRow(all, offset, |values|) == Some(values)
              && (file.Some? ==> file.value <= all && |file.value| <= offset)
              && (file.Some? ==>
                    forall p: nat | p < |file.value| :: ReadRow(all, p, |values|) == ReadRow(file.value, p, |values|))
  {
    if Appended(file, schema, values).Some? {
      var base := if file.None? then HeaderText(schema) else file.value;
      NewFile(schema);
      var (all, offset) := Appended(file, schema, values).value;
      assert HeaderOk(base, schema) && TableRows(Some(base), schema) == TableRows(file, schema);
      assert all == Repaired(base) + Csv.Row(values) && offset == |Repaired(base)|;
      assert base <= all && |base| <= offset;
      hide *;
      Csv.RowIsOneLine(values);
      EndedIsUncut(all, schema);
      AppendToFile(base, schema, values);
      GrownExactly(TableRows(file, schema), Row(offset, values), base, HasCutLine(base, schema));
      NewRowRead(Repaired(base), values);
      forall p: nat | p < |base|
        ensures ReadRow(all, p, |values|) == ReadRow(base, p, |values|)
      {
        RowKept(base, Csv.Row(values), p, |values|);
      }
    }
  }
}
