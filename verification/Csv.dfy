/** The CSV row codec. A byte is a `char`; a C string ends before its first '\0'. */
module Csv {
  import opened Wrappers
  import opened Limits

  // ---------- Writing ----------

  predicate NeedsQuote(text: string) {
    exists i | 0 <= i < |text| :: text[i] == ',' || text[i] == '"' || text[i] == '\n'
  }

  function Doubled(text: string): string {
    if text == "" then "" else (if text[0] == '"' then "\"\"" else [text[0]]) + Doubled(text[1..])
  }

  function Field(text: string): string {
    if NeedsQuote(text) then "\"" + Doubled(text) + "\"" else text
  }

  /** The fields with commas between them. */
  function Fields(values: seq<string>): string {
    if values == [] then ""
    else if |values| == 1 then Field(values[0])
    else Field(values[0]) + "," + Fields(values[1..])
  }

  /** One row as it is stored. */
  function Row(values: seq<string>): string {
    Fields(values) + "\n"
  }

  lemma {:induction false} DoubledConcat(a: string, b: string)
    ensures Doubled(a + b) == Doubled(a) + Doubled(b)
  {
    if a == "" {
      assert a + b == b;
    } else {
      var c := a + b;
      assert c[0] == a[0] && c[1..] == a[1..] + b;
      DoubledConcat(a[1..], b);
    }
  }

  method WriteField(text: string) returns (out: string)
    ensures out == Field(text)
  {
    var needsQuote := false;
    var cursor := 0;
    while cursor < |text| && !needsQuote
      invariant cursor <= |text|
      invariant needsQuote ==> NeedsQuote(text)
      invariant !needsQuote ==> forall i | 0 <= i < cursor :: text[i] != ',' && text[i] != '"' && text[i] != '\n'
    {
      if text[cursor] == ',' || text[cursor] == '"' || text[cursor] == '\n' {
        needsQuote := true;
      }
      cursor := cursor + 1;
    }
    if !needsQuote {
      return text;
    }
    out := "\"";
    cursor := 0;
    while cursor < |text|
      invariant cursor <= |text|
      invariant out == "\"" + Doubled(text[..cursor])
    {
      assert text[..cursor + 1] == text[..cursor] + [text[cursor]];
      DoubledConcat(text[..cursor], [text[cursor]]);
      if text[cursor] == '"' {
        out := out + "\"";
      }
      out := out + [text[cursor]];
      cursor := cursor + 1;
    }
    assert text[..cursor] == text;
    out := out + "\"";
  }

  lemma {:induction false} FieldsExtended(values: seq<string>, v: string)
    requires values != []
    ensures Fields(values + [v]) == Fields(values) + "," + Field(v)
  {
    var all := values + [v];
    assert all[0] == values[0] && all[1..] == values[1..] + [v];
    if |values| > 1 {
      FieldsExtended(values[1..], v);
    }
  }

  method WriteRow(values: seq<string>) returns (out: string)
    ensures out == Row(values)
  {
    out := "";
    for i := 0 to |values|
      invariant out == Fields(values[..i])
    {
      assert values[..i + 1] == values[..i] + [values[i]];
      if i > 0 {
        out := out + ",";
        FieldsExtended(values[..i], values[i]);
      }
      var field := WriteField(values[i]);
      out := out + field;
    }
    assert values[..|values|] == values;
    out := out + "\n";
  }

  // ---------- Reading ----------

  /** Where reading a line stops. */
  predicate Ends(line: string, i: nat) {
    i >= |line| || line[i] == '\0' || line[i] == '\n' || line[i] == '\r'
  }

  /** The scanner as a function: what is left of the line, whether it is inside quotes,
      the finished values, and the value being read. */
  function Scan(line: string, quoted: bool, done: seq<string>, text: string): Option<seq<string>> {
    if Ends(line, 0) then
      if |done| >= MAX_COLUMNS then None else Some(done + [text])
    else if |done| >= MAX_COLUMNS then None
    else if line[0] == '"' then
      if quoted && |line| > 1 && line[1] == '"' then
        if |text| >= MAX_TEXT_LEN then None else Scan(line[2..], quoted, done, text + "\"")
      else Scan(line[1..], !quoted, done, text)
    else if !quoted && line[0] == ',' then Scan(line[1..], quoted, done + [text], "")
    else if |text| >= MAX_TEXT_LEN then None
    else Scan(line[1..], quoted, done, text + [line[0]])
  }

  function Parse(line: string): Option<seq<string>> {
    Scan(line, false, [], "")
  }

  method ParseCsvLine(line: string) returns (r: Option<seq<string>>)
    ensures r == Parse(line)
  {
    var inQuotes := false;
    var values: seq<string> := [];
    var text := "";
    var i := 0;
    while !Ends(line, i)
      invariant i <= |line|
      invariant Parse(line) == Scan(line[i..], inQuotes, values, text)
      decreases |line| - i
    {
      if |values| >= MAX_COLUMNS {
        return None;
      }
      if line[i] == '"' {
        if inQuotes && i + 1 < |line| && line[i + 1] != '\0' && line[i + 1] == '"' {
          if |text| >= MAX_TEXT_LEN {
            return None;
          }
          text := text + "\"";
          i := i + 2;
          continue;
        }
        inQuotes := !inQuotes;
        i := i + 1;
        continue;
      }
      if !inQuotes && line[i] == ',' {
        values := values + [text];
        text := "";
        i := i + 1;
        continue;
      }
      if |text| >= MAX_TEXT_LEN {
        return None;
      }
      text := text + [line[i]];
      i := i + 1;
    }
    if |values| >= MAX_COLUMNS {
      return None;
    }
    r := Some(values + [text]);
  }

  lemma {:induction false} ScanBounds(line: string, quoted: bool, done: seq<string>, text: string)
    requires |text| <= MAX_TEXT_LEN && forall v | v in done :: |v| <= MAX_TEXT_LEN
    ensures var r := Scan(line, quoted, done, text);
            r.Some? ==> |done| < |r.value| <= MAX_COLUMNS && forall v | v in r.value :: |v| <= MAX_TEXT_LEN
    decreases |line|
  {
    if !Ends(line, 0) && |done| < MAX_COLUMNS {
      if line[0] == '"' {
        if quoted && |line| > 1 && line[1] == '"' {
          if |text| < MAX_TEXT_LEN {
            ScanBounds(line[2..], quoted, done, text + "\"");
          }
        } else {
          ScanBounds(line[1..], !quoted, done, text);
        }
      } else if !quoted && line[0] == ',' {
        ScanBounds(line[1..], quoted, done + [text], "");
      } else if |text| < MAX_TEXT_LEN {
        ScanBounds(line[1..], quoted, done, text + [line[0]]);
      }
    }
  }

  /** Whatever the line, what is read fits the value arrays. */
  lemma ParseBounds(line: string)
    ensures Parse(line).Some? ==>
              1 <= |Parse(line).value| <= MAX_COLUMNS && forall v | v in Parse(line).value :: |v| <= MAX_TEXT_LEN
  {
    ScanBounds(line, false, [], "");
  }

  // ---------- Round trip ----------

  predicate Clean(text: string) {
    forall i | 0 <= i < |text| :: text[i] != '\0' && text[i] != '\n' && text[i] != '\r'
  }

  /** Something that may follow a field. */
  predicate Follows(rest: string) {
    Ends(rest, 0) || rest[0] == ','
  }

  lemma {:induction false} ScanPlain(v: string, rest: string, done: seq<string>, text: string)
    requires Clean(v) && !NeedsQuote(v) && |done| < MAX_COLUMNS && |text| + |v| <= MAX_TEXT_LEN
    ensures Scan(v + rest, false, done, text) == Scan(rest, false, done, text + v)
    decreases |v|
  {
    if v == "" {
      assert v + rest == rest && text + v == text;
    } else {
      var line := v + rest;
      assert line[0] == v[0] && line[1..] == v[1..] + rest;
      assert text + [v[0]] + v[1..] == text + v;
      ScanPlain(v[1..], rest, done, text + [v[0]]);
    }
  }

  lemma {:induction false} ScanDoubled(v: string, rest: string, done: seq<string>, text: string)
    requires Clean(v) && |done| < MAX_COLUMNS && |text| + |v| <= MAX_TEXT_LEN
    ensures Scan(Doubled(v) + rest, true, done, text) == Scan(rest, true, done, text + v)
    decreases |v|
  {
    if v == "" {
      assert Doubled(v) + rest == rest && text + v == text;
    } else {
      var line, more := Doubled(v) + rest, Doubled(v[1..]) + rest;
      assert if v[0] == '"' then line[0] == line[1] == '"' && line[2..] == more
             else line[0] == v[0] && line[1..] == more;
      assert text + [v[0]] + v[1..] == text + v;
      assert "\"" == ['"'];
      assert Scan(line, true, done, text) == Scan(more, true, done, text + [v[0]]);
      hide *;
      ScanDoubled(v[1..], rest, done, text + [v[0]]);
    }
  }

  lemma {:induction false} ScanQuoted(v: string, rest: string, done: seq<string>)
    requires Clean(v) && |done| < MAX_COLUMNS && |v| <= MAX_TEXT_LEN && Follows(rest)
    ensures Scan("\"" + Doubled(v) + "\"" + rest, false, done, "") == Scan(rest, false, done, v)
  {
    var closing, body := "\"" + rest, Doubled(v);
    var line := "\"" + body + "\"" + rest;
    assert line[0] == '"' && line[1..] == body + closing;
    assert closing[0] == '"' && closing[1..] == rest && "" + v == v;
    assert Scan(line, false, done, "") == Scan(body + closing, true, done, "");
    assert Scan(closing, true, done, v) == Scan(rest, false, done, v);
    hide *;
    ScanDoubled(v, closing, done, "");
  }

  lemma {:induction false} ScanField(v: string, rest: string, done: seq<string>)
    requires Clean(v) && |done| < MAX_COLUMNS && |v| <= MAX_TEXT_LEN && Follows(rest)
    ensures Scan(Field(v) + rest, false, done, "") == Scan(rest, false, done, v)
  {
    assert "" + v == v;
    if NeedsQuote(v) {
      ScanQuoted(v, rest, done);
    } else {
      ScanPlain(v, rest, done, "");
    }
  }

  lemma {:induction false} ScanComma(v: string, more: string, done: seq<string>)
    requires Clean(v) && |done| < MAX_COLUMNS && |v| <= MAX_TEXT_LEN
    ensures Scan(Field(v) + ("," + more), false, done, "") == Scan(more, false, done + [v], "")
  {
    var rest := "," + more;
    assert rest[0] == ',' && rest[1..] == more;
    ScanField(v, rest, done);
  }

  lemma MoveHead<E>(done: seq<E>, values: seq<E>)
    requires values != []
    ensures done + [values[0]] + values[1..] == done + values
  {
  }

  lemma {:induction false} FieldsFollow(values: seq<string>, rest: string)
    requires |values| > 1
    ensures Fields(values) + rest == Field(values[0]) + ("," + (Fields(values[1..]) + rest))
  {
    var f, g := Field(values[0]), Fields(values[1..]);
    assert Fields(values) == f + "," + g;
    hide *;
    assert f + "," + g + rest == f + ("," + (g + rest));
  }

  lemma {:induction false} ScanFields(values: seq<string>, rest: string, done: seq<string>)
    requires values != [] && |done| + |values| <= MAX_COLUMNS && Ends(rest, 0)
    requires forall v | v in values :: Clean(v) && |v| <= MAX_TEXT_LEN
    ensures Scan(Fields(values) + rest, false, done, "") == Some(done + values)
    decreases |values|
  {
    var v := values[0];
    hide NeedsQuote, Clean, Field, Doubled;
    if |values| == 1 {
      ScanField(v, rest, done);
      assert Scan(rest, false, done, v) == Some(done + [v]);
      assert done + [v] == done + values;
    } else {
      hide Scan, Fields;
      var more := Fields(values[1..]) + rest;
      FieldsFollow(values, rest);
      ScanComma(v, more, done);
      hide *;
      ScanFields(values[1..], rest, done + [v]);
      MoveHead(done, values);
    }
  }

  /** Rows that the program can hold and that survive storage. */
  predicate Storable(values: seq<string>) {
    1 <= |values| <= MAX_COLUMNS && forall v | v in values :: Clean(v) && |v| <= MAX_TEXT_LEN
  }

  /** What was written is read back, value for value. */
  lemma {:induction false} RoundTrip(values: seq<string>)
    requires Storable(values)
    ensures Parse(Row(values)) == Some(values)
  {
    ScanFields(values, "\n", []);
    assert [] + values == values;
  }

  /** The position of the first byte that ends a line. */
  lemma FirstBreak(v: string) returns (q: nat)
    requires !Clean(v)
    ensures q < |v| && Clean(v[..q]) && Ends(v, q)
  {
    q := 0;
    while !Ends(v, q)
      invariant q <= |v| && Clean(v[..q])
      decreases |v| - q
    {
      q := q + 1;
    }
  }

  /** A value with a line end in it is cut there, and so is the row. */
  lemma {:induction false} BrokenField(v: string, rest: string, done: seq<string>) returns (w: string)
    requires !Clean(v) && |done| < MAX_COLUMNS && |v| <= MAX_TEXT_LEN
    ensures |w| < |v| && Scan(Field(v) + rest, false, done, "") == Some(done + [w])
  {
    var q := FirstBreak(v);
    w := v[..q];
    assert "" + w == w && v == w + v[q..];
    if NeedsQuote(v) {
      DoubledConcat(w, v[q..]);
      var line, tail := Field(v) + rest, Doubled(v[q..]) + "\"" + rest;
      assert line[0] == '"' && line[1..] == Doubled(w) + tail;
      assert tail[0] == v[q];
      ScanDoubled(w, tail, done, "");
    } else {
      var tail := v[q..] + rest;
      assert Field(v) + rest == w + tail;
      assert !NeedsQuote(w);
      ScanPlain(w, tail, done, "");
    }
  }

  lemma {:induction false} BrokenFields(values: seq<string>, rest: string, done: seq<string>)
    requires values != [] && |done| + |values| <= MAX_COLUMNS && Ends(rest, 0)
    requires forall v | v in values :: |v| <= MAX_TEXT_LEN
    requires exists v | v in values :: !Clean(v)
    ensures Scan(Fields(values) + rest, false, done, "") != Some(done + values)
    decreases |values|
  {
    hide NeedsQuote, Clean, Field, Doubled, Scan;
    var v, n := values[0], |done|;
    if !Clean(v) {
      var after := if |values| == 1 then rest else "," + (Fields(values[1..]) + rest);
      if |values| > 1 {
        FieldsFollow(values, rest);
      }
      var w := BrokenField(v, after, done);
      assert (done + [w])[n] == w && (done + values)[n] == v;
    } else {
      var more := Fields(values[1..]) + rest;
      FieldsFollow(values, rest);
      ScanComma(v, more, done);
      assert exists u | u in values[1..] :: !Clean(u) by {
        var u :| u in values && !Clean(u);
        assert u in values[1..];
      }
      BrokenFields(values[1..], rest, done + [v]);
      MoveHead(done, values);
    }
  }

  /** Exactly the rows without line ends and NULs in their values survive. */
  lemma {:induction false} RoundTripExactly(values: seq<string>)
    requires 1 <= |values| <= MAX_COLUMNS && forall v | v in values :: |v| <= MAX_TEXT_LEN
    ensures Parse(Row(values)) == Some(values) <==> forall v | v in values :: Clean(v)
  {
    if forall v | v in values :: Clean(v) {
      RoundTrip(values);
    } else {
      BrokenFields(values, "\n", []);
      assert [] + values == values;
    }
  }

  lemma {:induction false} WriterInjective(a: seq<string>, b: seq<string>)
    requires Storable(a) && Storable(b) && Row(a) == Row(b)
    ensures a == b
  {
    RoundTrip(a);
    RoundTrip(b);
  }

  // ---------- Writing what was read ----------

  /** Where a reader of a line is, as far as the writer's form is concerned: at the start of
      a field, inside a plain one, inside a quoted one that has or has not yet shown why it
      is quoted, or behind a closing quote. */
  datatype Place = Start | Plain | Quoted(needed: bool) | Closed

  /** The rest of a line, from some place on, has the form the writer gives it: plain fields
      hold no quote, quoted fields hold a comma or a doubled quote, and the only line end is
      the last byte. */
  predicate CanonicalFrom(line: string, place: Place) {
    if line == "" then false
    else if line[0] == '\n' then |line| == 1 && !place.Quoted?
    else if line[0] == '\r' || line[0] == '\0' then false
    else if place.Quoted? then
      if line[0] == '"' then
        if |line| > 1 && line[1] == '"' then CanonicalFrom(line[2..], Quoted(true))
        else place.needed && CanonicalFrom(line[1..], Closed)
      else CanonicalFrom(line[1..], Quoted(place.needed || line[0] == ','))
    else if line[0] == ',' then CanonicalFrom(line[1..], Start)
    else if line[0] == '"' then place.Start? && CanonicalFrom(line[1..], Quoted(false))
    else !place.Closed? && CanonicalFrom(line[1..], Plain)
  }

  /** A line in the writer's form. */
  predicate Canonical(line: string) {
    CanonicalFrom(line, Start)
  }

  /** Writing what was read need not give the line back: this line quotes a value that the
      writer would not quote. */
  lemma ParseThenWriteDiffers()
    ensures Parse("\"a\"\n") == Some(["a"]) && Row(["a"]) == "a\n"
  {
    var line := "\"" + Doubled("a") + "\"" + "\n";
    assert line == "\"a\"\n";
    ScanQuoted("a", "\n", []);
    assert Scan("\n", false, [], "a") == Some([] + ["a"]);
    assert [] + ["a"] == ["a"];
  }

  /** What the writer has written when it has finished the fields `done`. */
  ghost function Begun(done: seq<string>): string {
    if done == [] then "" else Begun(done[..|done| - 1]) + Field(done[|done| - 1]) + ","
  }

  lemma {:induction false} BegunMore(done: seq<string>, v: string)
    ensures Begun(done + [v]) == Begun(done) + Field(v) + ","
  {
    assert (done + [v])[..|done|] == done;
  }

  lemma {:induction false} BegunRow(values: seq<string>)
    requires values != []
    ensures Row(values) == Begun(values[..|values| - 1]) + Field(values[|values| - 1]) + "\n"
  {
    BegunFields(values);
  }

  lemma {:induction false} BegunFields(values: seq<string>)
    requires values != []
    ensures Fields(values) == Begun(values[..|values| - 1]) + Field(values[|values| - 1])
  {
    var n := |values| - 1;
    var front := values[..n];
    if n > 0 {
      BegunFields(front);
      assert values == front + [values[n]];
      FieldsExtended(front, values[n]);
    } else {
      assert Begun(front) == "";
      assert values == [values[0]];
    }
  }

  /** The part of the current field that the writer has written at a place. */
  ghost function Partial(text: string, place: Place): string {
    match place
    case Start => ""
    case Plain => text
    case Quoted(_) => "\"" + Doubled(text)
    case Closed => "\"" + Doubled(text) + "\""
  }

  /** The scanner's state at a place of a line in canonical form. */
  ghost predicate Agrees(place: Place, quoted: bool, text: string) {
    && quoted == place.Quoted?
    && (place.Start? ==> text == "")
    && (place.Plain? ==> !NeedsQuote(text))
    && (place.Quoted? ==> place.needed == NeedsQuote(text))
    && (place.Closed? ==> NeedsQuote(text))
  }

  lemma NeedsQuoteMore(text: string, c: char)
    ensures NeedsQuote(text + [c]) <==> NeedsQuote(text) || c == ',' || c == '"' || c == '\n'
  {
    var more := text + [c];
    assert more[|text|] == c && forall i | 0 <= i < |text| :: more[i] == text[i];
  }

  lemma {:induction false} PartialMore(text: string, c: char)
    ensures Doubled(text + [c]) == Doubled(text) + if c == '"' then "\"\"" else [c]
  {
    DoubledConcat(text, [c]);
  }

  /** At the end of a field in canonical form the writer has written that field. */
  lemma PartialIsField(place: Place, quoted: bool, text: string)
    requires Agrees(place, quoted, text) && !place.Quoted?
    ensures Partial(text, place) == Field(text)
  {
  }

  lemma BegunEnd(done: seq<string>, text: string)
    ensures Row(done + [text]) == Begun(done) + Field(text) + "\n"
  {
    var values := done + [text];
    assert values[..|values| - 1] == done;
    BegunRow(values);
  }

  lemma {:induction false} QuotedMore(text: string, c: char, needed: bool, shown: string, rest: string)
    requires shown == if c == '"' then "\"\"" else [c]
    ensures Partial(text + [c], Quoted(true)) + rest == Partial(text, Quoted(needed)) + (shown + rest)
  {
    PartialMore(text, c);
  }

  /** Along a line in canonical form the writer's text for what was read is what was there. */
  lemma {:induction false} CanonicalScan(line: string, place: Place, quoted: bool, done: seq<string>, text: string)
    requires CanonicalFrom(line, place) && Agrees(place, quoted, text) && Scan(line, quoted, done, text).Some?
    ensures Row(Scan(line, quoted, done, text).value) == Begun(done) + (Partial(text, place) + line)
    decreases |line|
  {
    hide NeedsQuote, Doubled, Row, Begun;
    var c, rest := line[0], line[1..];
    assert line == [c] + rest;
    if c == '\n' {
      BegunEnd(done, text);
      PartialIsField(place, quoted, text);
      assert line == "\n";
    } else if quoted && c == '"' && |line| > 1 && line[1] == '"' {
      var more := line[2..];
      assert line == "\"\"" + more && "\"" == [c];
      NeedsQuoteMore(text, c);
      CanonicalScan(more, Quoted(true), true, done, text + "\"");
      QuotedMore(text, c, place.needed, "\"\"", more);
    } else if quoted && c == '"' {
      CanonicalScan(rest, Closed, false, done, text);
      assert Partial(text, Closed) + rest == Partial(text, place) + line;
    } else if quoted {
      NeedsQuoteMore(text, c);
      CanonicalScan(rest, Quoted(place.needed || c == ','), true, done, text + [c]);
      QuotedMore(text, c, place.needed, [c], rest);
    } else if c == ',' {
      CanonicalScan(rest, Start, false, done + [text], "");
      BegunMore(done, text);
      PartialIsField(place, quoted, text);
      CommaMoves(Begun(done), Field(text), rest);
    } else if c == '"' {
      NothingNeedsQuote();
      CanonicalScan(rest, Quoted(false), true, done, text);
      assert Partial(text, Quoted(false)) + rest == Partial(text, place) + line;
    } else {
      NothingNeedsQuote();
      NeedsQuoteMore(text, c);
      CanonicalScan(rest, Plain, false, done, text + [c]);
      assert Partial(text + [c], Plain) + rest == text + line;
    }
  }

  lemma CommaMoves(begun: string, field: string, rest: string)
    ensures (begun + field + ",") + ("" + rest) == begun + (field + ([','] + rest))
  {
  }

  lemma NothingNeedsQuote()
    ensures !NeedsQuote("") && Doubled("") == ""
  {
  }

  /** What is read holds no byte that ends a line. */
  lemma {:induction false} ScanClean(line: string, quoted: bool, done: seq<string>, text: string)
    requires Clean(text) && forall v | v in done :: Clean(v)
    ensures var r := Scan(line, quoted, done, text); r.Some? ==> forall v | v in r.value :: Clean(v)
    decreases |line|
  {
    if !Ends(line, 0) && |done| < MAX_COLUMNS {
      if line[0] == '"' {
        if quoted && |line| > 1 && line[1] == '"' {
          ScanClean(line[2..], quoted, done, text + "\"");
        } else {
          ScanClean(line[1..], !quoted, done, text);
        }
      } else if !quoted && line[0] == ',' {
        ScanClean(line[1..], quoted, done + [text], "");
      } else {
        ScanClean(line[1..], quoted, done, text + [line[0]]);
      }
    }
  }

  /** Something that may follow a field in canonical form. */
  ghost predicate Continues(rest: string) {
    rest == "\n" || (rest != "" && rest[0] == ',' && CanonicalFrom(rest[1..], Start))
  }

  lemma {:induction false} PlainIsCanonical(v: string, rest: string, place: Place)
    requires Clean(v) && !NeedsQuote(v) && Continues(rest) && (place.Start? || place.Plain?)
    ensures CanonicalFrom(v + rest, place)
    decreases |v|
  {
    if v == "" {
      assert v + rest == rest;
    } else {
      var line := v + rest;
      assert line[0] == v[0] && line[1..] == v[1..] + rest;
      PlainIsCanonical(v[1..], rest, Plain);
    }
  }

  /** One byte of a quoted field, as the writer shows it. */
  lemma QuotedByte(c: char, more: string, needed: bool)
    requires c != '\0' && c != '\n' && c != '\r'
    ensures CanonicalFrom((if c == '"' then "\"\"" else [c]) + more, Quoted(needed))
            == CanonicalFrom(more, Quoted(needed || c == ',' || c == '"'))
  {
    var line := (if c == '"' then "\"\"" else [c]) + more;
    assert if c == '"' then line[0] == line[1] == '"' && line[2..] == more else line[0] == c && line[1..] == more;
  }

  lemma ClosingQuote(rest: string)
    requires Continues(rest)
    ensures CanonicalFrom("\"" + rest, Quoted(true))
  {
    var line := "\"" + rest;
    assert line[0] == '"' && line[1] == rest[0] && line[1..] == rest;
    assert CanonicalFrom(rest, Closed);
  }

  lemma {:induction false} DoubledIsCanonical(v: string, rest: string, needed: bool)
    requires Clean(v) && (needed || NeedsQuote(v)) && Continues(rest)
    ensures CanonicalFrom(Doubled(v) + ("\"" + rest), Quoted(needed))
    decreases |v|
  {
    var tail := "\"" + rest;
    hide CanonicalFrom, Continues;
    if v == "" {
      assert Doubled(v) + tail == tail;
      ClosingQuote(rest);
    } else {
      var c, shown, more := v[0], if v[0] == '"' then "\"\"" else [v[0]], Doubled(v[1..]) + tail;
      assert needed || c == ',' || c == '"' || NeedsQuote(v[1..]) by {
        assert forall i | 0 <= i < |v| :: v[i] == if i == 0 then c else v[1..][i - 1];
      }
      assert Clean(v[1..]);
      assert Doubled(v) == shown + Doubled(v[1..]);
      hide *;
      DoubledIsCanonical(v[1..], rest, needed || c == ',' || c == '"');
      QuotedByte(c, more, needed);
      assert shown + Doubled(v[1..]) + tail == shown + more;
    }
  }

  lemma {:induction false} FieldIsCanonical(v: string, rest: string)
    requires Clean(v) && Continues(rest)
    ensures CanonicalFrom(Field(v) + rest, Start)
  {
    if NeedsQuote(v) {
      DoubledIsCanonical(v, rest, false);
      assert Field(v) == "\"" + Doubled(v) + "\"";
      hide *;
      OpenedIsCanonical(Doubled(v), rest);
    } else {
      PlainIsCanonical(v, rest, Start);
    }
  }

  lemma OpenedIsCanonical(body: string, rest: string)
    requires CanonicalFrom(body + ("\"" + rest), Quoted(false))
    ensures CanonicalFrom("\"" + body + "\"" + rest, Start)
  {
    var line := "\"" + body + "\"" + rest;
    assert line[0] == '"' && line[1..] == body + ("\"" + rest);
  }

  /** What the writer writes is in canonical form. */
  lemma {:induction false} RowIsCanonical(values: seq<string>)
    requires values != [] && forall v | v in values :: Clean(v)
    ensures Canonical(Row(values))
    decreases |values|
  {
    hide Clean, Field;
    if |values| == 1 {
      FieldIsCanonical(values[0], "\n");
    } else {
      var rest := "," + Row(values[1..]);
      FieldsFollow(values, "\n");
      assert rest[1..] == Row(values[1..]);
      RowIsCanonical(values[1..]);
      FieldIsCanonical(values[0], rest);
    }
  }

  /** Writing what was read gives the line back exactly when the line is in canonical form. */
  lemma {:induction false} WriteBackExactly(line: string)
    requires Parse(line).Some?
    ensures Row(Parse(line).value) == line <==> Canonical(line)
  {
    ParseBounds(line);
    ScanClean(line, false, [], "");
    if Canonical(line) {
      NothingNeedsQuote();
      CanonicalScan(line, Start, false, [], "");
      assert "" + ("" + line) == line;
    }
    if Row(Parse(line).value) == line {
      RowIsCanonical(Parse(line).value);
    }
  }

  // ---------- Quotes ----------

  ghost function Quotes(text: string): nat {
    if text == "" then 0 else (if text[0] == '"' then 1 else 0) + Quotes(text[1..])
  }

  ghost function QuotesIn(values: seq<string>): nat {
    if values == [] then 0 else Quotes(values[0]) + QuotesIn(values[1..])
  }

  lemma {:induction false} QuotesConcat(a: string, b: string)
    ensures Quotes(a + b) == Quotes(a) + Quotes(b)
  {
    if a == "" {
      assert a + b == b;
    } else {
      assert (a + b)[0] == a[0] && (a + b)[1..] == a[1..] + b;
      QuotesConcat(a[1..], b);
    }
  }

  lemma {:induction false} QuotesInMore(values: seq<string>, v: string)
    ensures QuotesIn(values + [v]) == QuotesIn(values) + Quotes(v)
  {
    if values == [] {
      assert values + [v] == [v];
    } else {
      assert (values + [v])[0] == values[0] && (values + [v])[1..] == values[1..] + [v];
      QuotesInMore(values[1..], v);
    }
  }

  lemma {:induction false} NoQuotes(text: string)
    ensures Quotes(text) == 0 <==> '"' !in text
  {
    if text != "" {
      assert text == [text[0]] + text[1..];
      NoQuotes(text[1..]);
    }
  }

  lemma {:induction false} NoQuotesIn(values: seq<string>)
    ensures QuotesIn(values) == 0 <==> forall v | v in values :: '"' !in v
  {
    if values != [] {
      assert values == [values[0]] + values[1..];
      NoQuotes(values[0]);
      NoQuotesIn(values[1..]);
    }
  }

  /** Of every two quotes of a line at most one comes to be part of a value. */
  lemma {:induction false} ScanQuotes(line: string, quoted: bool, done: seq<string>, text: string)
    ensures var r := Scan(line, quoted, done, text);
            r.Some? ==> 2 * QuotesIn(r.value) <= 2 * (QuotesIn(done) + Quotes(text)) + Quotes(line)
    decreases |line|
  {
    if Scan(line, quoted, done, text).Some? {
      if Ends(line, 0) {
        QuotesInMore(done, text);
      } else if line[0] == '"' {
        if quoted && |line| > 1 && line[1] == '"' {
          assert line[1..][1..] == line[2..];
          QuotesConcat(text, "\"");
          ScanQuotes(line[2..], quoted, done, text + "\"");
        } else {
          ScanQuotes(line[1..], !quoted, done, text);
        }
      } else if !quoted && line[0] == ',' {
        QuotesInMore(done, text);
        ScanQuotes(line[1..], quoted, done + [text], "");
      } else {
        QuotesConcat(text, [line[0]]);
        ScanQuotes(line[1..], quoted, done, text + [line[0]]);
      }
    }
  }

  // ---------- Separators ----------

  ghost function Unquoted(text: string): string {
    if text == "" then "" else (if text[0] == '"' then "" else [text[0]]) + Unquoted(text[1..])
  }

  ghost function UnquotedAll(values: seq<string>): (r: seq<string>)
    ensures |r| == |values| && forall i | 0 <= i < |values| :: r[i] == Unquoted(values[i])
  {
    seq(|values|, i requires 0 <= i < |values| => Unquoted(values[i]))
  }

  /** A line up to its end, without its quotes, cut at those commas that an even number of quotes
      comes before. */
  ghost function Stretches(line: string, odd: bool, current: string): seq<string> {
    if line == "" || line[0] == '\0' || line[0] == '\n' || line[0] == '\r' then [current]
    else if line[0] == '"' then Stretches(line[1..], !odd, current)
    else if line[0] == ',' && !odd then [current] + Stretches(line[1..], odd, "")
    else Stretches(line[1..], odd, current + [line[0]])
  }

  lemma {:induction false} UnquotedMore(text: string, c: char)
    ensures Unquoted(text + [c]) == Unquoted(text) + if c == '"' then "" else [c]
  {
    if text == "" {
      assert text + [c] == [c] && [c][1..] == "";
    } else {
      assert (text + [c])[0] == text[0] && (text + [c])[1..] == text[1..] + [c];
      UnquotedMore(text[1..], c);
    }
  }

  lemma UnquotedEnd(done: seq<string>, text: string)
    ensures UnquotedAll(done + [text]) == UnquotedAll(done) + [Unquoted(text)]
  {
  }

  lemma MoveFirst<E>(done: seq<E>, x: E, rest: seq<E>)
    ensures done + ([x] + rest) == done + [x] + rest
  {
  }

  lemma {:induction false} ScanStretches(line: string, quoted: bool, done: seq<string>, text: string)
    ensures var r := Scan(line, quoted, done, text);
            r.Some? ==> UnquotedAll(r.value) == UnquotedAll(done) + Stretches(line, quoted, Unquoted(text))
    decreases |line|
  {
    hide Unquoted, UnquotedAll;
    if Scan(line, quoted, done, text).Some? {
      if Ends(line, 0) {
        UnquotedEnd(done, text);
      } else if line[0] == '"' {
        if quoted && |line| > 1 && line[1] == '"' {
          assert line[1..][1..] == line[2..] && "\"" == ['"'];
          UnquotedMore(text, '"');
          ScanStretches(line[2..], quoted, done, text + "\"");
          assert Unquoted(text) + "" == Unquoted(text);
        } else {
          ScanStretches(line[1..], !quoted, done, text);
        }
      } else if !quoted && line[0] == ',' {
        UnquotedEnd(done, text);
        ScanStretches(line[1..], quoted, done + [text], "");
        NothingUnquoted();
        MoveFirst(UnquotedAll(done), Unquoted(text), Stretches(line[1..], quoted, ""));
      } else {
        UnquotedMore(text, line[0]);
        ScanStretches(line[1..], quoted, done, text + [line[0]]);
      }
    }
  }

  lemma NothingUnquoted()
    ensures Unquoted("") == ""
  {
  }

  /** Whatever the line, but for its quotes nothing of it is lost, added or moved: the values are,
      without quotes, what stands between the commas outside of quotes. */
  lemma {:induction false} ParseKeepsText(line: string)
    requires Parse(line).Some?
    ensures UnquotedAll(Parse(line).value) == Stretches(line, false, "")
  {
    ScanStretches(line, false, [], "");
    NothingUnquoted();
    assert UnquotedAll([]) == [];
    assert [] + Stretches(line, false, "") == Stretches(line, false, "");
  }

  /** A value is written as it is exactly if it holds no comma, quote or newline. */
  lemma {:induction false} PlainExactly(text: string)
    ensures Field(text) == text <==> forall i | 0 <= i < |text| :: text[i] != ',' && text[i] != '"' && text[i] != '\n'
  {
    if NeedsQuote(text) {
      DoubledBound(text);
      assert |Field(text)| > |text|;
    }
  }

  // ---------- Bounds ----------

  lemma {:induction false} DoubledBound(text: string)
    ensures |text| <= |Doubled(text)| <= 2 * |text|
  {
    if text != "" {
      DoubledBound(text[1..]);
    }
  }

  lemma {:induction false} FieldsBound(values: seq<string>)
    requires values != [] && forall v | v in values :: |v| <= MAX_TEXT_LEN
    ensures |Fields(values)| <= |values| * MAX_FIELD_LEN + |values| - 1
  {
    var v := values[0];
    DoubledBound(v);
    assert |Field(v)| <= MAX_FIELD_LEN;
    if |values| > 1 {
      var rest := values[1..];
      FieldsBound(rest);
      assert |Fields(values)| == |Field(v)| + 1 + |Fields(rest)|;
      hide *;
      assert |values| * MAX_FIELD_LEN == MAX_FIELD_LEN + |rest| * MAX_FIELD_LEN;
    }
  }

  /** Every row the program writes fits one read into the line buffer. */
  lemma {:induction false} RowFits(values: seq<string>)
    requires 1 <= |values| <= MAX_COLUMNS && forall v | v in values :: |v| <= MAX_TEXT_LEN
    ensures |Row(values)| <= MAX_ROW_LEN - 1
  {
    FieldsBound(values);
  }

  ghost function OnlyQuotes(n: nat): (s: string)
    ensures |s| == n && forall i | 0 <= i < n :: s[i] == '"'
  {
    seq(n, i => '"')
  }

  lemma {:induction false} DoubledQuotes(s: string)
    requires forall i | 0 <= i < |s| :: s[i] == '"'
    ensures |Doubled(s)| == 2 * |s|
  {
    if s != "" {
      DoubledQuotes(s[1..]);
    }
  }

  lemma {:induction false} WidestFields(values: seq<string>)
    requires values != [] && forall v | v in values :: v == OnlyQuotes(MAX_TEXT_LEN)
    ensures |Fields(values)| == |values| * MAX_FIELD_LEN + |values| - 1
  {
    var q := OnlyQuotes(MAX_TEXT_LEN);
    DoubledQuotes(q);
    assert values[0] in values && q[0] == '"';
    assert |Field(q)| == MAX_FIELD_LEN;
    if |values| > 1 {
      var rest := values[1..];
      assert forall v | v in rest :: v in values;
      WidestFields(rest);
      assert |Fields(values)| == |Field(q)| + 1 + |Fields(rest)|;
      hide *;
      assert |values| * MAX_FIELD_LEN == MAX_FIELD_LEN + |rest| * MAX_FIELD_LEN;
    }
  }

  /** The buffer has not one byte to spare: the bound is attained. */
  lemma {:induction false} BoundAttained() returns (values: seq<string>)
    ensures Storable(values) && |Row(values)| == MAX_ROW_LEN - 1 == 2064
  {
    values := seq(MAX_COLUMNS, i => OnlyQuotes(MAX_TEXT_LEN));
    WidestFields(values);
  }

  /** A line reads the same with and without its newline. */
  lemma {:induction false} NewlineIgnored(line: string, quoted: bool, done: seq<string>, text: string)
    ensures Scan(line + "\n", quoted, done, text) == Scan(line, quoted, done, text)
    decreases |line|
  {
    var l := line + "\n";
    if !Ends(line, 0) && |done| < MAX_COLUMNS {
      assert l[0] == line[0] && l[1..] == line[1..] + "\n";
      if line[0] == '"' {
        if quoted && |line| > 1 && line[1] == '"' {
          assert l[1] == line[1] && l[2..] == line[2..] + "\n";
          NewlineIgnored(line[2..], quoted, done, text + "\"");
        } else {
          assert |line| > 1 ==> l[1] == line[1];
          NewlineIgnored(line[1..], !quoted, done, text);
        }
      } else if !quoted && line[0] == ',' {
        NewlineIgnored(line[1..], quoted, done + [text], "");
      } else {
        NewlineIgnored(line[1..], quoted, done, text + [line[0]]);
      }
    }
  }

  // ---------- One line ----------

  lemma {:induction false} DoubledClean(text: string)
    requires Clean(text)
    ensures Clean(Doubled(text))
  {
    if text != "" {
      DoubledClean(text[1..]);
    }
  }

  lemma {:induction false} FieldsClean(values: seq<string>)
    requires forall v | v in values :: Clean(v)
    ensures Clean(Fields(values))
  {
    if values != [] {
      DoubledClean(values[0]);
      assert Clean(Field(values[0]));
      FieldsClean(values[1..]);
    }
  }

  /** A stored row is one line: its only line end is its last byte. */
  lemma {:induction false} RowIsOneLine(values: seq<string>)
    requires Storable(values)
    ensures 0 < |Row(values)| && Row(values)[|Row(values)| - 1] == '\n' && Clean(Row(values)[..|Row(values)| - 1])
  {
    FieldsClean(values);
    assert Row(values)[..|Row(values)| - 1] == Fields(values);
  }
}
