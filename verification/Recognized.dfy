/** Which texts are read as which programs: exactly those that spell the program out. */
module Recognized {
  import opened Wrappers
  import opened Limits
  import opened Numbers
  import opened Sql
  import opened Tokenizer
  import opened Parser
  import opened FrontEnd
  import opened Writings
  import Csv

  // ---------- Good tokens ----------

  /** Tokens as the tokenizer delivers them. */
  ghost predicate GoodList(tokens: seq<Token>) {
    && Ended(tokens) && |tokens| <= MAX_TOKENS
    && forall k | 0 <= k < |tokens| - 1 :: GoodPiece(Kind(tokens[k]))
  }

  lemma {:induction false} TokensAreGood(sql: string)
    requires Lex(sql, 0, []).Tokens?
    ensures GoodList(Lex(sql, 0, []).items)
  {
    var pieces := ReadIsWritten(sql, 0, []);
    var items := Lex(sql, 0, []).items;
    hide Lex, GoodPiece, Kind, Writes;
    forall k | 0 <= k < |pieces|
      ensures GoodPiece(Kind(items[k])) && !items[k].tokenType.EndOfText?
    {
      assert Kind(items[0 + k]) == pieces[k];
      NotTheEnd(items[k]);
    }
  }

  lemma NotTheEnd(token: Token)
    requires GoodPiece(Kind(token))
    ensures !token.tokenType.EndOfText?
  {
  }

  // ---------- What the parser has read ----------

  lemma ReadsOne(tokens: seq<Token>, p: nat, piece: Piece)
    requires p < |tokens| && Kind(tokens[p]) == piece
    ensures Reads(tokens, p, [piece])
  {
    hide Kind;
  }

  lemma GoodAt(tokens: seq<Token>, p: nat)
    requires GoodList(tokens) && p < |tokens| && !tokens[p].tokenType.EndOfText?
    ensures GoodPiece(Kind(tokens[p]))
  {
    hide GoodPiece;
  }

  function Marked(tokenType: TokenType): Piece {
    Piece(tokenType, Mark(tokenType))
  }

  lemma MarkIsRead(tokens: seq<Token>, p: nat)
    requires GoodList(tokens) && p < |tokens|
    requires var t := tokens[p].tokenType; !t.EndOfText? && !t.Identifier? && !t.Number? && !t.Text?
    ensures Reads(tokens, p, [Marked(tokens[p].tokenType)])
  {
    GoodAt(tokens, p);
    MarkExactly(Kind(tokens[p]));
    hide GoodPiece, Marked, Mark, GoodList;
    ReadsOne(tokens, p, Marked(tokens[p].tokenType));
  }

  lemma MarkExactly(piece: Piece)
    requires var t := piece.tokenType; !t.EndOfText? && !t.Identifier? && !t.Number? && !t.Text?
    requires GoodPiece(piece)
    ensures piece == Marked(piece.tokenType)
  {
  }

  lemma IdentifierIsRead(tokens: seq<Token>, p: nat)
    requires GoodList(tokens) && p < |tokens| && ParseIdentifier(tokens, p).Parsed?
    ensures Reads(tokens, p, [Piece(Identifier, ParseIdentifier(tokens, p).value)])
    ensures GoodName(ParseIdentifier(tokens, p).value)
  {
    GoodAt(tokens, p);
    hide GoodName;
  }

  lemma LiteralIsRead(tokens: seq<Token>, p: nat)
    requires GoodList(tokens) && p < |tokens| && ParseLiteral(tokens, p).Parsed?
    ensures Reads(tokens, p, [LiteralPiece(ParseLiteral(tokens, p).value)])
    ensures GoodValue(ParseLiteral(tokens, p).value)
  {
    GoodAt(tokens, p);
    hide IsNumeral, Csv.Clean, GoodList;
  }

  lemma OperatorIsRead(tokens: seq<Token>, p: nat)
    requires GoodList(tokens) && p < |tokens| && ParseWhereOperator(tokens, p).Parsed?
    ensures Reads(tokens, p, [OperatorPiece(ParseWhereOperator(tokens, p).value)])
  {
    MarkIsRead(tokens, p);
    hide GoodList, Reads;
  }

  lemma NamesStep(tokens: seq<Token>, p: nat, done: seq<string>)
    requires Ended(tokens) && p < |tokens| && ParseNames(tokens, p, done).Parsed?
    ensures ParseIdentifier(tokens, p).Parsed? && p + 1 < |tokens|
    ensures var name := ParseIdentifier(tokens, p).value;
            if tokens[p + 1].tokenType.Comma? then
              p + 2 < |tokens| && ParseNames(tokens, p, done) == ParseNames(tokens, p + 2, done + [name])
            else ParseNames(tokens, p, done) == Parsed(done + [name], p + 1)
  {
    hide ParseIdentifier;
  }

  lemma OneName(name: string)
    requires GoodName(name)
    ensures NamePieces([name]) == CommaSeparated(NamePieces([name])) == [Piece(Identifier, name)] && GoodNamed([name])
  {
    hide GoodName;
  }

  ghost predicate GoodNamed(names: seq<string>) {
    forall i | 0 <= i < |names| :: GoodName(names[i])
  }

  lemma MoreNames(name: string, rest: seq<string>)
    requires GoodName(name) && GoodNamed(rest)
    ensures GoodNamed([name] + rest) && NamePieces([name] + rest) == [Piece(Identifier, name)] + NamePieces(rest)
  {
    hide GoodName;
  }

  /** The names read after `done`, and what they are in the text. */
  lemma {:induction false} NamesWereRead(tokens: seq<Token>, p: nat, done: seq<string>) returns (names: seq<string>)
    requires GoodList(tokens) && p < |tokens| && ParseNames(tokens, p, done).Parsed?
    ensures names != [] && ParseNames(tokens, p, done).value == done + names
    ensures ParseNames(tokens, p, done).next == p + |CommaSeparated(NamePieces(names))|
    ensures Reads(tokens, p, CommaSeparated(NamePieces(names))) && GoodNamed(names)
    decreases |tokens| - p
  {
    hide *;
    ListIsEnded(tokens);
    NamesStep(tokens, p, done);
    IdentifierIsRead(tokens, p);
    var name := ParseIdentifier(tokens, p).value;
    if tokens[p + 1].tokenType.Comma? {
      var rest := NamesWereRead(tokens, p + 2, done + [name]);
      names := [name] + rest;
      MarkIsRead(tokens, p + 1);
      CommaThen(tokens, p, Piece(Identifier, name), NamePieces(rest));
      MoreNames(name, rest);
      assert names[1..] == rest;
      Shifted(done, names);
    } else {
      names := [name];
      OneName(name);
    }
  }

  /** A piece, a comma, and further pieces with commas between them. */
  lemma CommaThen(tokens: seq<Token>, p: nat, piece: Piece, rest: seq<Piece>)
    requires rest != [] && Reads(tokens, p, [piece]) && Reads(tokens, p + 1, [Marked(Comma)])
    requires Reads(tokens, p + 2, CommaSeparated(rest))
    ensures Reads(tokens, p, CommaSeparated([piece] + rest))
    ensures |CommaSeparated([piece] + rest)| == 2 + |CommaSeparated(rest)|
  {
    hide Reads, CommaSeparated;
    CommaFirst(piece, rest);
    ReadsSplit(tokens, p + 1, [Marked(Comma)], CommaSeparated(rest));
    ReadsSplit(tokens, p, [piece], [Marked(Comma)] + CommaSeparated(rest));
  }

  lemma ValuesStep(tokens: seq<Token>, p: nat, expected: Option<nat>, done: seq<Literal>)
    requires Ended(tokens) && p < |tokens| && ParseValues(tokens, p, expected, done).Parsed?
    ensures ParseLiteral(tokens, p).Parsed? && p + 1 < |tokens|
    ensures var value := ParseLiteral(tokens, p).value;
            if tokens[p + 1].tokenType.Comma? then
              && p + 2 < |tokens|
              && ParseValues(tokens, p, expected, done) == ParseValues(tokens, p + 2, expected, done + [value])
            else ParseValues(tokens, p, expected, done) == Parsed(done + [value], p + 1)
  {
    hide ParseLiteral;
  }

  ghost predicate GoodValues(values: seq<Literal>) {
    forall i | 0 <= i < |values| :: GoodValue(values[i])
  }

  lemma OneValue(value: Literal)
    requires GoodValue(value)
    ensures LiteralPieces([value]) == CommaSeparated(LiteralPieces([value])) == [LiteralPiece(value)]
    ensures GoodValues([value])
  {
    hide GoodValue, LiteralPiece;
  }

  lemma MoreValues(value: Literal, rest: seq<Literal>)
    requires GoodValue(value) && GoodValues(rest)
    ensures GoodValues([value] + rest) && LiteralPieces([value] + rest) == [LiteralPiece(value)] + LiteralPieces(rest)
  {
    hide GoodValue, LiteralPiece;
  }

  lemma {:induction false} ValuesWereRead(tokens: seq<Token>, p: nat, expected: Option<nat>, done: seq<Literal>)
    returns (values: seq<Literal>)
    requires GoodList(tokens) && p < |tokens| && ParseValues(tokens, p, expected, done).Parsed?
    ensures values != [] && ParseValues(tokens, p, expected, done).value == done + values
    ensures ParseValues(tokens, p, expected, done).next == p + |CommaSeparated(LiteralPieces(values))|
    ensures Reads(tokens, p, CommaSeparated(LiteralPieces(values))) && GoodValues(values)
    decreases |tokens| - p
  {
    hide *;
    ListIsEnded(tokens);
    ValuesStep(tokens, p, expected, done);
    LiteralIsRead(tokens, p);
    var value := ParseLiteral(tokens, p).value;
    if tokens[p + 1].tokenType.Comma? {
      var rest := ValuesWereRead(tokens, p + 2, expected, done + [value]);
      values := [value] + rest;
      MarkIsRead(tokens, p + 1);
      CommaThen(tokens, p, LiteralPiece(value), LiteralPieces(rest));
      MoreValues(value, rest);
      assert values[1..] == rest;
      Shifted(done, values);
    } else {
      values := [value];
      OneValue(value);
    }
  }

  lemma ListIsEnded(tokens: seq<Token>)
    requires GoodList(tokens)
    ensures Ended(tokens) && |tokens| <= MAX_TOKENS && tokens[|tokens| - 1].tokenType.EndOfText?
  {
    hide GoodPiece;
  }

  lemma NamesAreWithinLimits(names: seq<string>)
    requires names != [] && |names| <= MAX_COLUMNS && GoodNamed(names)
    ensures GoodNames(names)
  {
    hide GoodName;
  }

  lemma ColumnListParts(tokens: seq<Token>, p: nat)
    requires Ended(tokens) && p < |tokens| && ParseColumnList(tokens, p).Parsed?
    ensures if tokens[p].tokenType.LParen? then
              && p + 1 < |tokens| && ParseNames(tokens, p + 1, []).Parsed?
              && var r := ParseNames(tokens, p + 1, []);
                 && r.next < |tokens| && tokens[r.next].tokenType.RParen?
                 && ParseColumnList(tokens, p) == Parsed(Some(r.value), r.next + 1)
            else ParseColumnList(tokens, p) == Parsed(None, p)
  {
    hide ParseNames;
  }

  lemma ColumnListReads(tokens: seq<Token>, p: nat, names: seq<string>)
    requires Reads(tokens, p, [Marked(LParen)]) && Reads(tokens, p + 1, CommaSeparated(NamePieces(names)))
    requires Reads(tokens, p + 1 + |CommaSeparated(NamePieces(names))|, [Marked(RParen)])
    ensures Reads(tokens, p, ColumnListPieces(Some(names)))
    ensures |ColumnListPieces(Some(names))| == 2 + |CommaSeparated(NamePieces(names))|
  {
    var ps := CommaSeparated(NamePieces(names));
    assert ColumnListPieces(Some(names)) == [Marked(LParen)] + ps + [Marked(RParen)];
    hide *;
    ReadsSplit(tokens, p, [Marked(LParen)], ps);
    ReadsSplit(tokens, p, [Marked(LParen)] + ps, [Marked(RParen)]);
  }

  lemma NoColumnPieces()
    ensures ColumnListPieces(None) == []
  {
  }

  lemma ColumnListWasRead(tokens: seq<Token>, p: nat)
    requires GoodList(tokens) && p < |tokens| && ParseColumnList(tokens, p).Parsed?
    ensures var r := ParseColumnList(tokens, p);
            && Reads(tokens, p, ColumnListPieces(r.value)) && r.next == p + |ColumnListPieces(r.value)|
            && (r.value.Some? ==> GoodNames(r.value.value))
  {
    hide *;
    ListIsEnded(tokens);
    ColumnListParts(tokens, p);
    if tokens[p].tokenType.LParen? {
      var names := NamesWereRead(tokens, p + 1, []);
      assert [] + names == names;
      NamesAreWithinLimits(names);
      MarkIsRead(tokens, p);
      MarkIsRead(tokens, ParseNames(tokens, p + 1, []).next);
      ColumnListReads(tokens, p, names);
    } else {
      NoColumnPieces();
      ReadsNothing(tokens, p);
    }
  }

  lemma ReadsNothing(tokens: seq<Token>, p: nat)
    requires p <= |tokens|
    ensures Reads(tokens, p, [])
  {
  }

  lemma SelectionWasRead(tokens: seq<Token>, p: nat) returns (ps: seq<Piece>)
    requires GoodList(tokens) && p < |tokens| && ParseSelection(tokens, p).Parsed?
    ensures var r := ParseSelection(tokens, p);
            && ps == (if r.value.None? then [Piece(Star, "*")] else CommaSeparated(NamePieces(r.value.value)))
            && Reads(tokens, p, ps) && r.next == p + |ps|
            && (r.value.Some? ==> GoodNames(r.value.value))
  {
    hide GoodList, Reads, ParseNames, GoodNames;
    if tokens[p].tokenType.Star? {
      MarkIsRead(tokens, p);
      ps := [Marked(Star)];
    } else {
      var names := NamesWereRead(tokens, p, []);
      assert [] + names == names;
      NamesAreWithinLimits(names);
      ps := CommaSeparated(NamePieces(names));
    }
  }

  lemma WhereParts(tokens: seq<Token>, p: nat)
    requires Ended(tokens) && p < |tokens| && ParseWhere(tokens, p).Parsed? && tokens[p].tokenType.KeywordWhere?
    ensures p + 3 < |tokens| && ParseIdentifier(tokens, p + 1).Parsed? && ParseWhereOperator(tokens, p + 2).Parsed?
    ensures ParseLiteral(tokens, p + 3).Parsed?
    ensures var column, operator := ParseIdentifier(tokens, p + 1).value, ParseWhereOperator(tokens, p + 2).value;
            ParseWhere(tokens, p) == Parsed(Some(Where(column, operator, ParseLiteral(tokens, p + 3).value)), p + 4)
  {
    hide Ended;
  }

  lemma NoWhere(tokens: seq<Token>, p: nat)
    requires Ended(tokens) && p < |tokens| && !tokens[p].tokenType.KeywordWhere?
    ensures ParseWhere(tokens, p) == Parsed(None, p) && WherePieces(None) == []
  {
  }

  lemma WhereReads(tokens: seq<Token>, p: nat, condition: Where)
    requires Reads(tokens, p, [Marked(KeywordWhere)]) && Reads(tokens, p + 1, [Piece(Identifier, condition.column)])
    requires Reads(tokens, p + 2, [OperatorPiece(condition.operator)])
    requires Reads(tokens, p + 3, [LiteralPiece(condition.value)])
    ensures Reads(tokens, p, WherePieces(Some(condition))) && |WherePieces(Some(condition))| == 4
  {
    var a, b := Marked(KeywordWhere), Piece(Identifier, condition.column);
    var c, d := OperatorPiece(condition.operator), LiteralPiece(condition.value);
    assert WherePieces(Some(condition)) == [a, b, c] + [d];
    hide *;
    ReadsThree(tokens, p, a, b, c);
    ReadsSplit(tokens, p, [a, b, c], [d]);
  }

  lemma WhereWasRead(tokens: seq<Token>, p: nat)
    requires GoodList(tokens) && p < |tokens| && ParseWhere(tokens, p).Parsed?
    ensures var r := ParseWhere(tokens, p);
            && Reads(tokens, p, WherePieces(r.value)) && r.next == p + |WherePieces(r.value)|
            && (r.value.Some? ==> GoodName(r.value.value.column) && GoodValue(r.value.value.value))
  {
    hide *;
    ListIsEnded(tokens);
    if tokens[p].tokenType.KeywordWhere? {
      WhereParts(tokens, p);
      MarkIsRead(tokens, p);
      IdentifierIsRead(tokens, p + 1);
      OperatorIsRead(tokens, p + 2);
      LiteralIsRead(tokens, p + 3);
      WhereReads(tokens, p, ParseWhere(tokens, p).value.value);
    } else {
      NoWhere(tokens, p);
      ReadsNothing(tokens, p);
    }
  }

  /** The productions of an INSERT up to its column list. */
  lemma InsertHead(tokens: seq<Token>, p: nat)
    requires Ended(tokens) && p < |tokens| && ParseInsert(tokens, p).Parsed?
    ensures p + 3 < |tokens| && tokens[p].tokenType.KeywordInsert? && tokens[p + 1].tokenType.KeywordInto?
    ensures ParseIdentifier(tokens, p + 2).Parsed? && ParseColumnList(tokens, p + 3).Parsed?
  {
    hide ParseColumnList, ParseValues, Ended;
  }

  /** And behind that. */
  lemma InsertTail(tokens: seq<Token>, p: nat, columns: Option<seq<string>>, q: nat, expected: Option<nat>)
    requires Ended(tokens) && p + 3 < |tokens| && ParseInsert(tokens, p).Parsed?
    requires ParseIdentifier(tokens, p + 2).Parsed? && ParseColumnList(tokens, p + 3) == Parsed(columns, q)
    requires expected == if columns.Some? then Some(|columns.value|) else None
    ensures q + 2 < |tokens| && tokens[q].tokenType.KeywordValues? && tokens[q + 1].tokenType.LParen?
    ensures ParseValues(tokens, q + 2, expected, []).Parsed?
    ensures var values := ParseValues(tokens, q + 2, expected, []);
            && values.next < |tokens| && tokens[values.next].tokenType.RParen?
            && ParseInsert(tokens, p)
               == Parsed(Insert(ParseIdentifier(tokens, p + 2).value, columns, values.value), values.next + 1)
  {
    hide ParseColumnList, ParseValues, Ended;
  }

  lemma InsertWasRead(tokens: seq<Token>, p: nat)
    requires GoodList(tokens) && p < |tokens| && ParseInsert(tokens, p).Parsed?
    ensures var r := ParseInsert(tokens, p);
            && Reads(tokens, p, StatementPieces(r.value)) && r.next == p + |StatementPieces(r.value)|
            && GoodStatement(r.value)
  {
    hide *;
    ListIsEnded(tokens);
    InsertHead(tokens, p);
    var table, columns := ParseIdentifier(tokens, p + 2), ParseColumnList(tokens, p + 3);
    var q := columns.next;
    var expected := if columns.value.Some? then Some(|columns.value.value|) else None;
    InsertTail(tokens, p, columns.value, q, expected);
    var r := ParseValues(tokens, q + 2, expected, []);
    var values := ValuesWereRead(tokens, q + 2, expected, []);
    assert [] + values == values;
    ColumnListWasRead(tokens, p + 3);
    IdentifierIsRead(tokens, p + 2);
    MarkIsRead(tokens, p);
    MarkIsRead(tokens, p + 1);
    MarkIsRead(tokens, q);
    MarkIsRead(tokens, q + 1);
    MarkIsRead(tokens, r.next);
    ReadsThree(tokens, p, Marked(KeywordInsert), Marked(KeywordInto), Piece(Identifier, table.value));
    ReadsTwo(tokens, q, Marked(KeywordValues), Marked(LParen));
    InsertReads(tokens, p, table.value, columns.value, values);
    InsertIsWithinLimits(table.value, columns.value, values);
  }

  lemma InsertReads(tokens: seq<Token>, p: nat, table: string, columns: Option<seq<string>>, values: seq<Literal>)
    requires Reads(tokens, p, [Marked(KeywordInsert), Marked(KeywordInto), Piece(Identifier, table)])
    requires Reads(tokens, p + 3, ColumnListPieces(columns))
    requires Reads(tokens, p + 3 + |ColumnListPieces(columns)|, [Marked(KeywordValues), Marked(LParen)])
    requires var q := p + 5 + |ColumnListPieces(columns)|;
             var vs := CommaSeparated(LiteralPieces(values));
             Reads(tokens, q, vs) && Reads(tokens, q + |vs|, [Marked(RParen)])
    ensures Reads(tokens, p, StatementPieces(Insert(table, columns, values)))
    ensures |StatementPieces(Insert(table, columns, values))|
            == 6 + |ColumnListPieces(columns)| + |CommaSeparated(LiteralPieces(values))|
  {
    hide *;
    var a, b := [Marked(KeywordInsert), Marked(KeywordInto), Piece(Identifier, table)], ColumnListPieces(columns);
    var c, vs := [Marked(KeywordValues), Marked(LParen)], CommaSeparated(LiteralPieces(values));
    ReadsSplit(tokens, p, a, b);
    ReadsSplit(tokens, p, a + b, c);
    ReadsSplit(tokens, p, a + b + c, vs);
    ReadsSplit(tokens, p, a + b + c + vs, [Marked(RParen)]);
    InsertPiecesAre(table, columns, values);
  }

  lemma ReadsThree(tokens: seq<Token>, p: nat, a: Piece, b: Piece, c: Piece)
    requires Reads(tokens, p, [a]) && Reads(tokens, p + 1, [b]) && Reads(tokens, p + 2, [c])
    ensures Reads(tokens, p, [a, b, c])
  {
    hide Reads;
    ReadsTwo(tokens, p, a, b);
    ReadsSplit(tokens, p, [a, b], [c]);
    assert [a, b] + [c] == [a, b, c];
  }

  lemma ReadsTwo(tokens: seq<Token>, p: nat, a: Piece, b: Piece)
    requires Reads(tokens, p, [a]) && Reads(tokens, p + 1, [b])
    ensures Reads(tokens, p, [a, b])
  {
    hide Reads;
    ReadsSplit(tokens, p, [a], [b]);
    assert [a] + [b] == [a, b];
  }

  lemma InsertPiecesAre(table: string, columns: Option<seq<string>>, values: seq<Literal>)
    ensures StatementPieces(Insert(table, columns, values))
            == [Marked(KeywordInsert), Marked(KeywordInto), Piece(Identifier, table)] + ColumnListPieces(columns)
               + [Marked(KeywordValues), Marked(LParen)] + CommaSeparated(LiteralPieces(values)) + [Marked(RParen)]
  {
    hide ColumnListPieces, CommaSeparated, LiteralPieces;
  }

  lemma InsertIsWithinLimits(table: string, columns: Option<seq<string>>, values: seq<Literal>)
    requires GoodName(table) && (columns.Some? ==> GoodNames(columns.value) && |columns.value| == |values|)
    requires values != [] && |values| <= MAX_COLUMNS && GoodValues(values)
    ensures GoodStatement(Insert(table, columns, values))
  {
    hide GoodName, GoodNames, GoodValue;
  }

  lemma SelectHead(tokens: seq<Token>, p: nat)
    requires Ended(tokens) && p < |tokens| && ParseSelect(tokens, p).Parsed?
    ensures p + 1 < |tokens| && tokens[p].tokenType.KeywordSelect? && ParseSelection(tokens, p + 1).Parsed?
  {
    hide ParseSelection, ParseWhere, Ended;
  }

  lemma SelectTail(tokens: seq<Token>, p: nat, columns: Option<seq<string>>, q: nat)
    requires Ended(tokens) && p + 1 < |tokens| && ParseSelect(tokens, p).Parsed?
    requires ParseSelection(tokens, p + 1) == Parsed(columns, q)
    ensures q + 2 < |tokens| && tokens[q].tokenType.KeywordFrom?
    ensures ParseIdentifier(tokens, q + 1).Parsed? && ParseWhere(tokens, q + 2).Parsed?
    ensures var table, condition := ParseIdentifier(tokens, q + 1).value, ParseWhere(tokens, q + 2);
            ParseSelect(tokens, p) == Parsed(Select(table, columns, condition.value), condition.next)
  {
    hide ParseSelection, ParseWhere, Ended;
  }

  lemma SelectWasRead(tokens: seq<Token>, p: nat)
    requires GoodList(tokens) && p < |tokens| && ParseSelect(tokens, p).Parsed?
    ensures var r := ParseSelect(tokens, p);
            && Reads(tokens, p, StatementPieces(r.value)) && r.next == p + |StatementPieces(r.value)|
            && GoodStatement(r.value)
  {
    hide *;
    ListIsEnded(tokens);
    SelectHead(tokens, p);
    var columns := ParseSelection(tokens, p + 1);
    var q := columns.next;
    SelectTail(tokens, p, columns.value, q);
    var table, condition := ParseIdentifier(tokens, q + 1), ParseWhere(tokens, q + 2);
    var c := SelectionWasRead(tokens, p + 1);
    IdentifierIsRead(tokens, q + 1);
    WhereWasRead(tokens, q + 2);
    MarkIsRead(tokens, p);
    MarkIsRead(tokens, q);
    ReadsTwo(tokens, q, Marked(KeywordFrom), Piece(Identifier, table.value));
    SelectReads(tokens, p, table.value, columns.value, condition.value, c);
    SelectIsWithinLimits(table.value, columns.value, condition.value);
  }

  lemma SelectReads(tokens: seq<Token>, p: nat, table: string, columns: Option<seq<string>>, condition: Option<Where>,
                    c: seq<Piece>)
    requires c == if columns.None? then [Piece(Star, "*")] else CommaSeparated(NamePieces(columns.value))
    requires Reads(tokens, p, [Marked(KeywordSelect)]) && Reads(tokens, p + 1, c)
    requires Reads(tokens, p + 1 + |c|, [Marked(KeywordFrom), Piece(Identifier, table)])
    requires Reads(tokens, p + 3 + |c|, WherePieces(condition))
    ensures Reads(tokens, p, StatementPieces(Select(table, columns, condition)))
    ensures |StatementPieces(Select(table, columns, condition))| == 3 + |c| + |WherePieces(condition)|
  {
    hide *;
    var a, b, w := [Marked(KeywordSelect)], [Marked(KeywordFrom), Piece(Identifier, table)], WherePieces(condition);
    ReadsSplit(tokens, p, a, c);
    ReadsSplit(tokens, p, a + c, b);
    ReadsSplit(tokens, p, a + c + b, w);
    SelectPiecesAre(table, columns, condition, c);
  }

  lemma SelectPiecesAre(table: string, columns: Option<seq<string>>, condition: Option<Where>, c: seq<Piece>)
    requires c == if columns.None? then [Piece(Star, "*")] else CommaSeparated(NamePieces(columns.value))
    ensures StatementPieces(Select(table, columns, condition))
            == [Marked(KeywordSelect)] + c + [Marked(KeywordFrom), Piece(Identifier, table)] + WherePieces(condition)
  {
    hide WherePieces, CommaSeparated, NamePieces;
  }

  lemma SelectIsWithinLimits(table: string, columns: Option<seq<string>>, condition: Option<Where>)
    requires GoodName(table) && (columns.Some? ==> GoodNames(columns.value))
    requires condition.Some? ==> GoodName(condition.value.column) && GoodValue(condition.value.value)
    ensures GoodStatement(Select(table, columns, condition))
  {
    hide GoodName, GoodNames, GoodValue;
  }

  lemma StatementWasRead(tokens: seq<Token>, p: nat)
    requires GoodList(tokens) && p < |tokens| && ParseStatement(tokens, p).Parsed?
    ensures var r := ParseStatement(tokens, p);
            && Reads(tokens, p, StatementPieces(r.value)) && r.next == p + |StatementPieces(r.value)|
            && GoodStatement(r.value)
  {
    hide GoodList, Reads, StatementPieces, GoodStatement, ParseInsert, ParseSelect;
    if tokens[p].tokenType.KeywordInsert? {
      InsertWasRead(tokens, p);
    } else if tokens[p].tokenType.KeywordSelect? {
      SelectWasRead(tokens, p);
    }
  }

  lemma StatementsStep(tokens: seq<Token>, p: nat, done: seq<Statement>)
    requires Ended(tokens) && p < |tokens| && ParseStatements(tokens, p, done).Parsed?
    ensures if tokens[p].tokenType.EndOfText? then ParseStatements(tokens, p, done) == Parsed(done, p)
            else
              && |done| < MAX_STATEMENTS && ParseStatement(tokens, p).Parsed?
              && var s := ParseStatement(tokens, p);
                 && s.next + 1 < |tokens| && tokens[s.next].tokenType.Semicolon?
                 && ParseStatements(tokens, p, done) == ParseStatements(tokens, s.next + 1, done + [s.value])
  {
    hide ParseStatement;
  }

  ghost predicate GoodStatements(program: seq<Statement>) {
    forall i | 0 <= i < |program| :: GoodStatement(program[i])
  }

  lemma OneMoreStatement(tokens: seq<Token>, p: nat, s: Statement, rest: seq<Statement>)
    requires GoodStatement(s) && GoodStatements(rest)
    requires Reads(tokens, p, StatementPieces(s)) && Reads(tokens, p + |StatementPieces(s)|, [Marked(Semicolon)])
    requires Reads(tokens, p + |StatementPieces(s)| + 1, ProgramPieces(rest))
    ensures Reads(tokens, p, ProgramPieces([s] + rest)) && GoodStatements([s] + rest)
    ensures |ProgramPieces([s] + rest)| == |StatementPieces(s)| + 1 + |ProgramPieces(rest)|
  {
    hide GoodStatement, StatementPieces;
    var ps := StatementPieces(s);
    assert ([s] + rest)[1..] == rest;
    assert ProgramPieces([s] + rest) == ps + [Marked(Semicolon)] + ProgramPieces(rest);
    hide *;
    ReadsSplit(tokens, p, ps, [Marked(Semicolon)]);
    ReadsSplit(tokens, p, ps + [Marked(Semicolon)], ProgramPieces(rest));
  }

  lemma NoStatements(tokens: seq<Token>, p: nat)
    requires Ended(tokens) && p < |tokens| && tokens[p].tokenType.EndOfText?
    ensures p == |tokens| - 1 && ProgramPieces([]) == [] && GoodStatements([]) && Reads(tokens, p, [])
  {
  }

  lemma {:induction false} StatementsWereRead(tokens: seq<Token>, p: nat, done: seq<Statement>)
    returns (program: seq<Statement>)
    requires GoodList(tokens) && p < |tokens| && |done| <= MAX_STATEMENTS
    requires ParseStatements(tokens, p, done).Parsed?
    ensures ParseStatements(tokens, p, done).value == done + program && |done| + |program| <= MAX_STATEMENTS
    ensures Reads(tokens, p, ProgramPieces(program)) && p + |ProgramPieces(program)| == |tokens| - 1
    ensures GoodStatements(program)
    decreases |tokens| - p
  {
    hide *;
    ListIsEnded(tokens);
    StatementsStep(tokens, p, done);
    if tokens[p].tokenType.EndOfText? {
      program := [];
      assert done + [] == done;
      NoStatements(tokens, p);
    } else {
      var statement := ParseStatement(tokens, p);
      StatementWasRead(tokens, p);
      MarkIsRead(tokens, statement.next);
      var rest := StatementsWereRead(tokens, statement.next + 1, done + [statement.value]);
      program := [statement.value] + rest;
      assert program[1..] == rest;
      Shifted(done, program);
      OneMoreStatement(tokens, p, statement.value, rest);
    }
  }

  // ---------- Reading, exactly ----------

  lemma ReadParts(sql: string)
    requires Read(sql).Some?
    ensures Lex(sql, 0, []).Tokens?
    ensures var items := Lex(sql, 0, []).items;
            && Ended(items) && !items[0].tokenType.EndOfText?
            && ParseStatements(items, 0, []).Parsed? && Read(sql).value == ParseStatements(items, 0, []).value
  {
    hide Lex, ParseStatements, Ended;
  }

  lemma ProgramIsWithinLimits(items: seq<Token>, program: seq<Statement>)
    requires 0 < |items| <= MAX_TOKENS && |ProgramPieces(program)| == |items| - 1
    requires !items[0].tokenType.EndOfText? && items[|items| - 1].tokenType.EndOfText?
    requires |program| <= MAX_STATEMENTS && GoodStatements(program)
    ensures GoodProgram(program)
  {
    hide GoodStatement, StatementPieces;
  }

  lemma TokenizedIs(items: seq<Token>, pieces: seq<Piece>)
    requires |items| == |pieces| + 1 && Reads(items, 0, pieces) && items[|pieces|].tokenType.EndOfText?
    ensures Tokenized(Tokens(items), [], pieces)
  {
    hide Reads;
  }

  /** A text that is read as a program is tokenized into that program written out. */
  lemma {:induction false} AcceptedIsGood(sql: string)
    requires Read(sql).Some?
    ensures GoodProgram(Read(sql).value) && Tokenized(Lex(sql, 0, []), [], ProgramPieces(Read(sql).value))
  {
    hide *;
    ReadParts(sql);
    var items := Lex(sql, 0, []).items;
    TokensAreGood(sql);
    ListIsEnded(items);
    var program := StatementsWereRead(items, 0, []);
    assert [] + program == program;
    ProgramIsWithinLimits(items, program);
    TokenizedIs(items, ProgramPieces(program));
  }

  lemma TokenizedMeans(r: Result, pieces: seq<Piece>)
    requires Tokenized(r, [], pieces)
    ensures r.Tokens? && |r.items| == |pieces| + 1 && r.items[|pieces|].tokenType.EndOfText?
    ensures Reads(r.items, 0, pieces + [Piece(EndOfText, r.items[|pieces|].text)])
  {
    var items, n := r.items, |pieces|;
    hide Kind;
    assert Reads(items, 0, pieces);
    LastKind(items[n]);
    ReadsOne(items, n, Piece(EndOfText, items[n].text));
    ReadsSplit(items, 0, pieces, [Piece(EndOfText, items[n].text)]);
  }

  lemma LastKind(token: Token)
    requires token.tokenType.EndOfText?
    ensures Kind(token) == Piece(EndOfText, token.text)
  {
  }

  /** A program that is tokenized as it is written out is read. */
  lemma {:induction false} TokenizedIsRead(sql: string, program: seq<Statement>)
    requires GoodProgram(program) && Tokenized(Lex(sql, 0, []), [], ProgramPieces(program))
    ensures Read(sql) == Some(program)
  {
    hide *;
    var pieces := ProgramPieces(program);
    ProgramIsGood(program);
    TokenizedMeans(Lex(sql, 0, []), pieces);
    var items := Lex(sql, 0, []).items;
    EndIsEmpty(sql);
    var at := TokensStandInText(sql);
    GoodIsEnded(items);
    StatementsAreRead(items, 0, program, []);
    assert [] + program == program;
    NotEmpty(items, program);
    ReadIs(sql, program, |pieces|);
  }

  lemma EndIsEmpty(sql: string)
    requires Lex(sql, 0, []).Tokens?
    ensures var items := Lex(sql, 0, []).items; items != [] && items[|items| - 1].text == ""
  {
    var at := TokensStandInText(sql);
    var items := Lex(sql, 0, []).items;
    assert StandsAt(sql, items[|items| - 1], at[|items| - 1]);
    hide Lex, LexAt, LineOf, ColumnOf, GoodText;
  }

  lemma ProgramWritten(program: seq<Statement>)
    requires GoodProgram(program)
    ensures AllGood(ProgramPieces(program)) && |ProgramPieces(program)| + 1 <= MAX_TOKENS
  {
    hide GoodPiece;
    ProgramIsGood(program);
  }

  /** A text is read as a program exactly when the program keeps the limits and the text spells it:
      its words in any mixture of capitals and small letters, with blanks of any kind between
      tokens, or none where they do not run together. */
  lemma {:induction false} ReadExactly(sql: string, program: seq<Statement>)
    ensures Read(sql) == Some(program) <==> GoodProgram(program) && Writes(sql, 0, ProgramPieces(program))
  {
    hide *;
    TokenizedExactly(sql, ProgramPieces(program));
    if Read(sql) == Some(program) {
      AcceptedIsGood(sql);
    }
    if GoodProgram(program) && Writes(sql, 0, ProgramPieces(program)) {
      ProgramWritten(program);
      TokenizedIsRead(sql, program);
    }
  }

  /** In particular a program written out with a blank after each token is read back. */
  lemma {:induction false} FrontEndRoundTrip(program: seq<Statement>)
    requires GoodProgram(program)
    ensures Read(Rendered(ProgramPieces(program))) == Some(program)
  {
    hide *;
    var pieces := ProgramPieces(program);
    ProgramWritten(program);
    assert Rendered(pieces)[0..] == Rendered(pieces);
    RenderingIsWritten(pieces, Rendered(pieces), 0);
    ReadExactly(Rendered(pieces), program);
  }

  /** So the programs within the limits are exactly the programs that some text is read as. */
  lemma {:induction false} ReadableExactly(program: seq<Statement>)
    ensures GoodProgram(program) <==> exists sql :: Read(sql) == Some(program)
  {
    hide *;
    if GoodProgram(program) {
      FrontEndRoundTrip(program);
    }
    if sql :| Read(sql) == Some(program) {
      ReadExactly(sql, program);
    }
  }
}
