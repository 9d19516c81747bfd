/** Tokenizer and parser together: what the executor may expect of a parsed program, and
    that a program written out in a canonical form is read back as that program. */
module FrontEnd {
  import opened Wrappers
  import opened Limits
  import opened Numbers
  import opened Sql
  import opened Tokenizer
  import opened Parser
  import Csv
  import Coherence
  import Runs

  // ---------- What the executor may expect ----------

  lemma {:induction false} ValuesAreClean(tokens: seq<Token>, p: nat, expected: Option<nat>, values: seq<Literal>)
    requires Ended(tokens) && GoodTokens(tokens) && p < |tokens| && Coherence.CleanLiterals(values)
    ensures var r := ParseValues(tokens, p, expected, values); r.Parsed? ==> Coherence.CleanLiterals(r.value)
    decreases |tokens| - p
  {
    hide Csv.Clean, IsNumeral;
    if |values| < MAX_COLUMNS && (expected.Some? ==> |values| < expected.value) && ParseLiteral(tokens, p).Parsed? {
      var value := ParseLiteral(tokens, p).value;
      GoodLiteral(tokens, p);
      if tokens[p + 1].tokenType.Comma? {
        ValuesAreClean(tokens, p + 2, expected, values + [value]);
      }
    }
  }

  lemma GoodLiteral(tokens: seq<Token>, p: nat)
    requires Ended(tokens) && GoodTokens(tokens) && p < |tokens| && ParseLiteral(tokens, p).Parsed?
    ensures var v := ParseLiteral(tokens, p).value; Csv.Clean(v.text) && |v.text| <= MAX_TEXT_LEN
  {
    assert GoodText(tokens[p]);
  }

  lemma {:induction false} StatementIsAcceptable(tokens: seq<Token>, p: nat)
    requires Ended(tokens) && GoodTokens(tokens) && p < |tokens| && ParseStatement(tokens, p).Parsed?
    ensures Runs.Acceptable(ParseStatement(tokens, p).value)
  {
    hide Coherence.CleanLiterals;
    if tokens[p].tokenType.KeywordInsert? {
      InsertIsAcceptable(tokens, p);
    }
  }

  lemma {:induction false} InsertIsAcceptable(tokens: seq<Token>, p: nat)
    requires Ended(tokens) && GoodTokens(tokens) && p < |tokens| && ParseInsert(tokens, p).Parsed?
    ensures Runs.Acceptable(ParseInsert(tokens, p).value)
  {
    var a := Consume(tokens, p, KeywordInsert);
    var b := Consume(tokens, a.next, KeywordInto);
    var table := ParseIdentifier(tokens, b.next);
    var columns := ParseColumnList(tokens, table.next);
    var c := Consume(tokens, columns.next, KeywordValues);
    var d := Consume(tokens, c.next, LParen);
    assert Coherence.CleanLiterals([]);
    hide Coherence.CleanLiterals, GoodTokens;
    ValuesAreClean(tokens, d.next, if columns.value.Some? then Some(|columns.value.value|) else None, []);
  }

  /** Every statement that comes out of the front end meets what the executor and the run
      invariant ask of statements. */
  lemma {:induction false} StatementsAreAcceptable(tokens: seq<Token>, p: nat, program: seq<Statement>)
    requires Ended(tokens) && GoodTokens(tokens) && p < |tokens| && forall s | s in program :: Runs.Acceptable(s)
    ensures var r := ParseStatements(tokens, p, program);
            r.Parsed? ==> forall s | s in r.value :: Runs.Acceptable(s)
    decreases |tokens| - p
  {
    hide Runs.Acceptable, ParseStatement, GoodTokens;
    if !tokens[p].tokenType.EndOfText? && |program| < MAX_STATEMENTS && ParseStatement(tokens, p).Parsed? {
      var statement := ParseStatement(tokens, p);
      StatementIsAcceptable(tokens, p);
      var close := Consume(tokens, statement.next, Semicolon);
      if close.Parsed? {
        StatementsAreAcceptable(tokens, close.next, program + [statement.value]);
      }
    }
  }

  /** Both passes. */
  function Read(sql: string): Option<seq<Statement>> {
    match Lex(sql, 0, [])
    case Failure(_, _) => None
    case Tokens(items) =>
      if !Ended(items) then None
      else
        match ParseProgram(items)
        case Rejected(_) => None
        case Parsed(program, _) => Some(program)
  }

  lemma {:induction false} ReadIsAcceptable(sql: string)
    requires Read(sql).Some?
    ensures forall s | s in Read(sql).value :: Runs.Acceptable(s)
  {
    var at := TokensStandInText(sql);
    hide Lex, Runs.Acceptable, ParseStatements, GoodTokens;
    StatementsAreAcceptable(Lex(sql, 0, []).items, 0, []);
  }

  // ---------- Writing a program out ----------

  datatype Piece = Piece(tokenType: TokenType, text: string)

  function CommaSeparated(pieces: seq<Piece>): seq<Piece> {
    if |pieces| <= 1 then pieces else [pieces[0], Piece(Comma, ",")] + CommaSeparated(pieces[1..])
  }

  function NamePieces(names: seq<string>): (r: seq<Piece>)
    ensures |r| == |names|
  {
    seq(|names|, i requires 0 <= i < |names| => Piece(Identifier, names[i]))
  }

  function LiteralPiece(value: Literal): Piece {
    Piece(if value.literalType.IntLiteral? then Number else Text, value.text)
  }

  function LiteralPieces(values: seq<Literal>): (r: seq<Piece>)
    ensures |r| == |values|
  {
    seq(|values|, i requires 0 <= i < |values| => LiteralPiece(values[i]))
  }

  function ColumnListPieces(columns: Option<seq<string>>): seq<Piece> {
    if columns.None? then []
    else [Piece(LParen, "(")] + CommaSeparated(NamePieces(columns.value)) + [Piece(RParen, ")")]
  }

  function OperatorPiece(operator: Operator): Piece {
    match operator
    case Equal => Piece(TokenType.Equal, "=")
    case Greater => Piece(TokenType.Greater, ">")
    case Less => Piece(TokenType.Less, "<")
    case NotEqual => Piece(BangEqual, "!=")
  }

  function WherePieces(condition: Option<Where>): seq<Piece> {
    if condition.None? then []
    else [Piece(KeywordWhere, "where"), Piece(Identifier, condition.value.column),
          OperatorPiece(condition.value.operator), LiteralPiece(condition.value.value)]
  }

  function StatementPieces(statement: Statement): seq<Piece> {
    match statement
    case Insert(table, columns, values) =>
      [Piece(KeywordInsert, "insert"), Piece(KeywordInto, "into"), Piece(Identifier, table)]
      + ColumnListPieces(columns)
      + [Piece(KeywordValues, "values"), Piece(LParen, "(")]
      + CommaSeparated(LiteralPieces(values)) + [Piece(RParen, ")")]
    case Select(table, columns, condition) =>
      [Piece(KeywordSelect, "select")]
      + (if columns.None? then [Piece(Star, "*")] else CommaSeparated(NamePieces(columns.value)))
      + [Piece(KeywordFrom, "from"), Piece(Identifier, table)]
      + WherePieces(condition)
  }

  function ProgramPieces(program: seq<Statement>): seq<Piece> {
    if program == [] then [] else StatementPieces(program[0]) + [Piece(Semicolon, ";")] + ProgramPieces(program[1..])
  }

  function Spelled(piece: Piece): string {
    if piece.tokenType.Text? then "'" + piece.text + "'" else piece.text
  }

  /** The pieces with a blank after each. */
  function Rendered(pieces: seq<Piece>): string {
    if pieces == [] then "" else Spelled(pieces[0]) + " " + Rendered(pieces[1..])
  }

  // ---------- Limits ----------

  /** A lower-case identifier that is no keyword. */
  predicate GoodName(name: string) {
    && 0 < |name| < MAX_NAME_LEN
    && !('0' <= name[0] <= '9')
    && (forall i | 0 <= i < |name| :: 'a' <= name[i] <= 'z' || '0' <= name[i] <= '9' || name[i] == '_')
    && name != "insert" && name != "into" && name != "values"
    && name != "select" && name != "from" && name != "where"
  }

  predicate GoodValue(value: Literal) {
    && |value.text| < MAX_VALUE_LEN
    && if value.literalType.IntLiteral? then IsNumeral(value.text) else Csv.Clean(value.text) && '\'' !in value.text
  }

  /** Any id can be written in a statement. */
  lemma {:induction false} IdIsGoodValue(id: int)
    requires InRange(id)
    ensures GoodValue(Literal(IntLiteral, IntToText(id)))
  {
    IntIsNumeral(id);
    IntIsShort(id);
  }

  predicate GoodNames(names: seq<string>) {
    1 <= |names| <= MAX_COLUMNS && forall i | 0 <= i < |names| :: GoodName(names[i])
  }

  predicate GoodStatement(statement: Statement) {
    match statement
    case Insert(table, columns, values) =>
      && GoodName(table) && (columns.Some? ==> GoodNames(columns.value) && |columns.value| == |values|)
      && 1 <= |values| <= MAX_COLUMNS && forall i | 0 <= i < |values| :: GoodValue(values[i])
    case Select(table, columns, condition) =>
      && GoodName(table) && (columns.Some? ==> GoodNames(columns.value))
      && (condition.Some? ==> GoodName(condition.value.column) && GoodValue(condition.value.value))
  }

  predicate GoodProgram(program: seq<Statement>) {
    && 1 <= |program| <= MAX_STATEMENTS
    && (forall i | 0 <= i < |program| :: GoodStatement(program[i]))
    && |ProgramPieces(program)| + 1 <= MAX_TOKENS
  }

  /** The one spelling of a keyword, in lower case, or of a symbol. */
  function Mark(tokenType: TokenType): string {
    match tokenType
    case Comma => ","
    case Semicolon => ";"
    case LParen => "("
    case RParen => ")"
    case Star => "*"
    case Equal => "="
    case Greater => ">"
    case Less => "<"
    case BangEqual => "!="
    case KeywordInsert => "insert"
    case KeywordInto => "into"
    case KeywordValues => "values"
    case KeywordSelect => "select"
    case KeywordFrom => "from"
    case KeywordWhere => "where"
    case _ => ""
  }

  /** A piece that can stand in a text. */
  predicate GoodPiece(piece: Piece) {
    match piece.tokenType
    case Identifier => GoodName(piece.text)
    case Number => |piece.text| < MAX_VALUE_LEN && IsNumeral(piece.text)
    case Text => |piece.text| < MAX_VALUE_LEN && Csv.Clean(piece.text) && '\'' !in piece.text
    case EndOfText => false
    case _ => piece.text == Mark(piece.tokenType)
  }

  // ---------- Tokens and pieces ----------

  predicate IsKeyword(tokenType: TokenType) {
    tokenType.KeywordInsert? || tokenType.KeywordInto? || tokenType.KeywordValues? || tokenType.KeywordSelect?
    || tokenType.KeywordFrom? || tokenType.KeywordWhere?
  }

  /** A token as a piece; the case of a keyword does not matter. */
  function Kind(token: Token): Piece {
    Piece(token.tokenType, if IsKeyword(token.tokenType) then Lowercase(token.text) else token.text)
  }

  /** The tokens from `p` on have these types and texts. */
  ghost predicate Reads(tokens: seq<Token>, p: nat, pieces: seq<Piece>) {
    p + |pieces| <= |tokens| && forall k | 0 <= k < |pieces| :: Kind(tokens[p + k]) == pieces[k]
  }

  lemma ReadsSplit(tokens: seq<Token>, p: nat, a: seq<Piece>, b: seq<Piece>)
    ensures Reads(tokens, p, a + b) <==> Reads(tokens, p, a) && Reads(tokens, p + |a|, b)
  {
    var all := a + b;
    if Reads(tokens, p, all) {
      forall k | 0 <= k < |a|
        ensures Kind(tokens[p + k]) == a[k]
      {
        assert all[k] == a[k];
      }
      forall k | 0 <= k < |b|
        ensures Kind(tokens[p + |a| + k]) == b[k]
      {
        assert all[|a| + k] == b[k];
        assert Kind(tokens[p + (|a| + k)]) == all[|a| + k];
      }
    }
    if Reads(tokens, p, a) && Reads(tokens, p + |a|, b) {
      forall k | 0 <= k < |all|
        ensures Kind(tokens[p + k]) == all[k]
      {
        if k >= |a| {
          assert Kind(tokens[p + |a| + (k - |a|)]) == b[k - |a|];
        }
      }
    }
  }

  lemma ReadsFirst(tokens: seq<Token>, p: nat, piece: Piece, rest: seq<Piece>)
    ensures Reads(tokens, p, [piece] + rest) <==> p < |tokens| && Kind(tokens[p]) == piece && Reads(tokens, p + 1, rest)
  {
    ReadsSplit(tokens, p, [piece], rest);
    if Reads(tokens, p, [piece]) {
      assert Kind(tokens[p + 0]) == [piece][0];
    }
    if p < |tokens| && Kind(tokens[p]) == piece {
      assert forall k | 0 <= k < 1 :: Kind(tokens[p + k]) == [piece][k];
      assert Reads(tokens, p, [piece]);
    }
  }

  // ---------- Parsing the tokens back ----------

  lemma NamePiecesFirst(names: seq<string>)
    requires names != []
    ensures NamePieces(names) == [Piece(Identifier, names[0])] + NamePieces(names[1..])
  {
  }

  lemma LiteralPiecesFirst(values: seq<Literal>)
    requires values != []
    ensures LiteralPieces(values) == [LiteralPiece(values[0])] + LiteralPieces(values[1..])
  {
    hide LiteralPiece;
  }

  lemma CommaFirst(piece: Piece, rest: seq<Piece>)
    requires rest != []
    ensures CommaSeparated([piece] + rest) == [piece] + ([Piece(Comma, ",")] + CommaSeparated(rest))
  {
    var all := [piece] + rest;
    assert all[1..] == rest;
    assert [piece, Piece(Comma, ",")] + CommaSeparated(rest) == [piece] + ([Piece(Comma, ",")] + CommaSeparated(rest));
  }

  lemma Shifted<E>(done: seq<E>, all: seq<E>)
    requires all != []
    ensures (done + [all[0]]) + all[1..] == done + all
  {
  }

  lemma {:induction false} NamesAreRead(tokens: seq<Token>, p: nat, names: seq<string>, done: seq<string>)
    requires Ended(tokens) && names != [] && |done| + |names| <= MAX_COLUMNS
    requires forall i | 0 <= i < |names| :: |names[i]| < MAX_NAME_LEN
    requires var ps := CommaSeparated(NamePieces(names));
             Reads(tokens, p, ps) && p + |ps| < |tokens| && !tokens[p + |ps|].tokenType.Comma?
    ensures p < |tokens| && ParseNames(tokens, p, done) == Parsed(done + names, p + |CommaSeparated(NamePieces(names))|)
    decreases |names|
  {
    NamePiecesFirst(names);
    var first, rest := Piece(Identifier, names[0]), names[1..];
    if rest == [] {
      assert CommaSeparated(NamePieces(names)) == [first] + [];
      ReadsFirst(tokens, p, first, []);
      assert done + [names[0]] == done + names;
    } else {
      var more := CommaSeparated(NamePieces(rest));
      CommaFirst(first, NamePieces(rest));
      ReadsFirst(tokens, p, first, [Piece(Comma, ",")] + more);
      ReadsFirst(tokens, p + 1, Piece(Comma, ","), more);
      hide Reads, CommaSeparated, NamePieces;
      NamesAreRead(tokens, p + 2, rest, done + [names[0]]);
      Shifted(done, names);
    }
  }

  lemma ValueThenComma(tokens: seq<Token>, p: nat, value: Literal, expected: Option<nat>, done: seq<Literal>)
    requires Ended(tokens) && p + 1 < |tokens| && Kind(tokens[p]) == LiteralPiece(value)
    requires Kind(tokens[p + 1]) == Piece(Comma, ",")
    requires |done| + 1 < MAX_COLUMNS && (expected.Some? ==> |done| + 1 < expected.value)
    ensures p + 2 < |tokens|
    ensures ParseValues(tokens, p, expected, done) == ParseValues(tokens, p + 2, expected, done + [value])
  {
  }

  lemma {:induction false} ValuesAreRead(tokens: seq<Token>, p: nat, values: seq<Literal>, expected: Option<nat>,
                                         done: seq<Literal>)
    requires Ended(tokens) && values != [] && |done| + |values| <= MAX_COLUMNS
    requires expected.Some? ==> expected.value == |done| + |values|
    requires var ps := CommaSeparated(LiteralPieces(values));
             Reads(tokens, p, ps) && p + |ps| < |tokens| && !tokens[p + |ps|].tokenType.Comma?
    ensures p < |tokens|
    ensures ParseValues(tokens, p, expected, done) == Parsed(done + values, p + |CommaSeparated(LiteralPieces(values))|)
    decreases |values|
  {
    LiteralPiecesFirst(values);
    var first, rest := LiteralPiece(values[0]), values[1..];
    if rest == [] {
      assert CommaSeparated(LiteralPieces(values)) == [first] + [];
      ReadsFirst(tokens, p, first, []);
      assert done + [values[0]] == done + values;
    } else {
      var more := CommaSeparated(LiteralPieces(rest));
      hide *;
      CommaFirst(first, LiteralPieces(rest));
      ReadsFirst(tokens, p, first, [Piece(Comma, ",")] + more);
      ReadsFirst(tokens, p + 1, Piece(Comma, ","), more);
      ValueThenComma(tokens, p, values[0], expected, done);
      ValuesAreRead(tokens, p + 2, rest, expected, done + [values[0]]);
      Shifted(done, values);
    }
  }

  /** Where the pieces of an INSERT stand. */
  lemma InsertPlaces(tokens: seq<Token>, p: nat, statement: Statement)
    requires statement.Insert? && Reads(tokens, p, StatementPieces(statement))
    ensures var c, vs := ColumnListPieces(statement.columns), CommaSeparated(LiteralPieces(statement.values));
            var q := p + 3 + |c|;
            && |StatementPieces(statement)| == 6 + |c| + |vs| && q + 2 + |vs| < |tokens|
            && Kind(tokens[p]) == Piece(KeywordInsert, "insert") && Kind(tokens[p + 1]) == Piece(KeywordInto, "into")
            && Kind(tokens[p + 2]) == Piece(Identifier, statement.table)
            && Reads(tokens, p + 3, c)
            && Kind(tokens[q]) == Piece(KeywordValues, "values") && Kind(tokens[q + 1]) == Piece(LParen, "(")
            && Reads(tokens, q + 2, vs) && Kind(tokens[q + 2 + |vs|]) == Piece(RParen, ")")
  {
    hide *;
    var a := [Piece(KeywordInsert, "insert"), Piece(KeywordInto, "into"), Piece(Identifier, statement.table)];
    var b, r := [Piece(KeywordValues, "values"), Piece(LParen, "(")], [Piece(RParen, ")")];
    var c, vs := ColumnListPieces(statement.columns), CommaSeparated(LiteralPieces(statement.values));
    InsertParts(statement);
    ReadsSplit(tokens, p, a + c + b + vs, r);
    ReadsSplit(tokens, p, a + c + b, vs);
    ReadsSplit(tokens, p, a + c, b);
    ReadsSplit(tokens, p, a, c);
    var q := p + 3 + |c|;
    ReadsAt(tokens, p, a, 0);
    ReadsAt(tokens, p, a, 1);
    ReadsAt(tokens, p, a, 2);
    ReadsAt(tokens, q, b, 0);
    ReadsAt(tokens, q, b, 1);
    ReadsAt(tokens, q + 2 + |vs|, r, 0);
  }

  lemma InsertParts(statement: Statement)
    requires statement.Insert?
    ensures StatementPieces(statement)
            == [Piece(KeywordInsert, "insert"), Piece(KeywordInto, "into"), Piece(Identifier, statement.table)]
               + ColumnListPieces(statement.columns) + [Piece(KeywordValues, "values"), Piece(LParen, "(")]
               + CommaSeparated(LiteralPieces(statement.values)) + [Piece(RParen, ")")]
  {
    hide ColumnListPieces, CommaSeparated, LiteralPieces;
  }

  lemma ReadsAt(tokens: seq<Token>, p: nat, pieces: seq<Piece>, k: nat)
    requires Reads(tokens, p, pieces) && k < |pieces|
    ensures p + k < |tokens| && Kind(tokens[p + k]) == pieces[k]
  {
    hide Kind;
  }

  lemma NamesAreShort(names: seq<string>)
    requires GoodNames(names)
    ensures names != [] && |names| <= MAX_COLUMNS && forall i | 0 <= i < |names| :: |names[i]| < MAX_NAME_LEN
  {
  }

  lemma ColumnListIsRead(tokens: seq<Token>, p: nat, columns: Option<seq<string>>)
    requires Ended(tokens) && Reads(tokens, p, ColumnListPieces(columns))
    requires (columns.Some? ==> GoodNames(columns.value))
    requires p + |ColumnListPieces(columns)| < |tokens| && !tokens[p + |ColumnListPieces(columns)|].tokenType.LParen?
    ensures ParseColumnList(tokens, p) == Parsed(columns, p + |ColumnListPieces(columns)|)
  {
    hide *;
    ColumnListIs(columns);
    if columns.Some? {
      NamesAreShort(columns.value);
      var ps := CommaSeparated(NamePieces(columns.value));
      ReadsSplit(tokens, p, [Piece(LParen, "(")] + ps, [Piece(RParen, ")")]);
      ReadsFirst(tokens, p, Piece(LParen, "("), ps);
      ReadsLast(tokens, p + 1 + |ps|, Piece(RParen, ")"));
      KindMeans(tokens[p], LParen, "(");
      KindMeans(tokens[p + 1 + |ps|], RParen, ")");
      NamesAreRead(tokens, p + 1, columns.value, []);
      assert [] + columns.value == columns.value;
      ColumnListAssembled(tokens, p, columns.value, p + 1 + |ps|);
    } else {
      NoColumnList(tokens, p);
    }
  }

  lemma ColumnListIs(columns: Option<seq<string>>)
    ensures columns.None? ==> ColumnListPieces(columns) == []
    ensures columns.Some? ==>
              ColumnListPieces(columns)
              == [Piece(LParen, "(")] + CommaSeparated(NamePieces(columns.value)) + [Piece(RParen, ")")]
  {
  }

  lemma NoColumnList(tokens: seq<Token>, p: nat)
    requires Ended(tokens) && p < |tokens| && !tokens[p].tokenType.LParen?
    ensures ParseColumnList(tokens, p) == Parsed(None, p)
  {
  }

  lemma ColumnListAssembled(tokens: seq<Token>, p: nat, names: seq<string>, e: nat)
    requires Ended(tokens) && p + 1 < |tokens| && e < |tokens| && tokens[p].tokenType.LParen?
    requires tokens[e].tokenType.RParen?
    requires ParseNames(tokens, p + 1, []) == Parsed(names, e)
    ensures ParseColumnList(tokens, p) == Parsed(Some(names), e + 1)
  {
    hide ParseNames;
  }

  lemma ReadsLast(tokens: seq<Token>, p: nat, piece: Piece)
    requires Reads(tokens, p, [piece])
    ensures p < |tokens| && Kind(tokens[p]) == piece
  {
    assert Kind(tokens[p + 0]) == [piece][0];
  }

  lemma InsertIsGood(statement: Statement)
    requires statement.Insert? && GoodStatement(statement)
    ensures statement.values != [] && |statement.values| <= MAX_COLUMNS && |statement.table| < MAX_NAME_LEN
    ensures statement.columns.Some? ==>
              GoodNames(statement.columns.value) && |statement.columns.value| == |statement.values|
  {
  }

  lemma SelectIsGood(statement: Statement)
    requires statement.Select? && GoodStatement(statement)
    ensures GoodName(statement.table) && |statement.table| < MAX_NAME_LEN
    ensures (statement.columns.Some? ==> GoodNames(statement.columns.value))
    ensures statement.condition.Some? ==>
              GoodName(statement.condition.value.column) && GoodValue(statement.condition.value.value)
  {
  }

  lemma InsertIsRead(tokens: seq<Token>, p: nat, statement: Statement)
    requires Ended(tokens) && statement.Insert? && GoodStatement(statement)
    requires Reads(tokens, p, StatementPieces(statement)) && p + |StatementPieces(statement)| < |tokens|
    ensures ParseInsert(tokens, p) == Parsed(statement, p + |StatementPieces(statement)|)
  {
    hide *;
    InsertIsGood(statement);
    InsertPlaces(tokens, p, statement);
    var c, vs := ColumnListPieces(statement.columns), CommaSeparated(LiteralPieces(statement.values));
    var q := p + 3 + |c|;
    var expected := if statement.columns.Some? then Some(|statement.columns.value|) else None;
    KindMeans(tokens[q], KeywordValues, "values");
    KindMeans(tokens[q + 2 + |vs|], RParen, ")");
    ColumnListIsRead(tokens, p + 3, statement.columns);
    ValuesAreRead(tokens, q + 2, statement.values, expected, []);
    assert [] + statement.values == statement.values;
    InsertAssembled(tokens, p, statement, q, q + 2 + |vs|);
  }

  lemma KindMeans(token: Token, tokenType: TokenType, text: string)
    requires Kind(token) == Piece(tokenType, text)
    ensures token.tokenType == tokenType
  {
  }

  lemma InsertAssembled(tokens: seq<Token>, p: nat, statement: Statement, q: nat, e: nat)
    requires Ended(tokens) && statement.Insert? && p + 3 < |tokens| && q + 2 < |tokens| && e < |tokens|
    requires |statement.table| < MAX_NAME_LEN
    requires Kind(tokens[p]) == Piece(KeywordInsert, "insert") && Kind(tokens[p + 1]) == Piece(KeywordInto, "into")
    requires Kind(tokens[p + 2]) == Piece(Identifier, statement.table)
    requires ParseColumnList(tokens, p + 3) == Parsed(statement.columns, q)
    requires Kind(tokens[q]) == Piece(KeywordValues, "values") && Kind(tokens[q + 1]) == Piece(LParen, "(")
    requires ParseValues(tokens, q + 2, if statement.columns.Some? then Some(|statement.columns.value|) else None, [])
             == Parsed(statement.values, e)
    requires Kind(tokens[e]) == Piece(RParen, ")")
    ensures ParseInsert(tokens, p) == Parsed(statement, e + 1)
  {
    hide ParseColumnList, ParseValues;
  }

  lemma SelectPlaces(tokens: seq<Token>, p: nat, statement: Statement)
    requires statement.Select? && Reads(tokens, p, StatementPieces(statement))
    ensures var c := if statement.columns.None? then [Piece(Star, "*")]
                     else CommaSeparated(NamePieces(statement.columns.value));
            var w := WherePieces(statement.condition);
            var q := p + 1 + |c|;
            && |StatementPieces(statement)| == 3 + |c| + |w| && q + 1 < |tokens|
            && Kind(tokens[p]) == Piece(KeywordSelect, "select") && Reads(tokens, p + 1, c)
            && Kind(tokens[q]) == Piece(KeywordFrom, "from")
            && Kind(tokens[q + 1]) == Piece(Identifier, statement.table)
            && Reads(tokens, q + 2, w)
  {
    var c := if statement.columns.None? then [Piece(Star, "*")]
             else CommaSeparated(NamePieces(statement.columns.value));
    var w := WherePieces(statement.condition);
    var a, b := [Piece(KeywordSelect, "select")], [Piece(KeywordFrom, "from"), Piece(Identifier, statement.table)];
    assert StatementPieces(statement) == a + c + b + w;
    hide WherePieces, CommaSeparated, StatementPieces;
    ReadsSplit(tokens, p, a + c + b, w);
    ReadsSplit(tokens, p, a + c, b);
    ReadsSplit(tokens, p, a, c);
    assert Kind(tokens[p + 0]) == a[0];
    var q := p + 1 + |c|;
    assert Kind(tokens[q + 0]) == b[0] && Kind(tokens[q + 1]) == b[1];
  }

  lemma WhereIsRead(tokens: seq<Token>, p: nat, condition: Option<Where>)
    requires Ended(tokens) && Reads(tokens, p, WherePieces(condition))
    requires (condition.Some? ==> GoodName(condition.value.column))
    requires p + |WherePieces(condition)| < |tokens| && !tokens[p + |WherePieces(condition)|].tokenType.KeywordWhere?
    ensures ParseWhere(tokens, p) == Parsed(condition, p + |WherePieces(condition)|)
  {
    assert condition.Some? ==> |condition.value.column| < MAX_NAME_LEN;
    hide Lowercase, GoodName;
    if condition.Some? {
      var ps := WherePieces(condition);
      assert Kind(tokens[p + 0]) == ps[0] && Kind(tokens[p + 1]) == ps[1] && Kind(tokens[p + 2]) == ps[2];
      assert Kind(tokens[p + 3]) == ps[3];
    }
  }

  lemma SelectIsRead(tokens: seq<Token>, p: nat, statement: Statement)
    requires Ended(tokens) && statement.Select? && GoodStatement(statement)
    requires Reads(tokens, p, StatementPieces(statement)) && p + |StatementPieces(statement)| < |tokens|
    requires tokens[p + |StatementPieces(statement)|].tokenType.Semicolon?
    ensures ParseSelect(tokens, p) == Parsed(statement, p + |StatementPieces(statement)|)
  {
    hide *;
    SelectIsGood(statement);
    SelectPlaces(tokens, p, statement);
    var c := if statement.columns.None? then [Piece(Star, "*")]
             else CommaSeparated(NamePieces(statement.columns.value));
    var q := p + 1 + |c|;
    KindMeans(tokens[q], KeywordFrom, "from");
    SelectionIsRead(tokens, p + 1, statement.columns, c);
    WhereIsRead(tokens, q + 2, statement.condition);
    SelectAssembled(tokens, p, statement, q, p + |StatementPieces(statement)|);
  }

  lemma SelectionIsRead(tokens: seq<Token>, p: nat, columns: Option<seq<string>>, c: seq<Piece>)
    requires Ended(tokens)
    requires c == if columns.None? then [Piece(Star, "*")] else CommaSeparated(NamePieces(columns.value))
    requires columns.Some? ==> GoodNames(columns.value)
    requires Reads(tokens, p, c) && p + |c| < |tokens| && tokens[p + |c|].tokenType.KeywordFrom?
    ensures p < |tokens| && ParseSelection(tokens, p) == Parsed(columns, p + |c|)
  {
    if columns.None? {
      ReadsLast(tokens, p, Piece(Star, "*"));
    } else {
      var names := columns.value;
      NamesDoNotStar(tokens, p, names);
      NamesAreShort(names);
      hide CommaSeparated, NamePieces, ParseNames, Reads, GoodNames;
      NamesAreRead(tokens, p, names, []);
      assert [] + names == names;
    }
  }

  lemma NamesDoNotStar(tokens: seq<Token>, p: nat, names: seq<string>)
    requires names != [] && Reads(tokens, p, CommaSeparated(NamePieces(names)))
    ensures p < |tokens| && tokens[p].tokenType.Identifier?
  {
    var ps := CommaSeparated(NamePieces(names));
    assert Kind(tokens[p + 0]) == ps[0];
  }

  lemma SelectAssembled(tokens: seq<Token>, p: nat, statement: Statement, q: nat, e: nat)
    requires Ended(tokens) && statement.Select? && p + 1 < |tokens| && q + 2 < |tokens|
    requires |statement.table| < MAX_NAME_LEN
    requires Kind(tokens[p]) == Piece(KeywordSelect, "select")
    requires ParseSelection(tokens, p + 1) == Parsed(statement.columns, q)
    requires Kind(tokens[q]) == Piece(KeywordFrom, "from") && Kind(tokens[q + 1]) == Piece(Identifier, statement.table)
    requires ParseWhere(tokens, q + 2) == Parsed(statement.condition, e)
    ensures ParseSelect(tokens, p) == Parsed(statement, e)
  {
    hide ParseSelection, ParseWhere;
  }

  /** A statement followed by a semicolon is parsed back. */
  lemma StatementIsRead(tokens: seq<Token>, p: nat, statement: Statement)
    requires Ended(tokens) && GoodStatement(statement)
    requires Reads(tokens, p, StatementPieces(statement)) && p + |StatementPieces(statement)| < |tokens|
    requires tokens[p + |StatementPieces(statement)|].tokenType.Semicolon?
    ensures p < |tokens| && ParseStatement(tokens, p) == Parsed(statement, p + |StatementPieces(statement)|)
  {
    if statement.Insert? {
      InsertPlaces(tokens, p, statement);
      hide Reads, StatementPieces, GoodStatement, ParseInsert;
      InsertIsRead(tokens, p, statement);
    } else {
      SelectPlaces(tokens, p, statement);
      hide Reads, StatementPieces, GoodStatement, ParseSelect;
      SelectIsRead(tokens, p, statement);
    }
  }

  lemma {:induction false} StatementsAreRead(tokens: seq<Token>, p: nat, program: seq<Statement>, done: seq<Statement>)
    requires Ended(tokens) && Reads(tokens, p, ProgramPieces(program) + [Piece(EndOfText, "")])
    requires |done| + |program| <= MAX_STATEMENTS && forall i | 0 <= i < |program| :: GoodStatement(program[i])
    ensures p < |tokens| && ParseStatements(tokens, p, done) == Parsed(done + program, p + |ProgramPieces(program)|)
    decreases |program|
  {
    var end := [Piece(EndOfText, "")];
    hide StatementPieces, GoodStatement, ParseStatement, Reads;
    ReadsSplit(tokens, p, ProgramPieces(program), end);
    if program == [] {
      ReadsLast(tokens, p, Piece(EndOfText, ""));
      assert done + [] == done;
    } else {
      var s, rest := StatementPieces(program[0]), ProgramPieces(program[1..]);
      var semicolon := [Piece(Semicolon, ";")];
      assert ProgramPieces(program) == s + semicolon + rest;
      ReadsSplit(tokens, p, s + semicolon, rest);
      ReadsSplit(tokens, p, s, semicolon);
      ReadsLast(tokens, p + |s|, Piece(Semicolon, ";"));
      var q := p + |s| + 1;
      assert q + |rest| == p + |ProgramPieces(program)|;
      ReadsSplit(tokens, q, rest, end);
      StatementIsRead(tokens, p, program[0]);
      hide ProgramPieces;
      StatementNotEnd(tokens, p);
      StatementsAreRead(tokens, q, program[1..], done + [program[0]]);
      Shifted(done, program);
    }
  }

  lemma StatementNotEnd(tokens: seq<Token>, p: nat)
    requires Ended(tokens) && p < |tokens| && ParseStatement(tokens, p).Parsed?
    ensures !tokens[p].tokenType.EndOfText?
  {
  }

  // ---------- Pieces within the limits ----------

  ghost predicate AllGood(pieces: seq<Piece>) {
    forall k | 0 <= k < |pieces| :: GoodPiece(pieces[k])
  }

  lemma AllGoodConcat(a: seq<Piece>, b: seq<Piece>)
    requires AllGood(a) && AllGood(b)
    ensures AllGood(a + b)
  {
    hide GoodPiece;
  }

  lemma {:induction false} CommasAreGood(pieces: seq<Piece>)
    requires AllGood(pieces)
    ensures AllGood(CommaSeparated(pieces))
  {
    if |pieces| > 1 {
      assert GoodPiece(Piece(Comma, ","));
      hide GoodPiece;
      CommasAreGood(pieces[1..]);
      AllGoodConcat([pieces[0], Piece(Comma, ",")], CommaSeparated(pieces[1..]));
    }
  }

  lemma NamesAreGood(names: seq<string>)
    requires GoodNames(names)
    ensures AllGood(CommaSeparated(NamePieces(names)))
  {
    hide GoodName;
    CommasAreGood(NamePieces(names));
  }

  lemma ValuesAreGood(values: seq<Literal>)
    requires forall i | 0 <= i < |values| :: GoodValue(values[i])
    ensures AllGood(CommaSeparated(LiteralPieces(values)))
  {
    forall i | 0 <= i < |values|
      ensures GoodPiece(LiteralPiece(values[i]))
    {
      LiteralIsGood(values[i]);
    }
    hide GoodPiece, LiteralPiece;
    CommasAreGood(LiteralPieces(values));
  }

  lemma LiteralIsGood(value: Literal)
    requires GoodValue(value)
    ensures GoodPiece(LiteralPiece(value))
  {
    hide IsNumeral, Csv.Clean;
  }

  lemma ColumnListIsGood(columns: Option<seq<string>>)
    requires columns.Some? ==> GoodNames(columns.value)
    ensures AllGood(ColumnListPieces(columns))
  {
    if columns.Some? {
      var open, close := [Piece(LParen, "(")], [Piece(RParen, ")")];
      assert AllGood(open) && AllGood(close);
      hide AllGood, CommaSeparated, NamePieces, GoodNames;
      NamesAreGood(columns.value);
      AllGoodConcat(open, CommaSeparated(NamePieces(columns.value)));
      AllGoodConcat(open + CommaSeparated(NamePieces(columns.value)), close);
    }
  }

  lemma InsertPiecesAreGood(statement: Statement)
    requires statement.Insert? && GoodStatement(statement)
    ensures AllGood(StatementPieces(statement))
  {
    var a := [Piece(KeywordInsert, "insert"), Piece(KeywordInto, "into"), Piece(Identifier, statement.table)];
    var b, r := [Piece(KeywordValues, "values"), Piece(LParen, "(")], [Piece(RParen, ")")];
    assert AllGood(a) && AllGood(b) && AllGood(r);
    var c, vs := ColumnListPieces(statement.columns), CommaSeparated(LiteralPieces(statement.values));
    assert StatementPieces(statement) == a + c + b + vs + r;
    ValuesAreGood(statement.values);
    InsertIsGood(statement);
    hide *;
    ColumnListIsGood(statement.columns);
    AllGoodConcat(a, c);
    AllGoodConcat(a + c, b);
    AllGoodConcat(a + c + b, vs);
    AllGoodConcat(a + c + b + vs, r);
  }

  lemma SelectMarks(statement: Statement)
    requires statement.Select? && GoodName(statement.table)
    ensures AllGood([Piece(KeywordSelect, "select")])
    ensures AllGood([Piece(KeywordFrom, "from"), Piece(Identifier, statement.table)])
    ensures AllGood([Piece(Star, "*")])
    ensures StatementPieces(statement)
         == [Piece(KeywordSelect, "select")]
            + (if statement.columns.None? then [Piece(Star, "*")]
               else CommaSeparated(NamePieces(statement.columns.value)))
            + [Piece(KeywordFrom, "from"), Piece(Identifier, statement.table)]
            + WherePieces(statement.condition)
  {
    hide GoodName, CommaSeparated, NamePieces, WherePieces;
  }

  lemma SelectPiecesAreGood(statement: Statement)
    requires statement.Select? && GoodStatement(statement)
    ensures AllGood(StatementPieces(statement))
  {
    hide *;
    var a, b := [Piece(KeywordSelect, "select")], [Piece(KeywordFrom, "from"), Piece(Identifier, statement.table)];
    var c := if statement.columns.None? then [Piece(Star, "*")]
             else CommaSeparated(NamePieces(statement.columns.value));
    var w := WherePieces(statement.condition);
    SelectIsGood(statement);
    SelectMarks(statement);
    WhereIsGood(statement.condition);
    if statement.columns.Some? {
      NamesAreGood(statement.columns.value);
    }
    AllGoodConcat(a, c);
    AllGoodConcat(a + c, b);
    AllGoodConcat(a + c + b, w);
  }

  lemma WhereIsGood(condition: Option<Where>)
    requires condition.Some? ==> GoodName(condition.value.column) && GoodValue(condition.value.value)
    ensures AllGood(WherePieces(condition))
  {
    if condition.Some? {
      LiteralIsGood(condition.value.value);
      hide GoodName, LiteralPiece, GoodValue;
      assert GoodPiece(OperatorPiece(condition.value.operator));
    }
  }

  lemma {:induction false} ProgramPiecesAreGood(program: seq<Statement>)
    requires forall i | 0 <= i < |program| :: GoodStatement(program[i])
    ensures AllGood(ProgramPieces(program))
  {
    if program != [] {
      var s, semicolon, rest := StatementPieces(program[0]), [Piece(Semicolon, ";")], ProgramPieces(program[1..]);
      assert AllGood(semicolon) && ProgramPieces(program) == s + semicolon + rest;
      hide StatementPieces, GoodStatement, AllGood, ProgramPieces;
      if program[0].Insert? {
        InsertPiecesAreGood(program[0]);
      } else {
        SelectPiecesAreGood(program[0]);
      }
      ProgramPiecesAreGood(program[1..]);
      AllGoodConcat(s, semicolon);
      AllGoodConcat(s + semicolon, rest);
    }
  }

  lemma ProgramIsGood(program: seq<Statement>)
    requires GoodProgram(program)
    ensures 1 <= |program| <= MAX_STATEMENTS && |ProgramPieces(program)| + 1 <= MAX_TOKENS
    ensures (forall i | 0 <= i < |program| :: GoodStatement(program[i]))
    ensures (forall k | 0 <= k < |ProgramPieces(program)| :: GoodPiece(ProgramPieces(program)[k]))
  {
    hide GoodStatement, GoodPiece, ProgramPieces;
    ProgramPiecesAreGood(program);
  }

  lemma GoodIsEnded(items: seq<Token>)
    requires GoodTokens(items)
    ensures Ended(items)
  {
    hide GoodText;
  }

  lemma NotEmpty(items: seq<Token>, program: seq<Statement>)
    requires Ended(items) && program != [] && ParseStatements(items, 0, []).Parsed?
    requires ParseStatements(items, 0, []).value == program
    ensures !items[0].tokenType.EndOfText?
  {
    hide ParseStatement;
  }

  lemma ReadIs(sql: string, program: seq<Statement>, next: nat)
    requires Lex(sql, 0, []).Tokens? && Ended(Lex(sql, 0, []).items) && !Lex(sql, 0, []).items[0].tokenType.EndOfText?
    requires ParseStatements(Lex(sql, 0, []).items, 0, []) == Parsed(program, next)
    ensures Read(sql) == Some(program)
  {
    hide Lex, ParseStatements;
  }
}
