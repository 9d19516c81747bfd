/** From SQL text to tokens. Positions are defined here by counting bytes and newlines;
    the tokenizer, which keeps running counters, is proved to report exactly those. */
module Tokenizer {
  import opened Wrappers
  import opened Limits
  import opened Numbers
  import Csv

  datatype TokenType =
    | EndOfText | Identifier | Number | Text
    | Comma | Semicolon | LParen | RParen | Star
    | Equal | Greater | Less | BangEqual
    | KeywordInsert | KeywordInto | KeywordValues | KeywordSelect | KeywordFrom | KeywordWhere

  datatype Token = Token(tokenType: TokenType, text: string, line: nat, column: nat)

  datatype Result = Tokens(items: seq<Token>) | Failure(line: nat, column: nat)

  // ---------- Characters and positions ----------

  /** A byte of the text, which ends at its first NUL. */
  function At(sql: string, i: nat): char {
    if i < |sql| then sql[i] else '\0'
  }

  predicate IsAlpha(c: char) {
    'a' <= c <= 'z' || 'A' <= c <= 'Z'
  }

  predicate IsWordStart(c: char) {
    IsAlpha(c) || c == '_'
  }

  predicate IsWordChar(c: char) {
    IsAlpha(c) || IsDigit(c) || c == '_'
  }

  predicate IsBlank(c: char) {
    c == ' ' || c == '\t' || c == '\r' || c == '\n'
  }

  /** The line of a byte: one more than the newlines before it. */
  function LineOf(sql: string, i: nat): nat {
    if i == 0 then 1 else LineOf(sql, i - 1) + if At(sql, i - 1) == '\n' then 1 else 0
  }

  /** The column of a byte: its distance from the start of its line, counted from 1. */
  function ColumnOf(sql: string, i: nat): nat {
    if i == 0 || At(sql, i - 1) == '\n' then 1 else ColumnOf(sql, i - 1) + 1
  }

  /** Along one line the line number stays and the column counts the bytes. */
  lemma {:induction false} SameLine(sql: string, i: nat, j: nat)
    requires i <= j && forall k | i <= k < j :: At(sql, k) != '\n'
    ensures LineOf(sql, j) == LineOf(sql, i) && ColumnOf(sql, j) == ColumnOf(sql, i) + j - i
  {
    if i < j {
      SameLine(sql, i, j - 1);
    }
  }

  function Lower(c: char): char {
    if 'A' <= c <= 'Z' then (c as int + 32) as char else c
  }

  function Lowercase(text: string): (r: string)
    ensures |r| == |text| && forall i | 0 <= i < |text| :: r[i] == Lower(text[i])
  {
    seq(|text|, i requires 0 <= i < |text| => Lower(text[i]))
  }

  function KeywordType(text: string): TokenType {
    if text == "insert" then KeywordInsert
    else if text == "into" then KeywordInto
    else if text == "values" then KeywordValues
    else if text == "select" then KeywordSelect
    else if text == "from" then KeywordFrom
    else if text == "where" then KeywordWhere
    else Identifier
  }

  // ---------- One token ----------

  /** A token read at some byte, and where the next one starts to be looked for; or the
      byte an error is reported at. */
  datatype Lexed = Lexeme(tokenType: TokenType, text: string, next: nat) | Wrong(at: nat)

  function WordEnd(sql: string, i: nat): (e: nat)
    requires i <= |sql|
    ensures i <= e <= |sql|
    ensures forall k | i <= k < e :: IsWordChar(sql[k])
    ensures !IsWordChar(At(sql, e))
    decreases |sql| - i
  {
    if i < |sql| && IsWordChar(sql[i]) then WordEnd(sql, i + 1) else i
  }

  function DigitsEnd(sql: string, i: nat): (e: nat)
    requires i <= |sql|
    ensures i <= e <= |sql|
    ensures forall k | i <= k < e :: IsDigit(sql[k])
    ensures !IsDigit(At(sql, e))
    decreases |sql| - i
  {
    if i < |sql| && IsDigit(sql[i]) then DigitsEnd(sql, i + 1) else i
  }

  function LexWord(sql: string, i: nat): Lexed
    requires i <= |sql|
  {
    var e := WordEnd(sql, i);
    if e - i >= MAX_VALUE_LEN then Wrong(i)
    else
      var tokenType := KeywordType(Lowercase(sql[i..e]));
      Lexeme(tokenType, if tokenType.Identifier? then Lowercase(sql[i..e]) else sql[i..e], e)
  }

  function LexNumber(sql: string, i: nat): Lexed
    requires i < |sql|
  {
    var e := DigitsEnd(sql, if sql[i] == '-' then i + 1 else i);
    if e - i <= 0 || e - i >= MAX_VALUE_LEN then Wrong(i) else Lexeme(Number, sql[i..e], e)
  }

  /** The inside of a string literal that starts at `start`, from byte `i` on. */
  function LexText(sql: string, start: nat, i: nat): Lexed
    requires start < i <= |sql|
    decreases |sql| - i
  {
    if At(sql, i) == '\0' then Wrong(start)
    else if sql[i] == '\'' then Lexeme(Text, sql[start + 1..i], i + 1)
    else if sql[i] == '\n' || sql[i] == '\r' then Wrong(i)
    else if i - start - 1 >= MAX_VALUE_LEN - 1 then Wrong(start)
    else LexText(sql, start, i + 1)
  }

  function SymbolType(c: char): Option<TokenType> {
    if c == ',' then Some(Comma)
    else if c == ';' then Some(Semicolon)
    else if c == '(' then Some(LParen)
    else if c == ')' then Some(RParen)
    else if c == '*' then Some(Star)
    else if c == '=' then Some(Equal)
    else if c == '>' then Some(Greater)
    else if c == '<' then Some(Less)
    else None
  }

  function LexSymbol(sql: string, i: nat): Lexed
    requires i < |sql|
  {
    match SymbolType(sql[i])
    case Some(t) => Lexeme(t, [sql[i]], i + 1)
    case None => if sql[i] == '!' && At(sql, i + 1) == '=' then Lexeme(BangEqual, "!=", i + 2) else Wrong(i)
  }

  predicate StartsNumber(sql: string, i: nat) {
    IsDigit(At(sql, i)) || (At(sql, i) == '-' && IsDigit(At(sql, i + 1)))
  }

  function LexAt(sql: string, i: nat): (r: Lexed)
    requires At(sql, i) != '\0'
  {
    if IsWordStart(sql[i]) then LexWord(sql, i)
    else if StartsNumber(sql, i) then LexNumber(sql, i)
    else if sql[i] == '\'' then LexText(sql, i, i + 1)
    else LexSymbol(sql, i)
  }

  // ---------- All tokens ----------

  function Positioned(sql: string, i: nat, tokenType: TokenType, text: string): Token {
    Token(tokenType, text, LineOf(sql, i), ColumnOf(sql, i))
  }

  function FailureAt(sql: string, i: nat): Result {
    Failure(LineOf(sql, i), ColumnOf(sql, i))
  }

  lemma {:induction false} LexTextShape(sql: string, start: nat, i: nat)
    requires start < i <= |sql| && i - start - 1 <= MAX_VALUE_LEN - 1
    requires forall k | start < k < i :: sql[k] != '\n' && sql[k] != '\r' && sql[k] != '\0'
    ensures match LexText(sql, start, i)
            case Lexeme(t, text, next) =>
              && t.Text? && i < next <= |sql| && text == sql[start + 1..next - 1] && |text| < MAX_VALUE_LEN
              && (forall k | start < k < next - 1 :: sql[k] != '\n' && sql[k] != '\r' && sql[k] != '\0')
              && sql[next - 1] == '\''
            case Wrong(at) => at == start || (i <= at < |sql| && forall k | start < k < at :: sql[k] != '\n')
    decreases |sql| - i
  {
    if At(sql, i) != '\0' && sql[i] != '\'' && sql[i] != '\n' && sql[i] != '\r' && i - start - 1 < MAX_VALUE_LEN - 1 {
      LexTextShape(sql, start, i + 1);
    }
  }

  /** A token takes at least one byte, lies on one line, and fits its buffer. */
  lemma {:induction false} LexShape(sql: string, i: nat)
    requires At(sql, i) != '\0' && !IsBlank(sql[i])
    ensures match LexAt(sql, i)
            case Lexeme(t, text, next) =>
              && i < next <= |sql| && |text| < MAX_VALUE_LEN && !t.EndOfText?
              && next == i + |text| + (if t.Text? then 2 else 0)
              && forall k | i <= k < next :: sql[k] != '\n'
            case Wrong(at) => i <= at < |sql| && forall k | i <= k < at :: sql[k] != '\n'
  {
    if IsWordStart(sql[i]) {
      assert WordEnd(sql, i) > i;
    } else if StartsNumber(sql, i) {
    } else if sql[i] == '\'' {
      LexTextShape(sql, i, i + 1);
    }
  }

  /** The tokens of the text from byte `i` on, after those read before. */
  function Lex(sql: string, i: nat, tokens: seq<Token>): Result
    requires i <= |sql|
    decreases |sql| - i
  {
    if At(sql, i) == '\0' then
      if |tokens| >= MAX_TOKENS then FailureAt(sql, i) else Tokens(tokens + [Positioned(sql, i, EndOfText, "")])
    else if IsBlank(sql[i]) then Lex(sql, i + 1, tokens)
    else
      match LexAt(sql, i)
      case Wrong(at) => FailureAt(sql, at)
      case Lexeme(t, text, next) =>
        LexShape(sql, i);
        if |tokens| >= MAX_TOKENS then FailureAt(sql, i) else Lex(sql, next, tokens + [Positioned(sql, i, t, text)])
  }

  // ---------- The tokenizer ----------

  /** The token list a tokenizer run fills. */
  class TokenList {
    var items: seq<Token>

    constructor ()
      ensures items == []
    {
      items := [];
    }

    method Append(tokenType: TokenType, text: string, line: nat, column: nat) returns (ok: bool)
      modifies this
      ensures ok <==> |old(items)| < MAX_TOKENS
      ensures items == if ok then old(items) + [Token(tokenType, text, line, column)] else old(items)
    {
      ok := |items| < MAX_TOKENS;
      if ok {
        items := items + [Token(tokenType, text, line, column)];
      }
    }
  }

  /** What reading one token did: where to go on, or where an error is. */
  datatype Reading = Next(index: nat) | Failed(line: nat, column: nat)

  /** The outcome of appending a lexeme that starts at (line, column). */
  ghost predicate Took(lexed: Lexed, line: nat, column: nat, start: nat, before: seq<Token>, after: seq<Token>,
                       r: Reading) {
    match lexed
    case Wrong(at) => after == before && at >= start && r == Failed(line, column + at - start)
    case Lexeme(t, text, next) =>
      if |before| < MAX_TOKENS then after == before + [Token(t, text, line, column)] && r == Next(next)
      else after == before && r == Failed(line, column)
  }

  method ReadWord(sql: string, start: nat, line: nat, column: nat, tokens: TokenList) returns (r: Reading)
    requires start < |sql|
    modifies tokens
    ensures Took(LexWord(sql, start), line, column, start, old(tokens.items), tokens.items, r)
  {
    var index := start;
    while index < |sql| && IsWordChar(sql[index])
      invariant start <= index <= |sql| && WordEnd(sql, start) == WordEnd(sql, index)
    {
      index := index + 1;
    }
    var length := index - start;
    if length >= MAX_VALUE_LEN {
      return Failed(line, column);
    }
    var rawText := sql[start..index];
    var lowerText := Lowercase(rawText);
    var tokenType := KeywordType(lowerText);
    var ok := tokens.Append(tokenType, if tokenType.Identifier? then lowerText else rawText, line, column);
    r := if ok then Next(index) else Failed(line, column);
  }

  method ReadNumber(sql: string, start: nat, line: nat, column: nat, tokens: TokenList) returns (r: Reading)
    requires start < |sql|
    modifies tokens
    ensures Took(LexNumber(sql, start), line, column, start, old(tokens.items), tokens.items, r)
  {
    var index := start;
    if sql[index] == '-' {
      index := index + 1;
    }
    ghost var digits := index;
    while index < |sql| && IsDigit(sql[index])
      invariant digits <= index <= |sql| && DigitsEnd(sql, digits) == DigitsEnd(sql, index)
    {
      index := index + 1;
    }
    var length := index - start;
    if length <= 0 || length >= MAX_VALUE_LEN {
      return Failed(line, column);
    }
    var ok := tokens.Append(Number, sql[start..index], line, column);
    r := if ok then Next(index) else Failed(line, column);
  }

  method ReadString(sql: string, start: nat, line: nat, column: nat, tokens: TokenList) returns (r: Reading)
    requires start < |sql|
    modifies tokens
    ensures Took(LexText(sql, start, start + 1), line, column, start, old(tokens.items), tokens.items, r)
  {
    var index := start + 1;
    var text := "";
    while At(sql, index) != '\0' && sql[index] != '\''
      invariant start < index <= |sql| && text == sql[start + 1..index]
      invariant LexText(sql, start, start + 1) == LexText(sql, start, index)
      decreases |sql| - index
    {
      if sql[index] == '\n' || sql[index] == '\r' {
        return Failed(line, column + |text| + 1);
      }
      if |text| >= MAX_VALUE_LEN - 1 {
        return Failed(line, column);
      }
      text := text + [sql[index]];
      index := index + 1;
    }
    if At(sql, index) != '\'' {
      return Failed(line, column);
    }
    var ok := tokens.Append(Text, text, line, column);
    r := if ok then Next(index + 1) else Failed(line, column);
  }

  method ReadSymbol(sql: string, start: nat, line: nat, column: nat, tokens: TokenList) returns (r: Reading)
    requires start < |sql|
    modifies tokens
    ensures Took(LexSymbol(sql, start), line, column, start, old(tokens.items), tokens.items, r)
  {
    var symbol := SymbolType(sql[start]);
    var ok;
    if symbol.Some? {
      ok := tokens.Append(symbol.value, [sql[start]], line, column);
      return if ok then Next(start + 1) else Failed(line, column);
    }
    if sql[start] == '!' && At(sql, start + 1) == '=' {
      ok := tokens.Append(BangEqual, "!=", line, column);
      return if ok then Next(start + 2) else Failed(line, column);
    }
    r := Failed(line, column);
  }

  method ReadToken(sql: string, index: nat, line: nat, column: nat, tokens: TokenList) returns (r: Reading)
    requires At(sql, index) != '\0'
    modifies tokens
    ensures Took(LexAt(sql, index), line, column, index, old(tokens.items), tokens.items, r)
  {
    hide LexWord, LexNumber, LexText, LexSymbol, Took;
    if IsWordStart(sql[index]) {
      r := ReadWord(sql, index, line, column, tokens);
    } else if StartsNumber(sql, index) {
      r := ReadNumber(sql, index, line, column, tokens);
    } else if sql[index] == '\'' {
      r := ReadString(sql, index, line, column, tokens);
    } else {
      r := ReadSymbol(sql, index, line, column, tokens);
    }
  }

  /** The whole text. The position counters agree with the definition of positions at
      every step, so every token and every error is where it is said to be. */
  method TokenizeSql(sql: string) returns (r: Result)
    ensures r == Lex(sql, 0, [])
  {
    hide LexAt, Took, LineOf, ColumnOf;
    var tokens := new TokenList();
    var index, line, column := 0, 1, 1;
    StartOfText(sql);
    while At(sql, index) != '\0'
      invariant index <= |sql| && line == LineOf(sql, index) && column == ColumnOf(sql, index)
      invariant Lex(sql, 0, []) == Lex(sql, index, tokens.items)
      decreases |sql| - index
    {
      if sql[index] == ' ' || sql[index] == '\t' || sql[index] == '\r' {
        SameLine(sql, index, index + 1);
        index := index + 1;
        column := column + 1;
        continue;
      }
      if sql[index] == '\n' {
        NextLine(sql, index);
        index := index + 1;
        line := line + 1;
        column := 1;
        continue;
      }
      ghost var before := tokens.items;
      var reading := ReadToken(sql, index, line, column, tokens);
      LexNext(sql, index, before, tokens.items, reading);
      if reading.Failed? {
        return Failure(reading.line, reading.column);
      }
      var last := tokens.items[|tokens.items| - 1];
      column := column + |last.text| + if last.tokenType.Text? then 2 else 0;
      index := reading.index;
    }
    var ok := tokens.Append(EndOfText, "", line, column);
    r := if ok then Tokens(tokens.items) else Failure(line, column);
  }

  lemma StartOfText(sql: string)
    ensures LineOf(sql, 0) == 1 && ColumnOf(sql, 0) == 1
  {
  }

  lemma NextLine(sql: string, i: nat)
    requires At(sql, i) == '\n'
    ensures LineOf(sql, i + 1) == LineOf(sql, i) + 1 && ColumnOf(sql, i + 1) == 1
  {
  }

  /** One turn of the loop. */
  lemma LexNext(sql: string, i: nat, before: seq<Token>, after: seq<Token>, r: Reading)
    requires At(sql, i) != '\0' && !IsBlank(sql[i])
    requires Took(LexAt(sql, i), LineOf(sql, i), ColumnOf(sql, i), i, before, after, r)
    ensures match r
            case Failed(line, column) => Lex(sql, i, before) == Failure(line, column)
            case Next(next) =>
              && i < next <= |sql| && Lex(sql, i, before) == Lex(sql, next, after) && after != []
              && LineOf(sql, next) == LineOf(sql, i)
              && var last := after[|after| - 1];
                 ColumnOf(sql, next) == ColumnOf(sql, i) + |last.text| + if last.tokenType.Text? then 2 else 0
  {
    LexShape(sql, i);
    hide LexAt;
    match LexAt(sql, i)
    case Wrong(at) => SameLine(sql, i, at);
    case Lexeme(t, text, next) => SameLine(sql, i, next);
  }

  /** A line break inside a string literal is reported at the line break itself. */
  lemma {:induction false} LineBreakIsReported(sql: string, start: nat, from: nat, i: nat)
    requires start < from <= i < |sql| && i - start <= MAX_VALUE_LEN && (sql[i] == '\n' || sql[i] == '\r')
    requires forall k | start < k < i :: sql[k] != '\'' && sql[k] != '\n' && sql[k] != '\r' && sql[k] != '\0'
    ensures LexText(sql, start, from) == Wrong(i)
    decreases i - from
  {
    if from < i {
      LineBreakIsReported(sql, start, from + 1, i);
    }
  }

  // ---------- What the tokens are ----------

  /** The token stands in the text at byte `o`: its position is that of the byte, and
      reading there gives its type and text. */
  ghost predicate StandsAt(sql: string, token: Token, o: nat) {
    && token.line == LineOf(sql, o) && token.column == ColumnOf(sql, o)
    && if token.tokenType.EndOfText? then At(sql, o) == '\0' && token.text == ""
       else At(sql, o) != '\0' && exists next :: LexAt(sql, o) == Lexeme(token.tokenType, token.text, next)
  }

  /** What the parser may rely on. */
  ghost predicate GoodText(token: Token) {
    && |token.text| < MAX_VALUE_LEN
    && (token.tokenType.Text? ==> Csv.Clean(token.text))
    && (token.tokenType.Number? ==> IsNumeral(token.text))
  }

  lemma NumberIsNumeral(sql: string, i: nat)
    requires StartsNumber(sql, i) && i < |sql| && LexNumber(sql, i).Lexeme?
    ensures LexNumber(sql, i).tokenType.Number? && IsNumeral(LexNumber(sql, i).text)
  {
    var start := if sql[i] == '-' then i + 1 else i;
    var e := DigitsEnd(sql, start);
    var text, digits := sql[i..e], sql[start..e];
    assert AllDigits(digits) && digits != "";
    if sql[i] == '-' {
      assert text[1..] == digits && text[0] == '-';
    } else {
      assert text == digits && IsDigit(text[0]);
    }
  }

  lemma TextIsClean(sql: string, i: nat)
    requires i < |sql| && LexText(sql, i, i + 1).Lexeme?
    ensures LexText(sql, i, i + 1).tokenType.Text? && Csv.Clean(LexText(sql, i, i + 1).text)
  {
    LexTextShape(sql, i, i + 1);
    hide LexText;
  }

  lemma {:induction false} LexedIsGood(sql: string, i: nat)
    requires At(sql, i) != '\0' && !IsBlank(sql[i]) && LexAt(sql, i).Lexeme?
    ensures GoodText(Positioned(sql, i, LexAt(sql, i).tokenType, LexAt(sql, i).text))
  {
    LexShape(sql, i);
    hide LineOf, ColumnOf, LexText, LexNumber, Csv.Clean, IsNumeral, Lowercase;
    if IsWordStart(sql[i]) {
    } else if StartsNumber(sql, i) {
      NumberIsNumeral(sql, i);
    } else if sql[i] == '\'' {
      TextIsClean(sql, i);
    }
  }

  /** A token list as the parser gets it. */
  ghost predicate GoodTokens(items: seq<Token>) {
    && 0 < |items| <= MAX_TOKENS
    && items[|items| - 1].tokenType.EndOfText?
    && (forall k | 0 <= k < |items| - 1 :: !items[k].tokenType.EndOfText?)
    && (forall k | 0 <= k < |items| :: GoodText(items[k]))
  }

  /** Tokens read so far: each stands somewhere before `i`, in order. */
  ghost predicate Standing(sql: string, items: seq<Token>, at: seq<nat>, i: nat) {
    && |at| == |items|
    && (forall k | 0 <= k < |items| ::
          at[k] < i && StandsAt(sql, items[k], at[k]) && GoodText(items[k]) && !items[k].tokenType.EndOfText?)
    && (forall j, k | 0 <= j < k < |at| :: at[j] < at[k])
  }

  /** Every token the tokenizer delivers stands in the text at the place it names: `at`
      lists the bytes, in ascending order. */
  lemma {:induction false} LexedTokens(sql: string, i: nat, tokens: seq<Token>, places: seq<nat>) returns (at: seq<nat>)
    requires i <= |sql| && |tokens| <= MAX_TOKENS && Standing(sql, tokens, places, i) && Lex(sql, i, tokens).Tokens?
    ensures var items := Lex(sql, i, tokens).items;
            && GoodTokens(items) && |at| == |items|
            && (forall k | 0 <= k < |items| :: StandsAt(sql, items[k], at[k]))
            && (forall j, k | 0 <= j < k < |at| :: at[j] < at[k])
    decreases |sql| - i
  {
    hide LexAt, LineOf, ColumnOf, GoodText;
    if At(sql, i) == '\0' {
      at := places + [i];
      EndIsGood(sql, i);
    } else if IsBlank(sql[i]) {
      at := LexedTokens(sql, i + 1, tokens, places);
    } else {
      LexShape(sql, i);
      LexedIsGood(sql, i);
      var lexed := LexAt(sql, i);
      var token := Positioned(sql, i, lexed.tokenType, lexed.text);
      assert StandsAt(sql, token, i);
      hide StandsAt;
      at := LexedTokens(sql, lexed.next, tokens + [token], places + [i]);
    }
  }

  lemma EndIsGood(sql: string, i: nat)
    requires At(sql, i) == '\0'
    ensures StandsAt(sql, Positioned(sql, i, EndOfText, ""), i) && GoodText(Positioned(sql, i, EndOfText, ""))
  {
  }

  /** The tokens of a whole text. */
  lemma {:induction false} TokensStandInText(sql: string) returns (at: seq<nat>)
    requires Lex(sql, 0, []).Tokens?
    ensures var items := Lex(sql, 0, []).items;
            && GoodTokens(items) && |at| == |items|
            && (forall k | 0 <= k < |items| :: StandsAt(sql, items[k], at[k]))
            && (forall j, k | 0 <= j < k < |at| :: at[j] < at[k])
  {
    at := LexedTokens(sql, 0, [], []);
  }
}
