/** From tokens to statements: the recursive-descent parser as a function of the token list
    and a position, and the parser with its advancing position proved to compute it. */
module Parser {
  import opened Wrappers
  import opened Limits
  import opened Sql
  import opened Tokenizer

  /** A value and the position after it, or the position of the token an error names. */
  datatype Parsed<+T> = Parsed(value: T, next: nat) | Rejected(at: nat) {
    predicate IsFailure() {
      Rejected?
    }

    function PropagateFailure<U>(): Parsed<U>
      requires Rejected?
    {
      Rejected(at)
    }

    function Extract(): (T, nat)
      requires Parsed?
    {
      (value, next)
    }
  }

  /** The list ends with its only end token. */
  predicate Ended(tokens: seq<Token>) {
    && tokens != [] && tokens[|tokens| - 1].tokenType.EndOfText?
    && forall k | 0 <= k < |tokens| - 1 :: !tokens[k].tokenType.EndOfText?
  }

  // ---------- The grammar ----------

  function Consume(tokens: seq<Token>, p: nat, tokenType: TokenType): (r: Parsed<()>)
    requires Ended(tokens) && p < |tokens| && !tokenType.EndOfText?
    ensures r.Rejected? ==> p <= r.at < |tokens|
    ensures r.Parsed? ==> r.next == p + 1 < |tokens|
  {
    if tokens[p].tokenType == tokenType then Parsed((), p + 1) else Rejected(p)
  }

  function ParseIdentifier(tokens: seq<Token>, p: nat): (r: Parsed<string>)
    requires Ended(tokens) && p < |tokens|
    ensures r.Rejected? ==> p <= r.at < |tokens|
    ensures r.Parsed? ==> r.next == p + 1 < |tokens|
  {
    if tokens[p].tokenType != Identifier || |tokens[p].text| >= MAX_NAME_LEN then Rejected(p)
    else Parsed(tokens[p].text, p + 1)
  }

  function ParseLiteral(tokens: seq<Token>, p: nat): (r: Parsed<Literal>)
    requires Ended(tokens) && p < |tokens|
    ensures r.Rejected? ==> p <= r.at < |tokens|
    ensures r.Parsed? ==> r.next == p + 1 < |tokens|
  {
    match tokens[p].tokenType
    case Number => Parsed(Literal(IntLiteral, tokens[p].text), p + 1)
    case Text => Parsed(Literal(StringLiteral, tokens[p].text), p + 1)
    case _ => Rejected(p)
  }

  function OperatorOf(tokenType: TokenType): Option<Operator> {
    match tokenType
    case Equal => Some(Operator.Equal)
    case Greater => Some(Operator.Greater)
    case Less => Some(Operator.Less)
    case BangEqual => Some(NotEqual)
    case _ => None
  }

  function ParseWhereOperator(tokens: seq<Token>, p: nat): (r: Parsed<Operator>)
    requires Ended(tokens) && p < |tokens|
    ensures r.Rejected? ==> p <= r.at < |tokens|
    ensures r.Parsed? ==> r.next == p + 1 < |tokens|
  {
    match OperatorOf(tokens[p].tokenType)
    case Some(operator) => Parsed(operator, p + 1)
    case None => Rejected(p)
  }

  /** Names separated by commas, after those read before. */
  function ParseNames(tokens: seq<Token>, p: nat, names: seq<string>): (r: Parsed<seq<string>>)
    requires Ended(tokens) && p < |tokens|
    ensures r.Rejected? ==> p <= r.at < |tokens|
    ensures r.Parsed? ==> p < r.next < |tokens| && |names| < |r.value| <= MAX_COLUMNS
    decreases |tokens| - p
  {
    if |names| >= MAX_COLUMNS then Rejected(p)
    else
      var name :- ParseIdentifier(tokens, p);
      if tokens[name.1].tokenType.Comma? then ParseNames(tokens, name.1 + 1, names + [name.0])
      else Parsed(names + [name.0], name.1)
  }

  /** Literals separated by commas, after those read before; as many as expected, if a
      number is expected. */
  function ParseValues(tokens: seq<Token>, p: nat, expected: Option<nat>,
                       values: seq<Literal>): (r: Parsed<seq<Literal>>)
    requires Ended(tokens) && p < |tokens|
    ensures r.Rejected? ==> p <= r.at < |tokens|
    ensures r.Parsed? ==> p < r.next < |tokens| && |values| < |r.value| <= MAX_COLUMNS
    ensures r.Parsed? && expected.Some? ==> |r.value| == expected.value
    decreases |tokens| - p
  {
    if |values| >= MAX_COLUMNS || (expected.Some? && |values| >= expected.value) then Rejected(p)
    else
      var value :- ParseLiteral(tokens, p);
      if tokens[value.1].tokenType.Comma? then ParseValues(tokens, value.1 + 1, expected, values + [value.0])
      else if expected.Some? && |values| + 1 != expected.value then Rejected(value.1 - 1)
      else Parsed(values + [value.0], value.1)
  }

  function ParseColumnList(tokens: seq<Token>, p: nat): (r: Parsed<Option<seq<string>>>)
    requires Ended(tokens) && p < |tokens|
    ensures r.Rejected? ==> p <= r.at < |tokens|
    ensures r.Parsed? ==> p <= r.next < |tokens|
  {
    if !tokens[p].tokenType.LParen? then Parsed(None, p)
    else
      var names :- ParseNames(tokens, p + 1, []);
      var close :- Consume(tokens, names.1, RParen);
      Parsed(Some(names.0), close.1)
  }

  function ParseInsert(tokens: seq<Token>, p: nat): (r: Parsed<Statement>)
    requires Ended(tokens) && p < |tokens|
    ensures r.Rejected? ==> p <= r.at < |tokens|
    ensures r.Parsed? ==> p < r.next < |tokens|
  {
    var a :- Consume(tokens, p, KeywordInsert);
    var b :- Consume(tokens, a.1, KeywordInto);
    var table :- ParseIdentifier(tokens, b.1);
    var columns :- ParseColumnList(tokens, table.1);
    var c :- Consume(tokens, columns.1, KeywordValues);
    var d :- Consume(tokens, c.1, LParen);
    var values :- ParseValues(tokens, d.1, if columns.0.Some? then Some(|columns.0.value|) else None, []);
    var e :- Consume(tokens, values.1, RParen);
    Parsed(Insert(table.0, columns.0, values.0), e.1)
  }

  function ParseSelection(tokens: seq<Token>, p: nat): (r: Parsed<Option<seq<string>>>)
    requires Ended(tokens) && p < |tokens|
    ensures r.Rejected? ==> p <= r.at < |tokens|
    ensures r.Parsed? ==> p < r.next < |tokens|
  {
    if tokens[p].tokenType.Star? then Parsed(None, p + 1)
    else
      var names :- ParseNames(tokens, p, []);
      Parsed(Some(names.0), names.1)
  }

  function ParseWhere(tokens: seq<Token>, p: nat): (r: Parsed<Option<Where>>)
    requires Ended(tokens) && p < |tokens|
    ensures r.Rejected? ==> p <= r.at < |tokens|
    ensures r.Parsed? ==> p <= r.next < |tokens|
  {
    if !tokens[p].tokenType.KeywordWhere? then Parsed(None, p)
    else
      var column :- ParseIdentifier(tokens, p + 1);
      var operator :- ParseWhereOperator(tokens, column.1);
      var value :- ParseLiteral(tokens, operator.1);
      Parsed(Some(Where(column.0, operator.0, value.0)), value.1)
  }

  function ParseSelect(tokens: seq<Token>, p: nat): (r: Parsed<Statement>)
    requires Ended(tokens) && p < |tokens|
    ensures r.Rejected? ==> p <= r.at < |tokens|
    ensures r.Parsed? ==> p < r.next < |tokens|
  {
    var a :- Consume(tokens, p, KeywordSelect);
    var columns :- ParseSelection(tokens, a.1);
    var b :- Consume(tokens, columns.1, KeywordFrom);
    var table :- ParseIdentifier(tokens, b.1);
    var condition :- ParseWhere(tokens, table.1);
    Parsed(Select(table.0, columns.0, condition.0), condition.1)
  }

  function ParseStatement(tokens: seq<Token>, p: nat): (r: Parsed<Statement>)
    requires Ended(tokens) && p < |tokens|
    ensures r.Rejected? ==> p <= r.at < |tokens|
    ensures r.Parsed? ==> p < r.next < |tokens|
  {
    if tokens[p].tokenType.KeywordInsert? then ParseInsert(tokens, p)
    else if tokens[p].tokenType.KeywordSelect? then ParseSelect(tokens, p)
    else Rejected(p)
  }

  /** Statements, each closed by a semicolon, up to the end token. */
  function ParseStatements(tokens: seq<Token>, p: nat, program: seq<Statement>): (r: Parsed<seq<Statement>>)
    requires Ended(tokens) && p < |tokens|
    ensures r.Rejected? ==> p <= r.at < |tokens|
    ensures r.Parsed? ==> r.next == |tokens| - 1
    decreases |tokens| - p
  {
    if tokens[p].tokenType.EndOfText? then Parsed(program, p)
    else if |program| >= MAX_STATEMENTS then Rejected(p)
    else
      var statement :- ParseStatement(tokens, p);
      var close :- Consume(tokens, statement.1, Semicolon);
      ParseStatements(tokens, close.1, program + [statement.0])
  }

  function ParseProgram(tokens: seq<Token>): Parsed<seq<Statement>>
    requires Ended(tokens)
  {
    if tokens[0].tokenType.EndOfText? then Rejected(0) else ParseStatements(tokens, 0, [])
  }

  // ---------- The parser ----------

  /** A parser walking over a token list. Each method is one production: it gives what the
      function of the same name gives at its position and, on success, stands after it. */
  class ParserState {
    const tokens: seq<Token>
    var position: nat

    constructor (tokens: seq<Token>)
      requires Ended(tokens)
      ensures Valid() && this.tokens == tokens && position == 0
    {
      this.tokens := tokens;
      position := 0;
    }

    ghost predicate Valid()
      reads this
    {
      Ended(tokens) && position < |tokens|
    }

    function Current(): Token
      requires Valid()
      reads this
    {
      tokens[position]
    }

    /** Moves on, but never past the end token. */
    method AdvanceToken()
      requires Valid()
      modifies this
      ensures Valid() && position == if old(Current()).tokenType.EndOfText? then old(position) else old(position) + 1
    {
      if position < |tokens| - 1 {
        position := position + 1;
      }
    }

    method ConsumeToken(expected: TokenType) returns (r: Parsed<()>)
      requires Valid() && !expected.EndOfText?
      modifies this
      ensures Valid() && r == Consume(tokens, old(position), expected) && (r.Parsed? ==> position == r.next)
    {
      if Current().tokenType != expected {
        return Rejected(position);
      }
      AdvanceToken();
      r := Parsed((), position);
    }

    method Identifier() returns (r: Parsed<string>)
      requires Valid()
      modifies this
      ensures Valid() && r == ParseIdentifier(tokens, old(position)) && (r.Parsed? ==> position == r.next)
    {
      if Current().tokenType != TokenType.Identifier {
        return Rejected(position);
      }
      var name := Current().text;
      if |name| >= MAX_NAME_LEN {
        return Rejected(position);
      }
      AdvanceToken();
      r := Parsed(name, position);
    }

    method Literal() returns (r: Parsed<Sql.Literal>)
      requires Valid()
      modifies this
      ensures Valid() && r == ParseLiteral(tokens, old(position)) && (r.Parsed? ==> position == r.next)
    {
      var token := Current();
      if token.tokenType.Number? {
        AdvanceToken();
        return Parsed(Sql.Literal(IntLiteral, token.text), position);
      }
      if token.tokenType.Text? {
        AdvanceToken();
        return Parsed(Sql.Literal(StringLiteral, token.text), position);
      }
      r := Rejected(position);
    }

    method WhereOperator() returns (r: Parsed<Operator>)
      requires Valid()
      modifies this
      ensures Valid() && r == ParseWhereOperator(tokens, old(position)) && (r.Parsed? ==> position == r.next)
    {
      var operator := OperatorOf(Current().tokenType);
      if operator.None? {
        return Rejected(position);
      }
      AdvanceToken();
      r := Parsed(operator.value, position);
    }

    method NameList() returns (r: Parsed<seq<string>>)
      requires Valid()
      modifies this
      ensures Valid() && r == ParseNames(tokens, old(position), []) && (r.Parsed? ==> position == r.next)
    {
      var names: seq<string> := [];
      while true
        invariant Valid()
        invariant ParseNames(tokens, old(position), []) == ParseNames(tokens, position, names)
        decreases |tokens| - position
      {
        if |names| >= MAX_COLUMNS {
          return Rejected(position);
        }
        var name :- Identifier();
        names := names + [name.0];
        if !Current().tokenType.Comma? {
          return Parsed(names, position);
        }
        AdvanceToken();
      }
    }

    method ValueList(expected: Option<nat>) returns (r: Parsed<seq<Sql.Literal>>)
      requires Valid()
      modifies this
      ensures Valid() && r == ParseValues(tokens, old(position), expected, []) && (r.Parsed? ==> position == r.next)
    {
      var values: seq<Sql.Literal> := [];
      while true
        invariant Valid()
        invariant ParseValues(tokens, old(position), expected, []) == ParseValues(tokens, position, expected, values)
        decreases |tokens| - position
      {
        if |values| >= MAX_COLUMNS || (expected.Some? && |values| >= expected.value) {
          return Rejected(position);
        }
        var value :- Literal();
        values := values + [value.0];
        if !Current().tokenType.Comma? {
          if expected.Some? && |values| != expected.value {
            return Rejected(position - 1);
          }
          return Parsed(values, position);
        }
        AdvanceToken();
      }
    }

    method ColumnList() returns (r: Parsed<Option<seq<string>>>)
      requires Valid()
      modifies this
      ensures Valid() && r == ParseColumnList(tokens, old(position)) && (r.Parsed? ==> position == r.next)
    {
      hide ParseNames;
      if !Current().tokenType.LParen? {
        return Parsed(None, position);
      }
      AdvanceToken();
      var names :- NameList();
      var close :- ConsumeToken(RParen);
      r := Parsed(Some(names.0), position);
    }

    method InsertStatement() returns (r: Parsed<Statement>)
      requires Valid()
      modifies this
      ensures Valid() && r == ParseInsert(tokens, old(position)) && (r.Parsed? ==> position == r.next)
    {
      hide Consume, ParseIdentifier, ParseColumnList, ParseValues;
      var insert :- ConsumeToken(KeywordInsert);
      var into :- ConsumeToken(KeywordInto);
      var table :- Identifier();
      var columns :- ColumnList();
      var keyword :- ConsumeToken(KeywordValues);
      var open :- ConsumeToken(LParen);
      var values :- ValueList(if columns.0.Some? then Some(|columns.0.value|) else None);
      var close :- ConsumeToken(RParen);
      r := Parsed(Insert(table.0, columns.0, values.0), position);
    }

    method Selection() returns (r: Parsed<Option<seq<string>>>)
      requires Valid()
      modifies this
      ensures Valid() && r == ParseSelection(tokens, old(position)) && (r.Parsed? ==> position == r.next)
    {
      hide ParseNames;
      if Current().tokenType.Star? {
        AdvanceToken();
        return Parsed(None, position);
      }
      var names :- NameList();
      r := Parsed(Some(names.0), position);
    }

    method WhereClause() returns (r: Parsed<Option<Where>>)
      requires Valid()
      modifies this
      ensures Valid() && r == ParseWhere(tokens, old(position)) && (r.Parsed? ==> position == r.next)
    {
      hide ParseIdentifier, ParseWhereOperator, ParseLiteral;
      if !Current().tokenType.KeywordWhere? {
        return Parsed(None, position);
      }
      AdvanceToken();
      var column :- Identifier();
      var operator :- WhereOperator();
      var value :- Literal();
      r := Parsed(Some(Where(column.0, operator.0, value.0)), position);
    }

    method SelectStatement() returns (r: Parsed<Statement>)
      requires Valid()
      modifies this
      ensures Valid() && r == ParseSelect(tokens, old(position)) && (r.Parsed? ==> position == r.next)
    {
      hide Consume, ParseIdentifier, ParseSelection, ParseWhere;
      var select :- ConsumeToken(KeywordSelect);
      var columns :- Selection();
      var from :- ConsumeToken(KeywordFrom);
      var table :- Identifier();
      var condition :- WhereClause();
      r := Parsed(Select(table.0, columns.0, condition.0), position);
    }

    method OneStatement() returns (r: Parsed<Statement>)
      requires Valid()
      modifies this
      ensures Valid() && r == ParseStatement(tokens, old(position)) && (r.Parsed? ==> position == r.next)
    {
      hide ParseInsert, ParseSelect;
      if Current().tokenType.KeywordInsert? {
        r := InsertStatement();
      } else if Current().tokenType.KeywordSelect? {
        r := SelectStatement();
      } else {
        r := Rejected(position);
      }
    }

    method Program() returns (r: Parsed<seq<Statement>>)
      requires Valid() && position == 0
      modifies this
      ensures Valid() && r == ParseProgram(tokens) && (r.Parsed? ==> position == |tokens| - 1)
    {
      hide ParseStatement, Consume;
      var program: seq<Statement> := [];
      if Current().tokenType.EndOfText? {
        return Rejected(position);
      }
      while !Current().tokenType.EndOfText?
        invariant Valid()
        invariant ParseProgram(tokens) == ParseStatements(tokens, position, program)
        decreases |tokens| - position
      {
        if |program| >= MAX_STATEMENTS {
          return Rejected(position);
        }
        var statement :- OneStatement();
        program := program + [statement.0];
        var close :- ConsumeToken(Semicolon);
      }
      r := Parsed(program, position);
    }
  }
}
