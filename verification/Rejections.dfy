/** Where a program that is no program is rejected: at the first token with which no readable
    program goes on. */
module Rejections {
  import opened Wrappers
  import opened Limits
  import opened Numbers
  import opened Sql
  import opened Tokenizer
  import opened Parser
  import opened FrontEnd
  import opened Recognized

  // ---------- The tokens that decide ----------

  /** The lists agree on their first `n` tokens, as far as the first one goes. */
  ghost predicate Agree(a: seq<Token>, b: seq<Token>, n: nat) {
    forall i | 0 <= i < n && i < |a| :: i < |b| && b[i] == a[i]
  }

  predicate IsLiteral(token: Token) {
    token.tokenType.Number? || token.tokenType.Text?
  }

  /** How many tokens decide that the one at `at` is reported: those up to it. A literal may be
      reported for being the last of too few, and then the token after it decides. */
  function Reach(tokens: seq<Token>, at: nat): nat {
    if at < |tokens| && IsLiteral(tokens[at]) then at + 2 else at + 1
  }

  /** How many tokens decide a result: if something was read, those up to the one after it. */
  function Bound<T>(tokens: seq<Token>, r: Parsed<T>): nat {
    match r
    case Parsed(_, next) => next + 1
    case Rejected(at) => Reach(tokens, at)
  }

  lemma AgreeLess(a: seq<Token>, b: seq<Token>, m: nat, n: nat)
    requires Agree(a, b, n) && m <= n
    ensures Agree(a, b, m)
  {
  }

  lemma AgreeAt(a: seq<Token>, b: seq<Token>, n: nat, p: nat)
    requires Agree(a, b, n) && p < n && p < |a|
    ensures p < |b| && b[p] == a[p]
  {
    var token := a[p];
    assert a[p] == token;
  }

  lemma {:induction false} NamesDecided(a: seq<Token>, b: seq<Token>, p: nat, names: seq<string>)
    requires Ended(a) && Ended(b) && p < |a| && Agree(a, b, Bound(a, ParseNames(a, p, names)))
    ensures p < |b| && ParseNames(b, p, names) == ParseNames(a, p, names)
    decreases |a| - p
  {
    AgreeAt(a, b, Bound(a, ParseNames(a, p, names)), p);
    hide Agree;
    if |names| < MAX_COLUMNS && ParseIdentifier(a, p).Parsed? {
      AgreeAt(a, b, Bound(a, ParseNames(a, p, names)), p + 1);
      if a[p + 1].tokenType.Comma? {
        NamesDecided(a, b, p + 2, names + [ParseIdentifier(a, p).value]);
      }
    }
  }

  lemma {:induction false} ValuesDecided(a: seq<Token>, b: seq<Token>, p: nat, expected: Option<nat>,
                                         values: seq<Literal>)
    requires Ended(a) && Ended(b) && p < |a| && Agree(a, b, Bound(a, ParseValues(a, p, expected, values)))
    ensures p < |b| && ParseValues(b, p, expected, values) == ParseValues(a, p, expected, values)
    decreases |a| - p
  {
    AgreeAt(a, b, Bound(a, ParseValues(a, p, expected, values)), p);
    hide Agree;
    if |values| < MAX_COLUMNS && (expected.Some? ==> |values| < expected.value) && ParseLiteral(a, p).Parsed? {
      AgreeAt(a, b, Bound(a, ParseValues(a, p, expected, values)), p + 1);
      if a[p + 1].tokenType.Comma? {
        ValuesDecided(a, b, p + 2, expected, values + [ParseLiteral(a, p).value]);
      }
    }
  }

  lemma ColumnListDecided(a: seq<Token>, b: seq<Token>, p: nat)
    requires Ended(a) && Ended(b) && p < |a| && Agree(a, b, Bound(a, ParseColumnList(a, p)))
    ensures p < |b| && ParseColumnList(b, p) == ParseColumnList(a, p)
  {
    var n := Bound(a, ParseColumnList(a, p));
    AgreeAt(a, b, n, p);
    hide ParseNames, Agree, Ended;
    if a[p].tokenType.LParen? {
      var names := ParseNames(a, p + 1, []);
      AgreeLess(a, b, Bound(a, names), n);
      NamesDecided(a, b, p + 1, []);
      if names.Parsed? {
        AgreeAt(a, b, n, names.next);
      }
    }
  }

  lemma SelectionDecided(a: seq<Token>, b: seq<Token>, p: nat)
    requires Ended(a) && Ended(b) && p < |a| && Agree(a, b, Bound(a, ParseSelection(a, p)))
    ensures p < |b| && ParseSelection(b, p) == ParseSelection(a, p)
  {
    var n := Bound(a, ParseSelection(a, p));
    AgreeAt(a, b, n, p);
    hide ParseNames, Agree, Ended;
    if !a[p].tokenType.Star? {
      AgreeLess(a, b, Bound(a, ParseNames(a, p, [])), n);
      NamesDecided(a, b, p, []);
    }
  }

  lemma WhereDecided(a: seq<Token>, b: seq<Token>, p: nat)
    requires Ended(a) && Ended(b) && p < |a| && Agree(a, b, Bound(a, ParseWhere(a, p)))
    ensures p < |b| && ParseWhere(b, p) == ParseWhere(a, p)
  {
    var n := Bound(a, ParseWhere(a, p));
    AgreeAt(a, b, n, p);
    hide Agree, Ended;
    if a[p].tokenType.KeywordWhere? {
      AgreeAt(a, b, n, p + 1);
      if ParseIdentifier(a, p + 1).Parsed? {
        AgreeAt(a, b, n, p + 2);
        if ParseWhereOperator(a, p + 2).Parsed? {
          AgreeAt(a, b, n, p + 3);
        }
      }
    }
  }

  /** An INSERT from behind its column list on. */
  function InsertRest(tokens: seq<Token>, table: string, columns: Option<seq<string>>, q: nat): (r: Parsed<Statement>)
    requires Ended(tokens) && q < |tokens|
    ensures r.Parsed? ==> q < r.next < |tokens|
    ensures r.Rejected? ==> q <= r.at < |tokens|
  {
    if !tokens[q].tokenType.KeywordValues? then Rejected(q)
    else if !tokens[q + 1].tokenType.LParen? then Rejected(q + 1)
    else
      var values :- ParseValues(tokens, q + 2, if columns.Some? then Some(|columns.value|) else None, []);
      if !tokens[values.1].tokenType.RParen? then Rejected(values.1)
      else Parsed(Insert(table, columns, values.0), values.1 + 1)
  }

  lemma InsertIs(tokens: seq<Token>, p: nat)
    requires Ended(tokens) && p < |tokens|
    ensures ParseInsert(tokens, p)
            == if !tokens[p].tokenType.KeywordInsert? then Rejected(p)
               else if !tokens[p + 1].tokenType.KeywordInto? then Rejected(p + 1)
               else if ParseIdentifier(tokens, p + 2).Rejected? then Rejected(p + 2)
               else
                 match ParseColumnList(tokens, p + 3)
                 case Rejected(at) => Rejected(at)
                 case Parsed(columns, q) => InsertRest(tokens, ParseIdentifier(tokens, p + 2).value, columns, q)
  {
    hide ParseColumnList, ParseValues;
  }

  lemma InsertRestDecided(a: seq<Token>, b: seq<Token>, table: string, columns: Option<seq<string>>, q: nat)
    requires Ended(a) && Ended(b) && q < |a| && Agree(a, b, Bound(a, InsertRest(a, table, columns, q)))
    ensures q < |b| && InsertRest(b, table, columns, q) == InsertRest(a, table, columns, q)
  {
    var n := Bound(a, InsertRest(a, table, columns, q));
    var expected := if columns.Some? then Some(|columns.value|) else None;
    AgreeAt(a, b, n, q);
    hide ParseValues, Agree;
    if a[q].tokenType.KeywordValues? {
      AgreeAt(a, b, n, q + 1);
      if a[q + 1].tokenType.LParen? {
        var values := ParseValues(a, q + 2, expected, []);
        AgreeLess(a, b, Bound(a, values), n);
        ValuesDecided(a, b, q + 2, expected, []);
        if values.Parsed? {
          AgreeAt(a, b, n, values.next);
        }
      }
    }
  }

  lemma SameIdentifier(a: seq<Token>, b: seq<Token>, p: nat)
    requires Ended(a) && Ended(b) && p < |a| && p < |b| && a[p] == b[p]
    ensures ParseIdentifier(a, p) == ParseIdentifier(b, p)
  {
  }

  lemma NotLast(tokens: seq<Token>, p: nat)
    requires Ended(tokens) && p < |tokens| && !tokens[p].tokenType.EndOfText?
    ensures p + 1 < |tokens|
  {
  }

  lemma BoundAtLeast<T>(tokens: seq<Token>, r: Parsed<T>, p: nat)
    requires (r.Parsed? ==> p <= r.next) && (r.Rejected? ==> p <= r.at)
    ensures p + 1 <= Bound(tokens, r)
  {
  }

  lemma InsertDecided(a: seq<Token>, b: seq<Token>, p: nat)
    requires Ended(a) && Ended(b) && p < |a| && Agree(a, b, Bound(a, ParseInsert(a, p)))
    ensures p < |b| && ParseInsert(b, p) == ParseInsert(a, p)
  {
    var n := Bound(a, ParseInsert(a, p));
    hide ParseColumnList, InsertRest, ParseInsert, ParseIdentifier, Agree, Ended, Reach;
    InsertIs(a, p);
    AgreeAt(a, b, n, p);
    InsertIs(b, p);
    if a[p].tokenType.KeywordInsert? {
      AgreeAt(a, b, n, p + 1);
      if a[p + 1].tokenType.KeywordInto? {
        AgreeAt(a, b, n, p + 2);
        SameIdentifier(a, b, p + 2);
        if ParseIdentifier(a, p + 2).Parsed? {
          var columns := ParseColumnList(a, p + 3);
          AgreeLess(a, b, Bound(a, columns), n);
          ColumnListDecided(a, b, p + 3);
          if columns.Parsed? {
            InsertRestDecided(a, b, ParseIdentifier(a, p + 2).value, columns.value, columns.next);
          }
        }
      }
    }
  }

  lemma SelectIs(tokens: seq<Token>, p: nat)
    requires Ended(tokens) && p < |tokens|
    ensures ParseSelect(tokens, p)
            == if !tokens[p].tokenType.KeywordSelect? then Rejected(p)
               else
                 match ParseSelection(tokens, p + 1)
                 case Rejected(at) => Rejected(at)
                 case Parsed(columns, q) => SelectRest(tokens, columns, q)
  {
    hide ParseSelection, ParseWhere;
  }

  /** A SELECT from behind its selection on. */
  function SelectRest(tokens: seq<Token>, columns: Option<seq<string>>, q: nat): (r: Parsed<Statement>)
    requires Ended(tokens) && q < |tokens|
    ensures r.Parsed? ==> q < r.next < |tokens|
    ensures r.Rejected? ==> q <= r.at < |tokens|
  {
    if !tokens[q].tokenType.KeywordFrom? then Rejected(q)
    else
      var table :- ParseIdentifier(tokens, q + 1);
      var condition :- ParseWhere(tokens, table.1);
      Parsed(Select(table.0, columns, condition.0), condition.1)
  }

  lemma SelectRestDecided(a: seq<Token>, b: seq<Token>, columns: Option<seq<string>>, q: nat)
    requires Ended(a) && Ended(b) && q < |a| && Agree(a, b, Bound(a, SelectRest(a, columns, q)))
    ensures q < |b| && SelectRest(b, columns, q) == SelectRest(a, columns, q)
  {
    var n := Bound(a, SelectRest(a, columns, q));
    AgreeAt(a, b, n, q);
    hide ParseWhere, ParseIdentifier, Agree;
    if a[q].tokenType.KeywordFrom? {
      AgreeAt(a, b, n, q + 1);
      SameIdentifier(a, b, q + 1);
      if ParseIdentifier(a, q + 1).Parsed? {
        AgreeLess(a, b, Bound(a, ParseWhere(a, q + 2)), n);
        WhereDecided(a, b, q + 2);
      }
    }
  }

  lemma SelectDecided(a: seq<Token>, b: seq<Token>, p: nat)
    requires Ended(a) && Ended(b) && p < |a| && Agree(a, b, Bound(a, ParseSelect(a, p)))
    ensures p < |b| && ParseSelect(b, p) == ParseSelect(a, p)
  {
    var n := Bound(a, ParseSelect(a, p));
    hide ParseSelection, SelectRest, ParseSelect, Agree, Ended, Reach;
    SelectIs(a, p);
    AgreeAt(a, b, n, p);
    SelectIs(b, p);
    if a[p].tokenType.KeywordSelect? {
      var columns := ParseSelection(a, p + 1);
      AgreeLess(a, b, Bound(a, columns), n);
      SelectionDecided(a, b, p + 1);
      if columns.Parsed? {
        SelectRestDecided(a, b, columns.value, columns.next);
      }
    }
  }

  lemma StatementDecided(a: seq<Token>, b: seq<Token>, p: nat)
    requires Ended(a) && Ended(b) && p < |a| && Agree(a, b, Bound(a, ParseStatement(a, p)))
    ensures p < |b| && ParseStatement(b, p) == ParseStatement(a, p)
  {
    AgreeAt(a, b, Bound(a, ParseStatement(a, p)), p);
    hide ParseInsert, ParseSelect, Agree, Ended;
    if a[p].tokenType.KeywordInsert? {
      InsertDecided(a, b, p);
    } else if a[p].tokenType.KeywordSelect? {
      SelectDecided(a, b, p);
    }
  }

  lemma StatementsIs(tokens: seq<Token>, p: nat, done: seq<Statement>)
    requires Ended(tokens) && p < |tokens|
    ensures ParseStatements(tokens, p, done)
            == if tokens[p].tokenType.EndOfText? then Parsed(done, p)
               else if |done| >= MAX_STATEMENTS then Rejected(p)
               else
                 match ParseStatement(tokens, p)
                 case Rejected(at) => Rejected(at)
                 case Parsed(s, q) =>
                   if !tokens[q].tokenType.Semicolon? then Rejected(q) else ParseStatements(tokens, q + 1, done + [s])
  {
    hide ParseStatement;
  }

  lemma {:induction false} StatementsDecided(a: seq<Token>, b: seq<Token>, p: nat, done: seq<Statement>)
    requires Ended(a) && Ended(b) && p < |a| && Agree(a, b, Bound(a, ParseStatements(a, p, done)))
    ensures p < |b| && ParseStatements(b, p, done) == ParseStatements(a, p, done)
    decreases |a| - p
  {
    hide *;
    var n := Bound(a, ParseStatements(a, p, done));
    StatementsIs(a, p, done);
    StatementsReach(a, p, done);
    BoundAtLeast(a, ParseStatements(a, p, done), p);
    AgreeAt(a, b, n, p);
    StatementsIs(b, p, done);
    if !a[p].tokenType.EndOfText? && |done| < MAX_STATEMENTS {
      var statement := ParseStatement(a, p);
      BoundGrows(a, statement, ParseStatements(a, p, done));
      AgreeLess(a, b, Bound(a, statement), n);
      StatementDecided(a, b, p);
      if statement.Parsed? {
        BoundAtLeast(a, ParseStatements(a, p, done), statement.next);
        AgreeAt(a, b, n, statement.next);
        if a[statement.next].tokenType.Semicolon? {
          NotLast(a, statement.next);
          StatementsDecided(a, b, statement.next + 1, done + [statement.value]);
        }
      }
    }
  }

  lemma StatementsReach(tokens: seq<Token>, p: nat, done: seq<Statement>)
    requires Ended(tokens) && p < |tokens|
    ensures var r := ParseStatements(tokens, p, done); r.Parsed? ==> p <= r.next
  {
  }

  lemma BoundGrows<T, U>(tokens: seq<Token>, first: Parsed<T>, all: Parsed<U>)
    requires first.Rejected? ==> all == Rejected(first.at)
    requires first.Parsed? ==> (all.Parsed? ==> first.next <= all.next) && (all.Rejected? ==> first.next <= all.at)
    ensures Bound(tokens, first) <= Bound(tokens, all)
  {
  }

  // ---------- The tokens before ----------

  /** The tokens from `p` to `at` are the first of these pieces. */
  ghost predicate Starts(tokens: seq<Token>, p: nat, at: nat, pieces: seq<Piece>) {
    p <= at <= |tokens| && at - p <= |pieces| && Reads(tokens, p, pieces[..at - p])
  }

  lemma StartsNothing(tokens: seq<Token>, p: nat, pieces: seq<Piece>)
    requires p <= |tokens|
    ensures Starts(tokens, p, p, pieces)
  {
  }

  lemma StartsAll(tokens: seq<Token>, p: nat, pieces: seq<Piece>)
    requires Reads(tokens, p, pieces)
    ensures Starts(tokens, p, p + |pieces|, pieces)
  {
    assert pieces[..|pieces|] == pieces;
  }

  lemma StartsBefore(tokens: seq<Token>, p: nat, at: nat, a: seq<Piece>, b: seq<Piece>)
    requires Starts(tokens, p, at, a)
    ensures Starts(tokens, p, at, a + b)
  {
    assert (a + b)[..at - p] == a[..at - p];
  }

  lemma StartsAfter(tokens: seq<Token>, p: nat, a: seq<Piece>, at: nat, b: seq<Piece>)
    requires Reads(tokens, p, a) && Starts(tokens, p + |a|, at, b)
    ensures Starts(tokens, p, at, a + b)
  {
    assert (a + b)[..at - p] == a + b[..at - p - |a|];
    hide Kind;
    ReadsSplit(tokens, p, a, b[..at - p - |a|]);
  }

  /** Where the readable part ends: at the reported token, or, when a list has too many items, at the
      comma before it. */
  ghost predicate Stops(tokens: seq<Token>, at: nat, cut: nat) {
    cut == at || (cut + 1 == at && cut < |tokens| && tokens[cut].tokenType.Comma?)
  }

  lemma {:induction false} NamesStart(tokens: seq<Token>, p: nat, done: seq<string>)
    returns (names: seq<string>, cut: nat)
    requires GoodList(tokens) && Ended(tokens) && p < |tokens| && |done| < MAX_COLUMNS
    requires ParseNames(tokens, p, done).Rejected?
    ensures names != [] && |done| + |names| <= MAX_COLUMNS && GoodNamed(names)
    ensures Stops(tokens, ParseNames(tokens, p, done).at, cut)
    ensures Starts(tokens, p, cut, CommaSeparated(NamePieces(names)))
    decreases |tokens| - p
  {
    hide *;
    NamesIs(tokens, p, done);
    if ParseIdentifier(tokens, p).Rejected? {
      names, cut := ["x"], p;
      SomeName();
      StartsNothing(tokens, p, CommaSeparated(NamePieces(names)));
      StopsHere(tokens, p);
    } else {
      var name := ParseIdentifier(tokens, p).value;
      IdentifierIsRead(tokens, p);
      MarkIsRead(tokens, p + 1);
      if |done| + 1 == MAX_COLUMNS {
        names, cut := [name], p + 1;
        NamesFull(tokens, p + 2, done + [name]);
        OneName(name);
        StartsAll(tokens, p, CommaSeparated(NamePieces(names)));
        StopsAtComma(tokens, p + 1);
      } else {
        var rest;
        rest, cut := NamesStart(tokens, p + 2, done + [name]);
        names := [name] + rest;
        MoreNames(name, rest);
        CommaFirst(Piece(Identifier, name), NamePieces(rest));
        var more := CommaSeparated(NamePieces(rest));
        StartsAfter(tokens, p + 1, [Marked(Comma)], cut, more);
        StartsAfter(tokens, p, [Piece(Identifier, name)], cut, [Marked(Comma)] + more);
      }
    }
  }

  /** One step of a list of names that is rejected. */
  lemma NamesIs(tokens: seq<Token>, p: nat, done: seq<string>)
    requires Ended(tokens) && p < |tokens| && |done| < MAX_COLUMNS && ParseNames(tokens, p, done).Rejected?
    ensures if ParseIdentifier(tokens, p).Rejected? then ParseNames(tokens, p, done).at == p
            else
              && p + 2 < |tokens| && tokens[p + 1].tokenType.Comma?
              && ParseNames(tokens, p, done) == ParseNames(tokens, p + 2, done + [ParseIdentifier(tokens, p).value])
    ensures Marked(Comma) == Piece(Comma, ",") && MAX_COLUMNS == 16
  {
  }

  lemma NamesFull(tokens: seq<Token>, p: nat, done: seq<string>)
    requires Ended(tokens) && p < |tokens| && |done| >= MAX_COLUMNS
    ensures ParseNames(tokens, p, done) == Rejected(p)
  {
  }

  lemma SomeName()
    ensures GoodNamed(["x"])
  {
  }

  lemma StopsHere(tokens: seq<Token>, at: nat)
    ensures Stops(tokens, at, at)
  {
  }

  lemma StopsAtComma(tokens: seq<Token>, cut: nat)
    requires cut < |tokens| && tokens[cut].tokenType.Comma?
    ensures Stops(tokens, cut + 1, cut)
  {
  }

  ghost function Zeros(n: nat): seq<Literal> {
    seq(n, i => Literal(IntLiteral, "0"))
  }

  lemma ZerosAreGood(n: nat)
    ensures |Zeros(n)| == n && GoodValues(Zeros(n))
  {
    assert IsNumeral("0");
    hide IsNumeral;
  }

  lemma {:induction false} ValuesStart(tokens: seq<Token>, p: nat, expected: Option<nat>, done: seq<Literal>)
    returns (values: seq<Literal>, cut: nat)
    requires GoodList(tokens) && Ended(tokens) && p < |tokens| && |done| < MAX_COLUMNS
    requires expected.Some? ==> |done| < expected.value <= MAX_COLUMNS
    requires ParseValues(tokens, p, expected, done).Rejected?
    ensures values != [] && |done| + |values| <= MAX_COLUMNS && GoodValues(values)
    ensures expected.Some? ==> |done| + |values| == expected.value
    ensures Stops(tokens, ParseValues(tokens, p, expected, done).at, cut)
    ensures Starts(tokens, p, cut, CommaSeparated(LiteralPieces(values)))
    decreases |tokens| - p
  {
    hide *;
    ValuesIs(tokens, p, expected, done);
    if ParseLiteral(tokens, p).Rejected? || !tokens[p + 1].tokenType.Comma? {
      values, cut := Zeros(if expected.Some? then expected.value - |done| else 1), p;
      ZerosAreGood(if expected.Some? then expected.value - |done| else 1);
      StartsNothing(tokens, p, CommaSeparated(LiteralPieces(values)));
      StopsHere(tokens, p);
    } else {
      var value := ParseLiteral(tokens, p).value;
      LiteralIsRead(tokens, p);
      MarkIsRead(tokens, p + 1);
      if |done| + 1 == MAX_COLUMNS || expected == Some(|done| + 1) {
        values, cut := [value], p + 1;
        ValuesFull(tokens, p + 2, expected, done + [value]);
        OneValue(value);
        StartsAll(tokens, p, CommaSeparated(LiteralPieces(values)));
        StopsAtComma(tokens, p + 1);
      } else {
        var rest;
        rest, cut := ValuesStart(tokens, p + 2, expected, done + [value]);
        values := [value] + rest;
        MoreValues(value, rest);
        CommaFirst(LiteralPiece(value), LiteralPieces(rest));
        var more := CommaSeparated(LiteralPieces(rest));
        StartsAfter(tokens, p + 1, [Marked(Comma)], cut, more);
        StartsAfter(tokens, p, [LiteralPiece(value)], cut, [Marked(Comma)] + more);
      }
    }
  }

  /** One step of a list of values that is rejected. */
  lemma ValuesIs(tokens: seq<Token>, p: nat, expected: Option<nat>, done: seq<Literal>)
    requires Ended(tokens) && p < |tokens| && |done| < MAX_COLUMNS && (expected.Some? ==> |done| < expected.value)
    requires ParseValues(tokens, p, expected, done).Rejected?
    ensures if ParseLiteral(tokens, p).Rejected? then ParseValues(tokens, p, expected, done).at == p
            else
              && p + 1 < |tokens|
              && if !tokens[p + 1].tokenType.Comma? then ParseValues(tokens, p, expected, done).at == p
                 else
                   && p + 2 < |tokens|
                   && ParseValues(tokens, p, expected, done)
                      == ParseValues(tokens, p + 2, expected, done + [ParseLiteral(tokens, p).value])
    ensures Marked(Comma) == Piece(Comma, ",") && MAX_COLUMNS == 16
  {
  }

  lemma ValuesFull(tokens: seq<Token>, p: nat, expected: Option<nat>, done: seq<Literal>)
    requires Ended(tokens) && p < |tokens| && (|done| >= MAX_COLUMNS || (expected.Some? && |done| >= expected.value))
    ensures ParseValues(tokens, p, expected, done) == Rejected(p)
  {
  }

  lemma ColumnListRejected(tokens: seq<Token>, p: nat)
    requires Ended(tokens) && p < |tokens| && ParseColumnList(tokens, p).Rejected?
    ensures tokens[p].tokenType.LParen? && p + 1 < |tokens|
    ensures var names := ParseNames(tokens, p + 1, []);
            ParseColumnList(tokens, p).at == if names.Rejected? then names.at else names.next
    ensures MAX_COLUMNS == 16
  {
    hide ParseNames;
  }

  lemma ColumnListStart(tokens: seq<Token>, p: nat) returns (names: seq<string>, cut: nat)
    requires GoodList(tokens) && Ended(tokens) && p < |tokens| && ParseColumnList(tokens, p).Rejected?
    ensures GoodNames(names) && Stops(tokens, ParseColumnList(tokens, p).at, cut)
    ensures Starts(tokens, p, cut, ColumnListPieces(Some(names)))
  {
    hide *;
    ColumnListRejected(tokens, p);
    MarkIsRead(tokens, p);
    var open, close := [Marked(LParen)], [Marked(RParen)];
    if ParseNames(tokens, p + 1, []).Rejected? {
      names, cut := NamesStart(tokens, p + 1, []);
      StartsAfter(tokens, p, open, cut, CommaSeparated(NamePieces(names)));
    } else {
      names := NamesWereRead(tokens, p + 1, []);
      assert [] + names == names;
      cut := ParseNames(tokens, p + 1, []).next;
      StopsHere(tokens, cut);
      StartsAll(tokens, p + 1, CommaSeparated(NamePieces(names)));
      StartsAfter(tokens, p, open, cut, CommaSeparated(NamePieces(names)));
    }
    NamesAreWithinLimits(names);
    StartsBefore(tokens, p, cut, open + CommaSeparated(NamePieces(names)), close);
    ColumnListMarked(names);
  }

  lemma ColumnListMarked(names: seq<string>)
    ensures ColumnListPieces(Some(names)) == [Marked(LParen)] + CommaSeparated(NamePieces(names)) + [Marked(RParen)]
  {
  }

  lemma SelectionStart(tokens: seq<Token>, p: nat) returns (names: seq<string>, cut: nat)
    requires GoodList(tokens) && Ended(tokens) && p < |tokens| && ParseSelection(tokens, p).Rejected?
    ensures GoodNames(names) && Stops(tokens, ParseSelection(tokens, p).at, cut)
    ensures Starts(tokens, p, cut, CommaSeparated(NamePieces(names)))
  {
    SelectionRejected(tokens, p);
    hide *;
    names, cut := NamesStart(tokens, p, []);
    NamesAreWithinLimits(names);
  }

  lemma SelectionRejected(tokens: seq<Token>, p: nat)
    requires Ended(tokens) && p < |tokens| && ParseSelection(tokens, p).Rejected?
    ensures ParseNames(tokens, p, []).Rejected? && ParseSelection(tokens, p).at == ParseNames(tokens, p, []).at
    ensures MAX_COLUMNS == 16
  {
    hide ParseNames;
  }

  // ---------- Statements that go on ----------

  lemma SomeStatement()
    ensures GoodName("x") && GoodValue(Literal(IntLiteral, "0"))
    ensures GoodStatement(Select("x", None, None))
  {
    assert IsNumeral("0");
    hide IsNumeral;
  }

  /** How the pieces of an INSERT follow each other: as many of them as stand in the tokens. */
  lemma InsertStarts(tokens: seq<Token>, p: nat, cut: nat, table: string, columns: Option<seq<string>>,
                     values: seq<Literal>, parts: nat)
    requires var a := [Marked(KeywordInsert), Marked(KeywordInto), Piece(Identifier, table)];
             var b := ColumnListPieces(columns);
             var c, d := [Marked(KeywordValues), Marked(LParen)], CommaSeparated(LiteralPieces(values));
             match parts
             case 0 => Starts(tokens, p, cut, a)
             case 1 => Reads(tokens, p, a) && Starts(tokens, p + 3, cut, b)
             case 2 => Reads(tokens, p, a) && Reads(tokens, p + 3, b) && Starts(tokens, p + 3 + |b|, cut, c)
             case 3 =>
               && Reads(tokens, p, a) && Reads(tokens, p + 3, b) && Reads(tokens, p + 3 + |b|, c)
               && Starts(tokens, p + 5 + |b|, cut, d)
             case _ =>
               && Reads(tokens, p, a) && Reads(tokens, p + 3, b) && Reads(tokens, p + 3 + |b|, c)
               && Reads(tokens, p + 5 + |b|, d) && Starts(tokens, p + 5 + |b| + |d|, cut, [Marked(RParen)])
    ensures Starts(tokens, p, cut, StatementPieces(Insert(table, columns, values)))
  {
    hide *;
    var a, b := [Marked(KeywordInsert), Marked(KeywordInto), Piece(Identifier, table)], ColumnListPieces(columns);
    var c, d := [Marked(KeywordValues), Marked(LParen)], CommaSeparated(LiteralPieces(values));
    InsertPiecesAre(table, columns, values);
    if parts >= 2 {
      ReadsSplit(tokens, p, a, b);
    }
    if parts >= 3 {
      ReadsSplit(tokens, p, a + b, c);
    }
    if parts >= 4 {
      ReadsSplit(tokens, p, a + b + c, d);
      StartsAfter(tokens, p, a + b + c + d, cut, [Marked(RParen)]);
    } else {
      if parts == 3 {
        StartsAfter(tokens, p, a + b + c, cut, d);
      } else {
        if parts == 2 {
          StartsAfter(tokens, p, a + b, cut, c);
        } else {
          if parts == 1 {
            StartsAfter(tokens, p, a, cut, b);
          } else {
            StartsBefore(tokens, p, cut, a, b);
          }
          StartsBefore(tokens, p, cut, a + b, c);
        }
        StartsBefore(tokens, p, cut, a + b + c, d);
      }
      StartsBefore(tokens, p, cut, a + b + c + d, [Marked(RParen)]);
    }
  }

  lemma OneStarts(tokens: seq<Token>, p: nat, a: Piece, rest: seq<Piece>)
    requires Reads(tokens, p, [a])
    ensures Starts(tokens, p, p + 1, [a] + rest)
  {
    hide *;
    StartsAll(tokens, p, [a]);
    StartsBefore(tokens, p, p + 1, [a], rest);
  }

  lemma TwoStart(tokens: seq<Token>, p: nat, a: Piece, b: Piece, rest: seq<Piece>)
    requires Reads(tokens, p, [a]) && Reads(tokens, p + 1, [b])
    ensures Starts(tokens, p, p + 2, [a, b] + rest)
  {
    hide *;
    ReadsTwo(tokens, p, a, b);
    StartsAll(tokens, p, [a, b]);
    StartsBefore(tokens, p, p + 2, [a, b], rest);
  }

  /** Any values for the columns listed. */
  ghost function SomeValues(columns: Option<seq<string>>): seq<Literal> {
    Zeros(if columns.Some? then |columns.value| else 1)
  }

  lemma SomeValuesAreGood(table: string, columns: Option<seq<string>>)
    requires GoodName(table) && (columns.Some? ==> GoodNames(columns.value))
    ensures GoodStatement(Insert(table, columns, SomeValues(columns)))
  {
    var n := if columns.Some? then |columns.value| else 1;
    ZerosAreGood(n);
    assert 1 <= n <= MAX_COLUMNS;
    hide GoodName, GoodNames, GoodValues, GoodStatement;
    InsertIsWithinLimits(table, columns, SomeValues(columns));
  }

  /** A rejected INSERT starts like some INSERT. */
  lemma InsertStart(tokens: seq<Token>, p: nat) returns (s: Statement, cut: nat)
    requires GoodList(tokens) && Ended(tokens) && p < |tokens| && ParseInsert(tokens, p).Rejected?
    requires tokens[p].tokenType.KeywordInsert?
    ensures GoodStatement(s) && Stops(tokens, ParseInsert(tokens, p).at, cut)
    ensures Starts(tokens, p, cut, StatementPieces(s))
  {
    hide *;
    InsertIs(tokens, p);
    SomeStatement();
    NotLastType(tokens, p);
    MarkIsRead(tokens, p);
    if !tokens[p + 1].tokenType.KeywordInto? {
      s, cut := Insert("x", None, SomeValues(None)), p + 1;
      SomeValuesAreGood("x", None);
      OneStarts(tokens, p, Marked(KeywordInsert), [Marked(KeywordInto), Piece(Identifier, "x")]);
      InsertHeadIs("x");
      InsertStarts(tokens, p, cut, "x", None, SomeValues(None), 0);
      StopsHere(tokens, cut);
    } else {
      NotLastType(tokens, p + 1);
      MarkIsRead(tokens, p + 1);
      if ParseIdentifier(tokens, p + 2).Rejected? {
        s, cut := Insert("x", None, SomeValues(None)), p + 2;
        SomeValuesAreGood("x", None);
        TwoStart(tokens, p, Marked(KeywordInsert), Marked(KeywordInto), [Piece(Identifier, "x")]);
        InsertHeadIs("x");
        InsertStarts(tokens, p, cut, "x", None, SomeValues(None), 0);
        StopsHere(tokens, cut);
      } else {
        s, cut := InsertStartsBehindTable(tokens, p, ParseIdentifier(tokens, p + 2).value);
      }
    }
  }

  lemma InsertHeadIs(table: string)
    ensures [Marked(KeywordInsert)] + [Marked(KeywordInto), Piece(Identifier, table)]
            == [Marked(KeywordInsert), Marked(KeywordInto)] + [Piece(Identifier, table)]
            == [Marked(KeywordInsert), Marked(KeywordInto), Piece(Identifier, table)]
  {
  }

  lemma NotLastType(tokens: seq<Token>, p: nat)
    requires Ended(tokens) && p < |tokens| && !tokens[p].tokenType.EndOfText?
    ensures p + 1 < |tokens|
  {
  }

  lemma InsertStartsBehindTable(tokens: seq<Token>, p: nat, table: string) returns (s: Statement, cut: nat)
    requires GoodList(tokens) && Ended(tokens) && p + 2 < |tokens| && ParseInsert(tokens, p).Rejected?
    requires tokens[p].tokenType.KeywordInsert? && tokens[p + 1].tokenType.KeywordInto?
    requires ParseIdentifier(tokens, p + 2).Parsed? && table == ParseIdentifier(tokens, p + 2).value
    ensures GoodStatement(s) && Stops(tokens, ParseInsert(tokens, p).at, cut)
    ensures Starts(tokens, p, cut, StatementPieces(s))
  {
    hide *;
    InsertIs(tokens, p);
    IdentifierIsRead(tokens, p + 2);
    MarkIsRead(tokens, p);
    MarkIsRead(tokens, p + 1);
    ReadsThree(tokens, p, Marked(KeywordInsert), Marked(KeywordInto), Piece(Identifier, table));
    if ParseColumnList(tokens, p + 3).Rejected? {
      var names;
      names, cut := ColumnListStart(tokens, p + 3);
      s := Insert(table, Some(names), SomeValues(Some(names)));
      SomeValuesAreGood(table, Some(names));
      InsertStarts(tokens, p, cut, table, Some(names), SomeValues(Some(names)), 1);
    } else {
      var columns := ParseColumnList(tokens, p + 3);
      ColumnListWasRead(tokens, p + 3);
      s, cut := InsertRestStarts(tokens, p, table, columns.value, columns.next);
    }
  }

  lemma InsertRestIs(tokens: seq<Token>, table: string, columns: Option<seq<string>>, q: nat, expected: Option<nat>)
    requires Ended(tokens) && q < |tokens| && InsertRest(tokens, table, columns, q).Rejected?
    requires expected == if columns.Some? then Some(|columns.value|) else None
    ensures var at := InsertRest(tokens, table, columns, q).at;
            if !tokens[q].tokenType.KeywordValues? then at == q
            else
              && q + 1 < |tokens|
              && if !tokens[q + 1].tokenType.LParen? then at == q + 1
                 else
                   && q + 2 < |tokens|
                   && var values := ParseValues(tokens, q + 2, expected, []);
                      at == if values.Rejected? then values.at else values.next
    ensures MAX_COLUMNS == 16
  {
    hide ParseValues;
  }

  lemma InsertRestStarts(tokens: seq<Token>, p: nat, table: string, columns: Option<seq<string>>, q: nat)
    returns (s: Statement, cut: nat)
    requires GoodList(tokens) && Ended(tokens) && q < |tokens| && InsertRest(tokens, table, columns, q).Rejected?
    requires GoodName(table) && (columns.Some? ==> GoodNames(columns.value))
    requires Reads(tokens, p, [Marked(KeywordInsert), Marked(KeywordInto), Piece(Identifier, table)])
    requires Reads(tokens, p + 3, ColumnListPieces(columns)) && q == p + 3 + |ColumnListPieces(columns)|
    ensures GoodStatement(s) && Stops(tokens, InsertRest(tokens, table, columns, q).at, cut)
    ensures Starts(tokens, p, cut, StatementPieces(s))
  {
    hide *;
    var expected := if columns.Some? then Some(|columns.value|) else None;
    InsertRestIs(tokens, table, columns, q, expected);
    var some := SomeValues(columns);
    SomeValuesAreGood(table, columns);
    s := Insert(table, columns, some);
    if !tokens[q].tokenType.KeywordValues? {
      cut := q;
      StartsNothing(tokens, q, [Marked(KeywordValues), Marked(LParen)]);
      InsertStarts(tokens, p, cut, table, columns, some, 2);
      StopsHere(tokens, cut);
    } else if !tokens[q + 1].tokenType.LParen? {
      cut := q + 1;
      MarkIsRead(tokens, q);
      OneStarts(tokens, q, Marked(KeywordValues), [Marked(LParen)]);
      assert [Marked(KeywordValues)] + [Marked(LParen)] == [Marked(KeywordValues), Marked(LParen)];
      InsertStarts(tokens, p, cut, table, columns, some, 2);
      StopsHere(tokens, cut);
    } else {
      MarkIsRead(tokens, q);
      MarkIsRead(tokens, q + 1);
      ReadsTwo(tokens, q, Marked(KeywordValues), Marked(LParen));
      NamesLimit(columns);
      var r := ParseValues(tokens, q + 2, expected, []);
      var values;
      if r.Rejected? {
        values, cut := ValuesStart(tokens, q + 2, expected, []);
        InsertStarts(tokens, p, cut, table, columns, values, 3);
      } else {
        values := ValuesWereRead(tokens, q + 2, expected, []);
        assert [] + values == values;
        cut := r.next;
        StartsNothing(tokens, cut, [Marked(RParen)]);
        InsertStarts(tokens, p, cut, table, columns, values, 4);
        StopsHere(tokens, cut);
      }
      s := Insert(table, columns, values);
      InsertIsWithinLimits(table, columns, values);
    }
  }

  lemma NamesLimit(columns: Option<seq<string>>)
    requires columns.Some? ==> GoodNames(columns.value)
    ensures columns.Some? ==> 0 < |columns.value| <= MAX_COLUMNS
  {
    hide GoodName;
  }

  lemma WhereRejected(tokens: seq<Token>, p: nat)
    requires Ended(tokens) && p < |tokens| && ParseWhere(tokens, p).Rejected?
    ensures tokens[p].tokenType.KeywordWhere? && p + 1 < |tokens|
    ensures var at := ParseWhere(tokens, p).at;
            if ParseIdentifier(tokens, p + 1).Rejected? then at == p + 1
            else
              && p + 2 < |tokens|
              && if ParseWhereOperator(tokens, p + 2).Rejected? then at == p + 2
                 else p + 3 < |tokens| && ParseLiteral(tokens, p + 3).Rejected? && at == p + 3
  {
  }

  lemma WhereIs(column: string, operator: Operator, value: Literal)
    ensures var a, b := [Marked(KeywordWhere)], [Piece(Identifier, column)];
            WherePieces(Some(Where(column, operator, value)))
            == a + b + [OperatorPiece(operator)] + [LiteralPiece(value)]
  {
    hide OperatorPiece, LiteralPiece;
  }

  lemma WhereStart(tokens: seq<Token>, p: nat) returns (condition: Where, cut: nat)
    requires GoodList(tokens) && Ended(tokens) && p < |tokens| && ParseWhere(tokens, p).Rejected?
    ensures GoodName(condition.column) && GoodValue(condition.value) && Stops(tokens, ParseWhere(tokens, p).at, cut)
    ensures Starts(tokens, p, cut, WherePieces(Some(condition)))
  {
    hide *;
    WhereRejected(tokens, p);
    MarkIsRead(tokens, p);
    SomeStatement();
    cut := ParseWhere(tokens, p).at;
    StopsHere(tokens, cut);
    var column, operator, zero := "x", Operator.Equal, Literal(IntLiteral, "0");
    var a := [Marked(KeywordWhere)];
    StartsAll(tokens, p, a);
    if ParseIdentifier(tokens, p + 1).Parsed? {
      column := ParseIdentifier(tokens, p + 1).value;
      IdentifierIsRead(tokens, p + 1);
      ReadsSplit(tokens, p, a, [Piece(Identifier, column)]);
      if ParseWhereOperator(tokens, p + 2).Parsed? {
        operator := ParseWhereOperator(tokens, p + 2).value;
        OperatorIsRead(tokens, p + 2);
        ReadsSplit(tokens, p, a + [Piece(Identifier, column)], [OperatorPiece(operator)]);
        StartsAll(tokens, p, a + [Piece(Identifier, column)] + [OperatorPiece(operator)]);
      } else {
        StartsAll(tokens, p, a + [Piece(Identifier, column)]);
        StartsBefore(tokens, p, cut, a + [Piece(Identifier, column)], [OperatorPiece(operator)]);
      }
    } else {
      StartsBefore(tokens, p, cut, a, [Piece(Identifier, column)]);
      StartsBefore(tokens, p, cut, a + [Piece(Identifier, column)], [OperatorPiece(operator)]);
    }
    StartsBefore(tokens, p, cut, a + [Piece(Identifier, column)] + [OperatorPiece(operator)], [LiteralPiece(zero)]);
    condition := Where(column, operator, zero);
    WhereIs(column, operator, zero);
  }

  lemma SelectStarts(tokens: seq<Token>, p: nat, cut: nat, table: string, columns: Option<seq<string>>,
                     condition: Option<Where>, c: seq<Piece>, parts: nat)
    requires c == if columns.None? then [Piece(Star, "*")] else CommaSeparated(NamePieces(columns.value))
    requires var a, b := [Marked(KeywordSelect)], [Marked(KeywordFrom), Piece(Identifier, table)];
             match parts
             case 0 => Reads(tokens, p, a) && Starts(tokens, p + 1, cut, c)
             case 1 => Reads(tokens, p, a) && Reads(tokens, p + 1, c) && Starts(tokens, p + 1 + |c|, cut, b)
             case _ =>
               && Reads(tokens, p, a) && Reads(tokens, p + 1, c) && Reads(tokens, p + 1 + |c|, b)
               && Starts(tokens, p + 3 + |c|, cut, WherePieces(condition))
    ensures Starts(tokens, p, cut, StatementPieces(Select(table, columns, condition)))
  {
    hide *;
    var a, b := [Marked(KeywordSelect)], [Marked(KeywordFrom), Piece(Identifier, table)];
    var w := WherePieces(condition);
    SelectPiecesAre(table, columns, condition, c);
    if parts == 0 {
      StartsAfter(tokens, p, a, cut, c);
      StartsBefore(tokens, p, cut, a + c, b);
      StartsBefore(tokens, p, cut, a + c + b, w);
    } else {
      ReadsSplit(tokens, p, a, c);
      if parts == 1 {
        StartsAfter(tokens, p, a + c, cut, b);
        StartsBefore(tokens, p, cut, a + c + b, w);
      } else {
        ReadsSplit(tokens, p, a + c, b);
        StartsAfter(tokens, p, a + c + b, cut, w);
      }
    }
  }

  /** A rejected SELECT starts like some SELECT. */
  lemma SelectStart(tokens: seq<Token>, p: nat) returns (s: Statement, cut: nat)
    requires GoodList(tokens) && Ended(tokens) && p < |tokens| && ParseSelect(tokens, p).Rejected?
    requires tokens[p].tokenType.KeywordSelect?
    ensures GoodStatement(s) && Stops(tokens, ParseSelect(tokens, p).at, cut)
    ensures Starts(tokens, p, cut, StatementPieces(s))
  {
    hide *;
    SelectIs(tokens, p);
    SomeStatement();
    NotLastType(tokens, p);
    MarkIsRead(tokens, p);
    if ParseSelection(tokens, p + 1).Rejected? {
      var names;
      names, cut := SelectionStart(tokens, p + 1);
      s := Select("x", Some(names), None);
      SelectIsWithinLimits("x", Some(names), None);
      SelectStarts(tokens, p, cut, "x", Some(names), None, CommaSeparated(NamePieces(names)), 0);
    } else {
      var columns := ParseSelection(tokens, p + 1);
      var c := SelectionWasRead(tokens, p + 1);
      s, cut := SelectRestStarts(tokens, p, columns.value, columns.next, c);
    }
  }

  lemma SelectRestIs(tokens: seq<Token>, columns: Option<seq<string>>, q: nat)
    requires Ended(tokens) && q < |tokens| && SelectRest(tokens, columns, q).Rejected?
    ensures var at := SelectRest(tokens, columns, q).at;
            if !tokens[q].tokenType.KeywordFrom? then at == q
            else
              && q + 1 < |tokens|
              && if ParseIdentifier(tokens, q + 1).Rejected? then at == q + 1
                 else q + 2 < |tokens| && ParseWhere(tokens, q + 2).Rejected? && at == ParseWhere(tokens, q + 2).at
  {
    hide ParseWhere;
  }

  lemma SelectRestStarts(tokens: seq<Token>, p: nat, columns: Option<seq<string>>, q: nat, c: seq<Piece>)
    returns (s: Statement, cut: nat)
    requires GoodList(tokens) && Ended(tokens) && q < |tokens| && SelectRest(tokens, columns, q).Rejected?
    requires columns.Some? ==> GoodNames(columns.value)
    requires c == if columns.None? then [Piece(Star, "*")] else CommaSeparated(NamePieces(columns.value))
    requires Reads(tokens, p, [Marked(KeywordSelect)]) && Reads(tokens, p + 1, c) && q == p + 1 + |c|
    ensures GoodStatement(s) && Stops(tokens, SelectRest(tokens, columns, q).at, cut)
    ensures Starts(tokens, p, cut, StatementPieces(s))
  {
    hide *;
    SelectRestIs(tokens, columns, q);
    SomeStatement();
    var table, condition := "x", None;
    if !tokens[q].tokenType.KeywordFrom? {
      cut := q;
      StartsNothing(tokens, q, [Marked(KeywordFrom), Piece(Identifier, table)]);
      SelectStarts(tokens, p, cut, table, columns, condition, c, 1);
      StopsHere(tokens, cut);
    } else {
      MarkIsRead(tokens, q);
      if ParseIdentifier(tokens, q + 1).Rejected? {
        cut := q + 1;
        OneStarts(tokens, q, Marked(KeywordFrom), [Piece(Identifier, table)]);
        assert [Marked(KeywordFrom)] + [Piece(Identifier, table)] == [Marked(KeywordFrom), Piece(Identifier, table)];
        SelectStarts(tokens, p, cut, table, columns, condition, c, 1);
        StopsHere(tokens, cut);
      } else {
        table := ParseIdentifier(tokens, q + 1).value;
        IdentifierIsRead(tokens, q + 1);
        ReadsTwo(tokens, q, Marked(KeywordFrom), Piece(Identifier, table));
        var w;
        w, cut := WhereStart(tokens, q + 2);
        condition := Some(w);
        SelectStarts(tokens, p, cut, table, columns, condition, c, 2);
      }
    }
    s := Select(table, columns, condition);
    SelectIsWithinLimits(table, columns, condition);
  }

  lemma StatementIs(tokens: seq<Token>, p: nat)
    requires Ended(tokens) && p < |tokens|
    ensures ParseStatement(tokens, p)
            == if tokens[p].tokenType.KeywordInsert? then ParseInsert(tokens, p)
               else if tokens[p].tokenType.KeywordSelect? then ParseSelect(tokens, p) else Rejected(p)
  {
    hide ParseInsert, ParseSelect;
  }

  lemma StatementStart(tokens: seq<Token>, p: nat) returns (s: Statement, cut: nat)
    requires GoodList(tokens) && Ended(tokens) && p < |tokens| && ParseStatement(tokens, p).Rejected?
    ensures GoodStatement(s) && Stops(tokens, ParseStatement(tokens, p).at, cut)
    ensures Starts(tokens, p, cut, StatementPieces(s))
  {
    hide *;
    StatementIs(tokens, p);
    if tokens[p].tokenType.KeywordInsert? {
      s, cut := InsertStart(tokens, p);
    } else if tokens[p].tokenType.KeywordSelect? {
      s, cut := SelectStart(tokens, p);
    } else {
      s, cut := Select("x", None, None), p;
      SomeStatement();
      StartsNothing(tokens, p, StatementPieces(s));
      StopsHere(tokens, p);
    }
  }

  // ---------- Programs that go on ----------

  ghost function End(): seq<Piece> {
    [Piece(EndOfText, "")]
  }

  lemma {:induction false} StatementsStart(tokens: seq<Token>, p: nat, done: seq<Statement>)
    returns (program: seq<Statement>, cut: nat)
    requires GoodList(tokens) && Ended(tokens) && p < |tokens| && |done| <= MAX_STATEMENTS
    requires ParseStatements(tokens, p, done).Rejected?
    ensures 1 <= |done| + |program| <= MAX_STATEMENTS && GoodStatements(program)
    ensures Stops(tokens, ParseStatements(tokens, p, done).at, cut)
    ensures Starts(tokens, p, cut, ProgramPieces(program) + End())
    decreases |tokens| - p
  {
    hide *;
    StatementsIs(tokens, p, done);
    AtLeastOne();
    if |done| >= MAX_STATEMENTS {
      program, cut := [], p;
      NoStatement();
      StartsNothing(tokens, p, ProgramPieces(program) + End());
      StopsHere(tokens, p);
    } else if ParseStatement(tokens, p).Rejected? {
      var s;
      s, cut := StatementStart(tokens, p);
      program := [s];
      OneStatement(s);
      StartsBefore(tokens, p, cut, StatementPieces(s), [Marked(Semicolon)] + End());
    } else {
      var statement := ParseStatement(tokens, p);
      var s, q := statement.value, statement.next;
      StatementWasRead(tokens, p);
      if !tokens[q].tokenType.Semicolon? {
        program, cut := [s], q;
        OneStatement(s);
        StartsNothing(tokens, q, [Marked(Semicolon)] + End());
        StartsAfter(tokens, p, StatementPieces(s), q, [Marked(Semicolon)] + End());
        StopsHere(tokens, q);
      } else {
        MarkIsRead(tokens, q);
        NotLastType(tokens, q);
        var rest;
        rest, cut := StatementsStart(tokens, q + 1, done + [s]);
        program := [s] + rest;
        OneStatementMore(s, rest);
        StartsAfter(tokens, q, [Marked(Semicolon)], cut, ProgramPieces(rest) + End());
        StartsAfter(tokens, p, StatementPieces(s), cut, [Marked(Semicolon)] + (ProgramPieces(rest) + End()));
      }
    }
  }

  lemma AtLeastOne()
    ensures MAX_STATEMENTS == 32
  {
  }

  lemma NoStatement()
    ensures GoodStatements([])
  {
  }

  lemma OneStatement(s: Statement)
    requires GoodStatement(s)
    ensures GoodStatements([s]) && ProgramPieces([s]) + End() == StatementPieces(s) + ([Marked(Semicolon)] + End())
  {
    hide GoodStatement, StatementPieces;
    assert ProgramPieces([s][1..]) == [];
  }

  lemma OneStatementMore(s: Statement, rest: seq<Statement>)
    requires GoodStatement(s) && GoodStatements(rest)
    ensures GoodStatements([s] + rest)
    ensures ProgramPieces([s] + rest) + End()
            == StatementPieces(s) + ([Marked(Semicolon)] + (ProgramPieces(rest) + End()))
  {
    hide GoodStatement, StatementPieces, End;
    assert ([s] + rest)[1..] == rest;
    var a, b, c, d := StatementPieces(s), [Marked(Semicolon)], ProgramPieces(rest), End();
    assert ProgramPieces([s] + rest) == a + b + c;
    hide *;
    assert a + b + c + d == a + (b + (c + d));
  }

  /** Tokens for given pieces. */
  ghost function TokensOf(pieces: seq<Piece>): (tokens: seq<Token>)
    ensures |tokens| == |pieces|
    ensures forall k | 0 <= k < |pieces| :: tokens[k] == Token(pieces[k].tokenType, pieces[k].text, 1, 1)
  {
    seq(|pieces|, k requires 0 <= k < |pieces| => Token(pieces[k].tokenType, pieces[k].text, 1, 1))
  }

  lemma KindOfPiece(piece: Piece)
    requires GoodPiece(piece) || piece.tokenType.EndOfText?
    ensures Kind(Token(piece.tokenType, piece.text, 1, 1)) == piece
  {
    if IsKeyword(piece.tokenType) {
      assert Lowercase(piece.text) == piece.text;
    }
  }

  /** The tokens up to `cut`, and then what is missing of the pieces. */
  lemma Completed(tokens: seq<Token>, cut: nat, pieces: seq<Piece>) returns (c: seq<Token>)
    requires AllGood(pieces) && Starts(tokens, 0, cut, pieces + End())
    ensures cut <= |tokens| && cut <= |c| == |pieces| + 1 && c[..cut] == tokens[..cut]
    ensures Reads(c, 0, pieces + End()) && Ended(c)
  {
    var all := pieces + End();
    c := tokens[..cut] + TokensOf(all[cut..]);
    hide Kind, GoodPiece;
    forall k | 0 <= k < |all|
      ensures Kind(c[0 + k]) == all[k]
    {
      if k < cut {
        assert Kind(tokens[0 + k]) == all[..cut][k];
      } else {
        KindOfPiece(all[k]);
      }
    }
    forall k | 0 <= k < |all|
      ensures c[k].tokenType == all[k].tokenType
    {
      assert Kind(c[0 + k]) == all[k];
      TypeOfKind(c[k]);
    }
    forall k | 0 <= k < |pieces|
      ensures !c[k].tokenType.EndOfText?
    {
      assert GoodPiece(all[k]);
      PieceNotEnd(all[k]);
    }
  }

  lemma TypeOfKind(token: Token)
    ensures Kind(token).tokenType == token.tokenType
  {
  }

  lemma PieceNotEnd(piece: Piece)
    requires GoodPiece(piece)
    ensures !piece.tokenType.EndOfText?
  {
  }

  /** Where a list of tokens is rejected. Every list that starts with the same tokens, up to the
      reported one, is rejected there too; of a literal that is the last of too few, also the token
      behind it decides. And up to the reported token, or to the comma before it where a list has
      too many items, some readable list starts the same. */
  lemma {:induction false} RejectedExactly(tokens: seq<Token>) returns (readable: seq<Token>, cut: nat)
    requires GoodList(tokens) && ParseProgram(tokens).Rejected?
    ensures var at := ParseProgram(tokens).at;
            && at < |tokens| && Stops(tokens, at, cut)
            && (forall b | Ended(b) && Agree(tokens, b, Reach(tokens, at)) :: ParseProgram(b) == Rejected(at))
            && Ended(readable) && ParseProgram(readable).Parsed? && Agree(tokens, readable, cut)
  {
    hide *;
    ListIsEnded(tokens);
    ProgramIs(tokens);
    var program;
    if tokens[0].tokenType.EndOfText? {
      program, cut := [Select("x", None, None)], 0;
      SomeStatement();
      OneStatement(program[0]);
      StartsNothing(tokens, 0, ProgramPieces(program) + End());
      StopsHere(tokens, 0);
    } else {
      program, cut := StatementsStart(tokens, 0, []);
    }
    GoodStatementsAre(program);
    readable := Completed(tokens, cut, ProgramPieces(program));
    ReadableIs(tokens, readable, cut, program);
    forall b | Ended(b) && Agree(tokens, b, Reach(tokens, ParseProgram(tokens).at))
      ensures ParseProgram(b) == ParseProgram(tokens)
    {
      ProgramDecided(tokens, b);
    }
  }

  lemma ProgramIs(tokens: seq<Token>)
    requires Ended(tokens) && ParseProgram(tokens).Rejected?
    ensures if tokens[0].tokenType.EndOfText? then ParseProgram(tokens) == Rejected(0)
            else ParseProgram(tokens) == ParseStatements(tokens, 0, [])
    ensures ParseProgram(tokens).at < |tokens| && MAX_STATEMENTS == 32
  {
    hide ParseStatements;
  }

  lemma ProgramDecided(a: seq<Token>, b: seq<Token>)
    requires Ended(a) && Ended(b) && ParseProgram(a).Rejected? && Agree(a, b, Reach(a, ParseProgram(a).at))
    ensures ParseProgram(b) == ParseProgram(a)
  {
    AgreeAt(a, b, Reach(a, ParseProgram(a).at), 0);
    hide ParseStatements, Agree, Ended;
    if !a[0].tokenType.EndOfText? {
      StatementsDecided(a, b, 0, []);
    }
  }

  lemma GoodStatementsAre(program: seq<Statement>)
    requires GoodStatements(program)
    ensures (forall i | 0 <= i < |program| :: GoodStatement(program[i])) && AllGood(ProgramPieces(program))
  {
    hide GoodStatement, ProgramPieces, AllGood;
    ProgramPiecesAreGood(program);
  }

  lemma AgreeIs(tokens: seq<Token>, c: seq<Token>, cut: nat)
    requires cut <= |c| && cut <= |tokens| && c[..cut] == tokens[..cut]
    ensures Agree(tokens, c, cut)
  {
    forall i | 0 <= i < cut
      ensures c[i] == tokens[i]
    {
      assert c[..cut][i] == tokens[..cut][i];
    }
  }

  lemma ParsedIs(c: seq<Token>)
    requires Ended(c) && !c[0].tokenType.EndOfText? && ParseStatements(c, 0, []).Parsed?
    ensures ParseProgram(c).Parsed?
  {
    hide ParseStatements;
  }

  lemma ReadableIs(tokens: seq<Token>, c: seq<Token>, cut: nat, program: seq<Statement>)
    requires Ended(c) && cut <= |c| && cut <= |tokens| && c[..cut] == tokens[..cut]
    requires 1 <= |program| <= MAX_STATEMENTS && forall i | 0 <= i < |program| :: GoodStatement(program[i])
    requires Reads(c, 0, ProgramPieces(program) + End())
    ensures ParseProgram(c).Parsed? && Agree(tokens, c, cut)
  {
    assert End() == [Piece(EndOfText, "")];
    hide *;
    AgreeIs(tokens, c, cut);
    StatementsAreRead(c, 0, program, []);
    assert [] + program == program;
    NotEmpty(c, program);
    ParsedIs(c);
  }
}
