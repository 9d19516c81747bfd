/** Which texts the tokenizer reads as which tokens, said byte by byte: words in any mixture of
    capitals and small letters, and blanks of any kind wherever two tokens do not run together. */
module Writings {
  import opened Wrappers
  import opened Limits
  import opened Numbers
  import opened Tokenizer
  import opened FrontEnd
  import Csv

  /** A letter of a word, or its capital. */
  ghost predicate SameLetter(raw: char, c: char) {
    raw == c || ('A' <= raw <= 'Z' && raw as int + 32 == c as int)
  }

  ghost predicate IsWord(piece: Piece) {
    piece.tokenType.Identifier? || IsKeyword(piece.tokenType)
  }

  /** The bytes spell the piece: a word with any of its letters capitalized, a string in quotes,
      anything else as it is. */
  ghost predicate Spells(raw: string, piece: Piece) {
    if IsWord(piece) then |raw| == |piece.text| && forall k | 0 <= k < |raw| :: SameLetter(raw[k], piece.text[k])
    else if piece.tokenType.Text? then raw == "'" + piece.text + "'"
    else raw == piece.text
  }

  function SpelledLength(piece: Piece): nat {
    |piece.text| + if piece.tokenType.Text? then 2 else 0
  }

  ghost predicate WordByte(c: char) {
    'a' <= c <= 'z' || 'A' <= c <= 'Z' || '0' <= c <= '9' || c == '_'
  }

  /** What follows the piece does not run together with it. */
  ghost predicate Separate(sql: string, i: nat, piece: Piece) {
    i < |sql| ==> (IsWord(piece) ==> !WordByte(sql[i])) && (piece.tokenType.Number? ==> !('0' <= sql[i] <= '9'))
  }

  /** From byte `i` on the text, which ends at its first NUL, spells these pieces. */
  ghost predicate Writes(sql: string, i: nat, pieces: seq<Piece>)
    requires i <= |sql|
    decreases |sql| - i
  {
    if i == |sql| || sql[i] == '\0' then pieces == []
    else if sql[i] == ' ' || sql[i] == '\t' || sql[i] == '\r' || sql[i] == '\n' then Writes(sql, i + 1, pieces)
    else
      && pieces != []
      && var next := i + SpelledLength(pieces[0]);
         && i < next <= |sql| && Spells(sql[i..next], pieces[0]) && Separate(sql, next, pieces[0])
         && Writes(sql, next, pieces[1..])
  }

  // ---------- What is written is read ----------

  lemma {:induction false} WordEndIs(sql: string, i: nat, e: nat)
    requires i <= e <= |sql| && (forall k | i <= k < e :: IsWordChar(sql[k])) && (e < |sql| ==> !IsWordChar(sql[e]))
    ensures WordEnd(sql, i) == e
    decreases e - i
  {
    if i < e {
      WordEndIs(sql, i + 1, e);
    }
  }

  lemma {:induction false} DigitsEndIs(sql: string, i: nat, e: nat)
    requires i <= e <= |sql| && (forall k | i <= k < e :: IsDigit(sql[k])) && (e < |sql| ==> !IsDigit(sql[e]))
    ensures DigitsEnd(sql, i) == e
    decreases e - i
  {
    if i < e {
      DigitsEndIs(sql, i + 1, e);
    }
  }

  /** A small letter, a digit or an underscore, and what a keyword or name is made of. */
  ghost predicate SmallByte(c: char) {
    'a' <= c <= 'z' || '0' <= c <= '9' || c == '_'
  }

  ghost predicate SmallWord(text: string) {
    && 0 < |text| < MAX_VALUE_LEN && !('0' <= text[0] <= '9')
    && forall k | 0 <= k < |text| :: SmallByte(text[k])
  }

  lemma WordIsSmall(piece: Piece)
    requires GoodPiece(piece) && IsWord(piece)
    ensures SmallWord(piece.text) && KeywordType(piece.text) == piece.tokenType
  {
  }

  /** Case folding gives the small letters back. */
  lemma FoldsTo(raw: string, text: string)
    requires |raw| == |text| && forall k | 0 <= k < |raw| :: SameLetter(raw[k], text[k])
    requires SmallWord(text)
    ensures Lowercase(raw) == text && IsWordStart(raw[0]) && forall k | 0 <= k < |raw| :: IsWordChar(raw[k])
  {
    forall k | 0 <= k < |raw|
      ensures Lowercase(raw)[k] == text[k] && IsWordChar(raw[k])
    {
      assert SmallByte(text[k]);
    }
  }

  /** A token read at byte `i` that means the piece and ends where the spelling ends. */
  ghost predicate ReadAs(sql: string, i: nat, piece: Piece) {
    && At(sql, i) != '\0' && !IsBlank(At(sql, i)) && LexAt(sql, i).Lexeme?
    && LexAt(sql, i).next == i + SpelledLength(piece)
    && Kind(Positioned(sql, i, LexAt(sql, i).tokenType, LexAt(sql, i).text)) == piece
  }

  lemma WordIsRead(sql: string, i: nat, piece: Piece)
    requires GoodPiece(piece) && IsWord(piece) && i + |piece.text| <= |sql|
    requires Spells(sql[i..i + |piece.text|], piece) && Separate(sql, i + |piece.text|, piece)
    ensures ReadAs(sql, i, piece)
  {
    var e := i + |piece.text|;
    var raw := sql[i..e];
    WordIsSmall(piece);
    FoldsTo(raw, piece.text);
    assert forall k | i <= k < e :: sql[k] == raw[k - i];
    WordEndIs(sql, i, e);
    hide KeywordType, GoodPiece, Lowercase, LineOf, ColumnOf, SmallWord;
    assert LexAt(sql, i) == LexWord(sql, i);
  }

  lemma NumeralShape(word: string)
    requires IsNumeral(word)
    ensures var signed := if word != "" && word[0] == '-' then 1 else 0;
            signed < |word| && forall k | signed <= k < |word| :: IsDigit(word[k])
  {
    var signed := if word != "" && word[0] == '-' then 1 else 0;
    var digits := word[signed..];
    forall k | signed <= k < |word|
      ensures IsDigit(word[k])
    {
      assert digits[k - signed] == word[k];
    }
  }

  lemma NumberIsLexed(sql: string, i: nat, word: string)
    requires i + |word| <= |sql| && sql[i..i + |word|] == word && 0 < |word| < MAX_VALUE_LEN
    requires var signed := if word[0] == '-' then 1 else 0;
             signed < |word| && forall k | signed <= k < |word| :: IsDigit(word[k])
    requires i + |word| < |sql| ==> !IsDigit(sql[i + |word|])
    ensures i < |sql| && sql[i] == word[0] && LexAt(sql, i) == Lexeme(Number, word, i + |word|)
  {
    var e, signed := i + |word|, if word[0] == '-' then 1 else 0;
    assert forall k | i <= k < e :: sql[k] == word[k - i];
    assert sql[i] == word[0] && sql[i + signed] == word[signed];
    assert forall k | i + signed <= k < e :: IsDigit(sql[k]);
    DigitsEndIs(sql, i + signed, e);
  }

  lemma ReadAsNumber(sql: string, i: nat, piece: Piece)
    requires piece.tokenType.Number? && piece.text != "" && i < |sql| && sql[i] == piece.text[0]
    requires sql[i] == '-' || IsDigit(sql[i])
    requires LexAt(sql, i) == Lexeme(Number, piece.text, i + |piece.text|)
    ensures ReadAs(sql, i, piece)
  {
    hide LexAt, LineOf, ColumnOf, Lowercase;
  }

  lemma NumberIsRead(sql: string, i: nat, piece: Piece)
    requires GoodPiece(piece) && piece.tokenType.Number? && i + |piece.text| <= |sql|
    requires sql[i..i + |piece.text|] == piece.text && Separate(sql, i + |piece.text|, piece)
    ensures ReadAs(sql, i, piece)
  {
    var text := piece.text;
    assert IsNumeral(text) && |text| < MAX_VALUE_LEN;
    assert i + |text| < |sql| ==> !IsDigit(sql[i + |text|]);
    hide IsNumeral, GoodPiece, Separate, LineOf, ColumnOf, LexAt, ReadAs;
    NumeralShape(text);
    NumberIsLexed(sql, i, text);
    ReadAsNumber(sql, i, piece);
  }

  lemma {:induction false} TextIsLexed(sql: string, start: nat, j: nat, end: nat)
    requires start < j <= end < |sql| && end - start - 1 < MAX_VALUE_LEN && sql[end] == '\''
    requires forall k | start < k < end :: sql[k] != '\'' && sql[k] != '\n' && sql[k] != '\r' && sql[k] != '\0'
    ensures LexText(sql, start, j) == Lexeme(Text, sql[start + 1..end], end + 1)
    decreases end - j
  {
    if j < end {
      TextIsLexed(sql, start, j + 1, end);
    }
  }

  lemma TextIsRead(sql: string, i: nat, piece: Piece)
    requires GoodPiece(piece) && piece.tokenType.Text? && i + |piece.text| + 2 <= |sql|
    requires sql[i..i + |piece.text| + 2] == "'" + piece.text + "'"
    ensures ReadAs(sql, i, piece)
  {
    var text, word, end := piece.text, "'" + piece.text + "'", i + |piece.text| + 1;
    assert forall k | i <= k <= end :: sql[k] == word[k - i];
    assert word[0] == '\'' && word[|text| + 1] == '\'';
    forall k | i < k < end
      ensures sql[k] == text[k - i - 1]
    {
      assert word[k - i] == text[k - i - 1];
    }
    assert sql[i + 1..end] == text;
    TextIsLexed(sql, i, i + 1, end);
    hide LexText, Lowercase, LineOf, ColumnOf, Csv.Clean;
  }

  lemma SymbolIsRead(sql: string, i: nat, piece: Piece)
    requires GoodPiece(piece) && !IsWord(piece) && !piece.tokenType.Number? && !piece.tokenType.Text?
    requires i + |piece.text| <= |sql| && sql[i..i + |piece.text|] == piece.text
    ensures ReadAs(sql, i, piece)
  {
    assert piece.text != "" && sql[i] == piece.text[0];
    if piece.tokenType.BangEqual? {
      assert sql[i + 1] == piece.text[1];
    } else {
      assert [sql[i]] == piece.text;
    }
    hide Lowercase, LineOf, ColumnOf;
  }

  lemma PieceIsRead(sql: string, i: nat, piece: Piece)
    requires GoodPiece(piece) && i + SpelledLength(piece) <= |sql|
    requires Spells(sql[i..i + SpelledLength(piece)], piece) && Separate(sql, i + SpelledLength(piece), piece)
    ensures ReadAs(sql, i, piece)
  {
    hide ReadAs, GoodPiece, Separate;
    if IsWord(piece) {
      hide Spells;
      WordIsRead(sql, i, piece);
    } else if piece.tokenType.Number? {
      NumberIsRead(sql, i, piece);
    } else if piece.tokenType.Text? {
      TextIsRead(sql, i, piece);
    } else {
      SymbolIsRead(sql, i, piece);
    }
  }

  /** The tokens of a whole text, after those read before. */
  ghost predicate Tokenized(r: Result, before: seq<Token>, pieces: seq<Piece>) {
    && r.Tokens? && |r.items| == |before| + |pieces| + 1 && r.items[..|before|] == before
    && Reads(r.items, |before|, pieces) && r.items[|before| + |pieces|].tokenType.EndOfText?
  }

  lemma OneMoreToken(r: Result, before: seq<Token>, token: Token, pieces: seq<Piece>)
    requires pieces != [] && Kind(token) == pieces[0] && Tokenized(r, before + [token], pieces[1..])
    ensures Tokenized(r, before, pieces)
  {
    var n := |before|;
    hide Kind;
    assert r.items[n] == r.items[..n + 1][n] == token;
    assert r.items[..n] == r.items[..n + 1][..n] == before;
    assert pieces == [pieces[0]] + pieces[1..];
    ReadsFirst(r.items, n, pieces[0], pieces[1..]);
  }

  /** Whatever spells the pieces is tokenized into them. */
  lemma {:induction false} WritingIsRead(sql: string, i: nat, pieces: seq<Piece>, before: seq<Token>)
    requires i <= |sql| && Writes(sql, i, pieces) && AllGood(pieces) && |before| + |pieces| + 1 <= MAX_TOKENS
    ensures Tokenized(Lex(sql, i, before), before, pieces)
    decreases |sql| - i
  {
    hide GoodPiece, Spells, Separate, LexAt, LineOf, ColumnOf, Kind, ReadAs, Tokenized;
    if i == |sql| || sql[i] == '\0' {
      EndIsRead(sql, i, before);
    } else if IsBlank(sql[i]) {
      WritingIsRead(sql, i + 1, pieces, before);
    } else {
      var next := i + SpelledLength(pieces[0]);
      PieceIsRead(sql, i, pieces[0]);
      var token := ReadMeans(sql, i, pieces[0], before);
      WritingIsRead(sql, next, pieces[1..], before + [token]);
      OneMoreToken(Lex(sql, i, before), before, token, pieces);
    }
  }

  lemma EndIsRead(sql: string, i: nat, before: seq<Token>)
    requires i <= |sql| && At(sql, i) == '\0' && |before| + 1 <= MAX_TOKENS
    ensures Tokenized(Lex(sql, i, before), before, [])
  {
    hide LineOf, ColumnOf;
  }

  lemma ReadMeans(sql: string, i: nat, piece: Piece, before: seq<Token>) returns (token: Token)
    requires i < |sql| && ReadAs(sql, i, piece) && i < i + SpelledLength(piece) <= |sql| && |before| < MAX_TOKENS
    ensures Kind(token) == piece && Lex(sql, i, before) == Lex(sql, i + SpelledLength(piece), before + [token])
  {
    hide LexAt, LineOf, ColumnOf, Kind;
    token := Positioned(sql, i, LexAt(sql, i).tokenType, LexAt(sql, i).text);
  }

  // ---------- What is read was written ----------

  lemma LowerLetter(c: char)
    requires IsWordChar(c)
    ensures SameLetter(c, Lower(c)) && SmallByte(Lower(c)) && WordByte(c)
    ensures IsWordStart(c) ==> !('0' <= Lower(c) <= '9')
  {
  }

  /** The piece that a lexeme means. */
  ghost function PieceOf(lexed: Lexed): Piece
    requires lexed.Lexeme?
  {
    Piece(lexed.tokenType, if IsKeyword(lexed.tokenType) then Lowercase(lexed.text) else lexed.text)
  }

  /** A lexeme read at byte `i` is a well-formed piece, and the bytes up to its end spell it. */
  ghost predicate WellRead(sql: string, i: nat, lexed: Lexed)
    requires i <= |sql| && lexed.Lexeme?
  {
    var piece := PieceOf(lexed);
    && GoodPiece(piece) && lexed.next == i + SpelledLength(piece) <= |sql| && i < lexed.next
    && Spells(sql[i..lexed.next], piece) && Separate(sql, lexed.next, piece)
  }

  lemma WordWasWritten(sql: string, i: nat)
    requires i < |sql| && IsWordStart(sql[i]) && LexWord(sql, i).Lexeme?
    ensures WellRead(sql, i, LexWord(sql, i))
  {
    var e := WordEnd(sql, i);
    assert e > i && (e < |sql| ==> !IsWordChar(sql[e]));
    var raw := sql[i..e];
    var name, lexed := Lowercase(raw), LexWord(sql, i);
    forall k | 0 <= k < |raw|
      ensures SameLetter(raw[k], name[k]) && SmallByte(name[k])
    {
      LowerLetter(raw[k]);
    }
    LowerLetter(raw[0]);
    assert PieceOf(lexed) == Piece(KeywordType(name), name);
    WordIsGood(name);
    hide Lowercase, LexWord, GoodPiece, PieceOf, SmallByte;
    assert e < |sql| ==> !WordByte(sql[e]);
  }

  lemma WordIsGood(name: string)
    requires 0 < |name| < MAX_VALUE_LEN && !('0' <= name[0] <= '9') && forall k | 0 <= k < |name| :: SmallByte(name[k])
    ensures GoodPiece(Piece(KeywordType(name), name)) && IsWord(Piece(KeywordType(name), name))
  {
  }

  lemma NumberWasWritten(sql: string, i: nat)
    requires i < |sql| && StartsNumber(sql, i) && LexNumber(sql, i).Lexeme?
    ensures WellRead(sql, i, LexNumber(sql, i))
  {
    NumberIsNumeral(sql, i);
    hide IsNumeral, Lowercase;
  }

  lemma {:induction false} NoQuoteInside(sql: string, start: nat, i: nat)
    requires start < i <= |sql| && LexText(sql, start, i).Lexeme?
    requires forall k | start < k < i :: sql[k] != '\''
    ensures '\'' !in LexText(sql, start, i).text
    decreases |sql| - i
  {
    if sql[i] != '\'' {
      NoQuoteInside(sql, start, i + 1);
    }
  }

  lemma QuotedSlice(sql: string, i: nat, next: nat)
    requires i + 2 <= next <= |sql| && sql[i] == '\'' && sql[next - 1] == '\''
    ensures sql[i..next] == "'" + sql[i + 1..next - 1] + "'"
  {
  }

  lemma TextIsGood(text: string)
    requires |text| < MAX_VALUE_LEN && Csv.Clean(text) && '\'' !in text
    ensures GoodPiece(Piece(Text, text))
  {
    hide Csv.Clean;
  }

  lemma TextWasWritten(sql: string, i: nat)
    requires i < |sql| && sql[i] == '\'' && LexText(sql, i, i + 1).Lexeme?
    ensures WellRead(sql, i, LexText(sql, i, i + 1))
  {
    TextIsClean(sql, i);
    NoQuoteInside(sql, i, i + 1);
    LexTextShape(sql, i, i + 1);
    var lexed := LexText(sql, i, i + 1);
    hide LexText, Csv.Clean, Lowercase, GoodPiece;
    QuotedSlice(sql, i, lexed.next);
    TextIsGood(lexed.text);
  }

  lemma SymbolWasWritten(sql: string, i: nat)
    requires i < |sql| && LexSymbol(sql, i).Lexeme?
    ensures WellRead(sql, i, LexSymbol(sql, i))
  {
    var lexed := LexSymbol(sql, i);
    if SymbolType(sql[i]).Some? {
      assert sql[i..i + 1] == [sql[i]];
    } else {
      assert sql[i..i + 2] == "!=";
    }
    hide Lowercase;
  }

  lemma {:induction false} LexemeWasWritten(sql: string, i: nat)
    requires At(sql, i) != '\0' && LexAt(sql, i).Lexeme?
    ensures WellRead(sql, i, LexAt(sql, i))
  {
    hide LexText, LexNumber, LexWord, LexSymbol, WellRead;
    if IsWordStart(sql[i]) {
      WordWasWritten(sql, i);
    } else if StartsNumber(sql, i) {
      NumberWasWritten(sql, i);
    } else if sql[i] == '\'' {
      TextWasWritten(sql, i);
    } else {
      SymbolWasWritten(sql, i);
    }
  }

  /** Whatever is tokenized spells the pieces that its tokens mean. */
  lemma {:induction false} ReadIsWritten(sql: string, i: nat, before: seq<Token>) returns (pieces: seq<Piece>)
    requires i <= |sql| && |before| <= MAX_TOKENS && Lex(sql, i, before).Tokens?
    ensures Writes(sql, i, pieces) && AllGood(pieces) && |before| + |pieces| + 1 <= MAX_TOKENS
    ensures Tokenized(Lex(sql, i, before), before, pieces)
    decreases |sql| - i
  {
    hide GoodPiece, Spells, Separate, LexAt, LineOf, ColumnOf, Kind, Tokenized, Reads;
    if At(sql, i) == '\0' {
      pieces := [];
      EndIsRead(sql, i, before);
    } else if IsBlank(sql[i]) {
      pieces := ReadIsWritten(sql, i + 1, before);
    } else {
      LexemeWasWritten(sql, i);
      var lexed := LexAt(sql, i);
      var token := Positioned(sql, i, lexed.tokenType, lexed.text);
      var rest := ReadIsWritten(sql, lexed.next, before + [token]);
      pieces := [PieceOf(lexed)] + rest;
      assert pieces[1..] == rest;
      KindIs(sql, i, lexed);
      OneMoreToken(Lex(sql, i, before), before, token, pieces);
    }
  }

  lemma KindIs(sql: string, i: nat, lexed: Lexed)
    requires lexed.Lexeme?
    ensures Kind(Positioned(sql, i, lexed.tokenType, lexed.text)) == PieceOf(lexed)
  {
    hide LineOf, ColumnOf, Lowercase;
  }

  /** A text is tokenized into given pieces exactly when it spells them, each is well-formed, and
      there are not too many. */
  lemma {:induction false} TokenizedExactly(sql: string, pieces: seq<Piece>)
    ensures Tokenized(Lex(sql, 0, []), [], pieces)
            <==> Writes(sql, 0, pieces) && AllGood(pieces) && |pieces| + 1 <= MAX_TOKENS
  {
    hide Lex, Writes, AllGood;
    if Writes(sql, 0, pieces) && AllGood(pieces) && |pieces| + 1 <= MAX_TOKENS {
      WritingIsRead(sql, 0, pieces, []);
    }
    if Tokenized(Lex(sql, 0, []), [], pieces) {
      var others := ReadIsWritten(sql, 0, []);
      SamePieces(Lex(sql, 0, []), pieces, others);
    }
  }

  lemma SamePieces(r: Result, a: seq<Piece>, b: seq<Piece>)
    requires Tokenized(r, [], a) && Tokenized(r, [], b)
    ensures a == b
  {
    hide Kind;
    forall k | 0 <= k < |a|
      ensures a[k] == b[k]
    {
      assert Kind(r.items[0 + k]) == a[k] && Kind(r.items[0 + k]) == b[k];
    }
  }

  /** A spelling, a blank, and a writing of the rest. */
  lemma OneMoreWritten(sql: string, i: nat, pieces: seq<Piece>)
    requires pieces != [] && GoodPiece(pieces[0])
    requires var next := i + |Spelled(pieces[0])|;
             && next < |sql| && sql[i..next] == Spelled(pieces[0]) && sql[next] == ' '
             && Writes(sql, next + 1, pieces[1..])
    ensures Writes(sql, i, pieces)
  {
    var piece, next := pieces[0], i + |Spelled(pieces[0])|;
    SpelledIsGood(piece);
    BlankSeparates(sql, next, piece);
    assert Spelled(piece)[0] == sql[i];
    hide Spells, GoodPiece, Spelled, Separate, SpelledLength;
    assert Writes(sql, next, pieces[1..]);
  }

  lemma CutAtBlank(rest: string, word: string, more: string)
    requires rest == word + " " + more
    ensures |rest| == |word| + 1 + |more| && rest[..|word|] == word && rest[|word|] == ' ' && rest[|word| + 1..] == more
  {
  }

  lemma SuffixCut(sql: string, i: nat, n: nat)
    requires i + n < |sql|
    ensures sql[i..][..n] == sql[i..i + n] && sql[i..][n] == sql[i + n] && sql[i..][n + 1..] == sql[i + n + 1..]
  {
  }

  lemma RenderedFirst(pieces: seq<Piece>)
    requires AllGood(pieces)
    ensures pieces == [] ==> Rendered(pieces) == ""
    ensures pieces != [] ==>
              && GoodPiece(pieces[0]) && AllGood(pieces[1..])
              && Rendered(pieces) == Spelled(pieces[0]) + " " + Rendered(pieces[1..])
  {
    hide GoodPiece, Spelled;
  }

  lemma NothingWritten(sql: string, i: nat)
    requires i <= |sql| && sql[i..] == ""
    ensures Writes(sql, i, [])
  {
    assert |sql[i..]| == |sql| - i;
  }

  /** The pieces with a blank after each are one of their writings. */
  lemma {:induction false} RenderingIsWritten(pieces: seq<Piece>, sql: string, i: nat)
    requires AllGood(pieces) && i <= |sql| && sql[i..] == Rendered(pieces)
    ensures Writes(sql, i, pieces)
    decreases |pieces|
  {
    hide *;
    RenderedFirst(pieces);
    if pieces == [] {
      NothingWritten(sql, i);
    } else {
      var word, rest := Spelled(pieces[0]), Rendered(pieces[1..]);
      CutAtBlank(sql[i..], word, rest);
      SuffixCut(sql, i, |word|);
      RenderingIsWritten(pieces[1..], sql, i + |word| + 1);
      OneMoreWritten(sql, i, pieces);
    }
  }

  lemma BlankSeparates(sql: string, i: nat, piece: Piece)
    requires i < |sql| && sql[i] == ' '
    ensures Separate(sql, i, piece)
  {
  }

  lemma SpelledIsGood(piece: Piece)
    requires GoodPiece(piece)
    ensures var word := Spelled(piece);
            && Spells(word, piece) && |word| == SpelledLength(piece) > 0
            && word[0] != '\0' && word[0] != ' ' && word[0] != '\t' && word[0] != '\r' && word[0] != '\n'
  {
    if piece.tokenType.Number? {
      NumeralShape(piece.text);
    }
    hide IsNumeral, Csv.Clean;
  }

  // ---------- Where reading fails ----------

  /** No well-formed piece is spelled at this byte. */
  ghost predicate NothingAt(sql: string, i: nat)
    requires i <= |sql|
  {
    forall piece | GoodPiece(piece) && i + SpelledLength(piece) <= |sql| ::
      !(Spells(sql[i..i + SpelledLength(piece)], piece) && Separate(sql, i + SpelledLength(piece), piece))
  }

  /** The first line end inside a string that starts at `start`. */
  ghost predicate BreaksString(sql: string, start: nat, at: nat) {
    && start < at < |sql| && sql[start] == '\'' && (sql[at] == '\n' || sql[at] == '\r')
    && forall k | start < k < at :: sql[k] != '\'' && sql[k] != '\n' && sql[k] != '\r' && sql[k] != '\0'
  }

  lemma {:induction false} WrongText(sql: string, start: nat, i: nat)
    requires start < i <= |sql| && LexText(sql, start, i).Wrong? && sql[start] == '\''
    requires forall k | start < k < i :: sql[k] != '\'' && sql[k] != '\n' && sql[k] != '\r' && sql[k] != '\0'
    ensures var at := LexText(sql, start, i).at; at == start || BreaksString(sql, start, at)
    decreases |sql| - i
  {
    if At(sql, i) != '\0' && sql[i] != '\'' && sql[i] != '\n' && sql[i] != '\r' && i - start - 1 < MAX_VALUE_LEN - 1 {
      WrongText(sql, start, i + 1);
    }
  }

  lemma WrongIs(sql: string, i: nat)
    requires At(sql, i) != '\0' && LexAt(sql, i).Wrong?
    ensures var at := LexAt(sql, i).at; at == i || BreaksString(sql, i, at)
    ensures NothingAt(sql, i)
  {
    forall piece | GoodPiece(piece) && i + SpelledLength(piece) <= |sql|
      ensures !(Spells(sql[i..i + SpelledLength(piece)], piece) && Separate(sql, i + SpelledLength(piece), piece))
    {
      if Spells(sql[i..i + SpelledLength(piece)], piece) && Separate(sql, i + SpelledLength(piece), piece) {
        hide LexAt, GoodPiece, Spells, Separate;
        PieceIsRead(sql, i, piece);
      }
    }
    hide LexText, GoodPiece, Spells, Separate;
    if sql[i] == '\'' {
      WrongText(sql, i, i + 1);
    }
  }

  /** A piece in front of a text that is cut later. */
  lemma CutWriting(sql: string, i: nat, next: nat, start: nat, piece: Piece, rest: seq<Piece>)
    requires i < next <= start <= |sql| && next == i + SpelledLength(piece)
    requires sql[i] != '\0' && !IsBlank(sql[i])
    requires Spells(sql[i..next], piece) && Separate(sql, next, piece) && Writes(sql[..start], next, rest)
    ensures Writes(sql[..start], i, [piece] + rest)
  {
    var part := sql[..start];
    assert part[i..next] == sql[i..next] && part[i] == sql[i];
    assert ([piece] + rest)[1..] == rest;
    assert Separate(part, next, piece) by {
      assert next < start ==> part[next] == sql[next];
    }
    hide Spells, Separate;
  }

  lemma NothingLeft(sql: string, i: nat)
    requires i <= |sql|
    ensures Writes(sql[..i], i, [])
  {
  }

  lemma WrongInside(sql: string, i: nat)
    requires At(sql, i) != '\0' && LexAt(sql, i).Wrong?
    ensures i <= LexAt(sql, i).at <= |sql|
  {
    WrongIs(sql, i);
    hide LexAt, NothingAt;
  }

  lemma WellReadMeans(sql: string, i: nat, lexed: Lexed)
    requires i <= |sql| && lexed.Lexeme? && WellRead(sql, i, lexed)
    ensures var piece := PieceOf(lexed);
            && GoodPiece(piece) && lexed.next == i + SpelledLength(piece) <= |sql| && i < lexed.next
            && Spells(sql[i..lexed.next], piece) && Separate(sql, lexed.next, piece)
  {
  }

  /** A text that is not tokenized is reported at the first byte at which no token can be read, or at
      the line end that breaks a string there; everything before it is. Otherwise there are too
      many tokens. */
  lemma {:induction false} FailsExactly(sql: string, i: nat, before: seq<Token>)
    returns (pieces: seq<Piece>, start: nat, at: nat)
    requires i <= |sql| && |before| <= MAX_TOKENS && Lex(sql, i, before).Failure?
    ensures i <= start <= at <= |sql| && Lex(sql, i, before) == Failure(LineOf(sql, at), ColumnOf(sql, at))
    ensures Writes(sql[..start], i, pieces) && AllGood(pieces)
    ensures if NothingAt(sql, start) then at == start || BreaksString(sql, start, at)
            else at == start && |before| + |pieces| >= MAX_TOKENS
    decreases |sql| - i
  {
    hide GoodPiece, Spells, Separate, LexAt, LineOf, ColumnOf, BreaksString, NothingAt, WellRead;
    if At(sql, i) == '\0' {
      pieces, start, at := [], i, i;
      NothingLeft(sql, i);
    } else if IsBlank(sql[i]) {
      pieces, start, at := FailsExactly(sql, i + 1, before);
      assert sql[..start][i] == sql[i];
    } else {
      var lexed := LexAt(sql, i);
      NothingLeft(sql, i);
      if lexed.Wrong? {
        pieces, start, at := [], i, lexed.at;
        WrongIs(sql, i);
        WrongInside(sql, i);
      } else if |before| >= MAX_TOKENS {
        pieces, start, at := [], i, i;
        } else {
        LexemeWasWritten(sql, i);
        var token := Positioned(sql, i, lexed.tokenType, lexed.text);
        WellReadMeans(sql, i, lexed);
        var rest;
        rest, start, at := FailsExactly(sql, lexed.next, before + [token]);
        pieces := [PieceOf(lexed)] + rest;
        CutWriting(sql, i, lexed.next, start, PieceOf(lexed), rest);
      }
    }
  }
}
