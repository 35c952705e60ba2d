/**
 The tokenizer (extension/autocomplete/tokenizer.cpp, `BaseTokenizer::TokenizeInput`) with the
 statement splitting of `ParserTokenizer` (extension/autocomplete/autocomplete_extension.cpp).

 The loop keeps a state, an index that may step back, and the start of the current lexeme. Its
 invariant is that continuing from any of its cursors gives what `Lexer` reads from the beginning.
 */
module Tokenizer {
  import opened Wrappers
  import opened Sequences
  import opened MatcherGraph
  import opened Lexer

  /** The local variables of the loop. */
  datatype Cursor = Cursor(state: TokenizeState, i: nat, lastPos: nat, marker: string)

  ghost predicate Valid(sql: string, c: Cursor) {
    && c.lastPos <= c.i <= |sql|
    && match c.state
       case KEYWORD | OPERATOR => c.lastPos < c.i
       case NUMERIC => c.lastPos < c.i && IsInitialNumber(sql[c.lastPos])
       case STRING_LITERAL | QUOTED_IDENTIFIER => c.lastPos < c.i
       case DOLLAR_QUOTED_STRING => c.lastPos + |c.marker| + 2 <= c.i
       case _ => true
  }

  /** What the lexer reads from a cursor on. */
  ghost function Rest(sql: string, c: Cursor, out: Output): Lexed
    requires Valid(sql, c)
  {
    match c.state
    case STANDARD => Lex(sql, c.i, c.lastPos, out)
    case SINGLE_LINE_COMMENT =>
      (match LineEnd(sql, c.i)
       case Some(p) => Lex(sql, p + 1, p + 1, out)
       case None => Lexed(out, SINGLE_LINE_COMMENT, c.lastPos))
    case MULTI_LINE_COMMENT =>
      (match CommentEnd(sql, c.i)
       case Some(p) => Lex(sql, p + 2, p + 2, out)
       case None => Lexed(out, MULTI_LINE_COMMENT, c.lastPos))
    case QUOTED_IDENTIFIER => AfterQuote(sql, '"', c.lastPos, QuoteEnd(sql, '"', c.i), out)
    case STRING_LITERAL => AfterQuote(sql, '\'', c.lastPos, QuoteEnd(sql, '\'', c.i), out)
    case KEYWORD =>
      (match KeywordEnd(sql, c.i)
       case Some(p) => Lex(sql, p, p, out.Push(Slice(sql, c.lastPos, p)))
       case None => Lexed(out, KEYWORD, c.lastPos))
    case NUMERIC =>
      (match NumberEnd(sql, c.i)
       case Some(p) =>
         var end := BackToDigit(sql, c.lastPos, p);
         Lex(sql, end, end, out.Push(Slice(sql, c.lastPos, end)))
       case None => Lexed(out, NUMERIC, c.lastPos))
    case OPERATOR =>
      (match OperatorEnd(sql, c.i)
       case Some(p) => Lex(sql, p, p, out.PushAll(OperatorTokens(sql, c.lastPos, p)))
       case None => Lexed(out, OPERATOR, c.lastPos))
    case DOLLAR_QUOTED_STRING => AfterTag(sql, c.lastPos, c.marker, c.i, out)
  }

  lemma DollarIsLexed(sql: string, c: Cursor, out: Output)
    requires Valid(sql, c) && c.state == STANDARD && c.i < |sql| && sql[c.i] == '$'
    ensures Rest(sql, c, out) == LexDollar(sql, c.i, c.lastPos, out)
  {
  }

  /** Every iteration moves the start of the lexeme forward, or else the index. */
  ghost predicate Advances(c: Cursor, d: Cursor) {
    c.lastPos < d.lastPos || (c.lastPos == d.lastPos && c.i < d.i)
  }

  class ParserTokenizer {
    const sql: string
    var tokens: seq<Token>
    var statements: seq<seq<Token>>
    ghost var ends: seq<nat>

    constructor (sql: string)
      ensures this.sql == sql && Out() == NOTHING
    {
      this.sql := sql;
      tokens, statements, ends := [], [], [];
    }

    ghost function Out(): Output
      reads this
    {
      Output(statements, ends, tokens)
    }

    /** An iteration from cursor `c` to cursor `d` keeps what will have been read in the end. */
    twostate predicate Steps(c: Cursor, d: Cursor)
      requires Valid(sql, c)
      reads this
    {
      Valid(sql, d) && Advances(c, d) && Rest(sql, d, Out()) == Rest(sql, c, old(Out()))
    }

    method PushToken(start: nat, end: nat)
      requires start <= end <= |sql|
      modifies this`tokens
      ensures tokens == old(tokens) + if start < end then [Slice(sql, start, end)] else []
    {
      if start >= end {
        return;
      }
      tokens := tokens + [Token(sql[start..end], start)];
    }

    /** `ParserTokenizer` keeps every finished statement. */
    method OnStatementEnd(pos: nat)
      modifies this
      ensures Out() == old(Out()).End(pos)
    {
      statements := statements + [tokens];
      ends := ends + [pos];
      tokens := [];
    }

    method OnLastToken(lastWord: string, lastPos: nat)
      modifies this`tokens
      ensures tokens == old(tokens) + if lastWord == "" then [] else [Token(lastWord, lastPos)]
    {
      if lastWord == "" {
        return;
      }
      tokens := tokens + [Token(lastWord, lastPos)];
    }

    /** The start of a lexeme. The cursors returned by the steps include the loop's own increment. */
    method StepStandard(c: Cursor) returns (d: Cursor)
      requires Valid(sql, c) && c.state == STANDARD && c.i < |sql|
      modifies this
      ensures Steps(c, d)
    {
      hide StartsWith;
      var i, ch := c.i, sql[c.i];
      StartsWithTwo(sql, i, '-', '-');
      StartsWithTwo(sql, i, '/', '*');
      if ch == '\'' {
        d := Cursor(STRING_LITERAL, i + 1, i, c.marker);
      } else if ch == '"' {
        d := Cursor(QUOTED_IDENTIFIER, i + 1, i, c.marker);
      } else if ch == ';' {
        OnStatementEnd(i);
        d := c.(i := i + 1, lastPos := i + 1);
      } else if ch == '$' {
        d := StepDollar(c);
      } else if i + 1 < |sql| && ch == '-' && sql[i + 1] == '-' {
        d := c.(state := SINGLE_LINE_COMMENT, i := i + 2);
      } else if i + 1 < |sql| && ch == '/' && sql[i + 1] == '*' {
        d := c.(state := MULTI_LINE_COMMENT, i := i + 2);
      } else {
        d := StepLexeme(c);
      }
    }

    /** The start of a lexeme that is neither quoted nor a comment. */
    method StepLexeme(c: Cursor) returns (d: Cursor)
      requires Valid(sql, c) && c.state == STANDARD && c.i < |sql|
      requires var ch := sql[c.i]; ch != '\'' && ch != '"' && ch != ';' && ch != '$'
      requires !StartsWith(sql, c.i, "--") && !StartsWith(sql, c.i, "/*")
      modifies this
      ensures Steps(c, d)
    {
      var i, ch := c.i, sql[c.i];
      if IsSpace(ch) {
        return c.(i := i + 1, lastPos := i + 1);
      }
      var opLen := SpecialOperatorLength(sql, i);
      if opLen > 0 {
        tokens := tokens + [Token(sql[i..i + opLen], c.lastPos)];
        return c.(i := i + opLen, lastPos := i + opLen);
      }
      if IsSingleByteOperator(ch) {
        tokens := tokens + [Token([ch], c.lastPos)];
        return c.(i := i + 1, lastPos := i + 1);
      }
      if IsInitialNumber(ch) {
        return c.(state := NUMERIC, i := i + 1, lastPos := i);
      }
      if IsSpecialStringCharacter(ch) {
        if i + 1 < |sql| && sql[i + 1] == '\'' {
          return c.(state := STRING_LITERAL, i := i + 2, lastPos := i);
        }
      }
      if IsPunctuation(ch) {
        return c.(state := OPERATOR, i := i + 1, lastPos := i);
      }
      d := c.(state := KEYWORD, i := i + 1, lastPos := i);
    }

    /** A '$': a parameter, or the start of a dollar-quoted string when a tag and another '$' follow. */
    method StepDollar(c: Cursor) returns (d: Cursor)
      requires Valid(sql, c) && c.state == STANDARD && c.i < |sql| && sql[c.i] == '$'
      modifies this
      ensures Steps(c, d)
    {
      hide IsDollarTagCharacter, TagEnd, Lex;
      var i := c.i;
      DollarIsLexed(sql, c, Out());
      if i + 1 >= |sql| {
        return c.(i := i + 1);
      }
      if IsDigit(sql[i + 1]) {
        tokens := tokens + [Token("$", i)];
        return c.(i := i + 1);
      }
      var nextDollar := FindTagEnd(i);
      if nextDollar == 0 {
        tokens := tokens + [Token("$", i)];
        return c.(i := i + 1, lastPos := i);
      }
      d := Cursor(DOLLAR_QUOTED_STRING, nextDollar + 1, i, sql[i + 1..nextDollar]);
    }

    /** Scans over the tag to the next '$'; 0 when something else ends it. */
    method FindTagEnd(i: nat) returns (nextDollar: nat)
      requires i < |sql|
      ensures TagEnd(sql, i + 1) == if nextDollar == 0 then None else Some(nextDollar)
    {
      nextDollar := 0;
      var idx := i + 1;
      while idx < |sql|
        invariant i + 1 <= idx <= |sql| && TagEnd(sql, i + 1) == TagEnd(sql, idx)
      {
        if sql[idx] == '$' {
          return idx;
        }
        if !IsDollarTagCharacter(sql[idx]) {
          return 0;
        }
        idx := idx + 1;
      }
    }

    /** The end of a number is found after the fact: the index goes back to behind its last digit or point. */
    method StepNumeric(c: Cursor) returns (d: Cursor)
      requires Valid(sql, c) && c.state == NUMERIC && c.i < |sql|
      modifies this`tokens
      ensures Steps(c, d)
    {
      hide Lex, IsInitialNumber, IsScientific;
      var i, ch := c.i, sql[c.i];
      if IsInitialNumber(ch) {
        return c.(i := i + 1);
      }
      if ch == '_' && i + 1 < |sql| && IsInitialNumber(sql[i + 1]) {
        return c.(i := i + 1);
      }
      if IsScientific(ch) && !IsScientific(sql[i - 1]) {
        return c.(i := i + 1);
      }
      if (ch == '+' || ch == '-') && IsScientific(sql[i - 1]) {
        return c.(i := i + 1);
      }
      while !IsInitialNumber(sql[i - 1])
        invariant c.lastPos < i <= c.i
        invariant BackToDigit(sql, c.lastPos, c.i) == BackToDigit(sql, c.lastPos, i)
        decreases i
      {
        i := i - 1;
      }
      PushToken(c.lastPos, i);
      d := c.(state := STANDARD, i := i, lastPos := i);
    }

    /** An operator cannot end in '+', unless it holds one of a few special characters. */
    method StepOperator(c: Cursor) returns (d: Cursor)
      requires Valid(sql, c) && c.state == OPERATOR && c.i < |sql|
      modifies this`tokens
      ensures Steps(c, d)
    {
      var i := c.i;
      if IsOperatorCharacter(sql[i]) {
        return c.(i := i + 1);
      }
      PushOperator(c.lastPos, i);
      d := c.(state := STANDARD, lastPos := i);
    }

    /** Pushes the trimmed operator, and the trimmed '+' characters one by one. */
    method PushOperator(start: nat, i: nat)
      requires start <= i <= |sql|
      modifies this`tokens
      ensures tokens == old(tokens) + OperatorTokens(sql, start, i)
    {
      hide OperatorTokenEnd;
      var endPos := OperatorLength(start, i);
      PushToken(start, endPos);
      ghost var before := tokens;
      for j := endPos to i
        invariant tokens == before + Singles(sql, endPos, j)
      {
        tokens := tokens + [Token([sql[j]], j)];
        assert [sql[j]] == sql[j..j + 1];
      }
    }

    /** The search for a special character, and the trimming of the '+' at the end. */
    method OperatorLength(start: nat, i: nat) returns (endPos: nat)
      requires start <= i <= |sql|
      ensures endPos == OperatorTokenEnd(sql, start, i)
    {
      endPos := i;
      var hasSpecial := false;
      for j := start to i
        invariant !hasSpecial && forall k | start <= k < j :: !KeepsTrailingPlus(sql[k])
      {
        if KeepsTrailingPlus(sql[j]) {
          hasSpecial := true;
          break;
        }
      }
      if !hasSpecial {
        while endPos > start && sql[endPos - 1] == '+'
          invariant start <= endPos <= i
          invariant TrimmedEnd(sql, start, i) == TrimmedEnd(sql, start, endPos)
        {
          endPos := endPos - 1;
        }
      }
    }

    method StepKeyword(c: Cursor) returns (d: Cursor)
      requires Valid(sql, c) && c.state == KEYWORD && c.i < |sql|
      modifies this`tokens
      ensures Steps(c, d)
    {
      if IsKeywordCharacter(sql[c.i]) {
        return c.(i := c.i + 1);
      }
      PushToken(c.lastPos, c.i);
      d := c.(state := STANDARD, lastPos := c.i);
    }

    /** String literals and quoted identifiers: a doubled quote is skipped. */
    method StepQuoted(c: Cursor) returns (d: Cursor)
      requires Valid(sql, c) && (c.state == STRING_LITERAL || c.state == QUOTED_IDENTIFIER) && c.i < |sql|
      modifies this`tokens
      ensures Steps(c, d)
    {
      var i, quote := c.i, if c.state == STRING_LITERAL then '\'' else '"';
      if sql[i] != quote {
        return c.(i := i + 1);
      }
      if i + 1 < |sql| && sql[i + 1] == quote {
        return c.(i := i + 2);
      }
      PushToken(c.lastPos, i + 1);
      d := c.(state := STANDARD, i := i + 1, lastPos := i + 1);
    }

    method StepComment(c: Cursor) returns (d: Cursor)
      requires Valid(sql, c) && (c.state == SINGLE_LINE_COMMENT || c.state == MULTI_LINE_COMMENT) && c.i < |sql|
      modifies {}
      ensures Steps(c, d)
    {
      hide Lex, AfterQuote, KeywordEnd, NumberEnd, BackToDigit, IsNewline;
      var i := c.i;
      StartsWithTwo(sql, i, '*', '/');
      if c.state == SINGLE_LINE_COMMENT {
        if IsNewline(sql[i]) {
          return c.(state := STANDARD, i := i + 1, lastPos := i + 1);
        }
      } else if sql[i] == '*' && i + 1 < |sql| && sql[i + 1] == '/' {
        return c.(state := STANDARD, i := i + 2, lastPos := i + 2);
      }
      d := c.(i := i + 1);
    }

    /** Only the marker of the opening ends a dollar-quoted string, which is stored as a plain one. */
    method StepDollarQuoted(c: Cursor) returns (d: Cursor)
      requires Valid(sql, c) && c.state == DOLLAR_QUOTED_STRING && c.i < |sql|
      modifies this`tokens
      ensures Steps(c, d)
    {
      hide Lex, ClosesDollar;
      var closes := ClosingMarkerAt(c.i, c.marker);
      if !closes {
        return c.(i := c.i + 1);
      }
      PushDollarQuoted(c.lastPos, c.marker, c.i);
      var end := c.i + 1 + |c.marker|;
      d := Cursor(STANDARD, end + 1, end + 1, "");
    }

    /** The marker closes when it stands between this '$' and the next one. */
    method ClosingMarkerAt(i: nat, marker: string) returns (closes: bool)
      requires i < |sql|
      ensures closes == ClosesDollar(sql, marker, i)
      ensures closes ==> i + 2 + |marker| <= |sql|
    {
      if sql[i] != '$' || i + 1 >= |sql| {
        return false;
      }
      var start, end := i + 1, i + 1;
      while end < |sql| && sql[end] != '$'
        invariant start <= end <= |sql| && NextDollar(sql, start) == NextDollar(sql, end)
      {
        end := end + 1;
      }
      closes := end < |sql| && end - start == |marker| && sql[start..start + |marker|] == marker;
    }

    /** The content between the markers is quoted anew. */
    method PushDollarQuoted(lastPos: nat, marker: string, i: nat)
      requires lastPos + |marker| + 2 <= i && i + |marker| + 2 <= |sql|
      modifies this`tokens
      ensures tokens == old(tokens) + [DollarToken(sql[lastPos + |marker| + 2..i], marker)]
    {
      var fullMarkerLen := |marker| + 2;
      var quoted := sql[lastPos..i + 1 + |marker| + 1];
      var content := quoted[fullMarkerLen..|quoted| - fullMarkerLen];
      SliceOfSlice(sql, lastPos, i + 1 + |marker| + 1, fullMarkerLen, |quoted| - fullMarkerLen);
      tokens := tokens + [Token("'" + DoubleQuotes(content) + "'", fullMarkerLen)];
    }

    method Step(c: Cursor) returns (d: Cursor)
      requires Valid(sql, c) && c.i < |sql|
      modifies this
      ensures Steps(c, d)
    {
      match c.state {
        case STANDARD => d := StepStandard(c);
        case NUMERIC => d := StepNumeric(c);
        case OPERATOR => d := StepOperator(c);
        case KEYWORD => d := StepKeyword(c);
        case STRING_LITERAL => d := StepQuoted(c);
        case QUOTED_IDENTIFIER => d := StepQuoted(c);
        case SINGLE_LINE_COMMENT => d := StepComment(c);
        case MULTI_LINE_COMMENT => d := StepComment(c);
        case DOLLAR_QUOTED_STRING => d := StepDollarQuoted(c);
      }
    }

    static lemma SuffixIs(s: string, a: nat)
      requires a <= |s|
      ensures s[a..] == s[a..|s|]
    {
    }

    /** The tokenizer ends on every input, and produces the lexer's statements and tokens. */
    method TokenizeInput() returns (complete: bool)
      requires Out() == NOTHING
      modifies this
      ensures Out() == Tokenized(sql)
      ensures var state := Lex(sql, 0, 0, NOTHING).state;
              complete <==> state != SINGLE_LINE_COMMENT && state != MULTI_LINE_COMMENT && state != DOLLAR_QUOTED_STRING
    {
      var c := Cursor(STANDARD, 0, 0, "");
      while c.i < |sql|
        invariant Valid(sql, c) && Rest(sql, c, Out()) == Lex(sql, 0, 0, NOTHING)
        decreases |sql| - c.lastPos, |sql| - c.i
      {
        c := Step(c);
      }
      var lastPos := c.lastPos;
      match c.state {
        case STRING_LITERAL => lastPos := lastPos + 1;
        case SINGLE_LINE_COMMENT => return false;
        case MULTI_LINE_COMMENT => return false;
        case DOLLAR_QUOTED_STRING => return false;
        case _ =>
      }
      SuffixIs(sql, lastPos);
      OnLastToken(sql[lastPos..], lastPos);
      complete := true;
    }
  }
}
