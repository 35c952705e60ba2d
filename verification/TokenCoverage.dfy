/**
 Tokenizing loses nothing (extension/autocomplete/tokenizer.cpp).

 The tokens are slices of the input, in order, and between them lie only white space, comments, and
 the semicolons that end statements; exactly, that is, unless the input ends inside a literal or a
 block comment, or one of two uses of '$' gives a token the offset of something else.
 */
module TokenCoverage {
  import opened Wrappers
  import opened MatcherGraph
  import opened Lexer

  /** From `a` up to `b` there are only white space and whole comments; the end of the input ends a `--` comment. */
  ghost predicate Blank(sql: string, a: nat, b: nat)
    decreases |sql| - a
  {
    a == b <= |sql| ||
    (a < b <= |sql| &&
     if StartsWith(sql, a, "--") then
       (match LineEnd(sql, a + 2) case Some(p) => p + 1 <= b && Blank(sql, p + 1, b) case None => b == |sql|)
     else if StartsWith(sql, a, "/*") then
       (match CommentEnd(sql, a + 2) case Some(p) => p + 2 <= b && Blank(sql, p + 2, b) case None => false)
     else IsSpace(sql[a]) && Blank(sql, a + 1, b))
  }

  /** The tokens are non-empty slices between `from` and `to`, in order, with only blanks around them. */
  ghost predicate TokensCover(sql: string, from: nat, ts: seq<Token>, to: nat)
    decreases |ts|
  {
    if ts == [] then Blank(sql, from, to) else
    var t := ts[|ts| - 1];
    var end := t.offset + |t.text|;
    && from <= t.offset < end <= to && end <= |sql| && t.text == sql[t.offset..end]
    && Blank(sql, end, to) && TokensCover(sql, from, ts[..|ts| - 1], t.offset)
  }

  /** Where the statement after the given ends begins. */
  function NextStart(ends: seq<nat>): nat {
    if ends == [] then 0 else ends[|ends| - 1] + 1
  }

  /** Each statement's tokens cover the input up to the semicolon that ends the statement. */
  ghost predicate StatementsCover(sql: string, statements: seq<seq<Token>>, ends: seq<nat>)
    decreases |ends|
  {
    |statements| == |ends| &&
    (ends != [] ==>
       var n := |ends| - 1;
       && ends[n] < |sql| && sql[ends[n]] == ';'
       && TokensCover(sql, NextStart(ends[..n]), statements[n], ends[n])
       && StatementsCover(sql, statements[..n], ends[..n]))
  }

  /** The output accounts for the input up to `to`. */
  ghost predicate Covers(sql: string, out: Output, to: nat) {
    StatementsCover(sql, out.statements, out.ends) && TokensCover(sql, NextStart(out.ends), out.tokens, to)
  }

  // ---------------------------------------------------------------- steps

  lemma {:induction false} BlankConcat(sql: string, a: nat, b: nat, c: nat)
    requires Blank(sql, a, b) && Blank(sql, b, c)
    ensures Blank(sql, a, c)
    decreases |sql| - a
  {
    hide LineEnd, CommentEnd, StartsWith, IsSpace;
    if a >= b {
    } else {
      if StartsWith(sql, a, "--") {
        if LineEnd(sql, a + 2).Some? {
          BlankConcat(sql, LineEnd(sql, a + 2).value + 1, b, c);
        }
      } else if StartsWith(sql, a, "/*") {
        BlankConcat(sql, CommentEnd(sql, a + 2).value + 2, b, c);
      } else {
        BlankConcat(sql, a + 1, b, c);
      }
    }
  }

  /** Blanks can be read in only one way: a shorter blank is a part of a longer one. */
  lemma {:induction false} BlankSplit(sql: string, a: nat, b: nat, c: nat)
    requires Blank(sql, a, b) && Blank(sql, a, c) && b <= c
    ensures Blank(sql, b, c)
    decreases |sql| - a
  {
    hide LineEnd, CommentEnd, StartsWith, IsSpace;
    if a >= b {
    } else {
      if StartsWith(sql, a, "--") {
        if LineEnd(sql, a + 2).Some? {
          BlankSplit(sql, LineEnd(sql, a + 2).value + 1, b, c);
        }
      } else if StartsWith(sql, a, "/*") {
        BlankSplit(sql, CommentEnd(sql, a + 2).value + 2, b, c);
      } else {
        BlankSplit(sql, a + 1, b, c);
      }
    }
  }

  lemma CoverBlank(sql: string, from: nat, ts: seq<Token>, a: nat, b: nat)
    requires TokensCover(sql, from, ts, a) && Blank(sql, a, b)
    ensures TokensCover(sql, from, ts, b)
  {
    if ts == [] {
      BlankConcat(sql, from, a, b);
    } else {
      var t := ts[|ts| - 1];
      BlankConcat(sql, t.offset + |t.text|, a, b);
    }
  }

  lemma {:induction false} CoverIsInRange(sql: string, from: nat, ts: seq<Token>, a: nat)
    requires TokensCover(sql, from, ts, a)
    ensures from <= a <= |sql|
    decreases |ts|
  {
  }

  lemma NothingIsBlank(sql: string, a: nat)
    requires a <= |sql|
    ensures Blank(sql, a, a)
  {
  }

  lemma CoverPush(sql: string, from: nat, ts: seq<Token>, a: nat, b: nat)
    requires TokensCover(sql, from, ts, a) && a < b <= |sql|
    ensures TokensCover(sql, from, ts + [Slice(sql, a, b)], b)
  {
    hide Blank;
    CoverIsInRange(sql, from, ts, a);
    NothingIsBlank(sql, b);
    assert (ts + [Slice(sql, a, b)])[..|ts|] == ts;
  }

  lemma {:induction false} CoverSingles(sql: string, from: nat, ts: seq<Token>, a: nat, b: nat)
    requires TokensCover(sql, from, ts, a) && a <= b <= |sql|
    ensures TokensCover(sql, from, ts + Singles(sql, a, b), b)
    decreases b
  {
    hide TokensCover, Blank;
    if a == b {
      assert ts + [] == ts;
    } else {
      CoverSingles(sql, from, ts, a, b - 1);
      CoverPush(sql, from, ts + Singles(sql, a, b - 1), b - 1, b);
      assert ts + (Singles(sql, a, b - 1) + [Slice(sql, b - 1, b)]) == ts + Singles(sql, a, b - 1) + [Slice(sql, b - 1, b)];
    }
  }

  lemma CoverOperator(sql: string, from: nat, ts: seq<Token>, a: nat, b: nat)
    requires TokensCover(sql, from, ts, a) && a <= b <= |sql|
    ensures TokensCover(sql, from, ts + OperatorTokens(sql, a, b), b)
  {
    hide OperatorTokenEnd, TokensCover, Singles;
    var end := OperatorTokenEnd(sql, a, b);
    var first := if a < end then [Slice(sql, a, end)] else [];
    if a < end {
      CoverPush(sql, from, ts, a, end);
    } else {
      assert ts + first == ts;
    }
    CoverSingles(sql, from, ts + first, end, b);
    assert ts + (first + Singles(sql, end, b)) == ts + first + Singles(sql, end, b);
  }

  lemma CoversPush(sql: string, out: Output, a: nat, b: nat)
    requires Covers(sql, out, a) && a < b <= |sql|
    ensures Covers(sql, out.Push(Slice(sql, a, b)), b)
  {
    CoverPush(sql, NextStart(out.ends), out.tokens, a, b);
  }

  lemma CoversEnd(sql: string, out: Output, a: nat)
    requires Covers(sql, out, a) && a < |sql| && sql[a] == ';'
    ensures Covers(sql, out.End(a), a + 1)
  {
    var next := out.End(a);
    assert next.ends[..|out.ends|] == out.ends && next.statements[..|out.statements|] == out.statements;
  }

  lemma CoversBlank(sql: string, out: Output, a: nat, b: nat)
    requires Covers(sql, out, a) && Blank(sql, a, b)
    ensures Covers(sql, out, b)
  {
    CoverBlank(sql, NextStart(out.ends), out.tokens, a, b);
  }

  /** The characters that may precede a string literal start no other kind of lexeme. */
  lemma SpecialStringIsWordLike(sql: string, i: nat)
    requires i < |sql| && IsSpecialStringCharacter(sql[i])
    ensures SpecialOperatorLength(sql, i) == 0
    ensures !IsSingleByteOperator(sql[i]) && !IsInitialNumber(sql[i]) && !IsSpace(sql[i])
  {
    forall s: string | |s| > 0 && StartsWith(sql, i, s)
      ensures s[0] == sql[i]
    {
      assert sql[i..i + |s|][0] == sql[i];
    }
  }

  /** The same output covers two stretches only if what lies between them is blank. */
  lemma GapIsBlank(sql: string, out: Output, a: nat, b: nat)
    requires Covers(sql, out, a) && Covers(sql, out, b) && a <= b
    ensures Blank(sql, a, b)
  {
    if out.tokens == [] {
      BlankSplit(sql, NextStart(out.ends), a, b);
    } else {
      var t := out.tokens[|out.tokens| - 1];
      BlankSplit(sql, t.offset + |t.text|, a, b);
    }
  }

  // ---------------------------------------------------------------- where offsets go astray

  /**
   From `i` on, nothing is lost: every string literal and block comment is closed, no dollar-quoted
   string is opened, and no operator of the kinds that are pushed at once directly follows a '$' that
   stands alone. `bare` says that such a '$' is what precedes `i`.
   */
  predicate KeepsAll(sql: string, i: nat, bare: bool)
    requires i <= |sql|
    decreases |sql| - i
  {
    if i == |sql| then true else
    var c := sql[i];
    if c == '\'' || c == '"' then
      (match QuoteEnd(sql, c, i + 1) case Some(e) => KeepsAll(sql, e, false) case None => c == '"')
    else if c == ';' then KeepsAll(sql, i + 1, false)
    else if c == '$' then
      i + 1 == |sql| || ((IsDigit(sql[i + 1]) || TagEnd(sql, i + 1) == None) && KeepsAll(sql, i + 1, true))
    else if StartsWith(sql, i, "--") then
      (match LineEnd(sql, i + 2) case Some(p) => KeepsAll(sql, p + 1, false) case None => true)
    else if StartsWith(sql, i, "/*") then
      (match CommentEnd(sql, i + 2) case Some(p) => KeepsAll(sql, p + 2, false) case None => false)
    else if IsSpace(c) then KeepsAll(sql, i + 1, false)
    else if SpecialOperatorLength(sql, i) > 0 then !bare && KeepsAll(sql, i + SpecialOperatorLength(sql, i), false)
    else if IsSingleByteOperator(c) then !bare && KeepsAll(sql, i + 1, false)
    else
      match WordEnd(sql, i) case Some(e) => KeepsAll(sql, e, false) case None => !IsPrefixed(sql, i)
  }

  /** A string literal with a prefix starts at `i`. */
  predicate IsPrefixed(sql: string, i: nat) {
    i + 1 < |sql| && IsSpecialStringCharacter(sql[i]) && sql[i + 1] == '\''
  }

  /** The end of a number, prefixed literal, operator or keyword that starts at `i`. */
  function WordEnd(sql: string, i: nat): (r: Option<nat>)
    requires i < |sql|
    ensures r.Some? ==> i < r.value <= |sql|
  {
    var c := sql[i];
    if IsInitialNumber(c) then
      (match NumberEnd(sql, i + 1) case Some(p) => Some(BackToDigit(sql, i, p)) case None => None)
    else if IsPrefixed(sql, i) then QuoteEnd(sql, '\'', i + 2)
    else if IsPunctuation(c) then OperatorEnd(sql, i + 1)
    else KeywordEnd(sql, i + 1)
  }

  /** No stretch of the input is covered by this output, and so by nothing that it grows into. */
  ghost predicate Broken(sql: string, out: Output) {
    forall to: nat :: !Covers(sql, out, to)
  }

  lemma CoversLess(sql: string, out: Output, t: Token, to: nat)
    requires Covers(sql, out.Push(t), to)
    ensures Covers(sql, out, t.offset) && t.text != "" && t.offset + |t.text| <= |sql|
    ensures t.text == sql[t.offset..t.offset + |t.text|]
  {
    hide Blank;
    assert out.Push(t).tokens[..|out.tokens|] == out.tokens;
  }

  lemma BrokenPush(sql: string, out: Output, t: Token)
    requires Broken(sql, out)
    ensures Broken(sql, out.Push(t))
  {
    hide Covers;
    forall to: nat
      ensures !Covers(sql, out.Push(t), to)
    {
      if Covers(sql, out.Push(t), to) {
        CoversLess(sql, out, t, to);
      }
    }
  }

  lemma {:induction false} BrokenPushAll(sql: string, out: Output, ts: seq<Token>)
    requires Broken(sql, out)
    ensures Broken(sql, out.PushAll(ts))
    decreases |ts|
  {
    hide Broken;
    if ts == [] {
      assert out.tokens + [] == out.tokens;
    } else {
      BrokenPush(sql, out, ts[0]);
      BrokenPushAll(sql, out.Push(ts[0]), ts[1..]);
      assert out.tokens + ts == out.tokens + [ts[0]] + ts[1..];
    }
  }

  lemma CoversEndLess(sql: string, out: Output, pos: nat, to: nat)
    requires Covers(sql, out.End(pos), to)
    ensures Covers(sql, out, pos)
  {
    hide TokensCover;
    var next := out.End(pos);
    assert next.ends[..|out.ends|] == out.ends && next.statements[..|out.statements|] == out.statements;
  }

  lemma BrokenEnd(sql: string, out: Output, pos: nat)
    requires Broken(sql, out)
    ensures Broken(sql, out.End(pos))
  {
    hide Covers;
    forall to: nat
      ensures !Covers(sql, out.End(pos), to)
    {
      if Covers(sql, out.End(pos), to) {
        CoversEndLess(sql, out, pos, to);
      }
    }
  }

  /** What is lost stays lost. */
  lemma {:induction false} LexStaysBroken(sql: string, i: nat, last: nat, out: Output)
    requires last <= i <= |sql| && Broken(sql, out)
    ensures Broken(sql, Finish(sql, Lex(sql, i, last, out)))
    decreases |sql| - i, 1
  {
    hide Broken, Finish, BackToDigit, OperatorTokens, SpecialOperatorLength, StartsWith, IsInitialNumber, IsPunctuation,
      IsSpace, IsSingleByteOperator, LexDollar;
    if i == |sql| {
      FinishStaysBroken(sql, Lex(sql, i, last, out));
      return;
    }
    var c := sql[i];
    if c == '\'' || c == '"' {
      QuoteStaysBroken(sql, c, i, QuoteEnd(sql, c, i + 1), out);
    } else if c == ';' {
      BrokenEnd(sql, out, i);
      LexStaysBroken(sql, i + 1, i + 1, out.End(i));
    } else if c == '$' {
      DollarStaysBroken(sql, i, last, out);
    } else if StartsWith(sql, i, "--") {
      if LineEnd(sql, i + 2).Some? {
        LexStaysBroken(sql, LineEnd(sql, i + 2).value + 1, LineEnd(sql, i + 2).value + 1, out);
      } else {
        FinishStaysBroken(sql, Lex(sql, i, last, out));
      }
    } else if StartsWith(sql, i, "/*") {
      if CommentEnd(sql, i + 2).Some? {
        LexStaysBroken(sql, CommentEnd(sql, i + 2).value + 2, CommentEnd(sql, i + 2).value + 2, out);
      } else {
        FinishStaysBroken(sql, Lex(sql, i, last, out));
      }
    } else if IsSpace(c) {
      LexStaysBroken(sql, i + 1, i + 1, out);
    } else {
      WordStaysBroken(sql, i, last, out);
    }
  }

  lemma FinishStaysBroken(sql: string, r: Lexed)
    requires LastWordStart(r) <= |sql| && Broken(sql, r.out)
    ensures Broken(sql, Finish(sql, r))
  {
    hide Broken;
    if LastWordStart(r) < |sql| {
      BrokenPush(sql, r.out, Slice(sql, LastWordStart(r), |sql|));
    }
  }

  lemma {:induction false} PushStaysBroken(sql: string, end: nat, last: nat, out: Output, t: Token)
    requires last <= end <= |sql| && Broken(sql, out)
    ensures Broken(sql, Finish(sql, Lex(sql, end, last, out.Push(t))))
    decreases |sql| - end, 2
  {
    BrokenPush(sql, out, t);
    LexStaysBroken(sql, end, last, out.Push(t));
  }

  lemma {:induction false} QuoteStaysBroken(sql: string, quote: char, i: nat, end: Option<nat>, out: Output)
    requires i < |sql| && (end.Some? ==> i < end.value <= |sql|) && Broken(sql, out)
    ensures Broken(sql, Finish(sql, AfterQuote(sql, quote, i, end, out)))
    decreases |sql| - i, 0
  {
    hide Broken, Finish, Lex;
    match end
    case Some(e) => PushStaysBroken(sql, e, e, out, Slice(sql, i, e));
    case None => FinishStaysBroken(sql, AfterQuote(sql, quote, i, end, out));
  }

  lemma {:induction false} DollarStaysBroken(sql: string, i: nat, last: nat, out: Output)
    requires last <= i < |sql| && sql[i] == '$' && Broken(sql, out)
    ensures Broken(sql, Finish(sql, LexDollar(sql, i, last, out)))
    decreases |sql| - i, 0
  {
    hide Broken, Finish, Lex, DollarEnd, TagEnd, IsDigit, DollarToken;
    if i + 1 == |sql| {
      LexStaysBroken(sql, i + 1, last, out);
    } else if IsDigit(sql[i + 1]) {
      PushStaysBroken(sql, i + 1, last, out, Token("$", i));
    } else if TagEnd(sql, i + 1) == None {
      PushStaysBroken(sql, i + 1, i, out, Token("$", i));
    } else {
      var d := TagEnd(sql, i + 1).value;
      var marker := sql[i + 1..d];
      match DollarEnd(sql, marker, d + 1)
      case None => FinishStaysBroken(sql, AfterTag(sql, i, marker, d + 1, out));
      case Some(p) =>
        var end := p + |marker| + 2;
        PushStaysBroken(sql, end, end, out, DollarToken(sql[i + |marker| + 2..p], marker));
    }
  }

  lemma {:induction false} WordStaysBroken(sql: string, i: nat, last: nat, out: Output)
    requires last <= i < |sql| && Broken(sql, out)
    requires var c := sql[i]; c != '\'' && c != '"' && c != ';' && c != '$' && !IsSpace(c)
    requires !StartsWith(sql, i, "--") && !StartsWith(sql, i, "/*")
    ensures Broken(sql, Finish(sql, Lex(sql, i, last, out)))
    decreases |sql| - i, 0
  {
    hide Broken, Finish, StartsWith, OperatorTokens, IsPunctuation;
    var c := sql[i];
    if SpecialOperatorLength(sql, i) > 0 {
      var end := i + SpecialOperatorLength(sql, i);
      PushStaysBroken(sql, end, end, out, Token(sql[i..end], last));
    } else if IsSingleByteOperator(c) {
      PushStaysBroken(sql, i + 1, i + 1, out, Token([c], last));
    } else if WordEnd(sql, i) == None {
      assert Lex(sql, i, last, out).out == out;
      FinishStaysBroken(sql, Lex(sql, i, last, out));
    } else {
      var end := WordEnd(sql, i).value;
      PushStaysBroken(sql, end, end, out, Slice(sql, i, end));
      BrokenPushAll(sql, out, OperatorTokens(sql, i, end));
      LexStaysBroken(sql, end, end, out.PushAll(OperatorTokens(sql, i, end)));
    }
  }

  /** A token whose place is taken breaks the output: an operator recorded at the '$' before it. */
  lemma StaleTokenBreaks(sql: string, i: nat, out: Output, text: string)
    requires 0 < i <= |sql| && sql[i - 1] == '$' && Covers(sql, out, i)
    ensures Broken(sql, out.Push(Token(text, i - 1)))
  {
    hide Covers, Blank;
    var t := Token(text, i - 1);
    forall to: nat
      ensures !Covers(sql, out.Push(t), to)
    {
      if Covers(sql, out.Push(t), to) {
        CoversLess(sql, out, t, to);
        GapIsBlank(sql, out, i - 1, i);
        NotBlank(sql, i - 1, i);
      }
    }
  }

  /** Quotes and '$' are not blank. */
  lemma NotBlank(sql: string, a: nat, b: nat)
    requires a < b <= |sql| && Blank(sql, a, b)
    ensures sql[a] != '$' && sql[a] != '\'' && !IsSpecialStringCharacter(sql[a])
  {
    StartsWithTwo(sql, a, '-', '-');
    StartsWithTwo(sql, a, '/', '*');
  }

  /** A dollar-quoted string is recorded at the length of its marker, where its text does not stand. */
  lemma DollarTokenBreaks(sql: string, i: nat, out: Output, content: string, marker: string)
    requires i < |sql| && sql[i] == '$' && Covers(sql, out, i)
    ensures Broken(sql, out.Push(DollarToken(content, marker)))
  {
    hide Covers, Blank, DoubleQuotes;
    var t := DollarToken(content, marker);
    forall to: nat
      ensures !Covers(sql, out.Push(t), to)
    {
      if Covers(sql, out.Push(t), to) {
        CoversLess(sql, out, t, to);
        assert t.text[0] == '\'' && sql[t.offset] == sql[t.offset..t.offset + |t.text|][0];
        if t.offset < i {
          GapIsBlank(sql, out, t.offset, i);
          NotBlank(sql, t.offset, i);
        } else if t.offset > i {
          GapIsBlank(sql, out, i, t.offset);
          NotBlank(sql, i, t.offset);
        }
      }
    }
  }

  // ---------------------------------------------------------------- the whole input

  /** The lexeme that is open in this state at the end of the input is lost, or a part of it is. */
  predicate LosesEnd(s: TokenizeState) {
    s == STRING_LITERAL || s == MULTI_LINE_COMMENT || s == DOLLAR_QUOTED_STRING
  }

  ghost predicate CoversAll(sql: string, r: Lexed)
    requires LastWordStart(r) <= |sql|
  {
    Covers(sql, Finish(sql, r), |sql|)
  }

  /** `i` is where a token that starts there is said to start, or a '$' that stands alone precedes it. */
  ghost predicate Follows(sql: string, i: nat, last: nat) {
    i <= |sql| && (last == i || (last + 1 == i < |sql| && sql[last] == '$' && sql[i] != '$'))
  }

  lemma {:induction false} LexCovers(sql: string, i: nat, last: nat, out: Output)
    requires Follows(sql, i, last) && Covers(sql, out, i)
    ensures var r := Lex(sql, i, last, out);
            CoversAll(sql, r) <==> KeepsAll(sql, i, last < i)
    decreases |sql| - i, 3
  {
    hide Covers, CoversAll, BackToDigit, OperatorTokens, SpecialOperatorLength, StartsWith, IsInitialNumber, IsPunctuation,
      IsSpace, IsSingleByteOperator, LexDollar, Blank, WordEnd;
    if i == |sql| {
      EndIsKept(sql, Lex(sql, i, last, out));
      return;
    }
    var c := sql[i];
    if c == '\'' || c == '"' {
      QuotedCovers(sql, c, i, QuoteEnd(sql, c, i + 1), out);
    } else if c == ';' {
      CoversEnd(sql, out, i);
      LexCovers(sql, i + 1, i + 1, out.End(i));
    } else if c == '$' {
      DollarCovers(sql, i, out);
    } else if StartsWith(sql, i, "--") || StartsWith(sql, i, "/*") {
      CommentCovers(sql, i, last, out);
    } else if IsSpace(c) {
      SpaceIsBlank(sql, i);
      CoversBlank(sql, out, i, i + 1);
      LexCovers(sql, i + 1, i + 1, out);
    } else {
      WordCovers(sql, i, last, out);
    }
  }

  lemma SpaceIsBlank(sql: string, i: nat)
    requires i < |sql| && IsSpace(sql[i])
    ensures Blank(sql, i, i + 1)
  {
    StartsWithTwo(sql, i, '-', '-');
    StartsWithTwo(sql, i, '/', '*');
  }

  /** The last lexeme is kept as a token. */
  lemma EndIsKept(sql: string, r: Lexed)
    requires r.lastPos <= |sql| && Covers(sql, r.out, r.lastPos)
    requires r.state != STRING_LITERAL && Completes(r.state)
    ensures CoversAll(sql, r)
  {
    hide Covers;
    if r.lastPos < |sql| {
      CoversPush(sql, r.out, r.lastPos, |sql|);
    }
  }

  /** What precedes the end is covered, but not what is open there: what starts it is not blank. */
  lemma EndIsLost(sql: string, r: Lexed)
    requires r.lastPos < |sql| && Covers(sql, r.out, r.lastPos) && LosesEnd(r.state)
    requires var c := sql[r.lastPos]; c == '$' || c == '\'' || IsSpecialStringCharacter(c)
                                      || (r.state == MULTI_LINE_COMMENT && !Blank(sql, r.lastPos, |sql|))
    ensures !CoversAll(sql, r)
  {
    hide Covers, Blank;
    if CoversAll(sql, r) {
      var b := LastWordStart(r);
      if Finish(sql, r) == r.out {
        GapIsBlank(sql, r.out, r.lastPos, |sql|);
        NotBlank(sql, r.lastPos, |sql|);
      } else {
        CoversLess(sql, r.out, Slice(sql, b, |sql|), |sql|);
        GapIsBlank(sql, r.out, r.lastPos, b);
        NotBlank(sql, r.lastPos, b);
      }
    }
  }

  lemma {:induction false} PushedCovers(sql: string, i: nat, end: nat, out: Output)
    requires i < end <= |sql| && Covers(sql, out, i)
    ensures var r := Lex(sql, end, end, out.Push(Slice(sql, i, end)));
            CoversAll(sql, r) <==> KeepsAll(sql, end, false)
    decreases |sql| - end, 4
  {
    CoversPush(sql, out, i, end);
    LexCovers(sql, end, end, out.Push(Slice(sql, i, end)));
  }

  /** After a token that has no place, nothing that follows helps. */
  lemma {:induction false} BrokenCovers(sql: string, end: nat, out: Output)
    requires end <= |sql| && Broken(sql, out)
    ensures !CoversAll(sql, Lex(sql, end, end, out))
  {
    LexStaysBroken(sql, end, end, out);
  }

  lemma {:induction false} QuotedCovers(sql: string, quote: char, i: nat, end: Option<nat>, out: Output)
    requires i < |sql| && (end.Some? ==> i < end.value <= |sql|) && Covers(sql, out, i)
    requires quote == '\'' ==> sql[i] == '\'' || IsSpecialStringCharacter(sql[i])
    ensures var r := AfterQuote(sql, quote, i, end, out);
            CoversAll(sql, r) <==> match end case Some(e) => KeepsAll(sql, e, false) case None => quote != '\''
    decreases |sql| - i, 0
  {
    hide Covers, CoversAll, Lex, KeepsAll;
    match end
    case Some(e) => PushedCovers(sql, i, e, out);
    case None =>
      var r := AfterQuote(sql, quote, i, end, out);
      if quote == '\'' {
        EndIsLost(sql, r);
      } else {
        EndIsKept(sql, r);
      }
  }

  lemma {:induction false} CommentCovers(sql: string, i: nat, last: nat, out: Output)
    requires Follows(sql, i, last) && i < |sql| && Covers(sql, out, i)
    requires StartsWith(sql, i, "--") || StartsWith(sql, i, "/*")
    ensures var r := Lex(sql, i, last, out);
            CoversAll(sql, r) <==> KeepsAll(sql, i, last < i)
    decreases |sql| - i, 0
  {
    hide Covers, CoversAll, Blank, StartsWith, LineEnd, CommentEnd;
    StartsWithTwo(sql, i, '-', '-');
    StartsWithTwo(sql, i, '/', '*');
    CommentIsBlank(sql, i);
    if StartsWith(sql, i, "--") {
      match LineEnd(sql, i + 2)
      case Some(p) =>
        CoversBlank(sql, out, i, p + 1);
        LexCovers(sql, p + 1, p + 1, out);
      case None =>
        CoversBlank(sql, out, i, |sql|);
        assert Lex(sql, i, last, out) == Lexed(out, SINGLE_LINE_COMMENT, last);
        OpenLineIsCovered(sql, Lex(sql, i, last, out));
    } else {
      match CommentEnd(sql, i + 2)
      case Some(p) =>
        CoversBlank(sql, out, i, p + 2);
        LexCovers(sql, p + 2, p + 2, out);
      case None =>
        assert Lex(sql, i, last, out) == Lexed(out, MULTI_LINE_COMMENT, last);
        OpenCommentIsLost(sql, i, out, last);
    }
  }

  lemma OpenLineIsCovered(sql: string, r: Lexed)
    requires r.state == SINGLE_LINE_COMMENT && r.lastPos <= |sql| && Covers(sql, r.out, |sql|)
    ensures CoversAll(sql, r)
  {
    hide Covers;
  }

  lemma OpenCommentIsLost(sql: string, i: nat, out: Output, last: nat)
    requires last <= i < |sql| && Covers(sql, out, i) && StartsWith(sql, i, "/*") && CommentEnd(sql, i + 2) == None
    ensures !CoversAll(sql, Lexed(out, MULTI_LINE_COMMENT, last))
  {
    hide Covers, Blank;
    if CoversAll(sql, Lexed(out, MULTI_LINE_COMMENT, last)) {
      GapIsBlank(sql, out, i, |sql|);
      CommentIsBlank(sql, i);
    }
  }

  /** A comment that ends is blank, and so is one that the end of the input ends; a block comment must be closed. */
  lemma CommentIsBlank(sql: string, a: nat)
    requires a <= |sql|
    ensures StartsWith(sql, a, "--") ==>
              Blank(sql, a, match LineEnd(sql, a + 2) case Some(p) => p + 1 case None => |sql|)
    ensures StartsWith(sql, a, "/*") ==>
              (match CommentEnd(sql, a + 2) case Some(p) => Blank(sql, a, p + 2) case None => !Blank(sql, a, |sql|))
  {
    StartsWithTwo(sql, a, '-', '-');
    StartsWithTwo(sql, a, '/', '*');
  }

  lemma {:induction false} DollarCovers(sql: string, i: nat, out: Output)
    requires i < |sql| && sql[i] == '$' && Covers(sql, out, i)
    ensures var r := LexDollar(sql, i, i, out);
            CoversAll(sql, r) <==> KeepsAll(sql, i, false)
    decreases |sql| - i, 0
  {
    hide Covers, CoversAll, Lex, KeepsAll, TagEnd, DollarEnd, IsDigit;
    DollarKeeps(sql, i);
    if i + 1 == |sql| {
      LexAtEnd(sql, i, out);
      EndIsKept(sql, LexDollar(sql, i, i, out));
    } else if IsDigit(sql[i + 1]) || TagEnd(sql, i + 1) == None {
      assert Slice(sql, i, i + 1) == Token("$", i);
      CoversPush(sql, out, i, i + 1);
      BareIsFollowed(sql, i);
      LexCovers(sql, i + 1, i, out.Push(Token("$", i)));
    } else {
      DollarQuotedIsLost(sql, i, TagEnd(sql, i + 1).value, out);
    }
  }

  /** A dollar-quoted string is recorded in the wrong place, or lost if it is not closed. */
  lemma {:induction false} DollarQuotedIsLost(sql: string, i: nat, d: nat, out: Output)
    requires i < d < |sql| && sql[i] == '$' && Covers(sql, out, i)
    ensures !CoversAll(sql, AfterTag(sql, i, sql[i + 1..d], d + 1, out))
    decreases |sql| - d, 4
  {
    hide Covers, CoversAll, Lex, DollarEnd, DollarToken;
    var marker := sql[i + 1..d];
    match DollarEnd(sql, marker, d + 1)
    case None => EndIsLost(sql, AfterTag(sql, i, marker, d + 1, out));
    case Some(p) =>
      var content := sql[i + |marker| + 2..p];
      DollarTokenBreaks(sql, i, out, content, marker);
      BrokenCovers(sql, p + |marker| + 2, out.Push(DollarToken(content, marker)));
  }

  lemma DollarKeeps(sql: string, i: nat)
    requires i < |sql| && sql[i] == '$'
    ensures KeepsAll(sql, i, false)
            <==> i + 1 == |sql| || ((IsDigit(sql[i + 1]) || TagEnd(sql, i + 1) == None) && KeepsAll(sql, i + 1, true))
  {
  }

  lemma LexAtEnd(sql: string, last: nat, out: Output)
    requires last <= |sql|
    ensures Lex(sql, |sql|, last, out) == Lexed(out, STANDARD, last)
  {
  }

  lemma BareIsFollowed(sql: string, i: nat)
    requires i + 1 < |sql| && sql[i] == '$' && (IsDigit(sql[i + 1]) || TagEnd(sql, i + 1) == None)
    ensures Follows(sql, i + 1, i)
  {
  }

  /** Operators, numbers, prefixed literals and keywords. */
  lemma {:induction false} WordCovers(sql: string, i: nat, last: nat, out: Output)
    requires Follows(sql, i, last) && i < |sql| && Covers(sql, out, i)
    requires var c := sql[i]; c != '\'' && c != '"' && c != ';' && c != '$' && !IsSpace(c)
    requires !StartsWith(sql, i, "--") && !StartsWith(sql, i, "/*")
    ensures var r := Lex(sql, i, last, out);
            CoversAll(sql, r) <==> KeepsAll(sql, i, last < i)
    decreases |sql| - i, 2
  {
    hide Covers, CoversAll, StartsWith, IsPunctuation, OperatorTokens, Blank, WordEnd, AfterQuote,
      IsSingleByteOperator, IsSpace,
      SpecialOperatorLength, IsInitialNumber, BackToDigit;
    var c := sql[i];
    if SpecialOperatorLength(sql, i) > 0 {
      InstantCovers(sql, i, i + SpecialOperatorLength(sql, i), last, out);
    } else if IsSingleByteOperator(c) {
      assert sql[i..i + 1] == [c];
      InstantCovers(sql, i, i + 1, last, out);
    } else if IsInitialNumber(c) {
      LongWordCovers(sql, i, last, out);
    } else if IsSpecialStringCharacter(c) && i + 1 < |sql| && sql[i + 1] == '\'' {
      PrefixedCovers(sql, i, last, out);
    } else {
      LongWordCovers(sql, i, last, out);
    }
  }

  /** A string literal with a prefix. */
  lemma {:induction false} PrefixedCovers(sql: string, i: nat, last: nat, out: Output)
    requires last <= i && i + 1 < |sql| && Covers(sql, out, i)
    requires IsSpecialStringCharacter(sql[i]) && sql[i + 1] == '\''
    ensures var r := Lex(sql, i, last, out);
            CoversAll(sql, r) <==> KeepsAll(sql, i, last < i)
    decreases |sql| - i, 1
  {
    hide Covers, CoversAll, Lex, KeepsAll, AfterQuote, QuoteEnd;
    PrefixedIsQuoted(sql, i, last, out);
    QuotedCovers(sql, '\'', i, QuoteEnd(sql, '\'', i + 2), out);
  }

  lemma PrefixedIsQuoted(sql: string, i: nat, last: nat, out: Output)
    requires last <= i && i + 1 < |sql| && IsSpecialStringCharacter(sql[i]) && sql[i + 1] == '\''
    ensures Lex(sql, i, last, out) == AfterQuote(sql, '\'', i, QuoteEnd(sql, '\'', i + 2), out)
    ensures forall bare :: KeepsAll(sql, i, bare) ==
                           match QuoteEnd(sql, '\'', i + 2) case Some(e) => KeepsAll(sql, e, false) case None => false
  {
    SpecialStringIsWordLike(sql, i);
    StartsWithTwo(sql, i, '-', '-');
    StartsWithTwo(sql, i, '/', '*');
    hide StartsWith, IsPunctuation, SpecialOperatorLength, IsSingleByteOperator, IsInitialNumber, IsSpace,
      AfterQuote, OperatorTokens, BackToDigit, QuoteEnd, LexDollar;
  }

  /** An operator that is pushed at once gets the offset `last`. */
  lemma {:induction false} InstantCovers(sql: string, i: nat, end: nat, last: nat, out: Output)
    requires Follows(sql, i, last) && i < end <= |sql| && Covers(sql, out, i)
    ensures var r := Lex(sql, end, end, out.Push(Token(sql[i..end], last)));
            CoversAll(sql, r) <==> last == i && KeepsAll(sql, end, false)
    decreases |sql| - end, 5
  {
    hide Covers, CoversAll, Lex, KeepsAll;
    if last == i {
      PushedCovers(sql, i, end, out);
    } else {
      StaleTokenBreaks(sql, i, out, sql[i..end]);
      BrokenCovers(sql, end, out.Push(Token(sql[i..end], last)));
    }
  }

  lemma {:induction false} LongWordCovers(sql: string, i: nat, last: nat, out: Output)
    requires last <= i < |sql| && Covers(sql, out, i)
    requires var c := sql[i]; c != '\'' && c != '"' && c != ';' && c != '$' && !IsSpace(c)
    requires !StartsWith(sql, i, "--") && !StartsWith(sql, i, "/*")
    requires SpecialOperatorLength(sql, i) == 0 && !IsSingleByteOperator(sql[i])
    requires IsInitialNumber(sql[i]) || !(IsSpecialStringCharacter(sql[i]) && i + 1 < |sql| && sql[i + 1] == '\'')
    ensures var r := Lex(sql, i, last, out);
            CoversAll(sql, r) <==> KeepsAll(sql, i, last < i)
    decreases |sql| - i, 0
  {
    hide Covers, CoversAll, StartsWith, IsPunctuation, OperatorTokens, SpecialOperatorLength, IsSingleByteOperator, IsSpace;
    match WordEnd(sql, i)
    case None => EndIsKept(sql, Lex(sql, i, last, out));
    case Some(end) =>
      if !IsInitialNumber(sql[i]) && IsPunctuation(sql[i]) {
        CoversOperator(sql, out, i, end);
        LexCovers(sql, end, end, out.PushAll(OperatorTokens(sql, i, end)));
      } else {
        PushedCovers(sql, i, end, out);
      }
  }

  lemma CoversOperator(sql: string, out: Output, a: nat, b: nat)
    requires Covers(sql, out, a) && a <= b <= |sql|
    ensures Covers(sql, out.PushAll(OperatorTokens(sql, a, b)), b)
  {
    CoverOperator(sql, NextStart(out.ends), out.tokens, a, b);
  }

  /**
   Tokenizing loses nothing exactly when every string literal is closed (an open one loses its first
   character), every block comment is (an open one is no gap, as it never ends), and every token is
   recorded at its own place.
   */
  lemma NothingIsLost(sql: string)
    ensures Covers(sql, Tokenized(sql), |sql|) <==> KeepsAll(sql, 0, false)
  {
    hide Covers, Lex, KeepsAll;
    NothingCovers(sql);
    LexCovers(sql, 0, 0, NOTHING);
  }

  /** The input ends inside a string literal, a dollar-quoted string or a block comment. */
  ghost predicate EndsOpen(sql: string) {
    LosesEnd(Lex(sql, 0, 0, NOTHING).state)
  }

  /** Without '$', all that can be lost is at the end. */
  lemma OnlyTheEndIsLost(sql: string)
    requires forall k | 0 <= k < |sql| :: sql[k] != '$'
    ensures KeepsAll(sql, 0, false) <==> !EndsOpen(sql)
  {
    hide Lex, KeepsAll;
    EndDecides(sql, 0, NOTHING);
  }

  lemma {:induction false} EndDecides(sql: string, i: nat, out: Output)
    requires i <= |sql| && forall k | i <= k < |sql| :: sql[k] != '$'
    ensures KeepsAll(sql, i, false) <==> !LosesEnd(Lex(sql, i, i, out).state)
    decreases |sql| - i, 1
  {
    hide StartsWith, SpecialOperatorLength, IsSpace, IsSingleByteOperator, IsInitialNumber, IsPunctuation, WordEnd, QuoteEnd,
      LineEnd, CommentEnd, OperatorTokens, BackToDigit, LexDollar;
    if i == |sql| {
    } else if sql[i] == '\'' || sql[i] == '"' {
      match QuoteEnd(sql, sql[i], i + 1)
      case Some(e) => EndDecides(sql, e, out.Push(Slice(sql, i, e)));
      case None =>
    } else if sql[i] == ';' {
      EndDecides(sql, i + 1, out.End(i));
    } else if StartsWith(sql, i, "--") {
      match LineEnd(sql, i + 2)
      case Some(p) => EndDecides(sql, p + 1, out);
      case None =>
    } else if StartsWith(sql, i, "/*") {
      match CommentEnd(sql, i + 2)
      case Some(p) => EndDecides(sql, p + 2, out);
      case None =>
    } else if IsSpace(sql[i]) {
      EndDecides(sql, i + 1, out);
    } else {
      WordDecides(sql, i, out);
    }
  }

  lemma {:induction false} WordDecides(sql: string, i: nat, out: Output)
    requires i < |sql| && forall k | i <= k < |sql| :: sql[k] != '$'
    requires var c := sql[i]; c != '\'' && c != '"' && c != ';' && c != '$' && !IsSpace(c)
    requires !StartsWith(sql, i, "--") && !StartsWith(sql, i, "/*")
    ensures KeepsAll(sql, i, false) <==> !LosesEnd(Lex(sql, i, i, out).state)
    decreases |sql| - i, 0
  {
    hide StartsWith, IsPunctuation, OperatorTokens, BackToDigit, QuoteEnd;
    if SpecialOperatorLength(sql, i) > 0 {
      var end := i + SpecialOperatorLength(sql, i);
      EndDecides(sql, end, out.Push(Token(sql[i..end], i)));
    } else if IsSingleByteOperator(sql[i]) {
      EndDecides(sql, i + 1, out.Push(Token([sql[i]], i)));
    } else if WordEnd(sql, i).Some? {
      var end := WordEnd(sql, i).value;
      EndDecides(sql, end, out.Push(Slice(sql, i, end)));
      EndDecides(sql, end, out.PushAll(OperatorTokens(sql, i, end)));
    } else if IsPrefixed(sql, i) {
      PrefixedIsQuoted(sql, i, i, out);
    } else {
      assert !LosesEnd(Lex(sql, i, i, out).state);
    }
  }

  lemma NothingCovers(sql: string)
    ensures Covers(sql, NOTHING, 0)
  {
  }

  /** Covering tokens are disjoint slices in strictly increasing order. */
  lemma {:induction false} CoveringTokensAreOrdered(sql: string, from: nat, ts: seq<Token>, to: nat, i: nat)
    requires TokensCover(sql, from, ts, to) && i < |ts|
    ensures from <= ts[i].offset < ts[i].offset + |ts[i].text| <= to
    ensures ts[i].offset + |ts[i].text| <= |sql| && ts[i].text == sql[ts[i].offset..ts[i].offset + |ts[i].text|]
    ensures i + 1 < |ts| ==> ts[i].offset + |ts[i].text| <= ts[i + 1].offset
    decreases |ts|
  {
    if i + 1 == |ts| {
    } else {
      CoveringTokensAreOrdered(sql, from, ts[..|ts| - 1], ts[|ts| - 1].offset, i);
    }
  }

  /** Statements keep the order of the input: each lies between two of its semicolons. */
  lemma {:induction false} StatementsAreOrdered(sql: string, statements: seq<seq<Token>>, ends: seq<nat>, k: nat)
    requires StatementsCover(sql, statements, ends) && k < |ends|
    ensures NextStart(ends[..k]) <= ends[k] < |sql| && sql[ends[k]] == ';'
    ensures TokensCover(sql, NextStart(ends[..k]), statements[k], ends[k])
    decreases |ends|
  {
    if k + 1 < |ends| {
      StatementsAreOrdered(sql, statements[..|ends| - 1], ends[..|ends| - 1], k);
      assert ends[..|ends| - 1][..k] == ends[..k];
    } else {
      CoverIsInRange(sql, NextStart(ends[..k]), statements[k], ends[k]);
    }
  }

  // ---------------------------------------------------------------- examples

  /** A literal that is not closed loses its first character: its quote, or its prefix. */
  lemma OpenLiteralsLoseTheirStart()
    ensures Tokenized("'a").tokens == [Token("a", 1)] && !Covers("'a", Tokenized("'a"), 2)
    ensures Tokenized("N'a").tokens == [Token("'a", 1)] && !Covers("N'a", Tokenized("N'a"), 3)
  {
    hide Covers, KeepsAll, Lex;
    PlainLiteralIsOpen();
    LosesFirst("'a", "a");
    PrefixedLiteralIsOpen();
    LosesFirst("N'a", "'a");
  }

  lemma LosesFirst(sql: string, rest: string)
    requires |sql| > 1 && sql[1..] == rest && Lex(sql, 0, 0, NOTHING) == Lexed(NOTHING, STRING_LITERAL, 0)
    requires forall k | 0 <= k < |sql| :: sql[k] != '$'
    ensures Tokenized(sql).tokens == [Token(rest, 1)] && !Covers(sql, Tokenized(sql), |sql|)
  {
    hide Lex, Covers, KeepsAll;
    assert sql[1..|sql|] == sql[1..];
    OnlyTheEndIsLost(sql);
    NothingIsLost(sql);
  }

  lemma PlainLiteralIsOpen()
    ensures Lex("'a", 0, 0, NOTHING) == Lexed(NOTHING, STRING_LITERAL, 0)
  {
    assert QuoteEnd("'a", '\'', 2) == None;
  }

  lemma PrefixedLiteralIsOpen()
    ensures Lex("N'a", 0, 0, NOTHING) == Lexed(NOTHING, STRING_LITERAL, 0)
  {
    PrefixedIsQuoted("N'a", 0, 0, NOTHING);
    assert QuoteEnd("N'a", '\'', 3) == None;
  }

  /** A parameter keeps its place: not every '$' misplaces a token. */
  lemma ParameterKeepsItsPlace()
    ensures Covers("$1", Tokenized("$1"), 2)
  {
    hide Covers, Lex, KeepsAll, LexDollar;
    var s, out := "$1", NOTHING.Push(Token("$", 0));
    NothingIsLost(s);
    DollarKeeps(s, 0);
    DigitFollowsDollar(s, out);
    NumberIsLast(s, out);
  }

  lemma DigitFollowsDollar(s: string, out: Output)
    requires |s| == 2 && s[0] == '$' && IsDigit(s[1]) && out == NOTHING.Push(Token("$", 0))
    ensures Lex(s, 0, 0, NOTHING) == Lex(s, 1, 0, out)
  {
  }

  lemma NumberIsLast(s: string, out: Output)
    requires |s| == 2 && IsDigit(s[1])
    ensures KeepsAll(s, 1, true) && Lex(s, 1, 0, out) == Lexed(out, NUMERIC, 1)
  {
    StartsWithTwo(s, 1, '-', '-');
    StartsWithTwo(s, 1, '/', '*');
    assert NumberEnd(s, 2) == None && SpecialOperatorLength(s, 1) == 0;
  }

  /**
   A dollar-quoted string records the length of its marker instead of its offset, and an operator
   right after a bare '$' records the offset of the '$'.
   */
  lemma DollarMovesOffsets()
    ensures Lex(" $$$$", 0, 0, NOTHING).out.tokens == [Token("''", 2)]
    ensures Lex("$(", 0, 0, NOTHING).out.tokens == [Token("$", 0), Token("(", 0)]
  {
    hide LexDollar;
    var s := " $$$$";
    EmptyDollarString(s);
    StartsWithTwo(s, 0, '-', '-');
    StartsWithTwo(s, 0, '/', '*');
    assert Lex(s, 0, 0, NOTHING) == Lex(s, 1, 1, NOTHING) == LexDollar(s, 1, 1, NOTHING);
    OperatorAfterDollar();
  }

  lemma EmptyDollarString(s: string)
    requires s == " $$$$"
    ensures LexDollar(s, 1, 1, NOTHING).out.tokens == [Token("''", 2)]
  {
    hide Lex, IsDollarTagCharacter;
    assert NextDollar(s, 4) == 4 && ClosesDollar(s, "", 3);
    assert TagEnd(s, 2) == Some(2) && DollarEnd(s, "", 3) == Some(3);
    assert s[3..3] == "" && s[2..2] == "" && DoubleQuotes("") == "";
    assert DollarToken("", "") == Token("''", 2);
    LexAtEnd(s, |s|, NOTHING.Push(DollarToken("", "")));
    assert s[2..2] == "" && LexDollar(s, 1, 1, NOTHING) == AfterTag(s, 1, "", 3, NOTHING);
    assert AfterTag(s, 1, "", 3, NOTHING) == Lex(s, 5, 5, NOTHING.Push(DollarToken("", "")));
  }

  lemma OperatorAfterDollar()
    ensures Lex("$(", 0, 0, NOTHING).out.tokens == [Token("$", 0), Token("(", 0)]
  {
    var s := "$(";
    assert !IsDollarTagCharacter(s[1]);
    assert TagEnd(s, 1) == None;
    var out := NOTHING.Push(Token("$", 0));
    assert SpecialOperatorLength(s, 1) == 0;
    StartsWithTwo(s, 1, '-', '-');
    StartsWithTwo(s, 1, '/', '*');
    assert Lex(s, 2, 2, out.Push(Token("(", 0))).out.tokens == [Token("$", 0), Token("(", 0)];
    assert Lex(s, 1, 0, out).out.tokens == [Token("$", 0), Token("(", 0)];
  }
}
