/**
 Where tokens begin and end (extension/autocomplete/tokenizer.cpp).

 Each kind of lexeme is described by the characters it is made of and by what stands behind it, with
 the character classes written out. Every token is a lexeme of one of these kinds, and there is only
 one way to cut a text into them.
 */
module Lexemes {
  import opened Wrappers
  import opened Sequences
  import opened MatcherGraph
  import opened Lexer
  import opened TokenCoverage

  // ---------------------------------------------------------------- characters

  predicate IsWhite(c: char) {
    c in " \t\n\r\U{0B}\U{0C}"
  }

  /** These are operators on their own. */
  predicate IsSingle(c: char) {
    c in "(){}[],?-#"
  }

  /** Operators of any length are made of these. */
  predicate IsOperatorSign(c: char) {
    c in "!%&*+/:<=>@\\^`|~"
  }

  /** Letters, digits, the underscore, and whatever is no ASCII character one can see. */
  predicate IsWordCharacter(c: char) {
    '0' <= c <= '9' || 'A' <= c <= 'Z' || c == '_' || 'a' <= c <= 'z' || '~' < c || (c < ' ' && !IsWhite(c))
  }

  predicate IsDigitOrPoint(c: char) {
    c in "0123456789."
  }

  // ---------------------------------------------------------------- kinds of lexemes

  /** All from `a` up to `b` are of these characters, and the one behind is not. */
  predicate IsRun(sql: string, a: nat, b: nat, of: char -> bool)
    requires a <= b <= |sql|
  {
    (forall k | a <= k < b :: of(sql[k])) && (b < |sql| ==> !of(sql[b]))
  }

  /** Every quote in the text is doubled. */
  predicate QuotesAreDoubled(text: string, quote: char) {
    text == "" ||
    if text[0] != quote then QuotesAreDoubled(text[1..], quote)
    else |text| > 1 && text[1] == quote && QuotesAreDoubled(text[2..], quote)
  }

  /** From `i` on, behind the opening quote, the text goes on to the first quote that is not doubled. */
  predicate IsQuoted(sql: string, i: nat, b: nat, quote: char)
    requires b <= |sql|
  {
    && i < b && sql[b - 1] == quote && (b < |sql| ==> sql[b] != quote)
    && QuotesAreDoubled(sql[i..b - 1], quote)
  }

  predicate IsWord(sql: string, a: nat, b: nat)
    requires a < b <= |sql|
  {
    IsRun(sql, a, b, IsWordCharacter)
  }

  /**
   The character at `k` may go on with a number: a digit or a point; an underscore before one of them;
   an `e` that does not follow another one; a sign behind an `e`.
   */
  predicate GoesOnWithNumber(sql: string, k: nat)
    requires 0 < k < |sql|
  {
    || IsDigitOrPoint(sql[k])
    || (sql[k] == '_' && k + 1 < |sql| && IsDigitOrPoint(sql[k + 1]))
    || (sql[k] in "eE" && sql[k - 1] !in "eE")
    || (sql[k] in "+-" && sql[k - 1] in "eE")
  }

  /**
   A number goes on as long as it may, up to `e`; what follows its last digit or point is given back,
   but not at the end of the input.
   */
  predicate IsNumberUpTo(sql: string, a: nat, b: nat, e: nat)
    requires a < b <= e <= |sql|
  {
    && (forall k | a < k < e :: GoesOnWithNumber(sql, k))
    && if e == |sql| then b == e
       else !GoesOnWithNumber(sql, e) && IsDigitOrPoint(sql[b - 1]) && forall k | b <= k < e :: !IsDigitOrPoint(sql[k])
  }

  ghost predicate IsNumber(sql: string, a: nat, b: nat)
    requires a < b <= |sql|
  {
    exists e: nat :: b <= e <= |sql| && IsNumberUpTo(sql, a, b, e)
  }

  /** One of these lets an operator end in '+'. */
  predicate LetsEndInPlus(c: char) {
    c in "~!@#%^&|`?"
  }

  /**
   Of the operator signs from `s` up to `e`, either all are one operator, or the plus signs at the end
   are operators of their own: unless the input ends here, or a sign allows them.
   */
  predicate IsOperatorOf(sql: string, a: nat, b: nat, s: nat, e: nat)
    requires s <= a < b <= e <= |sql|
  {
    && IsRun(sql, s, e, IsOperatorSign)
    && if e == |sql| || sql[e - 1] != '+' || (exists k :: s <= k < e && LetsEndInPlus(sql[k])) then a == s && b == e
       else
         (a == s && sql[b - 1] != '+' && forall k | b <= k < e :: sql[k] == '+')
         || (b == a + 1 && forall k | a <= k < e :: sql[k] == '+')
  }

  ghost predicate IsOperator(sql: string, a: nat, b: nat)
    requires a < b <= |sql|
  {
    exists s: nat, e: nat :: s <= a && b <= e <= |sql| && IsOperatorOf(sql, a, b, s, e)
  }

  predicate Stands(sql: string, a: nat, s: string) {
    a + |s| <= |sql| && forall k | 0 <= k < |s| :: sql[a + k] == s[k]
  }

  /** The length of the operator of two or three signs that stands at `a`, or 0. */
  function LongOperator(sql: string, a: nat): nat {
    if Stands(sql, a, "->>") then 3
    else if Stands(sql, a, "::") || Stands(sql, a, ":=") || Stands(sql, a, "->") || Stands(sql, a, "**") || Stands(sql, a, "//")
    then 2 else 0
  }

  predicate HasPrefix(sql: string, a: nat)
    requires a < |sql|
  {
    sql[a] in "NnXxEeBb" && a + 1 < |sql| && sql[a + 1] == '\''
  }

  /** What stands from `a` up to `b` is one lexeme. What can start there is decided in this order. */
  ghost predicate IsLexeme(sql: string, a: nat, b: nat)
    requires a < b <= |sql|
  {
    var c := sql[a];
    if c == '\'' then IsQuoted(sql, a + 1, b, '\'')
    else if c == '"' then IsQuoted(sql, a + 1, b, '"') || (b == |sql| && QuotesAreDoubled(sql[a + 1..], '"'))
    else if c == '$' then b == a + 1
    else if IsWhite(c) || c == ';' || Stands(sql, a, "--") || Stands(sql, a, "/*") then false
    else if LongOperator(sql, a) > 0 then b == a + LongOperator(sql, a)
    else if IsSingle(c) then b == a + 1
    else if IsDigitOrPoint(c) then IsNumber(sql, a, b)
    else if HasPrefix(sql, a) then IsQuoted(sql, a + 2, b, '\'')
    else if IsOperatorSign(c) then IsOperator(sql, a, b)
    else IsWord(sql, a, b)
  }

  /** A literal that the end of the input leaves open, without its first character: its quote or its prefix. */
  predicate IsOpenLiteral(sql: string, a: nat, b: nat)
    requires a < b <= |sql|
  {
    && b == |sql| && a > 0
    && ((sql[a - 1] == '\'' && QuotesAreDoubled(sql[a..], '\''))
        || (HasPrefix(sql, a - 1) && QuotesAreDoubled(sql[a + 1..], '\'')))
  }

  // ---------------------------------------------------------------- the lexer's classes and scans

  lemma ClassesAgree(c: char)
    ensures IsSpace(c) <==> IsWhite(c)
    ensures IsSingleByteOperator(c) <==> IsSingle(c) || c == '$'
    ensures IsInitialNumber(c) <==> IsDigitOrPoint(c)
    ensures IsSpecialStringCharacter(c) <==> c in "NnXxEeBb"
    ensures IsScientific(c) <==> c in "eE"
    ensures KeepsTrailingPlus(c) <==> LetsEndInPlus(c)
  {
  }

  lemma SignsAgree(c: char)
    ensures IsKeywordCharacter(c) <==> IsWordCharacter(c)
    ensures IsOperatorCharacter(c) <==> IsOperatorSign(c)
  {
    if c <= '/' {
    } else if c <= '@' {
    } else {
    }
  }

  /** What starts an operator, where nothing else does. */
  lemma OperatorsStart(c: char)
    requires IsPunctuation(c) && !IsSingleByteOperator(c) && !IsInitialNumber(c) && c != ';' && c != '"' && c != '\''
    ensures IsOperatorSign(c)
  {
    SignsAgree(c);
  }

  lemma StandsStarts(sql: string, a: nat, s: string)
    ensures Stands(sql, a, s) <==> StartsWith(sql, a, s)
  {
    if a + |s| <= |sql| {
      var part := sql[a..a + |s|];
      assert Stands(sql, a, s) <==> forall k | 0 <= k < |s| :: part[k] == s[k];
      assert part == s <==> forall k | 0 <= k < |s| :: part[k] == s[k];
    }
  }

  lemma LongOperatorIs(sql: string, a: nat)
    ensures LongOperator(sql, a) == SpecialOperatorLength(sql, a)
  {
    StandsStarts(sql, a, "->>");
    StandsStarts(sql, a, "::");
    StandsStarts(sql, a, ":=");
    StandsStarts(sql, a, "->");
    StandsStarts(sql, a, "**");
    StandsStarts(sql, a, "//");
    hide Stands, StartsWith;
  }

  /** Scanning for the closing quote finds the first one that is not doubled. */
  lemma {:induction false} QuoteEndIs(sql: string, quote: char, i: nat)
    requires i <= |sql|
    ensures match QuoteEnd(sql, quote, i)
            case Some(b) => IsQuoted(sql, i, b, quote)
            case None => QuotesAreDoubled(sql[i..], quote)
    decreases |sql| - i
  {
    if i == |sql| {
      assert sql[i..] == "";
    } else {
      var step := if sql[i] != quote then 1 else 2;
      if sql[i] == quote && (i + 1 == |sql| || sql[i + 1] != quote) {
        assert sql[i..i] == "";
      } else {
        QuoteEndIs(sql, quote, i + step);
        match QuoteEnd(sql, quote, i)
        case Some(b) => assert sql[i..b - 1][step..] == sql[i + step..b - 1];
        case None => assert sql[i..][step..] == sql[i + step..];
      }
    }
  }

  lemma RunBefore(sql: string, a: nat, b: nat, of: char -> bool)
    requires a < b <= |sql| && of(sql[a]) && IsRun(sql, a + 1, b, of)
    ensures IsRun(sql, a, b, of)
  {
  }

  lemma {:induction false} KeywordEndIs(sql: string, i: nat)
    requires i <= |sql|
    ensures var e := match KeywordEnd(sql, i) case Some(p) => p case None => |sql|; IsRun(sql, i, e, IsWordCharacter)
    decreases |sql| - i
  {
    if i == |sql| {
    } else {
      SignsAgree(sql[i]);
      hide IsWordCharacter, IsKeywordCharacter;
      if IsKeywordCharacter(sql[i]) {
        KeywordEndIs(sql, i + 1);
      }
    }
  }

  lemma {:induction false} OperatorEndIs(sql: string, i: nat)
    requires i <= |sql|
    ensures var e := match OperatorEnd(sql, i) case Some(p) => p case None => |sql|; IsRun(sql, i, e, IsOperatorSign)
    decreases |sql| - i
  {
    if i == |sql| {
    } else {
      SignsAgree(sql[i]);
      hide IsOperatorSign, IsOperatorCharacter;
      if IsOperatorCharacter(sql[i]) {
        OperatorEndIs(sql, i + 1);
      }
    }
  }

  lemma GoesOnAgrees(sql: string, k: nat)
    requires 0 < k < |sql|
    ensures GoesOnWithNumber(sql, k) <==> ContinuesNumber(sql, k)
  {
    ClassesAgree(sql[k]);
    ClassesAgree(sql[k - 1]);
    if k + 1 < |sql| {
      ClassesAgree(sql[k + 1]);
    }
    hide IsInitialNumber, IsDigitOrPoint, IsScientific;
  }

  lemma {:induction false} NumberEndIs(sql: string, i: nat)
    requires 0 < i <= |sql|
    ensures match NumberEnd(sql, i)
            case Some(e) => !GoesOnWithNumber(sql, e) && forall k | i <= k < e :: GoesOnWithNumber(sql, k)
            case None => forall k | i <= k < |sql| :: GoesOnWithNumber(sql, k)
    decreases |sql| - i
  {
    if i == |sql| {
    } else {
      GoesOnAgrees(sql, i);
      hide GoesOnWithNumber, ContinuesNumber;
      if ContinuesNumber(sql, i) {
        NumberEndIs(sql, i + 1);
      }
    }
  }

  lemma {:induction false} BackToDigitIs(sql: string, a: nat, e: nat)
    requires a < e <= |sql| && IsInitialNumber(sql[a])
    ensures var b := BackToDigit(sql, a, e); IsDigitOrPoint(sql[b - 1]) && forall k | b <= k < e :: !IsDigitOrPoint(sql[k])
    decreases e
  {
    ClassesAgree(sql[e - 1]);
    hide IsInitialNumber, IsDigitOrPoint;
    if IsInitialNumber(sql[e - 1]) {
    } else {
      BackToDigitIs(sql, a, e - 1);
    }
  }

  predicate IsTagCharacter(c: char) {
    'A' <= c <= 'Z' || 'a' <= c <= 'z' || '0' <= c <= '9' || c == '_' || '\U{80}' <= c
  }

  /** A '$' opens a dollar-quoted string when another one follows behind letters, digits and underscores only. */
  lemma {:induction false} TagEndIs(sql: string, i: nat)
    ensures match TagEnd(sql, i)
            case Some(d) => sql[d] == '$' && forall k | i <= k < d :: IsTagCharacter(sql[k])
            case None => forall d | i <= d < |sql| && sql[d] == '$' :: exists k :: i <= k < d && !IsTagCharacter(sql[k])
    decreases |sql| - i
  {
    if i >= |sql| || sql[i] == '$' {
    } else if IsDollarTagCharacter(sql[i]) {
      TagEndIs(sql, i + 1);
    }
  }

  /** A `--` comment ends at the first newline. */
  lemma {:induction false} LineEndIs(sql: string, i: nat)
    ensures match LineEnd(sql, i)
            case Some(p) => sql[p] in "\n\r" && forall k | i <= k < p :: sql[k] !in "\n\r"
            case None => forall k | i <= k < |sql| :: sql[k] !in "\n\r"
    decreases |sql| - i
  {
    if i >= |sql| {
    } else if IsNewline(sql[i]) {
    } else {
      LineEndIs(sql, i + 1);
    }
  }

  /** A block comment ends at the first of its closing signs. */
  lemma {:induction false} CommentEndIs(sql: string, i: nat)
    ensures match CommentEnd(sql, i)
            case Some(p) => Stands(sql, p, "*/") && forall k | i <= k < p :: !Stands(sql, k, "*/")
            case None => forall k | i <= k < |sql| :: !Stands(sql, k, "*/")
    decreases |sql| - i
  {
    StandsStarts(sql, i, "*/");
    hide Stands, StartsWith;
    if i >= |sql| || StartsWith(sql, i, "*/") {
    } else {
      CommentEndIs(sql, i + 1);
    }
  }

  // ---------------------------------------------------------------- tokens

  /** The token is what stands at `a`; it is recorded there, or at the '$' before. */
  ghost predicate StandsAt(sql: string, a: nat, t: Token) {
    && t.text != "" && a + |t.text| <= |sql| && t.text == sql[a..a + |t.text|]
    && (a == t.offset || (a == t.offset + 1 && sql[t.offset] == '$'))
    && IsLexeme(sql, a, a + |t.text|)
  }

  /** The token comes from a dollar-quoted string: its content as a plain literal, at the length of its marker. */
  ghost predicate IsFromDollars(sql: string, i: nat, marker: string, content: string, t: Token) {
    && StartsWith(sql, i, "$" + marker + "$" + content + "$" + marker + "$")
    && t == Token("'" + DoubleQuotes(content) + "'", |marker| + 2)
  }

  ghost predicate IsTokenOf(sql: string, t: Token) {
    (exists a: nat :: StandsAt(sql, a, t)) || exists i: nat, marker, content :: IsFromDollars(sql, i, marker, content, t)
  }

  ghost predicate AreTokensOf(sql: string, ts: seq<Token>) {
    forall t | t in ts :: IsTokenOf(sql, t)
  }

  ghost predicate HasTokensOf(sql: string, out: Output) {
    AreTokensOf(sql, out.tokens) && forall k | 0 <= k < |out.statements| :: AreTokensOf(sql, out.statements[k])
  }

  lemma HasPush(sql: string, out: Output, t: Token)
    requires HasTokensOf(sql, out) && IsTokenOf(sql, t)
    ensures HasTokensOf(sql, out.Push(t))
  {
    hide IsTokenOf;
  }

  lemma HasSlice(sql: string, out: Output, a: nat, b: nat, offset: nat)
    requires HasTokensOf(sql, out) && a < b <= |sql| && IsLexeme(sql, a, b)
    requires offset == a || (offset + 1 == a && sql[offset] == '$')
    ensures HasTokensOf(sql, out.Push(Token(sql[a..b], offset)))
  {
    hide IsLexeme, IsOpenLiteral;
    assert StandsAt(sql, a, Token(sql[a..b], offset));
    HasPush(sql, out, Token(sql[a..b], offset));
  }

  /** What cannot be a lexeme of its own keeps none from being read as one. */
  lemma LexemeStart(sql: string, i: nat)
    requires i < |sql|
    ensures IsWhite(sql[i]) <==> IsSpace(sql[i])
    ensures Stands(sql, i, "--") <==> StartsWith(sql, i, "--")
    ensures Stands(sql, i, "/*") <==> StartsWith(sql, i, "/*")
    ensures LongOperator(sql, i) == SpecialOperatorLength(sql, i)
    ensures sql[i] != '$' ==> (IsSingle(sql[i]) <==> IsSingleByteOperator(sql[i]))
    ensures IsDigitOrPoint(sql[i]) <==> IsInitialNumber(sql[i])
    ensures HasPrefix(sql, i) <==> IsSpecialStringCharacter(sql[i]) && i + 1 < |sql| && sql[i + 1] == '\''
  {
    ClassesAgree(sql[i]);
    StandsStarts(sql, i, "--");
    StandsStarts(sql, i, "/*");
    LongOperatorIs(sql, i);
    hide Stands, StartsWith, LongOperator, SpecialOperatorLength, IsSpace, IsInitialNumber, IsDigitOrPoint;
  }

  /** A position where a number, an operator or a word is read. */
  ghost predicate StartsWordLike(sql: string, i: nat) {
    && i < |sql|
    && var c := sql[i];
    && c != '\'' && c != '"' && c != ';' && c != '$' && !IsSpace(c)
    && !StartsWith(sql, i, "--") && !StartsWith(sql, i, "/*")
  }

  lemma WordIsLexeme(sql: string, i: nat)
    requires StartsWordLike(sql, i) && SpecialOperatorLength(sql, i) == 0 && !IsSingleByteOperator(sql[i])
    requires !IsInitialNumber(sql[i]) && !IsPrefixed(sql, i) && !IsPunctuation(sql[i])
    ensures var e := match KeywordEnd(sql, i + 1) case Some(p) => p case None => |sql|; IsLexeme(sql, i, e)
  {
    hide LongOperator, Stands, IsWordCharacter, IsDigitOrPoint, KeywordEnd, IsPunctuation, IsSpace, SpecialOperatorLength,
      IsSingleByteOperator, IsInitialNumber, StartsWith, IsPrefixed, HasPrefix, IsRun, IsWhite, IsSingle, IsOperatorSign;
    LexemeStart(sql, i);
    KeywordEndIs(sql, i + 1);
    WordsStart(sql[i]);
    PrefixesAgree(sql, i);
    RunBefore(sql, i, match KeywordEnd(sql, i + 1) case Some(p) => p case None => |sql|, IsWordCharacter);
  }

  lemma PrefixesAgree(sql: string, i: nat)
    requires i < |sql|
    ensures IsPrefixed(sql, i) <==> HasPrefix(sql, i)
  {
    ClassesAgree(sql[i]);
  }

  /** What starts a word, where nothing else does. */
  lemma WordsStart(c: char)
    requires !IsPunctuation(c) && !IsSingleByteOperator(c) && !IsSpace(c)
    ensures IsWordCharacter(c) && !IsOperatorSign(c)
  {
    SignsAgree(c);
    assert IsOperatorSign(c) ==> IsOperatorCharacter(c);
    hide IsWordCharacter;
  }

  lemma NumberIsFound(sql: string, i: nat)
    requires i < |sql| && IsInitialNumber(sql[i])
    ensures match NumberEnd(sql, i + 1)
            case Some(p) => IsNumber(sql, i, BackToDigit(sql, i, p))
            case None => IsNumber(sql, i, |sql|)
  {
    hide IsNumber, NumberEnd, BackToDigit, IsInitialNumber;
    match NumberEnd(sql, i + 1)
    case Some(p) => NumberStops(sql, i, p);
    case None => NumberGoesOn(sql, i);
  }

  lemma NumberStops(sql: string, i: nat, p: nat)
    requires i < |sql| && IsInitialNumber(sql[i]) && NumberEnd(sql, i + 1) == Some(p)
    ensures IsNumber(sql, i, BackToDigit(sql, i, p))
  {
    hide GoesOnWithNumber, IsDigitOrPoint, NumberEnd, BackToDigit, IsInitialNumber, IsNumber;
    NumberEndIs(sql, i + 1);
    BackToDigitIs(sql, i, p);
    NumberIs(sql, i, BackToDigit(sql, i, p), p);
  }

  lemma NumberGoesOn(sql: string, i: nat)
    requires i < |sql| && NumberEnd(sql, i + 1) == None
    ensures IsNumber(sql, i, |sql|)
  {
    hide GoesOnWithNumber, NumberEnd, IsNumber;
    NumberEndIs(sql, i + 1);
    NumberIs(sql, i, |sql|, |sql|);
  }

  lemma NumberIs(sql: string, a: nat, b: nat, e: nat)
    requires a < b <= e <= |sql| && forall k | a + 1 <= k < e :: GoesOnWithNumber(sql, k)
    requires if e == |sql| then b == e
             else !GoesOnWithNumber(sql, e) && IsDigitOrPoint(sql[b - 1]) && forall k | b <= k < e :: !IsDigitOrPoint(sql[k])
    ensures IsNumber(sql, a, b)
  {
    hide GoesOnWithNumber, IsDigitOrPoint;
    assert IsNumberUpTo(sql, a, b, e);
  }

  lemma NumberIsLexeme(sql: string, i: nat)
    requires StartsWordLike(sql, i) && SpecialOperatorLength(sql, i) == 0 && !IsSingleByteOperator(sql[i]) && IsInitialNumber(sql[i])
    ensures match NumberEnd(sql, i + 1)
            case Some(p) => IsLexeme(sql, i, BackToDigit(sql, i, p))
            case None => IsLexeme(sql, i, |sql|)
  {
    LexemeStart(sql, i);
    NumberIsFound(sql, i);
    hide LongOperator, Stands, IsNumber, IsDigitOrPoint, NumberEnd, BackToDigit, IsInitialNumber;
  }

  lemma QuotedIsLexeme(sql: string, i: nat)
    requires i < |sql| && (sql[i] == '\'' || sql[i] == '"')
    ensures match QuoteEnd(sql, sql[i], i + 1)
            case Some(e) => IsLexeme(sql, i, e)
            case None => if sql[i] == '"' then IsLexeme(sql, i, |sql|) else i + 1 < |sql| ==> IsOpenLiteral(sql, i + 1, |sql|)
  {
    QuoteEndIs(sql, sql[i], i + 1);
    hide IsQuoted, QuotesAreDoubled;
  }

  lemma PrefixedIsLexeme(sql: string, i: nat)
    requires StartsWordLike(sql, i) && IsPrefixed(sql, i)
    ensures match QuoteEnd(sql, '\'', i + 2)
            case Some(e) => IsLexeme(sql, i, e)
            case None => IsOpenLiteral(sql, i + 1, |sql|)
  {
    SpecialStringIsWordLike(sql, i);
    LexemeStart(sql, i);
    QuoteEndIs(sql, '\'', i + 2);
    hide IsQuoted, QuotesAreDoubled, LongOperator, Stands, IsDigitOrPoint;
  }

  // ---------------------------------------------------------------- operators

  /** The signs from `i` up to `e` are a run, in which `LetsEndInPlus` decides about the plus signs at its end. */
  lemma OperatorPart(sql: string, i: nat, e: nat, a: nat, b: nat)
    requires i < e < |sql| && IsRun(sql, i, e, IsOperatorSign)
    requires var end := OperatorTokenEnd(sql, i, e); (a == i && b == end && i < end) || (end <= a && b == a + 1 <= e)
    ensures IsOperator(sql, a, b)
  {
    var end := OperatorTokenEnd(sql, i, e);
    KeepersAgree(sql, i, e);
    TrimmedIs(sql, i, e);
    hide OperatorTokenEnd, LetsEndInPlus, IsOperatorSign, TrimmedEnd;
    assert IsOperatorOf(sql, a, b, i, e);
  }

  lemma KeepersAgree(sql: string, i: nat, e: nat)
    requires i < e <= |sql|
    ensures (exists k :: i <= k < e && KeepsTrailingPlus(sql[k])) <==> (exists k :: i <= k < e && LetsEndInPlus(sql[k]))
  {
    forall k | i <= k < e
      ensures KeepsTrailingPlus(sql[k]) <==> LetsEndInPlus(sql[k])
    {
      ClassesAgree(sql[k]);
    }
    hide KeepsTrailingPlus, LetsEndInPlus;
    if k :| i <= k < e && KeepsTrailingPlus(sql[k]) {
      assert LetsEndInPlus(sql[k]);
    }
  }

  /** How far trimming goes. */
  lemma TrimmedIs(sql: string, i: nat, e: nat)
    requires i < e <= |sql|
    ensures var end := OperatorTokenEnd(sql, i, e);
            && ((exists k :: i <= k < e && KeepsTrailingPlus(sql[k])) ==> end == e)
            && (sql[e - 1] != '+' ==> end == e)
            && (!(exists k :: i <= k < e && KeepsTrailingPlus(sql[k])) && sql[e - 1] == '+' ==>
                  end < e && (end > i ==> sql[end - 1] != '+') && forall k | end <= k < e :: sql[k] == '+')
  {
    TrimmedEndIs(sql, i, e);
    hide KeepsTrailingPlus, TrimmedEnd;
  }

  lemma {:induction false} TrimmedEndIs(sql: string, i: nat, e: nat)
    requires i <= e <= |sql|
    ensures var end := TrimmedEnd(sql, i, e);
            (end > i ==> sql[end - 1] != '+') && (i < e ==> (end == e <==> sql[e - 1] != '+'))
    decreases e
  {
    if i < e && sql[e - 1] == '+' {
      TrimmedEndIs(sql, i, e - 1);
    }
  }

  /** What starts with an operator sign is a lexeme if it is an operator. */
  lemma OperatorIsLexeme(sql: string, a: nat, b: nat)
    requires StartsWordLike(sql, a) && SpecialOperatorLength(sql, a) == 0 && IsOperatorSign(sql[a]) && a < b <= |sql| && IsOperator(sql, a, b)
    ensures IsLexeme(sql, a, b)
  {
    LexemeStart(sql, a);
    SignIsNothingElse(sql[a]);
    hide LongOperator, Stands, IsOperator, IsDigitOrPoint;
  }

  lemma SignIsNothingElse(c: char)
    requires IsOperatorSign(c)
    ensures !IsSingle(c) && !IsDigitOrPoint(c) && c !in "NnXxEeBb"
  {
  }

  /** Each plus sign that is split off is an operator of its own. */
  lemma {:induction false} SinglesAreTokens(sql: string, i: nat, e: nat, b: nat, out: Output)
    requires i < e < |sql| && IsRun(sql, i, e, IsOperatorSign) && OperatorTokenEnd(sql, i, e) <= b <= e && HasTokensOf(sql, out)
    ensures HasTokensOf(sql, out.PushAll(Singles(sql, OperatorTokenEnd(sql, i, e), b)))
    decreases b
  {
    hide HasTokensOf, OperatorTokenEnd, IsRun;
    var end := OperatorTokenEnd(sql, i, e);
    if b == end {
      assert out.tokens + [] == out.tokens;
    } else {
      SinglesAreTokens(sql, i, e, b - 1, out);
      OperatorPart(sql, i, e, b - 1, b);
      PlusIsLexeme(sql, b - 1);
      HasSlice(sql, out.PushAll(Singles(sql, end, b - 1)), b - 1, b, b - 1);
      assert out.tokens + (Singles(sql, end, b - 1) + [Slice(sql, b - 1, b)]) == out.tokens + Singles(sql, end, b - 1) + [Slice(sql, b - 1, b)];
    }
  }

  lemma PlusIsLexeme(sql: string, a: nat)
    requires a < |sql| && sql[a] == '+' && IsOperator(sql, a, a + 1)
    ensures IsLexeme(sql, a, a + 1)
  {
    StartsWithTwo(sql, a, '-', '-');
    StartsWithTwo(sql, a, '/', '*');
    assert SpecialOperatorLength(sql, a) == 0 by {
      LongOperatorIs(sql, a);
    }
    hide IsOperator;
    OperatorIsLexeme(sql, a, a + 1);
  }

  lemma OperatorTokensAreTokens(sql: string, i: nat, e: nat, out: Output)
    requires StartsWordLike(sql, i) && SpecialOperatorLength(sql, i) == 0 && IsOperatorSign(sql[i])
    requires i < e < |sql| && IsRun(sql, i, e, IsOperatorSign) && HasTokensOf(sql, out)
    ensures HasTokensOf(sql, out.PushAll(OperatorTokens(sql, i, e)))
  {
    hide HasTokensOf, OperatorTokenEnd, IsRun, StartsWordLike;
    var end := OperatorTokenEnd(sql, i, e);
    var first := if i < end then [Slice(sql, i, end)] else [];
    if i < end {
      OperatorPart(sql, i, e, i, end);
      OperatorIsLexeme(sql, i, end);
      HasSlice(sql, out, i, end, i);
    } else {
      assert out.tokens + [] == out.tokens;
    }
    SinglesAreTokens(sql, i, e, e, out.PushAll(first));
    assert out.tokens + (first + Singles(sql, end, e)) == out.tokens + first + Singles(sql, end, e);
  }

  // ---------------------------------------------------------------- the whole input

  /** A `--` comment from `a` on that no newline ends. */
  predicate IsOpenLine(sql: string, a: nat) {
    Stands(sql, a, "--") && forall k | a + 2 <= k < |sql| :: sql[k] !in "\n\r"
  }

  /** A block comment from `a` on that nothing ends. */
  predicate IsOpenBlock(sql: string, a: nat) {
    Stands(sql, a, "/*") && forall k | a + 2 <= k < |sql| :: !Stands(sql, k, "*/")
  }

  /** A dollar-quoted string from `a` on, whose tag ends at `d`, that is not closed by the same tag. */
  predicate IsOpenDollar(sql: string, a: nat, d: nat) {
    && a < d < |sql| && sql[a] == '$' && sql[d] == '$' && (forall k | a < k < d :: IsTagCharacter(sql[k]))
    && var tag := sql[a + 1..d]; forall k | d < k < |sql| :: !TagStands(sql, tag, k)
  }

  predicate TagStands(sql: string, tag: string, k: nat) {
    Stands(sql, k, "$" + tag + "$")
  }

  /** The input ends in a comment, or in a dollar-quoted string, that is open. */
  ghost predicate IsOpenIn(sql: string, s: TokenizeState) {
    match s
    case SINGLE_LINE_COMMENT => exists a: nat :: IsOpenLine(sql, a)
    case MULTI_LINE_COMMENT => exists a: nat :: IsOpenBlock(sql, a)
    case DOLLAR_QUOTED_STRING => exists a: nat, d: nat :: IsOpenDollar(sql, a, d)
    case _ => true
  }

  lemma LineIsOpen(sql: string, i: nat)
    requires StartsWith(sql, i, "--") && LineEnd(sql, i + 2) == None
    ensures IsOpenIn(sql, SINGLE_LINE_COMMENT)
  {
    StandsStarts(sql, i, "--");
    LineEndIs(sql, i + 2);
    assert IsOpenLine(sql, i);
  }

  lemma BlockIsOpen(sql: string, i: nat)
    requires StartsWith(sql, i, "/*") && CommentEnd(sql, i + 2) == None
    ensures IsOpenIn(sql, MULTI_LINE_COMMENT)
  {
    StandsStarts(sql, i, "/*");
    CommentEndIs(sql, i + 2);
    hide Stands;
    assert IsOpenBlock(sql, i);
  }

  lemma TagsHoldNoDollar(sql: string, i: nat, d: nat, tag: string)
    requires i < d < |sql| && TagEnd(sql, i + 1) == Some(d) && tag == sql[i + 1..d]
    ensures sql[d] == '$' && forall k | i < k < d :: IsTagCharacter(sql[k])
    ensures forall j | 0 <= j < |tag| :: tag[j] != '$'
  {
    hide TagEnd;
    TagEndIs(sql, i + 1);
    forall j | 0 <= j < |tag|
      ensures tag[j] != '$'
    {
      assert tag[j] == sql[i + 1 + j];
    }
  }

  lemma TagIsNotClosed(sql: string, tag: string, d: nat)
    requires DollarEnd(sql, tag, d + 1) == None && forall j | 0 <= j < |tag| :: tag[j] != '$'
    ensures forall k | d < k < |sql| :: !TagStands(sql, tag, k)
  {
    hide DollarEnd, ClosesDollar, TagStands;
    forall k | d < k < |sql|
      ensures !TagStands(sql, tag, k)
    {
      if TagStands(sql, tag, k) {
        TagCloses(sql, tag, k);
        NothingCloses(sql, tag, d + 1, k);
      }
    }
  }

  lemma DollarIsOpen(sql: string, i: nat, d: nat)
    requires i < d < |sql| && sql[i] == '$' && TagEnd(sql, i + 1) == Some(d) && DollarEnd(sql, sql[i + 1..d], d + 1) == None
    ensures IsOpenIn(sql, DOLLAR_QUOTED_STRING)
  {
    hide DollarEnd, TagStands, TagEnd, IsTagCharacter;
    var tag := sql[i + 1..d];
    TagsHoldNoDollar(sql, i, d, tag);
    TagIsNotClosed(sql, tag, d);
    assert IsOpenDollar(sql, i, d);
  }

  lemma TagCloses(sql: string, marker: string, k: nat)
    requires TagStands(sql, marker, k) && forall j | 0 <= j < |marker| :: marker[j] != '$'
    ensures ClosesDollar(sql, marker, k)
  {
    var all := "$" + marker + "$";
    var e := k + 1 + |marker|;
    assert sql[k + 0] == all[0] && sql[k + (|marker| + 1)] == all[|marker| + 1];
    forall j | 0 <= j < |marker|
      ensures sql[k + 1 + j] == marker[j]
    {
      assert sql[k + (j + 1)] == all[j + 1];
    }
    assert sql[k + 1..e] == marker;
    assert NextDollar(sql, k + 1) == e;
  }

  lemma {:induction false} NothingCloses(sql: string, marker: string, i: nat, k: nat)
    requires i <= k < |sql| && DollarEnd(sql, marker, i) == None
    ensures !ClosesDollar(sql, marker, k)
    decreases k - i
  {
    if i < k {
      NothingCloses(sql, marker, i + 1, k);
    }
  }

  /**
   The tokens so far are tokens of the text, and so is the unfinished lexeme, unless it is a literal; a
   comment, or a dollar-quoted string, in which the input ends is open.
   */
  ghost predicate Fits(sql: string, r: Lexed) {
    && HasTokensOf(sql, r.out) && IsOpenIn(sql, r.state)
    && (Completes(r.state) && LastWordStart(r) < |sql| ==>
          if r.state == STRING_LITERAL then IsOpenLiteral(sql, LastWordStart(r), |sql|) else IsLexeme(sql, LastWordStart(r), |sql|))
  }

  lemma {:induction false} LexHasTokens(sql: string, i: nat, last: nat, out: Output)
    requires Follows(sql, i, last) && HasTokensOf(sql, out)
    ensures Fits(sql, Lex(sql, i, last, out))
    decreases |sql| - i, 3
  {
    hide HasTokensOf, Finish, BackToDigit, OperatorTokens, SpecialOperatorLength, StartsWith, IsInitialNumber, IsPunctuation,
      IsSpace, IsSingleByteOperator, LexDollar, IsLexeme, IsOpenLiteral, AfterQuote, IsSpecialStringCharacter;
    if i == |sql| {
      assert Fits(sql, Lex(sql, i, last, out));
      return;
    }
    var c := sql[i];
    if c == '\'' || c == '"' {
      QuotedIsLexeme(sql, i);
      QuoteHasTokens(sql, c, i, QuoteEnd(sql, c, i + 1), out);
    } else if c == ';' {
      EndHasTokens(sql, out, i);
      LexHasTokens(sql, i + 1, i + 1, out.End(i));
    } else if c == '$' {
      DollarHasTokens(sql, i, out);
    } else if StartsWith(sql, i, "--") {
      if LineEnd(sql, i + 2).Some? {
        LexHasTokens(sql, LineEnd(sql, i + 2).value + 1, LineEnd(sql, i + 2).value + 1, out);
      } else {
        LineIsOpen(sql, i);
      }
    } else if StartsWith(sql, i, "/*") {
      if CommentEnd(sql, i + 2).Some? {
        LexHasTokens(sql, CommentEnd(sql, i + 2).value + 2, CommentEnd(sql, i + 2).value + 2, out);
      } else {
        BlockIsOpen(sql, i);
      }
    } else if IsSpace(c) {
      LexHasTokens(sql, i + 1, i + 1, out);
    } else {
      WordHasTokens(sql, i, last, out);
    }
  }

  lemma EndHasTokens(sql: string, out: Output, i: nat)
    requires HasTokensOf(sql, out)
    ensures HasTokensOf(sql, out.End(i))
  {
    hide IsTokenOf;
  }

  lemma {:induction false} PushHasTokens(sql: string, a: nat, b: nat, offset: nat, out: Output)
    requires HasTokensOf(sql, out) && a < b <= |sql| && IsLexeme(sql, a, b) && (offset == a || (offset + 1 == a && sql[offset] == '$'))
    ensures Fits(sql, Lex(sql, b, b, out.Push(Token(sql[a..b], offset))))
    decreases |sql| - b, 4
  {
    hide HasTokensOf, Finish, IsLexeme, Lex;
    HasSlice(sql, out, a, b, offset);
    LexHasTokens(sql, b, b, out.Push(Token(sql[a..b], offset)));
  }

  lemma {:induction false} QuoteHasTokens(sql: string, quote: char, i: nat, end: Option<nat>, out: Output)
    requires i < |sql| && (end.Some? ==> i < end.value <= |sql|) && HasTokensOf(sql, out)
    requires match end
             case Some(e) => IsLexeme(sql, i, e)
             case None => if quote == '\'' then i + 1 < |sql| ==> IsOpenLiteral(sql, i + 1, |sql|) else IsLexeme(sql, i, |sql|)
    ensures Fits(sql, AfterQuote(sql, quote, i, end, out))
    decreases |sql| - i, 0
  {
    hide HasTokensOf, Finish, Lex, IsLexeme, IsOpenLiteral;
    match end
    case Some(e) => PushHasTokens(sql, i, e, i, out);
    case None => assert Fits(sql, AfterQuote(sql, quote, i, end, out));
  }

  lemma DollarIsLexeme(sql: string, i: nat)
    requires i < |sql| && sql[i] == '$'
    ensures IsLexeme(sql, i, i + 1) && sql[i..i + 1] == "$"
  {
  }

  lemma {:induction false} DollarHasTokens(sql: string, i: nat, out: Output)
    requires i < |sql| && sql[i] == '$' && HasTokensOf(sql, out)
    ensures Fits(sql, LexDollar(sql, i, i, out))
    decreases |sql| - i, 0
  {
    hide HasTokensOf, Finish, Lex, DollarEnd, TagEnd, IsDigit, DollarToken, IsLexeme, IsOpenLiteral;
    DollarIsLexeme(sql, i);
    if i + 1 == |sql| {
      LexAtEnd(sql, i, out);
      assert Fits(sql, LexDollar(sql, i, i, out));
    } else if IsDigit(sql[i + 1]) || TagEnd(sql, i + 1) == None {
      HasSlice(sql, out, i, i + 1, i);
      BareIsFollowed(sql, i);
      LexHasTokens(sql, i + 1, i, out.Push(Token("$", i)));
    } else {
      TagHasTokens(sql, i, TagEnd(sql, i + 1).value, out);
    }
  }

  lemma {:induction false} TagHasTokens(sql: string, i: nat, d: nat, out: Output)
    requires i < d < |sql| && sql[i] == '$' && TagEnd(sql, i + 1) == Some(d) && HasTokensOf(sql, out)
    ensures Fits(sql, AfterTag(sql, i, sql[i + 1..d], d + 1, out))
    decreases |sql| - d, 4
  {
    hide HasTokensOf, Finish, Lex, DollarEnd, DoubleQuotes, IsTokenOf, IsLexeme, IsOpenLiteral;
    var marker := sql[i + 1..d];
    match DollarEnd(sql, marker, d + 1)
    case None => DollarIsOpen(sql, i, d);
    case Some(p) =>
      var content := sql[i + |marker| + 2..p];
      DollarStands(sql, i, d, p);
      assert IsFromDollars(sql, i, marker, content, DollarToken(content, marker));
      FromDollarsIsToken(sql, i, marker, content, DollarToken(content, marker));
      HasPush(sql, out, DollarToken(content, marker));
      LexHasTokens(sql, p + |marker| + 2, p + |marker| + 2, out.Push(DollarToken(content, marker)));
  }

  lemma FromDollarsIsToken(sql: string, i: nat, marker: string, content: string, t: Token)
    requires IsFromDollars(sql, i, marker, content, t)
    ensures IsTokenOf(sql, t)
  {
  }

  /** A dollar-quoted string, as it stands in the text. */
  lemma DollarStands(sql: string, i: nat, d: nat, p: nat)
    requires i < d < p < |sql| && sql[i] == '$' && sql[d] == '$'
    requires ClosesDollar(sql, sql[i + 1..d], p) && p + (d - i - 1) + 2 <= |sql|
    ensures StartsWith(sql, i, "$" + sql[i + 1..d] + "$" + sql[d + 1..p] + "$" + sql[i + 1..d] + "$")
  {
    var marker, content := sql[i + 1..d], sql[d + 1..p];
    var all := "$" + marker + "$" + content + "$" + marker + "$";
    var e := p + 1 + |marker|;
    assert sql[p + 1..e] == marker && sql[e] == '$';
    assert i + |all| == e + 1;
    forall k | 0 <= k < |all|
      ensures all[k] == sql[i..e + 1][k]
    {
      if p - i < k < e - i {
        assert all[k] == marker[k - (p + 1 - i)] && sql[p + 1..e][k - (p + 1 - i)] == sql[i + k];
      }
    }
  }

  lemma {:induction false} WordHasTokens(sql: string, i: nat, last: nat, out: Output)
    requires Follows(sql, i, last) && StartsWordLike(sql, i) && HasTokensOf(sql, out)
    ensures Fits(sql, Lex(sql, i, last, out))
    decreases |sql| - i, 1
  {
    hide HasTokensOf, Finish, StartsWith, OperatorTokens, IsPunctuation, SpecialOperatorLength, IsSingleByteOperator, IsInitialNumber,
      BackToDigit, IsLexeme, IsOpenLiteral, IsSpace, AfterQuote, LexDollar;
    var c := sql[i];
    var n := SpecialOperatorLength(sql, i);
    if n > 0 {
      LongIsLexeme(sql, i);
      PushHasTokens(sql, i, i + n, last, out);
    } else if IsSingleByteOperator(c) {
      SingleIsLexeme(sql, i);
      assert sql[i..i + 1] == [c];
      PushHasTokens(sql, i, i + 1, last, out);
    } else if IsInitialNumber(c) {
      NumberIsLexeme(sql, i);
      if NumberEnd(sql, i + 1).Some? {
        PushHasTokens(sql, i, BackToDigit(sql, i, NumberEnd(sql, i + 1).value), i, out);
      } else {
        assert Fits(sql, Lex(sql, i, last, out));
      }
    } else if IsPrefixed(sql, i) {
      PrefixedIsLexeme(sql, i);
      QuoteHasTokens(sql, '\'', i, QuoteEnd(sql, '\'', i + 2), out);
    } else {
      SignsHaveTokens(sql, i, last, out);
    }
  }

  /** Operators and words. */
  lemma {:induction false} SignsHaveTokens(sql: string, i: nat, last: nat, out: Output)
    requires Follows(sql, i, last) && StartsWordLike(sql, i) && HasTokensOf(sql, out)
    requires SpecialOperatorLength(sql, i) == 0 && !IsSingleByteOperator(sql[i]) && !IsInitialNumber(sql[i]) && !IsPrefixed(sql, i)
    ensures Fits(sql, Lex(sql, i, last, out))
    decreases |sql| - i, 0
  {
    hide HasTokensOf, Finish, StartsWith, OperatorTokens, SpecialOperatorLength, IsLexeme, IsOpenLiteral, IsSpace, LexDollar,
      IsSingleByteOperator, IsInitialNumber, IsPunctuation;
    if IsPunctuation(sql[i]) {
      OperatorsStart(sql[i]);
      OperatorRun(sql, i);
      match OperatorEnd(sql, i + 1)
      case Some(e) =>
        OperatorTokensAreTokens(sql, i, e, out);
        LexHasTokens(sql, e, e, out.PushAll(OperatorTokens(sql, i, e)));
      case None =>
        OperatorIsLexeme(sql, i, |sql|);
        assert Fits(sql, Lex(sql, i, last, out));
    } else {
      WordIsLexeme(sql, i);
      match KeywordEnd(sql, i + 1)
      case Some(e) => PushHasTokens(sql, i, e, i, out);
      case None => assert Fits(sql, Lex(sql, i, last, out));
    }
  }

  /** A run of operator signs from its first one; at the end of the input it is one operator. */
  lemma OperatorRun(sql: string, i: nat)
    requires i < |sql| && IsOperatorSign(sql[i])
    ensures match OperatorEnd(sql, i + 1) case Some(e) => IsRun(sql, i, e, IsOperatorSign) case None => IsOperator(sql, i, |sql|)
  {
    hide IsOperatorSign, OperatorEnd, IsRun;
    OperatorEndIs(sql, i + 1);
    RunBefore(sql, i, match OperatorEnd(sql, i + 1) case Some(p) => p case None => |sql|, IsOperatorSign);
    if OperatorEnd(sql, i + 1) == None {
      assert IsOperatorOf(sql, i, |sql|, i, |sql|);
    }
  }

  lemma LongIsLexeme(sql: string, i: nat)
    requires StartsWordLike(sql, i) && SpecialOperatorLength(sql, i) > 0
    ensures IsLexeme(sql, i, i + SpecialOperatorLength(sql, i))
  {
    LexemeStart(sql, i);
    hide LongOperator, Stands, SpecialOperatorLength, StartsWith;
  }

  lemma SingleIsLexeme(sql: string, i: nat)
    requires StartsWordLike(sql, i) && SpecialOperatorLength(sql, i) == 0 && IsSingleByteOperator(sql[i])
    ensures IsLexeme(sql, i, i + 1)
  {
    LexemeStart(sql, i);
    hide LongOperator, Stands, SpecialOperatorLength, StartsWith, IsSingleByteOperator;
  }

  /**
   Every token of every input is a lexeme at its place (or at the '$' before it), or comes from a
   dollar-quoted string; but a literal that is left open becomes the last token, without its first character.
   */
  lemma TokensAreLexemes(sql: string)
    ensures var r := Lex(sql, 0, 0, NOTHING);
            if r.state == STRING_LITERAL && LastWordStart(r) < |sql|
            then HasTokensOf(sql, r.out) && Tokenized(sql) == r.out.Push(Slice(sql, LastWordStart(r), |sql|))
                 && IsOpenLiteral(sql, LastWordStart(r), |sql|)
            else HasTokensOf(sql, Tokenized(sql))
    ensures IsOpenIn(sql, Lex(sql, 0, 0, NOTHING).state)
  {
    assert HasTokensOf(sql, NOTHING);
    LexHasTokens(sql, 0, 0, NOTHING);
    var r := Lex(sql, 0, 0, NOTHING);
    hide Lex, HasTokensOf, IsLexeme, IsOpenLiteral, IsOpenIn;
    if Completes(r.state) && r.state != STRING_LITERAL && LastWordStart(r) < |sql| {
      HasSlice(sql, r.out, LastWordStart(r), |sql|, LastWordStart(r));
    }
  }

  // ---------------------------------------------------------------- one way to cut a text

  /** A literal or a quoted identifier. */
  predicate IsQuotedStart(sql: string, a: nat)
    requires a < |sql|
  {
    sql[a] == '\'' || sql[a] == '"' || HasPrefix(sql, a)
  }

  predicate IsPlain(c: char) {
    !IsWhite(c) && c !in "'\";"
  }

  lemma PlainCharacters(c: char)
    ensures IsOperatorSign(c) || IsSingle(c) || c in "$-:*/>=" ==> IsPlain(c)
    ensures IsDigitOrPoint(c) || c in "_eE+-" || IsWordCharacter(c) ==> IsPlain(c)
  {
  }

  /** Only literals and quoted identifiers hold white space, quotes or semicolons. */
  lemma PlainLexemes(sql: string, a: nat, b: nat, k: nat)
    requires a <= k < b <= |sql| && IsLexeme(sql, a, b) && !IsQuotedStart(sql, a)
    ensures IsPlain(sql[k])
  {
    PlainCharacters(sql[k]);
    var c := sql[a];
    if c == '$' {
    } else if LongOperator(sql, a) > 0 {
      LongSigns(sql, a, k);
    } else if !IsSingle(c) {
      OtherSigns(sql, a, b, k);
      hide IsPlain, LongOperator, IsDigitOrPoint, IsWordCharacter;
    }
  }

  lemma OtherSigns(sql: string, a: nat, b: nat, k: nat)
    requires a <= k < b <= |sql| && IsLexeme(sql, a, b) && !IsQuotedStart(sql, a)
    requires sql[a] != '$' && LongOperator(sql, a) == 0 && !IsSingle(sql[a])
    ensures IsDigitOrPoint(sql[k]) || sql[k] in "_eE+-" || IsOperatorSign(sql[k]) || IsWordCharacter(sql[k])
  {
    hide LongOperator, IsDigitOrPoint, IsWordCharacter, Stands;
    if IsDigitOrPoint(sql[a]) {
      var e: nat :| b <= e <= |sql| && IsNumberUpTo(sql, a, b, e);
      assert k == a || GoesOnWithNumber(sql, k);
    } else if IsOperatorSign(sql[a]) {
      var s: nat, e: nat :| s <= a && b <= e <= |sql| && IsOperatorOf(sql, a, b, s, e);
      assert IsOperatorSign(sql[k]);
    }
  }

  lemma LongSigns(sql: string, a: nat, k: nat)
    requires a <= k < a + LongOperator(sql, a)
    ensures k < |sql| && sql[k] in "-:*/>="
  {
    forall s: string | Stands(sql, a, s) && k - a < |s|
      ensures sql[k] == s[k - a]
    {
      assert sql[a + (k - a)] == s[k - a];
    }
    assert k - a == 0 || k - a == 1 || k - a == 2;
  }

  /** A quoted text ends at one place. */
  lemma {:induction false} QuotedOnce(sql: string, i: nat, b: nat, b': nat, quote: char)
    requires b <= |sql| && b' <= |sql| && IsQuoted(sql, i, b, quote) && IsQuoted(sql, i, b', quote)
    ensures b == b'
    decreases |sql| - i
  {
    var step := if sql[i] != quote then 1 else 2;
    if b == i + 1 || b' == i + 1 {
      QuotedAtOnce(sql, i, b, quote);
      QuotedAtOnce(sql, i, b', quote);
    } else {
      assert sql[i..b - 1][0] == sql[i] && sql[i..b - 1][step..] == sql[i + step..b - 1];
      assert sql[i..b' - 1][0] == sql[i] && sql[i..b' - 1][step..] == sql[i + step..b' - 1];
      QuotedOnce(sql, i + step, b, b', quote);
    }
  }

  /** The first character closes the quotes only if it is a quote that is not doubled. */
  lemma QuotedAtOnce(sql: string, i: nat, b: nat, quote: char)
    requires b <= |sql| && IsQuoted(sql, i, b, quote)
    ensures b == i + 1 <==> sql[i] == quote && (i + 1 < |sql| ==> sql[i + 1] != quote)
  {
    if b > i + 1 {
      assert sql[i..b - 1][0] == sql[i];
      if sql[i] == quote {
        assert sql[i..b - 1][1] == sql[i + 1];
      }
    }
  }

  /** A text that is closed is not open. */
  lemma {:induction false} ClosedIsNotOpen(sql: string, i: nat, b: nat, quote: char)
    requires b <= |sql| && IsQuoted(sql, i, b, quote)
    ensures !QuotesAreDoubled(sql[i..], quote)
    decreases |sql| - i
  {
    var step := if sql[i] != quote then 1 else 2;
    assert sql[i..][0] == sql[i];
    if b == i + 1 {
      assert i + 1 < |sql| ==> sql[i..][1] == sql[i + 1];
    } else {
      QuotedAtOnce(sql, i, b, quote);
      assert sql[i..b - 1][0] == sql[i] && sql[i..b - 1][step..] == sql[i + step..b - 1];
      assert sql[i..][step..] == sql[i + step..];
      ClosedIsNotOpen(sql, i + step, b, quote);
    }
  }

  /** Two runs of the same characters from the same place, or one run that goes on to the other's end. */
  lemma RunsEnd(sql: string, s: nat, e: nat, s': nat, e': nat, a: nat, of: char -> bool)
    requires s <= a < e <= |sql| && s' <= a < e' <= |sql| && IsRun(sql, s, e, of) && IsRun(sql, s', e', of)
    ensures e == e'
  {
  }

  lemma NumbersEnd(sql: string, a: nat, b: nat, b': nat)
    requires a < b <= |sql| && a < b' <= |sql| && IsNumber(sql, a, b) && IsNumber(sql, a, b')
    ensures b == b'
  {
    var e: nat :| b <= e <= |sql| && IsNumberUpTo(sql, a, b, e);
    var e': nat :| b' <= e' <= |sql| && IsNumberUpTo(sql, a, b', e');
    hide GoesOnWithNumber, IsDigitOrPoint;
  }

  lemma OperatorsEnd(sql: string, a: nat, b: nat, b': nat)
    requires a < b <= |sql| && a < b' <= |sql| && IsOperator(sql, a, b) && IsOperator(sql, a, b')
    ensures b == b'
  {
    var s: nat, e: nat :| s <= a && b <= e <= |sql| && IsOperatorOf(sql, a, b, s, e);
    var s': nat, e': nat :| s' <= a && b' <= e' <= |sql| && IsOperatorOf(sql, a, b', s', e');
    RunsEnd(sql, s, e, s', e', a, IsOperatorSign);
    hide IsOperatorSign, LetsEndInPlus;
  }

  /** A lexeme ends where its kind says, and nowhere else. */
  lemma LexemeEnds(sql: string, a: nat, b: nat, b': nat)
    requires a < b <= |sql| && a < b' <= |sql| && IsLexeme(sql, a, b) && IsLexeme(sql, a, b')
    ensures b == b'
  {
    hide IsNumber, IsOperator, IsQuoted, QuotesAreDoubled, IsWordCharacter, IsDigitOrPoint, LongOperator, Stands, HasPrefix;
    var c := sql[a];
    if c == '\'' {
      QuotedOnce(sql, a + 1, b, b', '\'');
    } else if c == '"' {
      IdentifiersEnd(sql, a, b, b');
    } else if c != '$' && LongOperator(sql, a) == 0 && !IsSingle(c) {
      if IsDigitOrPoint(c) {
        NumbersEnd(sql, a, b, b');
      } else if HasPrefix(sql, a) {
        QuotedOnce(sql, a + 2, b, b', '\'');
      } else if IsOperatorSign(c) {
        OperatorsEnd(sql, a, b, b');
      } else {
        RunsEnd(sql, a, b, a, b', a, IsWordCharacter);
      }
    }
  }

  lemma IdentifiersEnd(sql: string, a: nat, b: nat, b': nat)
    requires a < b <= |sql| && a < b' <= |sql| && sql[a] == '"' && IsLexeme(sql, a, b) && IsLexeme(sql, a, b')
    ensures b == b'
  {
    if IsQuoted(sql, a + 1, b, '"') {
      ClosedIsNotOpen(sql, a + 1, b, '"');
      QuotedOnce(sql, a + 1, b, b', '"');
    } else if IsQuoted(sql, a + 1, b', '"') {
      ClosedIsNotOpen(sql, a + 1, b', '"');
    }
  }

  /** Blank space does not start where a lexeme does. */
  lemma LexemeIsNotBlank(sql: string, a: nat, b: nat, to: nat)
    requires a < b <= |sql| && IsLexeme(sql, a, b) && Blank(sql, a, to)
    ensures to == a
  {
    LexemeStart(sql, a);
    hide Stands, StartsWith;
  }

  /** The token is a lexeme at its own place. */
  ghost predicate IsInPlace(sql: string, t: Token) {
    t.text != "" && t.offset + |t.text| <= |sql| && IsLexeme(sql, t.offset, t.offset + |t.text|)
  }

  function TokenEnd(t: Token): nat {
    t.offset + |t.text|
  }

  /** From `from` to `to`, the tokens are lexemes at their places with only blanks around them. */
  ghost predicate IsCut(sql: string, from: nat, ts: seq<Token>, to: nat) {
    TokensCover(sql, from, ts, to) && forall t | t in ts :: IsInPlace(sql, t)
  }

  /** The first tokens of a cut are a cut. */
  lemma {:induction false} CutBefore(sql: string, from: nat, ts: seq<Token>, to: nat, k: nat)
    requires IsCut(sql, from, ts, to) && k < |ts|
    ensures IsCut(sql, from, ts[..k], ts[k].offset) && IsInPlace(sql, ts[k])
    ensures from <= ts[k].offset < TokenEnd(ts[k]) <= to && ts[k].text == sql[ts[k].offset..TokenEnd(ts[k])]
    decreases |ts|
  {
    var n := |ts| - 1;
    hide Blank, IsInPlace;
    if k < n {
      CutBefore(sql, from, ts[..n], ts[n].offset, k);
      assert ts[..n][..k] == ts[..k];
    }
  }

  function LastEnd(from: nat, ts: seq<Token>): nat {
    if ts == [] then from else TokenEnd(ts[|ts| - 1])
  }

  /** Where the last token of a cut ends, a blank goes on to the end. */
  lemma CutEnds(sql: string, from: nat, ts: seq<Token>, to: nat)
    requires IsCut(sql, from, ts, to)
    ensures Blank(sql, LastEnd(from, ts), to)
  {
  }

  /** A token that starts in a blank starts at its end. */
  lemma TokenIsNotBlank(sql: string, end: nat, t: Token, to: nat)
    requires IsInPlace(sql, t) && Blank(sql, end, t.offset) && Blank(sql, end, to) && t.offset <= to
    ensures to == t.offset
  {
    BlankSplit(sql, end, t.offset, to);
    LexemeIsNotBlank(sql, t.offset, TokenEnd(t), to);
  }

  /** There is at most one cut from one place to another. */
  lemma CutIsUnique(sql: string, from: nat, ts: seq<Token>, ts': seq<Token>, to: nat)
    requires IsCut(sql, from, ts, to) && IsCut(sql, from, ts', to)
    ensures ts == ts'
  {
    hide IsCut;
    var n := if |ts| < |ts'| then |ts| else |ts'|;
    CutsAgree(sql, from, ts, ts', to, n);
    assert ts[..|ts|] == ts && ts'[..|ts'|] == ts';
    CutIsNotLonger(sql, from, ts, ts', to);
    CutIsNotLonger(sql, from, ts', ts, to);
  }

  /** No token comes after the last token of a cut. */
  lemma CutIsNotLonger(sql: string, from: nat, ts: seq<Token>, ts': seq<Token>, to: nat)
    requires IsCut(sql, from, ts, to) && IsCut(sql, from, ts', to) && (|ts'| <= |ts| ==> ts[..|ts'|] == ts')
    ensures |ts| <= |ts'|
  {
    hide IsCut, IsInPlace, Blank;
    if |ts'| < |ts| {
      var t := ts[|ts'|];
      CutBefore(sql, from, ts, to, |ts'|);
      CutEnds(sql, from, ts', to);
      CutEnds(sql, from, ts', t.offset);
      TokenIsNotBlank(sql, LastEnd(from, ts'), t, to);
    }
  }

  /** Two cuts have the same first `k` tokens. */
  lemma {:induction false} CutsAgree(sql: string, from: nat, ts: seq<Token>, ts': seq<Token>, to: nat, k: nat)
    requires IsCut(sql, from, ts, to) && IsCut(sql, from, ts', to) && k <= |ts| && k <= |ts'|
    ensures ts[..k] == ts'[..k]
    decreases k
  {
    hide IsCut, IsLexeme, Blank;
    if k == 0 {
    } else {
      var n := k - 1;
      CutsAgree(sql, from, ts, ts', to, n);
      CutBefore(sql, from, ts, to, n);
      CutBefore(sql, from, ts', to, n);
      StartsAgree(sql, from, ts[..n], ts[n], ts'[n]);
      LexemeEnds(sql, ts[n].offset, TokenEnd(ts[n]), TokenEnd(ts'[n]));
      assert ts[n] == ts'[n];
      assert ts[..k] == ts[..n] + [ts[n]] && ts'[..k] == ts'[..n] + [ts'[n]];
    }
  }

  /** Behind the same tokens, the next one starts at the same place. */
  lemma StartsAgree(sql: string, from: nat, before: seq<Token>, t: Token, t': Token)
    requires IsCut(sql, from, before, t.offset) && IsCut(sql, from, before, t'.offset)
    requires IsInPlace(sql, t) && IsInPlace(sql, t')
    ensures t.offset == t'.offset
  {
    hide IsCut, IsInPlace, Blank;
    CutEnds(sql, from, before, t.offset);
    CutEnds(sql, from, before, t'.offset);
    if t.offset <= t'.offset {
      TokenIsNotBlank(sql, LastEnd(from, before), t, t'.offset);
    } else {
      TokenIsNotBlank(sql, LastEnd(from, before), t', t.offset);
    }
  }

  // ---------------------------------------------------------------- the tokenizer cuts the text

  /** All statements, and what follows the last one, are cut into lexemes. */
  ghost predicate CutsAll(sql: string, out: Output) {
    && |out.statements| == |out.ends| && IsCut(sql, NextStart(out.ends), out.tokens, |sql|)
    && forall k | 0 <= k < |out.ends| :: IsCut(sql, NextStart(out.ends[..k]), out.statements[k], out.ends[k])
  }

  lemma DollarsHaveDollar(sql: string, i: nat, marker: string, content: string, t: Token)
    requires IsFromDollars(sql, i, marker, content, t)
    ensures i < |sql| && sql[i] == '$'
  {
    var all := "$" + marker + "$" + content + "$" + marker + "$";
    assert sql[i..i + |all|][0] == all[0] == '$';
  }

  lemma OwnPlaces(sql: string, from: nat, ts: seq<Token>, to: nat)
    requires TokensCover(sql, from, ts, to) && AreTokensOf(sql, ts) && forall k | 0 <= k < |sql| :: sql[k] != '$'
    ensures IsCut(sql, from, ts, to)
  {
    hide TokensCover, IsLexeme;
    forall t | t in ts
      ensures IsInPlace(sql, t)
    {
      assert IsTokenOf(sql, t);
      forall i: nat, marker, content
        ensures !IsFromDollars(sql, i, marker, content, t)
      {
        if IsFromDollars(sql, i, marker, content, t) {
          DollarsHaveDollar(sql, i, marker, content, t);
        }
      }
    }
  }

  /** Without '$', and when no literal or block comment is left open, the tokens are the one way to cut the text. */
  lemma TokensAreTheCut(sql: string)
    requires (forall k | 0 <= k < |sql| :: sql[k] != '$') && !EndsOpen(sql)
    ensures CutsAll(sql, Tokenized(sql))
  {
    TokensAreLexemes(sql);
    OnlyTheEndIsLost(sql);
    NothingIsLost(sql);
    hide Lex, KeepsAll, TokensCover, AreTokensOf, IsCut;
    var out := Tokenized(sql);
    OwnPlaces(sql, NextStart(out.ends), out.tokens, |sql|);
    forall k | 0 <= k < |out.ends|
      ensures |out.statements| == |out.ends| && IsCut(sql, NextStart(out.ends[..k]), out.statements[k], out.ends[k])
    {
      StatementsAreOrdered(sql, out.statements, out.ends, k);
      OwnPlaces(sql, NextStart(out.ends[..k]), out.statements[k], out.ends[k]);
    }
  }
}
