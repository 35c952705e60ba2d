/**
 A direct reading of SQL text as lexemes (extension/autocomplete/tokenizer.cpp).

 The tokenizer is a machine with a state for each kind of lexeme and an index that also moves
 backwards. Here every lexeme is found at once, by scanning for its end; `Tokenizer` shows that
 the machine finds the same ones.
 */
module Lexer {
  import opened Wrappers
  import opened MatcherGraph

  // ---------------------------------------------------------------- characters

  predicate IsSpace(c: char) {
    c == ' ' || c == '\t' || c == '\n' || c == '\U{0B}' || c == '\U{0C}' || c == '\r'
  }

  predicate IsNewline(c: char) {
    c == '\n' || c == '\r'
  }

  predicate IsDigit(c: char) {
    '0' <= c <= '9'
  }

  predicate IsSingleByteOperator(c: char) {
    c in ['(', ')', '{', '}', '[', ']', ',', '?', '$', '-', '#']
  }

  predicate IsInitialNumber(c: char) {
    IsDigit(c) || c == '.'
  }

  predicate IsScientific(c: char) {
    c == 'e' || c == 'E'
  }

  predicate IsSpecialStringCharacter(c: char) {
    c in ['N', 'n', 'X', 'x', 'E', 'e', 'B', 'b']
  }

  predicate IsControlFlow(c: char) {
    c in ['\'', '-', ';', '"', '.']
  }

  /** `StringUtil::CharacterIsOperator`: ASCII punctuation, except the underscore. */
  predicate IsPunctuation(c: char) {
    c != '_' && ('!' <= c <= '/' || ':' <= c <= '@' || '[' <= c <= '`' || '{' <= c <= '~')
  }

  predicate IsKeywordCharacter(c: char) {
    !IsSingleByteOperator(c) && !IsPunctuation(c) && !IsSpace(c) && !IsControlFlow(c)
  }

  predicate IsOperatorCharacter(c: char) {
    !IsSingleByteOperator(c) && !IsControlFlow(c) && IsPunctuation(c)
  }

  /** Letters, digits, the underscore, and all bytes from 0x80 on. */
  predicate IsDollarTagCharacter(c: char) {
    'A' <= c <= 'Z' || 'a' <= c <= 'z' || IsDigit(c) || c == '_' || '\U{80}' <= c
  }

  /** An operator with one of these may end in '+'. */
  predicate KeepsTrailingPlus(c: char) {
    c in ['~', '!', '@', '#', '%', '^', '&', '|', '`', '?']
  }

  // ---------------------------------------------------------------- scanning

  predicate StartsWith(sql: string, i: nat, s: string) {
    i + |s| <= |sql| && sql[i..i + |s|] == s
  }

  lemma StartsWithTwo(sql: string, i: nat, a: char, b: char)
    ensures StartsWith(sql, i, [a, b]) <==> i + 1 < |sql| && sql[i] == a && sql[i + 1] == b
  {
    if i + 1 < |sql| {
      assert sql[i..i + 2] == [sql[i], sql[i + 1]];
    }
  }

  /** The length of the special operator at `i`, or 0. */
  function SpecialOperatorLength(sql: string, i: nat): (n: nat)
    ensures i + n <= |sql| || n == 0
  {
    if StartsWith(sql, i, "->>") then 3
    else if StartsWith(sql, i, "::") || StartsWith(sql, i, ":=") || StartsWith(sql, i, "->")
            || StartsWith(sql, i, "**") || StartsWith(sql, i, "//") then 2
    else 0
  }

  /** The position after the closing quote, where a doubled quote does not close. */
  function QuoteEnd(sql: string, quote: char, i: nat): (r: Option<nat>)
    ensures r.Some? ==> i < r.value <= |sql| && sql[r.value - 1] == quote
    decreases |sql| - i
  {
    if i >= |sql| then None
    else if sql[i] != quote then QuoteEnd(sql, quote, i + 1)
    else if i + 1 < |sql| && sql[i + 1] == quote then QuoteEnd(sql, quote, i + 2)
    else Some(i + 1)
  }

  /** The newline that ends a `--` comment. */
  function LineEnd(sql: string, i: nat): (r: Option<nat>)
    ensures r.Some? ==> i <= r.value < |sql|
    decreases |sql| - i
  {
    if i >= |sql| then None else if IsNewline(sql[i]) then Some(i) else LineEnd(sql, i + 1)
  }

  /** The end of the text of a block comment, where its closing two characters start. */
  function CommentEnd(sql: string, i: nat): (r: Option<nat>)
    ensures r.Some? ==> i <= r.value && r.value + 2 <= |sql|
    decreases |sql| - i
  {
    if i >= |sql| then None else if StartsWith(sql, i, "*/") then Some(i) else CommentEnd(sql, i + 1)
  }

  /** The first character that is not part of a keyword. */
  function KeywordEnd(sql: string, i: nat): (r: Option<nat>)
    ensures r.Some? ==> i <= r.value < |sql|
    decreases |sql| - i
  {
    if i >= |sql| then None else if IsKeywordCharacter(sql[i]) then KeywordEnd(sql, i + 1) else Some(i)
  }

  function OperatorEnd(sql: string, i: nat): (r: Option<nat>)
    ensures r.Some? ==> i <= r.value < |sql|
    decreases |sql| - i
  {
    if i >= |sql| then None else if IsOperatorCharacter(sql[i]) then OperatorEnd(sql, i + 1) else Some(i)
  }

  /** Whether the character at `i` continues a number. */
  predicate ContinuesNumber(sql: string, i: nat)
    requires 0 < i < |sql|
  {
    || IsInitialNumber(sql[i])
    || (sql[i] == '_' && i + 1 < |sql| && IsInitialNumber(sql[i + 1]))
    || (IsScientific(sql[i]) && !IsScientific(sql[i - 1]))
    || ((sql[i] == '+' || sql[i] == '-') && IsScientific(sql[i - 1]))
  }

  function NumberEnd(sql: string, i: nat): (r: Option<nat>)
    requires 0 < i
    ensures r.Some? ==> i <= r.value < |sql|
    decreases |sql| - i
  {
    if i >= |sql| then None else if ContinuesNumber(sql, i) then NumberEnd(sql, i + 1) else Some(i)
  }

  /** Gives back what follows the last digit or point of a number that starts at `start`. */
  function BackToDigit(sql: string, start: nat, i: nat): (r: nat)
    requires start < i <= |sql| && IsInitialNumber(sql[start])
    ensures start < r <= i
    decreases i
  {
    if IsInitialNumber(sql[i - 1]) then i else BackToDigit(sql, start, i - 1)
  }

  /** The '$' that ends the tag of a dollar-quoted string. */
  function TagEnd(sql: string, i: nat): (r: Option<nat>)
    ensures r.Some? ==> i <= r.value < |sql| && sql[r.value] == '$'
    decreases |sql| - i
  {
    if i >= |sql| then None
    else if sql[i] == '$' then Some(i)
    else if IsDollarTagCharacter(sql[i]) then TagEnd(sql, i + 1)
    else None
  }

  function NextDollar(sql: string, i: nat): (r: nat)
    requires i <= |sql|
    ensures i <= r <= |sql| && (r < |sql| ==> sql[r] == '$') && forall k | i <= k < r :: sql[k] != '$'
    decreases |sql| - i
  {
    if i == |sql| || sql[i] == '$' then i else NextDollar(sql, i + 1)
  }

  /** Whether the closing marker of a dollar-quoted string stands at `i`. */
  predicate ClosesDollar(sql: string, marker: string, i: nat)
    requires i < |sql|
  {
    && sql[i] == '$' && i + 1 < |sql|
    && var end := NextDollar(sql, i + 1);
    end < |sql| && end - (i + 1) == |marker| && sql[i + 1..end] == marker
  }

  /** The '$' where the closing marker of a dollar-quoted string starts. */
  function DollarEnd(sql: string, marker: string, i: nat): (r: Option<nat>)
    ensures r.Some? ==> i <= r.value < |sql| && ClosesDollar(sql, marker, r.value) && r.value + |marker| + 2 <= |sql|
    decreases |sql| - i
  {
    if i >= |sql| then None else if ClosesDollar(sql, marker, i) then Some(i) else DollarEnd(sql, marker, i + 1)
  }

  // ---------------------------------------------------------------- lexemes

  /** What has been produced: finished statements, where they ended, and the open statement's tokens. */
  datatype Output = Output(statements: seq<seq<Token>>, ends: seq<nat>, tokens: seq<Token>) {
    function Push(t: Token): Output {
      this.(tokens := tokens + [t])
    }

    function PushAll(ts: seq<Token>): Output {
      this.(tokens := tokens + ts)
    }

    function End(pos: nat): Output {
      Output(statements + [tokens], ends + [pos], [])
    }
  }

  datatype TokenizeState =
    | STANDARD | SINGLE_LINE_COMMENT | MULTI_LINE_COMMENT | QUOTED_IDENTIFIER | STRING_LITERAL
    | KEYWORD | NUMERIC | OPERATOR | DOLLAR_QUOTED_STRING

  /** The end of the input: the output, the state, and where the unfinished lexeme starts. */
  datatype Lexed = Lexed(out: Output, state: TokenizeState, lastPos: nat)

  function Slice(sql: string, a: nat, b: nat): Token
    requires a <= b <= |sql|
  {
    Token(sql[a..b], a)
  }

  /** Where an operator from `a` up to `b` ends, once trailing '+' have been trimmed. */
  function TrimmedEnd(sql: string, a: nat, b: nat): (r: nat)
    requires a <= b <= |sql|
    ensures a <= r <= b && forall k | r <= k < b :: sql[k] == '+'
    decreases b
  {
    if a < b && sql[b - 1] == '+' then TrimmedEnd(sql, a, b - 1) else b
  }

  function OperatorTokenEnd(sql: string, a: nat, b: nat): (r: nat)
    requires a <= b <= |sql|
    ensures a <= r <= b && forall k | r <= k < b :: sql[k] == '+'
  {
    if exists k :: a <= k < b && KeepsTrailingPlus(sql[k]) then b else TrimmedEnd(sql, a, b)
  }

  /** One token for each character from `a` up to `b`. */
  function Singles(sql: string, a: nat, b: nat): (ts: seq<Token>)
    requires a <= b <= |sql|
    ensures |ts| == b - a
    decreases b
  {
    if a == b then [] else Singles(sql, a, b - 1) + [Slice(sql, b - 1, b)]
  }

  /** An operator without its trailing '+', and the trimmed '+' one by one. */
  function OperatorTokens(sql: string, a: nat, b: nat): seq<Token>
    requires a <= b <= |sql|
  {
    var end := OperatorTokenEnd(sql, a, b);
    (if a < end then [Slice(sql, a, end)] else []) + Singles(sql, end, b)
  }

  /** `StringUtil::Replace` of one quote by two, and of two by one. */
  function DoubleQuotes(s: string): string {
    if s == [] then [] else (if s[0] == '\'' then "''" else [s[0]]) + DoubleQuotes(s[1..])
  }

  function UndoubleQuotes(s: string): string {
    if s == [] then []
    else if |s| >= 2 && s[..2] == "''" then "'" + UndoubleQuotes(s[2..])
    else [s[0]] + UndoubleQuotes(s[1..])
  }

  /** A dollar-quoted string becomes a plain one; its recorded offset is the length of its marker. */
  function DollarToken(content: string, marker: string): Token {
    Token("'" + DoubleQuotes(content) + "'", |marker| + 2)
  }

  /** Reads the input from `i` on; `last` is where a token that starts here is said to start. */
  function Lex(sql: string, i: nat, last: nat, out: Output): (r: Lexed)
    requires last <= i <= |sql|
    ensures r.lastPos <= |sql| && (r.state == STRING_LITERAL ==> r.lastPos < |sql|)
    decreases |sql| - i
  {
    if i == |sql| then Lexed(out, STANDARD, last) else
    var c := sql[i];
    if c == '\'' then AfterQuote(sql, c, i, QuoteEnd(sql, c, i + 1), out)
    else if c == '"' then AfterQuote(sql, c, i, QuoteEnd(sql, c, i + 1), out)
    else if c == ';' then Lex(sql, i + 1, i + 1, out.End(i))
    else if c == '$' then LexDollar(sql, i, last, out)
    else if StartsWith(sql, i, "--") then
      (match LineEnd(sql, i + 2)
       case Some(p) => Lex(sql, p + 1, p + 1, out)
       case None => Lexed(out, SINGLE_LINE_COMMENT, last))
    else if StartsWith(sql, i, "/*") then
      (match CommentEnd(sql, i + 2)
       case Some(p) => Lex(sql, p + 2, p + 2, out)
       case None => Lexed(out, MULTI_LINE_COMMENT, last))
    else if IsSpace(c) then Lex(sql, i + 1, i + 1, out)
    else if SpecialOperatorLength(sql, i) > 0 then
      var end := i + SpecialOperatorLength(sql, i);
      Lex(sql, end, end, out.Push(Token(sql[i..end], last)))
    else if IsSingleByteOperator(c) then Lex(sql, i + 1, i + 1, out.Push(Token([c], last)))
    else if IsInitialNumber(c) then
      (match NumberEnd(sql, i + 1)
       case Some(p) =>
         var end := BackToDigit(sql, i, p);
         Lex(sql, end, end, out.Push(Slice(sql, i, end)))
       case None => Lexed(out, NUMERIC, i))
    else if IsSpecialStringCharacter(c) && i + 1 < |sql| && sql[i + 1] == '\'' then
      AfterQuote(sql, '\'', i, QuoteEnd(sql, '\'', i + 2), out)
    else if IsPunctuation(c) then
      (match OperatorEnd(sql, i + 1)
       case Some(p) => Lex(sql, p, p, out.PushAll(OperatorTokens(sql, i, p)))
       case None => Lexed(out, OPERATOR, i))
    else
      match KeywordEnd(sql, i + 1)
      case Some(p) => Lex(sql, p, p, out.Push(Slice(sql, i, p)))
      case None => Lexed(out, KEYWORD, i)
  }

  /** A quoted lexeme that starts at `i`: closed, or open at the end of the input. */
  function AfterQuote(sql: string, quote: char, i: nat, end: Option<nat>, out: Output): (r: Lexed)
    requires i < |sql| && (end.Some? ==> i < end.value <= |sql|)
    ensures r.lastPos <= |sql| && (r.state == STRING_LITERAL ==> r.lastPos < |sql|)
    decreases |sql| - i, 0
  {
    match end
    case Some(e) => Lex(sql, e, e, out.Push(Slice(sql, i, e)))
    case None => Lexed(out, if quote == '\'' then STRING_LITERAL else QUOTED_IDENTIFIER, i)
  }

  /** A '$' starts a parameter, or a dollar-quoted string. */
  function LexDollar(sql: string, i: nat, last: nat, out: Output): (r: Lexed)
    requires last <= i < |sql| && sql[i] == '$'
    ensures r.lastPos <= |sql| && (r.state == STRING_LITERAL ==> r.lastPos < |sql|)
    decreases |sql| - i, 1
  {
    if i + 1 == |sql| then Lex(sql, i + 1, last, out)
    else if IsDigit(sql[i + 1]) then Lex(sql, i + 1, last, out.Push(Token("$", i)))
    else
      match TagEnd(sql, i + 1)
      case None => Lex(sql, i + 1, i, out.Push(Token("$", i)))
      case Some(d) => AfterTag(sql, i, sql[i + 1..d], d + 1, out)
  }

  /** A dollar-quoted string that starts at `i`, from position `j` in its content. */
  function AfterTag(sql: string, i: nat, marker: string, j: nat, out: Output): (r: Lexed)
    requires i + |marker| + 2 <= j <= |sql|
    ensures r.lastPos <= |sql| && (r.state == STRING_LITERAL ==> r.lastPos < |sql|)
    decreases |sql| - i, 0
  {
    match DollarEnd(sql, marker, j)
    case None => Lexed(out, DOLLAR_QUOTED_STRING, i)
    case Some(p) =>
      var end := p + |marker| + 2;
      Lex(sql, end, end, out.Push(DollarToken(sql[i + |marker| + 2..p], marker)))
  }

  /** The unfinished lexeme becomes the last token; a literal that is not closed loses its first character. */
  function LastWordStart(r: Lexed): nat {
    if r.state == STRING_LITERAL then r.lastPos + 1 else r.lastPos
  }

  /** The input may be completed, that is, it does not end in a comment or a dollar-quoted string. */
  predicate Completes(s: TokenizeState) {
    s != SINGLE_LINE_COMMENT && s != MULTI_LINE_COMMENT && s != DOLLAR_QUOTED_STRING
  }

  /** The output once the end of the input has been dealt with. */
  function Finish(sql: string, r: Lexed): Output
    requires LastWordStart(r) <= |sql|
  {
    if !Completes(r.state) || LastWordStart(r) == |sql| then r.out
    else r.out.Push(Slice(sql, LastWordStart(r), |sql|))
  }

  const NOTHING := Output([], [], [])

  /** The statements, and the tokens of the last one, of a whole input. */
  function Tokenized(sql: string): Output {
    Finish(sql, Lex(sql, 0, 0, NOTHING))
  }
}
