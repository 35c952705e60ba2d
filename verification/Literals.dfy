/**
 String literals round-trip: what is quoted into SQL text is what the parser gets back.

 The tokenizer (extension/autocomplete/tokenizer.cpp) cuts the literal out of the text and
 `StringLiteralMatcher` (extension/autocomplete/matcher.cpp) decodes it.
 */
module Literals {
  import opened Wrappers
  import opened MatcherGraph
  import opened Lexer
  import opened TokenCoverage

  datatype SpecialString = STANDARD | NATIONAL_STRING | HEXADECIMAL_STRING | ESCAPE_STRING | BIT_STRING

  datatype SpecialStringInfo = SpecialStringInfo(kind: SpecialString, prefixLen: nat)

  function SpecialStringOf(c: char): Option<SpecialString> {
    if c == 'N' || c == 'n' then Some(NATIONAL_STRING)
    else if c == 'X' || c == 'x' then Some(HEXADECIMAL_STRING)
    else if c == 'B' || c == 'b' then Some(BIT_STRING)
    else if c == 'E' || c == 'e' then Some(ESCAPE_STRING)
    else None
  }

  /** `GetSpecialStringInfo`: the kind of literal, and the length up to and including its opening quote. */
  function GetSpecialStringInfo(text: string): SpecialStringInfo {
    if text == "" then SpecialStringInfo(SpecialString.STANDARD, 0)
    else if text[0] != '\'' && |text| > 1 && text[1] == '\'' && SpecialStringOf(text[0]).Some? then
      SpecialStringInfo(SpecialStringOf(text[0]).value, 2)
    else SpecialStringInfo(SpecialString.STANDARD, 1)
  }

  datatype LiteralValue = LiteralValue(value: string, kind: SpecialString)

  /** What `StringLiteralMatcher` makes of a token; `None` when it does not match. */
  function DecodeLiteral(text: string): Option<LiteralValue> {
    var info := GetSpecialStringInfo(text);
    if |text| >= info.prefixLen + 1 && info.prefixLen > 0
       && text[info.prefixLen - 1] == '\'' && text[|text| - 1] == '\''
    then Some(LiteralValue(UndoubleQuotes(text[info.prefixLen..|text| - 1]), info.kind))
    else None
  }

  /** The prefixes a literal can have, and the kinds they stand for. */
  predicate IsPrefix(prefix: string) {
    prefix == "" || (|prefix| == 1 && IsSpecialStringCharacter(prefix[0]))
  }

  function KindOf(prefix: string): SpecialString
    requires IsPrefix(prefix)
  {
    if prefix == "" then SpecialString.STANDARD else SpecialStringOf(prefix[0]).value
  }

  function Quoted(w: string): string {
    "'" + DoubleQuotes(w) + "'"
  }

  // ---------------------------------------------------------------- doubling quotes

  lemma {:induction false} UndoubleDouble(w: string)
    ensures UndoubleQuotes(DoubleQuotes(w)) == w
  {
    if w == "" {
    } else {
      UndoubleDouble(w[1..]);
      var d := DoubleQuotes(w);
      if w[0] == '\'' {
        assert d[2..] == DoubleQuotes(w[1..]) && d[..2] == "''";
      } else {
        assert d[0] == w[0] && d[1..] == DoubleQuotes(w[1..]);
      }
    }
  }

  lemma StartsWithConcat(sql: string, i: nat, s: string, t: string)
    ensures StartsWith(sql, i, s + t) <==> StartsWith(sql, i, s) && StartsWith(sql, i + |s|, t)
  {
    var n, m := |s|, |t|;
    if i + n + m <= |sql| {
      assert sql[i..i + n + m] == sql[i..i + n] + sql[i + n..i + n + m];
      if sql[i..i + n + m] == s + t {
        assert sql[i..i + n] == (s + t)[..n] && sql[i + n..i + n + m] == (s + t)[n..];
      }
    }
  }

  lemma StartsWithChar(sql: string, i: nat, c: char)
    ensures StartsWith(sql, i, [c]) <==> i < |sql| && sql[i] == c
  {
    if i < |sql| {
      assert sql[i..i + 1] == [sql[i]];
    }
  }

  /** The closing quote is found behind the doubled quotes. */
  lemma {:induction false} QuoteEndOfDoubled(sql: string, i: nat, w: string)
    requires StartsWith(sql, i, DoubleQuotes(w)) && StartsWith(sql, i + |DoubleQuotes(w)|, "'")
    requires var e := i + |DoubleQuotes(w)| + 1; e < |sql| ==> sql[e] != '\''
    ensures QuoteEnd(sql, '\'', i) == Some(i + |DoubleQuotes(w)| + 1)
    decreases |w|
  {
    hide StartsWith;
    StartsWithChar(sql, i + |DoubleQuotes(w)|, '\'');
    if w == "" {
    } else {
      var first := if w[0] == '\'' then "''" else [w[0]];
      StartsWithConcat(sql, i, first, DoubleQuotes(w[1..]));
      StartsWithChar(sql, i, w[0]);
      StartsWithTwo(sql, i, '\'', '\'');
      QuoteEndOfDoubled(sql, i + |first|, w[1..]);
    }
  }

  /** Conversely, what the tokenizer closes is the doubling of what the matcher will decode. */
  lemma {:induction false} ClosedIsDoubled(sql: string, i: nat, e: nat)
    requires QuoteEnd(sql, '\'', i) == Some(e)
    ensures DoubleQuotes(UndoubleQuotes(sql[i..e - 1])) == sql[i..e - 1]
    ensures e < |sql| ==> sql[e] != '\''
    decreases |sql| - i
  {
    var s := sql[i..e - 1];
    if sql[i] != '\'' {
      ClosedIsDoubled(sql, i + 1, e);
      assert s[1..] == sql[i + 1..e - 1] && s == [sql[i]] + s[1..];
      assert UndoubleQuotes(s) == [s[0]] + UndoubleQuotes(s[1..]);
    } else if i + 1 < |sql| && sql[i + 1] == '\'' {
      ClosedIsDoubled(sql, i + 2, e);
      assert s[2..] == sql[i + 2..e - 1] && s[..2] == "''" && s == "''" + s[2..];
      assert UndoubleQuotes(s) == "'" + UndoubleQuotes(s[2..]);
    }
  }

  lemma ClosingQuote(sql: string, i: nat, e: nat)
    requires QuoteEnd(sql, '\'', i) == Some(e)
    ensures i < e <= |sql| && sql[e - 1] == '\''
  {
  }

  lemma DecodeQuoted(prefix: string, w: string)
    requires IsPrefix(prefix)
    ensures DecodeLiteral(prefix + Quoted(w)) == Some(LiteralValue(w, KindOf(prefix)))
  {
    UndoubleDouble(w);
    var text := prefix + Quoted(w);
    assert text[|prefix| + 1..|text| - 1] == DoubleQuotes(w);
  }

  // ---------------------------------------------------------------- plain and prefixed literals

  /**
   A value written as a literal anywhere in the text becomes one token at its place, and is decoded
   to the value; all that is needed is that no other quote follows.
   */
  lemma LiteralRoundTrip(sql: string, i: nat, prefix: string, w: string, out: Output)
    requires IsPrefix(prefix) && StartsWith(sql, i, prefix + Quoted(w))
    requires var end := i + |prefix + Quoted(w)|; end < |sql| ==> sql[end] != '\''
    ensures var text := prefix + Quoted(w);
            && Lex(sql, i, i, out) == Lex(sql, i + |text|, i + |text|, out.Push(Token(text, i)))
            && DecodeLiteral(text) == Some(LiteralValue(w, KindOf(prefix)))
  {
    hide DecodeLiteral, Lex, StartsWith, DoubleQuotes;
    LiteralParts(sql, i, prefix, w);
    QuoteEndOfDoubled(sql, i + |prefix| + 1, w);
    LiteralIsLexed(sql, i, |prefix|, out);
    DecodeQuoted(prefix, w);
    StandsThere(sql, i, prefix + Quoted(w));
  }

  lemma StandsThere(sql: string, i: nat, s: string)
    ensures StartsWith(sql, i, s) <==> i + |s| <= |sql| && sql[i..i + |s|] == s
  {
  }

  lemma LiteralParts(sql: string, i: nat, prefix: string, w: string)
    requires StartsWith(sql, i, prefix + Quoted(w))
    ensures var q := i + |prefix|;
            && q < |sql| && sql[q] == '\'' && StartsWith(sql, i, prefix)
            && StartsWith(sql, q + 1, DoubleQuotes(w)) && StartsWith(sql, q + 1 + |DoubleQuotes(w)|, "'")
    ensures |prefix| == 1 ==> sql[i] == prefix[0]
  {
    hide StartsWith, DoubleQuotes;
    var n := |prefix|;
    StartsWithConcat(sql, i, prefix, Quoted(w));
    StartsWithConcat(sql, i + n, "'" + DoubleQuotes(w), "'");
    StartsWithConcat(sql, i + n, "'", DoubleQuotes(w));
    StartsWithChar(sql, i + n, '\'');
    if n == 1 {
      assert prefix == [prefix[0]];
      StartsWithChar(sql, i, prefix[0]);
    }
  }

  lemma LiteralIsLexed(sql: string, i: nat, n: nat, out: Output)
    requires n <= 1 && i + n < |sql| && sql[i + n] == '\'' && (n == 1 ==> IsSpecialStringCharacter(sql[i]))
    ensures Lex(sql, i, i, out) == AfterQuote(sql, '\'', i, QuoteEnd(sql, '\'', i + n + 1), out)
  {
    hide SpecialOperatorLength, StartsWith, QuoteEnd, AfterQuote, LexDollar, OperatorTokens, BackToDigit, NumberEnd,
      OperatorEnd, KeywordEnd, LineEnd, CommentEnd, IsSingleByteOperator, IsInitialNumber, IsSpace;
    if n == 1 {
      PrefixedIsQuoted(sql, i, i, out);
    }
  }

  /** A text that is just a literal is one token. */
  lemma LiteralAlone(prefix: string, w: string)
    requires IsPrefix(prefix)
    ensures Tokenized(prefix + Quoted(w)) == NOTHING.Push(Token(prefix + Quoted(w), 0))
    ensures DecodeLiteral(prefix + Quoted(w)) == Some(LiteralValue(w, KindOf(prefix)))
  {
    hide DecodeLiteral;
    var text := prefix + Quoted(w);
    StandsThere(text, 0, text);
    LiteralRoundTrip(text, 0, prefix, w, NOTHING);
    LexAtEnd(text, |text|, NOTHING.Push(Token(text, 0)));
  }

  /** Every literal that is closed decodes, to the one value whose quoting stands in the text. */
  lemma ClosedLiteralDecodes(sql: string, i: nat, n: nat, e: nat)
    requires n <= 1 && i + n < |sql| && sql[i + n] == '\'' && (n == 1 ==> IsSpecialStringCharacter(sql[i]))
    requires QuoteEnd(sql, '\'', i + n + 1) == Some(e)
    ensures var r := DecodeLiteral(sql[i..e]);
            r.Some? && IsPrefix(sql[i..i + n]) && r.value.kind == KindOf(sql[i..i + n])
            && sql[i..e] == sql[i..i + n] + Quoted(r.value.value)
  {
    hide DecodeLiteral, UndoubleQuotes, DoubleQuotes;
    var w := UndoubleQuotes(sql[i + n + 1..e - 1]);
    ClosedIsDoubled(sql, i + n + 1, e);
    ClosingQuote(sql, i + n + 1, e);
    assert sql[i..e] == sql[i..i + n] + ("'" + sql[i + n + 1..e - 1] + "'");
    DecodeQuoted(sql[i..i + n], w);
  }

  // ---------------------------------------------------------------- dollar-quoted literals

  /** A tag as the tokenizer accepts it: tag characters, of which the first is no digit. */
  ghost predicate IsTag(tag: string) {
    && (tag != "" ==> !IsDigit(tag[0]))
    && forall k | 0 <= k < |tag| :: IsDollarTagCharacter(tag[k])
  }

  function Marker(tag: string): string {
    "$" + tag + "$"
  }

  lemma {:induction false} TagIsFound(sql: string, i: nat, d: nat)
    requires i <= d < |sql| && sql[d] == '$' && forall k | i <= k < d :: IsDollarTagCharacter(sql[k])
    ensures TagEnd(sql, i) == Some(d)
    decreases d - i
  {
    if i == d {
    } else {
      TagIsFound(sql, i + 1, d);
    }
  }

  lemma MarkerParts(sql: string, tag: string, i: nat)
    ensures StartsWith(sql, i, Marker(tag)) <==>
            i + |tag| + 1 < |sql| && sql[i] == '$' && sql[i + 1..i + 1 + |tag|] == tag && sql[i + 1 + |tag|] == '$'
  {
    StartsWithConcat(sql, i, "$" + tag, "$");
    StartsWithConcat(sql, i, "$", tag);
    StartsWithChar(sql, i, '$');
    StartsWithChar(sql, i + 1 + |tag|, '$');
  }

  /** After a '$' and a tag that another '$' ends, that is the next '$'. */
  lemma NextAfterTag(sql: string, tag: string, i: nat)
    requires IsTag(tag) && i + |tag| < |sql| && sql[i..i + |tag|] == tag && sql[i + |tag|] == '$'
    ensures NextDollar(sql, i) == i + |tag|
  {
    hide IsTag;
    TagHasNoDollar(tag);
    var end := NextDollar(sql, i);
    assert forall k | i <= k < i + |tag| :: sql[k] == sql[i..i + |tag|][k - i];
  }

  lemma TagHasNoDollar(tag: string)
    requires IsTag(tag)
    ensures forall k | 0 <= k < |tag| :: tag[k] != '$'
  {
  }

  /** For a tag, being closed at a '$' is the same as the marker standing there. */
  lemma ClosesAtMarker(sql: string, tag: string, i: nat)
    requires IsTag(tag) && i < |sql|
    ensures ClosesDollar(sql, tag, i) <==> StartsWith(sql, i, Marker(tag))
  {
    hide IsTag, NextDollar, StartsWith;
    MarkerParts(sql, tag, i);
    if StartsWith(sql, i, Marker(tag)) {
      NextAfterTag(sql, tag, i + 1);
    }
  }

  /** The first marker from `j` on closes the string. */
  lemma {:induction false} FirstMarkerCloses(sql: string, tag: string, j: nat, p: nat)
    requires IsTag(tag) && j <= p < |sql| && StartsWith(sql, p, Marker(tag))
    ensures var q := DollarEnd(sql, tag, j);
            && q.Some? && q.value <= p
            && (q.value == p <==> forall k | j <= k < p :: !StartsWith(sql, k, Marker(tag)))
    decreases p - j
  {
    ClosesAtMarker(sql, tag, j);
    if j == p || ClosesDollar(sql, tag, j) {
    } else {
      FirstMarkerCloses(sql, tag, j + 1, p);
    }
  }

  /**
   A value between two markers becomes one token, and is decoded to the value exactly when the
   closing marker is the first one from the start of the value on.
   */
  lemma DollarRoundTrip(sql: string, i: nat, tag: string, w: string, out: Output)
    requires IsTag(tag) && StartsWith(sql, i, Marker(tag) + w + Marker(tag))
    ensures var start := i + |tag| + 2;
            var first := forall k | start <= k < start + |w| :: !StartsWith(sql, k, Marker(tag));
            var p := DollarEnd(sql, tag, start);
            && p.Some?
            && var text, end := Quoted(sql[start..p.value]), p.value + |tag| + 2;
            && Lex(sql, i, i, out) == Lex(sql, end, end, out.Push(Token(text, |tag| + 2)))
            && (DecodeLiteral(text) == Some(LiteralValue(w, SpecialString.STANDARD)) <==> first)
            && (first ==> end == i + |Marker(tag) + w + Marker(tag)| && text == Quoted(w))
  {
    hide DecodeLiteral, Lex, IsTag, StartsWith, Quoted, DollarEnd;
    var start := i + |tag| + 2;
    StartsWithConcat(sql, i, Marker(tag) + w, Marker(tag));
    StartsWithConcat(sql, i, Marker(tag), w);
    StandsThere(sql, start, w);
    StandsThere(sql, start + |w|, Marker(tag));
    FirstMarkerCloses(sql, tag, start, start + |w|);
    var p := DollarEnd(sql, tag, start).value;
    DollarIsRead(sql, i, tag, out);
    AfterTagCloses(sql, i, tag, out);
    DecodeQuoted("", sql[start..p]);
    assert "" + Quoted(sql[start..p]) == Quoted(sql[start..p]);
  }

  lemma AfterTagCloses(sql: string, i: nat, tag: string, out: Output)
    requires i + |tag| + 2 <= |sql| && DollarEnd(sql, tag, i + |tag| + 2).Some?
    ensures var p := DollarEnd(sql, tag, i + |tag| + 2).value;
            var end := p + |tag| + 2;
            AfterTag(sql, i, tag, i + |tag| + 2, out)
            == Lex(sql, end, end, out.Push(Token(Quoted(sql[i + |tag| + 2..p]), |tag| + 2)))
  {
    hide Lex;
  }

  lemma DollarIsRead(sql: string, i: nat, tag: string, out: Output)
    requires IsTag(tag) && StartsWith(sql, i, Marker(tag))
    ensures i + |tag| + 2 <= |sql| && Lex(sql, i, i, out) == AfterTag(sql, i, tag, i + |tag| + 2, out)
  {
    hide Lex, AfterTag, StartsWith, IsDollarTagCharacter;
    MarkerParts(sql, tag, i);
    assert forall k | i + 1 <= k < i + 1 + |tag| :: sql[k] == sql[i + 1..i + 1 + |tag|][k - i - 1];
    TagIsFound(sql, i + 1, i + 1 + |tag|);
    QuotedDollarIsLexed(sql, i, out);
  }

  lemma QuotedDollarIsLexed(sql: string, i: nat, out: Output)
    requires i < |sql| && sql[i] == '$'
    ensures Lex(sql, i, i, out) == LexDollar(sql, i, i, out)
  {
    hide LexDollar;
  }
}
