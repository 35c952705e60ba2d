/**
 The tables of extension entries (scripts/generate_extensions_function.py): what the exporters print,
 `parse_records` reads back.
 */
module Records {

  /** The white space of Python's `str.strip`. */
  predicate IsSpace(c: char) {
    '\U{09}' <= c <= '\U{0D}' || '\U{1C}' <= c <= ' ' || c == '\U{85}' || c == '\U{A0}' || c == '\U{1680}'
    || '\U{2000}' <= c <= '\U{200A}' || c == '\U{2028}' || c == '\U{2029}' || c == '\U{202F}' || c == '\U{205F}'
    || c == '\U{3000}'
  }

  function StripLeft(s: string): (r: string)
    ensures |r| <= |s| && (|r| == |s| ==> r == s)
  {
    if s != "" && IsSpace(s[0]) then StripLeft(s[1..]) else s
  }

  function StripRight(s: string): (r: string)
    ensures |r| <= |s| && (|r| == |s| ==> r == s)
  {
    if s != "" && IsSpace(s[|s| - 1]) then StripRight(s[..|s| - 1]) else s
  }

  function Strip(s: string): string {
    StripRight(StripLeft(s))
  }

  predicate IsTrimmed(s: string) {
    s != "" ==> !IsSpace(s[0]) && !IsSpace(s[|s| - 1])
  }

  // ---------------------------------------------------------------- parsing

  /** The variables of `parse_records`. */
  datatype Parser = Parser(records: seq<seq<string>>, record: seq<string>, item: string, inQuote: bool, insideBraces: bool) {
    /** The current record with the current item, unless that is blank. */
    function WithItem(): seq<string> {
      if Strip(item) != "" then record + [Strip(item)] else record
    }

    function Step(c: char): Parser {
      if c == '"' then this.(inQuote := !inQuote)
      else if c == '{' && !inQuote then this.(insideBraces := true, record := [], item := "")
      else if c == '}' && !inQuote && insideBraces then Parser(records + [WithItem()], [], "", inQuote, false)
      else if c == ',' && !inQuote && insideBraces then this.(record := WithItem(), item := "")
      else if insideBraces then this.(item := item + [c])
      else this
    }

    function Run(text: string): Parser
      decreases |text|
    {
      if text == "" then this else Step(text[0]).Run(text[1..])
    }
  }

  const START := Parser([], [], "", false, false)

  method ParseRecords(text: string) returns (records: seq<seq<string>>)
    ensures records == START.Run(text).records
  {
    records := [];
    var currentRecord, currentItem, inQuote, insideBraces := [], "", false, false;
    for i := 0 to |text|
      invariant Parser(records, currentRecord, currentItem, inQuote, insideBraces).Run(text[i..]) == START.Run(text)
    {
      var c := text[i];
      assert text[i..][0] == c && text[i..][1..] == text[i + 1..];
      if c == '"' {
        inQuote := !inQuote;
      } else if c == '{' && !inQuote {
        insideBraces := true;
        currentRecord := [];
        currentItem := "";
      } else if c == '}' && !inQuote && insideBraces {
        var token := Strip(currentItem);
        if token != "" {
          currentRecord := currentRecord + [token];
        }
        records := records + [currentRecord];
        currentRecord := [];
        currentItem := "";
        insideBraces := false;
      } else if c == ',' && !inQuote && insideBraces {
        var token := Strip(currentItem);
        if token != "" {
          currentRecord := currentRecord + [token];
        }
        currentItem := "";
      } else {
        if insideBraces {
          currentItem := currentItem + [c];
        }
      }
    }
  }

  // ---------------------------------------------------------------- printing

  /** A field is printed in quotes, or, when it is the type of a function, without. */
  datatype Field = Field(text: string, quoted: bool)

  function Shown(f: Field): string {
    if f.quoted then "\"" + f.text + "\"" else f.text
  }

  /** The fields, separated by a comma and a space. */
  function Joined(fields: seq<Field>): string
    decreases |fields|
  {
    if fields == [] then ""
    else if |fields| == 1 then Shown(fields[0])
    else Shown(fields[0]) + ", " + Joined(fields[1..])
  }

  function Line(fields: seq<Field>): string {
    "\t{" + Joined(fields) + "},\n"
  }

  function Lines(rows: seq<seq<Field>>): string
    decreases |rows|
  {
    if rows == [] then "" else Lines(rows[..|rows| - 1]) + Line(rows[|rows| - 1])
  }

  /** A whole table, from its name up to the comment that ends it. */
  function Table(name: string, rows: seq<seq<Field>>): string {
    name + "[] = {\n" + Lines(rows) + "}; // "
  }

  /** The exporters: one line for each entry. */
  method Export(name: string, rows: seq<seq<Field>>) returns (result: string)
    ensures result == Table(name, rows)
  {
    result := name + "[] = {\n";
    for i := 0 to |rows|
      invariant result == name + "[] = {\n" + Lines(rows[..i])
    {
      assert rows[..i + 1][..i] == rows[..i];
      ghost var before := result;
      result := result + "\t{";
      result := result + Joined(rows[i]);
      result := result + "},\n";
      LineAppended(before, rows[i]);
      NextLine(name + "[] = {\n", Lines(rows[..i]), Line(rows[i]));
    }
    assert rows[..|rows|] == rows;
    result := result + "}; // ";
  }

  lemma LineAppended(before: string, fields: seq<Field>)
    ensures before + "\t{" + Joined(fields) + "},\n" == before + Line(fields)
  {
  }

  lemma NextLine(a: string, b: string, c: string)
    ensures a + b + c == a + (b + c)
  {
  }

  // ---------------------------------------------------------------- the round trip

  ghost predicate Without(s: string, bad: set<char>) {
    forall k | 0 <= k < |s| :: s[k] !in bad
  }

  /** Quoted text holds no quote; other text no separator either. */
  ghost predicate IsPrintable(f: Field) {
    Without(f.text, if f.quoted then {'"'} else {'"', ',', '{', '}'})
  }

  ghost predicate ArePrintable(rows: seq<seq<Field>>) {
    forall i | 0 <= i < |rows| :: forall j | 0 <= j < |rows[i]| :: IsPrintable(rows[i][j])
  }

  /** What comes back of a field: its text without the white space around it, and nothing of a blank one. */
  function Survivor(f: Field): seq<string> {
    if Strip(f.text) != "" then [Strip(f.text)] else []
  }

  function Survivors(fields: seq<Field>): seq<string>
    decreases |fields|
  {
    if fields == [] then [] else Survivor(fields[0]) + Survivors(fields[1..])
  }

  function AllSurvivors(rows: seq<seq<Field>>): seq<seq<string>>
    decreases |rows|
  {
    if rows == [] then [] else AllSurvivors(rows[..|rows| - 1]) + [Survivors(rows[|rows| - 1])]
  }

  lemma {:induction false} RunConcat(p: Parser, a: string, b: string)
    ensures p.Run(a + b) == p.Run(a).Run(b)
    decreases |a|
  {
    if a == "" {
      assert a + b == b;
    } else {
      assert (a + b)[0] == a[0] && (a + b)[1..] == a[1..] + b;
      RunConcat(p.Step(a[0]), a[1..], b);
    }
  }

  /** Plain characters inside braces are collected. */
  lemma {:induction false} RunPlain(p: Parser, text: string)
    requires p.insideBraces && Without(text, if p.inQuote then {'"'} else {'"', ',', '{', '}'})
    ensures p.Run(text) == p.(item := p.item + text)
    decreases |text|
  {
    if text == "" {
      assert p.item + text == p.item;
    } else {
      RunPlain(p.Step(text[0]), text[1..]);
      assert p.item + [text[0]] + text[1..] == p.item + text;
    }
  }

  lemma RunOne(p: Parser, c: char)
    ensures p.Run([c]) == p.Step(c)
  {
    assert [c][1..] == "";
    assert p.Step(c).Run("") == p.Step(c);
  }

  lemma RunShown(p: Parser, f: Field)
    requires p.insideBraces && !p.inQuote && IsPrintable(f)
    ensures p.Run(Shown(f)) == p.(item := p.item + f.text)
  {
    hide Parser.Run;
    if f.quoted {
      var q := p.(inQuote := true);
      RunConcat(p, "\"" + f.text, "\"");
      RunConcat(p, "\"", f.text);
      RunOne(p, '"');
      RunPlain(q, f.text);
      RunOne(q.(item := p.item + f.text), '"');
    } else {
      RunPlain(p, f.text);
    }
  }

  lemma SpaceIsStripped(s: string)
    ensures Strip(" " + s) == Strip(s)
  {
    assert (" " + s)[1..] == s;
  }

  lemma RunSeparator(q: Parser)
    requires q.insideBraces && !q.inQuote
    ensures q.Run(", ") == q.(record := q.WithItem(), item := " ")
  {
    hide Parser.Run;
    var r := q.(record := q.WithItem(), item := "");
    RunConcat(q, ",", " ");
    RunOne(q, ',');
    RunOne(r, ' ');
    assert "," + " " == ", " && "" + [' '] == " ";
  }

  lemma ItemSurvives(p: Parser, f: Field)
    requires p.item == "" || p.item == " "
    ensures p.(item := p.item + f.text).WithItem() == p.record + Survivor(f)
  {
    hide Strip;
    SpaceIsStripped(f.text);
    assert "" + f.text == f.text && p.record + [] == p.record;
  }

  /** A field and what follows it; the field may come after a separator's space. */
  lemma RunField(p: Parser, f: Field, more: string)
    requires p.insideBraces && !p.inQuote && (p.item == "" || p.item == " ") && IsPrintable(f)
    ensures p.Run(Shown(f) + "}") == Parser(p.records + [p.record + Survivor(f)], [], "", false, false)
    ensures p.Run(Shown(f) + ", " + more) == p.(record := p.record + Survivor(f), item := " ").Run(more)
  {
    hide Parser.Run, IsPrintable;
    var q := p.(item := p.item + f.text);
    RunShown(p, f);
    ItemSurvives(p, f);
    hide Parser.WithItem, Survivor, Shown;
    RunConcat(p, Shown(f), "}");
    RunOne(q, '}');
    RunConcat(p, Shown(f) + ", ", more);
    RunConcat(p, Shown(f), ", ");
    RunSeparator(q);
  }

  /** A record's fields, up to its closing brace. */
  lemma {:induction false} RunFields(p: Parser, fields: seq<Field>)
    requires p.insideBraces && !p.inQuote && (p.item == "" || p.item == " ")
    requires forall j | 0 <= j < |fields| :: IsPrintable(fields[j])
    ensures p.Run(Joined(fields) + "}") == Parser(p.records + [p.record + Survivors(fields)], [], "", false, false)
    decreases |fields|
  {
    hide Parser.Run, IsPrintable, Strip;
    if fields == [] {
      NoFields(p);
    } else {
      var f, rest := fields[0], fields[1..];
      RunField(p, f, Joined(rest) + "}");
      SurvivorsStep(p.record, fields);
      if rest == [] {
        assert Survivors(rest) == [] && p.record + Survivor(f) + [] == p.record + Survivor(f);
      } else {
        assert Joined(fields) + "}" == Shown(f) + ", " + (Joined(rest) + "}");
        RunFields(p.(record := p.record + Survivor(f), item := " "), rest);
      }
    }
  }

  lemma NoFields(p: Parser)
    requires p.insideBraces && !p.inQuote && (p.item == "" || p.item == " ")
    ensures p.Run(Joined([]) + "}") == Parser(p.records + [p.record + Survivors([])], [], "", false, false)
  {
    SpaceIsStripped("");
    assert Joined([]) + "}" == "}" && p.record + [] == p.record && "" + " " == " " + "";
    RunOne(p, '}');
  }

  lemma SurvivorsStep(before: seq<string>, fields: seq<Field>)
    requires fields != []
    ensures before + Survivors(fields) == before + Survivor(fields[0]) + Survivors(fields[1..])
  {
    hide Survivor;
    var a, b := Survivor(fields[0]), Survivors(fields[1..]);
    assert before + (a + b) == before + a + b;
  }

  /** From anywhere but inside quotes, a line adds its record. */
  lemma RunLine(p: Parser, fields: seq<Field>)
    requires !p.inQuote && forall j | 0 <= j < |fields| :: IsPrintable(fields[j])
    ensures p.Run(Line(fields)) == Parser(p.records + [Survivors(fields)], [], "", false, false)
  {
    hide Parser.Run, Joined, Survivors, IsPrintable;
    var q := p.(record := [], item := "", insideBraces := true);
    assert Line(fields) == "\t{" + ((Joined(fields) + "}") + ",\n");
    RunConcat(p, "\t{", (Joined(fields) + "}") + ",\n");
    RunOpening(p);
    RunConcat(q, Joined(fields) + "}", ",\n");
    RunFields(q, fields);
    var r := Parser(p.records + [Survivors(fields)], [], "", false, false);
    assert [] + Survivors(fields) == Survivors(fields);
    RunOutside(r, ",\n");
  }

  lemma RunOpening(p: Parser)
    requires !p.inQuote
    ensures p.Run("\t{") == p.(record := [], item := "", insideBraces := true)
  {
    hide Parser.Run;
    assert "\t{" == "\t" + "{";
    RunConcat(p, "\t", "{");
    RunOne(p, '\t');
    RunOne(p.Step('\t'), '{');
  }

  /** Outside braces, and without opening ones or quotes, nothing happens. */
  lemma {:induction false} RunOutside(p: Parser, text: string)
    requires !p.insideBraces && !p.inQuote && Without(text, {'"', '{'})
    ensures p.Run(text) == p
    decreases |text|
  {
    if text == "" {
    } else {
      RunOutside(p, text[1..]);
    }
  }

  lemma {:induction false} RunLines(p: Parser, rows: seq<seq<Field>>)
    requires !p.inQuote && ArePrintable(rows)
    ensures var q := p.Run(Lines(rows));
            q.records == p.records + AllSurvivors(rows) && !q.inQuote
            && (if rows == [] then q == p else q.record == [] && q.item == "" && !q.insideBraces)
    decreases |rows|
  {
    hide Parser.Run, IsPrintable, Line, Survivors;
    if rows == [] {
      RunNothing(p);
    } else {
      var before, last := rows[..|rows| - 1], rows[|rows| - 1];
      RunLines(p, before);
      RunConcat(p, Lines(before), Line(last));
      RunLine(p.Run(Lines(before)), last);
    }
  }

  lemma RunNothing(p: Parser)
    ensures p.Run("") == p
  {
  }

  /** The end of the table adds nothing, unless there was no line: then the table's own braces are a record. */
  lemma RunEnd(p: Parser)
    requires !p.inQuote && (p.insideBraces ==> p.record == [] && Strip(p.item) == "")
    ensures p.Run("}; // ").records == if p.insideBraces then p.records + [[]] else p.records
  {
    hide Parser.Run;
    assert "}; // " == "}" + "; // ";
    RunConcat(p, "}", "; // ");
    RunOne(p, '}');
    RunOutside(p.Step('}'), "; // ");
  }

  lemma RunName(name: string)
    requires Without(name, {'"', '{'})
    ensures START.Run(name + "[] = {\n") == Parser([], [], "\n", false, true)
  {
    hide Parser.Run;
    assert name + "[] = {\n" == (name + "[] = ") + "{" + "\n";
    RunConcat(START, (name + "[] = ") + "{", "\n");
    RunConcat(START, name + "[] = ", "{");
    RunOutside(START, name + "[] = ");
    RunOne(START, '{');
    RunOne(START.Step('{'), '\n');
    assert "" + ['\n'] == "\n";
  }

  /** What is read back of a table: the trimmed fields; and of a table without lines one empty record. */
  lemma ParseOfTable(name: string, rows: seq<seq<Field>>)
    requires Without(name, {'"', '{'}) && ArePrintable(rows)
    ensures START.Run(Table(name, rows)).records == if rows == [] then [[]] else AllSurvivors(rows)
  {
    hide Parser.Run, IsPrintable, ArePrintable;
    var head := name + "[] = {\n";
    var p := Parser([], [], "\n", false, true);
    RunName(name);
    RunConcat(START, head + Lines(rows), "}; // ");
    RunConcat(START, head, Lines(rows));
    RunLines(p, rows);
    assert Strip("\n") == "" by {
      assert "\n"[1..] == "";
    }
    RunEnd(p.Run(Lines(rows)));
    assert [] + AllSurvivors(rows) == AllSurvivors(rows);
  }

  function Texts(fields: seq<Field>): seq<string> {
    seq(|fields|, i requires 0 <= i < |fields| => fields[i].text)
  }

  ghost predicate AreIntact(fields: seq<Field>) {
    forall j | 0 <= j < |fields| :: fields[j].text != "" && IsTrimmed(fields[j].text)
  }

  /** Every field comes back as it was exactly when each is trimmed and none is empty. */
  lemma {:induction false} SurvivorsAreTexts(fields: seq<Field>)
    ensures |Survivors(fields)| <= |fields|
    ensures Survivors(fields) == Texts(fields) <==> AreIntact(fields)
    decreases |fields|
  {
    hide Strip, IsTrimmed;
    if fields == [] {
    } else {
      var f, rest := fields[0], fields[1..];
      SurvivorsAreTexts(rest);
      StripOfTrimmed(f.text);
      assert Texts(fields) == [f.text] + Texts(rest);
      if Survivors(fields) == Texts(fields) {
        assert |Survivors(fields)| == |fields|;
        assert Survivors(fields)[1..] == Texts(fields)[1..];
        assert AreIntact(rest);
        assert forall j | 0 < j < |fields| :: fields[j] == rest[j - 1];
      }
    }
  }

  lemma StripOfTrimmed(s: string)
    ensures Strip(s) == s <==> IsTrimmed(s)
  {
    if s != "" && IsSpace(s[0]) {
      assert |StripLeft(s)| < |s|;
    } else if s != "" && IsSpace(s[|s| - 1]) {
      assert |StripRight(s)| < |s|;
    }
  }

  function AllTexts(rows: seq<seq<Field>>): seq<seq<string>> {
    seq(|rows|, i requires 0 <= i < |rows| => Texts(rows[i]))
  }

  lemma {:induction false} AllSurvivorsAt(rows: seq<seq<Field>>, i: nat)
    requires i < |rows|
    ensures |AllSurvivors(rows)| == |rows| && AllSurvivors(rows)[i] == Survivors(rows[i])
    decreases |rows|
  {
    hide Survivors;
    if i < |rows| - 1 {
      AllSurvivorsAt(rows[..|rows| - 1], i);
    } else if i > 0 {
      AllSurvivorsAt(rows[..|rows| - 1], i - 1);
    }
  }

  /** The parser undoes the exporter exactly when the table has lines and no field is empty or has white space around it. */
  lemma RoundTrip(name: string, rows: seq<seq<Field>>)
    requires Without(name, {'"', '{'}) && ArePrintable(rows)
    ensures START.Run(Table(name, rows)).records == AllTexts(rows)
            <==> rows != [] && forall i | 0 <= i < |rows| :: AreIntact(rows[i])
  {
    hide Parser.Run, Table, ArePrintable, AreIntact, Survivors, AllSurvivors, Texts;
    ParseOfTable(name, rows);
    var read, texts := AllSurvivors(rows), AllTexts(rows);
    forall i | 0 <= i < |rows|
      ensures |read| == |rows| && (read[i] == texts[i] <==> AreIntact(rows[i]))
    {
      AllSurvivorsAt(rows, i);
      SurvivorsAreTexts(rows[i]);
    }
    if rows != [] {
      AllSurvivorsAt(rows, 0);
      assert read == texts <==> forall i | 0 <= i < |rows| :: read[i] == texts[i];
    }
  }
}
