/**
 The recursive reading of a PEG rule body, and its agreement with the compiler's stack.

 A body is a sequence of elements read from left to right: a primary adds an item, a postfix
 operator wraps the last item, and '/' folds the last item and the next primary into one flat
 ordered choice. Brackets nest.
 */
module PegSyntax {
  import opened Wrappers
  import opened Sequences
  import opened PegTranslation

  datatype Primary =
    | KeywordPrimary(text: string)
    | ReferencePrimary(name: string)
    | BracketPrimary(body: seq<Element>)
    | CallPrimary(callee: string, body: seq<Element>)

  datatype PostfixOperator = Question | Star | Plus {
    function Symbol(): char {
      match this
      case Question => '?'
      case Star => '*'
      case Plus => '+'
    }
  }

  /** NOT operators ('!') are accepted anywhere, also between '/' and its operand, and mean nothing. */
  datatype Element =
    | Item(primary: Primary)
    | Postfix(op: PostfixOperator)
    | Alternative(nots: nat, primary: Primary)
    | Not

  // ---------------------------------------------------------------- concrete syntax

  function Operator(c: char): seq<PEGToken> {
    [OperatorToken(c)]
  }

  function Nots(n: nat): (ts: seq<PEGToken>)
    ensures |ts| == n
  {
    if n == 0 then [] else Nots(n - 1) + Operator('!')
  }

  function PrintPrimary(p: Primary): (ts: seq<PEGToken>)
    ensures |ts| > 0
    decreases p, 0
  {
    match p
    case KeywordPrimary(text) => [LiteralToken(text)]
    case ReferencePrimary(name) => [ReferenceToken(name)]
    case BracketPrimary(body) => Operator('(') + Print(body) + Operator(')')
    case CallPrimary(callee, body) => [FunctionCallToken(callee)] + Print(body) + Operator(')')
  }

  function PrintElement(e: Element): seq<PEGToken>
    decreases e, 0
  {
    match e
    case Item(p) => PrintPrimary(p)
    case Postfix(op) => Operator(op.Symbol())
    case Alternative(n, p) => Operator('/') + Nots(n) + PrintPrimary(p)
    case Not => Operator('!')
  }

  function Print(body: seq<Element>): seq<PEGToken>
    decreases body, 1
  {
    if body == [] then [] else Print(body[..|body| - 1]) + PrintElement(Last(body))
  }

  // ---------------------------------------------------------------- meaning

  /** The tree of a primary, or the reason why there is none. */
  datatype Value = Tree(t: Tree) | NoTree(poisoned: bool)

  function Verdict(poisoned: bool): Translated {
    if poisoned then Poisoned else Invalid
  }

  ghost function PrimaryTree(p: PEGParser, rank: string -> nat, rule: PEGRule, param: Option<PegTranslation.Tree>, e: Primary): Value
    requires Acyclic(p, rank) && (rule.parameters != [] ==> param.Some?)
    decreases e, 0
  {
    match e
    case KeywordPrimary(text) => Value.Tree(KeywordTree(text))
    case ReferencePrimary(name) =>
      Value.Tree(if name in rule.parameters then SharedTree(param.value) else RuleTree(name))
    case BracketPrimary(body) =>
      (match Meaning(p, rank, rule, param, body)
       case Items(items) => Value.Tree(ListTree(items))
       case other => NoTree(other.Poisoned?))
    case CallPrimary(callee, body) =>
      (match Meaning(p, rank, rule, param, body)
       case Items(items) =>
         if callee == "" then Value.Tree(ListTree(items)) else
         (match Translate(p, rank, callee, Some(if |items| == 1 then items[0] else ListTree(items)))
          case Items(ts) => Value.Tree(ListTree(ts))
          case other => NoTree(other.Poisoned?))
       case other => NoTree(other.Poisoned?))
  }

  /** What one element makes of the items before it. */
  ghost function ElementMeaning(p: PEGParser, rank: string -> nat, rule: PEGRule, param: Option<PegTranslation.Tree>,
                                items: seq<PegTranslation.Tree>, e: Element): Translated
    requires Acyclic(p, rank) && (rule.parameters != [] ==> param.Some?)
    decreases e, 1
  {
    match e
    case Not => Items(items)
    case Item(q) =>
      (match PrimaryTree(p, rank, rule, param, q)
       case Tree(t) => Items(items + [t])
       case NoTree(poisoned) => Verdict(poisoned))
    case Postfix(op) =>
      if items == [] then Invalid else Items(ReplaceLast(items, Operand(Last(items), op.Symbol())))
    case Alternative(_, q) =>
      if items == [] then Invalid else
      if Last(items).SharedTree? && Last(items).Head().ChoiceTree? then Poisoned else
      match PrimaryTree(p, rank, rule, param, q)
      case Tree(t) => Items(ReplaceLast(items, ChoiceTree(Operand(Last(items), '/').items + [t])))
      case NoTree(poisoned) => Verdict(poisoned)
  }

  /** The items of a body, from left to right. */
  ghost function Meaning(p: PEGParser, rank: string -> nat, rule: PEGRule, param: Option<PegTranslation.Tree>, body: seq<Element>): Translated
    requires Acyclic(p, rank) && (rule.parameters != [] ==> param.Some?)
    decreases body, 2
  {
    if body == [] then Items([]) else
    match Meaning(p, rank, rule, param, body[..|body| - 1])
    case Items(items) => ElementMeaning(p, rank, rule, param, items, body[|body| - 1])
    case other => other
  }

  lemma MeaningPush(p: PEGParser, rank: string -> nat, rule: PEGRule, param: Option<PegTranslation.Tree>, body: seq<Element>, e: Element)
    requires Acyclic(p, rank) && (rule.parameters != [] ==> param.Some?)
    ensures Meaning(p, rank, rule, param, body + [e])
            == match Meaning(p, rank, rule, param, body)
               case Items(items) => ElementMeaning(p, rank, rule, param, items, e)
               case other => other
  {
    assert (body + [e])[..|body|] == body;
  }

  /** The tree that each postfix operator makes of the last item. */
  lemma PostfixTrees(p: PEGParser, rank: string -> nat, rule: PEGRule, param: Option<PegTranslation.Tree>,
                     body: seq<Element>, before: seq<PegTranslation.Tree>, last: PegTranslation.Tree)
    requires Acyclic(p, rank) && (rule.parameters != [] ==> param.Some?)
    requires Meaning(p, rank, rule, param, body) == Items(before + [last])
    ensures Meaning(p, rank, rule, param, body + [Postfix(Question)]) == Items(before + [OptionalTree(last)])
    ensures Meaning(p, rank, rule, param, body + [Postfix(Star)]) == Items(before + [OptionalTree(RepeatTree(last))])
    ensures Meaning(p, rank, rule, param, body + [Postfix(Plus)]) == Items(before + [RepeatTree(last)])
    ensures Meaning(p, rank, rule, param, body + [Not]) == Items(before + [last])
  {
    forall e: Element
      ensures Meaning(p, rank, rule, param, body + [e]) == ElementMeaning(p, rank, rule, param, before + [last], e)
    {
      MeaningPush(p, rank, rule, param, body, e);
    }
    assert (before + [last])[..|before|] == before;
    hide Meaning;
  }

  /** '/' makes one flat choice of the last item and the primaries that follow. */
  lemma AlternativeTrees(p: PEGParser, rank: string -> nat, rule: PEGRule, param: Option<PegTranslation.Tree>,
                         body: seq<Element>, before: seq<PegTranslation.Tree>, last: PegTranslation.Tree,
                         n: nat, q: Primary, t: PegTranslation.Tree)
    requires Acyclic(p, rank) && (rule.parameters != [] ==> param.Some?)
    requires Meaning(p, rank, rule, param, body) == Items(before + [last]) && PrimaryTree(p, rank, rule, param, q) == Value.Tree(t)
    ensures last.ChoiceTree? ==>
              Meaning(p, rank, rule, param, body + [Alternative(n, q)]) == Items(before + [ChoiceTree(last.items + [t])])
    ensures !last.ChoiceTree? && !last.SharedTree? ==>
              Meaning(p, rank, rule, param, body + [Alternative(n, q)]) == Items(before + [ChoiceTree([last, t])])
  {
    MeaningPush(p, rank, rule, param, body, Alternative(n, q));
    assert (before + [last])[..|before|] == before;
    assert [last] + [t] == [last, t];
    hide Meaning, PrimaryTree;
  }

  /** A bracket is a list, even of one item; an argument of one item is that item itself, which its parameter shares. */
  lemma BracketTrees(p: PEGParser, rank: string -> nat, rule: PEGRule, param: Option<PegTranslation.Tree>,
                     body: seq<Element>, items: seq<PegTranslation.Tree>, callee: string)
    requires Acyclic(p, rank) && (rule.parameters != [] ==> param.Some?)
    requires Meaning(p, rank, rule, param, body) == Items(items) && callee != ""
    ensures PrimaryTree(p, rank, rule, param, BracketPrimary(body)) == Value.Tree(ListTree(items))
    ensures Callable(p, callee, 1) && p.Rule(callee).tokens == [ReferenceToken(p.Rule(callee).parameters[0])] ==>
              PrimaryTree(p, rank, rule, param, CallPrimary(callee, body))
              == Value.Tree(ListTree([SharedTree(if |items| == 1 then items[0] else ListTree(items))]))
  {
    if Callable(p, callee, 1) && p.Rule(callee).tokens == [ReferenceToken(p.Rule(callee).parameters[0])] {
      ParameterAlone(p, rank, callee, if |items| == 1 then items[0] else ListTree(items));
    }
    hide Meaning, Translate;
  }

  /** The body of a rule that is just its parameter. */
  lemma ParameterAlone(p: PEGParser, rank: string -> nat, callee: string, argument: PegTranslation.Tree)
    requires Acyclic(p, rank) && Callable(p, callee, 1)
    requires p.Rule(callee).tokens == [ReferenceToken(p.Rule(callee).parameters[0])]
    ensures Translate(p, rank, callee, Some(argument)) == Items([SharedTree(argument)])
  {
    var none, one := [Frame([], "", false)], [Frame([SharedTree(argument)], "", false)];
    assert After(p, rank, callee, Some(argument), 0) == Going(none);
    assert none[..0] == [] && [] + [SharedTree(argument)] == [SharedTree(argument)];
    assert AddTree(none, SharedTree(argument)) == one;
    assert After(p, rank, callee, Some(argument), 1) == Going(one);
  }

  // ---------------------------------------------------------------- every body is compiled to its meaning

  /** A rule whose tokens are being read. */
  datatype Reading = Reading(p: PEGParser, rank: string -> nat, name: string, param: Option<PegTranslation.Tree>) {
    ghost predicate Valid() {
      Acyclic(p, rank) && Callable(p, name, Arity(param))
    }

    function Tokens(): seq<PEGToken>
      requires Callable(p, name, Arity(param))
    {
      p.Rule(name).tokens
    }

    ghost function At(i: nat): Machine
      requires Valid() && i <= |Tokens()|
    {
      After(p, rank, name, param, i)
    }

    ghost function Body(body: seq<Element>): Translated
      requires Valid()
    {
      Meaning(p, rank, p.Rule(name), param, body)
    }

    ghost function Primary(e: Primary): Value
      requires Valid()
    {
      PrimaryTree(p, rank, p.Rule(name), param, e)
    }

    ghost function Element(items: seq<PegTranslation.Tree>, e: Element): Translated
      requires Valid()
    {
      ElementMeaning(p, rank, p.Rule(name), param, items, e)
    }

    /** The tokens from `i` on are `ts`. */
    ghost predicate Reads(i: nat, ts: seq<PEGToken>)
      requires Valid()
    {
      i + |ts| <= |Tokens()| && Tokens()[i..i + |ts|] == ts
    }
  }

  function Halted(poisoned: bool): Machine {
    if poisoned then Poison else Stuck
  }

  lemma ReadsConcat(r: Reading, i: nat, a: seq<PEGToken>, b: seq<PEGToken>)
    requires r.Valid() && r.Reads(i, a + b)
    ensures r.Reads(i, a) && r.Reads(i + |a|, b)
  {
    assert (a + b)[..|a|] == a && (a + b)[|a|..] == b;
    assert r.Tokens()[i..i + |a|] == r.Tokens()[i..i + |a + b|][..|a|];
    assert r.Tokens()[i + |a|..i + |a| + |b|] == r.Tokens()[i..i + |a + b|][|a|..];
  }

  lemma ReadsToken(r: Reading, i: nat, t: PEGToken)
    requires r.Valid() && r.Reads(i, [t])
    ensures i < |r.Tokens()| && r.Tokens()[i] == t
  {
    assert r.Tokens()[i..i + 1][0] == t;
  }

  /** What one token makes of the frames. */
  ghost function Next(r: Reading, frames: seq<Frame>, token: PEGToken): Machine
    requires r.Valid() && ValidFrames(frames)
  {
    match Step(r.p.Rule(r.name), r.param, frames, token)
    case Now(m) => m
    case Call(f, argument, below) =>
      if !ValidFrames(below) then Stuck else
      match Translate(r.p, r.rank, f, Some(argument))
      case Items(items) => Going(AddTree(below, ListTree(items)))
      case Invalid => Stuck
      case Poisoned => Poison
  }

  lemma AtNext(r: Reading, i: nat, frames: seq<Frame>, token: PEGToken)
    requires r.Valid() && r.Reads(i, [token]) && r.At(i) == Going(frames)
    ensures i < |r.Tokens()| && ValidFrames(frames) && r.At(i + 1) == Next(r, frames, token)
  {
    ReadsToken(r, i, token);
    StepKeeps(r.p.Rule(r.name), r.param, frames, token);
  }

  /** Reading '!' changes nothing. */
  lemma {:induction false} ReadsNots(r: Reading, i: nat, n: nat, frames: seq<Frame>)
    requires r.Valid() && r.Reads(i, Nots(n)) && r.At(i) == Going(frames)
    ensures r.At(i + n) == Going(frames)
  {
    hide After;
    if n == 0 {
    } else {
      ReadsConcat(r, i, Nots(n - 1), Operator('!'));
      ReadsNots(r, i, n - 1, frames);
      AtNext(r, i + n - 1, frames, OperatorToken('!'));
    }
  }

  /** Reading a primary adds its tree to the frames. */
  lemma {:induction false} ReadsPrimary(r: Reading, i: nat, e: Primary, frames: seq<Frame>)
    requires r.Valid() && r.Reads(i, PrintPrimary(e)) && r.At(i) == Going(frames)
    ensures r.At(i + |PrintPrimary(e)|) ==
            match r.Primary(e)
            case Tree(t) => Going(AddTree(frames, t))
            case NoTree(poisoned) => Halted(poisoned)
    decreases e, 0
  {
    hide After, Translate, AddTree;
    match e
    case KeywordPrimary(text) => AtNext(r, i, frames, LiteralToken(text));
    case ReferencePrimary(name) => AtNext(r, i, frames, ReferenceToken(name));
    case BracketPrimary(body) => ReadsBracket(r, i, OperatorToken('('), "", body, frames);
    case CallPrimary(callee, body) => ReadsBracket(r, i, FunctionCallToken(callee), callee, body, frames);
  }

  /** Closing a bracket that holds `items` adds their tree to the frames below. */
  lemma ClosesBracket(r: Reading, i: nat, callee: string, items: seq<PegTranslation.Tree>, frames: seq<Frame>)
    requires r.Valid() && r.Reads(i, Operator(')')) && ValidFrames(frames)
    requires r.At(i) == Going(frames + [Frame(items, callee, false)])
    ensures r.At(i + 1) ==
            if callee == "" then Going(AddTree(frames, ListTree(items))) else
            match Translate(r.p, r.rank, callee, Some(if |items| == 1 then items[0] else ListTree(items)))
            case Items(ts) => Going(AddTree(frames, ListTree(ts)))
            case other => Halted(other.Poisoned?)
  {
    hide After, Translate;
    var inner := frames + [Frame(items, callee, false)];
    assert inner[..|inner| - 1] == frames;
    AtNext(r, i, inner, OperatorToken(')'));
  }

  lemma {:induction false} ReadsBracket(r: Reading, i: nat, open: PEGToken, callee: string, body: seq<Element>, frames: seq<Frame>)
    requires r.Valid() && r.Reads(i, [open] + Print(body) + Operator(')')) && r.At(i) == Going(frames)
    requires open == FunctionCallToken(callee) || (open == OperatorToken('(') && callee == "")
    ensures r.At(i + |Print(body)| + 2) ==
            match r.Primary(CallPrimary(callee, body))
            case Tree(t) => Going(AddTree(frames, t))
            case NoTree(poisoned) => Halted(poisoned)
    decreases body, 2
  {
    hide After, Translate, AddTree;
    var n := |Print(body)|;
    ReadsConcat(r, i, [open] + Print(body), Operator(')'));
    ReadsConcat(r, i, [open], Print(body));
    AtNext(r, i, frames, open);
    ReadsBody(r, i + 1, body, frames, callee);
    if r.Body(body).Items? {
      ClosesBracket(r, i + 1 + n, callee, r.Body(body).items, frames);
    } else {
      VerdictStays(r.p, r.rank, r.name, r.param, i + 1 + n, i + n + 2);
    }
  }

  /** Reading a body, in a bracket that has just been opened, leaves its items in the bracket. */
  lemma {:induction false} ReadsBody(r: Reading, i: nat, body: seq<Element>, below: seq<Frame>, callee: string)
    requires r.Valid() && r.Reads(i, Print(body)) && r.At(i) == Going(below + [Frame([], callee, false)])
    ensures r.At(i + |Print(body)|) ==
            match r.Body(body)
            case Items(items) => Going(below + [Frame(items, callee, false)])
            case other => Halted(other.Poisoned?)
    decreases body, 1
  {
    hide After, Translate, PrimaryTree;
    if body == [] {
    } else {
      var init, last := body[..|body| - 1], body[|body| - 1];
      var j := i + |Print(init)|;
      ReadsConcat(r, i, Print(init), PrintElement(last));
      ReadsBody(r, i, init, below, callee);
      if r.Body(init).Items? {
        ReadsElement(r, j, last, r.Body(init).items, below, callee);
      } else {
        VerdictStays(r.p, r.rank, r.name, r.param, j, j + |PrintElement(last)|);
      }
    }
  }

  lemma {:induction false} ReadsElement(r: Reading, i: nat, e: Element, items: seq<PegTranslation.Tree>, below: seq<Frame>, callee: string)
    requires r.Valid() && r.Reads(i, PrintElement(e)) && r.At(i) == Going(below + [Frame(items, callee, false)])
    ensures r.At(i + |PrintElement(e)|) ==
            match r.Element(items, e)
            case Items(next) => Going(below + [Frame(next, callee, false)])
            case other => Halted(other.Poisoned?)
    decreases e, 1
  {
    hide After, Translate, PrimaryTree;
    var frames := below + [Frame(items, callee, false)];
    assert frames[..|frames| - 1] == below;
    match e
    case Not => AtNext(r, i, frames, OperatorToken('!'));
    case Item(q) => ReadsPrimary(r, i, q, frames);
    case Postfix(op) => AtNext(r, i, frames, OperatorToken(op.Symbol()));
    case Alternative(n, q) => ReadsAlternative(r, i, n, q, items, below, callee);
  }

  lemma {:induction false} ReadsAlternative(r: Reading, i: nat, n: nat, q: Primary, items: seq<PegTranslation.Tree>, below: seq<Frame>, callee: string)
    requires r.Valid() && r.Reads(i, PrintElement(Alternative(n, q))) && r.At(i) == Going(below + [Frame(items, callee, false)])
    ensures r.At(i + |PrintElement(Alternative(n, q))|) ==
            match r.Element(items, Alternative(n, q))
            case Items(next) => Going(below + [Frame(next, callee, false)])
            case other => Halted(other.Poisoned?)
    decreases q, 1
  {
    hide After, Translate, PrimaryTree;
    var frames := below + [Frame(items, callee, false)];
    assert frames[..|frames| - 1] == below;
    ReadsConcat(r, i, Operator('/') + Nots(n), PrintPrimary(q));
    ReadsConcat(r, i, Operator('/'), Nots(n));
    AtNext(r, i, frames, OperatorToken('/'));
    if !r.At(i + 1).Going? {
      VerdictStays(r.p, r.rank, r.name, r.param, i + 1, i + 1 + n + |PrintPrimary(q)|);
    } else {
      var open := below + [Frame(ReplaceLast(items, Operand(Last(items), '/')), callee, true)];
      assert open[..|open| - 1] == below;
      ReadsNots(r, i + 1, n, open);
      ReadsPrimary(r, i + 1 + n, q, open);
      OpenChoiceAdds(items);
    }
  }

  /** Completing an open choice replaces it where it stands. */
  lemma OpenChoiceAdds(items: seq<PegTranslation.Tree>)
    requires items != []
    ensures forall t :: ReplaceLast(ReplaceLast(items, Operand(Last(items), '/')), t) == ReplaceLast(items, t)
  {
  }

  /** A rule body is compiled to its recursive meaning, whatever that is. */
  lemma BodyIsTranslated(p: PEGParser, rank: string -> nat, name: string, param: Option<PegTranslation.Tree>, body: seq<Element>)
    requires Acyclic(p, rank) && Callable(p, name, Arity(param)) && p.Rule(name).tokens == Print(body)
    ensures Translate(p, rank, name, param) == Meaning(p, rank, p.Rule(name), param, body)
  {
    var r := Reading(p, rank, name, param);
    assert r.Tokens()[0..|Print(body)|] == Print(body);
    assert [] + [Frame([], "", false)] == [Frame([], "", false)];
    ReadsBody(r, 0, body, [], "");
    if r.Body(body).Items? {
      assert [] + [Frame(r.Body(body).items, "", false)] == [Frame(r.Body(body).items, "", false)];
    }
  }

  // ---------------------------------------------------------------- every compiled rule is a body

  /** A bracket that is still open: the token that opened it, what it holds, and a '/' awaiting its operand. */
  datatype Part = Part(open: PEGToken, body: seq<Element>, slash: Option<nat>) {
    /** The function being called; a call with an empty name is read as a bracket. */
    function Callee(): string {
      if open.FunctionCallToken? then open.text else ""
    }

    function Prints(): seq<PEGToken> {
      Print(body) + if slash.Some? then Operator('/') + Nots(slash.value) else []
    }

    /** A primary goes where the part expects it. */
    function With(q: Primary): Part {
      match slash
      case None => this.(body := body + [Item(q)])
      case Some(n) => this.(body := body + [Alternative(n, q)], slash := None)
    }
  }

  /** All open parts, the first of which is the rule itself. */
  function PrintParts(parts: seq<Part>): seq<PEGToken>
    requires parts != []
  {
    var last := parts[|parts| - 1];
    if |parts| == 1 then last.Prints()
    else PrintParts(parts[..|parts| - 1]) + [last.open] + last.Prints()
  }

  /** The parts are the machine's frames. */
  ghost predicate SameShape(parts: seq<Part>, frames: seq<Frame>) {
    && |parts| == |frames| > 0
    && (forall k | 0 <= k < |parts| :: parts[k].Callee() == frames[k].callee && (parts[k].slash.Some? <==> frames[k].pending))
    && (forall k | 0 < k < |parts| :: parts[k].open.FunctionCallToken? || parts[k].open == OperatorToken('('))
  }

  lemma PrintPush(body: seq<Element>, e: Element)
    ensures Print(body + [e]) == Print(body) + PrintElement(e)
  {
    assert (body + [e])[..|body|] == body;
  }

  lemma WithPrints(part: Part, q: Primary)
    ensures part.With(q).Prints() == part.Prints() + PrintPrimary(q)
  {
    match part.slash
    case None => PrintPush(part.body, Item(q));
    case Some(n) => PrintPush(part.body, Alternative(n, q));
  }

  /** When the last part prints `more` in addition, so do all parts. */
  lemma PrintsMore(parts: seq<Part>, part: Part, more: seq<PEGToken>)
    requires parts != [] && part.open == Last(parts).open && part.Prints() == Last(parts).Prints() + more
    ensures PrintParts(parts[..|parts| - 1] + [part]) == PrintParts(parts) + more
  {
    var next := parts[..|parts| - 1] + [part];
    assert next[..|next| - 1] == parts[..|parts| - 1];
    if |parts| > 1 {
      ConcatAssociates(PrintParts(parts[..|parts| - 1]) + [part.open], Last(parts).Prints(), more);
    }
  }

  lemma PrintsPushed(parts: seq<Part>, open: PEGToken)
    requires parts != []
    ensures PrintParts(parts + [Part(open, [], None)]) == PrintParts(parts) + [open]
  {
    assert (parts + [Part(open, [], None)])[..|parts|] == parts;
  }

  /** Closing the last part makes it a primary of the part below. */
  lemma PrintsPopped(parts: seq<Part>) returns (q: Primary)
    requires |parts| > 1 && Last(parts).slash == None
    requires Last(parts).open.FunctionCallToken? || Last(parts).open == OperatorToken('(')
    ensures var outer := parts[..|parts| - 1];
            PrintParts(outer[..|outer| - 1] + [Last(outer).With(q)]) == PrintParts(parts) + Operator(')')
  {
    var last, outer := Last(parts), parts[..|parts| - 1];
    q := if last.open.FunctionCallToken? then CallPrimary(last.open.text, last.body) else BracketPrimary(last.body);
    assert PrintPrimary(q) == [last.open] + last.Prints() + Operator(')');
    WithPrints(Last(outer), q);
    PrintsMore(outer, Last(outer).With(q), PrintPrimary(q));
    assert PrintParts(outer) + ([last.open] + last.Prints() + Operator(')'))
        == PrintParts(outer) + [last.open] + last.Prints() + Operator(')');
  }

  /** As long as the compiler goes on, what it has read is a sequence of open brackets. */
  lemma {:induction false} GoingReads(r: Reading, i: nat) returns (parts: seq<Part>)
    requires r.Valid() && i <= |r.Tokens()| && r.At(i).Going?
    ensures SameShape(parts, r.At(i).frames) && PrintParts(parts) == r.Tokens()[..i]
    decreases i
  {
    hide Step, Translate, PrintParts, Next;
    if i == 0 {
      parts := [Part(OperatorToken('('), [], None)];
      NothingPrinted(parts);
    } else {
      VerdictStays(r.p, r.rank, r.name, r.param, i - 1, i);
      parts := GoingReads(r, i - 1);
      assert r.Tokens()[..i] == r.Tokens()[..i - 1] + [r.Tokens()[i - 1]];
      assert r.Tokens()[i - 1..i] == [r.Tokens()[i - 1]];
      AtNext(r, i - 1, r.At(i - 1).frames, r.Tokens()[i - 1]);
      parts := TokenReads(r, parts, r.At(i - 1).frames, r.Tokens()[i - 1]);
    }
  }

  lemma NothingPrinted(parts: seq<Part>)
    requires |parts| == 1 && parts[0].body == [] && parts[0].slash == None
    ensures PrintParts(parts) == []
  {
  }

  /** A primary goes to the last part as it goes to the last frame. */
  lemma PrimaryReads(parts: seq<Part>, frames: seq<Frame>, q: Primary, t: PegTranslation.Tree) returns (next: seq<Part>)
    requires ValidFrames(frames) && SameShape(parts, frames)
    ensures SameShape(next, AddTree(frames, t)) && PrintParts(next) == PrintParts(parts) + PrintPrimary(q)
  {
    hide PrintParts, PrintPrimary, Part.Prints;
    var last := Last(parts);
    WithPrints(last, q);
    PrintsMore(parts, last.With(q), PrintPrimary(q));
    next := parts[..|parts| - 1] + [last.With(q)];
  }

  /** Opening a bracket adds a part as it adds a frame. */
  lemma OpenReads(parts: seq<Part>, frames: seq<Frame>, open: PEGToken, callee: string) returns (next: seq<Part>)
    requires ValidFrames(frames) && SameShape(parts, frames)
    requires open == FunctionCallToken(callee) || (open == OperatorToken('(') && callee == "")
    ensures SameShape(next, frames + [Frame([], callee, false)]) && PrintParts(next) == PrintParts(parts) + [open]
  {
    hide PrintParts;
    PrintsPushed(parts, open);
    next := parts + [Part(open, [], None)];
  }

  lemma TokenReads(r: Reading, parts: seq<Part>, frames: seq<Frame>, token: PEGToken) returns (next: seq<Part>)
    requires r.Valid() && ValidFrames(frames) && Next(r, frames, token).Going? && SameShape(parts, frames)
    ensures SameShape(next, Next(r, frames, token).frames) && PrintParts(next) == PrintParts(parts) + [token]
  {
    hide Translate, PrintParts, SameShape, AddTree, StepOperator;
    match token
    case LiteralToken(text) => next := PrimaryReads(parts, frames, KeywordPrimary(text), KeywordTree(text));
    case ReferenceToken(name) =>
      next := PrimaryReads(parts, frames, ReferencePrimary(name),
                           if name in r.p.Rule(r.name).parameters then SharedTree(r.param.value) else RuleTree(name));
    case FunctionCallToken(f) => next := OpenReads(parts, frames, token, f);
    case OperatorToken(c) => next := OperatorTokenReads(r, parts, frames, c);
    case RegexToken(_) =>
  }

  lemma OperatorTokenReads(r: Reading, parts: seq<Part>, frames: seq<Frame>, c: char) returns (next: seq<Part>)
    requires r.Valid() && ValidFrames(frames) && Next(r, frames, OperatorToken(c)).Going? && SameShape(parts, frames)
    ensures SameShape(next, Next(r, frames, OperatorToken(c)).frames)
    ensures PrintParts(next) == PrintParts(parts) + Operator(c)
  {
    hide Translate, PrintParts, AddTree;
    if c == '(' {
      next := OpenReads(parts, frames, OperatorToken('('), "");
    } else if c == ')' {
      next := CloseReads(r, parts, frames);
    } else {
      var part := OperatorReads(Last(parts), c);
      PrintsMore(parts, part, Operator(c));
      next := parts[..|parts| - 1] + [part];
    }
  }

  lemma CloseReads(r: Reading, parts: seq<Part>, frames: seq<Frame>) returns (next: seq<Part>)
    requires r.Valid() && ValidFrames(frames) && Next(r, frames, OperatorToken(')')).Going? && SameShape(parts, frames)
    ensures SameShape(next, Next(r, frames, OperatorToken(')')).frames) && PrintParts(next) == PrintParts(parts) + Operator(')')
  {
    hide Translate, PrintParts, AddTree, Part.With;
    var q := PrintsPopped(parts);
    var outer := parts[..|parts| - 1];
    next := outer[..|outer| - 1] + [Last(outer).With(q)];
    var t :| Next(r, frames, OperatorToken(')')).frames == AddTree(frames[..|frames| - 1], t);
    ShapeOfPrimary(outer, frames[..|frames| - 1], q, t);
  }

  lemma ShapeOfPrimary(parts: seq<Part>, frames: seq<Frame>, q: Primary, t: PegTranslation.Tree)
    requires ValidFrames(frames) && SameShape(parts, frames)
    ensures SameShape(parts[..|parts| - 1] + [Last(parts).With(q)], AddTree(frames, t))
  {
    hide ValidFrames;
    var next := AddTree(frames, t);
    assert Last(next).callee == Last(frames).callee && !Last(next).pending;
  }

  lemma OperatorReads(part: Part, c: char) returns (next: Part)
    requires c == '!' || (part.slash == None && (c == '?' || c == '*' || c == '+' || c == '/'))
    ensures next.Prints() == part.Prints() + Operator(c) && next.open == part.open
    ensures next.slash.Some? <==> (c == '/' || (c == '!' && part.slash.Some?))
  {
    if c == '/' {
      next := part.(slash := Some(0));
      assert next.Prints() == Print(part.body) + (Operator('/') + Nots(0));
    } else if c == '!' && part.slash.Some? {
      next := part.(slash := Some(part.slash.value + 1));
    } else {
      var e := if c == '!' then Not else Postfix(if c == '?' then Question else if c == '*' then Star else Plus);
      PrintPush(part.body, e);
      next := part.(body := part.body + [e]);
    }
  }

  /** The compiler accepts exactly the bodies that have a meaning, and gives them that meaning. */
  lemma AcceptsExactlyBodies(p: PEGParser, rank: string -> nat, name: string, param: Option<PegTranslation.Tree>)
    requires Acyclic(p, rank) && Callable(p, name, Arity(param))
    ensures Translate(p, rank, name, param).Items? <==>
            exists body :: Print(body) == p.Rule(name).tokens && Meaning(p, rank, p.Rule(name), param, body).Items?
    ensures forall body | Print(body) == p.Rule(name).tokens ::
              Translate(p, rank, name, param) == Meaning(p, rank, p.Rule(name), param, body)
  {
    forall body | Print(body) == p.Rule(name).tokens
      ensures Translate(p, rank, name, param) == Meaning(p, rank, p.Rule(name), param, body)
    {
      BodyIsTranslated(p, rank, name, param, body);
    }
    if Translate(p, rank, name, param).Items? {
      var r := Reading(p, rank, name, param);
      var parts := GoingReads(r, |r.Tokens()|);
      assert r.Tokens()[..|r.Tokens()|] == r.Tokens();
      assert parts[0].Prints() == Print(parts[0].body);
      assert Print(parts[0].body) == p.Rule(name).tokens;
    }
  }
}
