/**
 Three things that the PEG compiler does and a reader of a grammar would not expect
 (extension/autocomplete/matcher.cpp).
 */
module CompilerQuirks {
  import opened Wrappers
  import opened MatcherGraph
  import opened PegTranslation
  import opened PegShapes
  import opened PegSyntax
  import opened PegAcceptance
  import opened PegCompiler

  // ---------------------------------------------------------------- '/' after a parameter

  /** A choice with one more alternative is another choice. */
  lemma AppendingChangesChoice(w: World, id: nat, items: seq<PegTranslation.Tree>, more: nat)
    requires Represents(w, id, ChoiceTree(items))
    ensures !Represents(w.(nodes := w.nodes[id := WithMatcher(w.nodes[id], more)]), id, ChoiceTree(items))
  {
  }

  /**
   '/' right after a parameter whose argument is a choice, and the alternative that follows: the
   alternative goes into the argument's own matcher, so that nothing that shares it still gets the
   choice that was written there.
   */
  method SlashAfterParameter(f: MatcherFactory, list: MatcherList, shared: nat, more: nat,
                             ghost final: set<nat>, ghost items: seq<PegTranslation.Tree>)
    requires f.Valid() && SafeStack(f.nodes, list.matchers) && more < |f.nodes|
    requires f.nodes[Last(list.matchers).matcher].ListMatcher?
    requires f.nodes[Last(list.matchers).matcher].matchers != []
    requires shared == Last(f.nodes[Last(list.matchers).matcher].matchers) < |f.nodes|
    requires Represents(f.WorldWith(final), shared, ChoiceTree(items))
    modifies f, list
    ensures f.nodes == old(f.nodes)[shared := ChoiceMatcher(old(f.nodes)[shared].matchers + [more])]
    ensures list.matchers == old(list.matchers)
    ensures !Represents(f.WorldWith(final), shared, ChoiceTree(items))
  {
    hide SafeWorld;
    ghost var w := f.WorldWith(final);
    f.OpenChoice(list, shared, false, final, []);
    ghost var _ := f.AddMatcher(list, more, false, final, [], ListTree([]));
    AppendingChangesChoice(w, shared, items, more);
  }

  /** A rule that calls `f` with a choice, and a rule `f` that puts '/' after its parameter. */
  const EXTENDING := PEGParser(map[
    "r" := PEGRule([], [FunctionCallToken("f"), LiteralToken("a"), OperatorToken('/'), LiteralToken("b"), OperatorToken(')')]),
    "f" := PEGRule(["p"], [ReferenceToken("p"), OperatorToken('/'), LiteralToken("c")])
  ], Same)

  function Same(s: string): string {
    s
  }

  /** `f` comes after the rules it calls: none. */
  function FunctionsLast(s: string): nat {
    if s == "f" then 1 else 0
  }

  /** The compiler accepts the rule, but it is poisoned. */
  lemma ExtendingIsAccepted()
    ensures Acyclic(EXTENDING, FunctionsLast)
    ensures RuleOk(EXTENDING, FunctionsLast, "r", 0, {"r"})
    ensures Translate(EXTENDING, FunctionsLast, "r", None) == Poisoned
  {
    hide EndsClosed, Translate;
    ExtendingShapes();
    ExtendingIsPoisoned();
    assert RuleOk(EXTENDING, FunctionsLast, "f", 1, {"r"});
    forall t | t in EXTENDING.Rule("r").tokens
      ensures UseOk(EXTENDING, FunctionsLast, "r", 0, t, {"r"})
    {
    }
  }

  lemma ExtendingShapes()
    ensures EndsClosed(EXTENDING.Rule("r").tokens) && EndsClosed(EXTENDING.Rule("f").tokens)
  {
    var r, f := EXTENDING.Rule("r").tokens, EXTENDING.Rule("f").tokens;
    var root, full, callEmpty, call := Slot("", EmptyList), Slot("", FullList), Slot("f", EmptyList), Slot("f", FullList);
    var choice := Slot("", Choice);
    assert [root] + [callEmpty] == [root, callEmpty];
    assert ShapeAfter(r, 1) == Some([root, callEmpty]);
    assert [root, callEmpty][..1] + [call] == [root, call];
    assert ShapeAfter(r, 2) == Some([root, call]);
    assert [root, call] + [choice] == [root, call, choice];
    assert ShapeAfter(r, 3) == Some([root, call, choice]);
    assert [root, call, choice][..2] == [root, call];
    assert ShapeAfter(r, 4) == Some([root, call]);
    assert [root, call][..1] == [root] && [root][..0] + [full] == [full];
    assert ShapeAfter(r, 5) == Some([full]);
    assert ShapeAfter(f, 1) == Some([full]);
    assert [full] + [choice] == [full, choice];
    assert ShapeAfter(f, 2) == Some([full, choice]);
    assert [full, choice][..1] == [full];
    assert ShapeAfter(f, 3) == Some([full]);
  }

  /** One token that calls no function. */
  lemma NextIs(p: PEGParser, rank: string -> nat, n: string, param: Option<PegTranslation.Tree>, i: nat, frames: seq<Frame>, m: Machine)
    requires Acyclic(p, rank) && Callable(p, n, Arity(param)) && i < |p.Rule(n).tokens|
    requires After(p, rank, n, param, i) == Going(frames) && Step(p.Rule(n), param, frames, p.Rule(n).tokens[i]) == Now(m)
    ensures After(p, rank, n, param, i + 1) == m
  {
    hide Translate, Step;
  }

  lemma FirstIs(p: PEGParser, rank: string -> nat, n: string, param: Option<PegTranslation.Tree>)
    requires Acyclic(p, rank) && Callable(p, n, Arity(param))
    ensures After(p, rank, n, param, 0) == Going([Frame([], "", false)])
  {
  }

  /** A poisoned end. */
  lemma EndIsPoison(p: PEGParser, rank: string -> nat, n: string, param: Option<PegTranslation.Tree>, i: nat)
    requires Acyclic(p, rank) && Callable(p, n, Arity(param)) && i <= |p.Rule(n).tokens|
    requires After(p, rank, n, param, i) == Poison
    ensures Translate(p, rank, n, param) == Poisoned
  {
    hide After;
    VerdictStays(p, rank, n, param, i, |p.Rule(n).tokens|);
  }

  /** What adding a tree to a list of frames comes to, when the last frame awaits no operand. */
  lemma AddsItem(below: seq<Frame>, items: seq<PegTranslation.Tree>, callee: string, t: PegTranslation.Tree)
    requires ValidFrames(below + [Frame(items, callee, false)])
    ensures AddTree(below + [Frame(items, callee, false)], t) == below + [Frame(items + [t], callee, false)]
  {
  }

  lemma ExtendingIsPoisoned()
    ensures Acyclic(EXTENDING, FunctionsLast) && Translate(EXTENDING, FunctionsLast, "r", None) == Poisoned
  {
    hide After, Translate, AddTree, StepOperator;
    var p, a, b, below := EXTENDING, KeywordTree("a"), KeywordTree("b"), [Frame([], "", false)];
    FirstIs(p, FunctionsLast, "r", None);
    NextIs(p, FunctionsLast, "r", None, 0, below, Going(below + [Frame([], "f", false)]));
    AddsItem(below, [], "f", a);
    NextIs(p, FunctionsLast, "r", None, 1, below + [Frame([], "f", false)], Going(below + [Frame([] + [a], "f", false)]));
    assert [] + [a] == [a] && [a] + [b] == [a, b];
    SlashOpens(below, a, "f");
    NextIs(p, FunctionsLast, "r", None, 2, below + [Frame([a], "f", false)], Going(below + [Frame([ChoiceTree([a])], "f", true)]));
    AddsAlternative(below, [a], "f", b);
    var choice := ChoiceTree([a, b]);
    NextIs(p, FunctionsLast, "r", None, 3, below + [Frame([ChoiceTree([a])], "f", true)], Going(below + [Frame([choice], "f", false)]));
    ParameterIsPoisoned(choice);
    CallIsPoison(choice);
    EndIsPoison(p, FunctionsLast, "r", None, 5);
  }

  /** '/' after a tree that is neither shared nor a choice. */
  lemma SlashOpens(below: seq<Frame>, t: PegTranslation.Tree, callee: string)
    requires ValidFrames(below + [Frame([t], callee, false)]) && !t.SharedTree? && !t.ChoiceTree?
    ensures StepOperator(below + [Frame([t], callee, false)], '/') == Now(Going(below + [Frame([ChoiceTree([t])], callee, true)]))
  {
    assert [t][..0] + [ChoiceTree([t])] == [ChoiceTree([t])];
    assert (below + [Frame([t], callee, false)])[..|below|] == below;
  }

  lemma AddsAlternative(below: seq<Frame>, items: seq<PegTranslation.Tree>, callee: string, t: PegTranslation.Tree)
    requires ValidFrames(below + [Frame([ChoiceTree(items)], callee, true)])
    ensures AddTree(below + [Frame([ChoiceTree(items)], callee, true)], t) == below + [Frame([ChoiceTree(items + [t])], callee, false)]
  {
    assert [ChoiceTree(items)][..0] + [ChoiceTree(items + [t])] == [ChoiceTree(items + [t])];
    assert (below + [Frame([ChoiceTree(items)], callee, true)])[..|below|] == below;
  }

  /** The call of `f` with the choice is what poisons `r`. */
  lemma CallIsPoison(choice: PegTranslation.Tree)
    requires Acyclic(EXTENDING, FunctionsLast)
    requires After(EXTENDING, FunctionsLast, "r", None, 4) == Going([Frame([], "", false)] + [Frame([choice], "f", false)])
    requires Translate(EXTENDING, FunctionsLast, "f", Some(choice)) == Poisoned
    ensures After(EXTENDING, FunctionsLast, "r", None, 5) == Poison
  {
    hide Translate, AddTree;
    var frames := [Frame([], "", false)] + [Frame([choice], "f", false)];
    assert frames[..1] == [Frame([], "", false)];
    assert StepOperator(frames, ')') == Call("f", choice, [Frame([], "", false)]);
  }

  lemma ParameterIsPoisoned(choice: PegTranslation.Tree)
    requires choice.ChoiceTree?
    ensures Acyclic(EXTENDING, FunctionsLast) && Translate(EXTENDING, FunctionsLast, "f", Some(choice)) == Poisoned
  {
    hide After, Translate, AddTree;
    var shared := SharedTree(choice);
    FirstIs(EXTENDING, FunctionsLast, "f", Some(choice));
    AddsItem([], [], "", shared);
    assert [] + [shared] == [shared] && [] + [Frame([], "", false)] == [Frame([], "", false)];
    assert [] + [Frame([shared], "", false)] == [Frame([shared], "", false)];
    NextIs(EXTENDING, FunctionsLast, "f", Some(choice), 0, [Frame([], "", false)], Going([Frame([shared], "", false)]));
    assert shared.Head() == choice.Head() == choice;
    NextIs(EXTENDING, FunctionsLast, "f", Some(choice), 1, [Frame([shared], "", false)], Poison);
    EndIsPoison(EXTENDING, FunctionsLast, "f", Some(choice), 2);
  }

  /** The matcher of a keyword. */
  predicate IsKeyword(nodes: seq<Node>, id: nat, text: string) {
    id < |nodes| && nodes[id] == KeywordMatcher(text)
  }

  /** A keyword and '/': the list that was empty holds a choice of the keyword, which awaits its next alternative. */
  method KeywordThenSlash(f: MatcherFactory, list: MatcherList, text: string) returns (choice: nat)
    requires f.Valid() && SafeStack(f.nodes, list.matchers) && f.keywordOverrides == map[]
    requires f.BenchOf(list).HasTop() && f.BenchOf(list).Top() == ListMatcher([])
    modifies f, list
    ensures f.Valid() && SafeStack(f.nodes, list.matchers) && f.matchers == old(f.matchers)
    ensures list.matchers == old(list.matchers) + [MatcherListEntry(choice, "")]
    ensures |old(f.nodes)| + 1 == choice < |f.nodes| && f.nodes[choice] == ChoiceMatcher([|old(f.nodes)|])
    ensures IsKeyword(f.nodes, |old(f.nodes)|, text)
    ensures f.nodes[Last(old(list.matchers)).matcher] == ListMatcher([choice])
  {
    hide SafeWorld, SafeStack, Passes, KindsKept, Holds, Grows, Represents, Opened, AddTree;
    ghost var _ := f.CompileKeyword(text, list, false, {}, []);
    assert list.matchers == old(list.matchers) && f.nodes[Last(list.matchers).matcher] == ListMatcher([|f.nodes| - 1]);
    assert !f.nodes[|f.nodes| - 1].ChoiceMatcher?;
    hide Adds;
    f.OpenChoice(list, |f.nodes| - 1, false, {}, []);
    choice := |f.nodes| - 1;
  }

  /** The tokens of `r` up to its bracket, one after the other: the function's list holds the choice of `a` and `b`. */
  method ChoiceOfTwo(f: MatcherFactory, list: MatcherList) returns (choice: nat)
    requires f.Valid() && SafeStack(f.nodes, list.matchers) && f.keywordOverrides == map[]
    modifies f, list
    ensures f.Valid() && SafeStack(f.nodes, list.matchers) && choice < |f.nodes| && f.nodes[choice].ChoiceMatcher?
    ensures var top, ms := f.BenchOf(list), f.nodes[choice].matchers;
            && top.HasTop() && top.Top() == ListMatcher([choice])
            && |ms| == 2 && IsKeyword(f.nodes, ms[0], "a") && IsKeyword(f.nodes, ms[1], "b")
  {
    hide SafeWorld, SafeStack, Passes, KindsKept, Holds, Grows, Represents, Opened, AddTree;
    f.PushList(list, "f", false, {}, []);
    choice := KeywordThenSlash(f, list, "a");
    ghost var _ := f.CompileKeyword("b", list, false, {}, []);
  }

  /** And those of `f`: the parameter's matcher, which is the choice itself, gets a third alternative. */
  method ArgumentIsExtended(f: MatcherFactory, list: MatcherList, argument: nat)
    requires f.Valid() && SafeStack(f.nodes, list.matchers) && f.keywordOverrides == map[]
    requires f.BenchOf(list).HasTop() && f.BenchOf(list).Top().ListMatcher?
    requires argument < |f.nodes| && f.nodes[argument].ChoiceMatcher?
    modifies f, list
    ensures |f.nodes| == |old(f.nodes)| + 1 && IsKeyword(f.nodes, |old(f.nodes)|, "c")
    ensures f.nodes[argument] == ChoiceMatcher(old(f.nodes)[argument].matchers + [|old(f.nodes)|])
  {
    hide SafeWorld, SafeStack, Passes, KindsKept, Holds, Grows, Represents, Opened, AddTree;
    ghost var _ := f.AddMatcher(list, argument, false, {}, [], ListTree([]));
    f.OpenChoice(list, argument, false, {}, []);
    ghost var _ := f.CompileKeyword("c", list, false, {}, []);
  }

  // ---------------------------------------------------------------- ')' after '/'

  /** A bracket closed right after '/', without any bracket being open. */
  const UNFINISHED := PEGParser(map["r" := PEGRule([], [LiteralToken("a"), OperatorToken('/'), OperatorToken(')')])], Same)

  /** The compiler accepts the rule, although it is poisoned and no body is written like that. */
  lemma UnfinishedIsAccepted()
    ensures Acyclic(UNFINISHED, NoRank)
    ensures RuleOk(UNFINISHED, NoRank, "r", 0, {"r"})
    ensures Translate(UNFINISHED, NoRank, "r", None) == Poisoned
    ensures forall body :: Print(body) != UNFINISHED.Rule("r").tokens
  {
    hide EndsClosed, Translate;
    UnfinishedShapes();
    UnfinishedIsPoisoned();
    forall body
      ensures Print(body) != UNFINISHED.Rule("r").tokens
    {
      if Print(body) == UNFINISHED.Rule("r").tokens {
        BracketIsOpened(body);
      }
    }
  }

  lemma UnfinishedShapes()
    ensures EndsClosed(UNFINISHED.Rule("r").tokens)
  {
    var r := UNFINISHED.Rule("r").tokens;
    var root, full, choice := Slot("", EmptyList), Slot("", FullList), Slot("", Choice);
    assert [root][..0] + [full] == [full];
    assert ShapeAfter(r, 1) == Some([full]);
    assert [full] + [choice] == [full, choice];
    assert ShapeAfter(r, 2) == Some([full, choice]);
    assert [full, choice][..1] == [full] && [full][..0] + [full] == [full];
    assert ShapeAfter(r, 3) == Some([full]);
  }

  lemma UnfinishedIsPoisoned()
    ensures Acyclic(UNFINISHED, NoRank) && Translate(UNFINISHED, NoRank, "r", None) == Poisoned
  {
    hide After, Translate, StepOperator;
    var a := KeywordTree("a");
    FirstIsKeyword(a);
    SlashOpens([], a, "");
    OpenIsPoisoned(a);
  }

  lemma FirstIsKeyword(a: PegTranslation.Tree)
    requires a == KeywordTree("a")
    ensures Acyclic(UNFINISHED, NoRank)
    ensures After(UNFINISHED, NoRank, "r", None, 1) == Going([] + [Frame([a], "", false)])
  {
    hide After, Translate, AddTree, StepOperator;
    var none := [Frame([], "", false)];
    FirstIs(UNFINISHED, NoRank, "r", None);
    assert none == [] + none && [] + [a] == [a];
    AddsItem([], [], "", a);
    NextIs(UNFINISHED, NoRank, "r", None, 0, none, Going([] + [Frame([a], "", false)]));
  }

  lemma OpenIsPoisoned(a: PegTranslation.Tree)
    requires Acyclic(UNFINISHED, NoRank) && ValidFrames([] + [Frame([a], "", false)])
    requires After(UNFINISHED, NoRank, "r", None, 1) == Going([] + [Frame([a], "", false)])
    requires StepOperator([] + [Frame([a], "", false)], '/') == Now(Going([] + [Frame([ChoiceTree([a])], "", true)]))
    ensures Translate(UNFINISHED, NoRank, "r", None) == Poisoned
  {
    hide After, Translate, AddTree;
    var open := [] + [Frame([ChoiceTree([a])], "", true)];
    NextIs(UNFINISHED, NoRank, "r", None, 1, [] + [Frame([a], "", false)], Going(open));
    NextIs(UNFINISHED, NoRank, "r", None, 2, open, Poison);
    EndIsPoison(UNFINISHED, NoRank, "r", None, 3);
  }

  /** A body that ends in a closing bracket has an opening one, or a function call. */
  lemma BracketIsOpened(body: seq<Element>)
    requires Print(body) != [] && Last(Print(body)) == OperatorToken(')')
    ensures OperatorToken('(') in Print(body) || exists t :: t in Print(body) && t.FunctionCallToken?
  {
    var e := Last(body);
    assert PrintElement(e) != [] ==> Last(Print(body)) == Last(PrintElement(e));
    match e
    case Item(p) => PrimaryIsOpened(p);
    case Alternative(n, p) => PrimaryIsOpened(p);
    case _ =>
  }

  lemma PrimaryIsOpened(p: Primary)
    requires Last(PrintPrimary(p)) == OperatorToken(')')
    ensures PrintPrimary(p)[0] == OperatorToken('(') || PrintPrimary(p)[0].FunctionCallToken?
  {
  }

  /** Its three tokens, one after the other: the rule's list holds the choice of `a` twice, and nothing is left open. */
  method UnfinishedIsCompiled(f: MatcherFactory, list: MatcherList) returns (choice: nat)
    requires f.Valid() && SafeStack(f.nodes, list.matchers) && f.keywordOverrides == map[]
    requires |list.matchers| == 1 && f.BenchOf(list).Top() == ListMatcher([])
    modifies f, list
    ensures list.matchers == old(list.matchers) && f.BenchOf(list).HasTop()
    ensures f.BenchOf(list).Top() == ListMatcher([choice, choice])
    ensures choice < |f.nodes| && f.nodes[choice].ChoiceMatcher? && |f.nodes[choice].matchers| == 1
            && IsKeyword(f.nodes, f.nodes[choice].matchers[0], "a")
  {
    hide SafeWorld, Passes, KindsKept, ListsRise, Holds, Grows, Represents, Opened, AddTree;
    choice := KeywordThenSlash(f, list, "a");
    ghost var _ := f.CloseList(list, false, {}, []);
  }

  /** The compiler as a whole: it returns a matcher for the rule. */
  method UnfinishedPasses() returns (r: Result<nat, CompileError>)
    ensures r.Ok?
  {
    var f := new MatcherFactory(Same, [], []);
    var c := Context(UNFINISHED, NoRank, {"r"});
    UnfinishedIsAccepted();
    assert "r" in {"r"} && c.Complete({}, {"r"});
    ghost var final;
    r, final := f.CompileGrammar(c, "r");
  }

  // ---------------------------------------------------------------- spellings

  /** A rule that refers to another one in two spellings, of which rule lookup makes one. */
  const SPELLINGS := map[
    "r" := PEGRule([], [ReferenceToken("a"), ReferenceToken("A")]),
    "a" := PEGRule([], [])
  ]

  function Lower(s: string): string {
    if s == "A" then "a" else s
  }

  function NoRank(s: string): nat {
    0
  }

  const GRAMMAR := Context(PEGParser(SPELLINGS, Lower), NoRank, {"r", "a", "A"})

  /** Compiling it gives that one rule two matchers. */
  method SpellingsAreTwoMatchers() returns (f: MatcherFactory, r: Result<nat, CompileError>)
    ensures GRAMMAR.p.Rule("a") == GRAMMAR.p.Rule("A")
    ensures r.Ok? && "a" in f.matchers && "A" in f.matchers && f.matchers["a"] != f.matchers["A"]
  {
    f := new MatcherFactory(Lower, [], []);
    GrammarIsSound();
    ghost var final;
    r, final := f.CompileGrammar(GRAMMAR, "r");
    BothAreCached(f.WorldWith(final));
  }

  lemma GrammarIsSound()
    ensures GRAMMAR.Valid() && GRAMMAR.NoPoison() && GRAMMAR.Sound({}) && GRAMMAR.Good("r", {})
    ensures Translate(GRAMMAR.p, NoRank, "r", None) == Items([RuleTree("a"), RuleTree("A")])
  {
    hide Translate;
    forall n | n in GRAMMAR.names
      ensures Translate(GRAMMAR.p, NoRank, n, None) != Poisoned
    {
      WholesomeIsNotPoisoned(GRAMMAR.p, NoRank, GRAMMAR.names, n, None);
    }
    EmptyRule("a");
    EmptyRule("A");
    RuleOfTwo();
  }

  lemma EmptyRule(n: string)
    requires n == "a" || n == "A"
    ensures Acyclic(GRAMMAR.p, NoRank) && Translate(GRAMMAR.p, NoRank, n, None) == Items([])
  {
    assert After(GRAMMAR.p, NoRank, n, None, 0) == Going([Frame([], "", false)]);
  }

  lemma RuleOfTwo()
    ensures Acyclic(GRAMMAR.p, NoRank)
    ensures Translate(GRAMMAR.p, NoRank, "r", None) == Items([RuleTree("a"), RuleTree("A")])
  {
    var p := GRAMMAR.p;
    var rule := p.Rule("r");
    var none, one, two := [Frame([], "", false)], [Frame([RuleTree("a")], "", false)], [Frame([RuleTree("a"), RuleTree("A")], "", false)];
    assert After(p, NoRank, "r", None, 0) == Going(none);
    assert [] + [RuleTree("a")] == [RuleTree("a")];
    assert AddTree(none, RuleTree("a")) == one;
    assert After(p, NoRank, "r", None, 1) == Going(one);
    assert [RuleTree("a")] + [RuleTree("A")] == [RuleTree("a"), RuleTree("A")];
    assert AddTree(one, RuleTree("A")) == two;
    assert After(p, NoRank, "r", None, 2) == Going(two);
  }

  lemma BothAreCached(w: World)
    requires Acyclic(GRAMMAR.p, NoRank) && "r" in w.cache && GRAMMAR.Compiled(w, "r")
    requires Translate(GRAMMAR.p, NoRank, "r", None) == Items([RuleTree("a"), RuleTree("A")])
    ensures "a" in w.cache && "A" in w.cache
  {
    var items := [RuleTree("a"), RuleTree("A")];
    var ids := w.nodes[w.cache["r"]].matchers;
    assert RepresentsAll(w, ids, items);
    assert Represents(w, ids[0], items[0]) && Represents(w, ids[1], items[1]);
  }
}
