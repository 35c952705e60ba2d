/**
 The PEG compiler (extension/autocomplete/matcher.cpp, `MatcherFactory` and `MatcherList`).

 A rule's tokens drive a stack of open lists and choices; matchers are allocated, put into the
 open ones in place, and shared between all references to a rule.
 */
module PegCompiler {
  import opened Wrappers
  import opened Sequences
  import opened MatcherGraph
  import opened PegTranslation
  import opened PegShapes
  import opened PegAcceptance

  datatype CompileError =
    | RuleIsMissing
    | TooManyParameters
    | ParameterCountMismatch
    | ExpectedAList
    | OperatorBeforeItem
    | TooManyCloseBrackets
    | UnclosedBracket
    | RegexNotSupported
    | UnrecognizedOperator

  /** The grammar, a rank of its parameterised rules, and names that include all that their own rules use. */
  datatype Context = Context(p: PEGParser, rank: string -> nat, names: set<string>) {
    ghost predicate Valid() {
      Acyclic(p, rank) && forall n, t | n in names && p.HasRule(n) && t in p.Rule(n).tokens :: UsesOnlyNames(p.Rule(n), t)
    }

    /** The rule that the token refers to, or calls, is one of the names. */
    predicate UsesOnlyNames(rule: PEGRule, t: PEGToken) {
      match t
      case ReferenceToken(text) => text in rule.parameters || text in names
      case FunctionCallToken(text) => text in names
      case _ => true
    }

    /** No rule of these names makes the compiler leave the trees behind. */
    ghost predicate NoPoison()
      requires Acyclic(p, rank)
    {
      forall n | n in names :: Translate(p, rank, n, None) != Poisoned
    }

    /** The rule can be compiled on its own, or has been given from outside. */
    ghost predicate Good(n: string, given: set<string>)
      requires Acyclic(p, rank)
    {
      n in given || Translate(p, rank, n, None).Items?
    }

    /** Every reference of these rules is a parameter, or a rule that can be compiled. */
    ghost predicate Sound(given: set<string>)
      requires Acyclic(p, rank)
    {
      forall n, t | n in names && p.HasRule(n) && t in p.Rule(n).tokens && t.ReferenceToken?
                    && t.text !in p.Rule(n).parameters ::
        Good(t.text, given)
    }

    /** All rules of `all` that are not given can be compiled with the help of each other. */
    ghost predicate Complete(given: set<string>, all: set<string>)
      requires Acyclic(p, rank)
    {
      given <= all && forall n | n in all && n !in given :: RuleOk(p, rank, n, 0, all)
    }

    /** The cached matcher of a rule represents the rule. */
    ghost predicate Compiled(w: World, n: string)
      requires Acyclic(p, rank)
    {
      var t := Translate(p, rank, n, None);
      t.Items? && n in w.cache && Represents(w, w.cache[n], ListTree(t.items))
    }

    /** The rules cached since `before` represent their rules. */
    ghost predicate NewlyCompiled(before: map<string, nat>, w: World)
      requires Acyclic(p, rank)
    {
      forall n | n in w.cache && n !in before :: Compiled(w, n)
    }
  }

  /** Cached rules stay cached, and only names of the grammar are added. */
  ghost predicate CacheGrows(before: map<string, nat>, after: map<string, nat>, names: set<string>) {
    && before.Keys <= after.Keys <= before.Keys + names
    && forall n | n in before :: after[n] == before[n]
  }

  /** The names that have no matcher yet: what makes compiling recursive rules terminate. */
  ghost function Uncached(names: set<string>, cache: map<string, nat>): set<string> {
    names - cache.Keys
  }

  lemma UncachedShrinks(names: set<string>, before: map<string, nat>, after: map<string, nat>)
    requires CacheGrows(before, after, names)
    ensures Uncached(names, after) <= Uncached(names, before)
  {
  }

  /** One rule being compiled: its name, its argument, the rules given from outside, and rules that are hoped to do. */
  datatype Job = Job(c: Context, name: string, argument: Option<Tree>, given: set<string>, all: set<string>) {
    ghost predicate Valid() {
      c.Valid() && name in c.names && Callable(c.p, name, Arity(argument))
    }

    /** The rule can be compiled, and so can all that it uses. */
    ghost predicate MayPass()
      requires Valid()
    {
      c.Complete(given, all) && RuleOk(c.p, c.rank, name, Arity(argument), all)
    }

    function Rule(): PEGRule
      requires Callable(c.p, name, Arity(argument))
    {
      c.p.Rule(name)
    }

    ghost function At(i: nat): Machine
      requires Valid() && i <= |Rule().tokens|
    {
      After(c.p, c.rank, name, argument, i)
    }

    /**
     What the first `i` tokens have led to, in terms of shapes: lists below the rule's own are as they
     were, new rules can be compiled, and so can what these tokens use.
     */
    ghost predicate Done(a: Bench, b: Bench, before: set<string>, known: set<string>, i: nat)
      requires Valid() && i <= |Rule().tokens|
    {
      && ShapeAfter(Rule().tokens, i).Some? && a.stack != [] && b.stack != [] && b.stack[0] == a.stack[0]
      && Reshapes(a, b, ShapeAfter(Rule().tokens, i).value)
      && NewRulesOk(c.p, c.rank, before, known)
      && UsedOk(c.p, c.rank, name, Arity(argument), i, ShapeAfter(Rule().tokens, i).value, known)
    }

    lemma NothingDone(a: Bench, known: set<string>)
      requires Valid() && HasShape(a, [Slot("", EmptyList)])
      ensures Done(a, a, known, known, 0)
    {
    }

    lemma DoneNext(a: Bench, b: Bench, d: Bench, before: set<string>, known: set<string>, later: set<string>, i: nat)
      requires Valid() && i < |Rule().tokens| && Done(a, b, before, known, i)
      requires Passes(b, d, Rule().tokens[i]) && NewRulesOk(c.p, c.rank, known, later) && d.stack != [] && d.stack[0] == b.stack[0]
      requires TokenOk(c.p, c.rank, Rule(), Rule().tokens[i], Last(b.stack).functionName, later)
      ensures Done(a, d, before, later, i + 1)
    {
      hide Passes, Reshapes, UsedOk, TokenOk, NewRulesOk, ListsKept;
      var s := ShapeAfter(Rule().tokens, i).value;
      PassesTo(a, b, d, s, Rule().tokens[i]);
      NewRulesCompose(c.p, c.rank, before, known, later);
      NewRulesGrow(c.p, c.rank, known, later);
      ChoicesCallNothing(b, s);
      UsedNext(c.p, c.rank, name, Arity(argument), i, s, known, later);
    }

    /** Where the machine of shapes stops, the rule cannot be compiled. */
    lemma StopsHere(a: Bench, b: Bench, before: set<string>, known: set<string>, i: nat)
      requires Valid() && i < |Rule().tokens| && Done(a, b, before, known, i)
      requires Stops(b, Rule().tokens[i]) || !MayPass()
      ensures !MayPass()
    {
      if Stops(b, Rule().tokens[i]) {
        assert ShapeAfter(Rule().tokens, i + 1) == None;
        NothingAfterNone(Rule().tokens, i + 1, |Rule().tokens|);
      }
    }

    /** A stack of more than the rule's own list at the end means that the rule cannot be compiled. */
    lemma LeftOpen(a: Bench, b: Bench, before: set<string>, known: set<string>)
      requires Valid() && Done(a, b, before, known, |Rule().tokens|) && |b.stack| != 1
      ensures !MayPass()
    {
    }

    lemma AllDone(a: Bench, b: Bench, before: set<string>, known: set<string>)
      requires Valid() && Done(a, b, before, known, |Rule().tokens|) && |b.stack| == 1
      ensures RuleOk(c.p, c.rank, name, Arity(argument), known) && NewRulesOk(c.p, c.rank, before, known)
      ensures a.stack != [] && ListsKept(a.nodes, b.nodes, a.stack[0].matcher)
    {
      UsedAll(c.p, c.rank, name, Arity(argument), known);
    }

    /** Termination: inside a plain rule one name less is left to cache; functions are ranked. */
    ghost function Level(): (nat, nat) {
      if argument == None then (2, 0) else (1, c.rank(c.p.fold(name)))
    }
  }

  lemma CompiledLater(c: Context, before: map<string, nat>, w: World, v: World)
    requires Acyclic(c.p, c.rank) && Extends(w, v)
    requires c.NewlyCompiled(before, w) && c.NewlyCompiled(w.cache, v)
    ensures c.NewlyCompiled(before, v)
  {
    forall n | n in v.cache && n !in before
      ensures c.Compiled(v, n)
    {
      if n in w.cache {
        assert c.Compiled(w, n);
        RepresentsLater(w, v, w.cache[n], ListTree(Translate(c.p, c.rank, n, None).items));
      }
    }
  }

  /** A rule that a terminal matcher stands for. */
  datatype Terminal = Terminal(name: string, kind: LeafKind)

  function Folded(fold: string -> string, keywords: seq<string>): seq<string> {
    seq(|keywords|, i requires 0 <= i < |keywords| => fold(keywords[i]))
  }

  function KeywordMatchers(keywords: seq<string>): seq<Node> {
    seq(|keywords|, i requires 0 <= i < |keywords| => KeywordMatcher(keywords[i]))
  }

  function Names(terminals: seq<Terminal>): seq<string> {
    seq(|terminals|, i requires 0 <= i < |terminals| => terminals[i].name)
  }

  function LeafMatchers(terminals: seq<Terminal>): seq<Node> {
    seq(|terminals|, i requires 0 <= i < |terminals| => LeafMatcher(terminals[i].kind))
  }

  /** The first keyword of each folding has the matcher of just that keyword. */
  lemma OverridesAreSpellings(fold: string -> string, keywords: seq<string>, key: string)
    requires key in FirstPlaces(Folded(fold, keywords), 0)
    ensures var id := FirstPlaces(Folded(fold, keywords), 0)[key];
            id < |keywords| && IsSpellingOf(fold, KeywordMatchers(keywords)[id], key)
  {
    FirstPlacesAre(Folded(fold, keywords), 0, key);
  }

  /** The stack of open matchers while one rule is compiled. */
  class MatcherList {
    var matchers: seq<MatcherListEntry>

    constructor (root: nat)
      ensures matchers == [MatcherListEntry(root, "")]
    {
      matchers := [MatcherListEntry(root, "")];
    }
  }

  class MatcherFactory {
    var nodes: seq<Node>
    var matchers: map<string, nat>
    const keywordOverrides: map<string, nat>
    const fold: string -> string

    ghost function WorldWith(final: set<nat>): World
      reads this
    {
      World(nodes, matchers, keywordOverrides, fold, final)
    }

    ghost function BenchOf(list: MatcherList): Bench
      reads this, list
    {
      Bench(nodes, list.matchers)
    }

    /** Matchers are well formed, and no two rules share a matcher. */
    ghost predicate Valid()
      reads this
    {
      && SafeWorld(WorldWith({}))
      && forall a, b | a in matchers && b in matchers && a != b :: matchers[a] != matchers[b]
    }

    /** A factory with the keyword overrides and the rules that a terminal matcher stands for; the first of a name counts. */
    constructor (fold: string -> string, keywords: seq<string>, terminals: seq<Terminal>)
      ensures Valid() && this.fold == fold
      ensures nodes == KeywordMatchers(keywords) + LeafMatchers(terminals)
      ensures keywordOverrides == FirstPlaces(Folded(fold, keywords), 0)
      ensures matchers == FirstPlaces(Names(terminals), |keywords|)
    {
      var ns, overrides := AllocateKeywords(fold, keywords);
      var all, cache := AllocateTerminals(ns, terminals);
      FirstIsSafe(fold, keywords, terminals);
      this.fold := fold;
      keywordOverrides := overrides;
      nodes, matchers := all, cache;
    }

    static method AllocateKeywords(fold: string -> string, keywords: seq<string>) returns (ns: seq<Node>, overrides: map<string, nat>)
      ensures ns == KeywordMatchers(keywords) && overrides == FirstPlaces(Folded(fold, keywords), 0)
    {
      ns, overrides := [], map[];
      assert KeywordMatchers([]) == [] && Folded(fold, []) == [] && keywords[..0] == [];
      for i := 0 to |keywords|
        invariant ns == KeywordMatchers(keywords[..i]) && overrides == FirstPlaces(Folded(fold, keywords[..i]), 0)
      {
        assert keywords[..i + 1] == keywords[..i] + [keywords[i]];
        assert Folded(fold, keywords[..i + 1]) == Folded(fold, keywords[..i]) + [fold(keywords[i])];
        FirstPlacesPush(Folded(fold, keywords[..i]), 0, fold(keywords[i]));
        ns := ns + [KeywordMatcher(keywords[i])];
        if fold(keywords[i]) !in overrides {
          overrides := overrides[fold(keywords[i]) := |ns| - 1];
        }
      }
      assert keywords[..|keywords|] == keywords;
    }

    static method AllocateTerminals(ns: seq<Node>, terminals: seq<Terminal>) returns (all: seq<Node>, cache: map<string, nat>)
      ensures all == ns + LeafMatchers(terminals) && cache == FirstPlaces(Names(terminals), |ns|)
    {
      all, cache := ns, map[];
      assert LeafMatchers([]) == [] && Names([]) == [] && terminals[..0] == [];
      for i := 0 to |terminals|
        invariant all == ns + LeafMatchers(terminals[..i]) && cache == FirstPlaces(Names(terminals[..i]), |ns|)
      {
        assert terminals[..i + 1] == terminals[..i] + [terminals[i]];
        assert Names(terminals[..i + 1]) == Names(terminals[..i]) + [terminals[i].name];
        FirstPlacesPush(Names(terminals[..i]), |ns|, terminals[i].name);
        all := all + [LeafMatcher(terminals[i].kind)];
        if terminals[i].name !in cache {
          cache := cache[terminals[i].name := |all| - 1];
        }
      }
      assert terminals[..|terminals|] == terminals;
    }

    static lemma FirstIsSafe(fold: string -> string, keywords: seq<string>, terminals: seq<Terminal>)
      ensures var nodes := KeywordMatchers(keywords) + LeafMatchers(terminals);
              var overrides, cache := FirstPlaces(Folded(fold, keywords), 0), FirstPlaces(Names(terminals), |keywords|);
              SafeWorld(World(nodes, cache, overrides, fold, {}))
              && forall a, b | a in cache && b in cache && a != b :: cache[a] != cache[b]
    {
      hide FirstPlaces, IsSpellingOf;
      var overrides, cache := FirstPlaces(Folded(fold, keywords), 0), FirstPlaces(Names(terminals), |keywords|);
      forall key | key in overrides
        ensures overrides[key] < |keywords| && IsSpellingOf(fold, KeywordMatchers(keywords)[overrides[key]], key)
      {
        OverridesAreSpellings(fold, keywords, key);
      }
      forall name | name in cache
        ensures |keywords| <= cache[name] < |keywords| + |terminals|
      {
        FirstPlacesAre(Names(terminals), |keywords|, name);
      }
      PlacesDiffer(Names(terminals), |keywords|);
      hide Folded, Names;
    }

    method Allocate(n: Node) returns (id: nat)
      requires Valid() && n.RefersBelow(|nodes|)
      modifies this`nodes
      ensures Valid() && id == |old(nodes)| && nodes == old(nodes) + [n]
    {
      id := |nodes|;
      nodes := nodes + [n];
    }

    /** Overwrites a list or a choice in place. */
    method Set(id: nat, n: Node)
      requires Valid() && id < |nodes| && n.RefersBelow(|nodes|)
      requires (nodes[id].ListMatcher? && n.ListMatcher?) || (nodes[id].ChoiceMatcher? && n.ChoiceMatcher?)
      modifies this`nodes
      ensures Valid() && nodes == old(nodes)[id := n] && KindsKept(old(nodes), nodes)
    {
      nodes := nodes[id := n];
    }

    // ---------------------------------------------------------------- AddMatcher

    /** The exceptions of `AddMatcher` cannot be thrown: the top of the stack is a list, or a choice above one. */
    method AddMatcher(list: MatcherList, id: nat, ghost clean: bool, ghost final: set<nat>, ghost frames: seq<Frame>, ghost t: Tree)
      returns (ghost final': set<nat>)
      requires Valid() && SafeStack(nodes, list.matchers) && id < |nodes|
      requires clean ==> Holds(WorldWith(final), list.matchers, frames)
      requires clean ==> Represents(WorldWith(final), id, t) && !t.ChoiceTree?
      modifies this`nodes, list
      ensures Valid() && SafeStack(nodes, list.matchers) && KindsKept(old(nodes), nodes)
      ensures list.matchers[0] == old(list.matchers)[0] && Callees(list.matchers) <= Callees(old(list.matchers)) + {""}
      ensures clean ==> Holds(WorldWith(final'), list.matchers, AddTree(frames, t))
      ensures clean ==> Grows(old(WorldWith(final)), WorldWith(final'), list.matchers[0].matcher)
      ensures Adds(old(BenchOf(list)), BenchOf(list), id)
    {
      hide StackIs, FrameIs, Represents, Extends, ListsRise, AddTree;
      final' := final;
      if clean {
        final' := MatcherAdded(WorldWith(final), list.matchers, frames, id, t);
      }
      AppendedInPlace(nodes, list.matchers, id);
      var top := list.matchers[|list.matchers| - 1].matcher;
      var onChoice := nodes[top].ChoiceMatcher?;
      Set(top, WithMatcher(nodes[top], id));
      list.matchers := StackAfterAdding(list.matchers, onChoice);
    }

    // ---------------------------------------------------------------- operators

    /** The top of the stack must be a list that has an item: '?', '*', '+' and '/' apply to its last one. */
    method LastItemOfTop(list: MatcherList, ghost clean: bool, ghost final: set<nat>, ghost frames: seq<Frame>)
      returns (r: Result<nat, CompileError>)
      requires Valid() && SafeStack(nodes, list.matchers)
      requires clean ==> Holds(WorldWith(final), list.matchers, frames)
      ensures r.Ok? ==> nodes[Last(list.matchers).matcher].ListMatcher? && nodes[Last(list.matchers).matcher].matchers != []
                        && r.value == Last(nodes[Last(list.matchers).matcher].matchers) < |nodes|
      ensures r.Err? ==> nodes[Last(list.matchers).matcher].ChoiceMatcher? || nodes[Last(list.matchers).matcher].matchers == []
      ensures clean ==> (r.Ok? <==> !Top(frames).pending && Top(frames).items != [])
    {
      if clean {
        TopKind(WorldWith(final), list.matchers, frames);
      }
      var top := Last(list.matchers).matcher;
      if !nodes[top].ListMatcher? {
        return Err(ExpectedAList);
      }
      if nodes[top].matchers == [] {
        return Err(OperatorBeforeItem);
      }
      assert nodes[top].RefersBelow(|nodes|);
      r := Ok(Last(nodes[top].matchers));
    }

    /** Replaces the last item of the top list by an optional or a repeat of it. */
    method WrapLast(list: MatcherList, repeat: bool, ghost clean: bool, ghost final: set<nat>, ghost frames: seq<Frame>)
      returns (ghost final': set<nat>)
      requires Valid() && SafeStack(nodes, list.matchers)
      requires nodes[Last(list.matchers).matcher].ListMatcher? && nodes[Last(list.matchers).matcher].matchers != []
      requires clean ==> Holds(WorldWith(final), list.matchers, frames) && !Top(frames).pending && Top(frames).items != []
      modifies this`nodes
      ensures Valid() && SafeStack(nodes, list.matchers) && KindsKept(old(nodes), nodes)
      ensures Wraps(old(BenchOf(list)), BenchOf(list), repeat)
      ensures clean ==> Grows(old(WorldWith(final)), WorldWith(final'), list.matchers[0].matcher)
      ensures clean ==> Holds(WorldWith(final'), list.matchers, Wrapped(frames, repeat))
    {
      hide StackIs, FrameIs, Represents, Extends, SafeStack;
      final' := final;
      if clean {
        final' := LastWrapped(WorldWith(final), list.matchers, frames, repeat);
      }
      SafeTop(nodes, list.matchers);
      var top := Last(list.matchers).matcher;
      var ms := nodes[top].matchers;
      assert nodes[top].RefersBelow(|nodes|);
      ghost var before := nodes;
      var id := Allocate(Wrapper(Last(ms), repeat));
      SafeStackKept(before, nodes, list.matchers);
      Set(top, ListMatcher(ReplaceLast(ms, id)));
      SafeStackKept(before, nodes, list.matchers);
    }

    /** '/' makes a choice of the last item, or reopens it if it is one, and pushes the choice. */
    method OpenChoice(list: MatcherList, last: nat, ghost clean: bool, ghost final: set<nat>, ghost frames: seq<Frame>)
      requires Valid() && SafeStack(nodes, list.matchers)
      requires nodes[Last(list.matchers).matcher].ListMatcher? && nodes[Last(list.matchers).matcher].matchers != []
      requires last == Last(nodes[Last(list.matchers).matcher].matchers) < |nodes|
      requires clean ==> Holds(WorldWith(final), list.matchers, frames) && !Top(frames).pending && Top(frames).items != []
      requires clean ==> !(Last(Top(frames).items).SharedTree? && Last(Top(frames).items).Head().ChoiceTree?)
      modifies this`nodes, list
      ensures Valid() && SafeStack(nodes, list.matchers) && KindsKept(old(nodes), nodes)
      ensures list.matchers[0] == old(list.matchers)[0] && Callees(list.matchers) <= Callees(old(list.matchers)) + {""}
      ensures clean ==> Grows(old(WorldWith(final)), WorldWith(final), list.matchers[0].matcher)
      ensures clean ==> Holds(WorldWith(final), list.matchers, Opened(frames))
      ensures Opens(old(BenchOf(list)), BenchOf(list))
    {
      hide IsSpellingOf, Opened, StackIs, FrameIs, Represents, RepresentsAll;
      ghost var w := WorldWith(final);
      if clean {
        LastItemKind(w, list.matchers, frames);
      }
      if nodes[last].ChoiceMatcher? {
        if clean {
          TopKind(w, list.matchers, frames);
          ChoiceReopened(w, list.matchers, frames);
        }
        SafePush(nodes, list.matchers, MatcherListEntry(last, ""));
        list.matchers := list.matchers + [MatcherListEntry(last, "")];
      } else {
        if clean {
          assert !Last(Top(frames).items).ChoiceTree?;
        }
        NewChoice(list, last, clean, final, frames);
      }
    }

    /** Puts a new choice in the place of the last item, and pushes it. */
    method NewChoice(list: MatcherList, last: nat, ghost clean: bool, ghost final: set<nat>, ghost frames: seq<Frame>)
      requires Valid() && SafeStack(nodes, list.matchers)
      requires nodes[Last(list.matchers).matcher].ListMatcher? && nodes[Last(list.matchers).matcher].matchers != []
      requires last == Last(nodes[Last(list.matchers).matcher].matchers) < |nodes|
      requires clean ==> Holds(WorldWith(final), list.matchers, frames) && !Top(frames).pending && Top(frames).items != []
      requires clean ==> !Last(Top(frames).items).ChoiceTree?
      modifies this`nodes, list
      ensures Valid() && SafeStack(nodes, list.matchers) && KindsKept(old(nodes), nodes)
      ensures list.matchers[0] == old(list.matchers)[0] && Callees(list.matchers) <= Callees(old(list.matchers)) + {""}
      ensures clean ==> Grows(old(WorldWith(final)), WorldWith(final), list.matchers[0].matcher)
      ensures clean ==> Holds(WorldWith(final), list.matchers, Opened(frames))
      ensures OpensNew(old(BenchOf(list)), BenchOf(list))
    {
      hide StackIs, FrameIs, Represents, Extends, SafeStack;
      ghost var w := WorldWith(final);
      if clean {
        ChoiceOpened(w, list.matchers, frames);
        OpeningGrows(w, list.matchers, frames);
      }
      SafeTop(nodes, list.matchers);
      var top := Last(list.matchers).matcher;
      var ms := nodes[top].matchers;
      assert nodes[top].RefersBelow(|nodes|);
      var id := Allocate(ChoiceMatcher([last]));
      Set(top, ListMatcher(ReplaceLast(ms, id)));
      SafeStackKept(w.nodes, nodes, list.matchers);
      SafePush(nodes, list.matchers, MatcherListEntry(id, ""));
      list.matchers := list.matchers + [MatcherListEntry(id, "")];
    }

    /** An open bracket, or the start of a function's arguments: a new list is pushed. */
    method PushList(list: MatcherList, functionName: string, ghost clean: bool, ghost final: set<nat>, ghost frames: seq<Frame>)
      requires Valid() && SafeStack(nodes, list.matchers)
      requires clean ==> Holds(WorldWith(final), list.matchers, frames)
      modifies this`nodes, list
      ensures Valid() && SafeStack(nodes, list.matchers) && KindsKept(old(nodes), nodes)
      ensures list.matchers[0] == old(list.matchers)[0] && Callees(list.matchers) <= Callees(old(list.matchers)) + {functionName}
      ensures clean ==> Grows(old(WorldWith(final)), WorldWith(final), list.matchers[0].matcher)
      ensures clean ==> Holds(WorldWith(final), list.matchers, frames + [Frame([], functionName, false)])
      ensures Pushes(old(BenchOf(list)), BenchOf(list), functionName)
    {
      hide SafeStack;
      ghost var w := WorldWith(final);
      if clean {
        FramePushed(w, list.matchers, frames, functionName);
        TopKind(w, list.matchers, frames);
      }
      var id := Allocate(ListMatcher([]));
      SafeStackKept(w.nodes, nodes, list.matchers);
      SafeIsAllocated(w.nodes, list.matchers);
      SafePush(nodes, list.matchers, MatcherListEntry(id, functionName));
      list.matchers := list.matchers + [MatcherListEntry(id, functionName)];
    }

    /** All operators but the close bracket. */
    method ApplyOperator(list: MatcherList, op: char, ghost clean: bool, ghost final: set<nat>, ghost frames: seq<Frame>)
      returns (r: Result<(), CompileError>, ghost final': set<nat>, ghost frames': seq<Frame>)
      requires Valid() && SafeStack(nodes, list.matchers) && op != ')'
      requires clean ==> Holds(WorldWith(final), list.matchers, frames) && StepOperator(frames, op) != Now(Poison)
      modifies this`nodes, list
      ensures Valid() && SafeStack(nodes, list.matchers) && KindsKept(old(nodes), nodes)
      ensures list.matchers[0] == old(list.matchers)[0] && Callees(list.matchers) <= Callees(old(list.matchers)) + {""}
      ensures clean ==> StepOperator(frames, op) == Now(if r.Ok? then Going(frames') else Stuck)
      ensures clean && r.Ok? ==> Grows(old(WorldWith(final)), WorldWith(final'), list.matchers[0].matcher)
      ensures clean && r.Ok? ==> Holds(WorldWith(final'), list.matchers, frames')
      ensures if r.Ok? then Passes(old(BenchOf(list)), BenchOf(list), OperatorToken(op)) else Stops(old(BenchOf(list)), OperatorToken(op))
    {
      hide Passes, Stops, Opens, Pushes, Bench.HasItem;
      final', frames' := final, frames;
      ghost var bench := BenchOf(list);
      if op == '?' || op == '*' || op == '+' || op == '/' {
        var last := LastItemOfTop(list, clean, final, frames);
        if last.Err? {
          SafeTop(nodes, list.matchers);
          NoItemStops(bench, op);
          return Err(last.error), final', frames';
        }
        r := Ok(());
        if op == '/' {
          OpenChoice(list, last.value, clean, final, frames);
          OpensPasses(bench, BenchOf(list));
          if clean {
            frames' := Opened(frames);
          }
        } else {
          final', frames' := ApplyPostfix(list, op, clean, final, frames);
        }
      } else if op == '(' {
        PushList(list, "", clean, final, frames);
        PushesPasses(bench, BenchOf(list), "");
        frames' := frames + [Frame([], "", false)];
        r := Ok(());
      } else if op == '!' {
        if clean {
          TopKind(WorldWith(final), list.matchers, frames);
        }
        NotPasses(bench);
        r := Ok(());
      } else {
        UnknownStops(bench, OperatorToken(op));
        r := Err(UnrecognizedOperator);
      }
    }

    /** '*' makes the last item an optional repeat, '+' a repeat, and '?' an optional. */
    method ApplyPostfix(list: MatcherList, op: char, ghost clean: bool, ghost final: set<nat>, ghost frames: seq<Frame>)
      returns (ghost final': set<nat>, ghost frames': seq<Frame>)
      requires Valid() && SafeStack(nodes, list.matchers) && (op == '?' || op == '*' || op == '+')
      requires nodes[Last(list.matchers).matcher].ListMatcher? && nodes[Last(list.matchers).matcher].matchers != []
      requires clean ==> Holds(WorldWith(final), list.matchers, frames) && !Top(frames).pending && Top(frames).items != []
      modifies this`nodes
      ensures Valid() && SafeStack(nodes, list.matchers) && KindsKept(old(nodes), nodes)
      ensures clean ==> frames' == WithTop(frames, Frame(ReplaceLast(Top(frames).items, Operand(Last(Top(frames).items), op)), Top(frames).callee, false))
      ensures clean ==> Grows(old(WorldWith(final)), WorldWith(final'), list.matchers[0].matcher)
      ensures clean ==> Holds(WorldWith(final'), list.matchers, frames')
      ensures Passes(old(BenchOf(list)), BenchOf(list), OperatorToken(op))
    {
      final', frames' := final, frames;
      ghost var u, bench := WorldWith(final), BenchOf(list);
      if op == '*' || op == '+' {
        final' := WrapLast(list, true, clean, final, frames);
        if clean {
          frames' := Wrapped(frames, true);
        }
      }
      ghost var w, between := WorldWith(final'), BenchOf(list);
      if op != '?' {
        WrapsPasses(bench, between, true);
      }
      if op == '*' || op == '?' {
        final' := WrapLast(list, false, clean, final', frames');
        if clean {
          if op == '*' {
            GrowsOn(u, w, WorldWith(final'), list.matchers[0].matcher, list.matchers[0].matcher);
          }
          frames' := Wrapped(frames', false);
        }
        if op == '*' {
          WrapsTwicePasses(bench, between, BenchOf(list), true, false);
        } else {
          WrapsPasses(bench, BenchOf(list), false);
        }
      }
    }

    // ---------------------------------------------------------------- rules

    /** Closing the top bracket poisons nothing, and neither does the function that it calls. */
    ghost predicate MayClose(c: Context, frames: seq<Frame>)
      requires ValidFrames(frames) && Acyclic(c.p, c.rank)
    {
      match StepOperator(frames, ')')
      case Now(m) => m != Poison
      case Call(f, a, _) => Translate(c.p, c.rank, f, Some(a)) != Poisoned
    }

    /** What closing the top bracket makes of the frames. */
    ghost predicate Closes(c: Context, given: set<string>, frames: seq<Frame>, ok: bool, frames': seq<Frame>)
      requires ValidFrames(frames) && Acyclic(c.p, c.rank)
    {
      match StepOperator(frames, ')')
      case Now(m) => m == if ok then Going(frames') else Stuck
      case Call(f, a, below) =>
        var t := Translate(c.p, c.rank, f, Some(a));
        && (ok ==> t.Items? && ValidFrames(below) && frames' == AddTree(below, ListTree(t.items)))
        && (c.Sound(given) && t.Items? ==> ok)
    }

    /** ')' closes the top list: a bracket becomes an item, and so does the call of a function. */
    method CloseBracket(c: Context, list: MatcherList, ghost j: Job, ghost clean: bool, ghost final: set<nat>, ghost frames: seq<Frame>)
      returns (r: Result<(), CompileError>, ghost final': set<nat>, ghost frames': seq<Frame>)
      requires Valid() && SafeStack(nodes, list.matchers) && j.Valid() && j.c == c && fold == c.p.fold
      requires forall f | f in Callees(list.matchers) :: f == "" || FunctionCallToken(f) in j.Rule().tokens
      requires j.given <= matchers.Keys
      requires clean ==> c.NoPoison() && Holds(WorldWith(final), list.matchers, frames)
      requires clean ==> MayClose(c, frames)
      modifies this, list
      ensures Valid() && SafeStack(nodes, list.matchers) && KindsKept(old(nodes), nodes)
      ensures CacheGrows(old(matchers), matchers, c.names)
      ensures list.matchers[0] == old(list.matchers)[0] && Callees(list.matchers) <= Callees(old(list.matchers)) + {""}
      ensures clean && r.Ok? ==> Grows(old(WorldWith(final)), WorldWith(final'), list.matchers[0].matcher)
      ensures clean && r.Ok? ==> c.NewlyCompiled(old(matchers), WorldWith(final'))
      ensures clean && r.Ok? ==> Holds(WorldWith(final'), list.matchers, frames')
      ensures clean ==> Closes(c, j.given, frames, r.Ok?, frames')
      ensures r.Ok? ==> Passes(old(BenchOf(list)), BenchOf(list), OperatorToken(')'))
      ensures r.Ok? ==> NewRulesOk(c.p, c.rank, old(matchers).Keys, matchers.Keys)
      ensures r.Ok? ==> TokenOk(c.p, c.rank, j.Rule(), OperatorToken(')'), Last(old(list.matchers)).functionName, matchers.Keys)
      ensures r.Err? ==> Stops(old(BenchOf(list)), OperatorToken(')')) || !j.MayPass()
      decreases Uncached(c.names, matchers), j.Level().0, j.Level().1, 2
    {
      hide StackIs, FrameIs, Represents, Extends, WithMatcher, StackAfterAdding, Translate, After;
      final', frames' := final, frames;
      ghost var bench := BenchOf(list);
      if clean {
        RootCount(WorldWith(final), list.matchers, frames);
      }
      if |list.matchers| <= 1 {
        BottomStops(bench);
        return Err(TooManyCloseBrackets), final', frames';
      }
      if Last(list.matchers).functionName == "" {
        if clean {
          TopFrame(WorldWith(final), list.matchers, frames);
          frames' := AddTree(frames[..|frames| - 1], ListTree(Top(frames).items));
        }
        final' := CloseList(list, clean, final, frames);
        PopsIntoPasses(bench, BenchOf(list));
        r := Ok(());
      } else {
        assert Last(list.matchers).functionName in Callees(list.matchers);
        if clean {
          TopFrame(WorldWith(final), list.matchers, frames);
        }
        r, final', frames' := CloseCall(c, list, j, clean, final, frames);
      }
    }

    /** The closed list becomes an item of the list, or an alternative of the choice, below it. */
    method CloseList(list: MatcherList, ghost clean: bool, ghost final: set<nat>, ghost frames: seq<Frame>)
      returns (ghost final': set<nat>)
      requires Valid() && SafeStack(nodes, list.matchers) && |list.matchers| > 1
      requires clean ==> Holds(WorldWith(final), list.matchers, frames) && !Top(frames).pending && |frames| > 1
      modifies this`nodes, list
      ensures Valid() && SafeStack(nodes, list.matchers) && KindsKept(old(nodes), nodes)
      ensures list.matchers[0] == old(list.matchers)[0] && Callees(list.matchers) <= Callees(old(list.matchers)) + {""}
      ensures clean ==> Grows(old(WorldWith(final)), WorldWith(final'), list.matchers[0].matcher)
      ensures clean ==> Holds(WorldWith(final'), list.matchers, AddTree(frames[..|frames| - 1], ListTree(Top(frames).items)))
      ensures PopsInto(old(BenchOf(list)), BenchOf(list))
    {
      ghost var w, stack := WorldWith(final), list.matchers;
      var bracket := Last(list.matchers).matcher;
      final' := final;
      if clean {
        FramePopped(w, stack, frames);
        PoppedGrows(w, stack, frames);
        final' := Popped(w, stack, frames).final;
      }
      ghost var u := WorldWith(final');
      list.matchers := list.matchers[..|list.matchers| - 1];
      final' := AddMatcher(list, bracket, clean, final', if clean then frames[..|frames| - 1] else [],
                           if clean then ListTree(Top(frames).items) else ListTree([]));
      if clean {
        GrowsOn(w, u, WorldWith(final'), stack[0].matcher, stack[0].matcher);
      }
    }

    /** The matcher that a function call passes on: its only argument, or a list of all of them. */
    method Argument(list: MatcherList, ghost clean: bool, ghost final: set<nat>, ghost frames: seq<Frame>)
      returns (parameter: nat, ghost final': set<nat>)
      requires Valid() && SafeStack(nodes, list.matchers) && |list.matchers| > 1
      requires nodes[Last(list.matchers).matcher].ListMatcher?
      requires clean ==> Holds(WorldWith(final), list.matchers, frames) && !Top(frames).pending && |frames| > 1
      modifies this`nodes
      ensures Valid() && SafeStack(nodes, list.matchers) && KindsKept(old(nodes), nodes) && parameter < |nodes|
      ensures clean ==> Grows(old(WorldWith(final)), WorldWith(final'), list.matchers[0].matcher)
      ensures clean ==>
                && Holds(WorldWith(final'), list.matchers[..|list.matchers| - 1], frames[..|frames| - 1])
                && var items := Top(frames).items;
                Represents(WorldWith(final'), parameter, if |items| == 1 then items[0] else ListTree(items))
      ensures old(nodes) <= nodes
    {
      ghost var w, stack := WorldWith(final), list.matchers;
      var top := Last(list.matchers).matcher;
      var ms := nodes[top].matchers;
      assert nodes[top].RefersBelow(|nodes|);
      final' := final;
      if clean {
        TopKind(w, stack, frames);
        FramePopped(w, stack, frames);
        PoppedGrows(w, stack, frames);
        final' := Popped(w, stack, frames).final;
        ArgumentHolds(WorldWith(final'), top, Top(frames), stack[..|stack| - 1], frames[..|frames| - 1]);
      }
      ghost var u := WorldWith(final');
      if |ms| == 1 {
        parameter := ms[0];
      } else {
        parameter := Allocate(ListMatcher(ms));
        SafeStackKept(w.nodes, nodes, stack);
        final' := final' + {parameter};
        if clean {
          GrowsOn(w, u, WorldWith(final'), stack[0].matcher, |u.nodes|);
        }
      }
    }

    /** The argument tree of the function call at the top of the stack. */
    ghost function ArgumentTree(f: Frame): Tree {
      if |f.items| == 1 then f.items[0] else ListTree(f.items)
    }

    /** Compiles the rule of the function at the top of the stack for its arguments. */
    method CompileCall(c: Context, list: MatcherList, ghost j: Job, ghost clean: bool, ghost final: set<nat>, ghost frames: seq<Frame>)
      returns (r: Result<nat, CompileError>, ghost final': set<nat>)
      requires Valid() && SafeStack(nodes, list.matchers) && j.Valid() && j.c == c && fold == c.p.fold
      requires |list.matchers| > 1 && Last(list.matchers).functionName != ""
      requires FunctionCallToken(Last(list.matchers).functionName) in j.Rule().tokens
      requires j.given <= matchers.Keys
      requires clean ==> c.NoPoison() && Holds(WorldWith(final), list.matchers, frames) && !Top(frames).pending && |frames| > 1
      requires clean ==> Top(frames).callee == Last(list.matchers).functionName
      requires clean ==> Translate(c.p, c.rank, Top(frames).callee, Some(ArgumentTree(Top(frames)))) != Poisoned
      modifies this
      ensures Valid() && SafeStack(nodes, list.matchers) && KindsKept(old(nodes), nodes)
      ensures CacheGrows(old(matchers), matchers, c.names)
      ensures r.Ok? ==> r.value < |nodes|
      ensures clean && r.Ok? ==> Grows(old(WorldWith(final)), WorldWith(final'), list.matchers[0].matcher)
      ensures clean && r.Ok? ==> c.NewlyCompiled(old(matchers), WorldWith(final'))
      ensures clean && r.Ok? ==> Holds(WorldWith(final'), list.matchers[..|list.matchers| - 1], frames[..|frames| - 1])
      ensures clean ==> var t := Translate(c.p, c.rank, Top(frames).callee, Some(ArgumentTree(Top(frames))));
                        && (r.Ok? ==> t.Items? && Represents(WorldWith(final'), r.value, ListTree(t.items)))
                        && (c.Sound(j.given) && t.Items? ==> r.Ok?)
      ensures r.Ok? ==> ListsKept(old(nodes), nodes, |old(nodes)|) && NewRulesOk(c.p, c.rank, old(matchers).Keys, matchers.Keys)
      ensures r.Ok? ==> RuleOk(c.p, c.rank, Last(list.matchers).functionName, 1, matchers.Keys)
      ensures r.Err? ==> !j.MayPass()
      decreases Uncached(c.names, matchers), j.Level().0, j.Level().1, 0
    {
      hide StackIs, FrameIs, Represents, Extends, Translate, After, Grows, SafeWorld, Holds, ListsRise, Context.NoPoison, IsSpellingOf;
      ghost var w, stack := WorldWith(final), list.matchers;
      var functionName := Last(list.matchers).functionName;
      assert c.UsesOnlyNames(j.Rule(), FunctionCallToken(functionName));
      var parameter;
      parameter, final' := Argument(list, clean, final, frames);
      ghost var u := WorldWith(final');
      ghost var tree := if clean then ArgumentTree(Top(frames)) else ListTree([]);
      r, final' := CreateMatcher(c, functionName, [parameter], clean, final', Some(tree), j.given, j.all);
      assert j.MayPass() ==> UseOk(c.p, c.rank, j.name, Arity(j.argument), FunctionCallToken(functionName), j.all);
      SafeStackKept(u.nodes, nodes, stack);
      KindsKeptOn(w.nodes, u.nodes, nodes);
      if clean && r.Ok? {
        HoldsLater(u, WorldWith(final'), stack[..|stack| - 1], frames[..|frames| - 1]);
        GrowsOn(w, u, WorldWith(final'), stack[0].matcher, |u.nodes|);
      }
      if r.Ok? {
        ListsKeptOn(w.nodes, u.nodes, nodes, |w.nodes|, |u.nodes|);
      }
    }

    /** A function's list leaves the stack, and the matcher of its call becomes an item. */
    method TakeCall(c: Context, list: MatcherList, id: nat, ghost start: World,
                    ghost clean: bool, ghost final: set<nat>, ghost frames: seq<Frame>, ghost t: Tree)
      returns (ghost final': set<nat>)
      requires Valid() && SafeStack(nodes, list.matchers) && |list.matchers| > 1 && id < |nodes|
      requires Acyclic(c.p, c.rank) && KindsKept(start.nodes, nodes) && ListsKept(start.nodes, nodes, |start.nodes|)
      requires clean ==> Holds(WorldWith(final), list.matchers[..|list.matchers| - 1], frames)
      requires clean ==> Represents(WorldWith(final), id, t) && !t.ChoiceTree?
      requires clean ==> Grows(start, WorldWith(final), list.matchers[0].matcher)
      requires clean ==> c.NewlyCompiled(start.cache, WorldWith(final))
      modifies this`nodes, list
      ensures Valid() && SafeStack(nodes, list.matchers) && KindsKept(start.nodes, nodes)
      ensures list.matchers[0] == old(list.matchers)[0] && Callees(list.matchers) <= Callees(old(list.matchers)) + {""}
      ensures clean ==> Grows(start, WorldWith(final'), list.matchers[0].matcher)
      ensures clean ==> c.NewlyCompiled(start.cache, WorldWith(final'))
      ensures clean ==> Holds(WorldWith(final'), list.matchers, AddTree(frames, t))
      ensures Passes(Bench(start.nodes, old(list.matchers)), BenchOf(list), OperatorToken(')'))
    {
      hide WithMatcher, StackAfterAdding, StackIs, FrameIs, Represents, AddTree, Adds, Passes, ListsKept;
      ghost var v, bench := WorldWith(final), Bench(start.nodes, list.matchers);
      list.matchers := list.matchers[..|list.matchers| - 1];
      final' := AddMatcher(list, id, clean, final, frames, t);
      CallPasses(bench, v.nodes, BenchOf(list), id);
      KindsKeptOn(start.nodes, v.nodes, nodes);
      if clean {
        GrowsOn(start, v, WorldWith(final'), list.matchers[0].matcher, list.matchers[0].matcher);
        CompiledLater(c, start.cache, v, WorldWith(final'));
      }
    }

    /** ')' after the arguments of a function: what the call compiles to becomes an item. */
    method CloseCall(c: Context, list: MatcherList, ghost j: Job, ghost clean: bool, ghost final: set<nat>, ghost frames: seq<Frame>)
      returns (r: Result<(), CompileError>, ghost final': set<nat>, ghost frames': seq<Frame>)
      requires Valid() && SafeStack(nodes, list.matchers) && j.Valid() && j.c == c && fold == c.p.fold
      requires |list.matchers| > 1 && Last(list.matchers).functionName != ""
      requires FunctionCallToken(Last(list.matchers).functionName) in j.Rule().tokens
      requires j.given <= matchers.Keys
      requires clean ==> c.NoPoison() && Holds(WorldWith(final), list.matchers, frames) && !Top(frames).pending && |frames| > 1
      requires clean ==> Top(frames).callee == Last(list.matchers).functionName
      requires clean ==> Translate(c.p, c.rank, Top(frames).callee, Some(ArgumentTree(Top(frames)))) != Poisoned
      modifies this, list
      ensures Valid() && SafeStack(nodes, list.matchers) && KindsKept(old(nodes), nodes)
      ensures CacheGrows(old(matchers), matchers, c.names)
      ensures list.matchers[0] == old(list.matchers)[0] && Callees(list.matchers) <= Callees(old(list.matchers)) + {""}
      ensures clean && r.Ok? ==> Grows(old(WorldWith(final)), WorldWith(final'), list.matchers[0].matcher)
      ensures clean && r.Ok? ==> c.NewlyCompiled(old(matchers), WorldWith(final'))
      ensures clean && r.Ok? ==> Holds(WorldWith(final'), list.matchers, frames')
      ensures clean ==> var t := Translate(c.p, c.rank, Top(frames).callee, Some(ArgumentTree(Top(frames))));
                        && (r.Ok? ==> t.Items? && frames' == AddTree(frames[..|frames| - 1], ListTree(t.items)))
                        && (c.Sound(j.given) && t.Items? ==> r.Ok?)
      ensures r.Ok? ==> Passes(old(BenchOf(list)), BenchOf(list), OperatorToken(')'))
      ensures r.Ok? ==> NewRulesOk(c.p, c.rank, old(matchers).Keys, matchers.Keys)
      ensures r.Ok? ==> TokenOk(c.p, c.rank, j.Rule(), OperatorToken(')'), Last(old(list.matchers)).functionName, matchers.Keys)
      ensures r.Err? ==> !j.MayPass()
      decreases Uncached(c.names, matchers), j.Level().0, j.Level().1, 1
    {
      hide Passes, ListsKept, KindsKept, Grows, StackIs, Represents, AddTree, Translate, After, RuleOk, NewRulesOk, SafeWorld;
      frames' := frames;
      ghost var w := WorldWith(final);
      var call;
      call, final' := CompileCall(c, list, j, clean, final, frames);
      if call.Err? {
        return Err(call.error), final', frames';
      }
      ghost var below, result := [], ListTree([]);
      if clean {
        below := frames[..|frames| - 1];
        result := ListTree(Translate(c.p, c.rank, Top(frames).callee, Some(ArgumentTree(Top(frames)))).items);
        frames' := AddTree(below, result);
      }
      final' := TakeCall(c, list, call.value, w, clean, final', below, result);
      r := Ok(());
    }

    /** A keyword becomes an item; keywords with an override share its matcher. */
    method CompileKeyword(text: string, list: MatcherList, ghost clean: bool, ghost final: set<nat>, ghost frames: seq<Frame>)
      returns (ghost final': set<nat>)
      requires Valid() && SafeStack(nodes, list.matchers)
      requires clean ==> Holds(WorldWith(final), list.matchers, frames)
      modifies this`nodes, list
      ensures Valid() && SafeStack(nodes, list.matchers) && KindsKept(old(nodes), nodes)
      ensures list.matchers[0] == old(list.matchers)[0] && Callees(list.matchers) <= Callees(old(list.matchers)) + {""}
      ensures clean ==> Holds(WorldWith(final'), list.matchers, AddTree(frames, KeywordTree(text)))
      ensures clean ==> Grows(old(WorldWith(final)), WorldWith(final'), list.matchers[0].matcher)
      ensures Passes(old(BenchOf(list)), BenchOf(list), LiteralToken(text))
      ensures fold(text) !in keywordOverrides ==>
                Adds(old(BenchOf(list)).(nodes := old(nodes) + [KeywordMatcher(text)]), BenchOf(list), |old(nodes)|)
    {
      hide StackIs, FrameIs, Represents, Extends, WithMatcher, StackAfterAdding, Adds, Passes, ListsRise;
      ghost var w, bench := WorldWith(final), BenchOf(list);
      var id;
      final' := final;
      if fold(text) in keywordOverrides {
        id := keywordOverrides[fold(text)];
        if clean {
          KeywordOverridden(w, list.matchers, frames, text);
        }
      } else {
        if clean {
          KeywordAllocated(w, list.matchers, frames, text);
        }
        id := Allocate(KeywordMatcher(text));
        SafeStackKept(w.nodes, nodes, list.matchers);
        final' := final + {id};
      }
      ghost var u := WorldWith(final');
      ghost var found := nodes;
      final' := AddMatcher(list, id, clean, final', frames, KeywordTree(text));
      if clean {
        GrowsOn(w, u, WorldWith(final'), list.matchers[0].matcher, list.matchers[0].matcher);
      }
      ReferencePasses(bench, found, BenchOf(list), id, text);
    }

    /** A reference becomes an item: a parameter's argument, or the one matcher of the rule. */
    method CompileReference(c: Context, rule: PEGRule, parameters: seq<nat>, text: string, list: MatcherList,
                            ghost j: Job, ghost clean: bool, ghost final: set<nat>, ghost frames: seq<Frame>)
      returns (r: Result<(), CompileError>, ghost final': set<nat>, ghost t: Tree)
      requires Valid() && SafeStack(nodes, list.matchers) && j.Valid() && j.c == c && fold == c.p.fold
      requires rule == j.Rule() && ReferenceToken(text) in rule.tokens
      requires |parameters| == Arity(j.argument) && (parameters != [] ==> parameters[0] < |nodes|)
      requires j.given <= matchers.Keys
      requires clean ==> c.NoPoison() && Holds(WorldWith(final), list.matchers, frames)
      requires clean && j.argument.Some? ==> Represents(WorldWith(final), parameters[0], j.argument.value)
      modifies this, list
      ensures Valid() && SafeStack(nodes, list.matchers) && KindsKept(old(nodes), nodes)
      ensures CacheGrows(old(matchers), matchers, c.names)
      ensures list.matchers[0] == old(list.matchers)[0] && Callees(list.matchers) <= Callees(old(list.matchers)) + {""}
      ensures t == if text in rule.parameters then SharedTree(j.argument.value) else RuleTree(text)
      ensures clean && r.Ok? ==> Grows(old(WorldWith(final)), WorldWith(final'), list.matchers[0].matcher)
      ensures clean && r.Ok? ==> c.NewlyCompiled(old(matchers), WorldWith(final'))
      ensures clean && r.Ok? ==> Holds(WorldWith(final'), list.matchers, AddTree(frames, t))
      ensures clean && c.Sound(j.given) ==> r.Ok?
      ensures r.Ok? ==> Passes(old(BenchOf(list)), BenchOf(list), ReferenceToken(text))
      ensures r.Ok? ==> NewRulesOk(c.p, c.rank, old(matchers).Keys, matchers.Keys)
      ensures r.Ok? ==> text in rule.parameters || text in matchers
      ensures r.Err? ==> !j.MayPass()
      decreases Uncached(c.names, matchers), j.Level().0, j.Level().1, 2
    {
      hide StackIs, FrameIs, Represents, Extends, WithMatcher, StackAfterAdding, Translate, After, Adds, Passes,
        SafeWorld, ListsRise, ListsKept;
      ghost var w, bench := WorldWith(final), BenchOf(list);
      var reference;
      reference, final', t := FindReference(c, rule, parameters, text, list, j, clean, final, frames);
      if reference.Err? {
        return Err(reference.error), final', t;
      }
      ghost var v := WorldWith(final');
      final' := AddMatcher(list, reference.value, clean, final', frames, t);
      ReferencePasses(bench, v.nodes, BenchOf(list), reference.value, text);
      if clean {
        GrowsOn(w, v, WorldWith(final'), list.matchers[0].matcher, list.matchers[0].matcher);
        CompiledLater(c, w.cache, v, WorldWith(final'));
      }
      r := Ok(());
    }

    /** The matcher that a reference stands for, while the stack stays as it is. */
    method FindReference(c: Context, rule: PEGRule, parameters: seq<nat>, text: string, list: MatcherList,
                         ghost j: Job, ghost clean: bool, ghost final: set<nat>, ghost frames: seq<Frame>)
      returns (r: Result<nat, CompileError>, ghost final': set<nat>, ghost t: Tree)
      requires Valid() && SafeStack(nodes, list.matchers) && j.Valid() && j.c == c && fold == c.p.fold
      requires rule == j.Rule() && ReferenceToken(text) in rule.tokens
      requires |parameters| == Arity(j.argument) && (parameters != [] ==> parameters[0] < |nodes|)
      requires j.given <= matchers.Keys
      requires clean ==> c.NoPoison() && Holds(WorldWith(final), list.matchers, frames)
      requires clean && j.argument.Some? ==> Represents(WorldWith(final), parameters[0], j.argument.value)
      modifies this
      ensures Valid() && SafeStack(nodes, list.matchers) && KindsKept(old(nodes), nodes)
      ensures CacheGrows(old(matchers), matchers, c.names)
      ensures r.Ok? ==> r.value < |nodes|
      ensures t == if text in rule.parameters then SharedTree(j.argument.value) else RuleTree(text)
      ensures clean && r.Ok? ==> Grows(old(WorldWith(final)), WorldWith(final'), list.matchers[0].matcher)
      ensures clean && r.Ok? ==> c.NewlyCompiled(old(matchers), WorldWith(final'))
      ensures clean && r.Ok? ==> Holds(WorldWith(final'), list.matchers, frames)
      ensures clean && r.Ok? ==> Represents(WorldWith(final'), r.value, t)
      ensures clean && c.Sound(j.given) ==> r.Ok?
      ensures r.Ok? ==> ListsKept(old(nodes), nodes, |old(nodes)|)
      ensures r.Ok? ==> NewRulesOk(c.p, c.rank, old(matchers).Keys, matchers.Keys)
      ensures r.Ok? ==> text in rule.parameters || text in matchers
      ensures r.Err? ==> !j.MayPass()
      decreases Uncached(c.names, matchers), j.Level().0, j.Level().1, 1
    {
      hide StackIs, FrameIs, Represents, Extends, Translate, After;
      final' := final;
      if text in rule.parameters {
        if clean {
          SharedRepresented(WorldWith(final), parameters[0], j.argument.value);
          TopKind(WorldWith(final), list.matchers, frames);
          GrowsAtOnce(WorldWith(final), list.matchers[0].matcher);
        }
        return Ok(parameters[0]), final', SharedTree(j.argument.value);
      }
      t := RuleTree(text);
      r, final' := ResolveReference(c, text, list, j, clean, final, frames);
    }

    /** The one matcher of a plain rule, while the stack stays as it is. */
    method ResolveReference(c: Context, text: string, list: MatcherList, ghost j: Job, ghost clean: bool,
                            ghost final: set<nat>, ghost frames: seq<Frame>)
      returns (r: Result<nat, CompileError>, ghost final': set<nat>)
      requires Valid() && SafeStack(nodes, list.matchers) && j.Valid() && j.c == c && fold == c.p.fold
      requires ReferenceToken(text) in j.Rule().tokens && text !in j.Rule().parameters
      requires j.given <= matchers.Keys
      requires clean ==> c.NoPoison() && Holds(WorldWith(final), list.matchers, frames)
      modifies this
      ensures Valid() && SafeStack(nodes, list.matchers) && KindsKept(old(nodes), nodes)
      ensures CacheGrows(old(matchers), matchers, c.names)
      ensures r.Ok? ==> r.value < |nodes|
      ensures clean && r.Ok? ==> Grows(old(WorldWith(final)), WorldWith(final'), list.matchers[0].matcher)
      ensures clean && r.Ok? ==> c.NewlyCompiled(old(matchers), WorldWith(final'))
      ensures clean && r.Ok? ==> Holds(WorldWith(final'), list.matchers, frames)
      ensures clean && r.Ok? ==> Represents(WorldWith(final'), r.value, RuleTree(text))
      ensures clean && c.Sound(j.given) ==> r.Ok?
      ensures r.Ok? ==> text in matchers && ListsKept(old(nodes), nodes, |old(nodes)|) && NewRulesOk(c.p, c.rank, old(matchers).Keys, matchers.Keys)
      ensures r.Err? ==> !j.MayPass()
      decreases Uncached(c.names, matchers), j.Level().0, j.Level().1, 0
    {
      hide StackIs, FrameIs, Represents, Extends;
      ghost var w := WorldWith(final);
      assert c.UsesOnlyNames(j.Rule(), ReferenceToken(text));
      r, final' := CreateMatcher(c, text, [], clean, final, None, j.given, j.all);
      SafeStackKept(w.nodes, nodes, list.matchers);
      assert j.MayPass() ==> UseOk(c.p, c.rank, j.name, Arity(j.argument), ReferenceToken(text), j.all);
      if r.Err? {
        assert c.Sound(j.given) ==> c.Good(text, j.given);
        return;
      }
      ghost var v := WorldWith(final');
      if clean {
        HoldsLater(w, v, list.matchers, frames);
        TopKind(w, list.matchers, frames);
        RuleRepresented(v, text);
      }
    }

    /** One token of a rule. */
    method CompileToken(c: Context, rule: PEGRule, parameters: seq<nat>, list: MatcherList, i: nat,
                        ghost j: Job, ghost clean: bool, ghost final: set<nat>, ghost frames: seq<Frame>)
      returns (r: Result<(), CompileError>, ghost final': set<nat>, ghost frames': seq<Frame>)
      requires Valid() && SafeStack(nodes, list.matchers) && j.Valid() && j.c == c && fold == c.p.fold
      requires rule == j.Rule() && i < |rule.tokens|
      requires |parameters| == Arity(j.argument) && (parameters != [] ==> parameters[0] < |nodes|)
      requires forall f | f in Callees(list.matchers) :: f == "" || FunctionCallToken(f) in rule.tokens
      requires j.given <= matchers.Keys
      requires clean ==> c.NoPoison() && Holds(WorldWith(final), list.matchers, frames)
      requires clean ==> j.At(i) == Going(frames) && !j.At(i + 1).Poison?
      requires clean && j.argument.Some? ==> Represents(WorldWith(final), parameters[0], j.argument.value)
      modifies this, list
      ensures Valid() && SafeStack(nodes, list.matchers) && KindsKept(old(nodes), nodes)
      ensures CacheGrows(old(matchers), matchers, c.names)
      ensures list.matchers[0] == old(list.matchers)[0]
      ensures forall f | f in Callees(list.matchers) :: f == "" || FunctionCallToken(f) in rule.tokens
      ensures clean && r.Ok? ==> Grows(old(WorldWith(final)), WorldWith(final'), list.matchers[0].matcher)
      ensures clean && r.Ok? ==> c.NewlyCompiled(old(matchers), WorldWith(final'))
      ensures clean && r.Ok? ==> j.At(i + 1) == Going(frames') && Holds(WorldWith(final'), list.matchers, frames')
      ensures clean && c.Sound(j.given) && j.At(i + 1).Going? ==> r.Ok?
      ensures r.Ok? ==> Passes(old(BenchOf(list)), BenchOf(list), rule.tokens[i]) && NewRulesOk(c.p, c.rank, old(matchers).Keys, matchers.Keys)
      ensures r.Ok? ==> TokenOk(c.p, c.rank, rule, rule.tokens[i], Last(old(list.matchers)).functionName, matchers.Keys)
      ensures r.Err? ==> Stops(old(BenchOf(list)), rule.tokens[i]) || !j.MayPass()
      decreases Uncached(c.names, matchers), j.Level().0, j.Level().1, 3
    {
      hide StackIs, FrameIs, Represents, Extends, SafeWorld, ListsRise;
      final', frames' := final, frames;
      ghost var bench := BenchOf(list);
      match rule.tokens[i] {
        case LiteralToken(text) =>
          final' := CompileKeyword(text, list, clean, final, frames);
          r := Ok(());
          frames' := if clean then AddTree(frames, KeywordTree(text)) else [];
        case ReferenceToken(text) =>
          ghost var t;
          r, final', t := CompileReference(c, rule, parameters, text, list, j, clean, final, frames);
          frames' := if clean then AddTree(frames, t) else [];
        case FunctionCallToken(text) =>
          PushList(list, text, clean, final, frames);
          PushesPasses(bench, BenchOf(list), text);
          r := Ok(());
          frames' := frames + [Frame([], text, false)];
        case OperatorToken(op) =>
          if op == ')' {
            r, final', frames' := CloseBracket(c, list, j, clean, final, frames);
          } else {
            r, final', frames' := ApplyOperator(list, op, clean, final, frames);
          }
        case RegexToken(_) =>
          UnknownStops(bench, rule.tokens[i]);
          r := Err(RegexNotSupported);
      }
    }

    /** What has been reached from world `start` after `i` tokens of the rule. */
    ghost predicate Reached(j: Job, start: World, list: MatcherList, final: set<nat>, frames: seq<Frame>, i: nat)
      requires j.Valid() && i <= |j.Rule().tokens|
      reads this, list
    {
      && list.matchers != [] && Grows(start, WorldWith(final), list.matchers[0].matcher)
      && j.c.NewlyCompiled(start.cache, WorldWith(final))
      && j.At(i) == Going(frames) && Holds(WorldWith(final), list.matchers, frames)
    }

    /** One more token, on top of what has been reached. */
    method CompileNext(c: Context, rule: PEGRule, parameters: seq<nat>, list: MatcherList, i: nat,
                       ghost j: Job, ghost start: World, ghost bench: Bench,
                       ghost clean: bool, ghost final: set<nat>, ghost frames: seq<Frame>)
      returns (r: Result<(), CompileError>, ghost final': set<nat>, ghost frames': seq<Frame>)
      requires Valid() && SafeStack(nodes, list.matchers) && j.Valid() && j.c == c && fold == c.p.fold
      requires rule == j.Rule() && i < |rule.tokens|
      requires |parameters| == Arity(j.argument) && (parameters != [] ==> parameters[0] < |nodes|)
      requires forall f | f in Callees(list.matchers) :: f == "" || FunctionCallToken(f) in rule.tokens
      requires KindsKept(start.nodes, nodes) && CacheGrows(start.cache, matchers, c.names)
      requires j.given <= matchers.Keys && j.Done(bench, BenchOf(list), start.cache.Keys, matchers.Keys, i)
      requires clean ==> c.NoPoison() && !j.At(|rule.tokens|).Poison? && Reached(j, start, list, final, frames, i)
      requires clean && j.argument.Some? ==> Represents(start, parameters[0], j.argument.value)
      modifies this, list
      ensures Valid() && SafeStack(nodes, list.matchers) && KindsKept(start.nodes, nodes)
      ensures CacheGrows(start.cache, matchers, c.names) && list.matchers[0] == old(list.matchers)[0]
      ensures forall f | f in Callees(list.matchers) :: f == "" || FunctionCallToken(f) in rule.tokens
      ensures clean && r.Ok? ==> Reached(j, start, list, final', frames', i + 1)
      ensures clean && c.Sound(j.given) && j.At(|rule.tokens|).Going? ==> r.Ok?
      ensures j.given <= matchers.Keys && |start.nodes| <= |nodes|
      ensures if r.Ok? then j.Done(bench, BenchOf(list), start.cache.Keys, matchers.Keys, i + 1) else !j.MayPass()
      decreases Uncached(c.names, matchers), j.Level().0, j.Level().1, 4
    {
      hide Job.Done, Job.MayPass, Passes, Stops, TokenOk, NewRulesOk, RuleOk, StackIs, FrameIs, Represents, Extends,
        ListsRise, KindsKept, SafeWorld, Context.NoPoison, Translate, After;
      ghost var u, at, keys := WorldWith(final), BenchOf(list), matchers.Keys;
      if clean {
        VerdictStays(c.p, c.rank, j.name, j.argument, i + 1, |rule.tokens|);
        if j.argument.Some? {
          RepresentsLater(start, u, parameters[0], j.argument.value);
        }
      }
      r, final', frames' := CompileToken(c, rule, parameters, list, i, j, clean, final, frames);
      KindsKeptOn(start.nodes, u.nodes, nodes);
      if clean && r.Ok? {
        GrowsOn(start, u, WorldWith(final'), list.matchers[0].matcher, list.matchers[0].matcher);
        CompiledLater(c, start.cache, u, WorldWith(final'));
      }
      if r.Err? {
        j.StopsHere(bench, at, start.cache.Keys, keys, i);
      } else {
        j.DoneNext(bench, at, BenchOf(list), start.cache.Keys, keys, matchers.Keys, i);
      }
    }

    /** All tokens of a rule, one after the other. */
    method CompileTokens(c: Context, rule: PEGRule, parameters: seq<nat>, list: MatcherList,
                         ghost j: Job, ghost clean: bool, ghost final: set<nat>)
      returns (r: Result<(), CompileError>, ghost final': set<nat>, ghost frames: seq<Frame>)
      requires Valid() && SafeStack(nodes, list.matchers) && j.Valid() && j.c == c && fold == c.p.fold
      requires rule == j.Rule() && Callees(list.matchers) == {""}
      requires |parameters| == Arity(j.argument) && (parameters != [] ==> parameters[0] < |nodes|)
      requires HasShape(BenchOf(list), [Slot("", EmptyList)])
      requires j.given <= matchers.Keys
      requires clean ==> c.NoPoison() && !j.At(|rule.tokens|).Poison?
      requires clean ==> Reached(j, WorldWith(final), list, final, [Frame([], "", false)], 0)
      requires clean && j.argument.Some? ==> Represents(WorldWith(final), parameters[0], j.argument.value)
      modifies this, list
      ensures Valid() && SafeStack(nodes, list.matchers) && KindsKept(old(nodes), nodes)
      ensures CacheGrows(old(matchers), matchers, c.names) && list.matchers[0] == old(list.matchers)[0]
      ensures clean && r.Ok? ==> Reached(j, old(WorldWith(final)), list, final', frames, |rule.tokens|)
      ensures clean && c.Sound(j.given) && j.At(|rule.tokens|).Going? ==> r.Ok?
      ensures r.Ok? ==> j.Done(old(BenchOf(list)), BenchOf(list), old(matchers).Keys, matchers.Keys, |rule.tokens|)
      ensures r.Err? ==> !j.MayPass()
      decreases Uncached(c.names, matchers), j.Level().0, j.Level().1, 5
    {
      hide Holds, Grows, SafeWorld, Represents, Translate, After, Reached, Job.Done, Job.MayPass, Passes, Stops,
        TokenOk, NewRulesOk, RuleOk, Context.Valid;
      final', frames := final, [Frame([], "", false)];
      ghost var start, bench := WorldWith(final), BenchOf(list);
      j.NothingDone(bench, matchers.Keys);
      assert KindsKept(start.nodes, nodes) && CacheGrows(start.cache, matchers, c.names);
      hide KindsKept, CacheGrows, HasShape;
      for i := 0 to |rule.tokens|
        invariant Valid() && SafeStack(nodes, list.matchers) && KindsKept(start.nodes, nodes)
        invariant CacheGrows(start.cache, matchers, c.names) && list.matchers[0] == old(list.matchers)[0]
        invariant j.given <= matchers.Keys && |start.nodes| <= |nodes|
        invariant forall f | f in Callees(list.matchers) :: f == "" || FunctionCallToken(f) in rule.tokens
        invariant clean ==> Reached(j, start, list, final', frames, i)
        invariant j.Done(bench, BenchOf(list), start.cache.Keys, matchers.Keys, i)
      {
        UncachedShrinks(c.names, start.cache, matchers);
        r, final', frames := CompileNext(c, rule, parameters, list, i, j, start, bench, clean, final', frames);
        if r.Err? {
          return;
        }
      }
      r := Ok(());
    }

    /** A rule compiles when its tokens do, and every bracket and choice has been closed in the end. */
    method CompileRule(c: Context, rule: PEGRule, parameters: seq<nat>, root: nat,
                       ghost j: Job, ghost clean: bool, ghost final: set<nat>)
      returns (r: Result<(), CompileError>, ghost final': set<nat>)
      requires Valid() && j.Valid() && j.c == c && fold == c.p.fold && rule == j.Rule()
      requires root < |nodes| && nodes[root] == ListMatcher([])
      requires |parameters| == Arity(j.argument) && (parameters != [] ==> parameters[0] < |nodes|)
      requires j.given <= matchers.Keys
      requires clean ==> c.NoPoison() && Holds(WorldWith(final), [MatcherListEntry(root, "")], [Frame([], "", false)])
      requires clean ==> Translate(c.p, c.rank, j.name, j.argument) != Poisoned
      requires clean && j.argument.Some? ==> Represents(WorldWith(final), parameters[0], j.argument.value)
      modifies this
      ensures Valid() && KindsKept(old(nodes), nodes)
      ensures CacheGrows(old(matchers), matchers, c.names)
      ensures clean && r.Ok? ==> Grows(old(WorldWith(final)), WorldWith(final'), root) && FinalBelow(WorldWith(final'))
      ensures clean && r.Ok? ==> c.NewlyCompiled(old(matchers), WorldWith(final'))
      ensures clean && r.Ok? ==> var t := Translate(c.p, c.rank, j.name, j.argument);
                                 t.Items? && Represents(WorldWith(final'), root, ListTree(t.items))
      ensures clean && c.Sound(j.given) && Translate(c.p, c.rank, j.name, j.argument).Items? ==> r.Ok?
      ensures r.Ok? ==> ListsKept(old(nodes), nodes, root) && NewRulesOk(c.p, c.rank, old(matchers).Keys, matchers.Keys)
      ensures r.Ok? ==> RuleOk(c.p, c.rank, j.name, Arity(j.argument), matchers.Keys)
      ensures r.Err? ==> !j.MayPass()
      decreases Uncached(c.names, matchers), j.Level().0, j.Level().1, 6
    {
      ghost var w, frames := WorldWith(final), [];
      var list := new MatcherList(root);
      ghost var bench := BenchOf(list);
      assert ShapeOf(bench) == [Slot("", EmptyList)];
      r, final', frames := CompileTokens(c, rule, parameters, list, j, clean, final);
      if r.Err? {
        return;
      }
      ghost var u := WorldWith(final');
      if clean {
        RootCount(u, list.matchers, frames);
      }
      if |list.matchers| != 1 {
        j.LeftOpen(bench, BenchOf(list), old(matchers).Keys, matchers.Keys);
        return Err(UnclosedBracket), final';
      }
      j.AllDone(bench, BenchOf(list), old(matchers).Keys, matchers.Keys);
      if clean {
        RootClosed(u, list.matchers, frames);
        final' := final' + Closing(frames[0], nodes[root].matchers) + {root};
        GrowsOn(w, u, WorldWith(final'), root, root);
        CompiledLater(c, w.cache, u, WorldWith(final'));
      }
    }

    /** A new empty list for a rule; a plain rule is cached at once, so that it may refer to itself. */
    method Declare(c: Context, name: string, plain: bool) returns (matcher: nat)
      requires Valid() && (plain ==> name in c.names && name !in matchers)
      modifies this
      ensures Valid() && matcher == |old(nodes)| && nodes == old(nodes) + [ListMatcher([])]
      ensures matchers == if plain then old(matchers)[name := matcher] else old(matchers)
      ensures CacheGrows(old(matchers), matchers, c.names) && KindsKept(old(nodes), nodes)
      ensures plain ==> Uncached(c.names, matchers) < Uncached(c.names, old(matchers))
    {
      matcher := Allocate(ListMatcher([]));
      if plain {
        ghost var before := matchers;
        matchers := matchers[name := matcher];
        assert name in Uncached(c.names, before) && name !in Uncached(c.names, matchers);
        UncachedShrinks(c.names, before, matchers);
      }
    }

    /**
     `CreateMatcher`: a plain rule has one matcher, cached before its tokens are compiled so that
     rules may be recursive; a parameterised rule is compiled anew for each call.
     */
    method CreateMatcher(c: Context, name: string, parameters: seq<nat>, ghost clean: bool, ghost final: set<nat>,
                         ghost argument: Option<Tree>, ghost given: set<string>, ghost all: set<string>)
      returns (r: Result<nat, CompileError>, ghost final': set<nat>)
      requires Valid() && c.Valid() && fold == c.p.fold
      requires |parameters| == Arity(argument) && (parameters != [] ==> parameters[0] < |nodes|)
      requires name in c.names
      requires given <= matchers.Keys
      requires clean ==> c.NoPoison() && FinalBelow(WorldWith(final)) && Translate(c.p, c.rank, name, argument) != Poisoned
      requires clean && argument.Some? ==> Represents(WorldWith(final), parameters[0], argument.value)
      modifies this
      ensures Valid() && KindsKept(old(nodes), nodes) && CacheGrows(old(matchers), matchers, c.names)
      ensures r.Ok? ==> r.value < |nodes| && !nodes[r.value].ChoiceMatcher?
      ensures r.Ok? && parameters == [] ==> name in matchers && matchers[name] == r.value
      ensures clean && r.Ok? ==> Grows(old(WorldWith(final)), WorldWith(final'), |old(nodes)|) && FinalBelow(WorldWith(final'))
      ensures clean && r.Ok? ==> c.NewlyCompiled(old(matchers), WorldWith(final'))
      ensures clean && r.Ok? && argument.Some? ==>
                var t := Translate(c.p, c.rank, name, argument);
                t.Items? && Represents(WorldWith(final'), r.value, ListTree(t.items))
      ensures clean && c.Sound(given) && ((argument == None && name in given) || Translate(c.p, c.rank, name, argument).Items?)
              ==> r.Ok?
      ensures r.Ok? ==> ListsKept(old(nodes), nodes, |old(nodes)|) && NewRulesOk(c.p, c.rank, old(matchers).Keys, matchers.Keys)
      ensures r.Ok? && argument.Some? ==> RuleOk(c.p, c.rank, name, 1, matchers.Keys)
      ensures c.Complete(given, all) && (if argument == None then name in all else RuleOk(c.p, c.rank, name, 1, all)) ==> r.Ok?
      decreases Uncached(c.names, matchers), if argument == None then 0 else 1,
                if argument == None then 0 else c.rank(c.p.fold(name)), 7
    {
      final' := final;
      if parameters == [] && name in matchers {
        return Ok(matchers[name]), final';
      }
      if !c.p.HasRule(name) {
        return Err(RuleIsMissing), final';
      }
      ghost var w := WorldWith(final);
      var matcher := Declare(c, name, parameters == []);
      var rule := c.p.Rule(name);
      if |rule.parameters| > 1 {
        return Err(TooManyParameters), final';
      }
      if |parameters| != |rule.parameters| {
        return Err(ParameterCountMismatch), final';
      }
      ghost var u, j := WorldWith(final), Job(c, name, argument, given, all);
      if clean {
        RootOpened(w, u);
        if argument.Some? {
          RepresentsLater(w, u, parameters[0], argument.value);
        }
      }
      var body;
      body, final' := CompileRule(c, rule, parameters, matcher, j, clean, final);
      if body.Err? {
        return Err(body.error), final';
      }
      if clean {
        GrowsOn(w, u, WorldWith(final'), |w.nodes|, |w.nodes|);
      }
      ListsKeptOn(w.nodes, u.nodes, nodes, |w.nodes|, |w.nodes|);
      DeclaredIsOk(c.p, c.rank, w.cache.Keys, u.cache.Keys, matchers.Keys, name);
      r := Ok(matcher);
    }

    /**
     Compiles the rule `root` and everything it uses; nothing is asked of rules that it does not reach.
     The stack, the sharing and the in-place updates leave one matcher for each rule, which represents
     the rule's tree; and compilation fails only if one of these rules cannot be compiled.
     */
    method CompileGrammar(c: Context, root: string) returns (r: Result<nat, CompileError>, ghost final: set<nat>)
      requires Valid() && c.Valid() && fold == c.p.fold && root in c.names
      modifies this
      ensures Valid() && CacheGrows(old(matchers), matchers, c.names)
      ensures r.Ok? ==> root in matchers && matchers[root] == r.value
      ensures r.Ok? ==> ListsKept(old(nodes), nodes, |old(nodes)|)
      ensures c.NoPoison() && r.Ok? ==> c.NewlyCompiled(old(matchers), WorldWith(final))
      ensures c.NoPoison() && c.Sound(old(matchers).Keys) && c.Good(root, old(matchers).Keys) ==> r.Ok?
      ensures r.Ok? <==> exists all :: root in all && c.Complete(old(matchers).Keys, all)
    {
      ghost var given := matchers.Keys;
      ghost var all: set<string> :| (exists k :: root in k && c.Complete(given, k)) ==> root in all && c.Complete(given, all);
      r, final := CreateMatcher(c, root, [], c.NoPoison(), {}, None, given, all);
      assert r.Ok? ==> c.Complete(given, matchers.Keys);
    }
  }
}
