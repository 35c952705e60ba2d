/**
 `MatchParseResult`: the interpreter that builds parse trees
 (extension/autocomplete/matcher.cpp).

 `Parse` and its companions give the meaning of the interpreter as functions. Graphs may be cyclic,
 so the functions carry a fuel that bounds the depth of the recursion; `FuelIsEnough` says that
 more fuel never changes an answer, and `ParseTerminates` that well-founded graphs always have enough.
 */
module ParseResults {
  import opened Wrappers
  import opened MatcherGraph

  datatype ParseResult =
    | TerminalResult(text: string, offset: nat)
    | ListResult(children: seq<ParseResult>, start: Option<nat>)
    | OptionalResult(child: Option<ParseResult>, start: Option<nat>)
    | ChoiceResult(chosen: ParseResult, selected: nat, start: Option<nat>)
    | RepeatResult(children: seq<ParseResult>, start: Option<nat>)

  /** How a run of the interpreter ends: out of fuel, with an exception, without or with a tree. */
  datatype Run =
    | Diverges
    | Raises
    | Fails
    | Parses(tree: ParseResult, at: nat)

  /** The same for the loop of a list or a repeat. */
  datatype LoopRun =
    | LoopDiverges
    | LoopRaises
    | LoopFails
    | LoopParses(trees: seq<ParseResult>, at: nat)
  {
    /** The same loop with a tree before its own. */
    function After(t: ParseResult): LoopRun {
      if LoopParses? then LoopParses([t] + trees, at) else this
    }
  }

  /** The offset of the token at `at`, if there is one. */
  function StartOffset(g: Grammar, at: nat): Option<nat> {
    if at < |g.tokens| then Some(g.tokens[at].offset) else None
  }

  // ---------------------------------------------------------------- meaning

  function Parse(g: Grammar, fuel: nat, m: nat, at: nat): Run
    requires g.Valid() && m < |g.nodes|
    decreases fuel, 0, 0
  {
    if fuel == 0 then Diverges else
    assert g.nodes[m].RefersBelow(|g.nodes|);
    match g.nodes[m]
    case KeywordMatcher(_) => ParseTerminal(g, m, at)
    case LeafMatcher(_) => ParseTerminal(g, m, at)
    case ListMatcher(ms) =>
      (match ParseList(g, fuel - 1, ms, at)
       case LoopDiverges => Diverges
       case LoopRaises => Raises
       case LoopFails => Fails
       case LoopParses(trees, to) => Parses(ListResult(trees, StartOffset(g, at)), to))
    case OptionalMatcher(c) =>
      (match Parse(g, fuel - 1, c, at)
       case Fails => Parses(OptionalResult(None, None), at)
       case Parses(t, to) => Parses(OptionalResult(Some(t), StartOffset(g, at)), to)
       case other => other)
    case ChoiceMatcher(ms) => ParseChoice(g, fuel - 1, ms, 0, at)
    case RepeatMatcher(e) =>
      (match Parse(g, fuel - 1, e, at)
       case Parses(t, to) =>
         (match ParseRepeat(g, fuel - 1, e, to)
          case LoopParses(trees, end) => Parses(RepeatResult([t] + trees, StartOffset(g, at)), end)
          case LoopRaises => Raises
          case _ => Diverges)
       case other => other)
  }

  function ParseTerminal(g: Grammar, m: nat, at: nat): Run
    requires m < |g.nodes|
  {
    if at >= |g.tokens| then Fails else
    match g.answer(g.nodes[m], g.tokens[at].text)
    case Accept => Parses(TerminalResult(g.decode(g.nodes[m], g.tokens[at].text), g.tokens[at].offset), at + 1)
    case Reject => Fails
    case Raise => Raises
  }

  /** All matchers of a list, one after the other. */
  function ParseList(g: Grammar, fuel: nat, ms: seq<nat>, at: nat): LoopRun
    requires g.Valid() && forall i | 0 <= i < |ms| :: ms[i] < |g.nodes|
    decreases fuel, 1, |ms|
  {
    if ms == [] then LoopParses([], at) else
    match Parse(g, fuel, ms[0], at)
    case Diverges => LoopDiverges
    case Raises => LoopRaises
    case Fails => LoopFails
    case Parses(t, to) => ParseList(g, fuel, ms[1..], to).After(t)
  }

  /** The first alternative from number `k` on that parses. */
  function ParseChoice(g: Grammar, fuel: nat, ms: seq<nat>, k: nat, at: nat): Run
    requires g.Valid() && k <= |ms| && forall i | 0 <= i < |ms| :: ms[i] < |g.nodes|
    decreases fuel, 1, |ms| - k
  {
    if k == |ms| then Fails else
    match Parse(g, fuel, ms[k], at)
    case Fails => ParseChoice(g, fuel, ms, k + 1, at)
    case Parses(t, to) => Parses(ChoiceResult(t, k, StartOffset(g, at)), to)
    case other => other
  }

  /** Further repetitions of an element, as long as there are tokens and it parses. */
  function ParseRepeat(g: Grammar, fuel: nat, e: nat, at: nat): (r: LoopRun)
    requires g.Valid() && e < |g.nodes|
    ensures !r.LoopFails?
    decreases fuel, 1, 0
  {
    if at >= |g.tokens| then LoopParses([], at) else
    if fuel == 0 then LoopDiverges else
    match Parse(g, fuel, e, at)
    case Diverges => LoopDiverges
    case Raises => LoopRaises
    case Fails => LoopParses([], at)
    case Parses(t, to) => ParseRepeat(g, fuel - 1, e, to).After(t)
  }

  // ---------------------------------------------------------------- fuel

  /** An answer does not change when there is more fuel. */
  lemma {:induction false} FuelIsEnough(g: Grammar, f: nat, h: nat, m: nat, at: nat)
    requires g.Valid() && m < |g.nodes| && f <= h
    requires Parse(g, f, m, at) != Diverges
    ensures Parse(g, h, m, at) == Parse(g, f, m, at)
    decreases f, 0, 0
  {
    assert g.nodes[m].RefersBelow(|g.nodes|);
    match g.nodes[m]
    case KeywordMatcher(_) =>
    case LeafMatcher(_) =>
    case ListMatcher(ms) => ListFuelIsEnough(g, f - 1, h - 1, ms, at);
    case OptionalMatcher(c) => FuelIsEnough(g, f - 1, h - 1, c, at);
    case ChoiceMatcher(ms) => ChoiceFuelIsEnough(g, f - 1, h - 1, ms, 0, at);
    case RepeatMatcher(e) =>
      FuelIsEnough(g, f - 1, h - 1, e, at);
      var r := Parse(g, f - 1, e, at);
      if r.Parses? {
        RepeatFuelIsEnough(g, f - 1, h - 1, e, r.at);
      }
  }

  lemma {:induction false} ListFuelIsEnough(g: Grammar, f: nat, h: nat, ms: seq<nat>, at: nat)
    requires g.Valid() && f <= h && forall i | 0 <= i < |ms| :: ms[i] < |g.nodes|
    requires ParseList(g, f, ms, at) != LoopDiverges
    ensures ParseList(g, h, ms, at) == ParseList(g, f, ms, at)
    decreases f, 1, |ms|
  {
    if ms == [] {
    } else {
      FuelIsEnough(g, f, h, ms[0], at);
      var r := Parse(g, f, ms[0], at);
      if r.Parses? {
        ListFuelIsEnough(g, f, h, ms[1..], r.at);
      }
    }
  }

  lemma {:induction false} ChoiceFuelIsEnough(g: Grammar, f: nat, h: nat, ms: seq<nat>, k: nat, at: nat)
    requires g.Valid() && f <= h && k <= |ms| && forall i | 0 <= i < |ms| :: ms[i] < |g.nodes|
    requires ParseChoice(g, f, ms, k, at) != Diverges
    ensures ParseChoice(g, h, ms, k, at) == ParseChoice(g, f, ms, k, at)
    decreases f, 1, |ms| - k
  {
    if k == |ms| {
    } else {
      FuelIsEnough(g, f, h, ms[k], at);
      if Parse(g, f, ms[k], at).Fails? {
        ChoiceFuelIsEnough(g, f, h, ms, k + 1, at);
      }
    }
  }

  lemma {:induction false} RepeatFuelIsEnough(g: Grammar, f: nat, h: nat, e: nat, at: nat)
    requires g.Valid() && e < |g.nodes| && f <= h
    requires ParseRepeat(g, f, e, at) != LoopDiverges
    ensures ParseRepeat(g, h, e, at) == ParseRepeat(g, f, e, at)
    decreases f, 1, 0
  {
    if at >= |g.tokens| {
    } else {
      FuelIsEnough(g, f, h, e, at);
      var r := Parse(g, f, e, at);
      if r.Parses? {
        RepeatFuelIsEnough(g, f - 1, h - 1, e, r.at);
      }
    }
  }

  // ---------------------------------------------------------------- parse trees account for the input

  /** The offsets at the leaves of a tree, left to right. */
  function Leaves(t: ParseResult): seq<nat> {
    match t
    case TerminalResult(_, offset) => [offset]
    case ListResult(ts, _) => AllLeaves(ts)
    case OptionalResult(None, _) => []
    case OptionalResult(Some(c), _) => Leaves(c)
    case ChoiceResult(c, _, _) => Leaves(c)
    case RepeatResult(ts, _) => AllLeaves(ts)
  }

  function AllLeaves(ts: seq<ParseResult>): seq<nat> {
    if ts == [] then [] else Leaves(ts[0]) + AllLeaves(ts[1..])
  }

  /** The offsets of the tokens from `a` up to `b`. */
  ghost function Offsets(g: Grammar, a: nat, b: nat): seq<int>
    requires a <= b <= |g.tokens|
  {
    seq(b - a, i requires 0 <= i < b - a => g.tokens[a + i].offset)
  }

  /** `t` is a derivation of matcher `m` from the tokens that start at `a`. */
  ghost predicate Derives(g: Grammar, m: nat, t: ParseResult, a: nat)
    requires g.Valid() && m < |g.nodes|
    decreases t
  {
    assert g.nodes[m].RefersBelow(|g.nodes|);
    match t
    case TerminalResult(text, offset) =>
      && g.nodes[m].IsTerminal() && a < |g.tokens|
      && g.answer(g.nodes[m], g.tokens[a].text) == Accept
      && text == g.decode(g.nodes[m], g.tokens[a].text) && offset == g.tokens[a].offset
    case ListResult(ts, start) =>
      && g.nodes[m].ListMatcher? && |ts| == |g.nodes[m].matchers| && start == StartOffset(g, a)
      && DerivesList(g, g.nodes[m].matchers, ts, a)
    case OptionalResult(None, start) => g.nodes[m].OptionalMatcher? && start == None
    case OptionalResult(Some(c), start) =>
      g.nodes[m].OptionalMatcher? && start == StartOffset(g, a) && Derives(g, g.nodes[m].matcher, c, a)
    case ChoiceResult(c, i, start) =>
      && g.nodes[m].ChoiceMatcher? && i < |g.nodes[m].matchers| && start == StartOffset(g, a)
      && Derives(g, g.nodes[m].matchers[i], c, a)
    case RepeatResult(ts, start) =>
      && g.nodes[m].RepeatMatcher? && ts != [] && start == StartOffset(g, a)
      && DerivesAll(g, g.nodes[m].element, ts, a)
  }

  ghost predicate DerivesList(g: Grammar, ms: seq<nat>, ts: seq<ParseResult>, a: nat)
    requires g.Valid() && |ts| == |ms| && forall i | 0 <= i < |ms| :: ms[i] < |g.nodes|
    decreases ts
  {
    ts != [] ==> Derives(g, ms[0], ts[0], a) && DerivesList(g, ms[1..], ts[1..], a + |Leaves(ts[0])|)
  }

  ghost predicate DerivesAll(g: Grammar, e: nat, ts: seq<ParseResult>, a: nat)
    requires g.Valid() && e < |g.nodes|
    decreases ts
  {
    ts != [] ==> Derives(g, e, ts[0], a) && DerivesAll(g, e, ts[1..], a + |Leaves(ts[0])|)
  }

  /** The leaves `ls` are the tokens from `a` up to `b`, each once and in order. */
  ghost predicate Accounts(g: Grammar, ls: seq<nat>, a: nat, b: nat) {
    a <= b <= |g.tokens| && ls == Offsets(g, a, b)
  }

  lemma AccountsConcat(g: Grammar, ls: seq<nat>, ls': seq<nat>, a: nat, b: nat, c: nat)
    requires Accounts(g, ls, a, b) && Accounts(g, ls', b, c)
    ensures Accounts(g, ls + ls', a, c)
  {
  }

  /** One repetition before others. */
  lemma RepetitionAdded(g: Grammar, e: nat, t: ParseResult, ts: seq<ParseResult>, a: nat, b: nat, c: nat)
    requires g.Valid() && e < |g.nodes|
    requires Derives(g, e, t, a) && Accounts(g, Leaves(t), a, b)
    requires DerivesAll(g, e, ts, b) && Accounts(g, AllLeaves(ts), b, c)
    ensures DerivesAll(g, e, [t] + ts, a) && Accounts(g, AllLeaves([t] + ts), a, c)
  {
    hide Derives;
    AccountsConcat(g, Leaves(t), AllLeaves(ts), a, b, c);
    assert ([t] + ts)[1..] == ts;
  }

  /** A successful parse is a derivation whose leaves are exactly the tokens it moved over. */
  lemma {:induction false} ParseAccounts(g: Grammar, fuel: nat, m: nat, a: nat)
    requires g.Valid() && m < |g.nodes| && a <= |g.tokens|
    ensures var r := Parse(g, fuel, m, a);
            r.Parses? ==> Derives(g, m, r.tree, a) && Accounts(g, Leaves(r.tree), a, r.at)
    decreases fuel, 0, 0
  {
    if fuel == 0 {
    } else {
      hide ParseList, ParseChoice, ParseRepeat, DerivesList, DerivesAll;
      assert g.nodes[m].RefersBelow(|g.nodes|);
      match g.nodes[m]
      case KeywordMatcher(_) =>
      case LeafMatcher(_) =>
      case ListMatcher(ms) => ParseListAccounts(g, fuel - 1, ms, a);
      case OptionalMatcher(c) => ParseAccounts(g, fuel - 1, c, a);
      case ChoiceMatcher(ms) => ParseChoiceAccounts(g, fuel - 1, ms, 0, a);
      case RepeatMatcher(e) => ParseRepetitionsAccount(g, fuel - 1, e, a);
    }
  }

  /** The first repetition, and the others. */
  lemma {:induction false} ParseRepetitionsAccount(g: Grammar, fuel: nat, e: nat, a: nat)
    requires g.Valid() && e < |g.nodes| && a <= |g.tokens|
    ensures var first := Parse(g, fuel, e, a);
            first.Parses? ==>
              var rest := ParseRepeat(g, fuel, e, first.at);
              rest.LoopParses? ==> DerivesAll(g, e, [first.tree] + rest.trees, a)
                                   && Accounts(g, AllLeaves([first.tree] + rest.trees), a, rest.at)
    decreases fuel, 2, 0
  {
    hide Parse, ParseRepeat, Derives, DerivesAll;
    ParseAccounts(g, fuel, e, a);
    var first := Parse(g, fuel, e, a);
    if first.Parses? {
      ParseRepeatAccounts(g, fuel, e, first.at);
      var rest := ParseRepeat(g, fuel, e, first.at);
      if rest.LoopParses? {
        RepetitionAdded(g, e, first.tree, rest.trees, a, first.at, rest.at);
      }
    }
  }

  lemma {:induction false} ParseListAccounts(g: Grammar, fuel: nat, ms: seq<nat>, a: nat)
    requires g.Valid() && a <= |g.tokens| && forall i | 0 <= i < |ms| :: ms[i] < |g.nodes|
    ensures var r := ParseList(g, fuel, ms, a);
            r.LoopParses? ==> && |r.trees| == |ms| && DerivesList(g, ms, r.trees, a)
                              && Accounts(g, AllLeaves(r.trees), a, r.at)
    decreases fuel, 1, |ms|
  {
    if ms == [] {
    } else {
      ParseAccounts(g, fuel, ms[0], a);
      var first := Parse(g, fuel, ms[0], a);
      if first.Parses? {
        ParseListAccounts(g, fuel, ms[1..], first.at);
        var rest := ParseList(g, fuel, ms[1..], first.at);
        if rest.LoopParses? {
          AccountsConcat(g, Leaves(first.tree), AllLeaves(rest.trees), a, first.at, rest.at);
          assert ([first.tree] + rest.trees)[1..] == rest.trees;
        }
      }
    }
  }

  lemma {:induction false} ParseChoiceAccounts(g: Grammar, fuel: nat, ms: seq<nat>, k: nat, a: nat)
    requires g.Valid() && a <= |g.tokens| && k <= |ms| && forall i | 0 <= i < |ms| :: ms[i] < |g.nodes|
    ensures var r := ParseChoice(g, fuel, ms, k, a);
            r.Parses? ==> && r.tree.ChoiceResult? && k <= r.tree.selected < |ms| && r.tree.start == StartOffset(g, a)
                          && Derives(g, ms[r.tree.selected], r.tree.chosen, a)
                          && Accounts(g, Leaves(r.tree), a, r.at)
    decreases fuel, 1, |ms| - k
  {
    if k == |ms| {
    } else {
      ParseAccounts(g, fuel, ms[k], a);
      if Parse(g, fuel, ms[k], a).Fails? {
        ParseChoiceAccounts(g, fuel, ms, k + 1, a);
      }
    }
  }

  lemma {:induction false} ParseRepeatAccounts(g: Grammar, fuel: nat, e: nat, a: nat)
    requires g.Valid() && e < |g.nodes| && a <= |g.tokens|
    ensures var r := ParseRepeat(g, fuel, e, a);
            r.LoopParses? ==> DerivesAll(g, e, r.trees, a) && Accounts(g, AllLeaves(r.trees), a, r.at)
    decreases fuel, 1, 0
  {
    if a == |g.tokens| || fuel == 0 {
    } else {
      ParseAccounts(g, fuel, e, a);
      var first := Parse(g, fuel, e, a);
      if first.Parses? {
        ParseRepeatAccounts(g, fuel - 1, e, first.at);
        var rest := ParseRepeat(g, fuel - 1, e, first.at);
        if rest.LoopParses? {
          RepetitionAdded(g, e, first.tree, rest.trees, a, first.at, rest.at);
        }
      }
    }
  }

  // ---------------------------------------------------------------- termination

  /**
   The graph has no left recursion, and no repeated element that can succeed on no tokens:
   `nullable` holds every matcher that can, and `rank` falls from each matcher to every matcher it
   can reach without having consumed a token.
   */
  ghost predicate WellFounded(g: Grammar, nullable: set<nat>, rank: nat -> nat) {
    forall m | 0 <= m < |g.nodes| :: WellFoundedAt(g, nullable, rank, m)
  }

  ghost predicate WellFoundedAt(g: Grammar, nullable: set<nat>, rank: nat -> nat, m: nat)
    requires m < |g.nodes|
  {
    match g.nodes[m]
    case KeywordMatcher(_) => true
    case LeafMatcher(_) => true
    case ListMatcher(ms) =>
      && (AllIn(ms, nullable) ==> m in nullable)
      && forall k | 0 <= k < |ms| && AllIn(ms[..k], nullable) :: rank(ms[k]) < rank(m)
    case OptionalMatcher(c) => m in nullable && rank(c) < rank(m)
    case ChoiceMatcher(ms) =>
      forall k | 0 <= k < |ms| :: rank(ms[k]) < rank(m) && (ms[k] in nullable ==> m in nullable)
    case RepeatMatcher(e) => e !in nullable && rank(e) < rank(m)
  }

  ghost predicate AllIn(ms: seq<nat>, s: set<nat>) {
    forall i | 0 <= i < |ms| :: ms[i] in s
  }

  /** A matcher that succeeds without moving is in `nullable`; every success moves forward. */
  lemma {:induction false} OnlyNullableStays(g: Grammar, nullable: set<nat>, rank: nat -> nat, fuel: nat, m: nat, a: nat)
    requires g.Valid() && m < |g.nodes| && a <= |g.tokens| && WellFounded(g, nullable, rank)
    ensures var r := Parse(g, fuel, m, a);
            r.Parses? ==> a <= r.at <= |g.tokens| && (r.at == a ==> m in nullable)
    decreases fuel, 0, 0
  {
    ParseAccounts(g, fuel, m, a);
    if fuel == 0 {
    } else {
      assert g.nodes[m].RefersBelow(|g.nodes|);
      assert WellFoundedAt(g, nullable, rank, m);
      match g.nodes[m]
      case KeywordMatcher(_) =>
      case LeafMatcher(_) =>
      case ListMatcher(ms) => OnlyNullableListStays(g, nullable, rank, fuel - 1, ms, a);
      case OptionalMatcher(_) =>
      case ChoiceMatcher(ms) => OnlyNullableChoiceStays(g, nullable, rank, fuel - 1, ms, 0, a);
      case RepeatMatcher(e) =>
        OnlyNullableStays(g, nullable, rank, fuel - 1, e, a);
        var first := Parse(g, fuel - 1, e, a);
        if first.Parses? {
          ParseRepeatAccounts(g, fuel - 1, e, first.at);
        }
    }
  }

  lemma {:induction false} OnlyNullableListStays(g: Grammar, nullable: set<nat>, rank: nat -> nat, fuel: nat, ms: seq<nat>, a: nat)
    requires g.Valid() && a <= |g.tokens| && WellFounded(g, nullable, rank)
    requires forall i | 0 <= i < |ms| :: ms[i] < |g.nodes|
    ensures var r := ParseList(g, fuel, ms, a);
            r.LoopParses? ==> a <= r.at <= |g.tokens| && (r.at == a ==> AllIn(ms, nullable))
    decreases fuel, 1, |ms|
  {
    if ms == [] {
    } else {
      OnlyNullableStays(g, nullable, rank, fuel, ms[0], a);
      var first := Parse(g, fuel, ms[0], a);
      if first.Parses? {
        OnlyNullableListStays(g, nullable, rank, fuel, ms[1..], first.at);
        assert ms == [ms[0]] + ms[1..];
      }
    }
  }

  lemma {:induction false} OnlyNullableChoiceStays(g: Grammar, nullable: set<nat>, rank: nat -> nat, fuel: nat, ms: seq<nat>, k: nat, a: nat)
    requires g.Valid() && a <= |g.tokens| && WellFounded(g, nullable, rank)
    requires k <= |ms| && forall i | 0 <= i < |ms| :: ms[i] < |g.nodes|
    ensures var r := ParseChoice(g, fuel, ms, k, a);
            r.Parses? && r.at == a ==> exists i :: k <= i < |ms| && ms[i] in nullable
    decreases fuel, 1, |ms| - k
  {
    if k == |ms| {
    } else {
      OnlyNullableStays(g, nullable, rank, fuel, ms[k], a);
      if Parse(g, fuel, ms[k], a).Fails? {
        OnlyNullableChoiceStays(g, nullable, rank, fuel, ms, k + 1, a);
      }
    }
  }

  function Max(a: nat, b: nat): nat { if a < b then b else a }

  /** In a well-founded graph every match ends. */
  lemma {:induction false} ParseTerminates(g: Grammar, nullable: set<nat>, rank: nat -> nat, m: nat, a: nat) returns (fuel: nat)
    requires g.Valid() && m < |g.nodes| && a <= |g.tokens| && WellFounded(g, nullable, rank)
    ensures Parse(g, fuel, m, a) != Diverges
    decreases |g.tokens| - a, rank(m), |g.tokens| + 1
  {
    assert g.nodes[m].RefersBelow(|g.nodes|);
    assert WellFoundedAt(g, nullable, rank, m);
    match g.nodes[m]
    case KeywordMatcher(_) => fuel := 1;
    case LeafMatcher(_) => fuel := 1;
    case ListMatcher(ms) =>
      fuel := ListTerminates(g, nullable, rank, m, 0, a, a);
      assert ms[0..] == ms;
      fuel := fuel + 1;
    case OptionalMatcher(c) =>
      fuel := ParseTerminates(g, nullable, rank, c, a);
      fuel := fuel + 1;
    case ChoiceMatcher(ms) =>
      fuel := ChoiceTerminates(g, nullable, rank, m, 0, a);
      fuel := fuel + 1;
    case RepeatMatcher(e) =>
      fuel := ParseTerminates(g, nullable, rank, e, a);
      var first := Parse(g, fuel, e, a);
      if first.Parses? {
        OnlyNullableStays(g, nullable, rank, fuel, e, a);
        var more := RepeatTerminates(g, nullable, rank, m, a, first.at);
        FuelIsEnough(g, fuel, Max(fuel, more), e, a);
        RepeatFuelIsEnough(g, more, Max(fuel, more), e, first.at);
        fuel := Max(fuel, more);
      }
      fuel := fuel + 1;
  }

  /** The loop of list `m`, which started at `a`, from its matcher number `k` at `pos`. */
  lemma {:induction false} ListTerminates(g: Grammar, nullable: set<nat>, rank: nat -> nat, m: nat, k: nat, a: nat, pos: nat)
    returns (fuel: nat)
    requires g.Valid() && WellFounded(g, nullable, rank) && g.IsList(m)
    requires k <= |g.nodes[m].matchers| && a <= pos <= |g.tokens|
    requires pos == a ==> AllIn(g.nodes[m].matchers[..k], nullable)
    requires g.nodes[m].RefersBelow(|g.nodes|)
    ensures ParseList(g, fuel, g.nodes[m].matchers[k..], pos) != LoopDiverges
    decreases |g.tokens| - a, rank(m), 0, |g.nodes[m].matchers| - k
  {
    var ms := g.nodes[m].matchers;
    fuel := 0;
    if k >= |ms| {
    } else {
      assert WellFoundedAt(g, nullable, rank, m);
      fuel := ParseTerminates(g, nullable, rank, ms[k], pos);
      var first := Parse(g, fuel, ms[k], pos);
      if first.Parses? {
        OnlyNullableStays(g, nullable, rank, fuel, ms[k], pos);
        assert ms[..k + 1] == ms[..k] + [ms[k]];
        var more := ListTerminates(g, nullable, rank, m, k + 1, a, first.at);
        FuelIsEnough(g, fuel, Max(fuel, more), ms[k], pos);
        ListFuelIsEnough(g, more, Max(fuel, more), ms[k + 1..], first.at);
        fuel := Max(fuel, more);
        assert ms[k..][1..] == ms[k + 1..];
      }
    }
  }

  lemma {:induction false} ChoiceTerminates(g: Grammar, nullable: set<nat>, rank: nat -> nat, m: nat, k: nat, a: nat)
    returns (fuel: nat)
    requires g.Valid() && WellFounded(g, nullable, rank) && m < |g.nodes| && g.nodes[m].ChoiceMatcher?
    requires k <= |g.nodes[m].matchers| && a <= |g.tokens|
    requires g.nodes[m].RefersBelow(|g.nodes|)
    ensures ParseChoice(g, fuel, g.nodes[m].matchers, k, a) != Diverges
    decreases |g.tokens| - a, rank(m), 0, |g.nodes[m].matchers| - k
  {
    var ms := g.nodes[m].matchers;
    fuel := 0;
    if k >= |ms| {
    } else {
      assert WellFoundedAt(g, nullable, rank, m);
      fuel := ParseTerminates(g, nullable, rank, ms[k], a);
      if Parse(g, fuel, ms[k], a).Fails? {
        var more := ChoiceTerminates(g, nullable, rank, m, k + 1, a);
        FuelIsEnough(g, fuel, Max(fuel, more), ms[k], a);
        ChoiceFuelIsEnough(g, more, Max(fuel, more), ms, k + 1, a);
        fuel := Max(fuel, more);
      }
    }
  }

  /** The loop of repeat `m`, which started at `a`, after at least one repetition. */
  lemma {:induction false} RepeatTerminates(g: Grammar, nullable: set<nat>, rank: nat -> nat, m: nat, a: nat, pos: nat)
    returns (fuel: nat)
    requires g.Valid() && WellFounded(g, nullable, rank) && m < |g.nodes| && g.nodes[m].RepeatMatcher?
    requires a < pos <= |g.tokens|
    requires g.nodes[m].RefersBelow(|g.nodes|)
    ensures ParseRepeat(g, fuel, g.nodes[m].element, pos) != LoopDiverges
    decreases |g.tokens| - a, rank(m), 0, |g.tokens| - pos
  {
    var e := g.nodes[m].element;
    fuel := 0;
    if pos == |g.tokens| {
    } else {
      assert WellFoundedAt(g, nullable, rank, m);
      fuel := ParseTerminates(g, nullable, rank, e, pos);
      var first := Parse(g, fuel, e, pos);
      if first.Parses? {
        OnlyNullableStays(g, nullable, rank, fuel, e, pos);
        var more := RepeatTerminates(g, nullable, rank, m, a, first.at);
        FuelIsEnough(g, fuel, Max(fuel, more + 1), e, pos);
        RepeatFuelIsEnough(g, more, Max(fuel, more + 1) - 1, e, first.at);
        fuel := Max(fuel, more + 1);
      }
    }
  }
}
