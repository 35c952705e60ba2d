/**
 `Match`: the interpreter that completes queries (extension/autocomplete/matcher.cpp).

 It walks the same graph as `MatchParseResult`, but when a list runs out of tokens it gathers
 suggestions instead, and terminals other than keywords and strings read their token unguarded.
 */
module Matching {
  import opened Wrappers
  import opened MatcherGraph
  import opened ParseResults

  /**
   How a run ends. `at` and `added` are the caller's token index and its suggested matchers
   afterwards; `hinted` tells whether some list ran out of tokens and gathered suggestions.
   */
  datatype MatchRun =
    | MatchDiverges(hinted: bool)
    | MatchRaises(hinted: bool)
    | ReadsPastEnd(hinted: bool)
    | NoMatch(at: nat, hinted: bool)
    | Match(at: nat, added: set<nat>, hinted: bool)
  {
    function Hinting(h: bool): MatchRun {
      this.(hinted := hinted || h)
    }
  }

  // ---------------------------------------------------------------- suggestions

  /** A suggestion round: whether it met a mandatory matcher, and the matchers suggested so far. */
  datatype Suggested = Suggested(mandatory: bool, added: set<nat>)

  ghost function Ids(g: Grammar): set<nat> {
    set i: nat {:trigger g.nodes[i]} | i < |g.nodes|
  }

  /** `AddSuggestion`: a matcher suggested before is mandatory, without being visited again. */
  ghost function Suggest(g: Grammar, m: nat, added: set<nat>): (s: Suggested)
    requires g.Valid() && m < |g.nodes|
    ensures added <= s.added
    decreases Ids(g) - added, 0
  {
    if m in added then Suggested(true, added) else
    var now := added + {m};
    assert m in Ids(g) - added && m !in Ids(g) - now;
    assert g.nodes[m].RefersBelow(|g.nodes|);
    match g.nodes[m]
    case KeywordMatcher(_) => Suggested(true, now)
    case LeafMatcher(_) => Suggested(true, now)
    case ListMatcher(ms) => SuggestUntilMandatory(g, ms, now)
    case OptionalMatcher(c) => Suggested(false, Suggest(g, c, now).added)
    case ChoiceMatcher(ms) => Suggested(true, SuggestAll(g, ms, now))
    case RepeatMatcher(e) => Suggested(true, Suggest(g, e, now).added)
  }

  ghost function SuggestUntilMandatory(g: Grammar, ms: seq<nat>, added: set<nat>): (s: Suggested)
    requires g.Valid() && forall i | 0 <= i < |ms| :: ms[i] < |g.nodes|
    ensures added <= s.added
    decreases Ids(g) - added, 1, |ms|
  {
    if ms == [] then Suggested(false, added) else
    var first := Suggest(g, ms[0], added);
    if first.mandatory then first else
    SuggestUntilMandatory(g, ms[1..], first.added)
  }

  ghost function SuggestAll(g: Grammar, ms: seq<nat>, added: set<nat>): (s: set<nat>)
    requires g.Valid() && forall i | 0 <= i < |ms| :: ms[i] < |g.nodes|
    ensures added <= s
    decreases Ids(g) - added, 1, |ms|
  {
    if ms == [] then added else SuggestAll(g, ms[1..], Suggest(g, ms[0], added).added)
  }

  // ---------------------------------------------------------------- meaning

  predicate ChecksEnd(n: Node) {
    n.KeywordMatcher? || n == LeafMatcher(StringLiteral)
  }

  /** `added` is what the caller's state has suggested so far; copies of a state start empty. */
  ghost function Run(g: Grammar, fuel: nat, m: nat, at: nat, added: set<nat>): MatchRun
    requires g.Valid() && m < |g.nodes|
    decreases fuel, 0, 0
  {
    if fuel == 0 then MatchDiverges(false) else
    assert g.nodes[m].RefersBelow(|g.nodes|);
    match g.nodes[m]
    case KeywordMatcher(_) => RunTerminal(g, m, at, added)
    case LeafMatcher(_) => RunTerminal(g, m, at, added)
    case ListMatcher(ms) =>
      (match RunList(g, fuel - 1, ms, at, at, {})
       case Match(to, _, h) => Match(to, added, h)
       case other => other)
    case OptionalMatcher(c) =>
      (match Run(g, fuel - 1, c, at, {})
       case NoMatch(_, h) => Match(at, added, h)
       case Match(to, _, h) => Match(to, added, h)
       case other => other)
    case ChoiceMatcher(ms) =>
      (match RunChoice(g, fuel - 1, ms, at)
       case Match(to, _, h) => Match(to, added, h)
       case other => other)
    case RepeatMatcher(e) =>
      (match Run(g, fuel - 1, e, at, {})
       case NoMatch(_, h) => NoMatch(at, h)
       case Match(to, inner, h) => RunRepeat(g, fuel - 1, e, to, inner, added).Hinting(h)
       case other => other)
  }

  ghost function RunTerminal(g: Grammar, m: nat, at: nat, added: set<nat>): MatchRun
    requires m < |g.nodes|
  {
    if at >= |g.tokens| then
      if ChecksEnd(g.nodes[m]) then NoMatch(at, false) else ReadsPastEnd(false)
    else
      match g.answer(g.nodes[m], g.tokens[at].text)
      case Accept => Match(at + 1, added, false)
      case Reject => NoMatch(at, false)
      case Raise => MatchRaises(false)
  }

  /** The list that was entered at `start`, from its remaining matchers `ms` at `at`. */
  ghost function RunList(g: Grammar, fuel: nat, ms: seq<nat>, start: nat, at: nat, added: set<nat>): MatchRun
    requires g.Valid() && forall i | 0 <= i < |ms| :: ms[i] < |g.nodes|
    decreases fuel, 1, |ms|
  {
    if ms == [] then Match(at, added, false) else
    if at >= |g.tokens| then
      var s := SuggestUntilMandatory(g, ms, added);
      if s.mandatory then NoMatch(at, true) else Match(at, s.added, true)
    else
      match Run(g, fuel, ms[0], at, added)
      case NoMatch(_, h) => NoMatch(start, h)
      case Match(to, more, h) => RunList(g, fuel, ms[1..], start, to, more).Hinting(h)
      case other => other
  }

  ghost function RunChoice(g: Grammar, fuel: nat, ms: seq<nat>, at: nat): MatchRun
    requires g.Valid() && forall i | 0 <= i < |ms| :: ms[i] < |g.nodes|
    decreases fuel, 1, |ms|
  {
    if ms == [] then NoMatch(at, false) else
    match Run(g, fuel, ms[0], at, {})
    case NoMatch(_, h) => RunChoice(g, fuel, ms[1..], at).Hinting(h)
    case other => other
  }

  /** The repeat loop: `inner` belongs to its own state, `added` to the caller's. */
  ghost function RunRepeat(g: Grammar, fuel: nat, e: nat, at: nat, inner: set<nat>, added: set<nat>): (r: MatchRun)
    requires g.Valid() && e < |g.nodes|
    ensures !r.NoMatch?
    decreases fuel, 1, 0
  {
    if at >= |g.tokens| then Match(at, Suggest(g, e, added).added, false) else
    if fuel == 0 then MatchDiverges(false) else
    match Run(g, fuel, e, at, inner)
    case NoMatch(_, h) => Match(at, added, h)
    case Match(to, more, h) => RunRepeat(g, fuel - 1, e, to, more, added).Hinting(h)
    case other => other
  }

  // ---------------------------------------------------------------- the two interpreters agree

  /** Both fail, or both raise, or both diverge, or both succeed at the same token. */
  ghost predicate Agree(r: MatchRun, p: ParseResults.Run) {
    match r
    case MatchDiverges(_) => p == Diverges
    case MatchRaises(_) => p == Raises
    case ReadsPastEnd(_) => false
    case NoMatch(_, _) => p == Fails
    case Match(to, _, _) => p.Parses? && p.at == to
  }

  ghost predicate AgreeLoop(r: MatchRun, p: LoopRun) {
    match r
    case MatchDiverges(_) => p == LoopDiverges
    case MatchRaises(_) => p == LoopRaises
    case ReadsPastEnd(_) => false
    case NoMatch(_, _) => p == LoopFails
    case Match(to, _, _) => p.LoopParses? && p.at == to
  }

  /** A matcher may be entered here: a terminal that does not check needs a token. */
  ghost predicate MayEnter(g: Grammar, m: nat, at: nat) {
    m < |g.nodes| && (at < |g.tokens| || g.nodes[m].ListMatcher?)
  }

  /**
   `Match` and `MatchParseResult` agree on every run in which no list ran out of tokens: same
   verdict, same final token.
   */
  lemma {:induction false} InterpretersAgree(g: Grammar, fuel: nat, m: nat, at: nat, added: set<nat>)
    requires g.Valid() && MayEnter(g, m, at)
    requires !Run(g, fuel, m, at, added).hinted
    ensures Agree(Run(g, fuel, m, at, added), Parse(g, fuel, m, at))
    decreases fuel, 0, 0
  {
    if fuel == 0 {
      return;
    }
    assert g.nodes[m].RefersBelow(|g.nodes|);
    match g.nodes[m]
    case KeywordMatcher(_) =>
    case LeafMatcher(_) =>
    case ListMatcher(ms) => ListsAgree(g, fuel - 1, ms, at, at, {});
    case OptionalMatcher(c) => InterpretersAgree(g, fuel - 1, c, at, {});
    case ChoiceMatcher(ms) => ChoicesAgree(g, fuel - 1, ms, 0, at);
    case RepeatMatcher(e) =>
      InterpretersAgree(g, fuel - 1, e, at, {});
      var first := Run(g, fuel - 1, e, at, {});
      if first.Match? {
        RepeatsAgree(g, fuel - 1, e, first.at, first.added, added);
      }
  }

  lemma {:induction false} ListsAgree(g: Grammar, fuel: nat, ms: seq<nat>, start: nat, at: nat, added: set<nat>)
    requires g.Valid() && forall i | 0 <= i < |ms| :: ms[i] < |g.nodes|
    requires !RunList(g, fuel, ms, start, at, added).hinted
    ensures AgreeLoop(RunList(g, fuel, ms, start, at, added), ParseList(g, fuel, ms, at))
    decreases fuel, 1, |ms|
  {
    if ms == [] {
    } else {
      InterpretersAgree(g, fuel, ms[0], at, added);
      var first := Run(g, fuel, ms[0], at, added);
      if first.Match? {
        ListsAgree(g, fuel, ms[1..], start, first.at, first.added);
      }
    }
  }

  lemma {:induction false} ChoicesAgree(g: Grammar, fuel: nat, ms: seq<nat>, k: nat, at: nat)
    requires g.Valid() && k <= |ms| && at < |g.tokens| && forall i | 0 <= i < |ms| :: ms[i] < |g.nodes|
    requires !RunChoice(g, fuel, ms[k..], at).hinted
    ensures Agree(RunChoice(g, fuel, ms[k..], at), ParseChoice(g, fuel, ms, k, at))
    decreases fuel, 1, |ms| - k
  {
    if k == |ms| {
    } else {
      assert ms[k..][0] == ms[k] && ms[k..][1..] == ms[k + 1..];
      InterpretersAgree(g, fuel, ms[k], at, {});
      if Run(g, fuel, ms[k], at, {}).NoMatch? {
        ChoicesAgree(g, fuel, ms, k + 1, at);
      }
    }
  }

  lemma {:induction false} RepeatsAgree(g: Grammar, fuel: nat, e: nat, at: nat, inner: set<nat>, added: set<nat>)
    requires g.Valid() && e < |g.nodes|
    requires !RunRepeat(g, fuel, e, at, inner, added).hinted
    ensures AgreeLoop(RunRepeat(g, fuel, e, at, inner, added), ParseRepeat(g, fuel, e, at))
    decreases fuel, 1, 0
  {
    if at >= |g.tokens| || fuel == 0 {
    } else {
      InterpretersAgree(g, fuel, e, at, inner);
      var first := Run(g, fuel, e, at, inner);
      if first.Match? {
        RepeatsAgree(g, fuel - 1, e, first.at, first.added, added);
      }
    }
  }

  /**
   The condition is needed: on the token `SELECT`, the list of `SELECT` and a choice of an optional
   parses, but `Match` meets the choice with no token left, and a suggested choice is mandatory.
   */
  lemma HintedRunsMayDisagree(answer: (Node, string) -> Answer, decode: (Node, string) -> string)
    requires answer(KeywordMatcher("SELECT"), "SELECT") == Accept
    ensures var nodes := [ListMatcher([1, 2]), KeywordMatcher("SELECT"), ChoiceMatcher([3]), OptionalMatcher(1)];
            var g := Grammar(nodes, [Token("SELECT", 0)], answer, decode);
            && g.Valid()
            && Run(g, 9, 0, 0, {}) == NoMatch(1, true)
            && Parse(g, 9, 0, 0).Parses? && Parse(g, 9, 0, 0).at == 1
  {
    var nodes := [ListMatcher([1, 2]), KeywordMatcher("SELECT"), ChoiceMatcher([3]), OptionalMatcher(1)];
    var g := Grammar(nodes, [Token("SELECT", 0)], answer, decode);
    var s := SuggestUntilMandatory(g, [2], {});
    assert Suggest(g, 2, {}).mandatory && s.mandatory;
    assert [1, 2][1..] == [2];
    assert Run(g, 8, 1, 0, {}) == Match(1, {}, false);
    assert RunList(g, 8, [2], 0, 1, {}) == NoMatch(1, true);
    assert RunList(g, 8, [1, 2], 0, 0, {}) == NoMatch(1, true);
    assert Parse(g, 6, 1, 1) == Fails;
    assert Parse(g, 7, 3, 1) == Parses(OptionalResult(None, None), 1);
    assert ParseChoice(g, 7, [3], 0, 1).Parses?;
    assert Parse(g, 8, 2, 1).Parses?;
    assert ParseList(g, 8, [], 1) == LoopParses([], 1);
    assert [2][1..] == [];
    assert ParseList(g, 8, [2], 1).LoopParses?;
    assert ParseList(g, 8, [1, 2], 0).LoopParses?;
  }

  // ---------------------------------------------------------------- unguarded reads

  /** Entered at a list, or with a token left, no terminal ever reads past the last token. */
  lemma {:induction false} ReadsStayInRange(g: Grammar, fuel: nat, m: nat, at: nat, added: set<nat>)
    requires g.Valid() && MayEnter(g, m, at)
    ensures !Run(g, fuel, m, at, added).ReadsPastEnd?
    decreases fuel, 0, 0
  {
    if fuel == 0 {
    } else {
      assert g.nodes[m].RefersBelow(|g.nodes|);
      match g.nodes[m]
      case KeywordMatcher(_) =>
      case LeafMatcher(_) =>
      case ListMatcher(ms) => ListReadsStayInRange(g, fuel - 1, ms, at, at, {});
      case OptionalMatcher(c) => ReadsStayInRange(g, fuel - 1, c, at, {});
      case ChoiceMatcher(ms) => ChoiceReadsStayInRange(g, fuel - 1, ms, at);
      case RepeatMatcher(e) =>
        ReadsStayInRange(g, fuel - 1, e, at, {});
        var first := Run(g, fuel - 1, e, at, {});
        if first.Match? {
          RepeatReadsStayInRange(g, fuel - 1, e, first.at, first.added, added);
        }
    }
  }

  lemma {:induction false} ListReadsStayInRange(g: Grammar, fuel: nat, ms: seq<nat>, start: nat, at: nat, added: set<nat>)
    requires g.Valid() && forall i | 0 <= i < |ms| :: ms[i] < |g.nodes|
    ensures !RunList(g, fuel, ms, start, at, added).ReadsPastEnd?
    decreases fuel, 1, |ms|
  {
    if ms == [] || at >= |g.tokens| {
    } else {
      ReadsStayInRange(g, fuel, ms[0], at, added);
      var first := Run(g, fuel, ms[0], at, added);
      if first.Match? {
        ListReadsStayInRange(g, fuel, ms[1..], start, first.at, first.added);
      }
    }
  }

  lemma {:induction false} ChoiceReadsStayInRange(g: Grammar, fuel: nat, ms: seq<nat>, at: nat)
    requires g.Valid() && at < |g.tokens| && forall i | 0 <= i < |ms| :: ms[i] < |g.nodes|
    ensures !RunChoice(g, fuel, ms, at).ReadsPastEnd?
    decreases fuel, 1, |ms|
  {
    if ms == [] {
    } else {
      ReadsStayInRange(g, fuel, ms[0], at, {});
      ChoiceReadsStayInRange(g, fuel, ms[1..], at);
    }
  }

  lemma {:induction false} RepeatReadsStayInRange(g: Grammar, fuel: nat, e: nat, at: nat, inner: set<nat>, added: set<nat>)
    requires g.Valid() && e < |g.nodes|
    ensures !RunRepeat(g, fuel, e, at, inner, added).ReadsPastEnd?
    decreases fuel, 1, 0
  {
    if at >= |g.tokens| || fuel == 0 {
    } else {
      ReadsStayInRange(g, fuel, e, at, inner);
      var first := Run(g, fuel, e, at, inner);
      if first.Match? {
        RepeatReadsStayInRange(g, fuel - 1, e, first.at, first.added, added);
      }
    }
  }
}
