/**
 The two interpreters as they run: each matcher works on a `MatchState` that it advances in place,
 and on copies of it that it drops when it backtracks (extension/autocomplete/matcher.cpp).
 Every method is tied to its meaning in `Matching` or `ParseResults`.
 */
module Interpreters {
  import opened Wrappers
  import opened MatcherGraph
  import opened Matching
  import PR = ParseResults

  class MatchState {
    var tokenIndex: nat
    var addedSuggestions: set<nat>

    constructor (at: nat)
      ensures tokenIndex == at && addedSuggestions == {}
    {
      tokenIndex, addedSuggestions := at, {};
    }

    /** A copy starts with no suggested matchers. */
    constructor Copy(state: MatchState)
      ensures tokenIndex == state.tokenIndex && addedSuggestions == {}
    {
      tokenIndex, addedSuggestions := state.tokenIndex, {};
    }
  }

  datatype MatchResultType = SUCCESS | FAIL | RAISED | PAST_END | NO_FUEL

  /** The method's verdict and the caller's state are the ones of the run. */
  ghost predicate Is(run: MatchRun, r: MatchResultType, at: nat, added: set<nat>) {
    match run
    case MatchDiverges(_) => r == NO_FUEL
    case MatchRaises(_) => r == RAISED
    case ReadsPastEnd(_) => r == PAST_END
    case NoMatch(to, _) => r == FAIL && at == to
    case Match(to, s, _) => r == SUCCESS && at == to && added == s
  }

  // ---------------------------------------------------------------- suggestions

  /** `AddSuggestion`: true when the suggestion is mandatory. */
  method AddSuggestion(g: Grammar, m: nat, state: MatchState) returns (mandatory: bool)
    requires g.Valid() && m < |g.nodes|
    modifies state`addedSuggestions
    ensures Suggested(mandatory, state.addedSuggestions) == Suggest(g, m, old(state.addedSuggestions))
    decreases Ids(g) - state.addedSuggestions, 0
  {
    if m in state.addedSuggestions {
      return true;
    }
    assert m in Ids(g) - state.addedSuggestions;
    state.addedSuggestions := state.addedSuggestions + {m};
    assert m !in Ids(g) - state.addedSuggestions;
    assert g.nodes[m].RefersBelow(|g.nodes|);
    match g.nodes[m] {
      case KeywordMatcher(_) => mandatory := true;
      case LeafMatcher(_) => mandatory := true;
      case ListMatcher(ms) => mandatory := SuggestFrom(g, ms, 0, state);
      case OptionalMatcher(c) =>
        var _ := AddSuggestion(g, c, state);
        mandatory := false;
      case ChoiceMatcher(ms) =>
        SuggestEach(g, ms, state);
        mandatory := true;
      case RepeatMatcher(e) =>
        var _ := AddSuggestion(g, e, state);
        mandatory := true;
    }
  }

  /** Suggests the matchers from number `from` on, up to the first mandatory one. */
  method SuggestFrom(g: Grammar, ms: seq<nat>, from: nat, state: MatchState) returns (mandatory: bool)
    requires g.Valid() && from <= |ms| && forall i | 0 <= i < |ms| :: ms[i] < |g.nodes|
    modifies state`addedSuggestions
    ensures Suggested(mandatory, state.addedSuggestions)
            == SuggestUntilMandatory(g, ms[from..], old(state.addedSuggestions))
    decreases Ids(g) - state.addedSuggestions, 1
  {
    for i := from to |ms|
      invariant old(state.addedSuggestions) <= state.addedSuggestions
      invariant SuggestUntilMandatory(g, ms[from..], old(state.addedSuggestions))
                == SuggestUntilMandatory(g, ms[i..], state.addedSuggestions)
    {
      assert ms[i..][0] == ms[i] && ms[i..][1..] == ms[i + 1..];
      mandatory := AddSuggestion(g, ms[i], state);
      if mandatory {
        return;
      }
    }
    mandatory := false;
  }

  method SuggestEach(g: Grammar, ms: seq<nat>, state: MatchState)
    requires g.Valid() && forall i | 0 <= i < |ms| :: ms[i] < |g.nodes|
    modifies state`addedSuggestions
    ensures state.addedSuggestions == SuggestAll(g, ms, old(state.addedSuggestions))
    decreases Ids(g) - state.addedSuggestions, 1
  {
    assert ms[0..] == ms;
    for i := 0 to |ms|
      invariant old(state.addedSuggestions) <= state.addedSuggestions
      invariant SuggestAll(g, ms, old(state.addedSuggestions)) == SuggestAll(g, ms[i..], state.addedSuggestions)
    {
      assert ms[i..][0] == ms[i] && ms[i..][1..] == ms[i + 1..];
      var _ := AddSuggestion(g, ms[i], state);
    }
  }

  // ---------------------------------------------------------------- Match

  method MatchNode(g: Grammar, fuel: nat, m: nat, state: MatchState) returns (r: MatchResultType)
    requires g.Valid() && m < |g.nodes|
    modifies state
    ensures Is(Run(g, fuel, m, old(state.tokenIndex), old(state.addedSuggestions)), r, state.tokenIndex, state.addedSuggestions)
    decreases fuel, 0
  {
    if fuel == 0 {
      return NO_FUEL;
    }
    assert g.nodes[m].RefersBelow(|g.nodes|);
    match g.nodes[m] {
      case KeywordMatcher(_) => r := MatchTerminal(g, m, state);
      case LeafMatcher(_) => r := MatchTerminal(g, m, state);
      case ListMatcher(ms) => r := MatchList(g, fuel - 1, ms, state);
      case OptionalMatcher(c) => r := MatchOptional(g, fuel - 1, c, state);
      case ChoiceMatcher(ms) => r := MatchChoice(g, fuel - 1, ms, state);
      case RepeatMatcher(e) => r := MatchRepeat(g, fuel - 1, e, state);
    }
  }

  method MatchTerminal(g: Grammar, m: nat, state: MatchState) returns (r: MatchResultType)
    requires m < |g.nodes|
    modifies state`tokenIndex
    ensures Is(RunTerminal(g, m, old(state.tokenIndex), state.addedSuggestions), r, state.tokenIndex, state.addedSuggestions)
  {
    if state.tokenIndex >= |g.tokens| {
      return if ChecksEnd(g.nodes[m]) then FAIL else PAST_END;
    }
    match g.answer(g.nodes[m], g.tokens[state.tokenIndex].text) {
      case Accept =>
        state.tokenIndex := state.tokenIndex + 1;
        r := SUCCESS;
      case Reject => r := FAIL;
      case Raise => r := RAISED;
    }
  }

  method MatchOptional(g: Grammar, fuel: nat, c: nat, state: MatchState) returns (r: MatchResultType)
    requires g.Valid() && c < |g.nodes|
    modifies state`tokenIndex
    ensures match Run(g, fuel, c, old(state.tokenIndex), {})
            case NoMatch(_, _) => r == SUCCESS && state.tokenIndex == old(state.tokenIndex)
            case Match(to, _, _) => r == SUCCESS && state.tokenIndex == to
            case other => Is(other, r, state.tokenIndex, {})
    decreases fuel, 1
  {
    var childState := new MatchState.Copy(state);
    r := MatchNode(g, fuel, c, childState);
    if r == FAIL {
      return SUCCESS;
    }
    if r == SUCCESS {
      state.tokenIndex := childState.tokenIndex;
    }
  }

  method MatchList(g: Grammar, fuel: nat, ms: seq<nat>, state: MatchState) returns (r: MatchResultType)
    requires g.Valid() && forall i | 0 <= i < |ms| :: ms[i] < |g.nodes|
    modifies state`tokenIndex
    ensures match RunList(g, fuel, ms, old(state.tokenIndex), old(state.tokenIndex), {})
            case Match(to, _, _) => r == SUCCESS && state.tokenIndex == to
            case other => Is(other, r, state.tokenIndex, {})
    decreases fuel, 1
  {
    var listState := new MatchState.Copy(state);
    ghost var start, whole := state.tokenIndex, RunList(g, fuel, ms, state.tokenIndex, state.tokenIndex, {});
    ghost var hinted := false;
    assert ms[0..] == ms;
    for childIdx := 0 to |ms|
      invariant state.tokenIndex == start
      invariant whole == RunList(g, fuel, ms[childIdx..], start, listState.tokenIndex, listState.addedSuggestions).Hinting(hinted)
    {
      assert ms[childIdx..][0] == ms[childIdx] && ms[childIdx..][1..] == ms[childIdx + 1..];
      if listState.tokenIndex >= |g.tokens| {
        var mandatory := SuggestFrom(g, ms, childIdx, listState);
        state.tokenIndex := listState.tokenIndex;
        return if mandatory then FAIL else SUCCESS;
      }
      ghost var first := Run(g, fuel, ms[childIdx], listState.tokenIndex, listState.addedSuggestions);
      r := MatchNode(g, fuel, ms[childIdx], listState);
      if r != SUCCESS {
        return;
      }
      hinted := hinted || first.hinted;
    }
    state.tokenIndex := listState.tokenIndex;
    r := SUCCESS;
  }

  method MatchChoice(g: Grammar, fuel: nat, ms: seq<nat>, state: MatchState) returns (r: MatchResultType)
    requires g.Valid() && forall i | 0 <= i < |ms| :: ms[i] < |g.nodes|
    modifies state`tokenIndex
    ensures match RunChoice(g, fuel, ms, old(state.tokenIndex))
            case Match(to, _, _) => r == SUCCESS && state.tokenIndex == to
            case other => Is(other, r, state.tokenIndex, {})
    decreases fuel, 1
  {
    ghost var whole, hinted := RunChoice(g, fuel, ms, state.tokenIndex), false;
    assert ms[0..] == ms;
    for i := 0 to |ms|
      invariant state.tokenIndex == old(state.tokenIndex)
      invariant whole == RunChoice(g, fuel, ms[i..], state.tokenIndex).Hinting(hinted)
    {
      assert ms[i..][0] == ms[i] && ms[i..][1..] == ms[i + 1..];
      var choiceState := new MatchState.Copy(state);
      ghost var first := Run(g, fuel, ms[i], state.tokenIndex, {});
      r := MatchNode(g, fuel, ms[i], choiceState);
      if r == SUCCESS {
        state.tokenIndex := choiceState.tokenIndex;
      }
      if r != FAIL {
        return;
      }
      hinted := hinted || first.hinted;
    }
    r := FAIL;
  }

  method MatchRepeat(g: Grammar, fuel: nat, e: nat, state: MatchState) returns (r: MatchResultType)
    requires g.Valid() && e < |g.nodes|
    modifies state
    ensures match Run(g, fuel, e, old(state.tokenIndex), {})
            case NoMatch(_, _) => r == FAIL && state.tokenIndex == old(state.tokenIndex)
            case Match(to, inner, _) =>
              Is(RunRepeat(g, fuel, e, to, inner, old(state.addedSuggestions)), r, state.tokenIndex, state.addedSuggestions)
            case other => Is(other, r, state.tokenIndex, {})
    decreases fuel, 1
  {
    var repeatState := new MatchState.Copy(state);
    r := MatchNode(g, fuel, e, repeatState);
    if r != SUCCESS {
      return;
    }
    ghost var whole := RunRepeat(g, fuel, e, repeatState.tokenIndex, repeatState.addedSuggestions, state.addedSuggestions);
    ghost var hinted := false;
    var left: nat := fuel;
    while true
      invariant left <= fuel && state.addedSuggestions == old(state.addedSuggestions)
      invariant whole == RunRepeat(g, left, e, repeatState.tokenIndex, repeatState.addedSuggestions, state.addedSuggestions).Hinting(hinted)
      decreases left
    {
      state.tokenIndex := repeatState.tokenIndex;
      if repeatState.tokenIndex >= |g.tokens| {
        var _ := AddSuggestion(g, e, state);
        return SUCCESS;
      }
      if left == 0 {
        return NO_FUEL;
      }
      ghost var next := Run(g, left, e, repeatState.tokenIndex, repeatState.addedSuggestions);
      r := MatchNode(g, left, e, repeatState);
      if r == FAIL {
        return SUCCESS;
      }
      if r != SUCCESS {
        return;
      }
      hinted := hinted || next.hinted;
      left := left - 1;
    }
  }

  // ---------------------------------------------------------------- MatchParseResult

  datatype Outcome = NoResult | Found(tree: PR.ParseResult) | Raised | OutOfFuel

  /** The tree and the advanced state are the ones of the run; without a tree the state is as before. */
  ghost predicate IsParse(run: PR.Run, r: Outcome, before: nat, at: nat) {
    match run
    case Diverges => r == OutOfFuel
    case Raises => r == Raised
    case Fails => r == NoResult && at == before
    case Parses(t, to) => r == Found(t) && at == to
  }

  method MatchParseResult(g: Grammar, fuel: nat, m: nat, state: MatchState) returns (r: Outcome)
    requires g.Valid() && m < |g.nodes|
    modifies state`tokenIndex
    ensures IsParse(PR.Parse(g, fuel, m, old(state.tokenIndex)), r, old(state.tokenIndex), state.tokenIndex)
    decreases fuel, 0
  {
    if fuel == 0 {
      return OutOfFuel;
    }
    assert g.nodes[m].RefersBelow(|g.nodes|);
    match g.nodes[m] {
      case KeywordMatcher(_) => r := TerminalParseResult(g, m, state);
      case LeafMatcher(_) => r := TerminalParseResult(g, m, state);
      case ListMatcher(ms) => r := ListParseResult(g, fuel - 1, ms, state);
      case OptionalMatcher(c) => r := OptionalParseResult(g, fuel - 1, c, state);
      case ChoiceMatcher(ms) => r := ChoiceParseResult(g, fuel - 1, ms, state);
      case RepeatMatcher(e) => r := RepeatParseResult(g, fuel - 1, e, state);
    }
  }

  method TerminalParseResult(g: Grammar, m: nat, state: MatchState) returns (r: Outcome)
    requires m < |g.nodes|
    modifies state`tokenIndex
    ensures IsParse(PR.ParseTerminal(g, m, old(state.tokenIndex)), r, old(state.tokenIndex), state.tokenIndex)
  {
    if state.tokenIndex >= |g.tokens| {
      return NoResult;
    }
    var token := g.tokens[state.tokenIndex];
    var verdict := MatchTerminal(g, m, state);
    if verdict == RAISED {
      return Raised;
    }
    if verdict != SUCCESS {
      return NoResult;
    }
    r := Found(PR.TerminalResult(g.decode(g.nodes[m], token.text), token.offset));
  }

  method OptionalParseResult(g: Grammar, fuel: nat, c: nat, state: MatchState) returns (r: Outcome)
    requires g.Valid() && c < |g.nodes|
    modifies state`tokenIndex
    ensures match PR.Parse(g, fuel, c, old(state.tokenIndex))
            case Fails => r == Found(PR.OptionalResult(None, None)) && state.tokenIndex == old(state.tokenIndex)
            case Parses(t, to) =>
              r == Found(PR.OptionalResult(Some(t), PR.StartOffset(g, old(state.tokenIndex)))) && state.tokenIndex == to
            case other => IsParse(other, r, old(state.tokenIndex), state.tokenIndex)
    decreases fuel, 1
  {
    var childState := new MatchState.Copy(state);
    var start := PR.StartOffset(g, childState.tokenIndex);
    r := MatchParseResult(g, fuel, c, childState);
    if r == NoResult {
      return Found(PR.OptionalResult(None, None));
    }
    if r.Found? {
      state.tokenIndex := childState.tokenIndex;
      r := Found(PR.OptionalResult(Some(r.tree), start));
    }
  }

  method ListParseResult(g: Grammar, fuel: nat, ms: seq<nat>, state: MatchState) returns (r: Outcome)
    requires g.Valid() && forall i | 0 <= i < |ms| :: ms[i] < |g.nodes|
    modifies state`tokenIndex
    ensures match PR.ParseList(g, fuel, ms, old(state.tokenIndex))
            case LoopDiverges => r == OutOfFuel
            case LoopRaises => r == Raised
            case LoopFails => r == NoResult && state.tokenIndex == old(state.tokenIndex)
            case LoopParses(trees, to) =>
              r == Found(PR.ListResult(trees, PR.StartOffset(g, old(state.tokenIndex)))) && state.tokenIndex == to
    decreases fuel, 1
  {
    var listState := new MatchState.Copy(state);
    var results: seq<PR.ParseResult> := [];
    var start := PR.StartOffset(g, listState.tokenIndex);
    ghost var whole := PR.ParseList(g, fuel, ms, state.tokenIndex);
    assert ms[0..] == ms;
    for i := 0 to |ms|
      invariant state.tokenIndex == old(state.tokenIndex)
      invariant Continues(whole, results, PR.ParseList(g, fuel, ms[i..], listState.tokenIndex))
    {
      assert ms[i..][0] == ms[i] && ms[i..][1..] == ms[i + 1..];
      r := MatchParseResult(g, fuel, ms[i], listState);
      if !r.Found? {
        return;
      }
      ContinuesWith(whole, results, r.tree, PR.ParseList(g, fuel, ms[i + 1..], listState.tokenIndex));
      results := results + [r.tree];
    }
    assert results + [] == results;
    state.tokenIndex := listState.tokenIndex;
    r := Found(PR.ListResult(results, start));
  }

  /** The whole loop is the trees found so far followed by the rest of the loop. */
  ghost predicate Continues(whole: PR.LoopRun, found: seq<PR.ParseResult>, rest: PR.LoopRun) {
    match rest
    case LoopParses(trees, to) => whole == PR.LoopParses(found + trees, to)
    case other => whole == other
  }

  lemma ContinuesWith(whole: PR.LoopRun, found: seq<PR.ParseResult>, t: PR.ParseResult, rest: PR.LoopRun)
    requires Continues(whole, found,
                       match rest case LoopParses(trees, to) => PR.LoopParses([t] + trees, to) case other => other)
    ensures Continues(whole, found + [t], rest)
  {
    if rest.LoopParses? {
      assert found + ([t] + rest.trees) == found + [t] + rest.trees;
    }
  }

  method ChoiceParseResult(g: Grammar, fuel: nat, ms: seq<nat>, state: MatchState) returns (r: Outcome)
    requires g.Valid() && forall i | 0 <= i < |ms| :: ms[i] < |g.nodes|
    modifies state`tokenIndex
    ensures IsParse(PR.ParseChoice(g, fuel, ms, 0, old(state.tokenIndex)), r, old(state.tokenIndex), state.tokenIndex)
    decreases fuel, 1
  {
    var start := PR.StartOffset(g, state.tokenIndex);
    for i := 0 to |ms|
      invariant state.tokenIndex == old(state.tokenIndex)
      invariant PR.ParseChoice(g, fuel, ms, 0, state.tokenIndex) == PR.ParseChoice(g, fuel, ms, i, state.tokenIndex)
    {
      var choiceState := new MatchState.Copy(state);
      r := MatchParseResult(g, fuel, ms[i], choiceState);
      if r.Found? {
        state.tokenIndex := choiceState.tokenIndex;
        return Found(PR.ChoiceResult(r.tree, i, start));
      }
      if r != NoResult {
        return;
      }
    }
    r := NoResult;
  }

  method RepeatParseResult(g: Grammar, fuel: nat, e: nat, state: MatchState) returns (r: Outcome)
    requires g.Valid() && e < |g.nodes|
    modifies state`tokenIndex
    ensures match PR.Parse(g, fuel, e, old(state.tokenIndex))
            case Parses(t, to) =>
              (match PR.ParseRepeat(g, fuel, e, to)
               case LoopParses(trees, end) =>
                 && r == Found(PR.RepeatResult([t] + trees, PR.StartOffset(g, old(state.tokenIndex))))
                 && state.tokenIndex == end
               case LoopRaises => r == Raised
               case _ => r == OutOfFuel)
            case other => IsParse(other, r, old(state.tokenIndex), state.tokenIndex)
    decreases fuel, 1
  {
    var repeatState := new MatchState.Copy(state);
    var start := PR.StartOffset(g, repeatState.tokenIndex);
    r := MatchParseResult(g, fuel, e, repeatState);
    if !r.Found? {
      return;
    }
    var first, results: seq<PR.ParseResult> := r.tree, [];
    ghost var whole := PR.ParseRepeat(g, fuel, e, repeatState.tokenIndex);
    var left: nat := fuel;
    while true
      invariant left <= fuel
      invariant Continues(whole, results, PR.ParseRepeat(g, left, e, repeatState.tokenIndex))
      decreases left
    {
      state.tokenIndex := repeatState.tokenIndex;
      if repeatState.tokenIndex >= |g.tokens| {
        break;
      }
      if left == 0 {
        return OutOfFuel;
      }
      r := MatchParseResult(g, left, e, repeatState);
      if r == NoResult {
        break;
      }
      if !r.Found? {
        return;
      }
      ContinuesWith(whole, results, r.tree, PR.ParseRepeat(g, left - 1, e, repeatState.tokenIndex));
      results := results + [r.tree];
      left := left - 1;
    }
    assert results + [] == results;
    r := Found(PR.RepeatResult([first] + results, start));
  }
}
