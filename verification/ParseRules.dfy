/**
 The rules of `MatchParseResult` (extension/autocomplete/matcher.cpp), one for each kind of matcher.

 A rule says how a matcher ends when it is known how the matchers it refers to end, and where. It
 speaks of token indices and trees only, not of loops: a repeat goes on as long as its element
 parses and tokens are left, a choice takes its first alternative that parses, an optional is empty
 only if its child fails, and nothing fails without a reason. What can be derived by these rules is
 exactly what the interpreter computes, wherever it ends.
 */
module ParseRules {
  import opened Wrappers
  import opened Sequences
  import opened MatcherGraph
  import opened ParseResults

  /** Which runs are known: matcher, token index, and how it ends. */
  type Known = (nat, nat, Run) -> bool

  // ---------------------------------------------------------------- the rules

  /** From `a` on, the matchers parse one after the other: number `i` from `ats[i]` to `ats[i + 1]`, as `ts[i]`. */
  ghost predicate Chain(known: Known, ms: seq<nat>, a: nat, ts: seq<ParseResult>, ats: seq<nat>) {
    && |ts| <= |ms| && |ats| == |ts| + 1 && ats[0] == a
    && forall i | 0 <= i < |ts| :: known(ms[i], ats[i], Parses(ts[i], ats[i + 1]))
  }

  /** How a terminal ends: it takes one token, which must be there. */
  ghost predicate TerminalRule(g: Grammar, node: Node, a: nat, r: Run) {
    if a >= |g.tokens| then r == Fails else
    var token := g.tokens[a];
    match g.answer(node, token.text)
    case Accept => r == Parses(TerminalResult(g.decode(node, token.text), token.offset), a + 1)
    case Reject => r == Fails
    case Raise => r == Raises
  }

  /** A list parses when all its matchers do, and otherwise ends like the first one that does not. */
  ghost predicate ListRule(g: Grammar, known: Known, ms: seq<nat>, a: nat, r: Run) {
    exists ts, ats :: ListEnds(g, known, ms, a, r, ts, ats)
  }

  ghost predicate ListEnds(g: Grammar, known: Known, ms: seq<nat>, a: nat, r: Run, ts: seq<ParseResult>, ats: seq<nat>) {
    && Chain(known, ms, a, ts, ats)
    && if |ts| == |ms| then r == Parses(ListResult(ts, StartOffset(g, a)), End(ats))
       else IsFailure(r) && known(ms[|ts|], End(ats), r)
  }

  predicate IsFailure(r: Run) {
    r == Fails || r == Raises
  }

  /** An optional never fails, and is empty only if its child fails. */
  ghost predicate OptionalRule(g: Grammar, known: Known, c: nat, a: nat, r: Run) {
    || (r == Parses(OptionalResult(None, None), a) && known(c, a, Fails))
    || (r == Raises && known(c, a, Raises))
    || (r.Parses? && r.tree.OptionalResult? && r.tree.child.Some? && r.tree.start == StartOffset(g, a)
        && known(c, a, Parses(r.tree.child.value, r.at)))
  }

  ghost predicate AllFail(known: Known, ms: seq<nat>, a: nat) {
    forall j | 0 <= j < |ms| :: known(ms[j], a, Fails)
  }

  /** A choice ends like its first alternative that does not fail, and fails only if all of them do. */
  ghost predicate ChoiceRule(g: Grammar, known: Known, ms: seq<nat>, a: nat, r: Run) {
    || (r == Fails && AllFail(known, ms, a))
    || (r == Raises && exists k :: 0 <= k < |ms| && known(ms[k], a, Raises) && AllFail(known, ms[..k], a))
    || (r.Parses? && r.tree.ChoiceResult? && r.tree.selected < |ms| && r.tree.start == StartOffset(g, a)
        && known(ms[r.tree.selected], a, Parses(r.tree.chosen, r.at)) && AllFail(known, ms[..r.tree.selected], a))
  }

  /**
   A repeat fails only if its element does at once. It takes the element as often as that parses,
   until there is no token left, and at least once.
   */
  ghost predicate RepeatRule(g: Grammar, known: Known, e: nat, a: nat, r: Run) {
    exists ts, ats :: RepeatEnds(g, known, e, a, r, ts, ats)
  }

  ghost predicate RepeatEnds(g: Grammar, known: Known, e: nat, a: nat, r: Run, ts: seq<ParseResult>, ats: seq<nat>) {
    && Chain(known, Again(e, |ts|), a, ts, ats)
    && (forall i | 0 < i < |ts| :: ats[i] < |g.tokens|)
    && if ts == [] then IsFailure(r) && known(e, a, r)
       else if r.Parses? then
         && r == Parses(RepeatResult(ts, StartOffset(g, a)), End(ats))
         && (End(ats) >= |g.tokens| || known(e, End(ats), Fails))
       else r == Raises && End(ats) < |g.tokens| && known(e, End(ats), Raises)
  }

  ghost predicate Rule(g: Grammar, known: Known, m: nat, a: nat, r: Run)
    requires m < |g.nodes|
  {
    match g.nodes[m]
    case KeywordMatcher(_) => TerminalRule(g, g.nodes[m], a, r)
    case LeafMatcher(_) => TerminalRule(g, g.nodes[m], a, r)
    case ListMatcher(ms) => ListRule(g, known, ms, a, r)
    case OptionalMatcher(c) => OptionalRule(g, known, c, a, r)
    case ChoiceMatcher(ms) => ChoiceRule(g, known, ms, a, r)
    case RepeatMatcher(e) => RepeatRule(g, known, e, a, r)
  }

  /** What can be derived by at most `n` rules on top of each other. */
  ghost predicate Derivable(g: Grammar, n: nat, m: nat, a: nat, r: Run) {
    n > 0 && m < |g.nodes| && Rule(g, (m': nat, a': nat, r': Run) => Derivable(g, n - 1, m', a', r'), m, a, r)
  }

  /** The interpreter ends like this, if it has enough fuel. */
  ghost predicate Ends(g: Grammar, m: nat, a: nat, r: Run)
    requires g.Valid()
  {
    r != Diverges && m < |g.nodes| && exists fuel: nat :: Parse(g, fuel, m, a) == r
  }

  // ---------------------------------------------------------------- what is known

  ghost predicate Weaker(known: Known, more: Known) {
    forall m, a, r | known(m, a, r) :: more(m, a, r)
  }

  /** More knowledge leaves what has been derived as it is. */
  lemma RuleGrows(g: Grammar, known: Known, more: Known, m: nat, a: nat, r: Run)
    requires m < |g.nodes| && Weaker(known, more) && Rule(g, known, m, a, r)
    ensures Rule(g, more, m, a, r)
  {
    match g.nodes[m]
    case ListMatcher(ms) =>
      var ts, ats :| ListEnds(g, known, ms, a, r, ts, ats);
      assert ListEnds(g, more, ms, a, r, ts, ats);
    case RepeatMatcher(e) =>
      var ts, ats :| RepeatEnds(g, known, e, a, r, ts, ats);
      assert RepeatEnds(g, more, e, a, r, ts, ats);
    case _ =>
  }

  /** The runs with this fuel that end. */
  ghost function With(g: Grammar, fuel: nat): Known
    requires g.Valid()
  {
    (m: nat, a: nat, r: Run) => m < |g.nodes| && r != Diverges && Parse(g, fuel, m, a) == r
  }

  lemma WithGrows(g: Grammar, f: nat, h: nat)
    requires g.Valid() && f <= h
    ensures Weaker(With(g, f), With(g, h))
  {
    forall m, a, r | With(g, f)(m, a, r)
      ensures With(g, h)(m, a, r)
    {
      FuelIsEnough(g, f, h, m, a);
    }
  }

  // ---------------------------------------------------------------- the interpreter follows the rules

  /** A chain with one more matcher before it. */
  lemma ChainBefore(known: Known, ms: seq<nat>, a: nat, t: ParseResult, to: nat, ts: seq<ParseResult>, ats: seq<nat>)
    requires ms != [] && known(ms[0], a, Parses(t, to)) && Chain(known, ms[1..], to, ts, ats)
    ensures Chain(known, ms, a, [t] + ts, [a] + ats) && End([a] + ats) == End(ats)
  {
    forall i | 0 <= i < |ts| + 1
      ensures known(ms[i], ([a] + ats)[i], Parses(([t] + ts)[i], ([a] + ats)[i + 1]))
    {
      if i > 0 {
        assert ms[i] == ms[1..][i - 1];
      }
    }
  }

  lemma {:induction false} ListFollows(g: Grammar, fuel: nat, ms: seq<nat>, a: nat) returns (ts: seq<ParseResult>, ats: seq<nat>)
    requires g.Valid() && forall i | 0 <= i < |ms| :: ms[i] < |g.nodes|
    ensures var r := ParseList(g, fuel, ms, a);
            !r.LoopDiverges? ==>
              && Chain(With(g, fuel), ms, a, ts, ats)
              && (r.LoopParses? ==> ts == r.trees && |ts| == |ms| && End(ats) == r.at)
              && (!r.LoopParses? ==> |ts| < |ms| && With(g, fuel)(ms[|ts|], End(ats), if r.LoopFails? then Fails else Raises))
    decreases |ms|
  {
    ts, ats := [], [a];
    if ms == [] {
    } else {
      var first := Parse(g, fuel, ms[0], a);
      if first.Parses? {
        var ts', ats' := ListFollows(g, fuel, ms[1..], first.at);
        if !ParseList(g, fuel, ms, a).LoopDiverges? {
          ChainBefore(With(g, fuel), ms, a, first.tree, first.at, ts', ats');
          ts, ats := [first.tree] + ts', [a] + ats';
        }
      }
    }
  }

  lemma {:induction false} ChoiceFollows(g: Grammar, fuel: nat, ms: seq<nat>, k: nat, a: nat)
    requires g.Valid() && k <= |ms| && forall i | 0 <= i < |ms| :: ms[i] < |g.nodes|
    requires forall j | 0 <= j < k :: Parse(g, fuel, ms[j], a) == Fails
    ensures var r := ParseChoice(g, fuel, ms, k, a);
            r != Diverges ==> ChoiceRule(g, With(g, fuel), ms, a, r)
    decreases |ms| - k
  {
    if k == |ms| {
    } else if Parse(g, fuel, ms[k], a) == Fails {
      ChoiceFollows(g, fuel, ms, k + 1, a);
    } else {
      assert Parse(g, fuel, ms[k], a) == Raises ==> With(g, fuel)(ms[k], a, Raises);
    }
  }

  /** Further repetitions, after at least one; they are known with more fuel as well. */
  lemma {:induction false} RepeatFollows(g: Grammar, fuel: nat, e: nat, a: nat) returns (ts: seq<ParseResult>, ats: seq<nat>)
    requires g.Valid() && e < |g.nodes|
    ensures var r := ParseRepeat(g, fuel, e, a);
            !r.LoopDiverges? ==>
              && Chain(With(g, fuel), Again(e, |ts|), a, ts, ats)
              && (forall i | 0 <= i < |ts| :: ats[i] < |g.tokens|)
              && (r.LoopParses? ==> ts == r.trees && End(ats) == r.at
                                    && (End(ats) >= |g.tokens| || With(g, fuel)(e, End(ats), Fails)))
              && (r.LoopRaises? ==> End(ats) < |g.tokens| && With(g, fuel)(e, End(ats), Raises))
    decreases fuel
  {
    ts, ats := [], [a];
    if a >= |g.tokens| || fuel == 0 {
    } else {
      var first := Parse(g, fuel, e, a);
      if first.Parses? {
        var ts', ats' := RepeatFollows(g, fuel - 1, e, first.at);
        if !ParseRepeat(g, fuel, e, a).LoopDiverges? {
          WithGrows(g, fuel - 1, fuel);
          ts, ats := [first.tree] + ts', [a] + ats';
          assert Again(e, |ts|)[1..] == Again(e, |ts'|);
          ChainBefore(With(g, fuel), Again(e, |ts|), a, first.tree, first.at, ts', ats');
        }
      }
    }
  }

  /** Where the interpreter ends, it ends by the rules. */
  lemma ParseFollows(g: Grammar, fuel: nat, m: nat, a: nat)
    requires g.Valid() && m < |g.nodes| && fuel > 0 && Parse(g, fuel, m, a) != Diverges
    ensures Rule(g, With(g, fuel - 1), m, a, Parse(g, fuel, m, a))
  {
    assert g.nodes[m].RefersBelow(|g.nodes|);
    match g.nodes[m]
    case KeywordMatcher(_) =>
    case LeafMatcher(_) =>
    case ListMatcher(ms) =>
      var ts, ats := ListFollows(g, fuel - 1, ms, a);
      assert ListEnds(g, With(g, fuel - 1), ms, a, Parse(g, fuel, m, a), ts, ats);
    case OptionalMatcher(c) =>
    case ChoiceMatcher(ms) => ChoiceFollows(g, fuel - 1, ms, 0, a);
    case RepeatMatcher(e) => RepetitionFollows(g, fuel - 1, e, a, Parse(g, fuel, m, a));
  }

  lemma RepetitionFollows(g: Grammar, fuel: nat, e: nat, a: nat, r: Run)
    requires g.Valid() && e < |g.nodes| && r != Diverges
    requires var first := Parse(g, fuel, e, a);
             if !first.Parses? then r == first else
             var rest := ParseRepeat(g, fuel, e, first.at);
             if rest.LoopParses? then r == Parses(RepeatResult([first.tree] + rest.trees, StartOffset(g, a)), rest.at)
             else rest.LoopRaises? && r == Raises
    ensures RepeatRule(g, With(g, fuel), e, a, r)
  {
    var first := Parse(g, fuel, e, a);
    if first.Parses? {
      var ts, ats := RepeatFollows(g, fuel, e, first.at);
      assert Again(e, |ts| + 1)[1..] == Again(e, |ts|);
      ChainBefore(With(g, fuel), Again(e, |ts| + 1), a, first.tree, first.at, ts, ats);
      assert RepeatEnds(g, With(g, fuel), e, a, r, [first.tree] + ts, [a] + ats);
    } else {
      assert RepeatEnds(g, With(g, fuel), e, a, r, [], [a]);
    }
  }

  // ---------------------------------------------------------------- the rules are followed to the end

  /** What a chain says of its rest. */
  lemma ChainAfter(known: Known, ms: seq<nat>, a: nat, ts: seq<ParseResult>, ats: seq<nat>)
    requires Chain(known, ms, a, ts, ats) && ts != []
    ensures known(ms[0], a, Parses(ts[0], ats[1])) && Chain(known, ms[1..], ats[1], ts[1..], ats[1..])
    ensures End(ats[1..]) == End(ats)
  {
    forall i | 0 <= i < |ts| - 1
      ensures known(ms[1..][i], ats[1..][i], Parses(ts[1..][i], ats[1..][i + 1]))
    {
      assert known(ms[i + 1], ats[i + 1], Parses(ts[i + 1], ats[i + 2]));
    }
  }

  lemma {:induction false} ListReaches(g: Grammar, fuel: nat, ms: seq<nat>, a: nat, ts: seq<ParseResult>, ats: seq<nat>, r: Run)
    requires g.Valid() && (forall i | 0 <= i < |ms| :: ms[i] < |g.nodes|) && Chain(With(g, fuel), ms, a, ts, ats)
    requires |ts| < |ms| ==> IsFailure(r) && With(g, fuel)(ms[|ts|], End(ats), r)
    ensures ParseList(g, fuel, ms, a)
            == if |ts| == |ms| then LoopParses(ts, End(ats)) else if r == Fails then LoopFails else LoopRaises
    decreases |ts|
  {
    if ts == [] {
    } else {
      ChainAfter(With(g, fuel), ms, a, ts, ats);
      assert |ts| < |ms| ==> ms[1..][|ts| - 1] == ms[|ts|];
      ListReaches(g, fuel, ms[1..], ats[1], ts[1..], ats[1..], r);
      assert [ts[0]] + ts[1..] == ts;
    }
  }

  lemma {:induction false} ChoiceReaches(g: Grammar, fuel: nat, ms: seq<nat>, k: nat, a: nat, r: Run)
    requires g.Valid() && k <= |ms| && forall i | 0 <= i < |ms| :: ms[i] < |g.nodes|
    requires ChoiceRule(g, With(g, fuel), ms, a, r) && forall j | 0 <= j < k :: With(g, fuel)(ms[j], a, Fails)
    ensures ParseChoice(g, fuel, ms, k, a) == r
    decreases |ms| - k
  {
    if k == |ms| || Parse(g, fuel, ms[k], a) != Fails {
    } else {
      ChoiceReaches(g, fuel, ms, k + 1, a, r);
    }
  }

  /** The loop needs fuel for each repetition. */
  lemma {:induction false} RepeatReaches(g: Grammar, fuel: nat, e: nat, a: nat, ts: seq<ParseResult>, ats: seq<nat>, raises: bool)
    requires g.Valid() && e < |g.nodes| && Chain(With(g, fuel), Again(e, |ts|), a, ts, ats)
    requires forall i | 0 <= i < |ts| :: ats[i] < |g.tokens|
    requires if raises then End(ats) < |g.tokens| && With(g, fuel)(e, End(ats), Raises)
             else End(ats) >= |g.tokens| || With(g, fuel)(e, End(ats), Fails)
    ensures ParseRepeat(g, fuel + |ts| + 1, e, a) == if raises then LoopRaises else LoopParses(ts, End(ats))
    decreases |ts|
  {
    WithGrows(g, fuel, fuel + |ts| + 1);
    if ts == [] {
      assert With(g, fuel + 1)(e, a, Fails) || With(g, fuel + 1)(e, a, Raises) || a >= |g.tokens|;
    } else {
      ChainAfter(With(g, fuel), Again(e, |ts|), a, ts, ats);
      assert Again(e, |ts|)[1..] == Again(e, |ts| - 1);
      RepeatReaches(g, fuel, e, ats[1], ts[1..], ats[1..], raises);
      assert With(g, fuel + |ts| + 1)(e, a, Parses(ts[0], ats[1]));
      assert [ts[0]] + ts[1..] == ts;
    }
  }

  /** What follows by a rule from runs that end, ends like that. */
  lemma RuleReaches(g: Grammar, fuel: nat, m: nat, a: nat, r: Run)
    requires g.Valid() && m < |g.nodes| && Rule(g, With(g, fuel), m, a, r)
    ensures Ends(g, m, a, r)
  {
    assert g.nodes[m].RefersBelow(|g.nodes|);
    match g.nodes[m]
    case KeywordMatcher(_) => assert Parse(g, 1, m, a) == r;
    case LeafMatcher(_) => assert Parse(g, 1, m, a) == r;
    case ListMatcher(ms) =>
      var ts, ats :| ListEnds(g, With(g, fuel), ms, a, r, ts, ats);
      ListReaches(g, fuel, ms, a, ts, ats, r);
      assert Parse(g, fuel + 1, m, a) == r;
    case OptionalMatcher(c) => assert Parse(g, fuel + 1, m, a) == r;
    case ChoiceMatcher(ms) =>
      ChoiceReaches(g, fuel, ms, 0, a, r);
      assert Parse(g, fuel + 1, m, a) == r;
    case RepeatMatcher(e) => RepetitionReaches(g, fuel, m, e, a, r);
  }

  lemma RepetitionReaches(g: Grammar, fuel: nat, m: nat, e: nat, a: nat, r: Run)
    requires g.Valid() && m < |g.nodes| && g.nodes[m] == RepeatMatcher(e) && RepeatRule(g, With(g, fuel), e, a, r)
    ensures Ends(g, m, a, r)
  {
    assert g.nodes[m].RefersBelow(|g.nodes|);
    var ts, ats :| RepeatEnds(g, With(g, fuel), e, a, r, ts, ats);
    if ts == [] {
      assert Parse(g, fuel + 1, m, a) == r;
    } else {
      var h := fuel + |ts|;
      ChainAfter(With(g, fuel), Again(e, |ts|), a, ts, ats);
      assert Again(e, |ts|)[1..] == Again(e, |ts| - 1);
      RepeatReaches(g, fuel, e, ats[1], ts[1..], ats[1..], r == Raises);
      FuelIsEnough(g, fuel, h, e, a);
      assert [ts[0]] + ts[1..] == ts;
      assert Parse(g, h + 1, m, a) == r;
    }
  }

  // ---------------------------------------------------------------- derivations

  ghost function Ending(g: Grammar): Known
    requires g.Valid()
  {
    (m: nat, a: nat, r: Run) => Ends(g, m, a, r)
  }

  ghost function Derived(g: Grammar, n: nat): Known {
    (m: nat, a: nat, r: Run) => Derivable(g, n, m, a, r)
  }

  /** Some fuel is enough for one run. */
  lemma EnoughFor(g: Grammar, m: nat, a: nat, r: Run, least: nat) returns (fuel: nat)
    requires g.Valid() && Ends(g, m, a, r)
    ensures fuel >= least && With(g, fuel)(m, a, r)
  {
    var f: nat :| Parse(g, f, m, a) == r;
    fuel := Max(f, least);
    FuelIsEnough(g, f, fuel, m, a);
  }

  lemma {:induction false} EnoughForChain(g: Grammar, ms: seq<nat>, a: nat, ts: seq<ParseResult>, ats: seq<nat>, least: nat)
    returns (fuel: nat)
    requires g.Valid() && Chain(Ending(g), ms, a, ts, ats)
    ensures fuel >= least && Chain(With(g, fuel), ms, a, ts, ats)
    decreases |ts|
  {
    if ts == [] {
      fuel := least;
    } else {
      var n := |ts| - 1;
      assert Ending(g)(ms[n], ats[n], Parses(ts[n], ats[n + 1]));
      var last := EnoughFor(g, ms[n], ats[n], Parses(ts[n], ats[n + 1]), least);
      forall i | 0 <= i < n
        ensures Ending(g)(ms[i], ats[..n + 1][i], Parses(ts[..n][i], ats[..n + 1][i + 1]))
      {
        assert Ending(g)(ms[i], ats[i], Parses(ts[i], ats[i + 1]));
      }
      fuel := EnoughForChain(g, ms, a, ts[..n], ats[..n + 1], last);
      WithGrows(g, last, fuel);
      forall i | 0 <= i < |ts|
        ensures With(g, fuel)(ms[i], ats[i], Parses(ts[i], ats[i + 1]))
      {
        if i < n {
          assert With(g, fuel)(ms[i], ats[..n + 1][i], Parses(ts[..n][i], ats[..n + 1][i + 1]));
        }
      }
    }
  }

  lemma {:induction false} EnoughForAll(g: Grammar, ms: seq<nat>, a: nat, least: nat) returns (fuel: nat)
    requires g.Valid() && AllFail(Ending(g), ms, a)
    ensures fuel >= least && AllFail(With(g, fuel), ms, a)
    decreases |ms|
  {
    if ms == [] {
      fuel := least;
    } else {
      var n := |ms| - 1;
      assert Ending(g)(ms[n], a, Fails);
      var last := EnoughFor(g, ms[n], a, Fails, least);
      fuel := EnoughForAll(g, ms[..n], a, last);
      WithGrows(g, last, fuel);
      assert forall j | 0 <= j < n :: ms[..n][j] == ms[j];
    }
  }

  /** A rule needs to know finitely many runs only, for which some fuel is enough. */
  lemma EnoughForRule(g: Grammar, m: nat, a: nat, r: Run) returns (fuel: nat)
    requires g.Valid() && m < |g.nodes| && Rule(g, Ending(g), m, a, r)
    ensures Rule(g, With(g, fuel), m, a, r)
  {
    fuel := 0;
    match g.nodes[m]
    case ListMatcher(ms) =>
      var ts, ats :| ListEnds(g, Ending(g), ms, a, r, ts, ats);
      if |ts| < |ms| {
        fuel := EnoughFor(g, ms[|ts|], End(ats), r, 0);
      }
      ghost var first := fuel;
      fuel := EnoughForChain(g, ms, a, ts, ats, first);
      WithGrows(g, first, fuel);
      assert ListEnds(g, With(g, fuel), ms, a, r, ts, ats);
    case OptionalMatcher(c) =>
      if r.Parses? && r.tree.child.Some? {
        fuel := EnoughFor(g, c, a, Parses(r.tree.child.value, r.at), 0);
      } else {
        fuel := EnoughFor(g, c, a, if r == Raises then Raises else Fails, 0);
      }
    case ChoiceMatcher(ms) => fuel := EnoughForChoice(g, ms, a, r);
    case RepeatMatcher(e) => fuel := EnoughForRepeat(g, e, a, r);
    case _ =>
  }

  lemma EnoughForChoice(g: Grammar, ms: seq<nat>, a: nat, r: Run) returns (fuel: nat)
    requires g.Valid() && ChoiceRule(g, Ending(g), ms, a, r)
    ensures ChoiceRule(g, With(g, fuel), ms, a, r)
  {
    if r == Fails {
      fuel := EnoughForAll(g, ms, a, 0);
      return;
    }
    var k: nat, last;
    if r == Raises {
      k :| k < |ms| && Ending(g)(ms[k], a, Raises) && AllFail(Ending(g), ms[..k], a);
      last := Raises;
    } else {
      k, last := r.tree.selected, Parses(r.tree.chosen, r.at);
    }
    var first := EnoughFor(g, ms[k], a, last, 0);
    fuel := EnoughForAll(g, ms[..k], a, first);
    WithGrows(g, first, fuel);
  }

  lemma EnoughForRepeat(g: Grammar, e: nat, a: nat, r: Run) returns (fuel: nat)
    requires g.Valid() && RepeatRule(g, Ending(g), e, a, r)
    ensures RepeatRule(g, With(g, fuel), e, a, r)
  {
    var ts, ats :| RepeatEnds(g, Ending(g), e, a, r, ts, ats);
    var first := 0;
    if ts == [] || r == Raises {
      first := EnoughFor(g, e, End(ats), r, 0);
    } else if End(ats) < |g.tokens| {
      first := EnoughFor(g, e, End(ats), Fails, 0);
    }
    fuel := EnoughForChain(g, Again(e, |ts|), a, ts, ats, first);
    WithGrows(g, first, fuel);
    assert RepeatEnds(g, With(g, fuel), e, a, r, ts, ats);
  }

  /** What the interpreter computes can be derived. */
  lemma {:induction false} ParseIsDerivable(g: Grammar, fuel: nat, m: nat, a: nat)
    requires g.Valid() && m < |g.nodes| && Parse(g, fuel, m, a) != Diverges
    ensures Derivable(g, fuel, m, a, Parse(g, fuel, m, a))
    decreases fuel
  {
    ParseFollows(g, fuel, m, a);
    var less: nat := fuel - 1;
    forall m': nat, a': nat | m' < |g.nodes| && Parse(g, less, m', a') != Diverges
      ensures Derivable(g, less, m', a', Parse(g, less, m', a'))
    {
      ParseIsDerivable(g, less, m', a');
    }
    RuleGrows(g, With(g, fuel - 1), Derived(g, fuel - 1), m, a, Parse(g, fuel, m, a));
  }

  /** What can be derived is what the interpreter computes. */
  lemma {:induction false} DerivableIsParsed(g: Grammar, n: nat, m: nat, a: nat, r: Run)
    requires g.Valid() && Derivable(g, n, m, a, r)
    ensures Ends(g, m, a, r)
    decreases n
  {
    forall m', a', r' | Derived(g, n - 1)(m', a', r')
      ensures Ending(g)(m', a', r')
    {
      DerivableIsParsed(g, n - 1, m', a', r');
    }
    RuleGrows(g, Derived(g, n - 1), Ending(g), m, a, r);
    var fuel := EnoughForRule(g, m, a, r);
    RuleReaches(g, fuel, m, a, r);
  }

  ghost predicate CanBeDerived(g: Grammar, m: nat, a: nat, r: Run) {
    exists n: nat :: Derivable(g, n, m, a, r)
  }

  /** `MatchParseResult` computes what can be derived by the rules, and nothing else. */
  lemma ParseIsDerivation(g: Grammar, m: nat, a: nat, r: Run)
    requires g.Valid()
    ensures Ends(g, m, a, r) <==> CanBeDerived(g, m, a, r)
  {
    if Ends(g, m, a, r) {
      var fuel: nat :| Parse(g, fuel, m, a) == r;
      ParseIsDerivable(g, fuel, m, a);
    }
    if CanBeDerived(g, m, a, r) {
      var n: nat :| Derivable(g, n, m, a, r);
      DerivableIsParsed(g, n, m, a, r);
    }
  }

  /** How a matcher ends follows by its rule from how the matchers that it refers to end. */
  lemma EndsByRule(g: Grammar, m: nat, a: nat, r: Run)
    requires g.Valid() && m < |g.nodes|
    ensures Ends(g, m, a, r) <==> Rule(g, Ending(g), m, a, r)
  {
    if Ends(g, m, a, r) {
      var fuel: nat :| Parse(g, fuel, m, a) == r;
      ParseFollows(g, fuel, m, a);
      RuleGrows(g, With(g, fuel - 1), Ending(g), m, a, r);
    }
    if Rule(g, Ending(g), m, a, r) {
      var fuel := EnoughForRule(g, m, a, r);
      RuleReaches(g, fuel, m, a, r);
    }
  }

  /** There is one way to end. */
  lemma EndsOnce(g: Grammar, m: nat, a: nat, r: Run, r': Run)
    requires g.Valid() && Ends(g, m, a, r) && Ends(g, m, a, r')
    ensures r == r'
  {
    var f: nat :| Parse(g, f, m, a) == r;
    var h: nat :| Parse(g, h, m, a) == r';
    FuelIsEnough(g, f, Max(f, h), m, a);
    FuelIsEnough(g, h, Max(f, h), m, a);
  }
}
