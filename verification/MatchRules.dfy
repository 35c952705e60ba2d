/**
 The rules of `Match` (extension/autocomplete/matcher.cpp), one for each kind of matcher, as
 `ParseRules` has them for the other interpreter.

 A rule says how a matcher ends when it is known how the matchers it refers to end, from a token
 index and with the matchers that the state at hand has suggested so far. What can be derived by
 these rules is exactly what the interpreter computes, wherever it ends.
 */
module MatchRules {
  import opened Sequences
  import opened MatcherGraph
  import opened Matching
  import PR = ParseResults
  import opened MatchTermination

  /** How a run ends: with the caller's token index and suggested matchers, if there is no exception. */
  datatype MatchEnd = Raised | PastEnd | NotMatched(at: nat) | Matched(at: nat, added: set<nat>)

  function EndOf(r: MatchRun): MatchEnd
    requires !r.MatchDiverges?
  {
    match r
    case MatchRaises(_) => Raised
    case ReadsPastEnd(_) => PastEnd
    case NoMatch(at, _) => NotMatched(at)
    case Match(at, added, _) => Matched(at, added)
  }

  /** Which runs are known: matcher, token index, the matchers suggested before, and how it ends. */
  type Known = (nat, nat, set<nat>, MatchEnd) -> bool

  // ---------------------------------------------------------------- the rules

  predicate IsException(o: MatchEnd) {
    o == Raised || o == PastEnd
  }

  ghost predicate Fails(known: Known, m: nat, a: nat, s: set<nat>) {
    exists to: nat :: known(m, a, s, NotMatched(to))
  }

  ghost predicate Succeeds(known: Known, m: nat, a: nat, s: set<nat>, to: nat) {
    exists s' :: known(m, a, s, Matched(to, s'))
  }

  /** A failure leaves the caller at its own start, and exceptions go through. */
  ghost predicate FailsLike(known: Known, m: nat, a: nat, s: set<nat>, start: nat, o: MatchEnd) {
    (o == NotMatched(start) && Fails(known, m, a, s)) || (IsException(o) && known(m, a, s, o))
  }

  /** The matchers match one after the other: number `i` from `ats[i]` to `ats[i + 1]`, on one state. */
  ghost predicate Chain(known: Known, ms: seq<nat>, a: nat, s: set<nat>, ats: seq<nat>, sets: seq<set<nat>>) {
    && |ats| == |sets| && 1 <= |ats| <= |ms| + 1 && ats[0] == a && sets[0] == s
    && forall i | 0 <= i < |ats| - 1 :: known(ms[i], ats[i], sets[i], Matched(ats[i + 1], sets[i + 1]))
  }

  ghost predicate TerminalRule(g: Grammar, node: Node, a: nat, added: set<nat>, o: MatchEnd) {
    if a >= |g.tokens| then o == if node.KeywordMatcher? || node == LeafMatcher(StringLiteral) then NotMatched(a) else PastEnd
    else match g.answer(node, g.tokens[a].text)
         case Accept => o == Matched(a + 1, added)
         case Reject => o == NotMatched(a)
         case Raise => o == Raised
  }

  /** What happens behind a chain that has left the matchers `rest` of a list. */
  ghost predicate ListStops(g: Grammar, known: Known, rest: seq<nat>, start: nat, at: nat, s: set<nat>, added: set<nat>, o: MatchEnd)
    requires g.Valid() && forall i | 0 <= i < |rest| :: rest[i] < |g.nodes|
  {
    if rest == [] then o == Matched(at, added)
    else if at >= |g.tokens| then
      o == if SuggestUntilMandatory(g, rest, s).mandatory then NotMatched(at) else Matched(at, added)
    else FailsLike(known, rest[0], at, s, start, o)
  }

  /**
   A list matches when all its matchers do. Where the tokens run out before, it suggests what is left
   of it, and matches unless something mandatory is; otherwise it fails like the first one that does not match.
   */
  ghost predicate ListRule(g: Grammar, known: Known, ms: seq<nat>, a: nat, added: set<nat>, o: MatchEnd)
    requires g.Valid() && forall i | 0 <= i < |ms| :: ms[i] < |g.nodes|
  {
    exists ats, sets :: ListEnds(g, known, ms, a, {}, ats, sets) && ListStops(g, known, ms[|ats| - 1..], a, End(ats), sets[|ats| - 1], added, o)
  }

  /** Each matcher of the chain had a token left. */
  ghost predicate ListEnds(g: Grammar, known: Known, ms: seq<nat>, a: nat, s: set<nat>, ats: seq<nat>, sets: seq<set<nat>>) {
    Chain(known, ms, a, s, ats, sets) && forall i | 0 <= i < |ats| - 1 :: ats[i] < |g.tokens|
  }

  /** An optional never fails, and stays where it is only if its child fails, or matches nothing. */
  ghost predicate OptionalRule(known: Known, c: nat, a: nat, added: set<nat>, o: MatchEnd) {
    || (o == Matched(a, added) && Fails(known, c, a, {}))
    || (o.Matched? && o.added == added && Succeeds(known, c, a, {}, o.at))
    || (IsException(o) && known(c, a, {}, o))
  }

  ghost predicate AllFail(known: Known, ms: seq<nat>, a: nat) {
    forall j | 0 <= j < |ms| :: Fails(known, ms[j], a, {})
  }

  /** A choice ends like its first alternative that does not fail, and fails only if all of them do. */
  ghost predicate ChoiceRule(known: Known, ms: seq<nat>, a: nat, added: set<nat>, o: MatchEnd) {
    || (o == NotMatched(a) && AllFail(known, ms, a))
    || exists k :: 0 <= k < |ms| && AllFail(known, ms[..k], a) && Chosen(known, ms[k], a, added, o)
  }

  ghost predicate Chosen(known: Known, m: nat, a: nat, added: set<nat>, o: MatchEnd) {
    (o.Matched? && o.added == added && Succeeds(known, m, a, {}, o.at)) || (IsException(o) && known(m, a, {}, o))
  }

  /**
   A repeat fails only if its element does at once. It takes the element as often as that matches;
   where the tokens run out, it suggests the element once more.
   */
  ghost predicate RepeatRule(g: Grammar, known: Known, e: nat, a: nat, added: set<nat>, o: MatchEnd)
    requires g.Valid() && e < |g.nodes|
  {
    exists ats, sets :: RepeatEnds(g, known, e, a, added, o, ats, sets)
  }

  ghost predicate RepeatEnds(g: Grammar, known: Known, e: nat, a: nat, added: set<nat>, o: MatchEnd,
                             ats: seq<nat>, sets: seq<set<nat>>)
    requires g.Valid() && e < |g.nodes|
  {
    && Chain(known, Again(e, |ats|), a, {}, ats, sets)
    && (forall i | 0 < i < |ats| - 1 :: ats[i] < |g.tokens|)
    && if |ats| == 1 then FailsLike(known, e, a, {}, a, o)
       else RepeatStops(g, known, e, End(ats), sets[|ats| - 1], added, o)
  }

  ghost predicate RepeatStops(g: Grammar, known: Known, e: nat, at: nat, s: set<nat>, added: set<nat>, o: MatchEnd)
    requires g.Valid() && e < |g.nodes|
  {
    if at >= |g.tokens| then o == Matched(at, Suggest(g, e, added).added)
    else (o == Matched(at, added) && Fails(known, e, at, s)) || (IsException(o) && known(e, at, s, o))
  }

  ghost predicate Rule(g: Grammar, known: Known, m: nat, a: nat, added: set<nat>, o: MatchEnd)
    requires g.Valid() && m < |g.nodes|
  {
    assert g.nodes[m].RefersBelow(|g.nodes|);
    match g.nodes[m]
    case KeywordMatcher(_) => TerminalRule(g, g.nodes[m], a, added, o)
    case LeafMatcher(_) => TerminalRule(g, g.nodes[m], a, added, o)
    case ListMatcher(ms) => ListRule(g, known, ms, a, added, o)
    case OptionalMatcher(c) => OptionalRule(known, c, a, added, o)
    case ChoiceMatcher(ms) => ChoiceRule(known, ms, a, added, o)
    case RepeatMatcher(e) => RepeatRule(g, known, e, a, added, o)
  }

  /** What can be derived by at most `n` rules on top of each other. */
  ghost predicate Derivable(g: Grammar, n: nat, m: nat, a: nat, added: set<nat>, o: MatchEnd)
    requires g.Valid()
  {
    n > 0 && m < |g.nodes|
    && Rule(g, (m': nat, a': nat, s': set<nat>, o': MatchEnd) => Derivable(g, n - 1, m', a', s', o'), m, a, added, o)
  }

  ghost predicate CanBeDerived(g: Grammar, m: nat, a: nat, added: set<nat>, o: MatchEnd)
    requires g.Valid()
  {
    exists n: nat :: Derivable(g, n, m, a, added, o)
  }

  ghost predicate EndsWith(g: Grammar, fuel: nat, m: nat, a: nat, added: set<nat>, o: MatchEnd)
    requires g.Valid()
  {
    m < |g.nodes| && !Run(g, fuel, m, a, added).MatchDiverges? && EndOf(Run(g, fuel, m, a, added)) == o
  }

  /** The interpreter ends like this, if it has enough fuel. */
  ghost predicate Ends(g: Grammar, m: nat, a: nat, added: set<nat>, o: MatchEnd)
    requires g.Valid()
  {
    exists fuel: nat :: EndsWith(g, fuel, m, a, added, o)
  }

  // ---------------------------------------------------------------- what is known

  ghost predicate Weaker(known: Known, more: Known) {
    forall m, a, s, o | known(m, a, s, o) :: more(m, a, s, o)
  }

  /** More knowledge leaves what has been derived as it is. */
  lemma RuleGrows(g: Grammar, known: Known, more: Known, m: nat, a: nat, added: set<nat>, o: MatchEnd)
    requires g.Valid() && m < |g.nodes| && Weaker(known, more) && Rule(g, known, m, a, added, o)
    ensures Rule(g, more, m, a, added, o)
  {
    assert g.nodes[m].RefersBelow(|g.nodes|);
    match g.nodes[m]
    case ListMatcher(ms) =>
      var ats, sets :| ListEnds(g, known, ms, a, {}, ats, sets)
                       && ListStops(g, known, ms[|ats| - 1..], a, End(ats), sets[|ats| - 1], added, o);
      assert ListEnds(g, more, ms, a, {}, ats, sets);
      assert ListStops(g, more, ms[|ats| - 1..], a, End(ats), sets[|ats| - 1], added, o);
    case RepeatMatcher(e) =>
      var ats, sets :| RepeatEnds(g, known, e, a, added, o, ats, sets);
      assert RepeatEnds(g, more, e, a, added, o, ats, sets);
    case _ =>
  }

  /** The runs with this fuel that end. */
  ghost function With(g: Grammar, fuel: nat): Known
    requires g.Valid()
  {
    (m: nat, a: nat, s: set<nat>, o: MatchEnd) => EndsWith(g, fuel, m, a, s, o)
  }

  ghost function Ending(g: Grammar): Known
    requires g.Valid()
  {
    (m: nat, a: nat, s: set<nat>, o: MatchEnd) => Ends(g, m, a, s, o)
  }

  ghost function Derived(g: Grammar, n: nat): Known
    requires g.Valid()
  {
    (m: nat, a: nat, s: set<nat>, o: MatchEnd) => Derivable(g, n, m, a, s, o)
  }

  lemma WithGrows(g: Grammar, f: nat, h: nat)
    requires g.Valid() && f <= h
    ensures Weaker(With(g, f), With(g, h))
  {
    forall m, a, s, o | With(g, f)(m, a, s, o)
      ensures With(g, h)(m, a, s, o)
    {
      RunFuelIsEnough(g, f, h, m, a, s);
    }
  }

  // ---------------------------------------------------------------- the interpreter follows the rules

  lemma ChainBefore(known: Known, ms: seq<nat>, a: nat, s: set<nat>, to: nat, s': set<nat>, ats: seq<nat>, sets: seq<set<nat>>)
    requires ms != [] && known(ms[0], a, s, Matched(to, s')) && Chain(known, ms[1..], to, s', ats, sets)
    ensures Chain(known, ms, a, s, [a] + ats, [s] + sets) && End([a] + ats) == End(ats)
    ensures ([s] + sets)[|ats|] == sets[|ats| - 1] && ms[1..][|ats| - 1..] == ms[|ats|..]
  {
    forall i | 0 <= i < |ats|
      ensures known(ms[i], ([a] + ats)[i], ([s] + sets)[i], Matched(([a] + ats)[i + 1], ([s] + sets)[i + 1]))
    {
      if i > 0 {
        assert ms[i] == ms[1..][i - 1];
      }
    }
  }

  /** The loop of a list, on its own state. */
  lemma {:induction false} ListFollows(g: Grammar, fuel: nat, ms: seq<nat>, start: nat, a: nat, s: set<nat>, added: set<nat>)
    returns (ats: seq<nat>, sets: seq<set<nat>>)
    requires g.Valid() && forall i | 0 <= i < |ms| :: ms[i] < |g.nodes|
    ensures var r := RunList(g, fuel, ms, start, a, s);
            !r.MatchDiverges? ==>
              && ListEnds(g, With(g, fuel), ms, a, s, ats, sets)
              && ListStops(g, With(g, fuel), ms[|ats| - 1..], start, End(ats), sets[|ats| - 1], added,
                           if r.Match? then Matched(r.at, added) else EndOf(r))
    decreases |ms|
  {
    ats, sets := [a], [s];
    if ms == [] || a >= |g.tokens| {
      assert ms[0..] == ms;
    } else {
      assert ms[0..] == ms;
      var first := Run(g, fuel, ms[0], a, s);
      if first.Match? {
        var ats', sets' := ListFollows(g, fuel, ms[1..], start, first.at, first.added, added);
        if !RunList(g, fuel, ms, start, a, s).MatchDiverges? {
          assert With(g, fuel)(ms[0], a, s, Matched(first.at, first.added));
          ChainBefore(With(g, fuel), ms, a, s, first.at, first.added, ats', sets');
          ats, sets := [a] + ats', [s] + sets';
        }
      } else if !first.MatchDiverges? {
        assert With(g, fuel)(ms[0], a, s, EndOf(first));
      }
    }
  }

  lemma {:induction false} ChoiceFollows(g: Grammar, fuel: nat, ms: seq<nat>, k: nat, a: nat, added: set<nat>)
    requires g.Valid() && k <= |ms| && forall i | 0 <= i < |ms| :: ms[i] < |g.nodes|
    requires AllFail(With(g, fuel), ms[..k], a)
    ensures var r := RunChoice(g, fuel, ms[k..], a);
            !r.MatchDiverges? ==>
              ChoiceRule(With(g, fuel), ms, a, added, if r.Match? then Matched(r.at, added) else EndOf(r))
    decreases |ms| - k
  {
    if k == |ms| {
      assert ms[..k] == ms;
    } else {
      assert ms[k..][0] == ms[k] && ms[k..][1..] == ms[k + 1..];
      var first := Run(g, fuel, ms[k], a, {});
      if !first.MatchDiverges? {
        assert With(g, fuel)(ms[k], a, {}, EndOf(first));
        if first.NoMatch? {
          assert ms[..k + 1] == ms[..k] + [ms[k]];
          ChoiceFollows(g, fuel, ms, k + 1, a, added);
        } else {
          assert Chosen(With(g, fuel), ms[k], a, added, if first.Match? then Matched(first.at, added) else EndOf(first));
        }
      }
    }
  }

  /** The loop of a repeat after its first match, on its own state. */
  lemma {:induction false} RepeatFollows(g: Grammar, fuel: nat, e: nat, a: nat, s: set<nat>, added: set<nat>)
    returns (ats: seq<nat>, sets: seq<set<nat>>)
    requires g.Valid() && e < |g.nodes|
    ensures var r := RunRepeat(g, fuel, e, a, s, added);
            !r.MatchDiverges? ==>
              && Chain(With(g, fuel), Again(e, |ats|), a, s, ats, sets)
              && (forall i | 0 <= i < |ats| - 1 :: ats[i] < |g.tokens|)
              && RepeatStops(g, With(g, fuel), e, End(ats), sets[|ats| - 1], added, EndOf(r))
    decreases fuel
  {
    ats, sets := [a], [s];
    if a >= |g.tokens| || fuel == 0 {
    } else {
      var first := Run(g, fuel, e, a, s);
      if first.Match? {
        var ats', sets' := RepeatFollows(g, fuel - 1, e, first.at, first.added, added);
        if !RunRepeat(g, fuel, e, a, s, added).MatchDiverges? {
          WithGrows(g, fuel - 1, fuel);
          assert Again(e, |ats'| + 1)[1..] == Again(e, |ats'|);
          assert With(g, fuel)(e, a, s, Matched(first.at, first.added));
          ChainBefore(With(g, fuel), Again(e, |ats'| + 1), a, s, first.at, first.added, ats', sets');
          ats, sets := [a] + ats', [s] + sets';
        }
      } else if !first.MatchDiverges? {
        assert With(g, fuel)(e, a, s, EndOf(first));
      }
    }
  }

  /** Where the interpreter ends, it ends by the rules. */
  lemma RunFollows(g: Grammar, fuel: nat, m: nat, a: nat, added: set<nat>, o: MatchEnd)
    requires g.Valid() && fuel > 0 && EndsWith(g, fuel, m, a, added, o)
    ensures Rule(g, With(g, fuel - 1), m, a, added, o)
  {
    assert g.nodes[m].RefersBelow(|g.nodes|);
    match g.nodes[m]
    case KeywordMatcher(_) =>
    case LeafMatcher(_) =>
    case ListMatcher(ms) => var _, _ := ListFollows(g, fuel - 1, ms, a, a, {}, added);
    case OptionalMatcher(c) => assert With(g, fuel - 1)(c, a, {}, EndOf(Run(g, fuel - 1, c, a, {})));
    case ChoiceMatcher(ms) =>
      assert ms[0..] == ms;
      ChoiceFollows(g, fuel - 1, ms, 0, a, added);
    case RepeatMatcher(e) => RepetitionFollows(g, fuel - 1, e, a, added, o);
  }

  lemma RepetitionFollows(g: Grammar, fuel: nat, e: nat, a: nat, added: set<nat>, o: MatchEnd)
    requires g.Valid() && e < |g.nodes| && !Run(g, fuel, e, a, {}).MatchDiverges?
    requires var first := Run(g, fuel, e, a, {});
             if first.NoMatch? then o == NotMatched(a)
             else if first.Match? then
               var rest := RunRepeat(g, fuel, e, first.at, first.added, added);
               !rest.MatchDiverges? && o == EndOf(rest)
             else o == EndOf(first)
    ensures RepeatRule(g, With(g, fuel), e, a, added, o)
  {
    var first := Run(g, fuel, e, a, {});
    assert With(g, fuel)(e, a, {}, EndOf(first));
    if first.Match? {
      var ats, sets := RepeatFollows(g, fuel, e, first.at, first.added, added);
      assert Again(e, |ats| + 1)[1..] == Again(e, |ats|);
      ChainBefore(With(g, fuel), Again(e, |ats| + 1), a, {}, first.at, first.added, ats, sets);
      assert RepeatEnds(g, With(g, fuel), e, a, added, o, [a] + ats, [{}] + sets);
    } else {
      assert RepeatEnds(g, With(g, fuel), e, a, added, o, [a], [{}]);
    }
  }

  // ---------------------------------------------------------------- the rules are followed to the end

  lemma ChainAfter(known: Known, ms: seq<nat>, a: nat, s: set<nat>, ats: seq<nat>, sets: seq<set<nat>>)
    requires Chain(known, ms, a, s, ats, sets) && |ats| > 1
    ensures known(ms[0], a, s, Matched(ats[1], sets[1])) && Chain(known, ms[1..], ats[1], sets[1], ats[1..], sets[1..])
    ensures End(ats[1..]) == End(ats) && ms[1..][|ats| - 2..] == ms[|ats| - 1..]
  {
    forall i | 0 <= i < |ats| - 2
      ensures known(ms[1..][i], ats[1..][i], sets[1..][i], Matched(ats[1..][i + 1], sets[1..][i + 1]))
    {
      assert known(ms[i + 1], ats[i + 1], sets[i + 1], Matched(ats[i + 2], sets[i + 2]));
    }
  }

  lemma {:induction false} ListReaches(g: Grammar, fuel: nat, ms: seq<nat>, start: nat, a: nat, s: set<nat>, added: set<nat>,
                                       o: MatchEnd, ats: seq<nat>, sets: seq<set<nat>>)
    requires g.Valid() && (forall i | 0 <= i < |ms| :: ms[i] < |g.nodes|) && ListEnds(g, With(g, fuel), ms, a, s, ats, sets)
    requires ListStops(g, With(g, fuel), ms[|ats| - 1..], start, End(ats), sets[|ats| - 1], added, o)
    ensures var r := RunList(g, fuel, ms, start, a, s);
            !r.MatchDiverges? && o == if r.Match? then Matched(r.at, added) else EndOf(r)
    decreases |ats|
  {
    if |ats| == 1 {
      assert ms[0..] == ms;
      if ms != [] && a < |g.tokens| && o.NotMatched? {
        var to: nat :| With(g, fuel)(ms[0], a, s, NotMatched(to));
      }
    } else {
      ChainAfter(With(g, fuel), ms, a, s, ats, sets);
      assert forall i | 0 <= i < |ats| - 2 :: ats[1..][i] == ats[i + 1];
      ListReaches(g, fuel, ms[1..], start, ats[1], sets[1], added, o, ats[1..], sets[1..]);
    }
  }

  lemma {:induction false} ChoiceReaches(g: Grammar, fuel: nat, ms: seq<nat>, k: nat, a: nat, added: set<nat>, o: MatchEnd)
    requires g.Valid() && k <= |ms| && forall i | 0 <= i < |ms| :: ms[i] < |g.nodes|
    requires ChoiceRule(With(g, fuel), ms, a, added, o) && AllFail(With(g, fuel), ms[..k], a)
    ensures var r := RunChoice(g, fuel, ms[k..], a);
            !r.MatchDiverges? && o == if r.Match? then Matched(r.at, added) else EndOf(r)
    decreases |ms| - k
  {
    if k == |ms| {
      forall j | 0 <= j < |ms|
        ensures Run(g, fuel, ms[j], a, {}).NoMatch?
      {
        assert Fails(With(g, fuel), ms[..k][j], a, {});
      }
    } else {
      assert ms[k..][0] == ms[k] && ms[k..][1..] == ms[k + 1..];
      if Fails(With(g, fuel), ms[k], a, {}) {
        assert ms[..k + 1] == ms[..k] + [ms[k]];
        ChoiceReaches(g, fuel, ms, k + 1, a, added, o);
      } else {
        ChosenIs(g, fuel, ms, k, a, added, o);
      }
    }
  }

  /** The first alternative that does not fail is the one that is chosen. */
  lemma ChosenIs(g: Grammar, fuel: nat, ms: seq<nat>, k: nat, a: nat, added: set<nat>, o: MatchEnd)
    requires g.Valid() && k < |ms| && forall i | 0 <= i < |ms| :: ms[i] < |g.nodes|
    requires ChoiceRule(With(g, fuel), ms, a, added, o)
    requires AllFail(With(g, fuel), ms[..k], a) && !Fails(With(g, fuel), ms[k], a, {})
    ensures Chosen(With(g, fuel), ms[k], a, added, o)
  {
    var j :| 0 <= j < |ms| && AllFail(With(g, fuel), ms[..j], a) && Chosen(With(g, fuel), ms[j], a, added, o);
    assert j < k ==> Fails(With(g, fuel), ms[..k][j], a, {});
  }

  /** The loop needs fuel for each repetition. */
  lemma {:induction false} RepeatReaches(g: Grammar, fuel: nat, e: nat, a: nat, s: set<nat>, added: set<nat>,
                                         o: MatchEnd, ats: seq<nat>, sets: seq<set<nat>>)
    requires g.Valid() && e < |g.nodes| && Chain(With(g, fuel), Again(e, |ats|), a, s, ats, sets)
    requires forall i | 0 <= i < |ats| - 1 :: ats[i] < |g.tokens|
    requires RepeatStops(g, With(g, fuel), e, End(ats), sets[|ats| - 1], added, o)
    ensures var r := RunRepeat(g, fuel + |ats|, e, a, s, added);
            !r.MatchDiverges? && o == EndOf(r)
    decreases |ats|
  {
    WithGrows(g, fuel, fuel + |ats|);
    if |ats| == 1 {
      if a < |g.tokens| && o.Matched? {
        var to: nat :| With(g, fuel)(e, a, s, NotMatched(to));
        assert With(g, fuel + 1)(e, a, s, NotMatched(to));
      }
    } else {
      ChainAfter(With(g, fuel), Again(e, |ats|), a, s, ats, sets);
      assert Again(e, |ats|)[1..] == Again(e, |ats| - 1);
      assert forall i | 0 <= i < |ats| - 2 :: ats[1..][i] == ats[i + 1];
      RepeatReaches(g, fuel, e, ats[1], sets[1], added, o, ats[1..], sets[1..]);
      assert With(g, fuel + |ats|)(e, a, s, Matched(ats[1], sets[1]));
    }
  }

  /** What follows by a rule from runs that end, ends like that. */
  lemma RuleReaches(g: Grammar, fuel: nat, m: nat, a: nat, added: set<nat>, o: MatchEnd)
    requires g.Valid() && m < |g.nodes| && Rule(g, With(g, fuel), m, a, added, o)
    ensures Ends(g, m, a, added, o)
  {
    assert g.nodes[m].RefersBelow(|g.nodes|);
    match g.nodes[m]
    case KeywordMatcher(_) => assert EndsWith(g, 1, m, a, added, o);
    case LeafMatcher(_) => assert EndsWith(g, 1, m, a, added, o);
    case ListMatcher(ms) =>
      var ats, sets :| ListEnds(g, With(g, fuel), ms, a, {}, ats, sets)
                       && ListStops(g, With(g, fuel), ms[|ats| - 1..], a, End(ats), sets[|ats| - 1], added, o);
      ListReaches(g, fuel, ms, a, a, {}, added, o, ats, sets);
      assert EndsWith(g, fuel + 1, m, a, added, o);
    case OptionalMatcher(c) => OptionalReaches(g, fuel, m, c, a, added, o);
    case ChoiceMatcher(ms) =>
      assert ms[0..] == ms;
      ChoiceReaches(g, fuel, ms, 0, a, added, o);
      assert EndsWith(g, fuel + 1, m, a, added, o);
    case RepeatMatcher(e) => RepetitionReaches(g, fuel, m, e, a, added, o);
  }

  lemma OptionalReaches(g: Grammar, fuel: nat, m: nat, c: nat, a: nat, added: set<nat>, o: MatchEnd)
    requires g.Valid() && m < |g.nodes| && g.nodes[m] == OptionalMatcher(c) && OptionalRule(With(g, fuel), c, a, added, o)
    ensures Ends(g, m, a, added, o)
  {
    assert g.nodes[m].RefersBelow(|g.nodes|);
    if o == Matched(a, added) && Fails(With(g, fuel), c, a, {}) {
      var to: nat :| With(g, fuel)(c, a, {}, NotMatched(to));
    }
    assert EndsWith(g, fuel + 1, m, a, added, o);
  }

  lemma RepetitionReaches(g: Grammar, fuel: nat, m: nat, e: nat, a: nat, added: set<nat>, o: MatchEnd)
    requires g.Valid() && m < |g.nodes| && g.nodes[m] == RepeatMatcher(e) && RepeatRule(g, With(g, fuel), e, a, added, o)
    ensures Ends(g, m, a, added, o)
  {
    assert g.nodes[m].RefersBelow(|g.nodes|);
    var ats, sets :| RepeatEnds(g, With(g, fuel), e, a, added, o, ats, sets);
    if |ats| == 1 {
      if o.NotMatched? {
        var to: nat :| With(g, fuel)(e, a, {}, NotMatched(to));
      }
      assert EndsWith(g, fuel + 1, m, a, added, o);
    } else {
      var h := fuel + |ats|;
      ChainAfter(With(g, fuel), Again(e, |ats|), a, {}, ats, sets);
      assert Again(e, |ats|)[1..] == Again(e, |ats| - 1);
      assert forall i | 0 <= i < |ats| - 2 :: ats[1..][i] == ats[i + 1];
      RepeatReaches(g, fuel, e, ats[1], sets[1], added, o, ats[1..], sets[1..]);
      RunRepeatFuelIsEnough(g, h - 1, h, e, ats[1], sets[1], added);
      RunFuelIsEnough(g, fuel, h, e, a, {});
      assert EndsWith(g, h + 1, m, a, added, o);
    }
  }

  // ---------------------------------------------------------------- derivations

  /** Some fuel is enough for one run. */
  lemma EnoughFor(g: Grammar, m: nat, a: nat, s: set<nat>, o: MatchEnd, least: nat) returns (fuel: nat)
    requires g.Valid() && Ends(g, m, a, s, o)
    ensures fuel >= least && With(g, fuel)(m, a, s, o)
  {
    var f: nat :| EndsWith(g, f, m, a, s, o);
    fuel := PR.Max(f, least);
    RunFuelIsEnough(g, f, fuel, m, a, s);
  }

  lemma EnoughToFail(g: Grammar, m: nat, a: nat, s: set<nat>, least: nat) returns (fuel: nat)
    requires g.Valid() && Fails(Ending(g), m, a, s)
    ensures fuel >= least && Fails(With(g, fuel), m, a, s)
  {
    var to: nat :| Ending(g)(m, a, s, NotMatched(to));
    fuel := EnoughFor(g, m, a, s, NotMatched(to), least);
  }

  lemma EnoughToFailLike(g: Grammar, m: nat, a: nat, s: set<nat>, start: nat, o: MatchEnd, least: nat) returns (fuel: nat)
    requires g.Valid() && FailsLike(Ending(g), m, a, s, start, o)
    ensures fuel >= least && FailsLike(With(g, fuel), m, a, s, start, o)
  {
    if o.NotMatched? {
      fuel := EnoughToFail(g, m, a, s, least);
    } else {
      fuel := EnoughFor(g, m, a, s, o, least);
    }
  }

  lemma EnoughToSucceed(g: Grammar, m: nat, a: nat, s: set<nat>, to: nat, least: nat) returns (fuel: nat)
    requires g.Valid() && Succeeds(Ending(g), m, a, s, to)
    ensures fuel >= least && Succeeds(With(g, fuel), m, a, s, to)
  {
    var s' :| Ending(g)(m, a, s, Matched(to, s'));
    fuel := EnoughFor(g, m, a, s, Matched(to, s'), least);
  }

  lemma {:induction false} EnoughForChain(g: Grammar, ms: seq<nat>, a: nat, s: set<nat>, ats: seq<nat>, sets: seq<set<nat>>, least: nat)
    returns (fuel: nat)
    requires g.Valid() && Chain(Ending(g), ms, a, s, ats, sets)
    ensures fuel >= least && Chain(With(g, fuel), ms, a, s, ats, sets)
    decreases |ats|
  {
    if |ats| == 1 {
      fuel := least;
    } else {
      var n := |ats| - 2;
      assert Ending(g)(ms[n], ats[n], sets[n], Matched(ats[n + 1], sets[n + 1]));
      var last := EnoughFor(g, ms[n], ats[n], sets[n], Matched(ats[n + 1], sets[n + 1]), least);
      forall i | 0 <= i < n
        ensures Ending(g)(ms[i], ats[..n + 1][i], sets[..n + 1][i], Matched(ats[..n + 1][i + 1], sets[..n + 1][i + 1]))
      {
        assert Ending(g)(ms[i], ats[i], sets[i], Matched(ats[i + 1], sets[i + 1]));
      }
      fuel := EnoughForChain(g, ms, a, s, ats[..n + 1], sets[..n + 1], last);
      WithGrows(g, last, fuel);
      forall i | 0 <= i < |ats| - 1
        ensures With(g, fuel)(ms[i], ats[i], sets[i], Matched(ats[i + 1], sets[i + 1]))
      {
        if i < n {
          assert With(g, fuel)(ms[i], ats[..n + 1][i], sets[..n + 1][i], Matched(ats[..n + 1][i + 1], sets[..n + 1][i + 1]));
        }
      }
    }
  }

  lemma {:induction false} EnoughForAll(g: Grammar, ms: seq<nat>, a: nat, least: nat) returns (fuel: nat)
    requires g.Valid() && AllFail(Ending(g), ms, a)
    ensures fuel >= least && AllFail(With(g, fuel), ms, a)
    decreases |ms|
  {
    if ms == [] {
      fuel := least;
    } else {
      var n := |ms| - 1;
      var last := EnoughToFail(g, ms[n], a, {}, least);
      assert AllFail(Ending(g), ms[..n], a);
      fuel := EnoughForAll(g, ms[..n], a, last);
      WithGrows(g, last, fuel);
      forall j | 0 <= j < |ms|
        ensures Fails(With(g, fuel), ms[j], a, {})
      {
        if j < n {
          assert Fails(With(g, fuel), ms[..n][j], a, {});
        }
      }
    }
  }

  /** A rule needs to know finitely many runs only, for which some fuel is enough. */
  lemma EnoughForRule(g: Grammar, m: nat, a: nat, added: set<nat>, o: MatchEnd) returns (fuel: nat)
    requires g.Valid() && m < |g.nodes| && Rule(g, Ending(g), m, a, added, o)
    ensures Rule(g, With(g, fuel), m, a, added, o)
  {
    assert g.nodes[m].RefersBelow(|g.nodes|);
    fuel := 0;
    match g.nodes[m]
    case ListMatcher(ms) => fuel := EnoughForList(g, ms, a, added, o);
    case OptionalMatcher(c) =>
      if o == Matched(a, added) && Fails(Ending(g), c, a, {}) {
        fuel := EnoughToFail(g, c, a, {}, 0);
      } else if o.Matched? {
        fuel := EnoughToSucceed(g, c, a, {}, o.at, 0);
      } else {
        fuel := EnoughFor(g, c, a, {}, o, 0);
      }
    case ChoiceMatcher(ms) => fuel := EnoughForChoice(g, ms, a, added, o);
    case RepeatMatcher(e) => fuel := EnoughForRepeat(g, e, a, added, o);
    case _ =>
  }

  lemma EnoughForList(g: Grammar, ms: seq<nat>, a: nat, added: set<nat>, o: MatchEnd) returns (fuel: nat)
    requires g.Valid() && (forall i | 0 <= i < |ms| :: ms[i] < |g.nodes|) && ListRule(g, Ending(g), ms, a, added, o)
    ensures ListRule(g, With(g, fuel), ms, a, added, o)
  {
    var ats, sets :| ListEnds(g, Ending(g), ms, a, {}, ats, sets)
                     && ListStops(g, Ending(g), ms[|ats| - 1..], a, End(ats), sets[|ats| - 1], added, o);
    var rest, first := ms[|ats| - 1..], 0;
    if rest != [] && End(ats) < |g.tokens| {
      first := EnoughToFailLike(g, rest[0], End(ats), sets[|ats| - 1], a, o, 0);
    }
    fuel := EnoughForChain(g, ms, a, {}, ats, sets, first);
    WithGrows(g, first, fuel);
    assert ListEnds(g, With(g, fuel), ms, a, {}, ats, sets);
    assert ListStops(g, With(g, fuel), rest, a, End(ats), sets[|ats| - 1], added, o);
  }

  lemma EnoughForChoice(g: Grammar, ms: seq<nat>, a: nat, added: set<nat>, o: MatchEnd) returns (fuel: nat)
    requires g.Valid() && ChoiceRule(Ending(g), ms, a, added, o)
    ensures ChoiceRule(With(g, fuel), ms, a, added, o)
  {
    if o == NotMatched(a) {
      fuel := EnoughForAll(g, ms, a, 0);
      return;
    }
    var k :| 0 <= k < |ms| && AllFail(Ending(g), ms[..k], a) && Chosen(Ending(g), ms[k], a, added, o);
    var first;
    if o.Matched? {
      first := EnoughToSucceed(g, ms[k], a, {}, o.at, 0);
    } else {
      first := EnoughFor(g, ms[k], a, {}, o, 0);
    }
    fuel := EnoughForAll(g, ms[..k], a, first);
    WithGrows(g, first, fuel);
    assert Chosen(With(g, fuel), ms[k], a, added, o);
  }

  lemma EnoughForRepeat(g: Grammar, e: nat, a: nat, added: set<nat>, o: MatchEnd) returns (fuel: nat)
    requires g.Valid() && e < |g.nodes| && RepeatRule(g, Ending(g), e, a, added, o)
    ensures RepeatRule(g, With(g, fuel), e, a, added, o)
  {
    var ats, sets :| RepeatEnds(g, Ending(g), e, a, added, o, ats, sets);
    var at, s, first := End(ats), sets[|ats| - 1], 0;
    if |ats| == 1 {
      first := EnoughToFailLike(g, e, a, {}, a, o, 0);
    } else if at < |g.tokens| {
      if o.Matched? {
        first := EnoughToFail(g, e, at, s, 0);
      } else {
        first := EnoughFor(g, e, at, s, o, 0);
      }
    }
    fuel := EnoughForChain(g, Again(e, |ats|), a, {}, ats, sets, first);
    WithGrows(g, first, fuel);
    assert RepeatEnds(g, With(g, fuel), e, a, added, o, ats, sets);
  }

  /** What the interpreter computes can be derived. */
  lemma {:induction false} RunIsDerivable(g: Grammar, fuel: nat, m: nat, a: nat, added: set<nat>, o: MatchEnd)
    requires g.Valid() && EndsWith(g, fuel, m, a, added, o)
    ensures Derivable(g, fuel, m, a, added, o)
    decreases fuel
  {
    RunFollows(g, fuel, m, a, added, o);
    var less: nat := fuel - 1;
    forall m': nat, a': nat, s, o' | EndsWith(g, less, m', a', s, o')
      ensures Derivable(g, less, m', a', s, o')
    {
      RunIsDerivable(g, less, m', a', s, o');
    }
    RuleGrows(g, With(g, fuel - 1), Derived(g, fuel - 1), m, a, added, o);
  }

  /** What can be derived is what the interpreter computes. */
  lemma {:induction false} DerivableIsRun(g: Grammar, n: nat, m: nat, a: nat, added: set<nat>, o: MatchEnd)
    requires g.Valid() && Derivable(g, n, m, a, added, o)
    ensures Ends(g, m, a, added, o)
    decreases n
  {
    forall m', a', s, o' | Derived(g, n - 1)(m', a', s, o')
      ensures Ending(g)(m', a', s, o')
    {
      DerivableIsRun(g, n - 1, m', a', s, o');
    }
    RuleGrows(g, Derived(g, n - 1), Ending(g), m, a, added, o);
    var fuel := EnoughForRule(g, m, a, added, o);
    RuleReaches(g, fuel, m, a, added, o);
  }

  /** `Match` computes what can be derived by the rules, and nothing else. */
  lemma MatchIsDerivation(g: Grammar, m: nat, a: nat, added: set<nat>, o: MatchEnd)
    requires g.Valid()
    ensures Ends(g, m, a, added, o) <==> CanBeDerived(g, m, a, added, o)
  {
    if Ends(g, m, a, added, o) {
      var fuel: nat :| EndsWith(g, fuel, m, a, added, o);
      RunIsDerivable(g, fuel, m, a, added, o);
    }
    if CanBeDerived(g, m, a, added, o) {
      var n: nat :| Derivable(g, n, m, a, added, o);
      DerivableIsRun(g, n, m, a, added, o);
    }
  }
}
