/**
 Which matchers a suggestion round offers, and when it is mandatory
 (extension/autocomplete/matcher.cpp, `AddSuggestion` and `AddSuggestionInternal`).
 */
module Suggestions {
  import opened MatcherGraph
  import opened Matching

  // ---------------------------------------------------------------- one step of a round

  /** The matchers are visited one after the other: number `i` turns `sets[i]` into `sets[i + 1]`. */
  ghost predicate Visits(g: Grammar, ms: seq<nat>, s: set<nat>, sets: seq<set<nat>>)
    requires g.Valid() && forall i | 0 <= i < |ms| :: ms[i] < |g.nodes|
  {
    && 1 <= |sets| <= |ms| + 1 && sets[0] == s
    && forall i | 0 <= i < |sets| - 1 :: sets[i + 1] == Suggest(g, ms[i], sets[i]).added
  }

  /** The list is visited up to its first mandatory matcher; without one, the list is not mandatory. */
  ghost predicate ListVisit(g: Grammar, ms: seq<nat>, s: set<nat>, r: Suggested, sets: seq<set<nat>>)
    requires g.Valid() && forall i | 0 <= i < |ms| :: ms[i] < |g.nodes|
  {
    var n := |sets| - 1;
    && Visits(g, ms, s, sets) && sets[n] == r.added
    && (forall i | 0 <= i < n :: Suggest(g, ms[i], sets[i]).mandatory <==> r.mandatory && i == n - 1)
    && (if r.mandatory then n > 0 else n == |ms|)
  }

  /** What a visit of matcher `m` does, from what the visits of the matchers that it refers to do. */
  ghost predicate Visit(g: Grammar, m: nat, s: set<nat>, r: Suggested)
    requires g.Valid() && m < |g.nodes|
  {
    assert g.nodes[m].RefersBelow(|g.nodes|);
    if m in s then r == Suggested(true, s) else
    match g.nodes[m]
    case KeywordMatcher(_) => r == Suggested(true, s + {m})
    case LeafMatcher(_) => r == Suggested(true, s + {m})
    case ListMatcher(ms) => exists sets :: ListVisit(g, ms, s + {m}, r, sets)
    case OptionalMatcher(c) => !r.mandatory && r.added == Suggest(g, c, s + {m}).added
    case ChoiceMatcher(ms) =>
      r.mandatory && exists sets :: Visits(g, ms, s + {m}, sets) && |sets| == |ms| + 1 && sets[|ms|] == r.added
    case RepeatMatcher(e) => r.mandatory && r.added == Suggest(g, e, s + {m}).added
  }

  /**
   A matcher that was met before is mandatory and offers nothing new. An optional is not mandatory; a
   list is if one of its matchers is, and offers none behind that; everything else is mandatory.
   */
  lemma SuggestVisits(g: Grammar, m: nat, s: set<nat>)
    requires g.Valid() && m < |g.nodes|
    ensures Visit(g, m, s, Suggest(g, m, s))
  {
    assert g.nodes[m].RefersBelow(|g.nodes|);
    if m !in s {
      match g.nodes[m]
      case ListMatcher(ms) => var _ := ListVisits(g, ms, s + {m});
      case ChoiceMatcher(ms) => var _ := AllVisits(g, ms, s + {m});
      case _ =>
    }
  }

  lemma {:induction false} ListVisits(g: Grammar, ms: seq<nat>, s: set<nat>) returns (sets: seq<set<nat>>)
    requires g.Valid() && forall i | 0 <= i < |ms| :: ms[i] < |g.nodes|
    ensures ListVisit(g, ms, s, SuggestUntilMandatory(g, ms, s), sets)
    decreases |ms|
  {
    sets := [s];
    if ms == [] {
    } else {
      var first := Suggest(g, ms[0], s);
      if first.mandatory {
        sets := [s, first.added];
      } else {
        var rest := ListVisits(g, ms[1..], first.added);
        sets := [s] + rest;
        forall i | 0 <= i < |rest|
          ensures sets[i + 1] == Suggest(g, ms[i], sets[i]).added
          ensures Suggest(g, ms[i], sets[i]).mandatory <==> SuggestUntilMandatory(g, ms, s).mandatory && i == |rest| - 1
        {
          if i > 0 {
            assert ms[1..][i - 1] == ms[i];
          }
        }
      }
    }
  }

  lemma {:induction false} AllVisits(g: Grammar, ms: seq<nat>, s: set<nat>) returns (sets: seq<set<nat>>)
    requires g.Valid() && forall i | 0 <= i < |ms| :: ms[i] < |g.nodes|
    ensures Visits(g, ms, s, sets) && |sets| == |ms| + 1 && sets[|ms|] == SuggestAll(g, ms, s)
    decreases |ms|
  {
    sets := [s];
    if ms == [] {
    } else {
      var rest := AllVisits(g, ms[1..], Suggest(g, ms[0], s).added);
      sets := [s] + rest;
      forall i | 0 <= i < |rest|
        ensures sets[i + 1] == Suggest(g, ms[i], sets[i]).added
      {
        if i > 0 {
          assert ms[1..][i - 1] == ms[i];
        }
      }
    }
  }

  // ---------------------------------------------------------------- what a round can offer

  /** Within `n` steps the graph shows that the matcher can be left out: an optional, or a list of such. */
  ghost predicate Skippable(g: Grammar, n: nat, m: nat)
    decreases n, 0
  {
    n > 0 && m < |g.nodes|
    && (g.nodes[m].OptionalMatcher?
        || (g.nodes[m].ListMatcher? && AllSkippable(g, n - 1, g.nodes[m].matchers)))
  }

  ghost predicate AllSkippable(g: Grammar, n: nat, ms: seq<nat>)
    decreases n, 1
  {
    forall i | 0 <= i < |ms| :: Skippable(g, n, ms[i])
  }

  ghost predicate CanBeSkipped(g: Grammar, m: nat) {
    exists n: nat :: Skippable(g, n, m)
  }

  lemma {:induction false} SkippableGrows(g: Grammar, n: nat, h: nat, m: nat)
    requires Skippable(g, n, m) && n <= h
    ensures Skippable(g, h, m)
    decreases n
  {
    if g.nodes[m].ListMatcher? {
      forall i | 0 <= i < |g.nodes[m].matchers|
        ensures Skippable(g, h - 1, g.nodes[m].matchers[i])
      {
        SkippableGrows(g, n - 1, h - 1, g.nodes[m].matchers[i]);
      }
    }
  }

  /** What is not mandatory can be left out, by the graph alone. */
  lemma {:induction false} OnlySkippableIsNotMandatory(g: Grammar, m: nat, s: set<nat>)
    requires g.Valid() && m < |g.nodes| && !Suggest(g, m, s).mandatory
    ensures m !in s && CanBeSkipped(g, m)
    decreases Ids(g) - s, 0
  {
    assert g.nodes[m].RefersBelow(|g.nodes|);
    if g.nodes[m].OptionalMatcher? {
      assert Skippable(g, 1, m);
    } else {
      assert m in Ids(g) - s && m !in Ids(g) - (s + {m});
      var n := ListIsSkippable(g, g.nodes[m].matchers, s + {m});
      assert Skippable(g, n + 1, m);
    }
  }

  lemma {:induction false} ListIsSkippable(g: Grammar, ms: seq<nat>, s: set<nat>) returns (n: nat)
    requires g.Valid() && (forall i | 0 <= i < |ms| :: ms[i] < |g.nodes|) && !SuggestUntilMandatory(g, ms, s).mandatory
    ensures AllSkippable(g, n, ms)
    decreases Ids(g) - s, 1, |ms|
  {
    if ms == [] {
      n := 0;
    } else {
      OnlySkippableIsNotMandatory(g, ms[0], s);
      var k: nat :| Skippable(g, k, ms[0]);
      var rest := ListIsSkippable(g, ms[1..], Suggest(g, ms[0], s).added);
      n := if k < rest then rest else k;
      SkippableGrows(g, k, n, ms[0]);
      forall i | 0 < i < |ms|
        ensures Skippable(g, n, ms[i])
      {
        SkippableGrows(g, rest, n, ms[1..][i - 1]);
      }
    }
  }

  /** `x` may come first where `m` is expected: what stands before it in a list can be left out. */
  ghost predicate Offers(g: Grammar, n: nat, m: nat, x: nat) {
    m == x || (n > 0 && m < |g.nodes| &&
      match g.nodes[m]
      case KeywordMatcher(_) => false
      case LeafMatcher(_) => false
      case ListMatcher(ms) =>
        exists k :: 0 <= k < |ms| && Offers(g, n - 1, ms[k], x) && forall i | 0 <= i < k :: CanBeSkipped(g, ms[i])
      case OptionalMatcher(c) => Offers(g, n - 1, c, x)
      case ChoiceMatcher(ms) => exists k :: 0 <= k < |ms| && Offers(g, n - 1, ms[k], x)
      case RepeatMatcher(e) => Offers(g, n - 1, e, x))
  }

  /** A round suggests only what may come first. */
  lemma {:induction false} SuggestedIsOffered(g: Grammar, m: nat, s: set<nat>, x: nat) returns (n: nat)
    requires g.Valid() && m < |g.nodes| && x in Suggest(g, m, s).added && x !in s
    ensures Offers(g, n, m, x)
    decreases Ids(g) - s, 0
  {
    n := 0;
    if x != m {
      assert g.nodes[m].RefersBelow(|g.nodes|);
      assert m in Ids(g) - s && m !in Ids(g) - (s + {m});
      match g.nodes[m]
      case KeywordMatcher(_) =>
      case LeafMatcher(_) =>
      case ListMatcher(ms) =>
        var k;
        n, k := ListOffers(g, ms, s + {m}, x);
        n := n + 1;
      case OptionalMatcher(c) =>
        n := SuggestedIsOffered(g, c, s + {m}, x);
        n := n + 1;
      case ChoiceMatcher(ms) =>
        var k;
        n, k := ChoiceOffers(g, ms, s + {m}, x);
        n := n + 1;
      case RepeatMatcher(e) =>
        n := SuggestedIsOffered(g, e, s + {m}, x);
        n := n + 1;
    }
  }

  lemma {:induction false} ListOffers(g: Grammar, ms: seq<nat>, s: set<nat>, x: nat) returns (n: nat, k: nat)
    requires g.Valid() && (forall i | 0 <= i < |ms| :: ms[i] < |g.nodes|) && x in SuggestUntilMandatory(g, ms, s).added && x !in s
    ensures k < |ms| && Offers(g, n, ms[k], x) && forall i | 0 <= i < k :: CanBeSkipped(g, ms[i])
    decreases Ids(g) - s, 1, |ms|
  {
    var first := Suggest(g, ms[0], s);
    if x in first.added {
      n := SuggestedIsOffered(g, ms[0], s, x);
      k := 0;
    } else {
      OnlySkippableIsNotMandatory(g, ms[0], s);
      n, k := ListOffers(g, ms[1..], first.added, x);
      forall i | 0 <= i < k + 1
        ensures CanBeSkipped(g, ms[i])
      {
        if i > 0 {
          assert CanBeSkipped(g, ms[1..][i - 1]);
        }
      }
      k := k + 1;
    }
  }

  lemma {:induction false} ChoiceOffers(g: Grammar, ms: seq<nat>, s: set<nat>, x: nat) returns (n: nat, k: nat)
    requires g.Valid() && (forall i | 0 <= i < |ms| :: ms[i] < |g.nodes|) && x in SuggestAll(g, ms, s) && x !in s
    ensures k < |ms| && Offers(g, n, ms[k], x)
    decreases Ids(g) - s, 1, |ms|
  {
    var first := Suggest(g, ms[0], s);
    if x in first.added {
      n := SuggestedIsOffered(g, ms[0], s, x);
      k := 0;
    } else {
      n, k := ChoiceOffers(g, ms[1..], first.added, x);
      k := k + 1;
    }
  }

  /** In a list with the same optional twice, the second one counts as mandatory: what may follow is not suggested. */
  lemma OptionalTwiceHidesRest(answer: (Node, string) -> Answer, decode: (Node, string) -> string)
    ensures var g := Grammar([ListMatcher([1, 1, 3]), OptionalMatcher(2), KeywordMatcher("a"), KeywordMatcher("b")], [], answer, decode);
            && g.Valid() && Suggest(g, 0, {}) == Suggested(true, {0, 1, 2})
            && CanBeSkipped(g, 1) && Offers(g, 1, 0, 3)
  {
    var g := Grammar([ListMatcher([1, 1, 3]), OptionalMatcher(2), KeywordMatcher("a"), KeywordMatcher("b")], [], answer, decode);
    assert Skippable(g, 1, 1);
    assert Suggest(g, 2, {0, 1}) == Suggested(true, {0, 1, 2});
    assert Suggest(g, 1, {0}) == Suggested(false, {0, 1, 2});
    assert Suggest(g, 1, {0, 1, 2}) == Suggested(true, {0, 1, 2});
    assert [1, 1, 3][1..] == [1, 3];
    assert SuggestUntilMandatory(g, [1, 3], {0, 1, 2}) == Suggested(true, {0, 1, 2});
    assert {} + {0} == {0};
    assert [1, 1, 3][2] == 3 && Offers(g, 0, 3, 3);
  }
}
