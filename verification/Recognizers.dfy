/**
 What parsing expressions recognise, and what the matchers of a graph recognise.

 A recognizer says how matching ends from each token index. The operators of parsing expression
 grammars are defined on recognizers, by token indices alone: `x?` and `x*` never fail, `x+` fails
 exactly when `x` does, a sequence fails where its first part fails, and `x / y` tries `y` only where
 `x` fails. What a matcher recognises is read off the interpreter `MatchParseResult`
 (extension/autocomplete/matcher.cpp).
 */
module Recognizers {
  import opened Wrappers
  import opened Sequences
  import opened MatcherGraph
  import PR = ParseResults
  import ParseRules

  datatype Verdict = Success(to: nat) | Failure | Exception

  type Recognizer = (nat, Verdict) -> bool

  /** The two end in the same way from everywhere. */
  ghost predicate Same(x: Recognizer, y: Recognizer) {
    forall a: nat, v :: x(a, v) <==> y(a, v)
  }

  ghost predicate AllSame(xs: seq<Recognizer>, ys: seq<Recognizer>) {
    |xs| == |ys| && forall i | 0 <= i < |xs| :: Same(xs[i], ys[i])
  }

  // ---------------------------------------------------------------- the operators

  /** `x?`: it succeeds, without moving if `x` fails. */
  ghost function Maybe(x: Recognizer): Recognizer {
    (a: nat, v: Verdict) => (v != Failure && x(a, v)) || (v == Success(a) && x(a, Failure))
  }

  /** From `a` on, `x` succeeds again and again; it is tried another time only where a token is left. */
  ghost predicate Repeats(x: Recognizer, tokens: nat, a: nat, ats: seq<nat>) {
    && ats != [] && ats[0] == a
    && (forall i | 0 <= i < |ats| - 1 :: x(ats[i], Success(ats[i + 1])))
    && (forall i | 0 < i < |ats| - 1 :: ats[i] < tokens)
  }

  /** `x+`: it ends like `x`; after a success it goes on until `x` fails or no token is left. */
  ghost predicate PlusEnds(x: Recognizer, tokens: nat, a: nat, v: Verdict, ats: seq<nat>) {
    && Repeats(x, tokens, a, ats)
    && if |ats| == 1 then !v.Success? && x(a, v)
       else if v.Success? then v.to == End(ats) && (v.to >= tokens || x(v.to, Failure))
       else v == Exception && End(ats) < tokens && x(End(ats), Exception)
  }

  ghost function Plus(x: Recognizer, tokens: nat): Recognizer {
    (a: nat, v: Verdict) => exists ats :: PlusEnds(x, tokens, a, v, ats)
  }

  /** `x*`: it succeeds where `x` fails for the first time, or after a success no token is left. */
  ghost predicate StarEnds(x: Recognizer, tokens: nat, a: nat, v: Verdict, ats: seq<nat>) {
    && Repeats(x, tokens, a, ats)
    && if |ats| > 1 && End(ats) >= tokens then v == Success(End(ats))
       else (v == Success(End(ats)) && x(End(ats), Failure)) || (v == Exception && x(End(ats), Exception))
  }

  ghost function Star(x: Recognizer, tokens: nat): Recognizer {
    (a: nat, v: Verdict) => exists ats :: StarEnds(x, tokens, a, v, ats)
  }

  /** `x / y`: it ends like `x`, or like `y` where `x` fails. */
  ghost function Or(x: Recognizer, y: Recognizer): Recognizer {
    (a: nat, v: Verdict) => (v != Failure && x(a, v)) || (x(a, Failure) && y(a, v))
  }

  /** Some of the parts succeed one after the other; without all of them, the next one does not. */
  ghost predicate SequenceEnds(xs: seq<Recognizer>, a: nat, v: Verdict, ats: seq<nat>) {
    && 1 <= |ats| <= |xs| + 1 && ats[0] == a
    && (forall i | 0 <= i < |ats| - 1 :: xs[i](ats[i], Success(ats[i + 1])))
    && if |ats| == |xs| + 1 then v == Success(End(ats)) else !v.Success? && xs[|ats| - 1](End(ats), v)
  }

  /** The parts one after the other. */
  ghost function Sequence(xs: seq<Recognizer>): Recognizer {
    (a: nat, v: Verdict) => exists ats :: SequenceEnds(xs, a, v, ats)
  }

  ghost predicate AllFailAt(xs: seq<Recognizer>, a: nat) {
    forall i | 0 <= i < |xs| :: xs[i](a, Failure)
  }

  /** The first of the parts that does not fail. */
  ghost function FirstOf(xs: seq<Recognizer>): Recognizer {
    (a: nat, v: Verdict) =>
      (v == Failure && AllFailAt(xs, a))
      || (v != Failure && exists k :: 0 <= k < |xs| && AllFailAt(xs[..k], a) && xs[k](a, v))
  }

  /** A terminal takes one token that it accepts. */
  ghost function Terminal(g: Grammar, node: Node): Recognizer {
    (a: nat, v: Verdict) =>
      v == if a >= |g.tokens| then Failure else
           match g.answer(node, g.tokens[a].text)
           case Accept => Success(a + 1)
           case Reject => Failure
           case Raise => Exception
  }

  // ---------------------------------------------------------------- laws of the operators

  lemma SameMaybe(x: Recognizer, y: Recognizer)
    requires Same(x, y)
    ensures Same(Maybe(x), Maybe(y))
  {
  }

  lemma SamePlus(x: Recognizer, y: Recognizer, tokens: nat)
    requires Same(x, y)
    ensures Same(Plus(x, tokens), Plus(y, tokens))
  {
    forall a: nat, v, ats | PlusEnds(x, tokens, a, v, ats) || PlusEnds(y, tokens, a, v, ats)
      ensures PlusEnds(x, tokens, a, v, ats) && PlusEnds(y, tokens, a, v, ats)
    {
    }
  }

  lemma SameStar(x: Recognizer, y: Recognizer, tokens: nat)
    requires Same(x, y)
    ensures Same(Star(x, tokens), Star(y, tokens))
  {
    forall a: nat, v, ats | StarEnds(x, tokens, a, v, ats) || StarEnds(y, tokens, a, v, ats)
      ensures StarEnds(x, tokens, a, v, ats) && StarEnds(y, tokens, a, v, ats)
    {
    }
  }

  lemma SameOr(x: Recognizer, y: Recognizer, x': Recognizer, y': Recognizer)
    requires Same(x, x') && Same(y, y')
    ensures Same(Or(x, y), Or(x', y'))
  {
  }

  lemma SameSequence(xs: seq<Recognizer>, ys: seq<Recognizer>)
    requires AllSame(xs, ys)
    ensures Same(Sequence(xs), Sequence(ys))
  {
    forall a: nat, v, ats | SequenceEnds(xs, a, v, ats) || SequenceEnds(ys, a, v, ats)
      ensures SequenceEnds(xs, a, v, ats) && SequenceEnds(ys, a, v, ats)
    {
    }
  }

  lemma SameFirstOf(xs: seq<Recognizer>, ys: seq<Recognizer>)
    requires AllSame(xs, ys)
    ensures Same(FirstOf(xs), FirstOf(ys))
  {
    forall a: nat, k | 0 <= k <= |xs|
      ensures AllFailAt(xs[..k], a) <==> AllFailAt(ys[..k], a)
    {
      assert forall i | 0 <= i < k :: xs[..k][i] == xs[i] && ys[..k][i] == ys[i];
    }
    assert xs[..|xs|] == xs && ys[..|ys|] == ys;
    forall a: nat, v
      ensures FirstOf(xs)(a, v) <==> FirstOf(ys)(a, v)
    {
      if k :| 0 <= k < |xs| && AllFailAt(xs[..k], a) && xs[k](a, v) {
        assert AllFailAt(ys[..k], a) && ys[k](a, v);
      }
      if k :| 0 <= k < |ys| && AllFailAt(ys[..k], a) && ys[k](a, v) {
        assert AllFailAt(xs[..k], a) && xs[k](a, v);
      }
    }
  }

  lemma SameTrans(x: Recognizer, y: Recognizer, z: Recognizer)
    requires Same(x, y) && Same(y, z)
    ensures Same(x, z)
  {
  }

  /** `x*` is `(x+)?`. */
  lemma StarIsMaybePlus(x: Recognizer, tokens: nat)
    ensures Same(Star(x, tokens), Maybe(Plus(x, tokens)))
  {
    forall a: nat, v
      ensures Star(x, tokens)(a, v) <==> Maybe(Plus(x, tokens))(a, v)
    {
      if Star(x, tokens)(a, v) {
        var ats :| StarEnds(x, tokens, a, v, ats);
        if |ats| == 1 && v == Success(a) {
          assert PlusEnds(x, tokens, a, Failure, ats);
        } else {
          assert PlusEnds(x, tokens, a, v, ats);
        }
      }
      if v != Failure && Plus(x, tokens)(a, v) {
        var ats :| PlusEnds(x, tokens, a, v, ats);
        assert StarEnds(x, tokens, a, v, ats);
      }
      if v == Success(a) && Plus(x, tokens)(a, Failure) {
        var ats :| PlusEnds(x, tokens, a, Failure, ats);
        assert StarEnds(x, tokens, a, v, ats);
      }
    }
  }

  /** `x?` and `x*` never fail, and `x+` fails exactly where `x` does. */
  lemma PostfixFailures(x: Recognizer, tokens: nat, a: nat)
    ensures !Maybe(x)(a, Failure) && !Star(x, tokens)(a, Failure)
    ensures Plus(x, tokens)(a, Failure) <==> x(a, Failure)
  {
    if x(a, Failure) {
      assert PlusEnds(x, tokens, a, Failure, [a]);
    }
  }

  /** A choice of one. */
  lemma FirstOfOne(x: Recognizer)
    ensures Same(FirstOf([x]), x)
  {
    forall a: nat, v
      ensures FirstOf([x])(a, v) <==> x(a, v)
    {
      assert AllFailAt([x], a) <==> [x][0](a, Failure);
      assert AllFailAt([x][..0], a);
      assert [x][0](a, v) <==> x(a, v);
    }
  }

  /** A choice with one more alternative. */
  lemma FirstOfMore(xs: seq<Recognizer>, y: Recognizer)
    ensures Same(FirstOf(xs + [y]), Or(FirstOf(xs), y))
  {
    var all := xs + [y];
    forall a: nat, v
      ensures FirstOf(all)(a, v) <==> Or(FirstOf(xs), y)(a, v)
    {
      assert all[..|xs|] == xs && all[|xs|] == y;
      assert AllFailAt(all, a) <==> AllFailAt(xs, a) && y(a, Failure) by {
        assert forall i | 0 <= i < |xs| :: all[i] == xs[i];
      }
      assert forall k | 0 <= k < |xs| :: all[..k] == xs[..k] && all[k] == xs[k];
      if v != Failure && FirstOf(xs)(a, v) {
        var k :| 0 <= k < |xs| && AllFailAt(xs[..k], a) && xs[k](a, v);
        assert AllFailAt(all[..k], a) && all[k](a, v);
      }
    }
  }

  /** A sequence of one. */
  lemma SequenceOfOne(x: Recognizer)
    ensures Same(Sequence([x]), x)
  {
    forall a: nat, v
      ensures Sequence([x])(a, v) <==> x(a, v)
    {
      if x(a, v) {
        assert SequenceEnds([x], a, v, if v.Success? then [a, v.to] else [a]);
      }
    }
  }

  // ---------------------------------------------------------------- what matchers recognise

  function VerdictOf(r: PR.Run): Verdict
    requires r != PR.Diverges
  {
    match r
    case Raises => Exception
    case Fails => Failure
    case Parses(_, to) => Success(to)
  }

  ghost predicate EndsAs(g: Grammar, m: nat, a: nat, v: Verdict, r: PR.Run)
    requires g.Valid()
  {
    ParseRules.Ends(g, m, a, r) && VerdictOf(r) == v
  }

  /** How `MatchParseResult` ends on matcher `m`, its trees left aside. */
  ghost function Recognizes(g: Grammar, m: nat): Recognizer
    requires g.Valid()
  {
    (a: nat, v: Verdict) => exists r :: EndsAs(g, m, a, v, r)
  }

  ghost function AllRecognize(g: Grammar, ms: seq<nat>): seq<Recognizer>
    requires g.Valid()
  {
    seq(|ms|, i requires 0 <= i < |ms| => Recognizes(g, ms[i]))
  }

  lemma TerminalRecognizes(g: Grammar, m: nat)
    requires g.Valid() && m < |g.nodes| && g.nodes[m].IsTerminal()
    ensures Same(Recognizes(g, m), Terminal(g, g.nodes[m]))
  {
    forall a: nat, v
      ensures Recognizes(g, m)(a, v) <==> Terminal(g, g.nodes[m])(a, v)
    {
      forall r | r != PR.Diverges
        ensures ParseRules.Ends(g, m, a, r) <==> ParseRules.TerminalRule(g, g.nodes[m], a, r)
      {
        ParseRules.EndsByRule(g, m, a, r);
      }
      var r := PR.ParseTerminal(g, m, a);
      assert ParseRules.TerminalRule(g, g.nodes[m], a, r);
      if Terminal(g, g.nodes[m])(a, v) {
        assert EndsAs(g, m, a, v, r);
      }
    }
  }

  lemma OptionalRecognizes(g: Grammar, m: nat, c: nat)
    requires g.Valid() && m < |g.nodes| && g.nodes[m] == OptionalMatcher(c)
    ensures Same(Recognizes(g, m), Maybe(Recognizes(g, c)))
  {
    forall a: nat, v
      ensures Recognizes(g, m)(a, v) <==> Maybe(Recognizes(g, c))(a, v)
    {
      if Recognizes(g, m)(a, v) {
        var r :| EndsAs(g, m, a, v, r);
        ParseRules.EndsByRule(g, m, a, r);
        OptionalBack(g, c, a, r, v);
      }
      if v != Failure && Recognizes(g, c)(a, v) {
        var r :| EndsAs(g, c, a, v, r);
        var r' := if r.Parses? then PR.Parses(PR.OptionalResult(Some(r.tree), PR.StartOffset(g, a)), r.at) else r;
        ParseRules.EndsByRule(g, m, a, r');
        assert EndsAs(g, m, a, v, r');
      }
      if v == Success(a) && Recognizes(g, c)(a, Failure) {
        var r :| EndsAs(g, c, a, Failure, r);
        var r' := PR.Parses(PR.OptionalResult(None, None), a);
        ParseRules.EndsByRule(g, m, a, r');
        assert EndsAs(g, m, a, v, r');
      }
    }
  }

  lemma OptionalBack(g: Grammar, c: nat, a: nat, r: PR.Run, v: Verdict)
    requires g.Valid() && r != PR.Diverges && VerdictOf(r) == v && ParseRules.OptionalRule(g, ParseRules.Ending(g), c, a, r)
    ensures Maybe(Recognizes(g, c))(a, v)
  {
    if ParseRules.Ends(g, c, a, PR.Fails) {
      assert EndsAs(g, c, a, Failure, PR.Fails);
    }
    if r == PR.Raises {
      assert EndsAs(g, c, a, Exception, PR.Raises);
    }
    if r.Parses? && r.tree.OptionalResult? && r.tree.child.Some? {
      var inner := PR.Parses(r.tree.child.value, r.at);
      if ParseRules.Ends(g, c, a, inner) {
        assert EndsAs(g, c, a, v, inner);
      }
    }
  }

  /** The tree of a run that succeeds. */
  ghost function TreeOf(g: Grammar, m: nat, a: nat, to: nat): (t: PR.ParseResult)
    requires g.Valid() && Recognizes(g, m)(a, Success(to))
    ensures ParseRules.Ends(g, m, a, PR.Parses(t, to))
  {
    var r :| EndsAs(g, m, a, Success(to), r);
    r.tree
  }

  lemma ChainRecognizes(g: Grammar, ms: seq<nat>, a: nat, ts: seq<PR.ParseResult>, ats: seq<nat>)
    requires g.Valid() && ParseRules.Chain(ParseRules.Ending(g), ms, a, ts, ats)
    ensures forall i | 0 <= i < |ts| :: Recognizes(g, ms[i])(ats[i], Success(ats[i + 1]))
  {
    forall i | 0 <= i < |ts|
      ensures Recognizes(g, ms[i])(ats[i], Success(ats[i + 1]))
    {
      assert ParseRules.Ending(g)(ms[i], ats[i], PR.Parses(ts[i], ats[i + 1]));
      assert EndsAs(g, ms[i], ats[i], Success(ats[i + 1]), PR.Parses(ts[i], ats[i + 1]));
    }
  }

  lemma RecognizedChain(g: Grammar, ms: seq<nat>, a: nat, ats: seq<nat>) returns (ts: seq<PR.ParseResult>)
    requires g.Valid() && 1 <= |ats| <= |ms| + 1 && ats[0] == a
    requires forall i | 0 <= i < |ats| - 1 :: Recognizes(g, ms[i])(ats[i], Success(ats[i + 1]))
    ensures ParseRules.Chain(ParseRules.Ending(g), ms, a, ts, ats)
  {
    ts := seq(|ats| - 1, i requires 0 <= i < |ats| - 1 => TreeOf(g, ms[i], ats[i], ats[i + 1]));
  }

  /** A verdict that is no success belongs to one run. */
  function RunOf(v: Verdict): PR.Run
    requires !v.Success?
  {
    if v == Failure then PR.Fails else PR.Raises
  }

  lemma RunsOf(g: Grammar, m: nat, a: nat, v: Verdict)
    requires g.Valid() && !v.Success?
    ensures Recognizes(g, m)(a, v) <==> ParseRules.Ends(g, m, a, RunOf(v))
  {
    if ParseRules.Ends(g, m, a, RunOf(v)) {
      assert EndsAs(g, m, a, v, RunOf(v));
    }
  }

  lemma ListRecognizes(g: Grammar, m: nat, ms: seq<nat>)
    requires g.Valid() && m < |g.nodes| && g.nodes[m] == ListMatcher(ms)
    ensures Same(Recognizes(g, m), Sequence(AllRecognize(g, ms)))
  {
    forall a: nat, v
      ensures Recognizes(g, m)(a, v) <==> Sequence(AllRecognize(g, ms))(a, v)
    {
      if Recognizes(g, m)(a, v) {
        ListForth(g, m, ms, a, v);
      }
      if Sequence(AllRecognize(g, ms))(a, v) {
        ListBack(g, m, ms, a, v);
      }
    }
  }

  lemma ListForth(g: Grammar, m: nat, ms: seq<nat>, a: nat, v: Verdict)
    requires g.Valid() && m < |g.nodes| && g.nodes[m] == ListMatcher(ms) && Recognizes(g, m)(a, v)
    ensures Sequence(AllRecognize(g, ms))(a, v)
  {
    var r :| EndsAs(g, m, a, v, r);
    ParseRules.EndsByRule(g, m, a, r);
    var ts, ats :| ParseRules.ListEnds(g, ParseRules.Ending(g), ms, a, r, ts, ats);
    ChainRecognizes(g, ms, a, ts, ats);
    if |ts| < |ms| {
      RunsOf(g, ms[|ts|], End(ats), v);
    }
    assert SequenceEnds(AllRecognize(g, ms), a, v, ats);
  }

  lemma ListBack(g: Grammar, m: nat, ms: seq<nat>, a: nat, v: Verdict)
    requires g.Valid() && m < |g.nodes| && g.nodes[m] == ListMatcher(ms) && Sequence(AllRecognize(g, ms))(a, v)
    ensures Recognizes(g, m)(a, v)
  {
    var ats :| SequenceEnds(AllRecognize(g, ms), a, v, ats);
    var ts := RecognizedChain(g, ms, a, ats);
    var r := if |ts| == |ms| then PR.Parses(PR.ListResult(ts, PR.StartOffset(g, a)), End(ats)) else RunOf(v);
    if |ts| < |ms| {
      RunsOf(g, ms[|ts|], End(ats), v);
    }
    assert ParseRules.ListEnds(g, ParseRules.Ending(g), ms, a, r, ts, ats);
    ParseRules.EndsByRule(g, m, a, r);
    assert EndsAs(g, m, a, v, r);
  }

  lemma AllFailRecognized(g: Grammar, ms: seq<nat>, k: nat, a: nat)
    requires g.Valid() && k <= |ms|
    ensures ParseRules.AllFail(ParseRules.Ending(g), ms[..k], a) <==> AllFailAt(AllRecognize(g, ms)[..k], a)
  {
    forall j | 0 <= j < k
      ensures ParseRules.Ending(g)(ms[..k][j], a, PR.Fails) <==> AllRecognize(g, ms)[..k][j](a, Failure)
    {
      RunsOf(g, ms[j], a, Failure);
    }
  }

  lemma ChoiceRecognizes(g: Grammar, m: nat, ms: seq<nat>)
    requires g.Valid() && m < |g.nodes| && g.nodes[m] == ChoiceMatcher(ms)
    ensures Same(Recognizes(g, m), FirstOf(AllRecognize(g, ms)))
  {
    forall a: nat, v
      ensures Recognizes(g, m)(a, v) <==> FirstOf(AllRecognize(g, ms))(a, v)
    {
      if Recognizes(g, m)(a, v) {
        ChoiceForth(g, m, ms, a, v);
      }
      if FirstOf(AllRecognize(g, ms))(a, v) {
        ChoiceBack(g, m, ms, a, v);
      }
    }
  }

  lemma ChoiceForth(g: Grammar, m: nat, ms: seq<nat>, a: nat, v: Verdict)
    requires g.Valid() && m < |g.nodes| && g.nodes[m] == ChoiceMatcher(ms) && Recognizes(g, m)(a, v)
    ensures FirstOf(AllRecognize(g, ms))(a, v)
  {
    var xs := AllRecognize(g, ms);
    var r :| EndsAs(g, m, a, v, r);
    ParseRules.EndsByRule(g, m, a, r);
    if r == PR.Fails {
      assert ms[..|ms|] == ms && xs[..|xs|] == xs;
      AllFailRecognized(g, ms, |ms|, a);
    } else {
      var k: nat;
      if r == PR.Raises {
        k :| k < |ms| && ParseRules.Ending(g)(ms[k], a, PR.Raises) && ParseRules.AllFail(ParseRules.Ending(g), ms[..k], a);
        assert EndsAs(g, ms[k], a, v, r);
      } else {
        k := r.tree.selected;
        assert EndsAs(g, ms[k], a, v, PR.Parses(r.tree.chosen, r.at));
      }
      AllFailRecognized(g, ms, k, a);
      assert xs[k](a, v);
    }
  }

  lemma ChoiceBack(g: Grammar, m: nat, ms: seq<nat>, a: nat, v: Verdict)
    requires g.Valid() && m < |g.nodes| && g.nodes[m] == ChoiceMatcher(ms) && FirstOf(AllRecognize(g, ms))(a, v)
    ensures Recognizes(g, m)(a, v)
  {
    var xs := AllRecognize(g, ms);
    var r := PR.Fails;
    if v == Failure {
      assert ms[..|ms|] == ms && xs[..|xs|] == xs;
      AllFailRecognized(g, ms, |ms|, a);
    } else {
      var k: nat :| k < |xs| && AllFailAt(xs[..k], a) && xs[k](a, v);
      AllFailRecognized(g, ms, k, a);
      if v == Exception {
        RunsOf(g, ms[k], a, v);
        r := PR.Raises;
        assert ParseRules.Ending(g)(ms[k], a, PR.Raises);
      } else {
        r := PR.Parses(PR.ChoiceResult(TreeOf(g, ms[k], a, v.to), k, PR.StartOffset(g, a)), v.to);
      }
    }
    ParseRules.EndsByRule(g, m, a, r);
    assert EndsAs(g, m, a, v, r);
  }

  lemma RepeatRecognizes(g: Grammar, m: nat, e: nat)
    requires g.Valid() && m < |g.nodes| && g.nodes[m] == RepeatMatcher(e)
    ensures Same(Recognizes(g, m), Plus(Recognizes(g, e), |g.tokens|))
  {
    forall a: nat, v
      ensures Recognizes(g, m)(a, v) <==> Plus(Recognizes(g, e), |g.tokens|)(a, v)
    {
      if Recognizes(g, m)(a, v) {
        RepeatForth(g, m, e, a, v);
      }
      if Plus(Recognizes(g, e), |g.tokens|)(a, v) {
        RepeatBack(g, m, e, a, v);
      }
    }
  }

  lemma RepeatForth(g: Grammar, m: nat, e: nat, a: nat, v: Verdict)
    requires g.Valid() && m < |g.nodes| && g.nodes[m] == RepeatMatcher(e) && Recognizes(g, m)(a, v)
    ensures Plus(Recognizes(g, e), |g.tokens|)(a, v)
  {
    var r :| EndsAs(g, m, a, v, r);
    ParseRules.EndsByRule(g, m, a, r);
    var ts, ats :| ParseRules.RepeatEnds(g, ParseRules.Ending(g), e, a, r, ts, ats);
    ChainRecognizes(g, Again(e, |ts|), a, ts, ats);
    forall i | 0 <= i < |ts|
      ensures Recognizes(g, e)(ats[i], Success(ats[i + 1]))
    {
      assert Again(e, |ts|)[i] == e;
    }
    RunsOf(g, e, End(ats), Failure);
    RunsOf(g, e, End(ats), Exception);
    assert PlusEnds(Recognizes(g, e), |g.tokens|, a, v, ats);
  }

  lemma RepeatBack(g: Grammar, m: nat, e: nat, a: nat, v: Verdict)
    requires g.Valid() && m < |g.nodes| && g.nodes[m] == RepeatMatcher(e) && Plus(Recognizes(g, e), |g.tokens|)(a, v)
    ensures Recognizes(g, m)(a, v)
  {
    var ats :| PlusEnds(Recognizes(g, e), |g.tokens|, a, v, ats);
    forall i | 0 <= i < |ats| - 1
      ensures Recognizes(g, Again(e, |ats| - 1)[i])(ats[i], Success(ats[i + 1]))
    {
    }
    var ts := RecognizedChain(g, Again(e, |ats| - 1), a, ats);
    RunsOf(g, e, End(ats), Failure);
    RunsOf(g, e, End(ats), Exception);
    var r := if v.Success? then PR.Parses(PR.RepeatResult(ts, PR.StartOffset(g, a)), End(ats)) else RunOf(v);
    assert ParseRules.RepeatEnds(g, ParseRules.Ending(g), e, a, r, ts, ats);
    ParseRules.EndsByRule(g, m, a, r);
    assert EndsAs(g, m, a, v, r);
  }
}
