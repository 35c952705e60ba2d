/**
 What a PEG grammar recognises, and that its compiled matchers recognise exactly that
 (extension/autocomplete/matcher.cpp).

 A rule body is read as a parsing expression, with the operators of `Recognizers`: a reference
 recognises what its rule does, a parameter what the argument does, a call what the body of the
 called rule does for that argument. Nothing here speaks of stacks, lists in place, or trees.
 */
module PegRecognition {
  import opened Wrappers
  import opened Sequences
  import opened MatcherGraph
  import opened PegTranslation
  import opened PegShapes
  import opened PegSyntax
  import opened PegCompiler
  import R = Recognizers

  /** The terminals, the keyword that a spelling stands for, and what the rules recognise. */
  datatype Env = Env(g: Grammar, keyword: string -> string, rule: string -> R.Recognizer) {
    function Tokens(): nat {
      |g.tokens|
    }
  }

  /** A rule of the grammar, with what its parameter recognises if it has one. */
  datatype Scope = Scope(p: PEGParser, rank: string -> nat, name: string, argument: Option<R.Recognizer>) {
    ghost predicate Valid() {
      Acyclic(p, rank) && Callable(p, name, if argument.Some? then 1 else 0)
    }

    function Rule(): PEGRule
      requires p.HasRule(name)
    {
      p.Rule(name)
    }

    /** The tokens are some of the rule's. */
    ghost predicate Holds(ts: seq<PEGToken>)
      requires Valid()
    {
      forall t | t in ts :: t in Rule().tokens
    }

    function Level(): nat {
      if argument.Some? then 0 else 1
    }
  }

  /** The body of a rule, if its tokens are those of one. */
  ghost function BodyOf(rule: PEGRule): (body: seq<Element>)
    ensures (exists b :: Print(b) == rule.tokens) ==> Print(body) == rule.tokens
    ensures forall t | t in Print(body) :: t in rule.tokens
  {
    if exists b :: Print(b) == rule.tokens then (var b :| Print(b) == rule.tokens; b) else []
  }

  // ---------------------------------------------------------------- the meaning of a body

  ghost function Nothing(): R.Recognizer {
    (a: nat, v: R.Verdict) => false
  }

  ghost function PostfixOf(op: PostfixOperator, x: R.Recognizer, tokens: nat): R.Recognizer {
    match op
    case Question => R.Maybe(x)
    case Star => R.Star(x, tokens)
    case Plus => R.Plus(x, tokens)
  }

  ghost function PrimaryOf(env: Env, s: Scope, q: Primary): R.Recognizer
    requires s.Valid() && s.Holds(PrintPrimary(q))
    decreases s.Level(), s.rank(s.p.fold(s.name)), q, 0
  {
    match q
    case KeywordPrimary(text) => R.Terminal(env.g, KeywordMatcher(env.keyword(text)))
    case ReferencePrimary(name) => if name in s.Rule().parameters then s.argument.value else env.rule(name)
    case BracketPrimary(body) => R.Sequence(ItemsOf(env, s, body))
    case CallPrimary(callee, body) =>
      assert FunctionCallToken(callee) in s.Rule().tokens by {
        assert PrintPrimary(q)[0] == FunctionCallToken(callee);
      }
      var argument := R.Sequence(ItemsOf(env, s, body));
      if callee == "" then argument
      else if !Callable(s.p, callee, 1) then Nothing()
      else R.Sequence(ItemsOf(env, s.(name := callee, argument := Some(argument)), BodyOf(s.p.Rule(callee))))
  }

  /**
   What an element makes of the items before it. A postfix operator applies to the last item, and '/' to
   the last item and the primary after it; '!' means nothing.
   */
  ghost function ElementOf(env: Env, s: Scope, items: seq<R.Recognizer>, e: Element): seq<R.Recognizer>
    requires s.Valid() && s.Holds(PrintElement(e))
    decreases s.Level(), s.rank(s.p.fold(s.name)), e, 1
  {
    match e
    case Not => items
    case Item(q) => items + [PrimaryOf(env, s, q)]
    case Postfix(op) => if items == [] then [] else ReplaceLast(items, PostfixOf(op, Last(items), env.Tokens()))
    case Alternative(n, q) =>
      assert PrintElement(e) == Operator('/') + Nots(n) + PrintPrimary(q);
      if items == [] then [] else ReplaceLast(items, R.Or(Last(items), PrimaryOf(env, s, q)))
  }

  /** What the items of a body recognise, from left to right. */
  ghost function ItemsOf(env: Env, s: Scope, body: seq<Element>): seq<R.Recognizer>
    requires s.Valid() && s.Holds(Print(body))
    decreases s.Level(), s.rank(s.p.fold(s.name)), body, 2
  {
    if body == [] then [] else ElementOf(env, s, ItemsOf(env, s, body[..|body| - 1]), body[|body| - 1])
  }

  /** A body recognises its items one after the other. */
  ghost function BodyRecognizer(env: Env, s: Scope, body: seq<Element>): R.Recognizer
    requires s.Valid() && s.Holds(Print(body))
  {
    R.Sequence(ItemsOf(env, s, body))
  }

  // ---------------------------------------------------------------- trees recognise what matchers do

  ghost function TreeMeaning(env: Env, t: PegTranslation.Tree): R.Recognizer
    decreases t, 0
  {
    match t
    case KeywordTree(text) => R.Terminal(env.g, KeywordMatcher(env.keyword(text)))
    case RuleTree(name) => env.rule(name)
    case SharedTree(argument) => TreeMeaning(env, argument)
    case ListTree(items) => R.Sequence(TreeMeanings(env, items))
    case OptionalTree(item) => R.Maybe(TreeMeaning(env, item))
    case ChoiceTree(items) => R.FirstOf(TreeMeanings(env, items))
    case RepeatTree(item) => R.Plus(TreeMeaning(env, item), env.Tokens())
  }

  ghost function TreeMeanings(env: Env, ts: seq<PegTranslation.Tree>): seq<R.Recognizer>
    decreases ts, 0
  {
    seq(|ts|, i requires 0 <= i < |ts| => TreeMeaning(env, ts[i]))
  }

  /** The graph of a world, on tokens and with answers of any kind. */
  ghost predicate IsGraphOf(g: Grammar, w: World) {
    g.nodes == w.nodes && SafeWorld(w)
  }

  /** A keyword with an override stands for the spelling of its override. */
  function SpellingOf(w: World, text: string): string {
    var key := w.fold(text);
    if key in w.overrides && w.overrides[key] < |w.nodes| && w.nodes[w.overrides[key]].KeywordMatcher?
    then w.nodes[w.overrides[key]].keyword else text
  }

  ghost function RuleIn(g: Grammar, cache: map<string, nat>, name: string): R.Recognizer
    requires g.Valid()
  {
    if name in cache then R.Recognizes(g, cache[name]) else Nothing()
  }

  /** The rules recognise what their own matchers do. */
  ghost function EnvOf(g: Grammar, w: World): Env
    requires IsGraphOf(g, w)
  {
    Env(g, text => SpellingOf(w, text), name => RuleIn(g, w.cache, name))
  }

  /** A matcher that represents a tree recognises what the tree does. */
  lemma {:induction false} MatcherMeansTree(g: Grammar, w: World, id: nat, t: PegTranslation.Tree)
    requires IsGraphOf(g, w) && Represents(w, id, t)
    ensures id < |w.nodes| && R.Same(R.Recognizes(g, id), TreeMeaning(EnvOf(g, w), t))
    decreases t, 0
  {
    var env := EnvOf(g, w);
    RepresentsKind(w, id, t);
    match t
    case KeywordTree(text) => R.TerminalRecognizes(g, id);
    case RuleTree(_) =>
    case SharedTree(argument) => MatcherMeansTree(g, w, id, argument);
    case ListTree(items) =>
      var ms := w.nodes[id].matchers;
      MatchersMeanTrees(g, w, ms, items);
      R.ListRecognizes(g, id, ms);
      R.SameSequence(R.AllRecognize(g, ms), TreeMeanings(env, items));
    case OptionalTree(item) =>
      MatcherMeansTree(g, w, w.nodes[id].matcher, item);
      R.OptionalRecognizes(g, id, w.nodes[id].matcher);
      R.SameMaybe(R.Recognizes(g, w.nodes[id].matcher), TreeMeaning(env, item));
    case ChoiceTree(items) =>
      var ms := w.nodes[id].matchers;
      MatchersMeanTrees(g, w, ms, items);
      R.ChoiceRecognizes(g, id, ms);
      R.SameFirstOf(R.AllRecognize(g, ms), TreeMeanings(env, items));
    case RepeatTree(item) =>
      MatcherMeansTree(g, w, w.nodes[id].element, item);
      R.RepeatRecognizes(g, id, w.nodes[id].element);
      R.SamePlus(R.Recognizes(g, w.nodes[id].element), TreeMeaning(env, item), |g.tokens|);
  }

  lemma {:induction false} MatchersMeanTrees(g: Grammar, w: World, ids: seq<nat>, ts: seq<PegTranslation.Tree>)
    requires IsGraphOf(g, w) && RepresentsAll(w, ids, ts)
    ensures R.AllSame(R.AllRecognize(g, ids), TreeMeanings(EnvOf(g, w), ts))
    decreases ts, 0
  {
    forall i | 0 <= i < |ts|
      ensures R.Same(R.Recognizes(g, ids[i]), TreeMeaning(EnvOf(g, w), ts[i]))
    {
      MatcherMeansTree(g, w, ids[i], ts[i]);
    }
  }

  // ---------------------------------------------------------------- bodies recognise what their trees do

  /** The argument of a call, as a tree and as a recognizer. */
  ghost predicate SameArgument(env: Env, param: Option<PegTranslation.Tree>, argument: Option<R.Recognizer>) {
    match param
    case None => argument.None?
    case Some(t) => argument.Some? && R.Same(TreeMeaning(env, t), argument.value)
  }

  /** What reading a rule's body with trees and with recognizers have in common. */
  ghost predicate Matches(env: Env, s: Scope, param: Option<PegTranslation.Tree>) {
    s.Valid() && SameArgument(env, param, s.argument)
  }

  lemma {:induction false} PrimaryMeansTree(env: Env, s: Scope, param: Option<PegTranslation.Tree>, q: Primary)
    requires Matches(env, s, param) && s.Holds(PrintPrimary(q))
    ensures match PrimaryTree(s.p, s.rank, s.Rule(), param, q)
            case Tree(t) => R.Same(TreeMeaning(env, t), PrimaryOf(env, s, q))
            case NoTree(_) => true
    decreases s.Level(), s.rank(s.p.fold(s.name)), q, 0
  {
    match q
    case KeywordPrimary(_) =>
    case ReferencePrimary(_) =>
    case BracketPrimary(body) => SequenceMeansTree(env, s, param, body);
    case CallPrimary(callee, body) =>
      assert PrintPrimary(q)[0] == FunctionCallToken(callee);
      SequenceMeansTree(env, s, param, body);
      if callee != "" && PrimaryTree(s.p, s.rank, s.Rule(), param, q).Tree? {
        CallMeansTree(env, s, param, callee, body);
      }
  }

  /** A bracket, or an argument. */
  lemma {:induction false} SequenceMeansTree(env: Env, s: Scope, param: Option<PegTranslation.Tree>, body: seq<Element>)
    requires Matches(env, s, param) && s.Holds(Print(body))
    ensures match Meaning(s.p, s.rank, s.Rule(), param, body)
            case Items(items) => R.Same(TreeMeaning(env, ListTree(items)), BodyRecognizer(env, s, body))
            case _ => true
    decreases s.Level(), s.rank(s.p.fold(s.name)), body, 3
  {
    BodyMeansTrees(env, s, param, body);
    match Meaning(s.p, s.rank, s.Rule(), param, body)
    case Items(items) => R.SameSequence(TreeMeanings(env, items), ItemsOf(env, s, body));
    case _ =>
  }

  /** The argument of a single item is that item itself. */
  lemma ArgumentMeans(env: Env, items: seq<PegTranslation.Tree>, x: R.Recognizer)
    requires R.Same(TreeMeaning(env, ListTree(items)), x)
    ensures R.Same(TreeMeaning(env, if |items| == 1 then items[0] else ListTree(items)), x)
  {
    if |items| == 1 {
      var one := TreeMeaning(env, items[0]);
      assert TreeMeanings(env, items) == [one];
      R.SequenceOfOne(one);
    }
  }

  lemma {:induction false} CallMeansTree(env: Env, s: Scope, param: Option<PegTranslation.Tree>, callee: string, body: seq<Element>)
    requires Matches(env, s, param) && s.Holds(PrintPrimary(CallPrimary(callee, body))) && callee != ""
    requires PrimaryTree(s.p, s.rank, s.Rule(), param, CallPrimary(callee, body)).Tree?
    requires match Meaning(s.p, s.rank, s.Rule(), param, body)
             case Items(items) => R.Same(TreeMeaning(env, ListTree(items)), BodyRecognizer(env, s, body))
             case _ => true
    ensures R.Same(TreeMeaning(env, PrimaryTree(s.p, s.rank, s.Rule(), param, CallPrimary(callee, body)).t),
                   PrimaryOf(env, s, CallPrimary(callee, body)))
    decreases s.Level(), s.rank(s.p.fold(s.name)), body, 4
  {
    var items := Meaning(s.p, s.rank, s.Rule(), param, body).items;
    var argument := if |items| == 1 then items[0] else ListTree(items);
    var x := BodyRecognizer(env, s, body);
    ArgumentMeans(env, items, x);
    assert FunctionCallToken(callee) in s.Rule().tokens by {
      assert PrintPrimary(CallPrimary(callee, body))[0] == FunctionCallToken(callee);
    }
    var inner := s.(name := callee, argument := Some(x));
    AcceptsExactlyBodies(s.p, s.rank, callee, Some(argument));
    SequenceMeansTree(env, inner, Some(argument), BodyOf(inner.Rule()));
  }

  lemma {:induction false} ElementMeansTrees(env: Env, s: Scope, param: Option<PegTranslation.Tree>,
                                             items: seq<PegTranslation.Tree>, xs: seq<R.Recognizer>, e: Element)
    requires Matches(env, s, param) && s.Holds(PrintElement(e)) && R.AllSame(TreeMeanings(env, items), xs)
    ensures match ElementMeaning(s.p, s.rank, s.Rule(), param, items, e)
            case Items(next) => R.AllSame(TreeMeanings(env, next), ElementOf(env, s, xs, e))
            case _ => true
    decreases s.Level(), s.rank(s.p.fold(s.name)), e, 1
  {
    match e
    case Not =>
    case Item(q) => PrimaryMeansTree(env, s, param, q);
    case Postfix(op) =>
      if items != [] {
        PostfixMeans(env, op, Last(items), Last(xs));
        LastMeans(env, items, xs, Operand(Last(items), op.Symbol()), PostfixOf(op, Last(xs), env.Tokens()));
      }
    case Alternative(n, q) =>
      assert PrintElement(e) == Operator('/') + Nots(n) + PrintPrimary(q);
      PrimaryMeansTree(env, s, param, q);
      if items != [] && ElementMeaning(s.p, s.rank, s.Rule(), param, items, e).Items? {
        var t := PrimaryTree(s.p, s.rank, s.Rule(), param, q).t;
        AlternativeMeans(env, Last(items), t, Last(xs), PrimaryOf(env, s, q));
        LastMeans(env, items, xs, ChoiceTree(Operand(Last(items), '/').items + [t]), R.Or(Last(xs), PrimaryOf(env, s, q)));
      }
  }

  /** Replacing the last item. */
  lemma LastMeans(env: Env, items: seq<PegTranslation.Tree>, xs: seq<R.Recognizer>, t: PegTranslation.Tree, x: R.Recognizer)
    requires items != [] && R.AllSame(TreeMeanings(env, items), xs) && R.Same(TreeMeaning(env, t), x)
    ensures R.AllSame(TreeMeanings(env, ReplaceLast(items, t)), ReplaceLast(xs, x))
  {
    forall i | 0 <= i < |items|
      ensures R.Same(TreeMeanings(env, ReplaceLast(items, t))[i], ReplaceLast(xs, x)[i])
    {
      assert R.Same(TreeMeanings(env, items)[i], xs[i]);
    }
  }

  lemma PostfixMeans(env: Env, op: PostfixOperator, t: PegTranslation.Tree, x: R.Recognizer)
    requires R.Same(TreeMeaning(env, t), x)
    ensures R.Same(TreeMeaning(env, Operand(t, op.Symbol())), PostfixOf(op, x, env.Tokens()))
  {
    var y := TreeMeaning(env, t);
    match op
    case Question => R.SameMaybe(y, x);
    case Star =>
      R.SamePlus(y, x, env.Tokens());
      R.SameMaybe(R.Plus(y, env.Tokens()), R.Plus(x, env.Tokens()));
      R.StarIsMaybePlus(x, env.Tokens());
    case Plus => R.SamePlus(y, x, env.Tokens());
  }

  lemma AlternativeMeans(env: Env, last: PegTranslation.Tree, t: PegTranslation.Tree, x: R.Recognizer, y: R.Recognizer)
    requires R.Same(TreeMeaning(env, last), x) && R.Same(TreeMeaning(env, t), y)
    ensures R.Same(TreeMeaning(env, ChoiceTree(Operand(last, '/').items + [t])), R.Or(x, y))
  {
    var items := Operand(last, '/').items;
    var xs, z := TreeMeanings(env, items), TreeMeaning(env, t);
    assert TreeMeanings(env, items + [t]) == xs + [z];
    R.FirstOfMore(xs, z);
    if !last.ChoiceTree? {
      assert xs == [TreeMeaning(env, last)];
      R.FirstOfOne(TreeMeaning(env, last));
    }
    R.SameOr(R.FirstOf(xs), z, x, y);
  }

  /** The trees of a body recognise what its items do. */
  lemma {:induction false} BodyMeansTrees(env: Env, s: Scope, param: Option<PegTranslation.Tree>, body: seq<Element>)
    requires Matches(env, s, param) && s.Holds(Print(body))
    ensures match Meaning(s.p, s.rank, s.Rule(), param, body)
            case Items(items) => R.AllSame(TreeMeanings(env, items), ItemsOf(env, s, body))
            case _ => true
    decreases s.Level(), s.rank(s.p.fold(s.name)), body, 2
  {
    if body == [] {
    } else {
      var before := body[..|body| - 1];
      BodyMeansTrees(env, s, param, before);
      match Meaning(s.p, s.rank, s.Rule(), param, before)
      case Items(items) => ElementMeansTrees(env, s, param, items, ItemsOf(env, s, before), body[|body| - 1]);
      case _ =>
    }
  }

  // ---------------------------------------------------------------- compiled rules

  /**
   The matcher of a compiled rule recognises what the body of the rule says, for every body that is
   written with the rule's tokens, on all tokens, and whatever the terminals answer.
   */
  lemma MatcherRecognizesBody(c: Context, w: World, n: string, body: seq<Element>, g: Grammar)
    requires Acyclic(c.p, c.rank) && c.Compiled(w, n) && IsGraphOf(g, w) && Print(body) == c.p.Rule(n).tokens
    ensures var s := Scope(c.p, c.rank, n, None);
            s.Valid() && R.Same(R.Recognizes(g, w.cache[n]), BodyRecognizer(EnvOf(g, w), s, body))
  {
    var env, s := EnvOf(g, w), Scope(c.p, c.rank, n, None);
    var items := Translate(c.p, c.rank, n, None).items;
    MatcherMeansTree(g, w, w.cache[n], ListTree(items));
    AcceptsExactlyBodies(c.p, c.rank, n, None);
    SequenceMeansTree(env, s, None, body);
  }

  /** All rules that the compiler has added recognise what their bodies say, and each of them has one. */
  lemma CompiledRulesRecognize(c: Context, before: map<string, nat>, w: World, n: string, g: Grammar)
    requires Acyclic(c.p, c.rank) && c.NewlyCompiled(before, w) && IsGraphOf(g, w) && n in w.cache && n !in before
    ensures c.p.HasRule(n) && exists body :: Print(body) == c.p.Rule(n).tokens
    ensures forall body | Print(body) == c.p.Rule(n).tokens ::
              var s := Scope(c.p, c.rank, n, None);
              s.Valid() && R.Same(R.Recognizes(g, w.cache[n]), BodyRecognizer(EnvOf(g, w), s, body))
  {
    assert c.Compiled(w, n);
    AcceptsExactlyBodies(c.p, c.rank, n, None);
    forall body | Print(body) == c.p.Rule(n).tokens
      ensures var s := Scope(c.p, c.rank, n, None);
              s.Valid() && R.Same(R.Recognizes(g, w.cache[n]), BodyRecognizer(EnvOf(g, w), s, body))
    {
      MatcherRecognizesBody(c, w, n, body, g);
    }
  }
}
