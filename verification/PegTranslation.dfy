/**
 What the body of a PEG rule means (extension/autocomplete/matcher.cpp, `CreateMatcher`).

 `After` replays the compiler's stack of open brackets on trees instead of on shared, mutable
 matchers. Two things a rule can do make the compiler leave the trees behind: closing a bracket
 right after '/', and putting '/' right after a parameter whose argument is itself a choice, which
 extends the argument in place. These rules are `Poisoned`.
 */
module PegTranslation {
  import opened Wrappers

  datatype PEGToken =
    | LiteralToken(text: string)
    | ReferenceToken(text: string)
    | FunctionCallToken(text: string)
    | OperatorToken(symbol: char)
    | RegexToken(text: string)

  datatype PEGRule = PEGRule(parameters: seq<string>, tokens: seq<PEGToken>)

  /** Rules are looked up without regard to case; `fold` is that folding. */
  datatype PEGParser = PEGParser(rules: map<string, PEGRule>, fold: string -> string) {
    predicate HasRule(name: string) {
      fold(name) in rules
    }

    function Rule(name: string): PEGRule
      requires HasRule(name)
    {
      rules[fold(name)]
    }
  }

  /** Parameterised rules do not call each other in a cycle. */
  ghost predicate Acyclic(p: PEGParser, rank: string -> nat) {
    forall k, t | k in p.rules && |p.rules[k].parameters| > 0 && t in p.rules[k].tokens && t.FunctionCallToken? ::
      rank(p.fold(t.text)) < rank(k)
  }

  // ---------------------------------------------------------------- trees

  datatype Tree =
    | KeywordTree(text: string)
    | RuleTree(name: string)
    | SharedTree(argument: Tree)
    | ListTree(items: seq<Tree>)
    | OptionalTree(item: Tree)
    | ChoiceTree(items: seq<Tree>)
    | RepeatTree(item: Tree)
  {
    /** The tree itself, with any sharing of arguments looked through. */
    function Head(): Tree {
      if SharedTree? then argument.Head() else this
    }
  }

  /** An open bracket: its items, the function it calls (if any), and whether a '/' awaits its operand. */
  datatype Frame = Frame(items: seq<Tree>, callee: string, pending: bool) {
    ghost predicate Valid() {
      pending ==> items != [] && items[|items| - 1].ChoiceTree?
    }
  }

  datatype Machine = Going(frames: seq<Frame>) | Stuck | Poison

  /** What a token does: it is done at once, or it calls a parameterised rule and then adds the result. */
  datatype Effect = Now(m: Machine) | Call(callee: string, argument: Tree, frames: seq<Frame>)

  datatype Translated = Items(items: seq<Tree>) | Invalid | Poisoned

  ghost predicate ValidFrames(frames: seq<Frame>) {
    frames != [] && forall i | 0 <= i < |frames| :: frames[i].Valid()
  }

  /** Every function that is being called is one that the rule calls. */
  ghost predicate CallsOf(rule: PEGRule, frames: seq<Frame>) {
    forall i | 0 <= i < |frames| :: frames[i].callee == "" || FunctionCallToken(frames[i].callee) in rule.tokens
  }

  function Top(frames: seq<Frame>): Frame
    requires frames != []
  {
    frames[|frames| - 1]
  }

  function WithTop(frames: seq<Frame>, f: Frame): seq<Frame>
    requires frames != []
  {
    frames[..|frames| - 1] + [f]
  }

  function ReplaceLast<T>(ts: seq<T>, t: T): seq<T>
    requires ts != []
  {
    ts[..|ts| - 1] + [t]
  }

  function Last<T>(ts: seq<T>): T
    requires ts != []
  {
    ts[|ts| - 1]
  }

  /** Adds a primary: it completes a waiting choice, or becomes the next item. */
  function AddTree(frames: seq<Frame>, t: Tree): seq<Frame>
    requires ValidFrames(frames)
  {
    var f := Top(frames);
    if f.pending
    then WithTop(frames, Frame(ReplaceLast(f.items, ChoiceTree(Last(f.items).items + [t])), f.callee, false))
    else WithTop(frames, Frame(f.items + [t], f.callee, false))
  }

  function Step(rule: PEGRule, param: Option<Tree>, frames: seq<Frame>, token: PEGToken): Effect
    requires ValidFrames(frames) && (rule.parameters != [] ==> param.Some?)
  {
    match token
    case LiteralToken(text) => Now(Going(AddTree(frames, KeywordTree(text))))
    case ReferenceToken(name) =>
      Now(Going(AddTree(frames, if name in rule.parameters then SharedTree(param.value) else RuleTree(name))))
    case FunctionCallToken(f) => Now(Going(frames + [Frame([], f, false)]))
    case OperatorToken(c) => StepOperator(frames, c)
    case RegexToken(_) => Now(Stuck)
  }

  function StepOperator(frames: seq<Frame>, c: char): Effect
    requires ValidFrames(frames)
  {
    var f := Top(frames);
    if c == '?' || c == '*' || c == '+' || c == '/' then
      if f.pending || f.items == [] then Now(Stuck) else
      var last := Last(f.items);
      if c == '/' && last.SharedTree? && last.Head().ChoiceTree? then Now(Poison) else
      Now(Going(WithTop(frames, Frame(ReplaceLast(f.items, Operand(last, c)), f.callee, c == '/'))))
    else if c == '(' then Now(Going(frames + [Frame([], "", false)]))
    else if c == ')' then
      if f.pending then Now(Poison) else
      if |frames| == 1 then Now(Stuck) else
      var below := frames[..|frames| - 1];
      if f.callee == "" then Now(Going(AddTree(below, ListTree(f.items))))
      else Call(f.callee, if |f.items| == 1 then f.items[0] else ListTree(f.items), below)
    else if c == '!' then Now(Going(frames))
    else Now(Stuck)
  }

  /** What an operator makes of the last item; '/' opens a choice, or reopens the last one. */
  function Operand(last: Tree, c: char): Tree {
    if c == '?' then OptionalTree(last)
    else if c == '*' then OptionalTree(RepeatTree(last))
    else if c == '+' then RepeatTree(last)
    else if last.ChoiceTree? then last
    else ChoiceTree([last])
  }

  /** A rule may be compiled with these arguments: it exists, and the number of arguments fits. */
  predicate Callable(p: PEGParser, name: string, arguments: nat) {
    p.HasRule(name) && |p.Rule(name).parameters| <= 1 && |p.Rule(name).parameters| == arguments
  }

  function Arity(param: Option<Tree>): nat { if param.Some? then 1 else 0 }

  lemma AddTreeKeeps(rule: PEGRule, frames: seq<Frame>, t: Tree)
    requires ValidFrames(frames) && CallsOf(rule, frames)
    ensures ValidFrames(AddTree(frames, t)) && CallsOf(rule, AddTree(frames, t))
  {
  }

  lemma StepKeeps(rule: PEGRule, param: Option<Tree>, frames: seq<Frame>, token: PEGToken)
    requires ValidFrames(frames) && CallsOf(rule, frames) && (rule.parameters != [] ==> param.Some?)
    requires token in rule.tokens
    ensures match Step(rule, param, frames, token)
            case Now(Going(next)) => ValidFrames(next) && CallsOf(rule, next)
            case Call(f, _, below) => ValidFrames(below) && CallsOf(rule, below) && FunctionCallToken(f) in rule.tokens
            case _ => true
  {
    if token == OperatorToken(')') && |frames| > 1 {
      var below := frames[..|frames| - 1];
      AddTreeKeeps(rule, below, ListTree(Top(frames).items));
    }
  }

  /** The machine after the first `i` tokens of a rule. */
  ghost function After(p: PEGParser, rank: string -> nat, name: string, param: Option<Tree>, i: nat): (m: Machine)
    requires Acyclic(p, rank) && Callable(p, name, Arity(param)) && i <= |p.Rule(name).tokens|
    ensures m.Going? ==> ValidFrames(m.frames) && CallsOf(p.Rule(name), m.frames)
    decreases 1 - Arity(param), rank(p.fold(name)), 0, i
  {
    if i == 0 then Going([Frame([], "", false)]) else
    match After(p, rank, name, param, i - 1)
    case Going(frames) =>
      StepKeeps(p.Rule(name), param, frames, p.Rule(name).tokens[i - 1]);
      (match Step(p.Rule(name), param, frames, p.Rule(name).tokens[i - 1])
       case Now(m) => m
       case Call(f, argument, below) =>
         (match Translate(p, rank, f, Some(argument))
          case Items(items) => AddTreeKeeps(p.Rule(name), below, ListTree(items)); Going(AddTree(below, ListTree(items)))
          case Invalid => Stuck
          case Poisoned => Poison))
    case other => other
  }

  /** The items of a rule's list, with the calls of parameterised rules expanded. */
  ghost function Translate(p: PEGParser, rank: string -> nat, name: string, param: Option<Tree>): Translated
    requires Acyclic(p, rank)
    decreases 1 - Arity(param), rank(p.fold(name)), 1
  {
    if !Callable(p, name, Arity(param)) then Invalid else
    match After(p, rank, name, param, |p.Rule(name).tokens|)
    case Going(frames) => if |frames| == 1 && !frames[0].pending then Items(frames[0].items) else Invalid
    case Stuck => Invalid
    case Poison => Poisoned
  }

  /** A rule that is not poisoned has not been poisoned, or stuck, at any earlier token than its end shows. */
  lemma {:induction false} VerdictStays(p: PEGParser, rank: string -> nat, name: string, param: Option<Tree>, i: nat, j: nat)
    requires Acyclic(p, rank) && Callable(p, name, Arity(param)) && i <= j <= |p.Rule(name).tokens|
    ensures !After(p, rank, name, param, i).Going? ==> After(p, rank, name, param, j) == After(p, rank, name, param, i)
    decreases j - i
  {
    if i == j {
    } else {
      VerdictStays(p, rank, name, param, i, j - 1);
    }
  }

  // ---------------------------------------------------------------- rules that are never poisoned

  /** The last of the first `i` tokens that is not a NOT operator. */
  function Before(tokens: seq<PEGToken>, i: nat): Option<PEGToken>
    requires i <= |tokens|
  {
    if i == 0 then None
    else if tokens[i - 1] == OperatorToken('!') then Before(tokens, i - 1)
    else Some(tokens[i - 1])
  }

  /** No bracket is closed right after '/', and no '/' follows a parameter. */
  ghost predicate Wholesome(rule: PEGRule) {
    forall i | 0 <= i < |rule.tokens| ::
      && (rule.tokens[i] == OperatorToken(')') ==> Before(rule.tokens, i) != Some(OperatorToken('/')))
      && (rule.tokens[i] == OperatorToken('/') ==>
            match Before(rule.tokens, i)
            case Some(ReferenceToken(n)) => n !in rule.parameters
            case _ => true)
  }

  /** What the tokens just read say about the top frame. */
  ghost predicate TopTells(rule: PEGRule, f: Frame, before: Option<PEGToken>) {
    && (f.pending ==> before == Some(OperatorToken('/')))
    && (!f.pending && f.items != [] && Last(f.items).SharedTree? ==>
          before.Some? && before.value.ReferenceToken? && before.value.text in rule.parameters)
  }

  lemma StepTells(rule: PEGRule, param: Option<Tree>, frames: seq<Frame>, token: PEGToken, before: Option<PEGToken>)
    requires ValidFrames(frames) && (rule.parameters != [] ==> param.Some?)
    requires TopTells(rule, Top(frames), before)
    requires token == OperatorToken(')') ==> before != Some(OperatorToken('/'))
    requires token == OperatorToken('/') ==>
               !(before.Some? && before.value.ReferenceToken? && before.value.text in rule.parameters)
    ensures match Step(rule, param, frames, token)
            case Now(Going(next)) =>
              next != [] && TopTells(rule, Top(next), if token == OperatorToken('!') then before else Some(token))
            case Now(m) => m != Poison
            case Call(_, _, _) => token == OperatorToken(')')
  {
  }

  /** The rules of these names are wholesome, and call only such rules. */
  ghost predicate WholesomeRules(p: PEGParser, names: set<string>) {
    forall n | n in names && p.HasRule(n) ::
      Wholesome(p.Rule(n)) && forall t | t in p.Rule(n).tokens && t.FunctionCallToken? :: t.text in names
  }

  /** When a rule and all that it calls are wholesome, it is not poisoned. */
  lemma {:induction false} WholesomeIsNotPoisoned(
      p: PEGParser, rank: string -> nat, names: set<string>, name: string, param: Option<Tree>)
    requires Acyclic(p, rank) && WholesomeRules(p, names) && name in names
    ensures Translate(p, rank, name, param) != Poisoned
    decreases 1 - Arity(param), rank(p.fold(name)), 1
  {
    hide Wholesome;
    if Callable(p, name, Arity(param)) {
      WholesomeTells(p, rank, names, name, param, |p.Rule(name).tokens|);
    }
  }

  lemma {:induction false} WholesomeTells(
      p: PEGParser, rank: string -> nat, names: set<string>, name: string, param: Option<Tree>, i: nat)
    requires Acyclic(p, rank) && Callable(p, name, Arity(param)) && i <= |p.Rule(name).tokens|
    requires WholesomeRules(p, names) && name in names
    ensures match After(p, rank, name, param, i)
            case Going(frames) => frames != [] && TopTells(p.Rule(name), Top(frames), Before(p.Rule(name).tokens, i))
            case m => m != Poison
    decreases 1 - Arity(param), rank(p.fold(name)), 0, i
  {
    hide Wholesome, TopTells, AddTree, StepOperator, Before;
    var rule := p.Rule(name);
    if i == 0 {
      NothingTells(rule);
    } else {
      WholesomeTells(p, rank, names, name, param, i - 1);
      var m := After(p, rank, name, param, i - 1);
      if m.Going? {
        var token, before := rule.tokens[i - 1], Before(rule.tokens, i - 1);
        WholesomeAt(rule, i - 1);
        StepTells(rule, param, m.frames, token, before);
        StepKeeps(rule, param, m.frames, token);
        match Step(rule, param, m.frames, token)
        case Now(_) =>
        case Call(f, argument, below) =>
          WholesomeIsNotPoisoned(p, rank, names, f, Some(argument));
          if Translate(p, rank, f, Some(argument)).Items? {
            AddedTells(rule, below, ListTree(Translate(p, rank, f, Some(argument)).items));
          }
      }
    }
  }

  lemma NothingTells(rule: PEGRule)
    ensures TopTells(rule, Frame([], "", false), Before(rule.tokens, 0))
  {
  }

  lemma WholesomeAt(rule: PEGRule, i: nat)
    requires Wholesome(rule) && i < |rule.tokens|
    ensures var token, before := rule.tokens[i], Before(rule.tokens, i);
            && (token == OperatorToken(')') ==> before != Some(OperatorToken('/')))
            && (token == OperatorToken('/') ==>
                  !(before.Some? && before.value.ReferenceToken? && before.value.text in rule.parameters))
            && Before(rule.tokens, i + 1) == if token == OperatorToken('!') then before else Some(token)
  {
  }

  /** A tree that has just been added is no open choice, and no parameter. */
  lemma AddedTells(rule: PEGRule, frames: seq<Frame>, t: Tree)
    requires ValidFrames(frames) && !t.SharedTree?
    ensures AddTree(frames, t) != [] && TopTells(rule, Top(AddTree(frames, t)), Some(OperatorToken(')')))
  {
  }
}
