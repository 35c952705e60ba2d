/**
 Which rules the PEG compiler accepts (extension/autocomplete/matcher.cpp).

 Whether compiling fails depends on little: for each entry of the stack, whether it is a choice, an
 empty list, or a list with items, and which function it calls. This machine of shapes needs no
 trees, and so it also covers the rules that the trees do not describe.
 */
module PegAcceptance {
  import opened Wrappers
  import opened MatcherGraph
  import opened PegTranslation
  import opened PegShapes

  datatype Kind = EmptyList | FullList | Choice

  /** The shape of one entry of the stack. */
  datatype Slot = Slot(callee: string, kind: Kind)

  // ---------------------------------------------------------------- the machine of shapes

  /** The rule's own list is at the bottom. */
  predicate IsShape(s: seq<Slot>) {
    s != [] && s[0].callee == "" && s[0].kind != Choice
  }

  /** A matcher is added to the top: a list has items then, and a choice is complete. */
  function AddedTo(s: seq<Slot>): (r: seq<Slot>)
    requires IsShape(s)
    ensures IsShape(r)
  {
    if Last(s).kind == Choice then s[..|s| - 1] else s[..|s| - 1] + [Last(s).(kind := FullList)]
  }

  /** One token; `None` is an exception. */
  function ShapeStep(s: seq<Slot>, token: PEGToken): (r: Option<seq<Slot>>)
    requires IsShape(s)
    ensures r.Some? ==> IsShape(r.value)
  {
    match token
    case LiteralToken(_) => Some(AddedTo(s))
    case ReferenceToken(_) => Some(AddedTo(s))
    case FunctionCallToken(f) => Some(s + [Slot(f, EmptyList)])
    case RegexToken(_) => None
    case OperatorToken(c) =>
      if c == '?' || c == '*' || c == '+' then if Last(s).kind == FullList then Some(s) else None
      else if c == '/' then if Last(s).kind == FullList then Some(s + [Slot("", Choice)]) else None
      else if c == '(' then Some(s + [Slot("", EmptyList)])
      else if c == ')' then if |s| > 1 then Some(AddedTo(s[..|s| - 1])) else None
      else if c == '!' then Some(s)
      else None
  }

  /** The shape of the stack after the first `i` tokens. */
  function ShapeAfter(tokens: seq<PEGToken>, i: nat): (r: Option<seq<Slot>>)
    requires i <= |tokens|
    ensures r.Some? ==> IsShape(r.value)
  {
    if i == 0 then Some([Slot("", EmptyList)]) else
    match ShapeAfter(tokens, i - 1)
    case None => None
    case Some(s) => ShapeStep(s, tokens[i - 1])
  }

  /** The tokens raise nothing, and close everything that they open. */
  predicate EndsClosed(tokens: seq<PEGToken>) {
    var s := ShapeAfter(tokens, |tokens|);
    s.Some? && |s.value| == 1
  }

  lemma {:induction false} NothingAfterNone(tokens: seq<PEGToken>, i: nat, j: nat)
    requires i <= j <= |tokens| && ShapeAfter(tokens, i) == None
    ensures ShapeAfter(tokens, j) == None
    decreases j - i
  {
    if i == j {
    } else {
      NothingAfterNone(tokens, i, j - 1);
    }
  }

  // ---------------------------------------------------------------- accepted rules

  /**
   A rule can be compiled, given that the plain rules in `known` can: it exists, takes the number of
   arguments it gets, closes, refers to known rules only, and calls functions that can be compiled.
   */
  ghost predicate RuleOk(p: PEGParser, rank: string -> nat, n: string, arity: nat, known: set<string>)
    requires Acyclic(p, rank)
    decreases if arity == 0 then 1 else 0, if arity == 0 then 0 else rank(p.fold(n))
  {
    Callable(p, n, arity) && EndsClosed(p.Rule(n).tokens)
    && forall t | t in p.Rule(n).tokens :: UseOk(p, rank, n, arity, t, known)
  }

  /** What the token refers to, or calls, can be compiled. A call of the empty name is a bracket. */
  ghost predicate UseOk(p: PEGParser, rank: string -> nat, n: string, arity: nat, t: PEGToken, known: set<string>)
    requires Acyclic(p, rank) && Callable(p, n, arity) && t in p.Rule(n).tokens
    decreases if arity == 0 then 1 else 0, if arity == 0 then 0 else rank(p.fold(n)), 0
  {
    match t
    case ReferenceToken(text) => text in p.Rule(n).parameters || text in known
    case FunctionCallToken(f) => f == "" || RuleOk(p, rank, f, 1, known)
    case _ => true
  }

  lemma {:induction false} RuleOkLater(p: PEGParser, rank: string -> nat, n: string, arity: nat, a: set<string>, b: set<string>)
    requires Acyclic(p, rank) && a <= b && RuleOk(p, rank, n, arity, a)
    ensures RuleOk(p, rank, n, arity, b)
    decreases if arity == 0 then 1 else 0, if arity == 0 then 0 else rank(p.fold(n))
  {
    forall t | t in p.Rule(n).tokens
      ensures UseOk(p, rank, n, arity, t, b)
    {
      assert UseOk(p, rank, n, arity, t, a);
      match t
      case FunctionCallToken(f) =>
        if f != "" {
          RuleOkLater(p, rank, f, 1, a, b);
        }
      case _ =>
    }
  }

  /** The rules that are known after but not before can be compiled. */
  ghost predicate NewRulesOk(p: PEGParser, rank: string -> nat, before: set<string>, after: set<string>)
    requires Acyclic(p, rank)
  {
    before <= after && forall n | n in after && n !in before :: RuleOk(p, rank, n, 0, after)
  }

  lemma NewRulesCompose(p: PEGParser, rank: string -> nat, a: set<string>, b: set<string>, c: set<string>)
    requires Acyclic(p, rank) && NewRulesOk(p, rank, a, b) && NewRulesOk(p, rank, b, c)
    ensures NewRulesOk(p, rank, a, c)
  {
    forall n | n in c && n !in a
      ensures RuleOk(p, rank, n, 0, c)
    {
      if n in b {
        RuleOkLater(p, rank, n, 0, b, c);
      }
    }
  }

  // ---------------------------------------------------------------- rules with a reading

  /** The slots of a frame: its list, and the choice that awaits an operand. */
  function FrameSlots(f: Frame): seq<Slot> {
    [Slot(f.callee, if f.items == [] then EmptyList else FullList)] + if f.pending then [Slot("", Choice)] else []
  }

  function FramesSlots(frames: seq<Frame>): seq<Slot>
    decreases |frames|
  {
    if frames == [] then [] else FramesSlots(frames[..|frames| - 1]) + FrameSlots(Last(frames))
  }

  /** Adding a tree to the frames is adding a matcher to the shape. */
  lemma AddTreeSlots(frames: seq<Frame>, t: Tree)
    requires ValidFrames(frames) && IsShape(FramesSlots(frames))
    ensures FramesSlots(AddTree(frames, t)) == AddedTo(FramesSlots(frames))
  {
    var next, below := AddTree(frames, t), FramesSlots(frames[..|frames| - 1]);
    assert next[..|next| - 1] == frames[..|frames| - 1];
    var f := Top(frames);
    if f.pending {
      assert FramesSlots(frames) == below + [Slot(f.callee, FullList)] + [Slot("", Choice)];
    } else {
      assert FramesSlots(frames) == below + [Slot(f.callee, if f.items == [] then EmptyList else FullList)];
    }
  }

  /** Replacing the last item of the top frame leaves its list full; '/' puts a choice on top of it. */
  lemma OperandSlots(frames: seq<Frame>, f: Frame)
    requires ValidFrames(frames) && !Top(frames).pending && Top(frames).items != []
    requires f.callee == Top(frames).callee && f.items != []
    ensures Last(FramesSlots(frames)).kind == FullList
    ensures FramesSlots(WithTop(frames, f))
            == if f.pending then FramesSlots(frames) + [Slot("", Choice)] else FramesSlots(frames)
  {
    var next, below := WithTop(frames, f), FramesSlots(frames[..|frames| - 1]);
    assert next[..|next| - 1] == frames[..|frames| - 1];
    assert FramesSlots(frames) == below + [Slot(f.callee, FullList)];
  }

  lemma PushedSlots(frames: seq<Frame>, callee: string)
    ensures FramesSlots(frames + [Frame([], callee, false)]) == FramesSlots(frames) + [Slot(callee, EmptyList)]
  {
    var next := frames + [Frame([], callee, false)];
    assert next[..|next| - 1] == frames;
  }

  lemma PoppedSlots(frames: seq<Frame>)
    requires ValidFrames(frames) && !Top(frames).pending
    ensures FramesSlots(frames[..|frames| - 1]) == FramesSlots(frames)[..|FramesSlots(frames)| - 1]
  {
  }

  /** Where the trees go on, the shapes do, and they are those of the frames. */
  lemma {:induction false} TreesHaveShapes(p: PEGParser, rank: string -> nat, n: string, param: Option<Tree>, i: nat)
    requires Acyclic(p, rank) && Callable(p, n, Arity(param)) && i <= |p.Rule(n).tokens|
    ensures match After(p, rank, n, param, i)
            case Going(frames) => ShapeAfter(p.Rule(n).tokens, i) == Some(FramesSlots(frames))
            case _ => true
    decreases i
  {
    hide Translate, FramesSlots, ShapeStep, Step;
    if i == 0 {
      FirstSlot();
    } else {
      TreesHaveShapes(p, rank, n, param, i - 1);
      var before := After(p, rank, n, param, i - 1);
      if before.Going? {
        StepKeeps(p.Rule(n), param, before.frames, p.Rule(n).tokens[i - 1]);
        StepHasShape(p.Rule(n), param, before.frames, p.Rule(n).tokens[i - 1]);
      }
    }
  }

  lemma FirstSlot()
    ensures FramesSlots([Frame([], "", false)]) == [Slot("", EmptyList)]
  {
    assert [Frame([], "", false)][..0] == [];
    assert FramesSlots([]) + ([Slot("", EmptyList)] + []) == [Slot("", EmptyList)];
  }

  lemma StepHasShape(rule: PEGRule, param: Option<Tree>, frames: seq<Frame>, token: PEGToken)
    requires ValidFrames(frames) && (rule.parameters != [] ==> param.Some?) && IsShape(FramesSlots(frames))
    ensures match Step(rule, param, frames, token)
            case Now(Going(next)) => ShapeStep(FramesSlots(frames), token) == Some(FramesSlots(next))
            case Now(_) => true
            case Call(_, _, below) =>
              ValidFrames(below) ==>
                forall t :: ShapeStep(FramesSlots(frames), token) == Some(FramesSlots(AddTree(below, t)))
  {
    hide FramesSlots;
    var s := FramesSlots(frames);
    match token
    case LiteralToken(text) => AddTreeSlots(frames, KeywordTree(text));
    case ReferenceToken(name) =>
      AddTreeSlots(frames, if name in rule.parameters then SharedTree(param.value) else RuleTree(name));
    case FunctionCallToken(f) => PushedSlots(frames, f);
    case RegexToken(_) =>
    case OperatorToken(c) => OperatorHasShape(frames, c);
  }

  lemma OperatorHasShape(frames: seq<Frame>, c: char)
    requires ValidFrames(frames) && IsShape(FramesSlots(frames))
    ensures match StepOperator(frames, c)
            case Now(Going(next)) => ShapeStep(FramesSlots(frames), OperatorToken(c)) == Some(FramesSlots(next))
            case Now(_) => true
            case Call(_, _, below) =>
              ValidFrames(below) ==>
                forall t :: ShapeStep(FramesSlots(frames), OperatorToken(c)) == Some(FramesSlots(AddTree(below, t)))
  {
    hide FramesSlots;
    var f := Top(frames);
    if c == '(' {
      PushedSlots(frames, "");
    } else if c == ')' && !f.pending && |frames| > 1 {
      ClosedSlots(frames);
    } else if (c == '?' || c == '*' || c == '+' || c == '/') && !f.pending && f.items != [] {
      OperandSlots(frames, Frame(ReplaceLast(f.items, Operand(Last(f.items), c)), f.callee, c == '/'));
    }
  }

  lemma ClosedSlots(frames: seq<Frame>)
    requires ValidFrames(frames) && !Top(frames).pending && |frames| > 1
    ensures var s, below := FramesSlots(frames), frames[..|frames| - 1];
            && |s| > 1
            && (IsShape(s) ==>
                  IsShape(s[..|s| - 1]) && forall t :: FramesSlots(AddTree(below, t)) == AddedTo(s[..|s| - 1]))
  {
    var below := frames[..|frames| - 1];
    PoppedSlots(frames);
    assert FramesSlots(below) != [] by {
      assert FrameSlots(Last(below)) != [];
    }
    if IsShape(FramesSlots(frames)) {
      forall t
        ensures FramesSlots(AddTree(below, t)) == AddedTo(FramesSlots(below))
      {
        AddTreeSlots(below, t);
      }
    }
  }

  /** A rule that has a tree closes: the compiler accepts all rules with a reading. */
  lemma ReadingEndsClosed(p: PEGParser, rank: string -> nat, n: string, param: Option<Tree>)
    requires Acyclic(p, rank) && Translate(p, rank, n, param).Items?
    ensures Callable(p, n, Arity(param)) && EndsClosed(p.Rule(n).tokens)
  {
    TreesHaveShapes(p, rank, n, param, |p.Rule(n).tokens|);
    var frames := After(p, rank, n, param, |p.Rule(n).tokens|).frames;
    assert FramesSlots(frames[..0]) == [];
  }

  // ---------------------------------------------------------------- the compiler's stack has a shape

  function SlotOf(nodes: seq<Node>, e: MatcherListEntry): Slot
    requires e.matcher < |nodes|
  {
    Slot(e.functionName,
         if nodes[e.matcher].ListMatcher? then if nodes[e.matcher].matchers == [] then EmptyList else FullList
         else Choice)
  }

  function ShapeOf(b: Bench): seq<Slot>
    requires forall i | 0 <= i < |b.stack| :: b.stack[i].matcher < |b.nodes|
  {
    seq(|b.stack|, i requires 0 <= i < |b.stack| => SlotOf(b.nodes, b.stack[i]))
  }

  /** The stack is safe, has this shape, and its bottom calls no function. */
  ghost predicate HasShape(b: Bench, s: seq<Slot>) {
    SafeStack(b.nodes, b.stack) && ShapeOf(b) == s && b.stack[0].functionName == ""
  }

  /** Lists that are older than `base` stay as they are, and kinds stay what they are. */
  ghost predicate ListsKept(a: seq<Node>, b: seq<Node>, base: nat) {
    KindsKept(a, b) && forall i | 0 <= i < base && i < |a| && a[i].ListMatcher? :: b[i] == a[i]
  }

  lemma ListsKeptOn(a: seq<Node>, b: seq<Node>, c: seq<Node>, base: nat, base': nat)
    requires ListsKept(a, b, base) && ListsKept(b, c, base') && base <= base'
    ensures ListsKept(a, c, base)
  {
  }

  /** A step that keeps all lists keeps the shape. */
  lemma ShapeKept(a: Bench, b: Bench, s: seq<Slot>)
    requires HasShape(a, s) && ListsKept(a.nodes, b.nodes, |a.nodes|) && b.stack == a.stack
    ensures HasShape(b, s)
  {
    SafeStackKept(a.nodes, b.nodes, a.stack);
    assert forall i | 0 <= i < |a.stack| :: SlotOf(b.nodes, b.stack[i]) == SlotOf(a.nodes, a.stack[i]);
  }

  /** What a step makes of the shape, and that it keeps all lists below the rule's own. */
  ghost predicate Reshapes(a: Bench, b: Bench, s: seq<Slot>) {
    HasShape(b, s) && a.stack != [] && ListsKept(a.nodes, b.nodes, a.stack[0].matcher)
  }

  /** The top of a stack that has a shape. */
  lemma ShapeTop(a: Bench, s: seq<Slot>)
    requires HasShape(a, s)
    ensures IsShape(s) && |s| == |a.stack| && a.HasTop() && Last(s) == SlotOf(a.nodes, Last(a.stack))
    ensures a.Top().ListMatcher? || a.Top().ChoiceMatcher?
    ensures a.Top().ListMatcher? ==> a.stack[0].matcher <= Last(a.stack).matcher
  {
  }

  /** When only the top list changes, no other slot does. */
  lemma OtherSlots(a: Bench, s: seq<Slot>, nodes: seq<Node>)
    requires HasShape(a, s) && KindsKept(a.nodes, nodes)
    requires forall i | 0 <= i < |a.nodes| && a.nodes[i].ListMatcher? && i != Last(a.stack).matcher :: nodes[i] == a.nodes[i]
    ensures SafeStack(nodes, a.stack)
    ensures forall i | 0 <= i < |s| - 1 :: SlotOf(nodes, a.stack[i]) == s[i]
    ensures a.Top().ChoiceMatcher? ==> SlotOf(nodes, Last(a.stack)) == Last(s)
    ensures a.Top().ListMatcher? ==> ListsKept(a.nodes, nodes, a.stack[0].matcher)
  {
    SafeStackKept(a.nodes, nodes, a.stack);
    ShapeTop(a, s);
    forall i | 0 <= i < |s| - 1
      ensures SlotOf(nodes, a.stack[i]) == s[i]
    {
      assert s[i] == SlotOf(a.nodes, a.stack[i]);
    }
  }

  lemma AddsShape(a: Bench, b: Bench, id: nat, s: seq<Slot>)
    requires HasShape(a, s) && Adds(a, b, id)
    ensures IsShape(s) && Reshapes(a, b, AddedTo(s))
  {
    ShapeTop(a, s);
    if a.Top().ChoiceMatcher? {
      AlternativeShape(a, b, id, s);
    } else {
      ItemShape(a, b, id, s);
    }
  }

  lemma ItemShape(a: Bench, b: Bench, id: nat, s: seq<Slot>)
    requires HasShape(a, s) && IsShape(s) && Adds(a, b, id) && a.Top().ListMatcher?
    ensures Reshapes(a, b, AddedTo(s))
  {
    OtherSlots(a, s, b.nodes);
    assert b.Top().matchers != [] && b.stack == a.stack;
    hide SafeStack, KindsKept, WithMatcher;
    assert SlotOf(b.nodes, Last(a.stack)) == Last(s).(kind := FullList);
    assert |ShapeOf(b)| == |s|;
    assert ShapeOf(b)[..|s| - 1] == s[..|s| - 1];
    assert ShapeOf(b) == s[..|s| - 1] + [Last(s).(kind := FullList)];
  }

  lemma AlternativeShape(a: Bench, b: Bench, id: nat, s: seq<Slot>)
    requires HasShape(a, s) && IsShape(s) && Adds(a, b, id) && a.Top().ChoiceMatcher?
    ensures Reshapes(a, b, AddedTo(s))
  {
    OtherSlots(a, s, b.nodes);
    SafePrefix(b.nodes, a.stack);
    hide ListsRise;
    assert ShapeOf(b) == s[..|s| - 1];
  }

  /** The entry below the top stays safe on its own. */
  lemma SafePrefix(nodes: seq<Node>, stack: seq<MatcherListEntry>)
    requires SafeStack(nodes, stack) && |stack| > 1
    ensures SafeStack(nodes, stack[..|stack| - 1])
  {
  }

  lemma WrapsShape(a: Bench, b: Bench, repeat: bool, s: seq<Slot>)
    requires HasShape(a, s) && Wraps(a, b, repeat)
    ensures IsShape(s) && Last(s).kind == FullList && Reshapes(a, b, s)
  {
    ShapeTop(a, s);
    OtherSlots(a, s, b.nodes);
    hide ListsRise;
    assert ShapeOf(b) == s;
  }

  lemma OpensShape(a: Bench, b: Bench, s: seq<Slot>)
    requires HasShape(a, s) && Opens(a, b)
    ensures IsShape(s) && Last(s).kind == FullList && Reshapes(a, b, s + [Slot("", Choice)])
  {
    ShapeTop(a, s);
    OtherSlots(a, s, b.nodes);
    SafePush(b.nodes, a.stack, Last(b.stack));
    hide ListsRise;
    assert b.stack == a.stack + [Last(b.stack)];
    assert ShapeOf(b) == s + [Slot("", Choice)];
  }

  lemma PushesShape(a: Bench, b: Bench, functionName: string, s: seq<Slot>)
    requires HasShape(a, s) && Pushes(a, b, functionName)
    ensures IsShape(s) && Reshapes(a, b, s + [Slot(functionName, EmptyList)])
  {
    ShapeTop(a, s);
    ShapeKept(a, a.(nodes := b.nodes), s);
    SafeIsAllocated(a.nodes, a.stack);
    SafePush(b.nodes, a.stack, Last(b.stack));
    hide ListsRise;
    assert b.stack == a.stack + [Last(b.stack)];
    assert ShapeOf(b) == s + [Slot(functionName, EmptyList)];
  }

  lemma PopsIntoShape(a: Bench, b: Bench, s: seq<Slot>)
    requires HasShape(a, s) && PopsInto(a, b)
    ensures |s| > 1 && IsShape(s) && Reshapes(a, b, AddedTo(s[..|s| - 1]))
  {
    ShapeTop(a, s);
    ShapeBelow(a, s);
    hide SafeStack, Adds, AddedTo, ShapeOf;
    AddsShape(a.(stack := a.stack[..|a.stack| - 1]), b, Last(a.stack).matcher, s[..|s| - 1]);
  }

  // ---------------------------------------------------------------- tokens

  /** A token has been compiled: the shape is that of the machine, and no list below the rule's own has changed. */
  ghost predicate Passes(a: Bench, b: Bench, token: PEGToken) {
    forall s :: HasShape(a, s) ==>
      IsShape(s) && ShapeStep(s, token).Some? && Reshapes(a, b, ShapeStep(s, token).value)
  }

  /** The machine of shapes raises as well. */
  ghost predicate Stops(a: Bench, token: PEGToken) {
    forall s :: HasShape(a, s) ==> IsShape(s) && ShapeStep(s, token) == None
  }

  lemma AddsPasses(a: Bench, b: Bench, id: nat)
    requires Adds(a, b, id)
    ensures forall text :: Passes(a, b, LiteralToken(text)) && Passes(a, b, ReferenceToken(text))
  {
    forall s | HasShape(a, s)
      ensures IsShape(s) && Reshapes(a, b, AddedTo(s))
    {
      AddsShape(a, b, id, s);
    }
  }

  lemma WrapsPasses(a: Bench, b: Bench, repeat: bool)
    requires Wraps(a, b, repeat)
    ensures forall c | c == '?' || c == '*' || c == '+' :: Passes(a, b, OperatorToken(c))
  {
    forall s | HasShape(a, s)
      ensures IsShape(s) && Last(s).kind == FullList && Reshapes(a, b, s)
    {
      WrapsShape(a, b, repeat, s);
    }
  }

  /** A second wrapping, as of '*', is no further step. */
  lemma WrapsTwicePasses(a: Bench, b: Bench, d: Bench, repeat: bool, repeat': bool)
    requires Wraps(a, b, repeat) && Wraps(b, d, repeat')
    ensures Passes(a, d, OperatorToken('*'))
  {
    forall s | HasShape(a, s)
      ensures IsShape(s) && Last(s).kind == FullList && Reshapes(a, d, s)
    {
      WrapsShape(a, b, repeat, s);
      WrapsShape(b, d, repeat', s);
      ListsKeptOn(a.nodes, b.nodes, d.nodes, a.stack[0].matcher, a.stack[0].matcher);
    }
  }

  lemma OpensPasses(a: Bench, b: Bench)
    requires Opens(a, b)
    ensures Passes(a, b, OperatorToken('/'))
  {
    forall s | HasShape(a, s)
      ensures IsShape(s) && Last(s).kind == FullList && Reshapes(a, b, s + [Slot("", Choice)])
    {
      OpensShape(a, b, s);
    }
  }

  lemma PushesPasses(a: Bench, b: Bench, functionName: string)
    requires Pushes(a, b, functionName)
    ensures Passes(a, b, FunctionCallToken(functionName))
    ensures functionName == "" ==> Passes(a, b, OperatorToken('('))
  {
    forall s | HasShape(a, s)
      ensures IsShape(s) && Reshapes(a, b, s + [Slot(functionName, EmptyList)])
    {
      PushesShape(a, b, functionName, s);
    }
  }

  lemma PopsIntoPasses(a: Bench, b: Bench)
    requires PopsInto(a, b)
    ensures Passes(a, b, OperatorToken(')'))
  {
    hide HasShape, Reshapes, AddedTo, PopsInto;
    forall s | HasShape(a, s)
      ensures |s| > 1 && IsShape(s) && Reshapes(a, b, AddedTo(s[..|s| - 1]))
    {
      PopsIntoShape(a, b, s);
    }
  }

  /** A function's list is popped once its call has been compiled, which keeps all lists. */
  lemma CallPasses(a: Bench, nodes: seq<Node>, b: Bench, id: nat)
    requires |a.stack| > 1 && ListsKept(a.nodes, nodes, |a.nodes|)
    requires Adds(Bench(nodes, a.stack[..|a.stack| - 1]), b, id)
    ensures Passes(a, b, OperatorToken(')'))
  {
    hide HasShape, Reshapes, AddedTo, Adds, ListsKept;
    forall s | HasShape(a, s)
      ensures |s| > 1 && IsShape(s) && Reshapes(a, b, AddedTo(s[..|s| - 1]))
    {
      CallReshapes(a, nodes, b, id, s);
    }
  }

  lemma CallReshapes(a: Bench, nodes: seq<Node>, b: Bench, id: nat, s: seq<Slot>)
    requires |a.stack| > 1 && ListsKept(a.nodes, nodes, |a.nodes|) && HasShape(a, s)
    requires Adds(Bench(nodes, a.stack[..|a.stack| - 1]), b, id)
    ensures |s| > 1 && IsShape(s) && Reshapes(a, b, AddedTo(s[..|s| - 1]))
  {
    var called := a.(nodes := nodes);
    ShapeTop(a, s);
    ShapeKept(a, called, s);
    ShapeBelow(called, s);
    var below := called.(stack := a.stack[..|a.stack| - 1]);
    hide SafeStack, Adds, AddedTo, ShapeOf;
    AddsShape(below, b, id, s[..|s| - 1]);
    ListsKeptOn(a.nodes, nodes, b.nodes, a.stack[0].matcher, a.stack[0].matcher);
  }

  /** Without its top, the stack has the shape without its last slot. */
  lemma ShapeBelow(a: Bench, s: seq<Slot>)
    requires HasShape(a, s) && |a.stack| > 1
    ensures |s| > 1 && HasShape(a.(stack := a.stack[..|a.stack| - 1]), s[..|s| - 1])
  {
    SafePrefix(a.nodes, a.stack);
    hide ListsRise;
    assert ShapeOf(a.(stack := a.stack[..|a.stack| - 1])) == s[..|s| - 1];
  }

  /** After the matchers of a reference have been compiled, which keeps all lists, its own is added. */
  lemma ReferencePasses(a: Bench, nodes: seq<Node>, b: Bench, id: nat, text: string)
    requires ListsKept(a.nodes, nodes, |a.nodes|) && Adds(a.(nodes := nodes), b, id)
    ensures Passes(a, b, ReferenceToken(text)) && Passes(a, b, LiteralToken(text))
  {
    forall s | HasShape(a, s)
      ensures IsShape(s) && Reshapes(a, b, AddedTo(s))
    {
      var found := a.(nodes := nodes);
      ShapeTop(a, s);
      ShapeKept(a, found, s);
      AddsShape(found, b, id, s);
      ListsKeptOn(a.nodes, nodes, b.nodes, a.stack[0].matcher, a.stack[0].matcher);
    }
  }

  /** Without an item at the top, '?', '*', '+' and '/' raise. */
  lemma NoItemStops(a: Bench, c: char)
    requires a.HasTop() && (a.Top().ChoiceMatcher? || (a.Top().ListMatcher? && a.Top().matchers == []))
    requires c == '?' || c == '*' || c == '+' || c == '/'
    ensures Stops(a, OperatorToken(c))
  {
    forall s | HasShape(a, s)
      ensures IsShape(s) && Last(s).kind != FullList
    {
      ShapeTop(a, s);
    }
  }

  lemma BottomStops(a: Bench)
    requires |a.stack| <= 1
    ensures Stops(a, OperatorToken(')'))
  {
    forall s | HasShape(a, s)
      ensures IsShape(s) && |s| <= 1
    {
      ShapeTop(a, s);
    }
  }

  /** An operator that does not exist, or a regular expression. */
  lemma UnknownStops(a: Bench, token: PEGToken)
    requires token.RegexToken? || (token.OperatorToken? && token.symbol !in ['?', '*', '+', '/', '(', ')', '!'])
    ensures Stops(a, token)
  {
    forall s | HasShape(a, s)
      ensures IsShape(s)
    {
      ShapeTop(a, s);
    }
  }

  lemma NotPasses(a: Bench)
    ensures Passes(a, a, OperatorToken('!'))
  {
    forall s | HasShape(a, s)
      ensures IsShape(s) && Reshapes(a, a, s)
    {
      ShapeTop(a, s);
    }
  }

  // ---------------------------------------------------------------- uses

  /** Of the first `i` tokens, references are known, and calls can be compiled once their bracket is closed. */
  ghost predicate UsedOk(p: PEGParser, rank: string -> nat, n: string, arity: nat, i: nat, s: seq<Slot>, known: set<string>)
    requires Acyclic(p, rank) && Callable(p, n, arity) && i <= |p.Rule(n).tokens|
  {
    forall k | 0 <= k < i ::
      UseOk(p, rank, n, arity, p.Rule(n).tokens[k], known)
      || (p.Rule(n).tokens[k].FunctionCallToken? && exists m | 0 <= m < |s| :: s[m].callee == p.Rule(n).tokens[k].text)
  }

  /** What the token at hand refers to, or closes, can be compiled. */
  ghost predicate TokenOk(p: PEGParser, rank: string -> nat, rule: PEGRule, token: PEGToken, callee: string, known: set<string>)
    requires Acyclic(p, rank)
  {
    && (token.ReferenceToken? ==> token.text in rule.parameters || token.text in known)
    && (token == OperatorToken(')') && callee != "" ==> RuleOk(p, rank, callee, 1, known))
  }

  lemma UseOkLater(p: PEGParser, rank: string -> nat, n: string, arity: nat, t: PEGToken, a: set<string>, b: set<string>)
    requires Acyclic(p, rank) && Callable(p, n, arity) && t in p.Rule(n).tokens && a <= b && UseOk(p, rank, n, arity, t, a)
    ensures UseOk(p, rank, n, arity, t, b)
  {
    if t.FunctionCallToken? && t.text != "" {
      RuleOkLater(p, rank, t.text, 1, a, b);
    }
  }

  lemma UsedNext(p: PEGParser, rank: string -> nat, n: string, arity: nat, i: nat, s: seq<Slot>, a: set<string>, b: set<string>)
    requires Acyclic(p, rank) && Callable(p, n, arity) && i < |p.Rule(n).tokens| && a <= b && IsShape(s)
    requires UsedOk(p, rank, n, arity, i, s, a) && TokenOk(p, rank, p.Rule(n), p.Rule(n).tokens[i], Last(s).callee, b)
    requires ShapeStep(s, p.Rule(n).tokens[i]).Some?
    requires forall m | 0 <= m < |s| && s[m].kind == Choice :: s[m].callee == ""
    ensures UsedOk(p, rank, n, arity, i + 1, ShapeStep(s, p.Rule(n).tokens[i]).value, b)
  {
    var rule, s' := p.Rule(n), ShapeStep(s, p.Rule(n).tokens[i]).value;
    forall k | 0 <= k < i + 1
      ensures UseOk(p, rank, n, arity, rule.tokens[k], b)
              || (rule.tokens[k].FunctionCallToken? && exists m | 0 <= m < |s'| :: s'[m].callee == rule.tokens[k].text)
    {
      var t := rule.tokens[k];
      if k == i {
        if t.FunctionCallToken? {
          assert Last(s').callee == t.text;
        }
      } else if UseOk(p, rank, n, arity, t, a) {
        UseOkLater(p, rank, n, arity, t, a, b);
      } else {
        var m :| 0 <= m < |s| && s[m].callee == t.text;
        CalleeStays(s, rule.tokens[i], m);
      }
    }
  }

  /** A slot that calls a function stays until its bracket is closed. */
  lemma CalleeStays(s: seq<Slot>, token: PEGToken, m: nat)
    requires IsShape(s) && m < |s| && ShapeStep(s, token).Some?
    requires forall k | 0 <= k < |s| && s[k].kind == Choice :: s[k].callee == ""
    ensures var s' := ShapeStep(s, token).value;
            s[m].callee == "" || (token == OperatorToken(')') && s[m].callee == Last(s).callee)
            || exists k | 0 <= k < |s'| :: s'[k].callee == s[m].callee
  {
    var s' := ShapeStep(s, token).value;
    assert m < |s'| ==> s'[m].callee == s[m].callee;
  }

  /** In the end, all brackets being closed, nothing is left to be closed. */
  lemma UsedAll(p: PEGParser, rank: string -> nat, n: string, arity: nat, known: set<string>)
    requires Acyclic(p, rank) && Callable(p, n, arity) && EndsClosed(p.Rule(n).tokens)
    requires UsedOk(p, rank, n, arity, |p.Rule(n).tokens|, ShapeAfter(p.Rule(n).tokens, |p.Rule(n).tokens|).value, known)
    ensures RuleOk(p, rank, n, arity, known)
  {
    forall t | t in p.Rule(n).tokens
      ensures UseOk(p, rank, n, arity, t, known)
    {
      var k :| 0 <= k < |p.Rule(n).tokens| && p.Rule(n).tokens[k] == t;
    }
  }

  /** The shape goes on with the machine's. */
  lemma PassesTo(a: Bench, b: Bench, d: Bench, s: seq<Slot>, token: PEGToken)
    requires Reshapes(a, b, s) && Passes(b, d, token) && b.stack != [] && b.stack[0] == a.stack[0]
    ensures IsShape(s) && ShapeStep(s, token).Some? && Reshapes(a, d, ShapeStep(s, token).value)
    ensures HasShape(b, s)
  {
    hide HasShape;
    ListsKeptOn(a.nodes, b.nodes, d.nodes, a.stack[0].matcher, b.stack[0].matcher);
  }

  lemma ChoicesCallNothing(b: Bench, s: seq<Slot>)
    requires HasShape(b, s)
    ensures IsShape(s) && Last(s).callee == Last(b.stack).functionName
    ensures forall m | 0 <= m < |s| && s[m].kind == Choice :: s[m].callee == ""
  {
    ShapeTop(b, s);
    assert forall m | 0 <= m < |s| :: s[m] == SlotOf(b.nodes, b.stack[m]);
  }

  lemma NewRulesGrow(p: PEGParser, rank: string -> nat, a: set<string>, b: set<string>)
    requires Acyclic(p, rank) && NewRulesOk(p, rank, a, b)
    ensures a <= b
  {
  }

  /** A rule that is cached before its body is compiled, and the rules that its body brought. */
  lemma DeclaredIsOk(p: PEGParser, rank: string -> nat, a: set<string>, b: set<string>, c: set<string>, n: string)
    requires Acyclic(p, rank) && NewRulesOk(p, rank, b, c) && a <= b <= a + {n}
    requires n in b && n !in a ==> RuleOk(p, rank, n, 0, c)
    ensures NewRulesOk(p, rank, a, c)
  {
  }
}
