/**
 When a part of the matcher graph represents a tree.

 The compiler keeps mutating the lists and choices on its stack while the matchers below them are
 final. A `World` is a snapshot of the compiler's state together with the set of final matchers.
 */
module PegShapes {
  import opened MatcherGraph
  import opened PegTranslation

  /** The allocator's matchers, the rule cache, the keyword overrides, and the final matchers. */
  datatype World = World(
    nodes: seq<Node>, cache: map<string, nat>, overrides: map<string, nat>, fold: string -> string,
    ghost final: set<nat>)

  ghost predicate Represents(w: World, id: nat, t: Tree)
    decreases t
  {
    match t
    case KeywordTree(text) =>
      if w.fold(text) in w.overrides then id == w.overrides[w.fold(text)]
      else IsFinal(w, id) && w.nodes[id] == KeywordMatcher(text)
    case RuleTree(name) => name in w.cache && w.cache[name] == id
    case SharedTree(argument) => Represents(w, id, argument)
    case ListTree(items) =>
      IsFinal(w, id) && w.nodes[id].ListMatcher? && RepresentsAll(w, w.nodes[id].matchers, items)
    case OptionalTree(item) =>
      IsFinal(w, id) && w.nodes[id].OptionalMatcher? && Represents(w, w.nodes[id].matcher, item)
    case ChoiceTree(items) =>
      IsFinal(w, id) && w.nodes[id].ChoiceMatcher? && RepresentsAll(w, w.nodes[id].matchers, items)
    case RepeatTree(item) =>
      IsFinal(w, id) && w.nodes[id].RepeatMatcher? && Represents(w, w.nodes[id].element, item)
  }

  ghost predicate RepresentsAll(w: World, ids: seq<nat>, ts: seq<Tree>)
    decreases ts
  {
    |ids| == |ts| && forall i | 0 <= i < |ts| :: Represents(w, ids[i], ts[i])
  }

  ghost predicate IsFinal(w: World, id: nat) {
    id in w.final && id < |w.nodes|
  }

  /** `v` comes later than `w`: final matchers stay as they are, and cached rules stay cached. */
  ghost predicate Extends(w: World, v: World) {
    && w.overrides == v.overrides && w.fold == v.fold
    && (forall n | n in w.cache :: n in v.cache && v.cache[n] == w.cache[n])
    && w.final <= v.final && |w.nodes| <= |v.nodes|
    && (forall i | i in w.final && i < |w.nodes| :: v.nodes[i] == w.nodes[i])
  }

  lemma {:induction false} RepresentsLater(w: World, v: World, id: nat, t: Tree)
    requires Extends(w, v) && Represents(w, id, t)
    ensures Represents(v, id, t)
    decreases t
  {
    match t
    case KeywordTree(_) =>
    case RuleTree(_) =>
    case SharedTree(argument) => RepresentsLater(w, v, id, argument);
    case ListTree(items) => AllRepresentLater(w, v, w.nodes[id].matchers, items);
    case OptionalTree(item) => RepresentsLater(w, v, w.nodes[id].matcher, item);
    case ChoiceTree(items) => AllRepresentLater(w, v, w.nodes[id].matchers, items);
    case RepeatTree(item) => RepresentsLater(w, v, w.nodes[id].element, item);
  }

  lemma {:induction false} AllRepresentLater(w: World, v: World, ids: seq<nat>, ts: seq<Tree>)
    requires Extends(w, v) && RepresentsAll(w, ids, ts)
    ensures RepresentsAll(v, ids, ts)
    decreases ts
  {
    forall i | 0 <= i < |ts|
      ensures Represents(v, ids[i], ts[i])
    {
      RepresentsLater(w, v, ids[i], ts[i]);
    }
  }

  // ---------------------------------------------------------------- memory safety

  /** References point into the graph, cached rules are no choices, and keyword overrides are keywords. */
  ghost predicate SafeWorld(w: World) {
    && Closed(w.nodes)
    && (forall n | n in w.cache :: w.cache[n] < |w.nodes| && !w.nodes[w.cache[n]].ChoiceMatcher?)
    && (forall n | n in w.overrides :: w.overrides[n] < |w.nodes| && IsSpellingOf(w.fold, w.nodes[w.overrides[n]], n))
  }

  /** The matcher of a keyword in some spelling. */
  predicate IsSpellingOf(fold: string -> string, n: Node, key: string) {
    n.KeywordMatcher? && fold(n.keyword) == key
  }

  /** A matcher that represents a tree exists, and is a choice exactly when the tree is one. */
  lemma {:induction false} RepresentsKind(w: World, id: nat, t: Tree)
    requires SafeWorld(w) && Represents(w, id, t)
    ensures id < |w.nodes| && (w.nodes[id].ChoiceMatcher? <==> t.Head().ChoiceTree?)
    decreases t
  {
    if t.SharedTree? {
      RepresentsKind(w, id, t.argument);
    }
  }

  /** Matchers keep their kind: a list stays a list, a choice stays a choice, and all others stay as they are. */
  ghost predicate KindsKept(a: seq<Node>, b: seq<Node>) {
    && |a| <= |b|
    && forall i | 0 <= i < |a| ::
         && (a[i].ListMatcher? <==> b[i].ListMatcher?) && (a[i].ChoiceMatcher? <==> b[i].ChoiceMatcher?)
         && (a[i].ListMatcher? || a[i].ChoiceMatcher? || b[i] == a[i])
  }

  lemma KindsKeptOn(a: seq<Node>, b: seq<Node>, c: seq<Node>)
    requires KindsKept(a, b) && KindsKept(b, c)
    ensures KindsKept(a, c) && |a| <= |c|
  {
  }

  // ---------------------------------------------------------------- the stack

  datatype MatcherListEntry = MatcherListEntry(matcher: nat, functionName: string)

  /** The stack holds lists, each allocated after the ones below it, and choices above the first. */
  ghost predicate SafeStack(nodes: seq<Node>, stack: seq<MatcherListEntry>) {
    && stack != []
    && (forall i | 0 <= i < |stack| ::
          stack[i].matcher < |nodes|
          && (nodes[stack[i].matcher].ListMatcher?
              || (nodes[stack[i].matcher].ChoiceMatcher? && stack[i].functionName == "" && i > 0)))
    && ListsRise(nodes, stack)
  }

  ghost predicate ListsRise(nodes: seq<Node>, stack: seq<MatcherListEntry>)
    requires forall i | 0 <= i < |stack| :: stack[i].matcher < |nodes|
  {
    forall i, j | 0 <= i < j < |stack| ::
      nodes[stack[i].matcher].ListMatcher? && nodes[stack[j].matcher].ListMatcher? ==> stack[i].matcher < stack[j].matcher
  }

  lemma SafeTop(nodes: seq<Node>, stack: seq<MatcherListEntry>)
    requires SafeStack(nodes, stack)
    ensures stack != [] && Last(stack).matcher < |nodes|
    ensures nodes[Last(stack).matcher].ListMatcher? || nodes[Last(stack).matcher].ChoiceMatcher?
  {
  }

  /** A choice, or a list that is later than all others, may be pushed. */
  lemma SafePush(nodes: seq<Node>, stack: seq<MatcherListEntry>, e: MatcherListEntry)
    requires SafeStack(nodes, stack) && e.matcher < |nodes|
    requires (nodes[e.matcher].ChoiceMatcher? && e.functionName == "")
             || (nodes[e.matcher].ListMatcher? && forall i | 0 <= i < |stack| :: stack[i].matcher < e.matcher)
    ensures SafeStack(nodes, stack + [e])
  {
  }

  /** All that is on the stack has been allocated. */
  lemma SafeIsAllocated(nodes: seq<Node>, stack: seq<MatcherListEntry>)
    requires SafeStack(nodes, stack)
    ensures forall i | 0 <= i < |stack| :: stack[i].matcher < |nodes|
  {
  }

  lemma SafeStackKept(a: seq<Node>, b: seq<Node>, stack: seq<MatcherListEntry>)
    requires SafeStack(a, stack) && KindsKept(a, b)
    ensures SafeStack(b, stack)
  {
  }

  /** The open list `l` holds the frame's items; a choice at its end is open as well. */
  ghost predicate FrameIs(w: World, l: nat, f: Frame, bound: nat) {
    && l < bound <= |w.nodes| && l !in w.final && w.nodes[l].ListMatcher?
    && var ms := w.nodes[l].matchers;
    && |ms| == |f.items|
    && (f.items != [] ==>
          && RepresentsAll(w, ms[..|ms| - 1], f.items[..|ms| - 1])
          && LastIs(w, l, Last(ms), Last(f.items), bound))
  }

  ghost predicate LastIs(w: World, l: nat, id: nat, t: Tree, bound: nat)
    requires bound <= |w.nodes|
  {
    if t.ChoiceTree?
    then l < id < bound && id !in w.final && w.nodes[id].ChoiceMatcher? && RepresentsAll(w, w.nodes[id].matchers, t.items)
    else Represents(w, id, t)
  }

  /** The stack holds the open list of each frame and, above it, the choice that awaits an operand. */
  ghost predicate StackIs(w: World, stack: seq<MatcherListEntry>, frames: seq<Frame>, bound: nat)
    decreases |frames|
  {
    if frames == [] then stack == [] else
    var f, below := Last(frames), frames[..|frames| - 1];
    var k := if f.pending then 2 else 1;
    && k <= |stack|
    && var entry := stack[|stack| - k];
    && entry.functionName == f.callee
    && FrameIs(w, entry.matcher, f, bound)
    && (f.pending ==> f.items != [] && Last(f.items).ChoiceTree?
                      && Last(stack) == MatcherListEntry(Last(w.nodes[entry.matcher].matchers), ""))
    && StackIs(w, stack[..|stack| - k], below, entry.matcher)
  }

  /** Later worlds that left everything below `bound` alone still hold the stack. */
  lemma {:induction false} StackLater(w: World, v: World, stack: seq<MatcherListEntry>, frames: seq<Frame>, bound: nat)
    requires Extends(w, v) && StackIs(w, stack, frames, bound)
    requires bound <= |w.nodes| && forall i | 0 <= i < bound :: v.nodes[i] == w.nodes[i]
    requires forall i | i in v.final && i < bound :: i in w.final
    ensures StackIs(v, stack, frames, bound)
    decreases |frames|
  {
    if frames == [] {
    } else {
      var f := Last(frames);
      var k := if f.pending then 2 else 1;
      var l := stack[|stack| - k].matcher;
      FrameLater(w, v, l, f, bound);
      StackLater(w, v, stack[..|stack| - k], frames[..|frames| - 1], l);
    }
  }

  lemma FrameLater(w: World, v: World, l: nat, f: Frame, bound: nat)
    requires Extends(w, v) && FrameIs(w, l, f, bound)
    requires forall i | 0 <= i < bound :: v.nodes[i] == w.nodes[i]
    requires forall i | i in v.final && i < bound :: i in w.final
    ensures FrameIs(v, l, f, bound)
  {
    var ms := w.nodes[l].matchers;
    if f.items != [] {
      AllRepresentLater(w, v, ms[..|ms| - 1], f.items[..|ms| - 1]);
      if Last(f.items).ChoiceTree? {
        AllRepresentLater(w, v, w.nodes[Last(ms)].matchers, Last(f.items).items);
      } else {
        RepresentsLater(w, v, Last(ms), Last(f.items));
      }
    }
  }

  /** The matchers that become final when the open list `l` is closed or grows past its last item. */
  ghost function Closing(f: Frame, ms: seq<nat>): set<nat>
    requires |ms| == |f.items|
  {
    if f.items != [] && Last(f.items).ChoiceTree? then {Last(ms)} else {}
  }

  /** Making the open choice final turns all items of a frame into represented ones. */
  lemma FrameClosed(w: World, l: nat, f: Frame, bound: nat)
    requires FrameIs(w, l, f, bound)
    ensures var ms := w.nodes[l].matchers;
            RepresentsAll(w.(final := w.final + Closing(f, ms)), ms, f.items)
  {
    var ms := w.nodes[l].matchers;
    var v := w.(final := w.final + Closing(f, ms));
    if f.items != [] {
      AllRepresentLater(w, v, ms[..|ms| - 1], f.items[..|ms| - 1]);
      if Last(f.items).ChoiceTree? {
        AllRepresentLater(w, v, w.nodes[Last(ms)].matchers, Last(f.items).items);
      } else {
        RepresentsLater(w, v, Last(ms), Last(f.items));
      }
      assert ms == ms[..|ms| - 1] + [Last(ms)] && f.items == f.items[..|ms| - 1] + [Last(f.items)];
    }
  }

  // ---------------------------------------------------------------- the compiler's moves

  /** A matcher that is allocated and never changed again. */
  ghost function Allocated(w: World, n: Node): World {
    w.(nodes := w.nodes + [n], final := w.final + {|w.nodes|})
  }

  ghost predicate FinalBelow(w: World) {
    forall i | i in w.final :: i < |w.nodes|
  }

  /** What the world and the stack have in common, while a rule is being compiled. */
  ghost predicate Holds(w: World, stack: seq<MatcherListEntry>, frames: seq<Frame>) {
    FinalBelow(w) && ValidFrames(frames) && StackIs(w, stack, frames, |w.nodes|)
  }

  lemma FrameBound(w: World, l: nat, f: Frame, bound: nat, bound': nat)
    requires FrameIs(w, l, f, bound) && bound <= bound' <= |w.nodes|
    ensures FrameIs(w, l, f, bound')
  {
  }

  /** Allocating a matcher keeps the stack; the new matcher may be final or not. */
  lemma AllocationHolds(w: World, stack: seq<MatcherListEntry>, frames: seq<Frame>, n: Node, final: set<nat>)
    requires Holds(w, stack, frames) && final <= {|w.nodes|}
    ensures var v := w.(nodes := w.nodes + [n], final := w.final + final);
            Extends(w, v) && Holds(v, stack, frames)
  {
    var v := w.(nodes := w.nodes + [n], final := w.final + final);
    StackLater(w, v, stack, frames, |w.nodes|);
    var f := Top(frames);
    var k := if f.pending then 2 else 1;
    FrameBound(v, stack[|stack| - k].matcher, f, |w.nodes|, |v.nodes|);
  }

  /** The open list of the top frame. */
  function TopList(stack: seq<MatcherListEntry>, f: Frame): nat
    requires |stack| >= if f.pending then 2 else 1
  {
    stack[|stack| - if f.pending then 2 else 1].matcher
  }

  /** The top list changes to `ms`, and the matchers in `more` become final. */
  ghost function ListSet(w: World, l: nat, ms: seq<nat>, more: set<nat>): World
    requires l < |w.nodes|
  {
    w.(nodes := w.nodes[l := ListMatcher(ms)], final := w.final + more)
  }

  /** The frames below the top one do not notice a change of the top list or of its open choice. */
  lemma BelowLater(w: World, v: World, stack: seq<MatcherListEntry>, frames: seq<Frame>)
    requires Holds(w, stack, frames) && Extends(w, v)
    requires var l := TopList(stack, Top(frames));
             && (forall i | 0 <= i < l :: v.nodes[i] == w.nodes[i])
             && (forall i | i in v.final && i < l :: i in w.final)
    ensures var k := if Top(frames).pending then 2 else 1;
            StackIs(v, stack[..|stack| - k], frames[..|frames| - 1], stack[|stack| - k].matcher)
  {
    var k := if Top(frames).pending then 2 else 1;
    StackLater(w, v, stack[..|stack| - k], frames[..|frames| - 1], stack[|stack| - k].matcher);
  }

  /** When only the top list changes, or its open choice, what the new top frame holds is all there is to show. */
  lemma TopChanged(w: World, v: World, stack: seq<MatcherListEntry>, frames: seq<Frame>, f: Frame)
    requires Holds(w, stack, frames) && Extends(w, v) && FinalBelow(v)
    requires var l := TopList(stack, Top(frames));
             && (forall i | 0 <= i < l :: v.nodes[i] == w.nodes[i])
             && (forall i | i in v.final && i < l :: i in w.final)
    requires !f.pending && f.callee == Top(frames).callee
    requires FrameIs(v, TopList(stack, Top(frames)), f, |v.nodes|)
    ensures Holds(v, if Top(frames).pending then stack[..|stack| - 1] else stack, WithTop(frames, f))
  {
    hide Represents, RepresentsAll, Extends;
    BelowLater(w, v, stack, frames);
    hide FrameIs;
    var next := WithTop(frames, f);
    assert next[..|next| - 1] == frames[..|frames| - 1];
    if Top(frames).pending {
      assert stack[..|stack| - 1][..|stack| - 2] == stack[..|stack| - 2];
    }
  }

  /** A list that is set again extends the world, as long as the list itself was not final. */
  lemma ListSetExtends(w: World, l: nat, ms: seq<nat>, more: set<nat>)
    requires l < |w.nodes| && l !in w.final
    ensures Extends(w, ListSet(w, l, ms, more))
    ensures l !in more ==> Extends(w.(final := w.final + more), ListSet(w, l, ms, more))
  {
  }

  lemma FrameGrows(w: World, l: nat, f: Frame, id: nat, t: Tree)
    requires FrameIs(w, l, f, |w.nodes|) && Represents(w, id, t) && !t.ChoiceTree?
    ensures FrameIs(ListSet(w, l, w.nodes[l].matchers + [id], Closing(f, w.nodes[l].matchers)),
                    l, Frame(f.items + [t], f.callee, false), |w.nodes|)
  {
    var ms := w.nodes[l].matchers;
    var closed := w.(final := w.final + Closing(f, ms));
    var v := ListSet(w, l, ms + [id], Closing(f, ms));
    FrameClosed(w, l, f, |w.nodes|);
    ListSetExtends(w, l, ms + [id], Closing(f, ms));
    AllRepresentLater(closed, v, ms, f.items);
    RepresentsLater(w, v, id, t);
    assert (ms + [id])[..|ms|] == ms && (f.items + [t])[..|ms|] == f.items;
  }

  /** `AddMatcher` on a list: the matcher becomes the next item. */
  lemma ItemAdded(w: World, stack: seq<MatcherListEntry>, frames: seq<Frame>, id: nat, t: Tree)
    requires Holds(w, stack, frames) && !Top(frames).pending
    requires Represents(w, id, t) && !t.ChoiceTree?
    ensures var l := Last(stack).matcher;
            var v := ListSet(w, l, w.nodes[l].matchers + [id], Closing(Top(frames), w.nodes[l].matchers));
            Extends(w, v) && Holds(v, stack, AddTree(frames, t))
  {
    hide Represents, RepresentsAll, Extends;
    var f, l := Top(frames), Last(stack).matcher;
    var ms := w.nodes[l].matchers;
    var v := ListSet(w, l, ms + [id], Closing(f, ms));
    FrameGrows(w, l, f, id, t);
    ListSetExtends(w, l, ms + [id], Closing(f, ms));
    TopChanged(w, v, stack, frames, Frame(f.items + [t], f.callee, false));
  }

  /** `AddMatcher` on a choice: the matcher becomes its last alternative, and the choice leaves the stack. */
  lemma AlternativeAdded(w: World, stack: seq<MatcherListEntry>, frames: seq<Frame>, id: nat, t: Tree)
    requires Holds(w, stack, frames) && Top(frames).pending
    requires Represents(w, id, t)
    ensures var c := Last(stack).matcher;
            && c < |w.nodes| && w.nodes[c].ChoiceMatcher?
            && var v := w.(nodes := w.nodes[c := ChoiceMatcher(w.nodes[c].matchers + [id])]);
            Extends(w, v) && Holds(v, stack[..|stack| - 1], AddTree(frames, t))
  {
    hide Represents, RepresentsAll, Extends;
    var f, l, c := Top(frames), TopList(stack, Top(frames)), Last(stack).matcher;
    var v := w.(nodes := w.nodes[c := ChoiceMatcher(w.nodes[c].matchers + [id])]);
    FrameTakesAlternative(w, l, f, id, t);
    TopChanged(w, v, stack, frames, Frame(ReplaceLast(f.items, ChoiceTree(Last(f.items).items + [t])), f.callee, false));
  }

  lemma FrameTakesAlternative(w: World, l: nat, f: Frame, id: nat, t: Tree)
    requires FrameIs(w, l, f, |w.nodes|) && f.items != [] && Last(f.items).ChoiceTree? && Represents(w, id, t)
    ensures var c := Last(w.nodes[l].matchers);
            && l < c < |w.nodes| && w.nodes[c].ChoiceMatcher?
            && var v := w.(nodes := w.nodes[c := ChoiceMatcher(w.nodes[c].matchers + [id])]);
            Extends(w, v)
            && FrameIs(v, l, Frame(ReplaceLast(f.items, ChoiceTree(Last(f.items).items + [t])), f.callee, false), |v.nodes|)
  {
    var ms, c := w.nodes[l].matchers, Last(w.nodes[l].matchers);
    var alternatives := w.nodes[c].matchers;
    var v := w.(nodes := w.nodes[c := ChoiceMatcher(alternatives + [id])]);
    assert Extends(w, v);
    AllRepresentLater(w, v, ms[..|ms| - 1], f.items[..|ms| - 1]);
    AllRepresentLater(w, v, alternatives, Last(f.items).items);
    RepresentsLater(w, v, id, t);
    hide Represents;
    var items := ReplaceLast(f.items, ChoiceTree(Last(f.items).items + [t]));
    assert items[..|ms| - 1] == f.items[..|ms| - 1];
  }

  lemma FrameReplaces(w: World, l: nat, f: Frame, id: nat, t: Tree)
    requires FrameIs(w, l, f, |w.nodes|) && f.items != [] && !t.ChoiceTree?
    requires Represents(w.(final := w.final + Closing(f, w.nodes[l].matchers)), id, t)
    ensures FrameIs(ListSet(w, l, ReplaceLast(w.nodes[l].matchers, id), Closing(f, w.nodes[l].matchers)),
                    l, Frame(ReplaceLast(f.items, t), f.callee, false), |w.nodes|)
  {
    var ms := w.nodes[l].matchers;
    var closed := w.(final := w.final + Closing(f, ms));
    var v := ListSet(w, l, ReplaceLast(ms, id), Closing(f, ms));
    ListSetExtends(w, l, ReplaceLast(ms, id), Closing(f, ms));
    AllRepresentLater(w, v, ms[..|ms| - 1], f.items[..|ms| - 1]);
    RepresentsLater(closed, v, id, t);
  }

  /** The last item of the top list is replaced by a final matcher. */
  lemma LastReplaced(w: World, stack: seq<MatcherListEntry>, frames: seq<Frame>, id: nat, t: Tree)
    requires Holds(w, stack, frames) && !Top(frames).pending && Top(frames).items != []
    requires var l := Last(stack).matcher;
             && Represents(w.(final := w.final + Closing(Top(frames), w.nodes[l].matchers)), id, t) && !t.ChoiceTree?
    ensures var l := Last(stack).matcher; var ms := w.nodes[l].matchers;
            var v := ListSet(w, l, ReplaceLast(ms, id), Closing(Top(frames), ms));
            && Extends(w, v)
            && Holds(v, stack, WithTop(frames, Frame(ReplaceLast(Top(frames).items, t), Top(frames).callee, false)))
  {
    hide Represents, RepresentsAll, Extends;
    var f, l := Top(frames), Last(stack).matcher;
    var ms := w.nodes[l].matchers;
    FrameReplaces(w, l, f, id, t);
    ListSetExtends(w, l, ReplaceLast(ms, id), Closing(f, ms));
    TopChanged(w, ListSet(w, l, ReplaceLast(ms, id), Closing(f, ms)), stack, frames,
               Frame(ReplaceLast(f.items, t), f.callee, false));
  }

  /** The frames with a choice of the last item that awaits its next alternative. */
  ghost function Opened(frames: seq<Frame>): seq<Frame>
    requires frames != [] && Top(frames).items != []
  {
    var f := Top(frames);
    WithTop(frames, Frame(ReplaceLast(f.items, Operand(Last(f.items), '/')), f.callee, true))
  }

  /** The last item of the top list becomes the first alternative of a new choice, which is pushed. */
  lemma ChoiceOpened(w: World, stack: seq<MatcherListEntry>, frames: seq<Frame>)
    requires Holds(w, stack, frames) && !Top(frames).pending && Top(frames).items != []
    requires !Last(Top(frames).items).ChoiceTree?
    ensures var l := Last(stack).matcher; var ms := w.nodes[l].matchers; var c := |w.nodes|;
            var v := w.(nodes := (w.nodes + [ChoiceMatcher([Last(ms)])])[l := ListMatcher(ReplaceLast(ms, c))]);
            && Extends(w, v)
            && Holds(v, stack + [MatcherListEntry(c, "")], Opened(frames))
  {
    hide Represents, RepresentsAll, Extends;
    var f, l, c := Top(frames), Last(stack).matcher, |w.nodes|;
    var ms := w.nodes[l].matchers;
    var v := w.(nodes := (w.nodes + [ChoiceMatcher([Last(ms)])])[l := ListMatcher(ReplaceLast(ms, c))]);
    FrameOpensChoice(w, l, f);
    BelowLater(w, v, stack, frames);
    var next := Opened(frames);
    assert next[..|next| - 1] == frames[..|frames| - 1];
    var s := stack + [MatcherListEntry(c, "")];
    assert s[..|s| - 2] == stack[..|stack| - 1];
  }

  lemma FrameOpensChoice(w: World, l: nat, f: Frame)
    requires FrameIs(w, l, f, |w.nodes|) && f.items != [] && !Last(f.items).ChoiceTree? && FinalBelow(w)
    ensures var ms, c := w.nodes[l].matchers, |w.nodes|;
            var v := w.(nodes := (w.nodes + [ChoiceMatcher([Last(ms)])])[l := ListMatcher(ReplaceLast(ms, c))]);
            Extends(w, v)
            && FrameIs(v, l, Frame(ReplaceLast(f.items, ChoiceTree([Last(f.items)])), f.callee, true), |v.nodes|)
  {
    var ms, c := w.nodes[l].matchers, |w.nodes|;
    var v := w.(nodes := (w.nodes + [ChoiceMatcher([Last(ms)])])[l := ListMatcher(ReplaceLast(ms, c))]);
    assert Extends(w, v);
    AllRepresentLater(w, v, ms[..|ms| - 1], f.items[..|ms| - 1]);
    RepresentsLater(w, v, Last(ms), Last(f.items));
  }

  /** A choice at the end of the top list is pushed again. */
  lemma ChoiceReopened(w: World, stack: seq<MatcherListEntry>, frames: seq<Frame>)
    requires Holds(w, stack, frames) && !Top(frames).pending && Top(frames).items != []
    requires Last(Top(frames).items).ChoiceTree?
    ensures var ms := w.nodes[Last(stack).matcher].matchers;
            Holds(w, stack + [MatcherListEntry(Last(ms), "")], Opened(frames))
  {
    assert ReplaceLast(Top(frames).items, Last(Top(frames).items)) == Top(frames).items;
    var next := Opened(frames);
    assert next[..|next| - 1] == frames[..|frames| - 1];
    var s := stack + [MatcherListEntry(Last(w.nodes[Last(stack).matcher].matchers), "")];
    assert s[..|s| - 2] == stack[..|stack| - 1];
  }

  /** A new empty list is pushed, for a bracket or for the arguments of a function. */
  lemma FramePushed(w: World, stack: seq<MatcherListEntry>, frames: seq<Frame>, callee: string)
    requires Holds(w, stack, frames)
    ensures var v := w.(nodes := w.nodes + [ListMatcher([])]);
            && Extends(w, v)
            && Holds(v, stack + [MatcherListEntry(|w.nodes|, callee)], frames + [Frame([], callee, false)])
  {
    var v := w.(nodes := w.nodes + [ListMatcher([])]);
    StackLater(w, v, stack, frames, |w.nodes|);
    var s, next := stack + [MatcherListEntry(|w.nodes|, callee)], frames + [Frame([], callee, false)];
    assert s[..|s| - 1] == stack && next[..|next| - 1] == frames;
  }

  /** Closing the top list makes it final, and leaves the frames below as they are. */
  lemma FramePopped(w: World, stack: seq<MatcherListEntry>, frames: seq<Frame>)
    requires Holds(w, stack, frames) && !Top(frames).pending && |frames| > 1
    ensures var l := Last(stack).matcher;
            var v := w.(final := w.final + Closing(Top(frames), w.nodes[l].matchers) + {l});
            && Extends(w, v) && Represents(v, l, ListTree(Top(frames).items))
            && RepresentsAll(v, w.nodes[l].matchers, Top(frames).items)
            && Holds(v, stack[..|stack| - 1], frames[..|frames| - 1])
            && stack[0].matcher <= l
            && forall i | i in Closing(Top(frames), w.nodes[l].matchers) :: l < i
  {
    var f, l := Top(frames), Last(stack).matcher;
    var ms := w.nodes[l].matchers;
    var closed := w.(final := w.final + Closing(f, ms));
    var v := w.(final := w.final + Closing(f, ms) + {l});
    FrameClosed(w, l, f, |w.nodes|);
    AllRepresentLater(closed, v, ms, f.items);
    BelowLater(w, v, stack, frames);
    BottomIsLowest(w, stack, frames, |w.nodes|);
    var s, next := stack[..|stack| - 1], frames[..|frames| - 1];
    var g := Top(next);
    FrameBound(v, TopList(s, g), g, l, |v.nodes|);
  }

  // ---------------------------------------------------------------- what a compilation leaves alone

  /** From `w` to `v` nothing below `base` was changed, or made final. */
  ghost predicate Grows(w: World, v: World, base: nat) {
    && Extends(w, v) && base <= |w.nodes|
    && (forall i | 0 <= i < base :: v.nodes[i] == w.nodes[i])
    && (forall i | i in v.final && i < base :: i in w.final)
  }

  lemma GrowsAtOnce(w: World, base: nat)
    requires base <= |w.nodes|
    ensures Grows(w, w, base)
  {
  }

  lemma GrowsOn(u: World, w: World, v: World, base: nat, base': nat)
    requires Grows(u, w, base) && Grows(w, v, base') && base <= base'
    ensures Grows(u, v, base)
  {
  }

  /** The bottom list of the stack has the lowest index of all open lists. */
  lemma {:induction false} BottomIsLowest(w: World, stack: seq<MatcherListEntry>, frames: seq<Frame>, bound: nat)
    requires StackIs(w, stack, frames, bound) && frames != []
    ensures stack != [] && stack[0].matcher <= TopList(stack, Top(frames)) < |w.nodes|
    decreases |frames|
  {
    var k := if Top(frames).pending then 2 else 1;
    var below := frames[..|frames| - 1];
    if below == [] {
    } else {
      BottomIsLowest(w, stack[..|stack| - k], below, stack[|stack| - k].matcher);
    }
  }

  /** The list or choice with one more matcher. */
  function WithMatcher(n: Node, id: nat): Node
    requires n.ListMatcher? || n.ChoiceMatcher?
  {
    if n.ListMatcher? then ListMatcher(n.matchers + [id]) else ChoiceMatcher(n.matchers + [id])
  }

  /** A choice leaves the stack once it has got its operand. */
  function StackAfterAdding(stack: seq<MatcherListEntry>, onChoice: bool): seq<MatcherListEntry>
    requires stack != []
  {
    if onChoice then stack[..|stack| - 1] else stack
  }

  // ---------------------------------------------------------------- single steps

  /** The allocator's matchers and the stack: all that a step of the compiler changes. */
  datatype Bench = Bench(nodes: seq<Node>, stack: seq<MatcherListEntry>) {
    ghost predicate Safe() {
      SafeStack(nodes, stack)
    }

    predicate HasTop() {
      stack != [] && Last(stack).matcher < |nodes|
    }

    function Top(): Node
      requires HasTop()
    {
      nodes[Last(stack).matcher]
    }

    /** The top is a list that has an item. */
    predicate HasItem() {
      HasTop() && Top().ListMatcher? && Top().matchers != []
    }

    /** The top list becomes a list of `ms`. */
    function WithTop(more: seq<Node>, ms: seq<nat>): seq<Node>
      requires HasTop()
    {
      (nodes + more)[Last(stack).matcher := ListMatcher(ms)]
    }
  }

  /** `AddMatcher`: appended in place; a choice is then complete. */
  predicate Adds(a: Bench, b: Bench, id: nat) {
    && a.HasTop() && (a.Top().ListMatcher? || a.Top().ChoiceMatcher?)
    && b == Bench(a.nodes[Last(a.stack).matcher := WithMatcher(a.Top(), id)],
                  StackAfterAdding(a.stack, a.Top().ChoiceMatcher?))
  }

  /** The last item of the top list is wrapped. */
  predicate Wraps(a: Bench, b: Bench, repeat: bool) {
    && a.HasItem()
    && b == Bench(a.WithTop([Wrapper(Last(a.Top().matchers), repeat)], ReplaceLast(a.Top().matchers, |a.nodes|)), a.stack)
  }

  /** A choice of the last item takes its place, and is pushed. */
  predicate OpensNew(a: Bench, b: Bench) {
    && a.HasItem()
    && b == Bench(a.WithTop([ChoiceMatcher([Last(a.Top().matchers)])], ReplaceLast(a.Top().matchers, |a.nodes|)),
                  a.stack + [MatcherListEntry(|a.nodes|, "")])
  }

  /** '/': the last item is pushed if it is a choice already. */
  predicate Opens(a: Bench, b: Bench) {
    && a.HasItem() && Last(a.Top().matchers) < |a.nodes|
    && var last := Last(a.Top().matchers);
       if a.nodes[last].ChoiceMatcher? then b == a.(stack := a.stack + [MatcherListEntry(last, "")]) else OpensNew(a, b)
  }

  predicate Pushes(a: Bench, b: Bench, functionName: string) {
    b == Bench(a.nodes + [ListMatcher([])], a.stack + [MatcherListEntry(|a.nodes|, functionName)])
  }

  /** The top of the stack is popped, and added to what is below it. */
  predicate PopsInto(a: Bench, b: Bench) {
    |a.stack| > 1 && Adds(a.(stack := a.stack[..|a.stack| - 1]), b, Last(a.stack).matcher)
  }

  /** What lies on top of the stack: the awaiting choice, or the top list. */
  lemma TopKind(w: World, stack: seq<MatcherListEntry>, frames: seq<Frame>)
    requires Holds(w, stack, frames)
    ensures stack != [] && Last(stack).matcher < |w.nodes| && Last(stack).matcher !in w.final
    ensures stack[0].matcher <= Last(stack).matcher
    ensures if Top(frames).pending then w.nodes[Last(stack).matcher].ChoiceMatcher? else w.nodes[Last(stack).matcher].ListMatcher?
    ensures !Top(frames).pending ==> |w.nodes[Last(stack).matcher].matchers| == |Top(frames).items|
    ensures !Top(frames).pending ==>
              forall i | i in Closing(Top(frames), w.nodes[Last(stack).matcher].matchers) :: Last(stack).matcher < i
  {
    BottomIsLowest(w, stack, frames, |w.nodes|);
  }

  lemma ChangedAbove(w: World, id: nat, n: Node, more: set<nat>, base: nat)
    requires base <= id < |w.nodes| && id !in w.final && forall i | i in more :: base <= i
    ensures Grows(w, w.(nodes := w.nodes[id := n], final := w.final + more), base)
  {
  }

  /** `AddMatcher`: what changes in the top matcher, in the stack, and in the frames. */
  lemma MatcherAdded(w: World, stack: seq<MatcherListEntry>, frames: seq<Frame>, id: nat, t: Tree) returns (final: set<nat>)
    requires Holds(w, stack, frames) && stack != [] && Represents(w, id, t) && !t.ChoiceTree?
    requires SafeStack(w.nodes, stack)
    ensures var top := Last(stack).matcher;
            var v := w.(nodes := w.nodes[top := WithMatcher(w.nodes[top], id)], final := final);
            && Grows(w, v, stack[0].matcher)
            && Holds(v, StackAfterAdding(stack, w.nodes[top].ChoiceMatcher?), AddTree(frames, t))
  {
    TopKind(w, stack, frames);
    var top := Last(stack).matcher;
    if Top(frames).pending {
      AlternativeAdded(w, stack, frames, id, t);
      ChangedAbove(w, top, WithMatcher(w.nodes[top], id), {}, stack[0].matcher);
      final := w.final;
      assert w.final + {} == w.final;
    } else {
      ItemAdded(w, stack, frames, id, t);
      final := w.final + Closing(Top(frames), w.nodes[top].matchers);
      ChangedAbove(w, top, WithMatcher(w.nodes[top], id), Closing(Top(frames), w.nodes[top].matchers), stack[0].matcher);
    }
  }

  lemma AppendedInPlace(nodes: seq<Node>, stack: seq<MatcherListEntry>, id: nat)
    requires Closed(nodes) && SafeStack(nodes, stack) && id < |nodes|
    ensures var top := Last(stack).matcher;
            && WithMatcher(nodes[top], id).RefersBelow(|nodes|)
            && var next := StackAfterAdding(stack, nodes[top].ChoiceMatcher?);
            SafeStack(nodes[top := WithMatcher(nodes[top], id)], next) && next[0] == stack[0] && Callees(next) <= Callees(stack)
  {
    var top := Last(stack).matcher;
    assert nodes[top].RefersBelow(|nodes|);
  }

  /** The optional or the repeat of a matcher. */
  function Wrapper(id: nat, repeat: bool): Node {
    if repeat then RepeatMatcher(id) else OptionalMatcher(id)
  }

  function WrapperTree(t: Tree, repeat: bool): Tree {
    if repeat then RepeatTree(t) else OptionalTree(t)
  }

  ghost function Wrapped(frames: seq<Frame>, repeat: bool): seq<Frame>
    requires frames != [] && Top(frames).items != []
  {
    var f := Top(frames);
    WithTop(frames, Frame(ReplaceLast(f.items, WrapperTree(Last(f.items), repeat)), f.callee, false))
  }

  /** A new optional or repeat takes the place of the last item of the top list. */
  lemma LastWrapped(w: World, stack: seq<MatcherListEntry>, frames: seq<Frame>, repeat: bool) returns (final: set<nat>)
    requires SafeWorld(w) && Holds(w, stack, frames) && !Top(frames).pending && Top(frames).items != []
    ensures stack != [] && Last(stack).matcher < |w.nodes| && w.nodes[Last(stack).matcher].ListMatcher?
    ensures var l := Last(stack).matcher; var ms := w.nodes[l].matchers;
            && ms != [] && Last(ms) < |w.nodes|
            && var v := w.(nodes := (w.nodes + [Wrapper(Last(ms), repeat)])[l := ListMatcher(ReplaceLast(ms, |w.nodes|))], final := final);
            && Grows(w, v, stack[0].matcher)
            && Holds(v, stack, Wrapped(frames, repeat))
  {
    TopKind(w, stack, frames);
    var l, id, f := Last(stack).matcher, |w.nodes|, Top(frames);
    var ms := w.nodes[l].matchers;
    assert w.nodes[l].RefersBelow(|w.nodes|);
    var u := w.(nodes := w.nodes + [Wrapper(Last(ms), repeat)], final := w.final + {id});
    AllocationHolds(w, stack, frames, Wrapper(Last(ms), repeat), {id});
    assert u.nodes[l] == w.nodes[l];
    LastWrappedIs(u, stack, frames, id, repeat);
    LastReplaced(u, stack, frames, id, WrapperTree(Last(f.items), repeat));
    TopKind(u, stack, frames);
    final := u.final + Closing(f, ms);
    ChangedAbove(u, l, ListMatcher(ReplaceLast(ms, id)), Closing(f, ms), stack[0].matcher);
    assert Grows(w, u, stack[0].matcher);
    GrowsOn(w, u, ListSet(u, l, ReplaceLast(ms, id), Closing(f, ms)), stack[0].matcher, stack[0].matcher);
  }

  lemma LastWrappedIs(u: World, stack: seq<MatcherListEntry>, frames: seq<Frame>, id: nat, repeat: bool)
    requires Holds(u, stack, frames) && !Top(frames).pending && Top(frames).items != []
    requires var l := Last(stack).matcher; IsFinal(u, id) && u.nodes[id] == Wrapper(Last(u.nodes[l].matchers), repeat)
    ensures Represents(u.(final := u.final + Closing(Top(frames), u.nodes[Last(stack).matcher].matchers)),
                       id, WrapperTree(Last(Top(frames).items), repeat))
  {
    FrameClosed(u, Last(stack).matcher, Top(frames), |u.nodes|);
  }

  /** '/' after an item that is not a choice. */
  lemma OpeningGrows(w: World, stack: seq<MatcherListEntry>, frames: seq<Frame>)
    requires Holds(w, stack, frames) && !Top(frames).pending && Top(frames).items != []
    requires !Last(Top(frames).items).ChoiceTree?
    ensures var l := Last(stack).matcher; var ms := w.nodes[l].matchers; var c := |w.nodes|;
            Grows(w, w.(nodes := (w.nodes + [ChoiceMatcher([Last(ms)])])[l := ListMatcher(ReplaceLast(ms, c))]), stack[0].matcher)
  {
    TopKind(w, stack, frames);
  }

  /** The last item of the top list as a matcher: whether it is a choice can be seen in the graph. */
  lemma LastItemKind(w: World, stack: seq<MatcherListEntry>, frames: seq<Frame>)
    requires SafeWorld(w) && Holds(w, stack, frames) && !Top(frames).pending && Top(frames).items != []
    ensures var ms := w.nodes[Last(stack).matcher].matchers;
            && ms != [] && Last(ms) < |w.nodes|
            && (w.nodes[Last(ms)].ChoiceMatcher? <==> Last(Top(frames).items).Head().ChoiceTree?)
  {
    var l, f := Last(stack).matcher, Top(frames);
    if !Last(f.items).ChoiceTree? {
      RepresentsKind(w, Last(w.nodes[l].matchers), Last(f.items));
    }
  }

  /** The functions being called by the open lists. */
  function Callees(stack: seq<MatcherListEntry>): set<string> {
    set e | e in stack :: e.functionName
  }

  /** When all brackets are closed, the root list can be made final and represents the rule's items. */
  lemma RootClosed(w: World, stack: seq<MatcherListEntry>, frames: seq<Frame>)
    requires Holds(w, stack, frames) && |stack| == 1
    ensures |frames| == 1 && !frames[0].pending
    ensures var l := stack[0].matcher;
            && l < |w.nodes| && w.nodes[l].ListMatcher? && |w.nodes[l].matchers| == |frames[0].items|
            && var v := w.(final := w.final + Closing(frames[0], w.nodes[l].matchers) + {l});
            && Grows(w, v, l) && FinalBelow(v) && Represents(v, l, ListTree(frames[0].items))
  {
    assert StackIs(w, stack[..0], frames[..|frames| - 1], stack[0].matcher);
    var l, f := stack[0].matcher, frames[0];
    assert FrameIs(w, l, f, |w.nodes|);
    var ms := w.nodes[l].matchers;
    var closed := w.(final := w.final + Closing(f, ms));
    var v := w.(final := w.final + Closing(f, ms) + {l});
    FrameClosed(w, l, f, |w.nodes|);
    AllRepresentLater(closed, v, ms, f.items);
  }

  /** One entry on the stack means that no bracket and no choice is open. */
  lemma RootCount(w: World, stack: seq<MatcherListEntry>, frames: seq<Frame>)
    requires Holds(w, stack, frames)
    ensures |stack| == 1 <==> |frames| == 1 && !frames[0].pending
  {
    if !Top(frames).pending {
      assert StackIs(w, stack[..|stack| - 1], frames[..|frames| - 1], Last(stack).matcher);
    }
  }

  /** Whatever is compiled on top of a world leaves the open lists alone. */
  lemma HoldsLater(w: World, v: World, stack: seq<MatcherListEntry>, frames: seq<Frame>)
    requires Holds(w, stack, frames) && Grows(w, v, |w.nodes|) && FinalBelow(v)
    ensures Holds(v, stack, frames)
  {
    StackLater(w, v, stack, frames, |w.nodes|);
    var f := Top(frames);
    FrameBound(v, TopList(stack, f), f, |w.nodes|, |v.nodes|);
  }

  /** The argument of a function call: its only item, or a new list of its items. */
  lemma ArgumentHolds(w: World, l: nat, f: Frame, stack: seq<MatcherListEntry>, frames: seq<Frame>)
    requires l < |w.nodes| && w.nodes[l].ListMatcher? && RepresentsAll(w, w.nodes[l].matchers, f.items)
    requires Holds(w, stack, frames)
    ensures var ms := w.nodes[l].matchers;
            if |ms| == 1 then Represents(w, ms[0], f.items[0])
            else var v := Allocated(w, ListMatcher(ms));
                 && Grows(w, v, |w.nodes|) && Holds(v, stack, frames)
                 && Represents(v, |w.nodes|, ListTree(f.items))
  {
    var ms := w.nodes[l].matchers;
    if |ms| != 1 {
      var v := Allocated(w, ListMatcher(ms));
      AllocationHolds(w, stack, frames, ListMatcher(ms), {|w.nodes|});
      AllRepresentLater(w, v, ms, f.items);
    }
  }

  /** The world after a bracket has been closed. */
  ghost function Popped(w: World, stack: seq<MatcherListEntry>, frames: seq<Frame>): World
    requires Holds(w, stack, frames) && !Top(frames).pending
  {
    var l := Last(stack).matcher;
    w.(final := w.final + Closing(Top(frames), w.nodes[l].matchers) + {l})
  }

  lemma PoppedGrows(w: World, stack: seq<MatcherListEntry>, frames: seq<Frame>)
    requires Holds(w, stack, frames) && !Top(frames).pending && |frames| > 1
    ensures |stack| > 1 && Grows(w, Popped(w, stack, frames), stack[0].matcher)
  {
    FramePopped(w, stack, frames);
    TopKind(w, stack, frames);
    RootCount(w, stack, frames);
  }

  /** The callee of the top frame is written on the top of the stack, unless a choice is on top. */
  lemma TopFrame(w: World, stack: seq<MatcherListEntry>, frames: seq<Frame>)
    requires Holds(w, stack, frames)
    ensures stack != [] && (!Top(frames).pending ==> Last(stack).functionName == Top(frames).callee)
  {
  }

  /** A fresh empty list, on a stack of its own, holds the frame of a rule that is about to be compiled. */
  lemma RootOpened(w: World, u: World)
    requires FinalBelow(w) && u == w.(nodes := w.nodes + [ListMatcher([])], cache := u.cache)
    requires forall n | n in w.cache :: n in u.cache && u.cache[n] == w.cache[n]
    ensures Grows(w, u, |w.nodes|)
    ensures Holds(u, [MatcherListEntry(|w.nodes|, "")], [Frame([], "", false)])
  {
    var stack, frames := [MatcherListEntry(|w.nodes|, "")], [Frame([], "", false)];
    assert frames[..0] == [] && stack[..0] == [];
    assert FrameIs(u, |w.nodes|, frames[0], |u.nodes|);
  }

  /** A new keyword matcher represents the keyword, and leaves the stack alone. */
  lemma KeywordAllocated(w: World, stack: seq<MatcherListEntry>, frames: seq<Frame>, text: string)
    requires Holds(w, stack, frames) && stack != [] && w.fold(text) !in w.overrides
    ensures var v := Allocated(w, KeywordMatcher(text));
            && Grows(w, v, stack[0].matcher) && Holds(v, stack, frames)
            && Represents(v, |w.nodes|, KeywordTree(text))
  {
    TopKind(w, stack, frames);
    AllocationHolds(w, stack, frames, KeywordMatcher(text), {|w.nodes|});
  }

  lemma KeywordOverridden(w: World, stack: seq<MatcherListEntry>, frames: seq<Frame>, text: string)
    requires Holds(w, stack, frames) && stack != [] && w.fold(text) in w.overrides
    ensures Represents(w, w.overrides[w.fold(text)], KeywordTree(text)) && Grows(w, w, stack[0].matcher)
  {
    TopKind(w, stack, frames);
  }

  lemma RuleRepresented(w: World, name: string)
    requires name in w.cache
    ensures Represents(w, w.cache[name], RuleTree(name))
  {
  }

  lemma SharedRepresented(w: World, id: nat, argument: Tree)
    requires Represents(w, id, argument)
    ensures Represents(w, id, SharedTree(argument))
  {
  }
}
