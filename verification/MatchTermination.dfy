/**
 In a well-founded graph `Match` ends on every input, whatever it suggests on the way.

 A list that runs out of tokens may succeed without having consumed one, but only at the end of the
 input, where no matcher but a list is entered any more.
 */
module MatchTermination {
  import opened MatcherGraph
  import opened ParseResults
  import opened Matching

  // ---------------------------------------------------------------- fuel

  /** An answer does not change when there is more fuel. */
  lemma {:induction false} RunFuelIsEnough(g: Grammar, f: nat, h: nat, m: nat, at: nat, added: set<nat>)
    requires g.Valid() && m < |g.nodes| && f <= h && !Matching.Run(g, f, m, at, added).MatchDiverges?
    ensures Matching.Run(g, h, m, at, added) == Matching.Run(g, f, m, at, added)
    decreases f, 0, 0
  {
    assert g.nodes[m].RefersBelow(|g.nodes|);
    match g.nodes[m]
    case KeywordMatcher(_) =>
    case LeafMatcher(_) =>
    case ListMatcher(ms) => RunListFuelIsEnough(g, f - 1, h - 1, ms, at, at, {});
    case OptionalMatcher(c) => RunFuelIsEnough(g, f - 1, h - 1, c, at, {});
    case ChoiceMatcher(ms) => RunChoiceFuelIsEnough(g, f - 1, h - 1, ms, at);
    case RepeatMatcher(e) =>
      RunFuelIsEnough(g, f - 1, h - 1, e, at, {});
      var r := Matching.Run(g, f - 1, e, at, {});
      if r.Match? {
        RunRepeatFuelIsEnough(g, f - 1, h - 1, e, r.at, r.added, added);
      }
  }

  lemma {:induction false} RunListFuelIsEnough(g: Grammar, f: nat, h: nat, ms: seq<nat>, start: nat, at: nat, added: set<nat>)
    requires g.Valid() && (forall i | 0 <= i < |ms| :: ms[i] < |g.nodes|) && f <= h
    requires !RunList(g, f, ms, start, at, added).MatchDiverges?
    ensures RunList(g, h, ms, start, at, added) == RunList(g, f, ms, start, at, added)
    decreases f, 1, |ms|
  {
    if ms == [] || at >= |g.tokens| {
    } else {
      RunFuelIsEnough(g, f, h, ms[0], at, added);
      var r := Matching.Run(g, f, ms[0], at, added);
      if r.Match? {
        RunListFuelIsEnough(g, f, h, ms[1..], start, r.at, r.added);
      }
    }
  }

  lemma {:induction false} RunChoiceFuelIsEnough(g: Grammar, f: nat, h: nat, ms: seq<nat>, at: nat)
    requires g.Valid() && (forall i | 0 <= i < |ms| :: ms[i] < |g.nodes|) && f <= h
    requires !RunChoice(g, f, ms, at).MatchDiverges?
    ensures RunChoice(g, h, ms, at) == RunChoice(g, f, ms, at)
    decreases f, 1, |ms|
  {
    if ms == [] {
    } else {
      RunFuelIsEnough(g, f, h, ms[0], at, {});
      if Matching.Run(g, f, ms[0], at, {}).NoMatch? {
        RunChoiceFuelIsEnough(g, f, h, ms[1..], at);
      }
    }
  }

  lemma {:induction false} RunRepeatFuelIsEnough(
      g: Grammar, f: nat, h: nat, e: nat, at: nat, inner: set<nat>, added: set<nat>)
    requires g.Valid() && e < |g.nodes| && f <= h && !RunRepeat(g, f, e, at, inner, added).MatchDiverges?
    ensures RunRepeat(g, h, e, at, inner, added) == RunRepeat(g, f, e, at, inner, added)
    decreases f, 1, 0
  {
    if at >= |g.tokens| || f == 0 {
    } else {
      RunFuelIsEnough(g, f, h, e, at, inner);
      var r := Matching.Run(g, f, e, at, inner);
      if r.Match? {
        RunRepeatFuelIsEnough(g, f - 1, h - 1, e, r.at, r.added, added);
      }
    }
  }

  // ---------------------------------------------------------------- progress

  /** A success never moves back; before the end of the input, only a nullable matcher stays. */
  ghost predicate Moves(g: Grammar, r: MatchRun, at: nat, mayStay: bool) {
    r.Match? ==> at <= r.at && (r.at == at < |g.tokens| ==> mayStay)
  }

  lemma {:induction false} RunMoves(g: Grammar, nullable: set<nat>, rank: nat -> nat, fuel: nat, m: nat, at: nat, added: set<nat>)
    requires g.Valid() && m < |g.nodes| && WellFounded(g, nullable, rank)
    ensures Moves(g, Matching.Run(g, fuel, m, at, added), at, m in nullable)
    decreases fuel, 0, 0
  {
    if fuel == 0 {
    } else {
      assert g.nodes[m].RefersBelow(|g.nodes|);
      assert WellFoundedAt(g, nullable, rank, m);
      match g.nodes[m]
      case KeywordMatcher(_) =>
      case LeafMatcher(_) =>
      case ListMatcher(ms) => RunListMoves(g, nullable, rank, fuel - 1, ms, at, at, {});
      case OptionalMatcher(c) => RunMoves(g, nullable, rank, fuel - 1, c, at, {});
      case ChoiceMatcher(ms) => RunChoiceMoves(g, nullable, rank, fuel - 1, m, ms, at);
      case RepeatMatcher(e) =>
        RunMoves(g, nullable, rank, fuel - 1, e, at, {});
        var first := Matching.Run(g, fuel - 1, e, at, {});
        if first.Match? {
          RunRepeatMoves(g, nullable, rank, fuel - 1, e, first.at, first.added, added);
        }
    }
  }

  lemma {:induction false} RunListMoves(
      g: Grammar, nullable: set<nat>, rank: nat -> nat, fuel: nat, ms: seq<nat>, start: nat, at: nat, added: set<nat>)
    requires g.Valid() && WellFounded(g, nullable, rank) && forall i | 0 <= i < |ms| :: ms[i] < |g.nodes|
    ensures Moves(g, RunList(g, fuel, ms, start, at, added), at, AllIn(ms, nullable))
    decreases fuel, 1, |ms|
  {
    if ms == [] || at >= |g.tokens| {
    } else {
      RunMoves(g, nullable, rank, fuel, ms[0], at, added);
      var first := Matching.Run(g, fuel, ms[0], at, added);
      if first.Match? {
        RunListMoves(g, nullable, rank, fuel, ms[1..], start, first.at, first.added);
        assert ms == [ms[0]] + ms[1..];
      }
    }
  }

  lemma {:induction false} RunChoiceMoves(
      g: Grammar, nullable: set<nat>, rank: nat -> nat, fuel: nat, m: nat, ms: seq<nat>, at: nat)
    requires g.Valid() && WellFounded(g, nullable, rank)
    requires forall i | 0 <= i < |ms| :: ms[i] < |g.nodes| && (ms[i] in nullable ==> m in nullable)
    ensures Moves(g, RunChoice(g, fuel, ms, at), at, m in nullable)
    decreases fuel, 1, |ms|
  {
    if ms == [] {
    } else {
      RunMoves(g, nullable, rank, fuel, ms[0], at, {});
      RunChoiceMoves(g, nullable, rank, fuel, m, ms[1..], at);
    }
  }

  lemma {:induction false} RunRepeatMoves(
      g: Grammar, nullable: set<nat>, rank: nat -> nat, fuel: nat, e: nat, at: nat, inner: set<nat>, added: set<nat>)
    requires g.Valid() && e < |g.nodes| && WellFounded(g, nullable, rank)
    ensures Moves(g, RunRepeat(g, fuel, e, at, inner, added), at, true)
    decreases fuel, 1, 0
  {
    if at >= |g.tokens| || fuel == 0 {
    } else {
      RunMoves(g, nullable, rank, fuel, e, at, inner);
      var first := Matching.Run(g, fuel, e, at, inner);
      if first.Match? {
        RunRepeatMoves(g, nullable, rank, fuel - 1, e, first.at, first.added, added);
      }
    }
  }

  // ---------------------------------------------------------------- termination

  /** How many tokens are left. */
  function Left(g: Grammar, at: nat): nat {
    if at < |g.tokens| then |g.tokens| - at else 0
  }

  /** In a well-founded graph every match ends, wherever a matcher may be entered. */
  lemma {:induction false} MatchTerminates(
      g: Grammar, nullable: set<nat>, rank: nat -> nat, m: nat, at: nat, added: set<nat>) returns (fuel: nat)
    requires g.Valid() && MayEnter(g, m, at) && WellFounded(g, nullable, rank)
    ensures !Matching.Run(g, fuel, m, at, added).MatchDiverges?
    decreases Left(g, at), rank(m), |g.tokens| + 1
  {
    assert g.nodes[m].RefersBelow(|g.nodes|);
    assert WellFoundedAt(g, nullable, rank, m);
    match g.nodes[m]
    case KeywordMatcher(_) => fuel := 1;
    case LeafMatcher(_) => fuel := 1;
    case ListMatcher(ms) =>
      fuel := RunListTerminates(g, nullable, rank, m, 0, at, at, {});
      assert ms[0..] == ms;
      fuel := fuel + 1;
    case OptionalMatcher(c) =>
      fuel := MatchTerminates(g, nullable, rank, c, at, {});
      fuel := fuel + 1;
    case ChoiceMatcher(ms) =>
      fuel := RunChoiceTerminates(g, nullable, rank, m, 0, at);
      assert ms[0..] == ms;
      fuel := fuel + 1;
    case RepeatMatcher(e) =>
      fuel := MatchTerminates(g, nullable, rank, e, at, {});
      var first := Matching.Run(g, fuel, e, at, {});
      if first.Match? {
        RunMoves(g, nullable, rank, fuel, e, at, {});
        var more := RunRepeatTerminates(g, nullable, rank, m, at, first.at, first.added, added);
        RunFuelIsEnough(g, fuel, Max(fuel, more), e, at, {});
        RunRepeatFuelIsEnough(g, more, Max(fuel, more), e, first.at, first.added, added);
        fuel := Max(fuel, more);
      }
      fuel := fuel + 1;
  }

  /** The loop of list `m`, which was entered at `start`, from its matcher number `k` at `pos`. */
  lemma {:induction false} RunListTerminates(
      g: Grammar, nullable: set<nat>, rank: nat -> nat, m: nat, k: nat, start: nat, pos: nat, added: set<nat>)
    returns (fuel: nat)
    requires g.Valid() && WellFounded(g, nullable, rank) && g.IsList(m)
    requires k <= |g.nodes[m].matchers| && start <= pos
    requires pos == start < |g.tokens| ==> AllIn(g.nodes[m].matchers[..k], nullable)
    requires g.nodes[m].RefersBelow(|g.nodes|)
    ensures !RunList(g, fuel, g.nodes[m].matchers[k..], start, pos, added).MatchDiverges?
    decreases Left(g, start), rank(m), 0, |g.nodes[m].matchers| - k
  {
    var ms := g.nodes[m].matchers;
    fuel := 0;
    if k >= |ms| || pos >= |g.tokens| {
    } else {
      assert WellFoundedAt(g, nullable, rank, m);
      fuel := MatchTerminates(g, nullable, rank, ms[k], pos, added);
      var first := Matching.Run(g, fuel, ms[k], pos, added);
      if first.Match? {
        RunMoves(g, nullable, rank, fuel, ms[k], pos, added);
        assert ms[..k + 1] == ms[..k] + [ms[k]];
        var more := RunListTerminates(g, nullable, rank, m, k + 1, start, first.at, first.added);
        RunFuelIsEnough(g, fuel, Max(fuel, more), ms[k], pos, added);
        RunListFuelIsEnough(g, more, Max(fuel, more), ms[k + 1..], start, first.at, first.added);
        fuel := Max(fuel, more);
        assert ms[k..][1..] == ms[k + 1..];
      }
    }
  }

  lemma {:induction false} RunChoiceTerminates(g: Grammar, nullable: set<nat>, rank: nat -> nat, m: nat, k: nat, at: nat)
    returns (fuel: nat)
    requires g.Valid() && WellFounded(g, nullable, rank) && m < |g.nodes| && g.nodes[m].ChoiceMatcher?
    requires k <= |g.nodes[m].matchers| && at < |g.tokens|
    requires g.nodes[m].RefersBelow(|g.nodes|)
    ensures !RunChoice(g, fuel, g.nodes[m].matchers[k..], at).MatchDiverges?
    decreases Left(g, at), rank(m), 0, |g.nodes[m].matchers| - k
  {
    var ms := g.nodes[m].matchers;
    fuel := 0;
    if k >= |ms| {
    } else {
      assert ms[k..][0] == ms[k] && ms[k..][1..] == ms[k + 1..];
      assert WellFoundedAt(g, nullable, rank, m);
      fuel := MatchTerminates(g, nullable, rank, ms[k], at, {});
      if Matching.Run(g, fuel, ms[k], at, {}).NoMatch? {
        var more := RunChoiceTerminates(g, nullable, rank, m, k + 1, at);
        RunFuelIsEnough(g, fuel, Max(fuel, more), ms[k], at, {});
        RunChoiceFuelIsEnough(g, more, Max(fuel, more), ms[k + 1..], at);
        fuel := Max(fuel, more);
      }
    }
  }

  /** The loop of repeat `m`, which was entered at `start`, after at least one repetition. */
  lemma {:induction false} RunRepeatTerminates(
      g: Grammar, nullable: set<nat>, rank: nat -> nat, m: nat, start: nat, pos: nat, inner: set<nat>, added: set<nat>)
    returns (fuel: nat)
    requires g.Valid() && WellFounded(g, nullable, rank) && m < |g.nodes| && g.nodes[m].RepeatMatcher?
    requires start < pos
    requires g.nodes[m].RefersBelow(|g.nodes|)
    ensures !RunRepeat(g, fuel, g.nodes[m].element, pos, inner, added).MatchDiverges?
    decreases Left(g, start), rank(m), 0, Left(g, pos)
  {
    var e := g.nodes[m].element;
    fuel := 0;
    if pos >= |g.tokens| {
    } else {
      assert WellFoundedAt(g, nullable, rank, m);
      fuel := MatchTerminates(g, nullable, rank, e, pos, inner);
      var first := Matching.Run(g, fuel, e, pos, inner);
      if first.Match? {
        RunMoves(g, nullable, rank, fuel, e, pos, inner);
        var more := RunRepeatTerminates(g, nullable, rank, m, start, first.at, first.added, added);
        RunFuelIsEnough(g, fuel, Max(fuel, more + 1), e, pos, inner);
        RunRepeatFuelIsEnough(g, more, Max(fuel, more + 1) - 1, e, first.at, first.added, added);
        fuel := Max(fuel, more + 1);
      } else {
        fuel := fuel + 1;
        RunFuelIsEnough(g, fuel - 1, fuel, e, pos, inner);
      }
    }
  }
}
