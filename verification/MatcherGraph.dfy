/**
 The matcher graph of the autocomplete parser (extension/autocomplete/matcher.cpp).

 A `MatcherAllocator` owns all matchers in one vector, and matchers refer to each other by
 reference; here a reference is an index into that vector, so a graph may be cyclic and shared.
 */
module MatcherGraph {

  /** The matchers that look at one token. */
  datatype LeafKind =
    | Identifier(suggestion: nat)
    | ReservedIdentifier(suggestion: nat)
    | StringLiteral
    | NumberLiteral
    | OperatorLiteral
    | ArithmeticOperator

  datatype Node =
    | KeywordMatcher(keyword: string)
    | LeafMatcher(kind: LeafKind)
    | ListMatcher(matchers: seq<nat>)
    | OptionalMatcher(matcher: nat)
    | ChoiceMatcher(matchers: seq<nat>)
    | RepeatMatcher(element: nat)
  {
    predicate IsTerminal() {
      KeywordMatcher? || LeafMatcher?
    }

    /** All references of the node are below `size`. */
    ghost predicate RefersBelow(size: nat) {
      match this
      case KeywordMatcher(_) => true
      case LeafMatcher(_) => true
      case ListMatcher(ms) => forall i | 0 <= i < |ms| :: ms[i] < size
      case OptionalMatcher(m) => m < size
      case ChoiceMatcher(ms) => forall i | 0 <= i < |ms| :: ms[i] < size
      case RepeatMatcher(m) => m < size
    }
  }

  /** Every reference in the graph points into the graph. */
  ghost predicate Closed(nodes: seq<Node>) {
    forall i | 0 <= i < |nodes| :: nodes[i].RefersBelow(|nodes|)
  }

  datatype Token = Token(text: string, offset: nat)

  /** What a terminal matcher makes of the text of a token. */
  datatype Answer = Accept | Reject | Raise

  /** A graph to match, the tokens to match it on, and how terminals answer and decode a text. */
  datatype Grammar = Grammar(
    nodes: seq<Node>, tokens: seq<Token>,
    answer: (Node, string) -> Answer, decode: (Node, string) -> string)
  {
    ghost predicate Valid() {
      Closed(nodes)
    }

    ghost predicate IsList(m: nat) {
      m < |nodes| && nodes[m].ListMatcher?
    }
  }
}
