/**
  Strictness-aware comparison of one goal node (from a pattern) against one
  candidate node (from the searched tree), and the two node filters that
  decide which nodes take part in a comparison at all.
*/
module Strictness {

  /** The five equivalence levels, from strictest to loosest. */
  datatype MatchStrictness = Cst | Smart | Ast | Lenient | Signature

  /** What the tree walker does after comparing one pair of terminal nodes. */
  datatype MatchOneNode = MatchedBoth | SkipBoth | SkipGoal | SkipCandidate | NoMatch

  /**
    The view of a syntax node that comparison needs: its kind id, its text,
    whether it is a named grammar production, and whether it is comment-like.
  */
  datatype Node = Node(kind: nat, text: string, named: bool, commentLike: bool)

  /** Position of a level in the chain Cst < Smart < Ast < Lenient < Signature. */
  function Looseness(s: MatchStrictness): nat
  {
    match s
    case Cst => 0
    case Smart => 1
    case Ast => 2
    case Lenient => 3
    case Signature => 4
  }

  /** The candidate agrees with the goal in both kind id and text. */
  predicate ExactMatch(kind: nat, text: string, candidate: Node)
  {
    candidate.kind == kind && candidate.text == text
  }

  /**
    The final step of terminal comparison: a (skip goal, skip candidate) pair
    picks one outcome.
  */
  function OutcomeOf(skipGoal: bool, skipCandidate: bool): (r: MatchOneNode)
    ensures r != MatchedBoth
  {
    match (skipGoal, skipCandidate)
    case (true, true) => SkipBoth
    case (true, false) => SkipGoal
    case (false, true) => SkipCandidate
    case (false, false) => NoMatch
  }

  /** Reads back the (skip goal, skip candidate) pair from a non-matching outcome. */
  function SkipsOf(o: MatchOneNode): (r: (bool, bool))
    requires o != MatchedBoth
    ensures OutcomeOf(r.0, r.1) == o
  {
    match o
    case SkipBoth => (true, true)
    case SkipGoal => (true, false)
    case SkipCandidate => (false, true)
    case NoMatch => (false, false)
  }

  /** The pair mapping is injective, so together with SkipsOf it is a bijection. */
  lemma OutcomeOfInjective(g: bool, c: bool)
    ensures SkipsOf(OutcomeOf(g, c)) == (g, c)
  {
  }

  /** The (skip goal, skip candidate) pair a level computes once the exact-match shortcut failed. */
  function SkipPair(s: MatchStrictness, goalNamed: bool, candidate: Node): (p: (bool, bool))
    // the candidate half is exactly the per-node skip filter
    ensures p.1 == ShouldSkipMatchingNode(s, candidate)
    // the goal half skips an unnamed goal, and only from ast upward
    ensures p.0 <==> !goalNamed && Looseness(s) >= Looseness(Ast)
  {
    match s
    case Cst => (false, false)
    case Smart => (false, !candidate.named)
    case Ast => (!goalNamed, !candidate.named)
    case Lenient => (!goalNamed, !candidate.named || candidate.commentLike)
    case Signature => (!goalNamed, !candidate.named || candidate.commentLike)
  }

  /**
    Compares a goal terminal (given by its named flag, text and kind id) with a
    candidate node under level `s`.
  */
  function MatchTerminal(s: MatchStrictness, goalNamed: bool, text: string, kind: nat, candidate: Node): (r: MatchOneNode)
    // an exact match in kind and text wins at every level; beyond that only
    // Signature matches, and only on equal kind ids
    ensures r == MatchedBoth <==> ExactMatch(kind, text, candidate) || (s == Signature && candidate.kind == kind)
    // the goal side is skipped only when the goal is unnamed and the level looks past unnamed goals
    ensures (r == SkipGoal || r == SkipBoth) ==> !goalNamed && Looseness(s) >= Looseness(Ast)
    // the candidate side is skipped only when the candidate may be elided at this level
    ensures (r == SkipCandidate || r == SkipBoth) ==> ShouldSkipMatchingNode(s, candidate)
  {
    if candidate.kind == kind && text == candidate.text then
      MatchedBoth
    else if s == Signature && candidate.kind == kind then
      MatchedBoth
    else
      var (skipGoal, skipCandidate) := SkipPair(s, goalNamed, candidate);
      OutcomeOf(skipGoal, skipCandidate)
  }

  /** True when `node` is elided entirely from comparison under level `s`. */
  function ShouldSkipMatchingNode(s: MatchStrictness, node: Node): (b: bool)
    // only unnamed or comment-like nodes are ever skipped
    ensures b ==> !node.named || node.commentLike
    // every level but cst skips unnamed nodes
    ensures s != Cst && !node.named ==> b
    ensures s == Cst ==> !b
    // lenient and signature also skip comment-like nodes; ast and stricter never skip a named one
    ensures Looseness(s) >= Looseness(Lenient) && node.commentLike ==> b
    ensures Looseness(s) <= Looseness(Ast) && node.named ==> !b
  {
    match s
    case Cst => false
    case Smart => !node.named
    case Ast => !node.named
    case Lenient => !node.named || node.commentLike
    case Signature => !node.named || node.commentLike
  }

  /** True when `node` is kept as a binding constraint of a pattern built under level `s`. */
  function ShouldKeepInPattern(s: MatchStrictness, node: Node): (b: bool)
    // a named node that is not comment-like is kept at every level
    ensures node.named && !node.commentLike ==> b
    // cst and smart keep everything; from ast upward unnamed nodes are dropped
    ensures Looseness(s) <= Looseness(Smart) ==> b
    ensures !node.named && Looseness(s) >= Looseness(Ast) ==> !b
    // lenient and signature also drop comment-like nodes; ast and stricter keep every named one
    ensures Looseness(s) >= Looseness(Lenient) && node.commentLike ==> !b
    ensures Looseness(s) <= Looseness(Ast) && node.named ==> b
  {
    match s
    case Cst => true
    case Smart => true
    case Ast => node.named
    case Lenient => node.named && !node.commentLike
    case Signature => node.named && !node.commentLike
  }

  // ---------------------------------------------------------------------
  // Properties of terminal comparison
  // ---------------------------------------------------------------------

  /** Terminal comparison is the skip-pair outcome of the two node filters, except for the two matching shortcuts. */
  lemma MatchTerminalBySkipFilters(s: MatchStrictness, goalNamed: bool, text: string, kind: nat, candidate: Node)
    ensures !ExactMatch(kind, text, candidate) && !(s == Signature && candidate.kind == kind) ==>
      MatchTerminal(s, goalNamed, text, kind, candidate)
        == OutcomeOf(!goalNamed && Looseness(s) >= Looseness(Ast), ShouldSkipMatchingNode(s, candidate))
  {
  }

  /** Under Cst every pair that is not an exact match is final: NoMatch, never a skip. */
  lemma CstIsExact(goalNamed: bool, text: string, kind: nat, candidate: Node)
    ensures MatchTerminal(Cst, goalNamed, text, kind, candidate)
      == (if ExactMatch(kind, text, candidate) then MatchedBoth else NoMatch)
  {
  }

  /** Signature ignores text when kind ids agree; Lenient does not, on the same pair. */
  lemma SignatureIgnoresText(goalNamed: bool, text: string, kind: nat, candidate: Node)
    requires candidate.kind == kind && candidate.text != text
    ensures MatchTerminal(Signature, goalNamed, text, kind, candidate) == MatchedBoth
    ensures MatchTerminal(Lenient, goalNamed, text, kind, candidate) != MatchedBoth
  {
  }

  /** Smart never skips the goal, and skips the candidate exactly when it is unnamed and not an exact match. */
  lemma SmartNeverSkipsGoal(goalNamed: bool, text: string, kind: nat, candidate: Node)
    ensures MatchTerminal(Smart, goalNamed, text, kind, candidate) != SkipGoal
    ensures MatchTerminal(Smart, goalNamed, text, kind, candidate) != SkipBoth
    ensures MatchTerminal(Smart, goalNamed, text, kind, candidate) == SkipCandidate
      <==> !candidate.named && !ExactMatch(kind, text, candidate)
  {
  }

  /** Lenient and Signature disagree exactly on pairs with equal kind ids and different texts. */
  lemma LenientSignatureDiffer(goalNamed: bool, text: string, kind: nat, candidate: Node)
    ensures MatchTerminal(Lenient, goalNamed, text, kind, candidate) != MatchTerminal(Signature, goalNamed, text, kind, candidate)
      <==> candidate.kind == kind && candidate.text != text
  {
  }

  /** MatchedBoth comes only from the two shortcuts, never from the skip-pair mapping. */
  lemma MatchedBothOnlyFromShortcuts(s: MatchStrictness, goalNamed: bool, text: string, kind: nat, candidate: Node)
    ensures MatchTerminal(s, goalNamed, text, kind, candidate) == MatchedBoth ==>
      ExactMatch(kind, text, candidate) || (s == Signature && candidate.kind == kind)
  {
  }

  /** A looser level keeps every match of a stricter one, and a NoMatch at a looser level is a NoMatch at every stricter one. */
  lemma MatchTerminalMonotone(a: MatchStrictness, b: MatchStrictness, goalNamed: bool, text: string, kind: nat, candidate: Node)
    requires Looseness(a) <= Looseness(b)
    ensures MatchTerminal(a, goalNamed, text, kind, candidate) == MatchedBoth ==> MatchTerminal(b, goalNamed, text, kind, candidate) == MatchedBoth
    ensures MatchTerminal(b, goalNamed, text, kind, candidate) == NoMatch ==> MatchTerminal(a, goalNamed, text, kind, candidate) == NoMatch
  {
  }

  // ---------------------------------------------------------------------
  // Properties of the node filters
  // ---------------------------------------------------------------------

  /** Skipping grows along Cst <= Smart = Ast <= Lenient = Signature, and Cst skips nothing. */
  lemma SkipMonotone(a: MatchStrictness, b: MatchStrictness, node: Node)
    requires Looseness(a) <= Looseness(b)
    ensures ShouldSkipMatchingNode(a, node) ==> ShouldSkipMatchingNode(b, node)
    ensures !ShouldSkipMatchingNode(Cst, node)
    ensures ShouldSkipMatchingNode(Smart, node) == ShouldSkipMatchingNode(Ast, node)
    ensures ShouldSkipMatchingNode(Lenient, node) == ShouldSkipMatchingNode(Signature, node)
  {
  }

  /**
    Comments are what separates Ast from Lenient and Signature: a named
    comment-like node is compared and kept under Ast, but skipped and dropped
    under the two looser levels, so a differing candidate of that kind is a
    NoMatch under Ast and skipped under Lenient.
  */
  lemma CommentsSeparateAstFromLenient(goalNamed: bool, text: string, kind: nat, candidate: Node)
    requires candidate.named && candidate.commentLike
    ensures !ShouldSkipMatchingNode(Ast, candidate) && ShouldKeepInPattern(Ast, candidate)
    ensures ShouldSkipMatchingNode(Lenient, candidate) && !ShouldKeepInPattern(Lenient, candidate)
    ensures ShouldSkipMatchingNode(Signature, candidate) && !ShouldKeepInPattern(Signature, candidate)
    ensures goalNamed && !ExactMatch(kind, text, candidate) ==>
      && MatchTerminal(Ast, goalNamed, text, kind, candidate) == NoMatch
      && MatchTerminal(Lenient, goalNamed, text, kind, candidate) == SkipCandidate
  {
  }

  /** From Ast on, a node is kept in a pattern exactly when it is not skipped; Cst and Smart keep everything. */
  lemma KeepIsNotSkip(s: MatchStrictness, node: Node)
    ensures Looseness(s) >= Looseness(Ast) ==> (ShouldKeepInPattern(s, node) <==> !ShouldSkipMatchingNode(s, node))
    ensures Looseness(s) < Looseness(Ast) ==> ShouldKeepInPattern(s, node)
  {
  }
}
