/**
 * The rules engine, as an explicit game tree given to the search. A node
 * records what the search asks of a position: whether the game is over and
 * how, the side to move, the static evaluation of the position (the
 * non-terminal part of the evaluator, which is not part of this model) and
 * the legal moves in the engine's generation order. A move records what the
 * ordering heuristics ask of it and the position it leads to.
 */
module GameTree {
  import opened Options
  import opened Chess
  import opened Scores

  datatype Outcome = Decisive(winner: Color) | Draw

  datatype Node = Node(outcome: Option<Outcome>, turn: Color, eval: Score, moves: seq<Move>)

  /** The moving role, the captured role if any, the promotion role if any and the resulting node. */
  datatype Move = Move(role: Role, capture: Option<Role>, promotion: Option<Role>, child: Node)

  predicate IsGameOver(n: Node)
  {
    n.outcome.Some?
  }

  predicate IsCapture(m: Move)
  {
    m.capture.Some?
  }

  /**
   * What the rules engine and the evaluator guarantee of every position
   * below: a position that is not over has a legal move, and its static
   * evaluation is a proper score.
   */
  predicate Sound(n: Node)
  {
    (!IsGameOver(n) ==> |n.moves| > 0 && Proper(n.eval))
    && forall i :: 0 <= i < |n.moves| ==> Sound(n.moves[i].child)
  }

  /** Soundness is inherited by every child. */
  lemma SoundChild(n: Node, m: Move)
    requires Sound(n) && m in n.moves
    ensures Sound(m.child)
  {
  }
}
