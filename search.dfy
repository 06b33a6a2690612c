/**
 * The search: a fixed-depth negamax with alpha-beta pruning that hands
 * over to a capture-only quiescence search at depth zero.
 *
 * `QuiescenceSearch` and `NegamaxSearch` state, as functions, what the two
 * recursive procedures of the engine compute, step for step; the methods
 * `Quiescence` and `Negamax` are the procedures themselves, with their loops,
 * early returns and cut-off, proved equal to those functions.
 * `QuiescenceValue` and `NegamaxValue` are the same searches without
 * pruning; the lemmas prove that the pruned results bound the unpruned
 * values in the way alpha-beta promises, and equal them inside the window.
 */
module Search {
  import opened Options
  import opened Chess
  import opened Scores
  import opened Sorting
  import opened GameTree
  import opened Evaluation
  import opened AlphaBeta

  // ---------------------------------------------------------------------
  // Move ordering

  /** The static evaluation from the side to move's point of view. */
  function RelativeEval(n: Node): Score
  {
    ApplyColorFactor(CalculateScore(n), n.turn)
  }

  /** The capture moves, in generation order. */
  function Captures(moves: seq<Move>): (r: seq<Move>)
    ensures forall m :: m in r <==> m in moves && IsCapture(m)
    ensures |r| <= |moves|
  {
    if |moves| == 0 then []
    else
      assert moves == [moves[0]] + moves[1..];
      (if IsCapture(moves[0]) then [moves[0]] else []) + Captures(moves[1..])
  }

  /** Most valuable victim, least valuable aggressor: ten times the victim's value less the mover's. */
  function MvvLva(m: Move): int
  {
    10 * PieceValue(if m.capture.Some? then m.capture.value else Pawn).cp - PieceValue(m.role).cp
  }

  /** The capture key as the source computes it, in score arithmetic. */
  function MvvLvaScore(m: Move): Score
    requires m.capture.Some? && m.capture.value != King
  {
    Sub(Mul(PieceValue(m.capture.value), 10), PieceValue(m.role))
  }

  /** The score arithmetic of the capture key never saturates, so the key is the plain integer. */
  lemma MvvLvaScoreIsInteger(m: Move)
    requires m.capture.Some? && m.capture.value != King
    ensures MvvLvaScore(m) == Centipawn(MvvLva(m))
  {
  }

  /** The captures as quiescence tries them: by non-increasing capture key, ties in generation order. */
  function OrderedCaptures(n: Node): (r: seq<Move>)
    ensures forall m :: m in r ==> m in n.moves
  {
    var r := SortDesc(Captures(n.moves), MvvLva);
    forall m | m in r ensures m in n.moves {
      SortDescMembers(Captures(n.moves), MvvLva, m);
    }
    r
  }

  /**
   * Quiescence tries exactly the capture moves, each as often as it is
   * generated, in non-increasing order of the capture key.
   */
  lemma OrderedCapturesAreSortedCaptures(n: Node)
    ensures forall m :: m in OrderedCaptures(n) <==> m in n.moves && IsCapture(m)
    ensures multiset(OrderedCaptures(n)) == multiset(Captures(n.moves))
    ensures SortedDesc(OrderedCaptures(n), MvvLva)
  {
    SortDescPermutes(Captures(n.moves), MvvLva);
    SortDescSorted(Captures(n.moves), MvvLva);
    forall m ensures m in OrderedCaptures(n) <==> m in Captures(n.moves) {
      SortDescMembers(Captures(n.moves), MvvLva, m);
    }
  }

  /** The ordering value of a move: 1000 plus the victim's value for a capture, 900 more for a promotion. */
  function OrderValue(m: Move): int
  {
    (if m.capture.Some? then 1000 + PieceValue(m.capture.value).cp else 0) + (if m.promotion.Some? then 900 else 0)
  }

  /** The sort key as the source computes it: the negated ordering value, in score arithmetic. */
  function OrderingKey(m: Move): Score
  {
    var capture := if m.capture.Some? then Add(ZERO, Add(Centipawn(1000), PieceValue(m.capture.value))) else ZERO;
    var promotion := if m.promotion.Some? then Add(capture, Centipawn(900)) else capture;
    Neg(promotion)
  }

  /**
   * The source's key is the negated ordering value; sorting by it in
   * ascending order is sorting by the ordering value in descending order.
   */
  lemma OrderingKeyIsNegatedValue(m: Move)
    ensures OrderingKey(m) == Centipawn(-OrderValue(m))
    ensures 0 <= OrderValue(m) <= 11900
  {
  }

  /** Two keys compare as the integers they hold. */
  lemma OrderingKeysCompare(a: Move, b: Move)
    ensures Cmp(OrderingKey(a), OrderingKey(b)) == IntCmp(OrderValue(b), OrderValue(a))
  {
    OrderingKeyIsNegatedValue(a);
    OrderingKeyIsNegatedValue(b);
    CentipawnOrder(-OrderValue(a), -OrderValue(b));
  }

  /** The moves as negamax tries them: by non-increasing ordering value, ties in generation order. */
  function OrderedMoves(n: Node): (r: seq<Move>)
    ensures forall m :: m in r ==> m in n.moves
    ensures |r| == |n.moves|
  {
    var r := SortDesc(n.moves, OrderValue);
    forall m | m in r ensures m in n.moves {
      SortDescMembers(n.moves, OrderValue, m);
    }
    r
  }

  /** Negamax tries every move, each as often as it is generated, in non-increasing order of the ordering value. */
  lemma OrderedMovesAreSortedMoves(n: Node)
    ensures forall m :: m in OrderedMoves(n) <==> m in n.moves
    ensures multiset(OrderedMoves(n)) == multiset(n.moves)
    ensures SortedDesc(OrderedMoves(n), OrderValue)
  {
    SortDescPermutes(n.moves, OrderValue);
    SortDescSorted(n.moves, OrderValue);
    forall m ensures m in OrderedMoves(n) <==> m in n.moves {
      SortDescMembers(n.moves, OrderValue, m);
    }
  }

  // ---------------------------------------------------------------------
  // Quiescence search

  /**
   * What the quiescence search returns: the game-over score from White's
   * side at a finished game, `beta` when standing pat already reaches it,
   * else the capture loop started from the better of `alpha` and standing pat.
   */
  function QuiescenceSearch(n: Node, alpha: Score, beta: Score): Score
    decreases n, 1
  {
    if IsGameOver(n) then GameOverScore(n.outcome.value)
    else
      var standPat := RelativeEval(n);
      if Ge(standPat, beta) then beta
      else QuiescenceLoop(n, OrderedCaptures(n), 0, Max(alpha, standPat), beta)
  }

  /** A capture's score for the side making it: the negated search of its child, in the mirrored window. */
  function QuiescenceReply(m: Move, alpha: Score, beta: Score): Score
    decreases m.child, 2
  {
    Neg(QuiescenceSearch(m.child, Neg(beta), Neg(alpha)))
  }

  /** The capture loop from the i-th capture on, with the current `alpha`. */
  function QuiescenceLoop(n: Node, captures: seq<Move>, i: nat, alpha: Score, beta: Score): Score
    requires i <= |captures| && forall m :: m in captures ==> m in n.moves
    decreases n, 0, |captures| - i
  {
    if i == |captures| then alpha
    else
      assert captures[i] in n.moves;
      var score := QuiescenceReply(captures[i], alpha, beta);
      if Ge(score, beta) then beta
      else QuiescenceLoop(n, captures, i + 1, if Gt(score, alpha) then score else alpha, beta)
  }

  /** The quiescence search of the engine: stand pat, then try the captures in order. */
  method Quiescence(n: Node, alpha: Score, beta: Score) returns (r: Score)
    ensures r == QuiescenceSearch(n, alpha, beta)
    decreases n
  {
    if IsGameOver(n) {
      return GameOverScore(n.outcome.value);
    }
    var standPat := ApplyColorFactor(CalculateScore(n), n.turn);
    if Ge(standPat, beta) {
      return beta;
    }
    var a := Max(alpha, standPat);
    var captures := OrderedCaptures(n);
    for i := 0 to |captures|
      invariant QuiescenceLoop(n, captures, i, a, beta) == QuiescenceSearch(n, alpha, beta)
    {
      assert captures[i] in n.moves;
      var score := Quiescence(captures[i].child, Neg(beta), Neg(a));
      score := Neg(score);
      assert score == QuiescenceReply(captures[i], a, beta);
      if Ge(score, beta) {
        return beta;
      }
      if Gt(score, a) {
        a := score;
      }
    }
    return a;
  }

  /** The unpruned value quiescence approximates: the better of standing pat and every capture. */
  function QuiescenceValue(n: Node): Score
    decreases n, 1
  {
    if IsGameOver(n) then GameOverScore(n.outcome.value)
    else QuiescenceValueLoop(n, OrderedCaptures(n), 0, RelativeEval(n))
  }

  /** A capture's unpruned value for the side making it. */
  function QuiescenceReplyValue(m: Move): Score
    decreases m.child, 2
  {
    Neg(QuiescenceValue(m.child))
  }

  function QuiescenceValueLoop(n: Node, captures: seq<Move>, i: nat, best: Score): Score
    requires i <= |captures| && forall m :: m in captures ==> m in n.moves
    decreases n, 0, |captures| - i
  {
    if i == |captures| then best
    else
      assert captures[i] in n.moves;
      QuiescenceValueLoop(n, captures, i + 1, Max(best, QuiescenceReplyValue(captures[i])))
  }

  // ---------------------------------------------------------------------
  // Negamax

  /** What the move loop of negamax returns, with the move scores it examined. */
  datatype Line = Line(score: Score, bestMove: Option<Move>, examined: seq<Score>)

  /**
   * What negamax returns: the side-relative evaluation and no move at a
   * finished game, the quiescence result and no move at depth zero, else
   * the best score and move of the move loop started from `MIN`.
   */
  function NegamaxSearch(n: Node, depth: nat, alpha: Score, beta: Score): (Score, Option<Move>)
    decreases n, 1
  {
    if IsGameOver(n) then (RelativeEval(n), None)
    else if depth == 0 then (QuiescenceSearch(n, alpha, beta), None)
    else
      var line := NegamaxLoop(n, depth, OrderedMoves(n), 0, alpha, beta, MIN, None);
      (line.score, line.bestMove)
  }

  /** A move's score for the side making it: the negated search of its child one ply shallower, in the mirrored window. */
  function NegamaxReply(m: Move, depth: nat, alpha: Score, beta: Score): Score
    requires depth > 0
    decreases m.child, 2
  {
    Neg(NegamaxSearch(m.child, depth - 1, Neg(beta), Neg(alpha)).0)
  }

  /** The move loop from the i-th move on, with the current `alpha`, best score and best move. */
  function NegamaxLoop(n: Node, depth: nat, moves: seq<Move>, i: nat, alpha: Score, beta: Score, best: Score, bestMove: Option<Move>): Line
    requires depth > 0 && i <= |moves| && forall m :: m in moves ==> m in n.moves
    decreases n, 0, |moves| - i
  {
    if i == |moves| then Line(best, bestMove, [])
    else
      assert moves[i] in n.moves;
      var current := NegamaxReply(moves[i], depth, alpha, beta);
      var best' := if Gt(current, best) then current else best;
      var bestMove' := if Gt(current, best) then Some(moves[i]) else bestMove;
      var alpha' := if Gt(current, alpha) then current else alpha;
      if Ge(alpha', beta) then Line(best', bestMove', [current])
      else
        var rest := NegamaxLoop(n, depth, moves, i + 1, alpha', beta, best', bestMove');
        Line(rest.score, rest.bestMove, [current] + rest.examined)
  }

  /** The negamax search of the engine, with its cut-off. */
  method Negamax(n: Node, depth: nat, alpha: Score, beta: Score) returns (score: Score, bestMove: Option<Move>)
    ensures (score, bestMove) == NegamaxSearch(n, depth, alpha, beta)
    decreases n
  {
    if IsGameOver(n) {
      var eval := ApplyColorFactor(CalculateScore(n), n.turn);
      return eval, None;
    }
    if depth == 0 {
      score := Quiescence(n, alpha, beta);
      return score, None;
    }
    var best := MIN;
    bestMove := None;
    var a := alpha;
    var moves := OrderedMoves(n);
    ghost var line := NegamaxLoop(n, depth, moves, 0, alpha, beta, MIN, None);
    for i := 0 to |moves|
      invariant var rest := NegamaxLoop(n, depth, moves, i, a, beta, best, bestMove);
        rest.score == line.score && rest.bestMove == line.bestMove
    {
      assert moves[i] in n.moves;
      var childScore, _ := Negamax(moves[i].child, depth - 1, Neg(beta), Neg(a));
      var current := Neg(childScore);
      assert current == NegamaxReply(moves[i], depth, a, beta);
      if Gt(current, best) {
        best := current;
        bestMove := Some(moves[i]);
      }
      if Gt(current, a) {
        a := current;
      }
      if Ge(a, beta) {
        assert best == line.score && bestMove == line.bestMove;
        break;
      }
    }
    score := best;
  }

  /** The unpruned value negamax approximates: the best move value, the quiescence value at depth zero. */
  function NegamaxValue(n: Node, depth: nat): Score
    decreases n, 1
  {
    if IsGameOver(n) then RelativeEval(n)
    else if depth == 0 then QuiescenceValue(n)
    else NegamaxValueLoop(n, depth, OrderedMoves(n), 0, MIN)
  }

  /** A move's unpruned value for the side making it. */
  function NegamaxReplyValue(m: Move, depth: nat): Score
    requires depth > 0
    decreases m.child, 2
  {
    Neg(NegamaxValue(m.child, depth - 1))
  }

  function NegamaxValueLoop(n: Node, depth: nat, moves: seq<Move>, i: nat, best: Score): Score
    requires depth > 0 && i <= |moves| && forall m :: m in moves ==> m in n.moves
    decreases n, 0, |moves| - i
  {
    if i == |moves| then best
    else
      assert moves[i] in n.moves;
      NegamaxValueLoop(n, depth, moves, i + 1, Max(best, NegamaxReplyValue(moves[i], depth)))
  }

  // ---------------------------------------------------------------------
  // The root

  /**
   * The engine's choice at the root: a depth-4 search in the window of
   * half of `MAX` either way, the score turned to White's side; `None`
   * where the source panics for want of a move.
   */
  function FindBestMove(n: Node): (r: Option<(Move, Score)>)
    ensures IsGameOver(n) ==> r.None?
  {
    var (score, bestMove) := NegamaxSearch(n, 4, Div(Neg(MAX), 2), Div(MAX, 2));
    if bestMove.None? then None else Some((bestMove.value, ApplyColorFactor(score, n.turn)))
  }

  // ---------------------------------------------------------------------
  // Results are proper scores

  lemma RelativeEvalProper(n: Node)
    requires Sound(n)
    ensures Proper(RelativeEval(n))
  {
    if IsGameOver(n) {
      NegProper(GameOverScore(n.outcome.value));
    } else {
      NegProper(n.eval);
    }
  }

  // Quiescence: the results are proper scores.

  /** Under a proper window, quiescence returns a proper score. */
  lemma {:induction false} QuiescenceProper(n: Node, alpha: Score, beta: Score)
    requires Sound(n) && Proper(alpha) && Proper(beta)
    ensures Proper(QuiescenceSearch(n, alpha, beta))
    decreases n, 1
  {
    if !IsGameOver(n) {
      var standPat := RelativeEval(n);
      RelativeEvalProper(n);
      if !Ge(standPat, beta) {
        QuiescenceLoopProper(n, OrderedCaptures(n), 0, Max(alpha, standPat), beta);
      }
    }
  }

  lemma {:induction false} QuiescenceReplyProper(m: Move, alpha: Score, beta: Score)
    requires Sound(m.child) && Proper(alpha) && Proper(beta)
    ensures Proper(QuiescenceReply(m, alpha, beta))
    decreases m.child, 2
  {
    NegProper(beta);
    NegProper(alpha);
    QuiescenceProper(m.child, Neg(beta), Neg(alpha));
    NegProper(QuiescenceSearch(m.child, Neg(beta), Neg(alpha)));
  }

  lemma {:induction false} QuiescenceLoopProper(n: Node, captures: seq<Move>, i: nat, alpha: Score, beta: Score)
    requires Sound(n) && i <= |captures| && (forall m :: m in captures ==> m in n.moves)
    requires Proper(alpha) && Proper(beta)
    ensures Proper(QuiescenceLoop(n, captures, i, alpha, beta))
    decreases n, 0, |captures| - i
  {
    if i < |captures| {
      assert captures[i] in n.moves;
      SoundChild(n, captures[i]);
      var score := QuiescenceReply(captures[i], alpha, beta);
      QuiescenceReplyProper(captures[i], alpha, beta);
      if !Ge(score, beta) {
        QuiescenceLoopProper(n, captures, i + 1, if Gt(score, alpha) then score else alpha, beta);
      }
    }
  }

  /** The unpruned quiescence value is a proper score. */
  lemma {:induction false} QuiescenceValueProper(n: Node)
    requires Sound(n)
    ensures Proper(QuiescenceValue(n))
    decreases n, 1
  {
    if !IsGameOver(n) {
      RelativeEvalProper(n);
      QuiescenceValueLoopGrows(n, OrderedCaptures(n), 0, RelativeEval(n));
    }
  }

  lemma {:induction false} QuiescenceReplyValueProper(m: Move)
    requires Sound(m.child)
    ensures Proper(QuiescenceReplyValue(m))
    decreases m.child, 2
  {
    QuiescenceValueProper(m.child);
    NegProper(QuiescenceValue(m.child));
  }

  /** The capture fold never falls below its starting score. */
  lemma {:induction false} QuiescenceValueLoopGrows(n: Node, captures: seq<Move>, i: nat, best: Score)
    requires Sound(n) && i <= |captures| && (forall m :: m in captures ==> m in n.moves)
    requires Proper(best)
    ensures Proper(QuiescenceValueLoop(n, captures, i, best))
    ensures Standing(best) <= Standing(QuiescenceValueLoop(n, captures, i, best))
    decreases n, 0, |captures| - i
  {
    if i < |captures| {
      assert captures[i] in n.moves;
      SoundChild(n, captures[i]);
      var w := QuiescenceReplyValue(captures[i]);
      QuiescenceReplyValueProper(captures[i]);
      Compare(best, w);
      QuiescenceValueLoopGrows(n, captures, i + 1, Max(best, w));
    }
  }

  // Quiescence: the bound.

  /**
   * Quiescence under a proper window with `alpha` below `beta` bounds the
   * unpruned quiescence value as alpha-beta promises.
   */
  lemma {:induction false} QuiescenceBoundsValue(n: Node, alpha: Score, beta: Score)
    requires Sound(n) && Proper(alpha) && Proper(beta) && Lt(alpha, beta)
    ensures Proper(QuiescenceValue(n))
    ensures WindowBound(QuiescenceSearch(n, alpha, beta), QuiescenceValue(n), alpha, beta)
    decreases n, 1
  {
    QuiescenceValueProper(n);
    QuiescenceProper(n, alpha, beta);
    var r := QuiescenceSearch(n, alpha, beta);
    var v := QuiescenceValue(n);
    WindowBoundStanding(r, v, alpha, beta);
    if !IsGameOver(n) {
      var standPat := RelativeEval(n);
      RelativeEvalProper(n);
      var captures := OrderedCaptures(n);
      QuiescenceValueLoopGrows(n, captures, 0, standPat);
      Compare(standPat, beta);
      Compare(alpha, beta);
      if !Ge(standPat, beta) {
        Compare(alpha, standPat);
        QuiescenceLoopBoundsValue(n, captures, 0, alpha, Max(alpha, standPat), beta, standPat);
      }
    }
  }

  /**
   * A capture searched in the window from `-beta` to `-a` bounds the
   * capture's unpruned value, as seen from the side making it.
   */
  lemma {:induction false} QuiescenceReplyBound(m: Move, a: Score, beta: Score)
    requires Sound(m.child) && Proper(a) && Proper(beta) && Standing(a) < Standing(beta)
    ensures ReplyBound(a, beta, QuiescenceReply(m, a, beta), QuiescenceReplyValue(m))
    decreases m.child, 2
  {
    NegProper(beta);
    NegProper(a);
    StandingOfNeg(beta);
    StandingOfNeg(a);
    Compare(Neg(beta), Neg(a));
    var q := QuiescenceSearch(m.child, Neg(beta), Neg(a));
    var v := QuiescenceValue(m.child);
    QuiescenceProper(m.child, Neg(beta), Neg(a));
    QuiescenceBoundsValue(m.child, Neg(beta), Neg(a));
    WindowBoundStanding(q, v, Neg(beta), Neg(a));
    NegProper(q);
    NegProper(v);
    StandingOfNeg(q);
    StandingOfNeg(v);
  }

  /**
   * The capture loop bounds the unpruned value of the captures left,
   * folded onto `seen`, for the original window.
   */
  lemma {:induction false} QuiescenceLoopBoundsValue(n: Node, captures: seq<Move>, i: nat, alpha: Score, a: Score, beta: Score, seen: Score)
    requires Sound(n) && i <= |captures| && (forall m :: m in captures ==> m in n.moves)
    requires QuiescenceInvariant(alpha, beta, a, seen)
    ensures StandingBound(QuiescenceLoop(n, captures, i, a, beta), QuiescenceValueLoop(n, captures, i, seen), alpha, beta)
    decreases n, 0, |captures| - i
  {
    var r := QuiescenceLoop(n, captures, i, a, beta);
    QuiescenceLoopProper(n, captures, i, a, beta);
    var v := QuiescenceValueLoop(n, captures, i, seen);
    QuiescenceValueLoopGrows(n, captures, i, seen);
    if i == |captures| {
      if Standing(a) == Standing(seen) {
        StandingInjective(a, seen);
      }
    } else {
      assert captures[i] in n.moves;
      SoundChild(n, captures[i]);
      var score := QuiescenceReply(captures[i], a, beta);
      var w := QuiescenceReplyValue(captures[i]);
      QuiescenceReplyBound(captures[i], a, beta);
      QuiescenceScoreStep(alpha, beta, a, seen, score, w);
      QuiescenceValueLoopGrows(n, captures, i + 1, Max(seen, w));
      if !Ge(score, beta) {
        QuiescenceLoopBoundsValue(n, captures, i + 1, alpha, if Gt(score, a) then score else a, beta, Max(seen, w));
      }
    }
  }

  // Quiescence: the interval.

  /**
   * With `alpha` at most `beta` and standing pat below `beta`, quiescence
   * returns a score between the better of `alpha` and standing pat, and `beta`.
   */
  lemma QuiescenceInterval(n: Node, alpha: Score, beta: Score)
    requires Sound(n) && !IsGameOver(n) && Proper(alpha) && Proper(beta) && Le(alpha, beta)
    requires Lt(RelativeEval(n), beta)
    ensures Le(Max(alpha, RelativeEval(n)), QuiescenceSearch(n, alpha, beta))
    ensures Le(QuiescenceSearch(n, alpha, beta), beta)
  {
    var standPat := RelativeEval(n);
    RelativeEvalProper(n);
    Compare(standPat, beta);
    Compare(alpha, beta);
    Compare(alpha, standPat);
    var low := Max(alpha, standPat);
    QuiescenceLoopInterval(n, OrderedCaptures(n), 0, low, low, beta);
  }

  lemma {:induction false} QuiescenceLoopInterval(n: Node, captures: seq<Move>, i: nat, low: Score, a: Score, beta: Score)
    requires Sound(n) && i <= |captures| && (forall m :: m in captures ==> m in n.moves)
    requires Proper(low) && Proper(a) && Proper(beta)
    requires Standing(low) <= Standing(a) <= Standing(beta)
    ensures Le(low, QuiescenceLoop(n, captures, i, a, beta))
    ensures Le(QuiescenceLoop(n, captures, i, a, beta), beta)
    decreases |captures| - i
  {
    var r := QuiescenceLoop(n, captures, i, a, beta);
    QuiescenceLoopProper(n, captures, i, a, beta);
    Compare(low, r);
    Compare(r, beta);
    if i < |captures| {
      assert captures[i] in n.moves;
      SoundChild(n, captures[i]);
      var score := QuiescenceReply(captures[i], a, beta);
      QuiescenceReplyProper(captures[i], a, beta);
      Compare(score, beta);
      Compare(score, a);
      if !Ge(score, beta) {
        QuiescenceLoopInterval(n, captures, i + 1, low, if Gt(score, a) then score else a, beta);
      }
    }
  }

  /** At a finished game quiescence returns the game-over score from White's side, whatever the window. */
  lemma QuiescenceTerminal(n: Node, alpha: Score, beta: Score)
    requires IsGameOver(n)
    ensures n.outcome.value == Decisive(White) ==> QuiescenceSearch(n, alpha, beta) == Centipawn(16383)
    ensures n.outcome.value == Decisive(Black) ==> QuiescenceSearch(n, alpha, beta) == Centipawn(-16383)
    ensures n.outcome.value == Draw ==> QuiescenceSearch(n, alpha, beta) == ZERO
  {
  }

  /** The terminal score as evidently intended: the game-over score from the side to move's point of view. */
  function TerminalScoreIntended(n: Node): Score
    requires IsGameOver(n)
  {
    ApplyColorFactor(GameOverScore(n.outcome.value), n.turn)
  }

  /**
   * The intended terminal score is side-relative: a win for the side to
   * move scores half of `MAX`, a loss its negation and a draw zero; it is
   * what negamax returns at a finished game.
   */
  lemma TerminalScoreIntendedIsRelative(n: Node, depth: nat, alpha: Score, beta: Score)
    requires IsGameOver(n)
    ensures n.outcome.value == Decisive(n.turn) ==> TerminalScoreIntended(n) == Centipawn(16383)
    ensures n.outcome.value.Decisive? && n.outcome.value.winner != n.turn ==> TerminalScoreIntended(n) == Centipawn(-16383)
    ensures n.outcome.value == Draw ==> TerminalScoreIntended(n) == ZERO
    ensures NegamaxSearch(n, depth, alpha, beta).0 == TerminalScoreIntended(n)
  {
  }

  /**
   * As written, a finished game with Black to move scores from White's side:
   * the sign is wrong. A pawn capturing a queen that mates Black scores as a
   * loss for White, and quiescence turns it down.
   */
  lemma QuiescenceMisjudgesMatingCapture()
    ensures var mated := Node(Some(Decisive(White)), Black, ZERO, []);
      QuiescenceSearch(mated, ZERO, MAX) == Centipawn(16383) &&
      TerminalScoreIntended(mated) == Centipawn(-16383)
    ensures var mated := Node(Some(Decisive(White)), Black, ZERO, []);
      var mating := Move(Pawn, Some(Queen), None, mated);
      var root := Node(None, White, ZERO, [mating]);
      Sound(root) &&
      QuiescenceReply(mating, ZERO, Centipawn(16383)) == Centipawn(-16383) &&
      QuiescenceSearch(root, Centipawn(-16383), Centipawn(16383)) == ZERO
  {
    var mated := Node(Some(Decisive(White)), Black, ZERO, []);
    var mating := Move(Pawn, Some(Queen), None, mated);
    var root := Node(None, White, ZERO, [mating]);
    assert Captures(root.moves) == [mating] by {
      assert root.moves[1..] == [];
    }
    assert OrderedCaptures(root) == [mating];
    assert QuiescenceSearch(mated, Neg(Centipawn(16383)), Neg(ZERO)) == Centipawn(16383);
    assert RelativeEval(root) == ZERO;
    assert Max(Centipawn(-16383), ZERO) == ZERO;
    assert QuiescenceLoop(root, [mating], 1, ZERO, Centipawn(16383)) == ZERO;
    assert QuiescenceLoop(root, [mating], 0, ZERO, Centipawn(16383)) == ZERO;
  }

  /** Standing pat at or above `beta` returns exactly `beta`. */
  lemma QuiescenceStandPat(n: Node, alpha: Score, beta: Score)
    requires !IsGameOver(n) && Ge(RelativeEval(n), beta)
    ensures QuiescenceSearch(n, alpha, beta) == beta
  {
  }

  // Negamax: proper results and a legal best move.

  /**
   * Under a proper window, negamax returns a proper score; at a game that
   * is not over, with depth left, it returns one of the node's moves, and
   * otherwise no move.
   */
  lemma {:induction false} NegamaxProperMove(n: Node, depth: nat, alpha: Score, beta: Score)
    requires Sound(n) && Proper(alpha) && Proper(beta)
    ensures Proper(NegamaxSearch(n, depth, alpha, beta).0)
    ensures !IsGameOver(n) && depth > 0 ==>
      NegamaxSearch(n, depth, alpha, beta).1.Some? && NegamaxSearch(n, depth, alpha, beta).1.value in n.moves
    ensures IsGameOver(n) || depth == 0 ==> NegamaxSearch(n, depth, alpha, beta).1.None?
    decreases n, 1
  {
    if IsGameOver(n) {
      RelativeEvalProper(n);
    } else if depth == 0 {
      QuiescenceProper(n, alpha, beta);
    } else {
      NegamaxLoopProperMove(n, depth, OrderedMoves(n), 0, alpha, beta, MIN, None);
    }
  }

  lemma {:induction false} NegamaxReplyProper(m: Move, depth: nat, alpha: Score, beta: Score)
    requires depth > 0 && Sound(m.child) && Proper(alpha) && Proper(beta)
    ensures Proper(NegamaxReply(m, depth, alpha, beta))
    decreases m.child, 2
  {
    NegProper(beta);
    NegProper(alpha);
    NegamaxProperMove(m.child, depth - 1, Neg(beta), Neg(alpha));
    NegProper(NegamaxSearch(m.child, depth - 1, Neg(beta), Neg(alpha)).0);
  }

  lemma {:induction false} NegamaxLoopProperMove(n: Node, depth: nat, moves: seq<Move>, i: nat, alpha: Score, beta: Score, best: Score, bestMove: Option<Move>)
    requires Sound(n) && depth > 0 && i <= |moves| && (forall m :: m in moves ==> m in n.moves)
    requires Proper(alpha) && Proper(beta)
    requires (best == MIN && i < |moves|) || (Proper(best) && bestMove.Some? && bestMove.value in n.moves)
    ensures Proper(NegamaxLoop(n, depth, moves, i, alpha, beta, best, bestMove).score)
    ensures NegamaxLoop(n, depth, moves, i, alpha, beta, best, bestMove).bestMove.Some?
    ensures NegamaxLoop(n, depth, moves, i, alpha, beta, best, bestMove).bestMove.value in n.moves
    decreases n, 0, |moves| - i
  {
    if i < |moves| {
      assert moves[i] in n.moves;
      SoundChild(n, moves[i]);
      var current := NegamaxReply(moves[i], depth, alpha, beta);
      NegamaxReplyProper(moves[i], depth, alpha, beta);
      Compare(current, best);
      StandingAboveMin(current);
      var best' := if Gt(current, best) then current else best;
      var bestMove' := if Gt(current, best) then Some(moves[i]) else bestMove;
      var alpha' := if Gt(current, alpha) then current else alpha;
      if !Ge(alpha', beta) {
        NegamaxLoopProperMove(n, depth, moves, i + 1, alpha', beta, best', bestMove');
      }
    }
  }

  /** The unpruned negamax value is a proper score. */
  lemma {:induction false} NegamaxValueProper(n: Node, depth: nat)
    requires Sound(n)
    ensures Proper(NegamaxValue(n, depth))
    decreases n, 1
  {
    if IsGameOver(n) {
      RelativeEvalProper(n);
    } else if depth == 0 {
      QuiescenceValueProper(n);
    } else {
      NegamaxValueLoopGrows(n, depth, OrderedMoves(n), 0, MIN);
    }
  }

  lemma {:induction false} NegamaxReplyValueProper(m: Move, depth: nat)
    requires depth > 0 && Sound(m.child)
    ensures Proper(NegamaxReplyValue(m, depth))
    decreases m.child, 2
  {
    NegamaxValueProper(m.child, depth - 1);
    NegProper(NegamaxValue(m.child, depth - 1));
  }

  /** The move fold never falls below its starting score, and is proper once a move is folded in. */
  lemma {:induction false} NegamaxValueLoopGrows(n: Node, depth: nat, moves: seq<Move>, i: nat, best: Score)
    requires Sound(n) && depth > 0 && i <= |moves| && (forall m :: m in moves ==> m in n.moves)
    requires (best == MIN && i < |moves|) || Proper(best)
    ensures Proper(NegamaxValueLoop(n, depth, moves, i, best))
    ensures Standing(best) <= Standing(NegamaxValueLoop(n, depth, moves, i, best))
    decreases n, 0, |moves| - i
  {
    if i < |moves| {
      assert moves[i] in n.moves;
      SoundChild(n, moves[i]);
      var w := NegamaxReplyValue(moves[i], depth);
      NegamaxReplyValueProper(moves[i], depth);
      Compare(best, w);
      StandingAboveMin(w);
      NegamaxValueLoopGrows(n, depth, moves, i + 1, Max(best, w));
    }
  }

  // Negamax: the bound.

  /**
   * Negamax under a proper window with `alpha` below `beta` bounds the
   * unpruned negamax value as alpha-beta promises (fail-soft: the bound may
   * lie outside the window).
   */
  lemma {:induction false} NegamaxBoundsValue(n: Node, depth: nat, alpha: Score, beta: Score)
    requires Sound(n) && Proper(alpha) && Proper(beta) && Lt(alpha, beta)
    ensures Proper(NegamaxValue(n, depth))
    ensures WindowBound(NegamaxSearch(n, depth, alpha, beta).0, NegamaxValue(n, depth), alpha, beta)
    decreases n, 1
  {
    NegamaxValueProper(n, depth);
    NegamaxProperMove(n, depth, alpha, beta);
    if IsGameOver(n) {
      var v := RelativeEval(n);
      WindowBoundStanding(v, v, alpha, beta);
    } else if depth == 0 {
      QuiescenceBoundsValue(n, alpha, beta);
    } else {
      Compare(alpha, beta);
      StandingAboveMin(alpha);
      NegamaxLoopBoundsValue(n, depth, OrderedMoves(n), 0, alpha, alpha, beta, MIN, None, MIN);
      WindowBoundStanding(NegamaxSearch(n, depth, alpha, beta).0, NegamaxValue(n, depth), alpha, beta);
    }
  }

  /**
   * A move searched in the window from `-beta` to `-a` bounds the move's
   * unpruned value, as seen from the side making it.
   */
  lemma {:induction false} NegamaxReplyBound(m: Move, depth: nat, a: Score, beta: Score)
    requires depth > 0 && Sound(m.child) && Proper(a) && Proper(beta) && Standing(a) < Standing(beta)
    ensures ReplyBound(a, beta, NegamaxReply(m, depth, a, beta), NegamaxReplyValue(m, depth))
    decreases m.child, 2
  {
    NegProper(beta);
    NegProper(a);
    StandingOfNeg(beta);
    StandingOfNeg(a);
    Compare(Neg(beta), Neg(a));
    var q := NegamaxSearch(m.child, depth - 1, Neg(beta), Neg(a)).0;
    var v := NegamaxValue(m.child, depth - 1);
    NegamaxProperMove(m.child, depth - 1, Neg(beta), Neg(a));
    NegamaxBoundsValue(m.child, depth - 1, Neg(beta), Neg(a));
    WindowBoundStanding(q, v, Neg(beta), Neg(a));
    NegProper(q);
    NegProper(v);
    StandingOfNeg(q);
    StandingOfNeg(v);
  }

  /**
   * The move loop bounds the unpruned value of the moves left, folded onto
   * `seen`, for the original window.
   */
  lemma {:induction false} NegamaxLoopBoundsValue(n: Node, depth: nat, moves: seq<Move>, i: nat, alpha: Score, a: Score, beta: Score, best: Score, bestMove: Option<Move>, seen: Score)
    requires Sound(n) && depth > 0 && i <= |moves| && (forall m :: m in moves ==> m in n.moves)
    requires NegamaxInvariant(alpha, beta, a, best, seen)
    requires i == |moves| ==> Proper(best) && Proper(seen)
    ensures StandingBound(NegamaxLoop(n, depth, moves, i, a, beta, best, bestMove).score, NegamaxValueLoop(n, depth, moves, i, seen), alpha, beta)
    decreases n, 0, |moves| - i
  {
    if i == |moves| {
      if Standing(best) == Standing(seen) {
        StandingInjective(best, seen);
      }
    } else {
      assert moves[i] in n.moves;
      SoundChild(n, moves[i]);
      var current := NegamaxReply(moves[i], depth, a, beta);
      var w := NegamaxReplyValue(moves[i], depth);
      NegamaxReplyBound(moves[i], depth, a, beta);
      NegamaxScoreStep(alpha, beta, a, best, seen, current, w);
      var best' := if Gt(current, best) then current else best;
      var bestMove' := if Gt(current, best) then Some(moves[i]) else bestMove;
      var a' := if Gt(current, a) then current else a;
      if Ge(a', beta) {
        var v := NegamaxValueLoop(n, depth, moves, i + 1, Max(seen, w));
        NegamaxValueLoopGrows(n, depth, moves, i + 1, Max(seen, w));
      } else {
        NegamaxLoopBoundsValue(n, depth, moves, i + 1, alpha, a', beta, best', bestMove', Max(seen, w));
      }
    }
  }

  // Negamax: what the move loop examines.

  /** The better of two scores, folded over a sequence from a starting score. */
  function MaxFrom(start: Score, s: seq<Score>): Score
    decreases |s|
  {
    if |s| == 0 then start else MaxFrom(Max(start, s[0]), s[1..])
  }

  /** A prefix of the moves reaching past the i-th keeps the i-th move, and holds moves of the node only. */
  lemma PrefixMoves(n: Node, moves: seq<Move>, i: nat, k: nat)
    requires i < k <= |moves| && forall m :: m in moves ==> m in n.moves
    ensures |moves[..k]| == k && moves[..k][i] == moves[i]
    ensures forall m :: m in moves[..k] ==> m in n.moves
  {
    assert forall m :: m in moves[..k] ==> m in moves;
  }

  /**
   * The move loop examines a prefix of the moves, at least one when any
   * are left; a move after the one that lifts `alpha` to `beta` is never
   * searched, so the loop over the examined prefix alone gives the same line.
   */
  lemma {:induction false} NegamaxLoopExaminesPrefix(n: Node, depth: nat, moves: seq<Move>, i: nat, alpha: Score, beta: Score, best: Score, bestMove: Option<Move>)
    requires depth > 0 && i <= |moves| && (forall m :: m in moves ==> m in n.moves)
    ensures var line := NegamaxLoop(n, depth, moves, i, alpha, beta, best, bestMove);
      i + |line.examined| <= |moves| &&
      (i < |moves| ==> |line.examined| >= 1) &&
      NegamaxLoop(n, depth, moves[..i + |line.examined|], i, alpha, beta, best, bestMove) == line
    decreases |moves| - i
  {
    if i < |moves| {
      assert moves[i] in n.moves;
      var current := NegamaxReply(moves[i], depth, alpha, beta);
      var best' := if Gt(current, best) then current else best;
      var bestMove' := if Gt(current, best) then Some(moves[i]) else bestMove;
      var alpha' := if Gt(current, alpha) then current else alpha;
      if Ge(alpha', beta) {
        PrefixMoves(n, moves, i, i + 1);
      } else {
        NegamaxLoopExaminesPrefix(n, depth, moves, i + 1, alpha', beta, best', bestMove');
        var rest := NegamaxLoop(n, depth, moves, i + 1, alpha', beta, best', bestMove');
        PrefixMoves(n, moves, i, i + 1 + |rest.examined|);
      }
    }
  }

  /** The line's score is the best of the starting score and the examined move scores. */
  lemma {:induction false} NegamaxLoopBestOfExamined(n: Node, depth: nat, moves: seq<Move>, i: nat, alpha: Score, beta: Score, best: Score, bestMove: Option<Move>)
    requires depth > 0 && i <= |moves| && (forall m :: m in moves ==> m in n.moves)
    ensures var line := NegamaxLoop(n, depth, moves, i, alpha, beta, best, bestMove);
      line.score == MaxFrom(best, line.examined)
    decreases |moves| - i
  {
    if i < |moves| {
      assert moves[i] in n.moves;
      var current := NegamaxReply(moves[i], depth, alpha, beta);
      var best' := if Gt(current, best) then current else best;
      var bestMove' := if Gt(current, best) then Some(moves[i]) else bestMove;
      var alpha' := if Gt(current, alpha) then current else alpha;
      CmpAntisymmetric(best, current);
      assert best' == Max(best, current);
      if !Ge(alpha', beta) {
        NegamaxLoopBestOfExamined(n, depth, moves, i + 1, alpha', beta, best', bestMove');
        var rest := NegamaxLoop(n, depth, moves, i + 1, alpha', beta, best', bestMove');
        assert ([current] + rest.examined)[1..] == rest.examined;
      }
    }
  }

  /** A best move found among the later moves is still among the examined ones once the current score is put in front. */
  lemma ExaminedShift(moves: seq<Move>, i: nat, current: Score, rest: Line)
    requires exists j :: 0 <= j < |rest.examined| && i + 1 + j < |moves| && rest.bestMove == Some(moves[i + 1 + j]) && rest.examined[j] == rest.score
    ensures var examined := [current] + rest.examined;
      exists j :: 0 <= j < |examined| && i + j < |moves| && rest.bestMove == Some(moves[i + j]) && examined[j] == rest.score
  {
    var j :| 0 <= j < |rest.examined| && i + 1 + j < |moves| && rest.bestMove == Some(moves[i + 1 + j]) && rest.examined[j] == rest.score;
    assert ([current] + rest.examined)[j + 1] == rest.examined[j];
  }

  /**
   * The line keeps the starting move and score, or its move is an examined
   * move whose score is the line's score.
   */
  lemma {:induction false} NegamaxLoopBestMoveExamined(n: Node, depth: nat, moves: seq<Move>, i: nat, alpha: Score, beta: Score, best: Score, bestMove: Option<Move>)
    requires depth > 0 && i <= |moves| && (forall m :: m in moves ==> m in n.moves)
    ensures var line := NegamaxLoop(n, depth, moves, i, alpha, beta, best, bestMove);
      (line.bestMove == bestMove && line.score == best) ||
      exists j :: 0 <= j < |line.examined| && i + j < |moves| && line.bestMove == Some(moves[i + j]) && line.examined[j] == line.score
    decreases |moves| - i
  {
    var line := NegamaxLoop(n, depth, moves, i, alpha, beta, best, bestMove);
    if i < |moves| {
      assert moves[i] in n.moves;
      var current := NegamaxReply(moves[i], depth, alpha, beta);
      var best' := if Gt(current, best) then current else best;
      var bestMove' := if Gt(current, best) then Some(moves[i]) else bestMove;
      var alpha' := if Gt(current, alpha) then current else alpha;
      if Ge(alpha', beta) {
        if Gt(current, best) {
          assert line.examined[0] == current == line.score;
        }
      } else {
        NegamaxLoopBestMoveExamined(n, depth, moves, i + 1, alpha', beta, best', bestMove');
        var rest := NegamaxLoop(n, depth, moves, i + 1, alpha', beta, best', bestMove');
        assert line.examined == [current] + rest.examined;
        if !(rest.bestMove == bestMove' && rest.score == best') {
          ExaminedShift(moves, i, current, rest);
        } else if Gt(current, best) {
          assert line.examined[0] == current;
        }
      }
    }
  }

  // The root.

  /**
   * At the root the engine answers with a legal move whenever the game is
   * not over, and panics (here: `None`) at a finished game. Its score,
   * turned back to the side to move, bounds the depth-4 value in the window
   * from -16383 to 16383, and is that value whenever the value lies inside.
   */
  lemma FindBestMoveSound(n: Node)
    requires Sound(n)
    ensures IsGameOver(n) <==> FindBestMove(n).None?
    ensures FindBestMove(n).Some? ==> FindBestMove(n).value.0 in n.moves
    ensures FindBestMove(n).Some? ==>
      WindowBound(ApplyColorFactor(FindBestMove(n).value.1, n.turn), NegamaxValue(n, 4), Centipawn(-16383), Centipawn(16383))
    ensures FindBestMove(n).Some? && Lt(Centipawn(-16383), NegamaxValue(n, 4)) && Lt(NegamaxValue(n, 4), Centipawn(16383)) ==>
      FindBestMove(n).value.1 == ApplyColorFactor(NegamaxValue(n, 4), n.turn)
  {
    HalfMax();
    var alpha := Div(Neg(MAX), 2);
    var beta := Div(MAX, 2);
    NegamaxProperMove(n, 4, alpha, beta);
    NegamaxBoundsValue(n, 4, alpha, beta);
    if !IsGameOver(n) {
      var score := NegamaxSearch(n, 4, alpha, beta).0;
      ApplyColorFactorTwice(score, n.turn);
      NegamaxValueProper(n, 4);
      if Lt(alpha, NegamaxValue(n, 4)) && Lt(NegamaxValue(n, 4), beta) {
        WindowBoundExact(score, NegamaxValue(n, 4), alpha, beta);
      }
    }
  }

  /** At a finished game negamax returns the side-relative game-over score and no move; at depth zero, quiescence. */
  lemma NegamaxLeaves(n: Node, depth: nat, alpha: Score, beta: Score)
    ensures IsGameOver(n) ==> NegamaxSearch(n, depth, alpha, beta) == (ApplyColorFactor(GameOverScore(n.outcome.value), n.turn), None)
    ensures !IsGameOver(n) && depth == 0 ==> NegamaxSearch(n, depth, alpha, beta) == (QuiescenceSearch(n, alpha, beta), None)
  {
  }
}
