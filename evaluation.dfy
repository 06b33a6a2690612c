/**
 * The integer parts of the static evaluator: material values, the index
 * into the piece-square tables, the score of a finished game, and the
 * pawn-structure, bishop-pair and mobility terms. A board is given as the
 * bitboards the terms read (ascending square lists per colour) or, for
 * mobility, as the role and the number of attacked squares of each piece of
 * the side to move.
 */
module Evaluation {
  import opened Options
  import opened Chess
  import opened Scores
  import opened Utils
  import opened GameTree

  // ---------------------------------------------------------------------
  // Material

  /** The material value of a role. */
  function PieceValue(role: Role): (r: Score)
    ensures r.Centipawn? && 100 <= r.cp <= 10000
  {
    Centipawn(match role
      case Pawn => 100
      case Knight => 325
      case Bishop => 350
      case Rook => 500
      case Queen => 1000
      case King => 10000)
  }

  /** Material values strictly increase from Pawn to King. */
  lemma PieceValuesIncrease(a: Role, b: Role)
    requires RoleIndex(a) < RoleIndex(b)
    ensures PieceValue(a).cp < PieceValue(b).cp
  {
  }

  lemma PieceValueTable()
    ensures PieceValue(Pawn) == Centipawn(100) && PieceValue(Knight) == Centipawn(325)
    ensures PieceValue(Bishop) == Centipawn(350) && PieceValue(Rook) == Centipawn(500)
    ensures PieceValue(Queen) == Centipawn(1000) && PieceValue(King) == Centipawn(10000)
  {
  }

  // ---------------------------------------------------------------------
  // Piece-square tables

  /**
   * The index into a 64-entry piece-square table: White reads the table by
   * rank from its own side, Black reads it with the ranks mirrored.
   */
  function TableIndex(color: Color, sq: Square): (i: nat)
    ensures i < 64
  {
    var rank := if color == White then RankOf(sq) else 7 - RankOf(sq);
    rank * 8 + FileOf(sq)
  }

  /** The square on the same file with the rank mirrored. */
  function MirrorRank(sq: Square): Square
  {
    (7 - RankOf(sq)) * 8 + FileOf(sq)
  }

  /** White reads the entry of its own square. */
  lemma TableIndexWhite(sq: Square)
    ensures TableIndex(White, sq) == sq
  {
  }

  /** A black piece on rank r reads the entry of a white piece on rank 7 - r of the same file. */
  lemma TableIndexBlackMirrors(sq: Square)
    ensures TableIndex(Black, sq) == TableIndex(White, MirrorRank(sq))
    ensures RankOf(MirrorRank(sq)) == 7 - RankOf(sq) && FileOf(MirrorRank(sq)) == FileOf(sq)
  {
  }

  /** Each side reads a different entry for every square. */
  lemma TableIndexInjective(color: Color, a: Square, b: Square)
    requires TableIndex(color, a) == TableIndex(color, b)
    ensures a == b
  {
  }

  // ---------------------------------------------------------------------
  // Game over

  /** The score of a finished game, from White's side: half of MAX for the winner, zero for a draw. */
  function GameOverScore(o: Outcome): (r: Score)
    ensures o == Decisive(White) ==> r == Centipawn(16383)
    ensures o == Decisive(Black) ==> r == Centipawn(-16383)
    ensures o == Draw ==> r == ZERO
  {
    match o
    case Decisive(winner) => ApplyColorFactor(Div(MAX, 2), winner)
    case Draw => ZERO
  }

  /**
   * The evaluator's score of a position, from White's side: the game-over
   * score when the game is over, otherwise the node's static evaluation.
   */
  function CalculateScore(n: Node): Score
  {
    if IsGameOver(n) then GameOverScore(n.outcome.value) else n.eval
  }

  // ---------------------------------------------------------------------
  // Pawn structure

  /** The number of squares in the list that lie on file f. */
  function CountOnFile(squares: seq<Square>, f: int): (c: nat)
    ensures c <= |squares|
  {
    if |squares| == 0 then 0
    else CountOnFile(squares[..|squares| - 1], f) + (if FileOf(squares[|squares| - 1]) == f then 1 else 0)
  }

  /**
   * The isolation test as the source runs it on the k-th pawn: the per-file
   * counts then hold only the pawns up to and including the k-th one.
   */
  predicate IsolatedAsWritten(pawns: seq<Square>, k: nat)
    requires k < |pawns|
  {
    var file := FileOf(pawns[k]);
    var seen := pawns[..k + 1];
    (file == 0 || CountOnFile(seen, file - 1) == 0) && (file == 7 || CountOnFile(seen, file + 1) == 0)
  }

  /** How many of the first k pawns the source penalises as isolated. */
  function IsolatedCount(pawns: seq<Square>, k: nat): (c: nat)
    requires k <= |pawns|
    ensures c <= k
  {
    if k == 0 then 0 else IsolatedCount(pawns, k - 1) + (if IsolatedAsWritten(pawns, k - 1) then 1 else 0)
  }

  /** The pawns beyond the first on a file. */
  function Excess(count: nat): nat
  {
    if count > 1 then count - 1 else 0
  }

  /** The excess pawns on files 0 up to f - 1. */
  function DoubledCount(pawns: seq<Square>, f: nat): nat
    requires f <= 8
  {
    if f == 0 then 0 else DoubledCount(pawns, f - 1) + Excess(CountOnFile(pawns, f - 1))
  }

  /** Each file has fewer excess pawns than pawns. */
  lemma {:induction false} DoubledCountBound(pawns: seq<Square>, f: nat)
    requires f <= 8
    ensures DoubledCount(pawns, f) <= f * |pawns|
  {
    if f > 0 {
      DoubledCountBound(pawns, f - 1);
      assert (f - 1) * |pawns| + |pawns| == f * |pawns|;
    }
  }

  /** A penalty against one side, as seen from White. */
  function Against(color: Color, penalty: int): int
  {
    if color == White then -penalty else penalty
  }

  /** One side's pawn-structure term: 15 per isolated pawn and 20 per excess pawn, against that side. */
  function PawnTerm(color: Color, pawns: seq<Square>): int
  {
    Against(color, 15 * IsolatedCount(pawns, |pawns|) + 20 * DoubledCount(pawns, 8))
  }

  /** The per-file pawn counts, file by file. */
  function FileCounts(squares: seq<Square>): (counts: seq<int>)
    ensures |counts| == 8
    ensures forall f :: 0 <= f < 8 ==> counts[f] == CountOnFile(squares, f)
  {
    seq(8, f => CountOnFile(squares, f))
  }

  /** Counting one more square adds one on its file and nothing elsewhere. */
  lemma FileCountsStep(squares: seq<Square>, k: nat)
    requires k < |squares|
    ensures FileCounts(squares[..k + 1]) == FileCounts(squares[..k])[FileOf(squares[k]) := FileCounts(squares[..k])[FileOf(squares[k])] + 1]
  {
    assert squares[..k + 1][..k] == squares[..k];
  }

  /** A side's pawn term is bounded by its number of pawns. */
  lemma PawnTermBound(color: Color, pawns: seq<Square>)
    requires IsBitboard(pawns)
    ensures -11200 <= PawnTerm(color, pawns) <= 11200
  {
    BitboardSize(pawns);
    assert IsolatedCount(pawns, |pawns|) <= 64;
    DoubledCountBound(pawns, 8);
  }

  /** The pawn-structure score the source computes, from White's side; it always fits in an i16. */
  function PawnStructureScore(whitePawns: seq<Square>, blackPawns: seq<Square>): (s: int)
    requires IsBitboard(whitePawns) && IsBitboard(blackPawns)
    ensures I16_MIN <= s <= I16_MAX
  {
    PawnTermBound(White, whitePawns);
    PawnTermBound(Black, blackPawns);
    PawnTerm(White, whitePawns) + PawnTerm(Black, blackPawns)
  }

  /** The source's isolation test on the running counts is the as-written predicate. */
  lemma IsolationTest(pawns: seq<Square>, k: nat, counts: seq<int>)
    requires k < |pawns| && counts == FileCounts(pawns[..k + 1])
    ensures var file := FileOf(pawns[k]);
      ((file == 0 || counts[file - 1] == 0) && (file == 7 || counts[file + 1] == 0)) <==> IsolatedAsWritten(pawns, k)
  {
  }

  /** Testing the k-th pawn adds the source's isolation charge, or nothing. */
  lemma IsolatedStep(color: Color, pawns: seq<Square>, k: nat)
    requires k < |pawns|
    ensures Against(color, 15 * IsolatedCount(pawns, k + 1)) ==
      Against(color, 15 * IsolatedCount(pawns, k)) + (if IsolatedAsWritten(pawns, k) then (if color == White then -15 else 15) else 0)
  {
  }

  /** Charging file f adds the source's doubled-pawn charge for it, or nothing. */
  lemma DoubledStep(color: Color, pawns: seq<Square>, f: nat, isolated: int)
    requires f < 8
    ensures var count := CountOnFile(pawns, f);
      Against(color, isolated + 20 * DoubledCount(pawns, f + 1)) ==
      Against(color, isolated + 20 * DoubledCount(pawns, f)) + (if count > 1 then -ColorFactor(color) * 20 * (count - 1) else 0)
  {
  }

  /**
   * The source's pass over one side's pawns: count pawns per file while
   * testing each pawn for isolation, then charge the doubled pawns.
   */
  method EvaluatePawnSide(color: Color, pawns: seq<Square>) returns (term: int)
    ensures term == PawnTerm(color, pawns)
  {
    term := 0;
    var files := new int[8](_ => 0);
    assert files[..] == FileCounts(pawns[..0]);
    for k := 0 to |pawns|
      invariant files[..] == FileCounts(pawns[..k])
      invariant term == Against(color, 15 * IsolatedCount(pawns, k))
    {
      var file := FileOf(pawns[k]);
      FileCountsStep(pawns, k);
      files[file] := files[file] + 1;
      IsolationTest(pawns, k, files[..]);
      IsolatedStep(color, pawns, k);
      if (file == 0 || files[file - 1] == 0) && (file == 7 || files[file + 1] == 0) {
        term := term + if color == White then -15 else 15;
      }
    }
    assert pawns[..|pawns|] == pawns;
    var doubled := ChargeDoubledPawns(color, files, pawns);
    term := term + doubled;
  }

  /** The source's doubled-pawn pass over the per-file counts of one side. */
  method ChargeDoubledPawns(color: Color, files: array<int>, ghost pawns: seq<Square>) returns (charge: int)
    requires files[..] == FileCounts(pawns)
    ensures charge == Against(color, 20 * DoubledCount(pawns, 8))
  {
    charge := 0;
    for f := 0 to 8
      invariant charge == Against(color, 20 * DoubledCount(pawns, f))
    {
      var count := files[f];
      DoubledStep(color, pawns, f, 0);
      if count > 1 {
        charge := charge + -ColorFactor(color) * 20 * (count - 1);
      }
    }
  }

  /** The source's pawn-structure evaluation: both sides' pawn terms, from White's side. */
  method EvaluatePawnStructure(whitePawns: seq<Square>, blackPawns: seq<Square>) returns (r: Score)
    requires IsBitboard(whitePawns) && IsBitboard(blackPawns)
    ensures r == Centipawn(PawnStructureScore(whitePawns, blackPawns))
  {
    var score := 0;
    var colors := [White, Black];
    for c := 0 to 2
      invariant score == (if c == 0 then 0 else PawnTerm(White, whitePawns)) + (if c == 2 then PawnTerm(Black, blackPawns) else 0)
    {
      var color := colors[c];
      var term := EvaluatePawnSide(color, if color == White then whitePawns else blackPawns);
      score := score + term;
    }
    PawnTermBound(White, whitePawns);
    PawnTermBound(Black, blackPawns);
    r := Centipawn(score);
  }

  /** With no pawns on the board the pawn structure scores zero. */
  lemma {:induction false} NoPawnsScoreZero()
    ensures PawnStructureScore([], []) == 0
  {
    assert DoubledCount([], 8) == 0 by {
      NoPawnsNoDoubled(8);
    }
  }

  lemma {:induction false} NoPawnsNoDoubled(f: nat)
    requires f <= 8
    ensures DoubledCount([], f) == 0
  {
    if f > 0 {
      NoPawnsNoDoubled(f - 1);
    }
  }

  /** Swapping the two sides' pawns negates the pawn-structure score. */
  lemma PawnStructureAntisymmetric(whitePawns: seq<Square>, blackPawns: seq<Square>)
    requires IsBitboard(whitePawns) && IsBitboard(blackPawns)
    ensures PawnStructureScore(blackPawns, whitePawns) == -PawnStructureScore(whitePawns, blackPawns)
  {
  }

  /** The evidently intended isolation test: no friendly pawn at all on an adjacent file. */
  predicate IsolatedIntended(pawns: seq<Square>, k: nat)
    requires k < |pawns|
  {
    var file := FileOf(pawns[k]);
    (file == 0 || CountOnFile(pawns, file - 1) == 0) && (file == 7 || CountOnFile(pawns, file + 1) == 0)
  }

  function IsolatedIntendedCount(pawns: seq<Square>, k: nat): (c: nat)
    requires k <= |pawns|
    ensures c <= k
  {
    if k == 0 then 0 else IsolatedIntendedCount(pawns, k - 1) + (if IsolatedIntended(pawns, k - 1) then 1 else 0)
  }

  /** One side's pawn term with the intended isolation test. */
  function PawnTermIntended(color: Color, pawns: seq<Square>): int
  {
    Against(color, 15 * IsolatedIntendedCount(pawns, |pawns|) + 20 * DoubledCount(pawns, 8))
  }

  /** The pawn has a friendly pawn on a neighbouring file. */
  predicate HasNeighbour(pawns: seq<Square>, k: nat)
    requires k < |pawns|
  {
    exists j :: 0 <= j < |pawns| && (FileOf(pawns[j]) == FileOf(pawns[k]) + 1 || FileOf(pawns[j]) + 1 == FileOf(pawns[k]))
  }

  lemma {:induction false} CountOnFilePositive(squares: seq<Square>, j: nat)
    requires j < |squares|
    ensures CountOnFile(squares, FileOf(squares[j])) > 0
  {
    if j < |squares| - 1 {
      CountOnFilePositive(squares[..|squares| - 1], j);
    }
  }

  /** With the intended test, a pawn that has a friendly pawn on a neighbouring file is never penalised. */
  lemma IntendedSparesNeighbours(pawns: seq<Square>, k: nat)
    requires k < |pawns| && HasNeighbour(pawns, k)
    ensures !IsolatedIntended(pawns, k)
  {
    var j :| 0 <= j < |pawns| && (FileOf(pawns[j]) == FileOf(pawns[k]) + 1 || FileOf(pawns[j]) + 1 == FileOf(pawns[k]));
    CountOnFilePositive(pawns, j);
  }

  /** With the intended test, when every pawn has a neighbour none of them is penalised. */
  lemma {:induction false} IntendedCountNeighboured(pawns: seq<Square>, k: nat)
    requires k <= |pawns|
    requires forall i :: 0 <= i < |pawns| ==> HasNeighbour(pawns, i)
    ensures IsolatedIntendedCount(pawns, k) == 0
  {
    if k > 0 {
      IntendedCountNeighboured(pawns, k - 1);
      IntendedSparesNeighbours(pawns, k - 1);
    }
  }

  /**
   * As written, the isolation test misses neighbours iterated later: with
   * white pawns on a2 and b3 each pawn has a neighbour, yet a2 is penalised.
   */
  lemma IsolatedAsWrittenMissesLaterNeighbours()
    ensures IsBitboard([8, 17])
    ensures HasNeighbour([8, 17], 0) && HasNeighbour([8, 17], 1)
    ensures IsolatedCount([8, 17], 2) == 1
    ensures PawnTerm(White, [8, 17]) == -15
    ensures IsolatedIntendedCount([8, 17], 2) == 0
    ensures PawnTermIntended(White, [8, 17]) == 0
  {
    var ps: seq<Square> := [8, 17];
    assert ps[..1] == [8];
    assert ps[..2] == ps;
    assert ps[..2][..1] == [8];
    assert FileOf(8) == 0 && FileOf(17) == 1;
    assert HasNeighbour(ps, 0) by { assert FileOf(ps[1]) == FileOf(ps[0]) + 1; }
    assert HasNeighbour(ps, 1) by { assert FileOf(ps[0]) + 1 == FileOf(ps[1]); }
    assert CountOnFile(ps[..1], 1) == 0;
    assert CountOnFile(ps[..2], 0) == 1;
    assert IsolatedAsWritten(ps, 0);
    assert !IsolatedAsWritten(ps, 1);
    assert DoubledCount(ps, 8) == 0;
    IntendedCountNeighboured(ps, 2);
  }

  // ---------------------------------------------------------------------
  // Bishop pair

  /** 30 for the side that alone holds two or more bishops, as seen from White. */
  method EvaluateBishopPair(whiteBishops: seq<Square>, blackBishops: seq<Square>) returns (r: Score)
    ensures |whiteBishops| >= 2 && |blackBishops| < 2 ==> r == Centipawn(30)
    ensures |blackBishops| >= 2 && |whiteBishops| < 2 ==> r == Centipawn(-30)
    ensures (|whiteBishops| >= 2) == (|blackBishops| >= 2) ==> r == ZERO
  {
    var score := 0;
    var colors := [White, Black];
    for c := 0 to 2
      invariant score == (if c >= 1 && |whiteBishops| >= 2 then 30 else 0) + (if c == 2 && |blackBishops| >= 2 then -30 else 0)
    {
      var color := colors[c];
      var bishops := if color == White then whiteBishops else blackBishops;
      if |bishops| >= 2 {
        score := score + if color == White then 30 else -30;
      }
    }
    r := Centipawn(score);
  }

  // ---------------------------------------------------------------------
  // Mobility

  /** The weight of one attacked square, per role. */
  function MobilityWeight(role: Role): (w: nat)
    ensures w <= 3
    ensures w == 0 <==> role == Pawn || role == King
  {
    match role
    case Knight => 2
    case Bishop => 3
    case Rook => 2
    case Queen => 1
    case _ => 0
  }

  lemma MobilityWeightTable()
    ensures MobilityWeight(Knight) == 2 && MobilityWeight(Bishop) == 3
    ensures MobilityWeight(Rook) == 2 && MobilityWeight(Queen) == 1
    ensures MobilityWeight(Pawn) == 0 && MobilityWeight(King) == 0
  {
  }

  /** A piece of the side to move: its role and how many squares it attacks. */
  datatype PieceMobility = PieceMobility(role: Role, attacks: nat)

  /** The weighted attack count of the first k pieces. */
  function MobilitySum(pieces: seq<PieceMobility>, k: nat): (m: nat)
    requires k <= |pieces|
    requires forall i :: 0 <= i < |pieces| ==> pieces[i].attacks <= 64
    ensures m <= 192 * k
  {
    if k == 0 then 0 else MobilitySum(pieces, k - 1) + pieces[k - 1].attacks * MobilityWeight(pieces[k - 1].role)
  }

  /**
   * The mobility term: the weighted attack count of the side to move's
   * pieces, as seen from White.
   */
  method EvaluateMobility(turn: Color, pieces: seq<PieceMobility>) returns (r: Score)
    requires |pieces| <= 64
    requires forall i :: 0 <= i < |pieces| ==> pieces[i].attacks <= 64
    ensures r == ApplyColorFactor(Centipawn(MobilitySum(pieces, |pieces|)), turn)
  {
    var mobility := 0;
    for i := 0 to |pieces|
      invariant mobility == MobilitySum(pieces, i)
    {
      var piece := pieces[i];
      mobility := mobility + piece.attacks * MobilityWeight(piece.role);
    }
    r := ApplyColorFactor(Centipawn(mobility), turn);
  }

  /** Pawns and kings add nothing to mobility, whatever they attack. */
  lemma MobilityIgnoresPawnsAndKings(pieces: seq<PieceMobility>, p: PieceMobility)
    requires forall i :: 0 <= i < |pieces| ==> pieces[i].attacks <= 64
    requires p.role == Pawn || p.role == King
    requires p.attacks <= 64
    ensures MobilitySum(pieces + [p], |pieces| + 1) == MobilitySum(pieces, |pieces|)
  {
    MobilitySumPrefix(pieces, [p], |pieces|);
  }

  lemma {:induction false} MobilitySumPrefix(pieces: seq<PieceMobility>, more: seq<PieceMobility>, k: nat)
    requires k <= |pieces|
    requires forall i :: 0 <= i < |pieces| ==> pieces[i].attacks <= 64
    requires forall i :: 0 <= i < |pieces + more| ==> (pieces + more)[i].attacks <= 64
    ensures MobilitySum(pieces + more, k) == MobilitySum(pieces, k)
  {
    if k > 0 {
      MobilitySumPrefix(pieces, more, k - 1);
    }
  }
}
