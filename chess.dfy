/**
 * The few rules-engine types the core names directly: the two sides, the
 * piece roles and the 64 squares. Everything else about positions (move
 * generation, check detection, hashing) is not part of this model and is
 * supplied to the search as an explicit game tree (module GameTree).
 */
module Chess {

  datatype Color = White | Black

  /** The piece roles, in the declaration order of the rules engine. */
  datatype Role = Pawn | Knight | Bishop | Rook | Queen | King

  /** The position of a role in the declaration order, from 1 (Pawn) to 6 (King). */
  function RoleIndex(r: Role): nat
  {
    match r
    case Pawn => 1
    case Knight => 2
    case Bishop => 3
    case Rook => 4
    case Queen => 5
    case King => 6
  }

  /** A square index: a1 = 0, b1 = 1, ..., h8 = 63. */
  type Square = x: int | 0 <= x < 64

  /** The file of a square, 0 for file A up to 7 for file H. */
  function FileOf(sq: Square): nat { sq % 8 }

  /** The rank of a square, 0 for the first rank up to 7 for the eighth. */
  function RankOf(sq: Square): nat { sq / 8 }

  /**
   * A bitboard's squares in the order the rules engine iterates them:
   * strictly ascending square indices.
   */
  predicate IsBitboard(squares: seq<Square>)
  {
    forall i, j :: 0 <= i < j < |squares| ==> squares[i] < squares[j]
  }

  /** A bitboard holds at most 64 squares. */
  lemma {:induction false} BitboardSize(squares: seq<Square>)
    requires IsBitboard(squares)
    ensures |squares| <= 64
  {
    if |squares| > 0 {
      AscendingLowerBound(squares, |squares| - 1);
    }
  }

  lemma {:induction false} AscendingLowerBound(squares: seq<Square>, k: nat)
    requires IsBitboard(squares)
    requires k < |squares|
    ensures squares[k] >= k
  {
    if k > 0 {
      AscendingLowerBound(squares, k - 1);
    }
  }
}
