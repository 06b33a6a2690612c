# Voin chess engine core, in Dafny

This project models the rule-independent core of the Voin chess engine and proves its properties:

- the `Score` type: a centipawn value in an `i16`, or a distance to mate in plies in an `i8`. It covers the hand-written order, saturating addition, negation, scalar multiplication and division, the colour flip and the protocol text.
- the always-replace transposition table.
- the fixed-depth, fail-soft alpha-beta negamax with its capture-only, fail-hard quiescence search, MVV-LVA capture order and capture/promotion move order.
- the integer parts of the static evaluator:
  - the material values;
  - the piece-square-table index;
  - the game-over score;
  - the pawn-structure, bishop-pair and mobility terms.
- the colour factor and `clamp` helpers.
- the text board printer.

The rules engine is not part of this model. A position is a node of an explicit game tree (module `GameTree`). A node records:

- whether the game is over, and how;
- the side to move;
- the static evaluation;
- the legal moves in generation order.

Each move records its mover, its victim, its promotion and the child node.

The search theorems assume `GameTree.Sound` of the root. It states what the rules engine and the evaluator guarantee of every position below the root:

- a position that is not over has at least one legal move;
- its static evaluation is a proper score, that is neither `Mate(0)`, `MIN` nor `Mate(-128)`.

The search is written twice:

- as functions that state what it returns, call by call;
- as methods with the source's loops, early returns and cut-off, proved equal to those functions.

Beside them, unpruned reference values (`QuiescenceValue`, `NegamaxValue`) are defined. Lemmas prove that the pruned search bounds them as alpha-beta promises, and equals them inside the window.

Files, one module each:

- `options.dfy` holds Option.
- `chess.dfy` holds colours, roles and squares.
- `decimal.dfy` holds integer text.
- `utils.dfy` holds the colour factor and `clamp`.
- `score.dfy` holds the score type.
- `game_tree.dfy` holds the game tree.
- `sorting.dfy` holds the stable sort the source calls.
- `evaluation.dfy` holds the evaluator terms.
- `transposition.dfy` holds the table.
- `alpha_beta.dfy` holds the window reasoning of one loop step.
- `search.dfy` holds the search.
- `display.dfy` holds the board printer.

Behaviours of the code a reader may not expect:

- A winning mate ranks above `MAX`, not below it (src/score.rs:94-100).
- `Display` prints the raw ply count of a mate, not a move count (src/score.rs:54).
- Quiescence is fail-hard: it returns exactly `beta` on a cut-off (src/search.rs:16-18, 39-41).
- At a finished game, quiescence returns the game-over score from White's side, not from the side to move (src/search.rs:7-11). This is the third row of "## Findings".
- Mate distances are not incremented on the way up.
- The search neither probes nor fills the transposition table.

## Model

| member | source | states |
|---|---|---|
| Utils.ColorFactor | src/utils.rs:3-9 | the factor is 1 or -1, and it is 1 exactly for White |
| Utils.Clamp | src/utils.rs:11-20 | under `low < high` the result lies in the closed interval. It is the value when inside, `low` below and `high` above |
| Utils.ClampIdempotent | src/utils.rs:11-20 | clamping a clamped value changes nothing |
| Utils.ClampMonotone | src/utils.rs:11-20 | clamping preserves the order of the clamped values |
| Scores.IsMin | src/score.rs:28-31 | `is_min`: a centipawn score of `i16::MIN`. It has no contract of its own; `Scores.ScorePredicates` states its meaning |
| Scores.IsMax | src/score.rs:33-36 | `is_max`: a centipawn score of `i16::MAX`. It has no contract of its own; `Scores.ScorePredicates` states its meaning |
| Scores.IsNegative | src/score.rs:38-44 | `is_negative`: the payload of either variant is negative. It has no contract of its own; `Scores.ScorePredicates` states its meaning |
| Scores.ScorePredicates | src/score.rs:28-44 | `is_min` holds exactly of `MIN` and `is_max` exactly of `MAX`. `is_negative` holds exactly of the scores below `ZERO` in the source's order |
| Scores.Neg | src/score.rs:59-71 | negation keeps the variant |
| Scores.NegInvolution | src/score.rs:59-71 | negating twice gives back every score, overflowing ones included |
| Scores.NegProper | src/score.rs:59-71 | negation keeps a proper score proper, and a nonzero proper score changes sign |
| Scores.NegOverflows | src/score.rs:59-71 | `-MIN == MIN` and `-Mate(-128) == Mate(-128)`. So negation does not reverse the order there: `MIN < ZERO` and also `-MIN < -ZERO` |
| Scores.ApplyColorFactor | src/score.rs:19-26 | the identity for White and negation for Black |
| Scores.ApplyColorFactorTwice | src/score.rs:19-26 | flipping twice for the same colour is the identity |
| Scores.IntCmp | src/score.rs:92 | `Less`, `Equal` and `Greater` each hold exactly under `<`, `==` and `>` |
| Scores.Cmp | src/score.rs:79-110 | the comparison says `Equal` exactly for equal scores |
| Scores.Max | src/search.rs:19 | Rust's `max` returns one of its arguments, and that argument is at least the other |
| Scores.StandingInjective | src/score.rs:79-110 | distinct scores have distinct ranks in the reference order |
| Scores.StandingOfNeg | src/score.rs:59-110 | on proper scores negation mirrors the rank |
| Scores.CmpIsStandingOrder | src/score.rs:79-110 | the comparison is the reference order, except between `Mate(0)` and a losing mate |
| Scores.CmpAntisymmetric | src/score.rs:79-110 | swapping the arguments flips the result, for every pair of scores |
| Scores.CmpTransitive | src/score.rs:79-110 | without `Mate(0)` both `<=` and `<` are transitive |
| Scores.MateZeroBreaksTransitivity | src/score.rs:83-91 | `Mate(-3) < Centipawn(10) < Mate(0) < Mate(-3)` |
| Scores.OrderedCmpIsStanding | src/score.rs:79-110 | on all ordered scores the comparison is the reference order |
| Scores.Compare | src/score.rs:73-110 | on ordered scores, `<`, `<=`, `>`, `>=` and `max` each follow the reference order |
| Scores.StandingAboveMin | src/score.rs:93-95 | `MIN` is the unique bottom of the order, and every proper score lies strictly above it |
| Scores.NegReversesOrder | src/score.rs:59-110 | on proper scores `cmp(-a, -b) == cmp(b, a)` |
| Scores.SameSignMatesReversed | src/score.rs:83-91 | two winning or two losing mates compare as their payloads reversed |
| Scores.MateAgainstCentipawn | src/score.rs:93-101 | a winning mate is above every centipawn, `MAX` included. A losing mate is below every centipawn except `MIN`, and above `MIN` |
| Scores.CentipawnOrder | src/score.rs:92 | centipawns compare as their `i16` values |
| Scores.OrderExamples | src/score.rs:217-235 | the comparisons the source's tests assert, in both directions |
| Scores.Add | src/score.rs:112-140 | the sum is a mate exactly when an operand is |
| Scores.AddCommutative | src/score.rs:112-140 | addition is commutative |
| Scores.AddSaturates | src/score.rs:121-122 | a centipawn sum is the exact sum clamped to the `i16` range |
| Scores.MateAbsorbsCentipawn | src/score.rs:118-120 | a mate plus a centipawn, either way round, is that mate |
| Scores.AddExamples | src/score.rs:248-256 | the sums and differences the source's tests assert, with saturation of `MAX + MAX` and `MIN + MIN` |
| Scores.Sub | src/score.rs:142-149 | the difference is a mate exactly when an operand is |
| Scores.SubSaturates | src/score.rs:142-149 | a centipawn difference is the exact difference clamped to the `i16` range, except that subtracting `MIN` adds `MIN`, its wrapped negation. So `ZERO - MIN == MIN` |
| Scores.TruncDiv | src/score.rs:158-166 | Rust's `/`, rounding toward zero: the remainder is smaller than the divisor in magnitude, and is zero or has the dividend's sign. So the quotient is no larger in magnitude than the dividend, and at most half of it for a divisor of magnitude 2 or more. A nonzero quotient has the sign of the operands' product |
| Scores.TruncDivExact | src/score.rs:158-177 | dividing an exact multiple of k by k gives back the factor |
| Scores.Div | src/score.rs:158-166 | division keeps the variant |
| Scores.Mul | src/score.rs:168-177 | multiplication keeps the variant |
| Scores.MulByMinusOne | src/score.rs:168-177 | where the product does not overflow, multiplying by -1 is negation |
| Scores.MulThenDiv | src/score.rs:158-177 | dividing by the factor undoes a multiplication that does not overflow, and that division is defined |
| Scores.HalfMax | src/search.rs:104 | `MAX / 2 == Centipawn(16383)` and `-MAX / 2 == Centipawn(-16383)` |
| Scores.Display | src/score.rs:48-57 | every text the engine prints for a score starts with "score " |
| Scores.DisplayCases | src/score.rs:48-57 | `MAX` prints "score upperbound" and `MIN` "score lowerbound". Other centipawns print "score cp v", and mates "score mate v" with the raw ply count |
| Scores.DisplayInjective | src/score.rs:48-57 | different scores print differently |
| Decimal.NatToString | src/score.rs:53-54 | the text of a natural number is a nonempty string of digits |
| Decimal.ParseNatToString | src/score.rs:53-54 | reading back the digits of a natural number gives the number |
| Decimal.IntToString | src/score.rs:53-54 | the text of an integer is nonempty, and it starts with '-' exactly for a negative number |
| Decimal.IntToStringRoundTrip | src/score.rs:53-54 | reading back the text of an integer gives the integer |
| Decimal.IntToStringInjective | src/score.rs:53-54 | different integers have different texts |
| Sorting.Insert | src/search.rs:28-32 | insertion adds one element |
| Sorting.InsertPermutes | src/search.rs:28-32 | insertion adds exactly the inserted element to the multiset |
| Sorting.InsertSorted | src/search.rs:28-32 | insertion into a non-increasing sequence keeps it non-increasing |
| Sorting.SortDesc | src/search.rs:66-76 | sorting keeps the length |
| Sorting.SortDescPermutes | src/search.rs:66-76 | sorting is a permutation |
| Sorting.SortDescSorted | src/search.rs:66-76 | the sorted keys are non-increasing |
| Sorting.SortDescMembers | src/search.rs:66-76 | sorting keeps exactly the elements it is given |
| Evaluation.PieceValue | src/evaluation.rs:143-152 | every value is a centipawn from 100 to 10000 |
| Evaluation.PieceValuesIncrease | src/evaluation.rs:143-152 | values strictly increase from Pawn to King |
| Evaluation.PieceValueTable | src/evaluation.rs:143-152 | Pawn 100, Knight 325, Bishop 350, Rook 500, Queen 1000, King 10000 |
| Evaluation.TableIndex | src/evaluation.rs:166-171 | the index lies in `[0, 64)` |
| Evaluation.TableIndexWhite | src/evaluation.rs:166-171 | White reads the entry of its own square |
| Evaluation.TableIndexBlackMirrors | src/evaluation.rs:166-171 | a black piece on rank r reads the entry of a white piece on rank 7 - r of the same file |
| Evaluation.TableIndexInjective | src/evaluation.rs:166-171 | each side reads a different entry for every square |
| Evaluation.GameOverScore | src/evaluation.rs:180-185 | a win scores plus or minus `Centipawn(16383)` by winner, and a draw scores `ZERO` |
| Evaluation.CalculateScore | src/evaluation.rs:179-185 | the evaluator's White-relative score: the game-over score at a finished game, else the node's static evaluation, which stands for the floating-point sum. It has no contract of its own |
| Evaluation.CountOnFile | src/evaluation.rs:227-228 | a file holds no more pawns than the list |
| Evaluation.FileCounts | src/evaluation.rs:225-228 | eight counters, each the number of pawns on its file |
| Evaluation.FileCountsStep | src/evaluation.rs:227-228 | counting one more pawn adds one on its file and nothing elsewhere |
| Evaluation.IsolatedAsWritten | src/evaluation.rs:229-231 | the source's isolation test on the k-th pawn, reading the counts of the pawns up to and including it. It has no contract of its own; `Evaluation.IsolationTest` ties it to the running counts |
| Evaluation.IsolatedCount | src/evaluation.rs:229-233 | no more pawns are penalised than were examined |
| Evaluation.IsolationTest | src/evaluation.rs:230-231 | the source's test on the running counts, files A and H short-circuited, is the as-written isolation predicate |
| Evaluation.IsolatedStep | src/evaluation.rs:229-233 | testing one pawn adds -15 for White or +15 for Black when it is penalised, else nothing |
| Evaluation.DoubledStep | src/evaluation.rs:237-241 | a file with `count > 1` adds `-20*(count-1)` for White and `+20*(count-1)` for Black, else nothing |
| Evaluation.DoubledCount | src/evaluation.rs:237-241 | the excess pawns beyond the first on files 0 up to f - 1. It has no contract of its own; `Evaluation.DoubledCountBound` bounds it |
| Evaluation.DoubledCountBound | src/evaluation.rs:237-241 | the excess pawns of f files number at most f times the pawns |
| Evaluation.EvaluatePawnSide | src/evaluation.rs:223-241 | the in-place array pass over one side, never out of bounds, computes that side's pawn term |
| Evaluation.ChargeDoubledPawns | src/evaluation.rs:237-241 | the pass over the per-file counts charges the doubled-pawn term |
| Evaluation.EvaluatePawnStructure | src/evaluation.rs:221-243 | the score is both sides' pawn terms from White's side |
| Evaluation.PawnStructureScore | src/evaluation.rs:221-243 | the pawn-structure sum always fits in an `i16` |
| Evaluation.PawnTerm | src/evaluation.rs:223-241 | one side's pawn term: 15 per isolated pawn and 20 per excess pawn, against that side. It has no contract of its own; `Evaluation.EvaluatePawnSide` is proved to compute it |
| Evaluation.PawnTermBound | src/evaluation.rs:221-243 | one side's term lies within 11200 either way |
| Evaluation.NoPawnsScoreZero | src/evaluation.rs:221-243 | without pawns the score is zero |
| Evaluation.NoPawnsNoDoubled | src/evaluation.rs:237-241 | without pawns no file has an excess pawn |
| Evaluation.PawnStructureAntisymmetric | src/evaluation.rs:221-243 | swapping the sides' pawns negates the score |
| Evaluation.IsolatedIntendedCount | src/evaluation.rs:229-233 | the intended count penalises no more pawns than were examined |
| Evaluation.IntendedSparesNeighbours | src/evaluation.rs:229-233 | with the intended test, a pawn with a friendly pawn on an adjacent file is never penalised |
| Evaluation.IntendedCountNeighboured | src/evaluation.rs:229-233 | with the intended test, when every pawn has a neighbour no pawn is penalised |
| Evaluation.IsolatedAsWrittenMissesLaterNeighbours | src/evaluation.rs:227-233 | white pawns on a2 and b3 each have a neighbour. As written a2 is still charged 15, while the intended test charges nothing |
| Evaluation.EvaluateBishopPair | src/evaluation.rs:267-276 | +30 if only White has two bishops or more, -30 if only Black does, 0 if both or neither |
| Evaluation.MobilityWeight | src/evaluation.rs:254-260 | a weight is at most 3, and it is zero exactly for pawns and kings |
| Evaluation.MobilityWeightTable | src/evaluation.rs:254-260 | Knight 2, Bishop 3, Rook 2, Queen 1, Pawn and King 0 |
| Evaluation.MobilitySum | src/evaluation.rs:251-262 | the weighted attack count of k pieces is at most 192 k |
| Evaluation.EvaluateMobility | src/evaluation.rs:246-265 | the loop computes the weighted attack count, turned to White's side |
| Evaluation.MobilityIgnoresPawnsAndKings | src/evaluation.rs:254-260 | a pawn or king adds nothing, whatever it attacks |
| Transposition.SlotOf | src/transposition.rs:33 | the slot lies inside the table |
| Transposition.Lookup | src/transposition.rs:32-35 | a hit carries the hash asked for and is the slot's content. It misses exactly when the slot is empty or holds another hash |
| Transposition.Store | src/transposition.rs:36-39 | the hash's slot holds the new entry, and every other slot is unchanged |
| Transposition.LookupAfterStore | src/transposition.rs:32-39 | a lookup right after an insertion under that hash returns the entry |
| Transposition.StoreKeepsOtherSlots | src/transposition.rs:36-39 | an insertion leaves lookups in other slots unchanged |
| Transposition.StoreEvictsCollisions | src/transposition.rs:36-39 | a different hash sharing the slot now misses |
| Transposition.StoreReplacesUnconditionally | src/transposition.rs:38 | whatever was stored before, the later insertion wins |
| Transposition.EmptySlotsMiss | src/transposition.rs:26-35 | a table of empty slots answers no lookup |
| Transposition.TranspositionTable.constructor | src/transposition.rs:26-31 | `size` slots, all empty |
| Transposition.TranspositionTable.Get | src/transposition.rs:32-35 | the lookup on the current slots, carrying the hash asked for |
| Transposition.TranspositionTable.Insert | src/transposition.rs:36-39 | the slots become the store of the new entry, and `get` of that hash returns it |
| AlphaBeta.WindowBoundStanding | src/search.rs:37-44 | the window bound in score terms means the same as in reference-order terms |
| AlphaBeta.WindowBoundExact | src/search.rs:37-44 | a bound whose value lies inside the window is that value |
| AlphaBeta.QuiescenceScoreStep | src/search.rs:37-44 | one capture either cuts off with an unpruned value at or above `beta`, or keeps the loop invariant |
| AlphaBeta.NegamaxStep | src/search.rs:81-95 | one move step on the ranks: a cut-off leaves the best score and the value at or above it, else the invariant holds |
| AlphaBeta.Raise | src/search.rs:84-91 | `if c > x { x = c }` raises x to the higher rank |
| AlphaBeta.NegamaxScoreStep | src/search.rs:81-95 | one move either lifts alpha to `beta` with best and value at or above `beta`, or keeps the loop invariant |
| Search.Captures | src/search.rs:22-25 | the captures are exactly the capture moves |
| Search.MvvLva | src/search.rs:29-30 | the integer capture key: ten times the victim's value less the mover's. It has no contract of its own; `Search.MvvLvaScoreIsInteger` ties it to the source's score arithmetic |
| Search.MvvLvaScore | src/search.rs:29-30 | the capture key in the source's score arithmetic, `victim * 10 - mover`. It has no contract of its own; `Search.MvvLvaScoreIsInteger` states its value |
| Search.MvvLvaScoreIsInteger | src/search.rs:29-30 | the source's capture key never saturates |
| Search.OrderedCaptures | src/search.rs:22-32 | only moves of the node are tried |
| Search.OrderedCapturesAreSortedCaptures | src/search.rs:22-32 | quiescence tries exactly the captures, each as often as generated, in non-increasing `10*victim - attacker` order |
| Search.OrderValue | src/search.rs:68-74 | the ordering value: 1000 plus the victim's value for a capture, plus 900 for a promotion. It has no contract of its own; `Search.OrderingKeyIsNegatedValue` bounds it and ties it to the key |
| Search.OrderingKey | src/search.rs:66-76 | the source's sort key, `-score`, in score arithmetic. It has no contract of its own; `Search.OrderingKeyIsNegatedValue` states its value |
| Search.OrderingKeyIsNegatedValue | src/search.rs:66-76 | the key is the negated ordering value: 1000 plus the victim for a capture, 900 more for a promotion |
| Search.OrderingKeysCompare | src/search.rs:66-76 | ascending keys are descending ordering values |
| Search.OrderedMoves | src/search.rs:65-76 | the ordered moves are moves of the node, as many as there are |
| Search.OrderedMovesAreSortedMoves | src/search.rs:65-76 | negamax tries every move once per generation, in non-increasing ordering value |
| Search.RelativeEval | src/search.rs:15 | the stand-pat score: the evaluator's White-relative score turned to the side to move. It has no contract of its own; `Search.RelativeEvalProper` states that it is proper |
| Search.QuiescenceSearch | src/search.rs:5-48 | what quiescence returns: the White-relative game-over score at a finished game, `beta` when standing pat reaches it, else the capture loop from `max(alpha, stand_pat)`. It has no contract of its own; the lemmas below state its properties, and `Search.Quiescence` is proved to compute it |
| Search.QuiescenceReply | src/search.rs:37 | a capture's score for its mover: the negated search of the child in the window from `-beta` to `-alpha`. It has no contract of its own |
| Search.QuiescenceLoop | src/search.rs:34-47 | the capture loop from the i-th capture: `beta` at the first reply at or above `beta`, otherwise alpha raised by each better reply. It has no contract of its own |
| Search.NegamaxSearch | src/search.rs:50-99 | what negamax returns: the side-relative evaluation at a finished game, quiescence at depth zero, else the move loop from `MIN`. It has no contract of its own; `Search.Negamax` is proved to compute it |
| Search.NegamaxReply | src/search.rs:81-82 | a move's score for its mover: the negated search of the child one ply shallower in the mirrored window. It has no contract of its own |
| Search.NegamaxLoop | src/search.rs:78-96 | the move loop: best score and move raised on a strictly better reply, alpha raised likewise, stopping once alpha reaches `beta`. It has no contract of its own |
| Search.Quiescence | src/search.rs:5-48 | the method with its loop and early returns computes the quiescence function |
| Search.Negamax | src/search.rs:50-99 | the method with its loop and break computes the negamax function, score and move |
| Search.RelativeEvalProper | src/search.rs:15 | the stand-pat score is proper |
| Search.QuiescenceProper | src/search.rs:5-48 | under a proper window the result is proper |
| Search.QuiescenceReplyProper | src/search.rs:37 | a capture's negated score is proper |
| Search.QuiescenceLoopProper | src/search.rs:34-47 | the capture loop's result is proper |
| Search.QuiescenceValueProper | src/search.rs:5-48 | the unpruned quiescence value is proper |
| Search.QuiescenceReplyValueProper | src/search.rs:37 | a capture's unpruned value is proper |
| Search.QuiescenceValueLoopGrows | src/search.rs:34-47 | the unpruned fold never falls below its start |
| Search.QuiescenceBoundsValue | src/search.rs:5-48 | the result is at least the value when it is at most `alpha`, at most the value when at least `beta`, and equal to it in between |
| Search.QuiescenceReplyBound | src/search.rs:37 | a capture's score bounds its unpruned value in the capture's window |
| Search.QuiescenceLoopBoundsValue | src/search.rs:34-47 | the loop bounds the unpruned fold of the remaining captures for the original window |
| Search.QuiescenceInterval | src/search.rs:19-47 | with `alpha <= beta` and stand-pat below `beta`, the result lies between `max(alpha, stand_pat)` and `beta` |
| Search.QuiescenceLoopInterval | src/search.rs:34-47 | the loop's result lies between the running alpha's lower bound and `beta` |
| Search.QuiescenceTerminal | src/search.rs:7-12 | at a finished game the result is `Centipawn(16383)` with the winner's sign, or `ZERO` for a draw, whatever the window |
| Search.QuiescenceStandPat | src/search.rs:15-18 | if stand-pat reaches `beta` the result is exactly `beta` |
| Search.QuiescenceMisjudgesMatingCapture | src/search.rs:7-11 | as written, a position where Black is mated scores +16383 for Black, the side to move. A pawn capturing a queen that mates therefore scores -16383 for White, and quiescence at a sound root returns `ZERO` instead of the cut-off |
| Search.TerminalScoreIntended | src/search.rs:7-11 | the intended terminal score: the game-over score turned to the side to move. It has no contract of its own |
| Search.TerminalScoreIntendedIsRelative | src/search.rs:7-11 | the intended terminal score is +16383 when the side to move won, -16383 when it lost, `ZERO` for a draw, and equals negamax's result at a finished game |
| Search.NegamaxLeaves | src/search.rs:51-59 | `(eval, None)` at a finished game, and `(quiescence, None)` at depth zero |
| Search.NegamaxProperMove | src/search.rs:50-99 | the score is proper. With depth left at a game not over, the move is one of the node's moves, else there is no move |
| Search.NegamaxReplyProper | src/search.rs:81-82 | a move's negated score is proper |
| Search.NegamaxLoopProperMove | src/search.rs:78-96 | the loop returns a proper score and a move of the node |
| Search.NegamaxValueProper | src/search.rs:50-99 | the unpruned negamax value is proper |
| Search.NegamaxReplyValueProper | src/search.rs:81-82 | a move's unpruned value is proper |
| Search.NegamaxValueLoopGrows | src/search.rs:78-96 | the unpruned fold never falls below its start and is proper |
| Search.NegamaxBoundsValue | src/search.rs:50-99 | fail-soft: the score is at least the value at or below `alpha`, at most the value at or above `beta`, and equal to it in between |
| Search.NegamaxReplyBound | src/search.rs:81-82 | a move's score bounds its unpruned value in the move's window |
| Search.NegamaxLoopBoundsValue | src/search.rs:78-96 | the move loop bounds the unpruned fold of the remaining moves for the original window |
| Search.NegamaxLoopExaminesPrefix | src/search.rs:89-95 | the loop examines a prefix of the remaining moves, at least one when any are left. Run on that prefix alone it gives the same result, so no move after the cut-off affects it |
| Search.NegamaxLoopBestOfExamined | src/search.rs:84-87 | the score is the maximum of the starting score and the examined move scores |
| Search.NegamaxLoopBestMoveExamined | src/search.rs:84-87 | the move is the starting one, or an examined move whose score is the returned score |
| Search.FindBestMove | src/search.rs:102-106 | `None` stands for the source's `expect("No legal moves available")` panic. At a finished game the answer is `None` |
| Search.FindBestMoveSound | src/search.rs:102-106 | a move of the node exactly when the game is not over, with the score turned to White's side. Turned back, it bounds the depth-4 value in the window from -16383 to 16383, and equals it inside |
| Display.Split | src/display.rs:6 | splitting yields at least one piece |
| Display.SplitCount | src/display.rs:6 | there is one piece more than there are separators |
| Display.SplitPieces | src/display.rs:6 | no piece holds the separator, and every character of a piece occurs in the input |
| Display.SplitJoin | src/display.rs:6 | joining the pieces with the separator gives back the input |
| Display.Blanks | src/display.rs:13 | k characters, all blanks |
| Display.PushBlanks | src/display.rs:13 | pushing one blank at a time appends exactly n blanks |
| Display.ExpandRow | src/display.rs:11-17 | a row with each digit widened into that many blanks. It has no contract of its own; `Display.ExpandRowContents` states its meaning |
| Display.ExpandRowAppend | src/display.rs:11-17 | the expansion of a concatenation is the concatenation of the expansions |
| Display.ExpandRowContents | src/display.rs:11-17 | each digit d becomes d blanks and every other character is copied: the width, no digits, the blank count, and the other characters in order and number |
| Display.ExpandRowPlain | src/display.rs:11-17 | a row without digits is copied verbatim |
| Display.LineAppended | src/display.rs:10-18 | the three pushes for a row append exactly that row's line: its index, a bar, the expanded row, a bar and a line break |
| Display.RowLine | src/display.rs:10-18 | the line of row i: its index, a bar, the expanded row, a bar and a line break. It has no contract of its own |
| Display.RowLines | src/display.rs:9-19 | the lines of the rows, indexed from 0. It has no contract of its own; `Display.RowLinesNewlines` counts them |
| Display.Rendered | src/display.rs:4-21 | the rule, the row lines of the '/'-separated placement field, the rule and the file label. It has no contract of its own; `Display.DisplayBoard` is proved to build it |
| Display.DisplayBoard | src/display.rs:4-24 | the nested loops build exactly the rendered board |
| Display.RowLinesNewlines | src/display.rs:9-19 | rows without line breaks give one line each |
| Display.RenderedFrame | src/display.rs:8-21 | the board starts with `" ==========\n"` and ends with `" ==========\n  ABCDFGHI "` |
| Display.RenderedLineCount | src/display.rs:6-19 | the row lines number the '/' characters plus one |
| Display.RowLineColumn | src/display.rs:10-18 | in the line of a row with a one-digit index, the square of file f is character 2 + f |
| Display.FileLabelAsWritten | src/display.rs:21 | the printed label has the right letters under files A to D, but 'F' under file E and 'I' under file H |
| Display.FileLabelIntended | src/display.rs:21 | the intended label `"  ABCDEFGH "` has the letter of every file under its column |

## Left out

- src/main.rs, the protocol command loop, is not part of this model. Neither are the rules engine's move generation, move making, outcome and check detection, attack sets and hashing. They are replaced by the game tree given to the search.
- The floating-point code is not modelled:
  - the phase interpolation of the positional bonus;
  - the game phase;
  - king safety;
  - hence the full sum of `calculate_score`.

  A node's static evaluation is an input, and the piece-square-table contents are referenced only through `Evaluation.TableIndex`.
- Scores.Add: requires a mate-plus-mate sum to fit in an `i8`. The source does not guard that overflow.
- Scores.Sub: inherits the guard of Scores.Add. A mate-minus-mate difference must fit in an `i8`, for example `Mate(100) - Mate(-100)` is excluded. The source does not guard that overflow.
- `AddAssign` is `*self = *self + rhs`. It is modelled by `Scores.Add`.
- Scores.Div: requires the divisor to fit the variant's width and to be nonzero, and the quotient not to overflow. The source truncates the divisor with `as i8` and panics on zero.
- Scores.Mul: requires the scalar to fit the variant's width and the product not to overflow. The source does not guard these.
- Scores.Neg: uses the release-build wrap-around at `i16::MIN` and `-128`. A debug build panics there.
- Search.NegamaxSearch: the depth is a `nat`. The source's `i16` depth starts at 4 and only decreases to 0.
- Search.MvvLvaScore: requires a victim other than the King. The source's key would overflow `i16` for a king capture and is unreachable for legal moves. Ordering itself uses the equivalent integer key `Search.MvvLva`.
- Sorting.SortDesc: the library's sorts are modelled as a stable insertion sort on values, not in place. Stability holds by construction but is not stated as a lemma.
- Evaluation.EvaluateMobility: requires at most 64 pieces with at most 64 attacked squares each. This keeps the source's `i16` accumulator from overflowing. The pieces and attack counts are inputs.
- Display.ExpandRow: treats only the ASCII digits as numeric. For another character Unicode counts as numeric, the source's digit parse panics, and the model copies the character.
- Display.RenderedLineCount: counts the line breaks of the rows part. The two rule lines that frame it are the literal text given by `Display.Rendered`.
- The engine's search has no time budget, iterative deepening, principal variation or table probing, and none is modelled.

## Findings

In every row the engine's own operations (`Evaluation.EvaluatePawnSide`, `Display.DisplayBoard`, `Search.Quiescence`) keep the behaviour as written. The corrected definition sits beside them with its property proved.

| source | as written | input that shows it | evidently intended | confidence | as-written member | corrected member |
|---|---|---|---|---|---|---|
| src/evaluation.rs:227-233 | the isolation test reads the per-file counts while they are still being filled, so it does not see a neighbour on a square iterated later | white pawns on a2 and b3 (squares 8 and 17): both have a neighbour, yet a2 is charged 15 | a pawn is isolated when no friendly pawn is on an adjacent file | not executed | Evaluation.IsolatedAsWrittenMissesLaterNeighbours | Evaluation.IntendedSparesNeighbours |
| src/display.rs:21 | the file label is `"  ABCDFGHI "`, which skips E and ends with I | any board: under the fifth column, file E, stands 'F' | the label `"  ABCDEFGH "`, one letter per file, under its column | not executed | Display.FileLabelAsWritten | Display.FileLabelIntended |
| src/search.rs:7-11 | at a finished game quiescence returns the game-over score from White's side, though its caller negates it as a score for the side to move | a white pawn takes a black queen and mates: the mated position scores +16383 for Black, so the mating capture scores -16383 for White. In the window from -16383 to 16383, quiescence returns 0 instead of cutting off at 16383 | the game-over score turned to the side to move, as negamax does at src/search.rs:51-53 | not executed | Search.QuiescenceMisjudgesMatingCapture | Search.TerminalScoreIntendedIsRelative |
