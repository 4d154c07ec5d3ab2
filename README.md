# CS61B core, modelled and proved in Dafny

This project models the core of a CS61B course repository written in Java and proves properties of that model.

**The Ataxx game**
- The board is a state machine over a bordered 11x11 array of squares. It covers:
  - move legality and the exhaustive `canMove` scan;
  - `makeMove`, with 8-neighbour capture and the winner test;
  - mirrored block placement;
  - an undo stack whose frames are delimited by a sentinel.
- The computer player is a depth-limited minimax search with alpha-beta pruning.

**The exercises**
- Four in-place sorts on `int[]` prefixes: insertion, selection, merge and LSD radix.
- A left-leaning red-black tree of linked nodes.
- A binary-search-tree string set with an explicit-stack iterator.
- A hash string set with external chaining and doubling.
- The split of a list into natural runs.
- The length covered by a union of intervals.
- Array `catenate` and `remove`.
- The 2-D `maxValue` and `allRowSums`.

**Modules.** There is one module per source file:
- `AtaxxTypes` and `AtaxxBoard` for `Board.java`;
- `AtaxxAI` for `AI.java`;
- `Sorting`, `MergeSort` and `LsdSort` for `MySortingAlgorithms.java`;
- `LlrbTree` (the tree as a value) and `RedBlackTree` (the linked nodes) for `RedBlackTree.java`;
- `BstStringSet` and `EcHashStringSet` for the two sets;
- `Lists`, `Intervals`, `Arrays` and `MultiArr` for the remaining files.

`JavaString` (Java's `compareTo` and `hashCode` on strings), `Seqs` (flattening a sequence of sequences) and `Wrappers` (`Option`) are shared helpers.

**Style.** Code that mutates state is modelled as imperative Dafny:
- Board, AI, RedBlackTree, BSTStringSet.BSTIterator and ECHashStringSet are classes.
- The sorts work on arrays.

Each method's `ensures` states its result or its new state. Most do so through a function of the inputs or the old state, and the lemmas about those functions carry the source's promises. A few state the property directly on the result: `Min` and `SelectionSort` in `Sorting`, `Catenate` and `Remove` in `Arrays`, and `CoveredLength` in `Intervals`.

**Where the model departs from the source.** Where the code and its comments disagree, the model follows the code. In particular:
- border squares are never written;
- a pass resets the jump count;
- `undo` does not restore the jump count an extend reset;
- the Board copy constructor shares the move history with the board it copies.

Each defect that verification exposed is modelled twice, once as written and once corrected, and is listed under "Findings". The rest of the model uses the corrected version. The computer player runs either search, chosen by its `fixed` field: `false` is the program as written.

## Model

| member | source | states |
|---|---|---|
| AtaxxTypes.PieceColor.Opposite | proj2/ataxx/Board.java:321 | RED and BLUE swap; EMPTY and BLOCKED are their own opposite. |
| AtaxxTypes.Index | proj2/ataxx/Board.java:75-77 | Every bordered coordinate indexes the 121-cell array; a real square (a..g, 1..7) lies in [24, 96]. |
| AtaxxTypes.IndexIsReal | proj2/ataxx/Board.java:75-77 | The index of a real square is a real index, and its column and row can be read back from it. |
| AtaxxTypes.IndexInjective | proj2/ataxx/Board.java:75-77 | Two bordered coordinates have the same index iff they are equal. |
| AtaxxTypes.RealIndexIsIndex | proj2/ataxx/Board.java:75-77 | Every real index is the index of its own column and row. |
| AtaxxTypes.Neighbor | proj2/ataxx/Board.java:81-83 | From a real square, any offset in [-2, 2] in each direction is a valid array index. |
| AtaxxTypes.Move.FromIndex | proj2/ataxx/Board.java:191 | The source square of a step is a valid index. |
| AtaxxTypes.Move.ToIndex | proj2/ataxx/Board.java:191 | The destination square of a step is a valid index. |
| AtaxxTypes.ExtendJumpExclusive | proj2/ataxx/Board.java:191-197 | No step is both an extend and a jump, and an extend or a jump never lands on its own source square. |
| AtaxxBoard.CountUpdate | proj2/ataxx/Board.java:159-164 | Overwriting one square changes a colour's count by the colour leaving and the colour arriving, which is exactly `set`'s counter update. |
| AtaxxBoard.Count | proj2/ataxx/Board.java:130-132 | The number of squares holding a colour, which is the counter numPieces reads. |
| AtaxxBoard.CountIsCardinality | proj2/ataxx/Board.java:130-132 | The piece count is the number of squares holding that colour. |
| AtaxxBoard.StepBounds | proj2/ataxx/Board.java:213-225 | Extends and jumps stay within two columns and two rows, so the ±2 scans miss none. |
| AtaxxBoard.OffsetMovesMembers | proj2/ataxx/AI.java:133-139 | The innermost scan yields exactly the legal steps with the given column offset and row offset at least j. |
| AtaxxBoard.SquareMovesMembers | proj2/ataxx/AI.java:132-141 | The scan from one square yields exactly its legal steps with column offset at least i. |
| AtaxxBoard.ColumnMovesMembers | proj2/ataxx/AI.java:129-143 | The scan of a column, row 7 down to 1, yields exactly the legal steps from its squares holding PLAYER. |
| AtaxxBoard.BoardMovesMembers | proj2/ataxx/AI.java:128-144 | The scan of columns col..g yields exactly the legal steps from squares holding PLAYER in those columns. |
| AtaxxBoard.LegalMovesMembers | proj2/ataxx/AI.java:126-146 | possMoves' list holds exactly the legal steps from squares holding PLAYER. |
| AtaxxBoard.LegalMoves | proj2/ataxx/AI.java:126-146 | possMoves' list: the scan of columns a to g, rows 7 to 1 and offsets -2 to 2. |
| AtaxxBoard.HasLegalMove | proj2/ataxx/Board.java:207-229 | canMove: the scan of WHO's squares finds a legal step. |
| AtaxxBoard.HasLegalMoveIff | proj2/ataxx/Board.java:207-229 | canMove(who) holds iff some square holding WHO has a legal step. |
| AtaxxBoard.AdjacentIsNeighbor | proj2/ataxx/Board.java:325-335 | The eight offsets of replacePieces are exactly the squares adjacent to the destination. |
| AtaxxBoard.OffsetDeltas | proj2/ataxx/Board.java:325-335 | Each flat offset of the capture loop is the column and row offset it stands for. |
| AtaxxBoard.CapturedNone | proj2/ataxx/Board.java:325-335 | Before the capture loop runs, no square has changed. |
| AtaxxBoard.CapturedStep | proj2/ataxx/Board.java:328-333 | One capture step turns the neighbour to the mover's colour iff it holds the opponent, and writes no other square. |
| AtaxxBoard.CapturedNextColumn | proj2/ataxx/Board.java:326-334 | The capture loop moves from one column offset to the next without changing anything. |
| AtaxxBoard.MovedIsCaptured | proj2/ataxx/Board.java:285-296 | A step sets the destination to the mover, empties the source only on a jump, then flips every adjacent opponent piece; no other square changes. |
| AtaxxBoard.Moved | proj2/ataxx/Board.java:285-296 | The squares after a step: the destination takes the mover's colour, the source is emptied on a jump, and the adjacent opponent pieces are captured. |
| AtaxxBoard.Captured | proj2/ataxx/Board.java:325-335 | replacePieces' loop up to offset (i, j): each adjacent opponent piece scanned so far takes COLOR. |
| AtaxxBoard.JumpNotAround | proj2/ataxx/Board.java:285-296 | A jump's source lies outside the 3x3 block around its destination, so the flips around the destination never touch the vacated square. |
| AtaxxBoard.EliminationWins | proj2/ataxx/Board.java:297-319 | A side left with no pieces loses, whichever winner test fires. |
| AtaxxBoard.JumpLimitEnds | proj2/ataxx/Board.java:297-305 | At the jump limit the game ends on the piece count, EMPTY on a tie. |
| AtaxxBoard.Verdict | proj2/ataxx/Board.java:297-319 | The winner, from the jump count, the piece counts, the open squares and the two canMove results, tested in the source's order. |
| AtaxxBoard.WinnerAfter | proj2/ataxx/Board.java:297-319 | Verdict applied to the squares after a move. |
| AtaxxBoard.FrameSplit | proj2/ataxx/Board.java:351-377 | An undo stack that starts with a sentinel is its earlier frames, the last sentinel, and a last frame holding no sentinel. |
| AtaxxBoard.SentinelSplit | proj2/ataxx/Board.java:382-391 | The sentinels of two stacked parts add up. |
| AtaxxBoard.PushedFrame | proj2/ataxx/Board.java:382-385 | Pushing a sentinel and then changes opens a frame whose contents are exactly those changes. |
| AtaxxBoard.PushChange | proj2/ataxx/Board.java:388-391 | Recording a change extends the last frame only. |
| AtaxxBoard.RestoreOverSet | proj2/ataxx/Board.java:159-164 | Undoing a recorded `set` gives back the square's prior colour, so `set` keeps what an undo restores. |
| AtaxxBoard.InitialLayout | proj2/ataxx/Board.java:87-100 | After `clear`, RED is on a7 and g1, BLUE on a1 and g7, and the other 45 real squares are EMPTY. |
| AtaxxBoard.InitialCounts | proj2/ataxx/Board.java:101-102 | The initial layout has two pieces of each colour. |
| AtaxxBoard.InitialLayoutValid | proj2/ataxx/Board.java:87-109 | The initial layout has a null border and two pieces of each colour. |
| AtaxxBoard.BlocksSymmetric | proj2/ataxx/Board.java:417-432 | setBlock blocks the square and its three reflections across the board's axes. |
| AtaxxBoard.ShapedUpdate | proj2/ataxx/Board.java:168-176 | Writing a colour to a real square keeps the border untouched. |
| AtaxxBoard.BlockKeepsShape | proj2/ataxx/Board.java:417-432 | Placing blocks on empty real squares keeps the border untouched. |
| AtaxxBoard.BlockKeepsCount | proj2/ataxx/Board.java:417-432 | Placing blocks on empty squares leaves the RED and BLUE counts unchanged. |
| AtaxxBoard.BlockOneKeepsCount | proj2/ataxx/Board.java:423-426 | Blocking a square that is empty or already blocked leaves every piece colour's count unchanged. |
| AtaxxBoard.OpeningMovesLegal | proj2/ataxx/Board.java:179-198 | On the initial layout RED can extend a7-b7, and then BLUE can extend a1-b1. |
| AtaxxBoard.History.constructor | proj2/ataxx/Board.java:52-56 | A new history has no moves and an empty undo stack. |
| AtaxxBoard.Board.constructor | proj2/ataxx/Board.java:52-56 | A new board has the initial layout, RED to move, no winner, zero counters and an empty history. |
| AtaxxBoard.Board.CopySharingHistory | proj2/ataxx/Board.java:60-72 | The copy constructor as written: fresh squares equal to the original's and the same counters, but the history object is shared; the winner and numTotal are not copied. |
| AtaxxBoard.Board.Copy | proj2/ataxx/Board.java:60-72 | The corrected copy: the same squares and counters, with a fresh, empty history of its own. |
| AtaxxBoard.Board.Clear | proj2/ataxx/Board.java:87-109 | The initial layout, RED to move, no winner, zero jumps, passes and moves, an empty history, and the same square array. |
| AtaxxBoard.Board.ResetSquares | proj2/ataxx/Board.java:89-97 | The squares hold the initial layout. |
| AtaxxBoard.Board.EmptyRealSquares | proj2/ataxx/Board.java:89-93 | Every real square is EMPTY and the border is untouched. |
| AtaxxBoard.Board.PlaceStartingPieces | proj2/ataxx/Board.java:94-97 | The four corners get their starting pieces and nothing else changes. |
| AtaxxBoard.Board.NumPieces | proj2/ataxx/Board.java:130-132 | The RED or BLUE counter equals the number of squares of that colour. |
| AtaxxBoard.Board.IncrPieces | proj2/ataxx/Board.java:135-137 | Only the counter of the given colour changes, by K. |
| AtaxxBoard.Board.Set | proj2/ataxx/Board.java:159-164 | The square takes the colour, the prior colour is pushed onto the undo stack, the counters keep matching the squares, and nothing else changes. |
| AtaxxBoard.Board.CanMove | proj2/ataxx/Board.java:207-229 | The result is whether WHO has a legal step; the board is not changed. |
| AtaxxBoard.Board.CanMoveFrom | proj2/ataxx/Board.java:213-225 | The result is whether the square has a legal step. |
| AtaxxBoard.Board.IsLegalStep | proj2/ataxx/Board.java:188-197 | A step is legal iff its source holds WHO, its destination is EMPTY, and it is an extend or a jump. |
| AtaxxBoard.Board.LegalMove | proj2/ataxx/Board.java:179-198 | A null move is illegal; a pass is legal iff the side to move cannot move; a step follows IsLegalStep. |
| AtaxxBoard.Board.TotalOpen | proj2/ataxx/Board.java:440-450 | The number of real squares that are not BLOCKED. |
| AtaxxBoard.Board.ReplacePieces | proj2/ataxx/Board.java:325-335 | Every adjacent opponent piece flips to COLOR, each change is recorded in the current undo frame, and nothing else changes. |
| AtaxxBoard.Board.CaptureAt | proj2/ataxx/Board.java:328-333 | One neighbour is captured if it holds the opponent, and is recorded for undo. |
| AtaxxBoard.Board.MakeMove | proj2/ataxx/Board.java:272-322 | An illegal move changes nothing. A legal pass resets the jump count and counts a pass. A legal step leaves the squares as MovedIsCaptured describes, counts a jump or resets the count, and sets the winner by the source's tests in order. Either way the move is recorded, one undo frame restores the old squares, numTotal rises by 1, and the turn passes. |
| AtaxxBoard.Board.StartUndo | proj2/ataxx/Board.java:382-385 | The move is recorded and a sentinel opens a new, empty undo frame. |
| AtaxxBoard.Board.PassMove | proj2/ataxx/Board.java:278-283 | A legal pass resets the jump count, counts the pass and flips the turn. |
| AtaxxBoard.Board.StepMove | proj2/ataxx/Board.java:284-321 | A legal step as MakeMove describes it, after the undo frame is opened. |
| AtaxxBoard.Board.ApplyStep | proj2/ataxx/Board.java:285-296 | The squares change exactly as MovedIsCaptured describes, and every change is recorded in the current frame. |
| AtaxxBoard.Board.DecideWinner | proj2/ataxx/Board.java:297-319 | The winner is the verdict of the source's tests in order, and nothing else changes. |
| AtaxxBoard.Board.Pass | proj2/ataxx/Board.java:340-348 | A pass succeeds iff the side to move has no legal step; it flips the turn and counts a pass, and on failure nothing changes. |
| AtaxxBoard.Board.Undo | proj2/ataxx/Board.java:351-377 | With an empty history nothing changes. Otherwise: every square written by the last move regains its prior colour; the frame and the move are popped; the jump count drops by 1 only if the move was a jump; the turn flips back; numTotal drops by 1; the winner is cleared. |
| AtaxxBoard.Board.PopFrame | proj2/ataxx/Board.java:365-368 | The sentinel and the last recorded move are popped. |
| AtaxxBoard.Board.RestoreFrame | proj2/ataxx/Board.java:356-364 | Every change in the last frame is undone, down to its sentinel. |
| AtaxxBoard.Board.PopChange | proj2/ataxx/Board.java:357-363 | One change is undone and popped; what the rest of the frame restores is unchanged. |
| AtaxxBoard.PoppedChange | proj2/ataxx/Board.java:357-363 | Popping the last change leaves a well-framed history with the same frames below, and putting the recorded colour back keeps the board well shaped. |
| AtaxxBoard.Board.LegalBlock | proj2/ataxx/Board.java:394-405 | A block is legal iff no move has been made and the square and its reflections are all EMPTY. |
| AtaxxBoard.Board.SetBlock | proj2/ataxx/Board.java:417-432 | An illegal block changes nothing. A legal one blocks the four mirrored squares, and declares a tie (EMPTY wins) when neither side can then move. |
| AtaxxBoard.Board.PlaceBlocks | proj2/ataxx/Board.java:423-426 | The four mirrored squares become BLOCKED. |
| AtaxxBoard.MoveThenUndo | proj2/ataxx/Board.java:272-377 | Making a legal move and undoing it gives back the squares, the history, the turn and numTotal; the jump count comes back only if the move was a jump. |
| AtaxxBoard.SharedHistoryWitness | proj2/ataxx/Board.java:68-70 | A move made on a copy that shares its history shows up in the original's move list. |
| AtaxxBoard.SeparateHistoryWitness | proj2/ataxx/Board.java:58-72 | With the corrected copy, the original's move list is unaffected. |
| AtaxxAI.Play | proj2/ataxx/AI.java:89-90 | Making a legal move on a well-formed position gives a well-formed position with the other side to move. |
| AtaxxAI.Moves | proj2/ataxx/AI.java:87 | The moves a node tries: possMoves of the side to move. |
| AtaxxAI.StaticScore | proj2/ataxx/AI.java:150-162 | staticScore as written: plus or minus winningValue for a RED or BLUE winner, 0 for any other winner, otherwise the side to move's pieces minus its opponent's. |
| AtaxxAI.RedScore | proj2/ataxx/AI.java:150-162 | The corrected leaf score: the same, but with RED's pieces minus BLUE's whoever is to move. |
| AtaxxAI.Search | proj2/ataxx/AI.java:77-123 | minMax's value. A leaf at depth 0 or on a decided game. Otherwise the maximising or minimising loop over possMoves, as written or corrected. |
| AtaxxAI.ScanMax | proj2/ataxx/AI.java:85-102 | The maximising loop. Each child is searched in the current window. An improving score raises bestScore and alpha and saves the move, returning at once when alpha >= beta. Running out of moves gives 0 as written, bestScore corrected. |
| AtaxxAI.ScanMin | proj2/ataxx/AI.java:103-121 | The minimising loop, the mirror image of ScanMax with beta lowered. |
| AtaxxAI.SearchChoice | proj2/ataxx/AI.java:85-121 | The move a saving search leaves in `_lastFoundMove`: the last move that improved the top node's best score, else the one saved before. |
| AtaxxAI.Minimax | proj2/ataxx/AI.java:70-76 | The reference the search should agree with: plain minimax on RED's scale, with no pruning. |
| AtaxxAI.MaxOver | proj2/ataxx/AI.java:85-102 | The largest minimax value over the moves, -INFTY for none. |
| AtaxxAI.MinOver | proj2/ataxx/AI.java:103-121 | The smallest minimax value over the moves, INFTY for none. |
| AtaxxAI.CountAtMost | proj2/ataxx/AI.java:159-160 | A colour's count never exceeds the number of squares. |
| AtaxxAI.LeafBounds | proj2/ataxx/AI.java:150-162 | Leaf scores lie within ±winningValue, both as written and corrected. |
| AtaxxAI.StaticScoreFollowsMover | proj2/ataxx/AI.java:159-161 | As written, the leaf score of an unfinished game changes sign with the side to move: it is the negated RED score when BLUE is to move. |
| AtaxxAI.RedScoreIgnoresMover | proj2/ataxx/AI.java:148-157 | The corrected leaf score does not depend on the side to move. It is positive iff RED has won or leads on pieces. |
| AtaxxAI.WinScoreGrowsWithDepth | proj2/ataxx/AI.java:79-84 | On a won position the score grows in magnitude with the depth remaining, so sooner wins are preferred. |
| AtaxxAI.SearchBounded | proj2/ataxx/AI.java:77-123 | Every score lies within [-INFTY, INFTY]. The search as written stays within ±(WINNING_VALUE + depth). |
| AtaxxAI.ScanMaxBounded | proj2/ataxx/AI.java:85-102 | The maximising loop's score lies within the same bounds. |
| AtaxxAI.ScanMinBounded | proj2/ataxx/AI.java:103-121 | The minimising loop's score lies within the same bounds. |
| AtaxxAI.MinimaxBounded | proj2/ataxx/AI.java:20-25 | The plain minimax value lies within [-INFTY, INFTY]. |
| AtaxxAI.MaxOverAtMost | proj2/ataxx/AI.java:85-102 | The maximum over moves is at most INFTY: every move leads to a minimising node. |
| AtaxxAI.MinNodeAtMost | proj2/ataxx/AI.java:83-121 | A minimising node, leaf or loop, never scores above INFTY. |
| AtaxxAI.MinOverAtLeast | proj2/ataxx/AI.java:103-121 | The minimum over moves is at least -INFTY: every move leads to a maximising node. |
| AtaxxAI.MaxNodeAtLeast | proj2/ataxx/AI.java:83-102 | A maximising node, leaf or loop, never scores below -INFTY. |
| AtaxxAI.MaxOverAtLeast | proj2/ataxx/AI.java:86 | The maximum over moves is at least -INFTY, its starting value. |
| AtaxxAI.MinOverAtMost | proj2/ataxx/AI.java:104 | The minimum over moves is at most INFTY, its starting value. |
| AtaxxAI.SearchSound | proj2/ataxx/AI.java:70-123 | The corrected alpha-beta search is fail-soft against plain minimax. Inside (alpha, beta) it is exact. At or below alpha it bounds minimax from above. At or above beta it bounds minimax from below. |
| AtaxxAI.ScanMaxSound | proj2/ataxx/AI.java:85-102 | The maximising loop with cutoffs is fail-soft against the maximum over its moves. |
| AtaxxAI.ScanMinSound | proj2/ataxx/AI.java:103-121 | The minimising loop with cutoffs is fail-soft against the minimum over its moves. |
| AtaxxAI.MaxSkipped | proj2/ataxx/AI.java:92 | A score that does not beat bestScore leaves the maximising loop's result sound. |
| AtaxxAI.MaxCutoff | proj2/ataxx/AI.java:92-100 | Returning bestScore once alpha >= beta is sound for the maximiser. |
| AtaxxAI.MaxImproved | proj2/ataxx/AI.java:92-97 | Raising bestScore and alpha keeps the maximising loop sound. |
| AtaxxAI.MinSkipped | proj2/ataxx/AI.java:110 | A score that does not beat bestScore leaves the minimising loop's result sound. |
| AtaxxAI.MinCutoff | proj2/ataxx/AI.java:110-118 | Returning bestScore once alpha >= beta is sound for the minimiser. |
| AtaxxAI.MinImproved | proj2/ataxx/AI.java:110-115 | Lowering bestScore and beta keeps the minimising loop sound. |
| AtaxxAI.AlphaBetaMatchesMinimax | proj2/ataxx/AI.java:77-123 | From the full window (-INFTY, INFTY), the corrected search returns exactly the minimax value. |
| AtaxxAI.TopLevelScoreIsZero | proj2/ataxx/AI.java:122 | As written, the search returns 0 from the full window on every unfinished position. |
| AtaxxAI.ScanMaxFallsThrough | proj2/ataxx/AI.java:85-122 | As written, a maximising loop that cannot cut off (beta = INFTY) ends at `return 0`. |
| AtaxxAI.ScanMinFallsThrough | proj2/ataxx/AI.java:103-122 | As written, a minimising loop that cannot cut off (alpha = -INFTY) ends at `return 0`. |
| AtaxxAI.ScanMaxChoice | proj2/ataxx/AI.java:95-97 | The saved move is either unchanged or one of the moves searched. |
| AtaxxAI.ScanMinChoice | proj2/ataxx/AI.java:113-115 | The saved move is either unchanged or one of the moves searched. |
| AtaxxAI.SearchChoiceIsLegal | proj2/ataxx/AI.java:95-97 | A move either search saves is a legal step for the side to move. |
| AtaxxAI.ScanMaxChoiceValue | proj2/ataxx/AI.java:88-101 | Corrected, a move the maximising loop saves leads to a child whose minimax value is the score the loop returns. |
| AtaxxAI.ScanMinChoiceValue | proj2/ataxx/AI.java:106-119 | Corrected, a move the minimising loop saves leads to a child whose minimax value is the score the loop returns. |
| AtaxxAI.SearchChoiceIsBest | proj2/ataxx/AI.java:70-76 | Corrected, the move findMove saves leads to a position whose minimax value equals that of the position searched. |
| AtaxxAI.MinAsWrittenAtMost | proj2/ataxx/AI.java:103-122 | As written, a minimising loop with alpha below beta never returns more than the larger of alpha and 0. |
| AtaxxAI.MaxAsWrittenAtLeast | proj2/ataxx/AI.java:85-122 | As written, a maximising loop with alpha below beta never returns less than the smaller of beta and 0. |
| AtaxxAI.MaxKeepsFirst | proj2/ataxx/AI.java:88-102 | As written, once best score and alpha are 0, no child that is not a finished game beats the saved move. |
| AtaxxAI.MinKeepsFirst | proj2/ataxx/AI.java:106-121 | As written, once best score and beta are 0, no child that is not a finished game beats the saved move. |
| AtaxxAI.AsWrittenPlaysFirstMove | proj2/ataxx/AI.java:55-64 | As written, when no legal move ends the game, the saved move is the first legal move in possMoves order, for either colour. |
| AtaxxAI.ScanMaxScore | proj2/ataxx/AI.java:95-97 | The maximising score does not depend on the move saved before. |
| AtaxxAI.ScanMinScore | proj2/ataxx/AI.java:113-115 | The minimising score does not depend on the move saved before. |
| AtaxxAI.StateOf | proj2/ataxx/AI.java:77-84 | The value of a board is its squares, its side to move, its jump count and its winner. |
| AtaxxAI.AI.constructor | proj2/ataxx/AI.java:66-68 | A new player of the given colour, running the search as written or corrected, with no saved move. |
| AtaxxAI.AI.GetMove | proj2/ataxx/AI.java:41-51 | A pass iff the player cannot move. Otherwise the move the full-depth search saves, which is legal. As written, that is the first legal move in possMoves order whenever no legal move ends the game. |
| AtaxxAI.AI.FindMove | proj2/ataxx/AI.java:55-64 | Searches a copy of the board to MAX_DEPTH, with sense 1 for RED and -1 otherwise, and returns the saved move, a legal step. Corrected, that move leads to a position with the minimax value of the board. As written, it is the first legal move whenever no legal move ends the game. |
| AtaxxAI.AI.MinMax | proj2/ataxx/AI.java:77-123 | The search value of the board, as written or corrected according to `fixed`. The saved move changes only in a saving call, and then to the search's choice. |
| AtaxxAI.AI.MaxOverMoves | proj2/ataxx/AI.java:85-122 | The maximising loop gives the scan's score and saved move. That includes the final `return 0` as written when no move cuts off, or the best score when corrected. |
| AtaxxAI.AI.MinOverMoves | proj2/ataxx/AI.java:103-122 | The minimising loop gives the scan's score and saved move. That includes the final `return 0` as written when no move cuts off, or the best score when corrected. |
| AtaxxAI.ScanMaxStep | proj2/ataxx/AI.java:88-101 | One iteration of the maximising loop, for either search. A score not above the best skips the move. One that raises alpha to beta returns at once. Otherwise the scan goes on with the move saved. |
| AtaxxAI.ScanMinStep | proj2/ataxx/AI.java:106-119 | One iteration of the minimising loop, for either search. A score not below the best skips the move. One that lowers beta to alpha returns at once. Otherwise the scan goes on with the move saved. |
| AtaxxAI.AI.ScoreMove | proj2/ataxx/AI.java:89-91 | The score of the position after MOVE, searched one level shallower on a fresh copy. The saved move is unchanged, and so are the squares, side to move, jump count and winner of the board searched from. |
| AtaxxAI.AI.PlayOnCopy | proj2/ataxx/AI.java:89-90 | A fresh copy of the board with the move made on it. Its state is Play of the board's state. |
| AtaxxAI.AI.PossMoves | proj2/ataxx/AI.java:126-146 | The legal steps from squares holding PLAYER, in scan order: column a to g, row 7 to 1, column offset, then row offset. |
| AtaxxAI.AI.MovesInColumn | proj2/ataxx/AI.java:129-143 | The legal steps from one column, row 7 down to 1. |
| AtaxxAI.AI.MovesFrom | proj2/ataxx/AI.java:132-141 | The legal steps from one square, in offset order. |
| AtaxxAI.AI.MovesAlong | proj2/ataxx/AI.java:133-140 | The legal steps from one square with one column offset. |
| Sorting.SwappedPermutes | hw7/MySortingAlgorithms.java:280-284 | Swapping is a permutation that exchanges the two entries and keeps every other one. |
| Sorting.Swap | hw7/MySortingAlgorithms.java:280-284 | a[i] and a[j] are exchanged and nothing else changes. |
| Sorting.InsertSortedSorts | hw7/MySortingAlgorithms.java:49-56 | Inserting into a sorted sequence keeps it sorted and adds exactly the element. |
| Sorting.InsertSorted | hw7/MySortingAlgorithms.java:51-55 | One pass of the shifting loop: X placed after the last entry not greater than it. |
| Sorting.InsertionSorted | hw7/MySortingAlgorithms.java:48-56 | Insertion sort on a sequence: each entry inserted in turn into the sorted prefix before it. |
| Sorting.InsertSortedPermutes | hw7/MySortingAlgorithms.java:49-56 | Insertion adds exactly the inserted element to the multiset of entries. |
| Sorting.InsertSortedAt | hw7/MySortingAlgorithms.java:51-55 | The element goes after every smaller-or-equal entry and before the larger ones. |
| Sorting.InsertionSortedSorts | hw7/MySortingAlgorithms.java:46-57 | Insertion sort yields a sorted permutation. |
| Sorting.InsertionSort | hw7/MySortingAlgorithms.java:46-57 | a[0..k) becomes its sorted permutation, and a[k..] is unchanged. |
| Sorting.InsertAt | hw7/MySortingAlgorithms.java:49-56 | The shifting loop inserts a[i] into the sorted a[0..i). |
| Sorting.ShiftGreater | hw7/MySortingAlgorithms.java:51-54 | The shifting loop moves every entry greater than the element one place right and stops at the first that is not greater (or at the front); nothing else changes. |
| Sorting.MinScanFinds | hw7/MySortingAlgorithms.java:86-96 | The scan returns the index of a minimum among the entries below its running minimum, or its starting index when there is none. |
| Sorting.MinAsWritten | hw7/MySortingAlgorithms.java:86-96 | As written, `min` returns an index in [j, k) of a minimum whenever some entry is below Integer.MAX_VALUE, and 0 otherwise. |
| Sorting.MinScan | hw7/MySortingAlgorithms.java:89-94 | min's loop: a strictly smaller entry replaces both the running minimum and its index. |
| Sorting.SelectionAsWrittenUnsorts | hw7/MySortingAlgorithms.java:73-96 | As written, selection sort turns [1, Integer.MAX_VALUE] into an unsorted array. |
| Sorting.SelectionAsWritten | hw7/MySortingAlgorithms.java:74-77 | Selection sort as written on a sequence: pass i swaps entry i with the index `min` returns from MAX_VALUE and index 0. |
| Sorting.Min | hw7/MySortingAlgorithms.java:86-96 | The corrected `min` returns an index in [j, k) holding a minimum of a[j..k). |
| Sorting.SelectionSort | hw7/MySortingAlgorithms.java:73-78 | a[0..k) becomes sorted and a permutation of itself, and a[k..] is unchanged. |
| Sorting.SelectStep | hw7/MySortingAlgorithms.java:74-77 | After iteration i, a[0..i] holds the i + 1 smallest entries in order. |
| Sorting.SwapExtendsPrefix | hw7/MySortingAlgorithms.java:75-76 | Swapping the minimum into place extends the selected prefix by one. |
| MergeSort.MergedPermutes | hw7/MySortingAlgorithms.java:121-154 | Merging gives a permutation of both inputs together. |
| MergeSort.Merged | hw7/MySortingAlgorithms.java:137-153 | merge on sequences: take the smaller head, the left one on ties, then append the other tail. |
| MergeSort.MergedAbove | hw7/MySortingAlgorithms.java:121-154 | A lower bound of both inputs bounds the merge. |
| MergeSort.MergedSorted | hw7/MySortingAlgorithms.java:121-154 | Merging two sorted sequences gives a sorted one. |
| MergeSort.MergedStep | hw7/MySortingAlgorithms.java:136-145 | Each step takes the left head on ties (so the merge is stable), otherwise the smaller head. |
| MergeSort.CopyRange | hw7/MySortingAlgorithms.java:128-133 | The temporary array holds exactly the copied range. |
| MergeSort.Merge | hw7/MySortingAlgorithms.java:121-154 | a[l..r] becomes the merge of a[l..m] and a[m+1..r]; everything outside is unchanged. |
| MergeSort.MergeFrom | hw7/MySortingAlgorithms.java:135-153 | The main loop and the tails write the merge of the two copies from position l. |
| MergeSort.MergeHeads | hw7/MySortingAlgorithms.java:135-146 | The main loop writes a prefix of the merge until one copy runs out. |
| MergeSort.MergeTails | hw7/MySortingAlgorithms.java:148-153 | The tails of both copies are appended in order. |
| MergeSort.MergeTailsJoin | hw7/MySortingAlgorithms.java:148-153 | Once one side is exhausted, the rest of the merge is the tails concatenated. |
| MergeSort.CopyTail | hw7/MySortingAlgorithms.java:148-153 | One tail is copied in order. |
| MergeSort.MSortSplits | hw7/MySortingAlgorithms.java:111-118 | Merge sort of a range is the merge of its sorted halves. |
| MergeSort.MSort | hw7/MySortingAlgorithms.java:111-118 | sort(l, r) on a sequence: sort the halves split at the floor of the midpoint, then merge them. |
| MergeSort.MSortSorts | hw7/MySortingAlgorithms.java:106-118 | Merge sort yields a sorted permutation. |
| MergeSort.MSortSorted | hw7/MySortingAlgorithms.java:106-118 | Merge sort yields a sorted sequence. |
| MergeSort.MSortPermutes | hw7/MySortingAlgorithms.java:106-118 | Merge sort yields a permutation of its input. |
| MergeSort.RangeSortedSingle | hw7/MySortingAlgorithms.java:111-118 | Sorting a[l..r] touches nothing outside the range. |
| MergeSort.SortRange | hw7/MySortingAlgorithms.java:111-118 | sort(a, l, r) leaves a[l..r] merge-sorted and the rest unchanged. |
| MergeSort.SortRangeSteps | hw7/MySortingAlgorithms.java:113-116 | Sorting the left half, then the right half, then merging them merge-sorts the range. |
| MergeSort.HalvesSorted | hw7/MySortingAlgorithms.java:113-115 | The two recursive calls sort the two halves in place. |
| MergeSort.HalvesMerged | hw7/MySortingAlgorithms.java:116 | The final merge combines the sorted halves in place. |
| MergeSort.MSortOfRange | hw7/MySortingAlgorithms.java:111-118 | The in-place recursion computes the same split as the merge-sort function. |
| MergeSort.Sort | hw7/MySortingAlgorithms.java:106-108 | a[0..k) becomes sorted and a permutation of itself, and a[k..] is unchanged. |
| MergeSort.PrefixRangeSorted | hw7/MySortingAlgorithms.java:106-108 | Sorting the range 0..k-1 sorts the first k entries and leaves the rest. |
| LsdSort.Pow10Grows | hw7/MySortingAlgorithms.java:243-257 | Powers of ten grow with the exponent. |
| LsdSort.Digit | hw7/MySortingAlgorithms.java:227-229 | The digit selected by a power of ten is in [0, 10). |
| LsdSort.ModSplit | hw7/MySortingAlgorithms.java:227 | The value mod 10f is its digit at f followed by the lower digits. |
| LsdSort.DigitOrder | hw7/MySortingAlgorithms.java:226-238 | A smaller digit at f means a smaller value mod 10f. |
| LsdSort.DigitsBounds | hw7/MySortingAlgorithms.java:243-257 | A value lies below 10 to the power of its digit count, and not below the power one lower (single digits count 1). |
| LsdSort.DigitsUnique | hw7/MySortingAlgorithms.java:243-257 | The digit count is the unique n with those bounds. |
| LsdSort.Digits | hw7/MySortingAlgorithms.java:246-251 | The number of decimal digits, 1 for a single digit. |
| LsdSort.DigitCount | hw7/MySortingAlgorithms.java:246-253 | The inner division loop counts the decimal digits, at most 9 below 10^9. |
| LsdSort.Longest | hw7/MySortingAlgorithms.java:243-257 | The maximum digit count over a[0..k), which is attained; 0 when k = 0. |
| LsdSort.BucketMembers | hw7/MySortingAlgorithms.java:226-230 | Bucket d holds only entries whose current digit is d. |
| LsdSort.Bucket | hw7/MySortingAlgorithms.java:226-230 | What bucket d holds after the distributing loop: the entries with digit d, in their order. |
| LsdSort.Gather | hw7/MySortingAlgorithms.java:233-238 | What the collecting loop writes from bucket d on: buckets d to 9, end to end. |
| LsdSort.Distribute | hw7/MySortingAlgorithms.java:226-238 | One pass at place value f: the buckets 0 to 9 gathered in order. |
| LsdSort.BucketAppend | hw7/MySortingAlgorithms.java:226-230 | Scattering one more entry appends it to its own bucket only. |
| LsdSort.DistributePermutes | hw7/MySortingAlgorithms.java:226-238 | A bucket pass is a permutation. |
| LsdSort.GatherLast | hw7/MySortingAlgorithms.java:233-238 | Draining buckets d..9 gathers the last value exactly when its digit is at least d, and everything else as before. |
| LsdSort.BucketKeySorted | hw7/MySortingAlgorithms.java:226-230 | Buckets keep the order by lower digits, because scattering is stable. |
| LsdSort.GatherKeySorted | hw7/MySortingAlgorithms.java:233-238 | Draining buckets d..9 in order gives values ordered by one more digit. |
| LsdSort.DistributeSorts | hw7/MySortingAlgorithms.java:226-238 | After the pass on digit f, the prefix is ordered by the value mod 10f. |
| LsdSort.Scatter | hw7/MySortingAlgorithms.java:226-230 | Each bucket receives, in order, the entries with its digit. |
| LsdSort.Drain | hw7/MySortingAlgorithms.java:234-237 | One bucket is written out at the next free index and emptied. |
| LsdSort.GatherFlatten | hw7/MySortingAlgorithms.java:233-238 | Draining buckets d..9 writes their concatenation. |
| LsdSort.Collect | hw7/MySortingAlgorithms.java:233-238 | The buckets are written back in bucket order and left empty. |
| LsdSort.CollectBucket | hw7/MySortingAlgorithms.java:234-237 | One drained bucket extends the written prefix. |
| LsdSort.Pass | hw7/MySortingAlgorithms.java:225-238 | One pass leaves a[0..k) distributed by one digit and a[k..] unchanged. |
| LsdSort.KeySortedBelow | hw7/MySortingAlgorithms.java:218-240 | Values below m that are ordered mod m are sorted. |
| LsdSort.SortPass | hw7/MySortingAlgorithms.java:225-238 | Each pass extends the digits the prefix is ordered by, as a permutation. |
| LsdSort.PassKeeps | hw7/MySortingAlgorithms.java:225-238 | A pass keeps values below the bound and orders them by one more digit. |
| LsdSort.DigitsBelow | hw7/MySortingAlgorithms.java:243-257 | Values of at most n digits are below 10^n. |
| LsdSort.Sort | hw7/MySortingAlgorithms.java:218-240 | For values in [0, 10^9), a[0..k) becomes sorted and a permutation of itself, and a[k..] is unchanged. |
| LlrbTree.InOrder | hw8/RedBlackTree.java:148-170 | The in-order key sequence holds exactly the tree's keys. |
| LlrbTree.InOrderSorted | hw8/RedBlackTree.java:148-170 | A search tree's in-order sequence is strictly increasing. |
| LlrbTree.RotateRight | hw8/RedBlackTree.java:72-83 | With no left child the node is returned as it is. Otherwise the old left child becomes the root with the old root's colour, and the old root becomes its red right child. The in-order sequence and search order are kept. |
| LlrbTree.RotateLeft | hw8/RedBlackTree.java:93-104 | The mirror image of RotateRight. |
| LlrbTree.Regroup | hw8/RedBlackTree.java:72-104 | Moving the root across a rotation keeps search order, in both directions. |
| LlrbTree.RotationsInverse | hw8/RedBlackTree.java:72-104 | Rotating right then left, or left then right, gives back a red node's tree up to the repainted child. |
| LlrbTree.FlipColors | hw8/RedBlackTree.java:112-116 | The node and both children change colour, and nothing else changes. |
| LlrbTree.Repaint | hw8/RedBlackTree.java:136 | Repainting a node keeps its keys, in-order sequence and search order. |
| LlrbTree.FlipColorsInvolution | hw8/RedBlackTree.java:112-116 | Flipping twice is the identity, and a flip keeps keys and order. |
| LlrbTree.BalanceKeeps | hw8/RedBlackTree.java:160-168 | The fix-ups keep the in-order sequence, the keys and search order. |
| LlrbTree.Balance | hw8/RedBlackTree.java:160-168 | The three fix-ups in order: rotate a right-leaning red link left, rotate two left reds in a row right, and flip colours when both children are red. |
| LlrbTree.Ins | hw8/RedBlackTree.java:148-170 | The recursive insert adds exactly the key and keeps search order; a present key leaves the in-order sequence unchanged, with no duplicate. |
| LlrbTree.Insert | hw8/RedBlackTree.java:134-137 | The public insert adds the key, keeps search order and leaves a black root. |
| LlrbTree.InsertAddsOnce | hw8/RedBlackTree.java:148-170 | After insert the in-order sequence is strictly increasing and grows by one iff the key was new. |
| LlrbTree.SortedSize | hw8/RedBlackTree.java:148-170 | A search tree's in-order sequence has one entry per key. |
| LlrbTree.InsKeepsShape | hw8/RedBlackTree.java:148-170 | Recursive insertion into a left-leaning red-black tree keeps the black height and black balance and leans left. A red run can only appear at a red root, which the caller repairs. |
| LlrbTree.BalanceAfterLeft | hw8/RedBlackTree.java:155-168 | The fix-ups repair a left subtree grown by insertion. |
| LlrbTree.LeftSplit | hw8/RedBlackTree.java:163-168 | Two reds in a row on the left are rotated right and split by a colour flip. |
| LlrbTree.PushUp | hw8/RedBlackTree.java:163-168 | The exact tree the fix-ups make of a black node over two left reds. |
| LlrbTree.LeftStays | hw8/RedBlackTree.java:160-168 | Without two left reds, the fix-ups after a left insertion change nothing harmful. |
| LlrbTree.BalanceAfterRight | hw8/RedBlackTree.java:157-168 | The fix-ups repair a right subtree grown by insertion. |
| LlrbTree.RightLeaned | hw8/RedBlackTree.java:160-162 | A red right link under a black left link is rotated to the left. |
| LlrbTree.RightSplit | hw8/RedBlackTree.java:166-168 | Two red children are split by a colour flip. |
| LlrbTree.RightStays | hw8/RedBlackTree.java:160-168 | A black right subtree needs no fix-up. |
| LlrbTree.SplitFour | hw8/RedBlackTree.java:166-168 | With two red children and no left red run, the fix-ups amount to a colour flip. |
| LlrbTree.Untouched | hw8/RedBlackTree.java:160-168 | With neither fix-up condition, the fix-ups leave the node unchanged. |
| LlrbTree.LeanLeft | hw8/RedBlackTree.java:160-162 | The exact tree a left rotation makes of a red right link. |
| LlrbTree.InsertKeepsShape | hw8/RedBlackTree.java:134-137 | Public insertion keeps a left-leaning red-black tree: equal black heights, no red right links, no two reds in a row. |
| RedBlackTree.RBTreeNode.constructor | hw8/RedBlackTree.java:201-215 | A childless node of the given colour and item. |
| RedBlackTree.Link | hw8/RedBlackTree.java:78-81 | The node points at the given children with the given colour, and its subtree is exactly what they spell. |
| RedBlackTree.Paint | hw8/RedBlackTree.java:113-115 | Only the node's colour changes. |
| RedBlackTree.RedBlackTree.constructor | hw8/RedBlackTree.java:13-15 | A new tree is empty. |
| RedBlackTree.RedBlackTree.RotateRight | hw8/RedBlackTree.java:72-83 | The linked nodes are relinked into the value rotation of the subtree, using no other nodes. |
| RedBlackTree.RedBlackTree.RotateLeft | hw8/RedBlackTree.java:93-104 | The linked nodes are relinked into the value rotation of the subtree, using no other nodes. |
| RedBlackTree.RedBlackTree.FlipColors | hw8/RedBlackTree.java:112-116 | The three nodes are repainted as the value colour flip. |
| RedBlackTree.RedBlackTree.RedLink | hw8/RedBlackTree.java:125-127 | isRed holds iff the link's subtree has a red root, so a null link is black. |
| RedBlackTree.RedBlackTree.Balance | hw8/RedBlackTree.java:160-168 | The fix-ups on the linked nodes compute the value fix-ups. |
| RedBlackTree.RedBlackTree.InsertAt | hw8/RedBlackTree.java:148-170 | The linked recursive insert computes the value insert, allocating only the new node. |
| RedBlackTree.RedBlackTree.InsertLeft | hw8/RedBlackTree.java:155-156 | The left link is replaced by the insert into it. |
| RedBlackTree.RedBlackTree.InsertRight | hw8/RedBlackTree.java:157-158 | The right link is replaced by the insert into it. |
| RedBlackTree.RedBlackTree.Insert | hw8/RedBlackTree.java:134-137 | The item is added and the root is painted black. The nodes still form a left-leaning red-black search tree. |
| BstStringSet.InOrder | hw6/BSTStringSet.java:89-131 | The in-order labels are exactly the stored strings. |
| BstStringSet.InOrderSorted | hw6/BSTStringSet.java:89-131 | A search tree's in-order labels are strictly ascending, hence duplicate-free. |
| BstStringSet.Putt | hw6/BSTStringSet.java:23-42 | putt adds exactly the string and keeps search order; a string already present leaves the tree as it is. |
| BstStringSet.ContainFinds | hw6/BSTStringSet.java:50-61 | contain is true iff the string is stored. |
| BstStringSet.Contain | hw6/BSTStringSet.java:50-61 | contain: compare with the node, then descend left or right by compareTo, and answer false at a missing child. |
| BstStringSet.BSTIterator.constructor | hw6/BSTStringSet.java:99-101 | The remaining output is the whole tree in order. |
| BstStringSet.BSTIterator.AddTree | hw6/BSTStringSet.java:125-130 | Pushing the left spine puts the subtree's in-order labels in front of the remaining output. |
| BstStringSet.BSTIterator.HasNext | hw6/BSTStringSet.java:104-106 | hasNext iff output remains. |
| BstStringSet.BSTIterator.Next | hw6/BSTStringSet.java:109-117 | On an exhausted iterator, no element (the source throws). Otherwise the first remaining label, which it removes from the remaining output. |
| BstStringSet.BSTStringSet.constructor | hw6/BSTStringSet.java:13-15 | A new set is empty. |
| BstStringSet.BSTStringSet.Put | hw6/BSTStringSet.java:18-20 | The string is added, everything already stored stays, and a present string changes nothing. |
| BstStringSet.BSTStringSet.Contains | hw6/BSTStringSet.java:45-47 | True iff the string is stored. |
| BstStringSet.BSTStringSet.Iterator | hw6/BSTStringSet.java:134-136 | The iterator will yield the in-order labels. |
| BstStringSet.BSTStringSet.AsList | hw6/BSTStringSet.java:64-70 | The iteration order, which is strictly ascending. |
| EcHashStringSet.Index | hw6/ECHashStringSet.java:59-61 | The bucket index lies in [0, length). |
| EcHashStringSet.AtMaxLoad | hw6/ECHashStringSet.java:62-64 | The load factor reaches 5 iff size >= 5 x the bucket count. |
| EcHashStringSet.AddedKeeps | hw6/ECHashStringSet.java:25-26 | Appending a string to its bucket keeps every string in its own bucket, adds it to the contents, and adds one to the count. |
| EcHashStringSet.AddedContents | hw6/ECHashStringSet.java:25 | Appending adds exactly that string to the multiset of contents. |
| EcHashStringSet.PlacedFinds | hw6/ECHashStringSet.java:43-45 | A string is stored iff it is in the bucket its hash selects. |
| EcHashStringSet.EmptyBuckets | hw6/ECHashStringSet.java:30-34 | A fresh array of empty buckets. |
| EcHashStringSet.EmptyPlaced | hw6/ECHashStringSet.java:14-17 | Empty buckets hold nothing and are trivially placed. |
| EcHashStringSet.AddTo | hw6/ECHashStringSet.java:25 | The string is appended to the bucket its hash selects. |
| EcHashStringSet.Rehash | hw6/ECHashStringSet.java:36-39 | Reinserting the old strings places them all and keeps their multiset. |
| EcHashStringSet.ECHashStringSet.constructor | hw6/ECHashStringSet.java:12-18 | A new set has 5 empty buckets and size 0. |
| EcHashStringSet.ECHashStringSet.Put | hw6/ECHashStringSet.java:21-27 | The string is added even when present, and size rises by 1. The table doubles first exactly when the load factor is at its maximum. |
| EcHashStringSet.ECHashStringSet.Resize | hw6/ECHashStringSet.java:28-40 | The bucket count doubles, and the size and multiset of strings are kept. |
| EcHashStringSet.ECHashStringSet.Contains | hw6/ECHashStringSet.java:43-45 | True iff the string has been put. |
| EcHashStringSet.ECHashStringSet.AsList | hw6/ECHashStringSet.java:47-54 | The buckets concatenated in order, of length size. |
| EcHashStringSet.PutThenContains | hw6/ECHashStringSet.java:21-45 | After put(s), contains(s) holds. |
| JavaString.CompareTo | hw6/BSTStringSet.java:27-34 | compareTo is 0 exactly on equal strings. |
| JavaString.CompareToFlips | hw6/BSTStringSet.java:27-34 | compareTo is antisymmetric. |
| JavaString.LessTransitive | hw6/BSTStringSet.java:27-34 | The order compareTo induces is transitive. |
| JavaString.Trichotomy | hw6/BSTStringSet.java:27-34 | Of two strings, exactly one is smaller or they are equal. |
| JavaString.HashBits | hw6/ECHashStringSet.java:59-61 | The 32 bits of the hash. |
| JavaString.PositiveHash | hw6/ECHashStringSet.java:59-61 | Masking the sign bit gives a value in [0, 2^31). |
| Seqs.FlattenMembers | hw6/ECHashStringSet.java:47-54 | An element is in the concatenation iff it is in some part. |
| Seqs.FlattenAppend | hw6/ECHashStringSet.java:50-52 | Appending a part appends its elements. |
| Seqs.FlattenUpdate | hw6/ECHashStringSet.java:25 | Replacing one part replaces its elements in the multiset. |
| Lists.RunsUnique | hw2/lists/Lists.java:17-23 | There is at most one way to cut a list into maximal strictly ascending runs. |
| Lists.FirstRunShortest | hw2/lists/Lists.java:17-23 | Runs agree on the length of the first run. |
| Lists.FirstRunEnds | hw2/lists/Lists.java:17-23 | A run ends exactly where the next element is not larger. |
| Lists.RunsTail | hw2/lists/Lists.java:17-23 | Removing the first run leaves the runs of the rest. |
| Lists.CutRun | hw2/lists/Lists.java:38-49 | Cutting off an ascending stretch that ends at a descent extends the runs. |
| Lists.AscendingExtend | hw2/lists/Lists.java:50-52 | A rise extends the current ascending stretch. |
| Lists.ScanRuns | hw2/lists/Lists.java:37-53 | The loop cuts the runs before the last two elements, and the current stretch is ascending. |
| Lists.CutStep | hw2/lists/Lists.java:38-49 | At a descent the current stretch is cut off as a run and counted, and the scan state still holds. |
| Lists.ExtendStep | hw2/lists/Lists.java:50-52 | At a rise the current stretch grows by one element and stays ascending. |
| Lists.FinishRuns | hw2/lists/Lists.java:54-67 | Once the scan reaches the last element, the current stretch completes the natural runs. |
| Lists.ShortRun | hw2/lists/Lists.java:33-34 | A list of at most one element is its own single run. |
| Lists.NaturalRunsAsWritten | hw2/lists/Lists.java:24-72 | As written: empty gives [[]]; when the only descent is between the last two elements the result is just the last element; otherwise the runs. |
| Lists.DefectDropsRun | hw2/lists/Lists.java:61-63 | In that defective case the result does not concatenate to the list. |
| Lists.TwoOneDefective | hw2/lists/Lists.java:54-63 | (2, 1) is a defective input, and its runs are (2), (1). |
| Lists.NaturalRuns | hw2/lists/Lists.java:17-72 | Corrected: an empty list gives one empty run; otherwise the runs are non-empty and strictly ascending, concatenate to the list, and break exactly where an element is not larger than the one before. |
| Lists.EndOfRun | hw2/lists/Lists.java:93-103 | The last position of the strictly ascending stretch that starts at FROM. |
| Lists.AscendingExample | hw2/lists/ListsTest.java:23-25 | As written, (1, 3, 5, ..., 15) is one run. |
| Lists.SingletonExample | hw2/lists/ListsTest.java:27-29 | As written, (2) is one run. |
| Lists.DescendingExample | hw2/lists/ListsTest.java:31-33 | As written, (5, 4, 3, 2, 1) splits into five single runs. |
| Lists.FallingTailExample | hw2/lists/ListsTest.java:35-37 | As written, (1, 2, 3, 2, 1, 0) splits into (1, 2, 3), (2), (1), (0). |
| Lists.RisingTailExample | hw2/lists/ListsTest.java:39-41 | As written, (5, 4, 1, 2, 3) splits into (5), (4), (1, 2, 3). |
| Lists.EmptyExample | hw2/lists/ListsTest.java:43-45 | As written, the empty list gives one empty run. |
| Intervals.Span | hw7/Intervals.java:12-14 | The unit segments from lo to hi. |
| Intervals.Cells | hw7/Intervals.java:12-14 | The unit segments covered by some interval. |
| Intervals.SpanSize | hw7/Intervals.java:20-22 | A merged interval contributes end - start. |
| Intervals.CloseRun | hw7/Intervals.java:20-23 | Closing the current merged interval adds its length to dist. |
| Intervals.ExtendRun | hw7/Intervals.java:24-26 | An overlapping interval that reaches further extends end. |
| Intervals.InsideRun | hw7/Intervals.java:20-26 | An interval inside the current one adds nothing. |
| Intervals.CellsAppend | hw7/Intervals.java:19-27 | One more interval adds its segments. |
| Intervals.CellsPermute | hw7/Intervals.java:16 | Reordering the intervals keeps the covered segments. |
| Intervals.SortByStart | hw7/Intervals.java:16 | The list is reordered in place by start point. |
| Intervals.Sweep | hw7/Intervals.java:17-31 | The sweep over sorted intervals returns the covered length, keeping dist + (end - start) equal to the covered length so far. |
| Intervals.CoveredLength | hw7/Intervals.java:15-32 | The total length of the union of the intervals; the list is left sorted by start point. |
| Intervals.ExampleCovers | hw7/Intervals.java:35-45 | The test intervals cover length 23. |
| Intervals.ExampleLength | hw7/Intervals.java:35-45 | coveredLength gives 23 on the test list. |
| Arrays.Catenate | hw2/arrays/Arrays.java:14-26 | A fresh array of length |A| + |B| holding A followed by B. |
| Arrays.Remove | hw2/arrays/Arrays.java:28-45 | Null iff start + len > |A|; otherwise a fresh array of A[..start] followed by A[start+len..]. |
| Arrays.CatenateExamples | hw2/arrays/ArraysTest.java:24-28 | catenate gives the arrays the tests expect. |
| Arrays.RemoveExamples | hw2/arrays/ArraysTest.java:16-21 | remove gives the arrays the tests expect. |
| MultiArr.SumAppend | hw1/MultiArr/MultiArr.java:40-45 | Adding one more entry to a row sum adds its value. |
| MultiArr.MaxValue | hw1/MultiArr/MultiArr.java:20-34 | The maximum of -1000 and all elements of the ragged rows: at least every element, and attained unless it is -1000. |
| MultiArr.AllRowSums | hw1/MultiArr/MultiArr.java:36-48 | One entry per row, each the sum of its row. |
| MultiArr.Test1 | hw1/MultiArr/MultiArrTest.java:7-11 | The first ragged test array. |
| MultiArr.Test2 | hw1/MultiArr/MultiArrTest.java:15-19 | The second ragged test array. |
| MultiArr.MaxValueExamples | hw1/MultiArr/MultiArrTest.java:10-11 | maxValue gives 13 and 6 on the two test arrays. |
| MultiArr.RowSumsExamples | hw1/MultiArr/MultiArrTest.java:15-20 | allRowSums gives the result arrays the test declares (the test itself asserts nothing). |

The test expectations are proved by methods with asserts and no contract:
- `MultiArr.MaxValueExamples` (13 and 6) and `MultiArr.RowSumsExamples`;
- `Arrays.CatenateExamples` and `Arrays.RemoveExamples`;
- `Intervals.ExampleLength` (23);
- the `Lists.*Example` methods (the ListsTest.java cases).

## Left out

- **Board plumbing.** `toString`, the notifier, `equals`/`hashCode` and the string and char `makeMove` overloads are display, callback and notation plumbing.
- **`get` and `getWinner`** are direct field reads and are not modelled as separate members.
- **Write-only Board counters.** `numEmpty`, `numBlocks` and `_totalOpen` are written but never read, so they are not modelled. Neither are the counters for EMPTY and BLOCKED in the piece-count table: they drift and are never read.
- **The undo stacks** are one stack of tagged entries (a sentinel, or a square with its prior colour), not two stacks kept in step.
- **Java's integer width.** 32-bit `int` overflow is not modelled. The values involved stay far from the limits, except where a row below says otherwise.
- **AtaxxBoard.Board.Undo** does not promise to restore `_jumps` after an extend or to restore `numPass`. The source does neither, and the contract states that.
- **Move.java, PieceColor.java and GameException** are not part of this model. `PieceColor` and `Move` are defined from the usual Ataxx rules. A move the source rejects by throwing is reported through a `false` result.
- **AI plumbing.** Timing, `reportMove`, the unused `Random`, and the `Game` and `Player` classes are left out. `getMove` returns the move instead of its text.
- **The `fixed` field of AtaxxAI.AI** is not in the source. It selects between the search as written (`false`) and the corrected one (`true`), so both can be stated on the same class.
- **AtaxxAI.AI.FindMove** searches a copy made with the corrected `Board.Copy`, which has a history of its own. In the source, the copy at AI.java:56 shares the game board's move list and undo stacks (Board.java:68-70), so every move the search makes is appended to the game board's history, and an undo after `getMove` pops a searched move instead of the last real one. The model leaves the game board untouched and does not capture that side effect.
- **AtaxxAI.AI.GetMove** inherits FindMove's difference: in the source, the game board's move list and undo stacks grow by every move searched.
- **AtaxxAI.AI.ScoreMove** searches a copy with a history of its own. In the source, the copies at AI.java:89 and 107 share the history of the board they copy, so only the squares, side to move, jump count and winner of the board searched from are unchanged. Its move list and undo stacks grow.
- **AtaxxAI.AI.PlayOnCopy** makes the move on a copy with a history of its own. In the source, the move lands in the history shared with the board copied.
- **Unimplemented sorts.** `JavaSort` wraps the library sort. `CountingSort`, `HeapSort`, `QuickSort` and `MSDSort` are empty stubs.
- **MergeSort.Merge and LsdSort.Sort** prove sortedness and permutation. Stability is proved only digit by digit, through BucketKeySorted.
- **LsdSort.Sort** requires values in [0, 10^9). For larger values the digit counter `f *= 10` in `longest` overflows past 2^31. For negative values `floorDiv(item, f) % 10` selects a negative bucket.
- **Sorting.SelectionSort** models the corrected `min`. The `min` as written is under "Findings".
- **`buildRedBlackTree` and the public root accessor.** `buildRedBlackTree` depends on `BTree`, which is not part of this model. The root accessor only exposes a field.
- **The four-argument `RBTreeNode` constructor** is modelled only through the two-argument one, the only way the tree uses it.
- **RedBlackTree.RBTreeNode.constructor** models items as `int`, not as the generic comparable `T`.
- **RedBlackTree.RedBlackTree.RotateRight** relinks the old root before the new top, where the source assigns the new top first. The resulting links and colours are the same. The same applies to RotateLeft.
- **BST set nodes** are modelled as values: `putt` returns the rebuilt tree, so in-place relinking and aliasing are not captured.
- **`iterator(low, high)`** in both set classes and the iterator's `remove()` are unsupported stubs in the source.
- **`String.compareTo` and `String.hashCode`** are defined on UTF-16 code units, as `char` is. Characters above U+FFFF are not treated specially.
- **EcHashStringSet.AtMaxLoad** uses an exact real load factor where the source uses `double`. For bucket counts and sizes far below 2^53 the two agree.
- **The unused `minLoadFactor`** is not modelled.
- **Lists** are modelled as sequences of `int`. `naturalRuns` returns the runs as a sequence of sequences, so destructive relinking and node reuse are not captured. `naturalRunsRecursive` is an empty stub.
- **Intervals.SortByStart** uses an insertion sort in place of the library `List.sort`. The subtraction comparator overflows for start points more than 2^31 apart, which is not modelled.
- **Intervals.CoveredLength** requires x <= y, as its documentation states, and start points that are Java ints.
- **Arrays.Remove** requires start >= 0 and len >= 0. With a negative argument the source throws, or, for some negative lengths, returns an array with repeated entries.
- **`printRowAndCol`** in MultiArr is an empty stub.
- **The image and compound-interest tests** exercise floating-point code that is not part of this model.

## Findings

| source | as written | input that shows it | evidently intended | confidence | as-written member | corrected member |
|---|---|---|---|---|---|---|
| proj2/ataxx/AI.java:122 | A node that exhausts its moves without a cutoff returns 0. | Any unfinished position searched from the full window (-INFTY, INFTY): no cutoff can fire, so the top-level score is 0. | Return `bestScore`, the minimax value. | not executed | AtaxxAI.TopLevelScoreIsZero | AtaxxAI.AlphaBetaMatchesMinimax |
| proj2/ataxx/AI.java:92-122 | Because of the `return 0` above, the first move of the top-level loop scores 0 and moves the window's bound to 0, and no later child can beat it. | Any position where no legal move ends the game: RED and BLUE both play the first legal move in possMoves order. | Play a move whose position has the minimax value. | not executed | AtaxxAI.AsWrittenPlaysFirstMove | AtaxxAI.SearchChoiceIsBest |
| proj2/ataxx/AI.java:159-161 | The leaf score of an unfinished game is the mover's pieces minus the opponent's. | The same position with BLUE to move scores the negation of its RED-to-move score, while win values are RED-positive. | Score RED's pieces minus BLUE's, whoever is to move. | not executed | AtaxxAI.StaticScoreFollowsMover | AtaxxAI.RedScoreIgnoresMover |
| proj2/ataxx/Board.java:68-70 | The copy constructor shares the move list and undo stacks with the original. | A move made on a copy appears in the original's history: 2 recorded moves instead of 1. | A copy with a history of its own, as the comment at lines 58-59 says. | not executed | AtaxxBoard.SharedHistoryWitness | AtaxxBoard.SeparateHistoryWitness |
| hw7/MySortingAlgorithms.java:87-88 | `min` starts its index at 0 and its running minimum at Integer.MAX_VALUE. | [1, Integer.MAX_VALUE] with k = 2: at j = 1 nothing is below MAX_VALUE, so index 0 is swapped to position 1, giving [MAX_VALUE, 1]. | Start the index at j. | not executed | Sorting.SelectionAsWrittenUnsorts | Sorting.SelectionSort |
| hw2/lists/Lists.java:54-63 | When the only descent is between the last two elements, `result` is overwritten with the last element alone. | (2, 1) yields ((1)) instead of ((2), (1)). | Link the last element as a further run. | not executed | Lists.DefectDropsRun | Lists.NaturalRuns |
