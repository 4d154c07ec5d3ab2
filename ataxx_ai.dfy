/** The Ataxx computer player: depth-limited minimax with alpha-beta
 *  pruning over copies of the board.
 *
 *  The search is specified by functions over a value snapshot of the board
 *  (State): Search is the pruned search, Minimax the plain game-tree value
 *  it should agree with. The AI class runs the search over Board objects
 *  and is proved to compute Search. */
module AtaxxAI {
  import opened Wrappers
  import opened AtaxxTypes
  import opened AtaxxBoard

  /** Largest Java int. */
  const INT_MAX := 0x7fff_ffff
  /** Maximum search depth before static evaluation. */
  const MAX_DEPTH := 4
  /** Magnitude of a won position (RED positive, BLUE negative). */
  const WINNING_VALUE := INT_MAX - 20
  /** A magnitude greater than any position value. */
  const INFTY := INT_MAX

  /** The part of a board the search reads. */
  datatype State = State(squares: seq<Cell>, whoseMove: PieceColor, jumps: int, winner: Option<PieceColor>)

  predicate WellFormed(st: State) {
    |st.squares| == CELLS && st.whoseMove.IsPiece()
  }

  /** The state after the side to move plays M, as MakeMove leaves it. */
  function Play(st: State, m: Move): (t: State)
    requires WellFormed(st)
    ensures WellFormed(t) && t.whoseMove == st.whoseMove.Opposite()
  {
    var who := st.whoseMove;
    if m.Pass? then State(st.squares, who.Opposite(), 0, st.winner)
    else
      var s := Moved(st.squares, who, m);
      var jumps := if m.IsJump() then st.jumps + 1 else 0;
      State(s, who.Opposite(), jumps, WinnerAfter(s, who, jumps))
  }

  /** The moves the search tries, in possMoves order. */
  function Moves(st: State): seq<Move>
    requires WellFormed(st)
  {
    LegalMoves(st.squares, st.whoseMove, st.whoseMove)
  }

  /** The heuristic value of a position as written: +/- WINNINGVALUE for a
   *  RED/BLUE win, 0 for a draw, otherwise the lead in pieces of the side
   *  to move. */
  function StaticScore(st: State, winningValue: int): (r: int)
    requires WellFormed(st)
  {
    match st.winner
    case Some(RED) => winningValue
    case Some(BLUE) => -winningValue
    case Some(_) => 0
    case None => Count(st.squares, st.whoseMove) - Count(st.squares, st.whoseMove.Opposite())
  }

  /** The heuristic value on the scale the search uses throughout, positive
   *  for RED: the lead of RED in pieces when the game is undecided. */
  function RedScore(st: State, winningValue: int): (r: int)
    requires WellFormed(st)
  {
    match st.winner
    case Some(RED) => winningValue
    case Some(BLUE) => -winningValue
    case Some(_) => 0
    case None => Count(st.squares, RED) - Count(st.squares, BLUE)
  }

  /** The leaf value: as written, or on RED's scale. */
  function Leaf(st: State, winningValue: int, fixed: bool): int
    requires WellFormed(st)
  {
    if fixed then RedScore(st, winningValue) else StaticScore(st, winningValue)
  }

  function Max(a: int, b: int): int { if a < b then b else a }
  function Min(a: int, b: int): int { if a < b then a else b }

  /** The score a node returns, and the last move that strictly improved its
   *  best score (CHOICE if none did). */
  datatype Outcome = Outcome(score: int, choice: Option<Move>)

  // FIXED selects the search as written (false) or as intended (true). It
  // decides two things: the leaf value (StaticScore or RedScore), and what a
  // node returns after trying all its moves without a cutoff (the constant
  // 0, or the best score found).

  /** The value of minMax(st, depth, _, sense, alpha, beta). */
  function Search(st: State, depth: nat, sense: int, alpha: int, beta: int, fixed: bool): int
    requires WellFormed(st)
    decreases depth, 1, 0
  {
    if depth == 0 || st.winner.Some? then Leaf(st, WINNING_VALUE + depth, fixed)
    else if sense == 1 then ScanMax(st, Moves(st), depth, alpha, beta, -INFTY, None, fixed).score
    else ScanMin(st, Moves(st), depth, alpha, beta, INFTY, None, fixed).score
  }

  /** The maximising loop over MOVES with running ALPHA and BEST. */
  function ScanMax(st: State, moves: seq<Move>, depth: nat, alpha: int, beta: int, best: int,
                   choice: Option<Move>, fixed: bool): Outcome
    requires WellFormed(st) && depth > 0
    decreases depth, 0, |moves|
  {
    if moves == [] then Outcome(if fixed then best else 0, choice)
    else
      var score := Search(Play(st, moves[0]), depth - 1, -1, alpha, beta, fixed);
      if score > best then
        var alpha' := Max(alpha, score);
        if alpha' >= beta then Outcome(score, Some(moves[0]))
        else ScanMax(st, moves[1..], depth, alpha', beta, score, Some(moves[0]), fixed)
      else ScanMax(st, moves[1..], depth, alpha, beta, best, choice, fixed)
  }

  /** The minimising loop over MOVES with running BETA and BEST. */
  function ScanMin(st: State, moves: seq<Move>, depth: nat, alpha: int, beta: int, best: int,
                   choice: Option<Move>, fixed: bool): Outcome
    requires WellFormed(st) && depth > 0
    decreases depth, 0, |moves|
  {
    if moves == [] then Outcome(if fixed then best else 0, choice)
    else
      var score := Search(Play(st, moves[0]), depth - 1, 1, alpha, beta, fixed);
      if score < best then
        var beta' := Min(beta, score);
        if alpha >= beta' then Outcome(score, Some(moves[0]))
        else ScanMin(st, moves[1..], depth, alpha, beta', score, Some(moves[0]), fixed)
      else ScanMin(st, moves[1..], depth, alpha, beta, best, choice, fixed)
  }

  /** One step of ScanMax: what the scan over moves[i..] is, once the score
   *  of moves[i] is known. */
  lemma ScanMaxStep(st: State, moves: seq<Move>, i: int, depth: nat, alpha: int, beta: int, best: int,
                    choice: Option<Move>, score: int, fixed: bool)
    requires WellFormed(st) && depth > 0 && 0 <= i < |moves|
    requires score == Search(Play(st, moves[i]), depth - 1, -1, alpha, beta, fixed)
    ensures var o := ScanMax(st, moves[i..], depth, alpha, beta, best, choice, fixed);
            if score <= best then o == ScanMax(st, moves[i + 1..], depth, alpha, beta, best, choice, fixed)
            else if Max(alpha, score) >= beta then o == Outcome(score, Some(moves[i]))
            else o == ScanMax(st, moves[i + 1..], depth, Max(alpha, score), beta, score, Some(moves[i]), fixed)
  {
    assert moves[i..][0] == moves[i] && moves[i..][1..] == moves[i + 1..];
  }

  /** One step of ScanMin: what the scan over moves[i..] is, once the score
   *  of moves[i] is known. */
  lemma ScanMinStep(st: State, moves: seq<Move>, i: int, depth: nat, alpha: int, beta: int, best: int,
                    choice: Option<Move>, score: int, fixed: bool)
    requires WellFormed(st) && depth > 0 && 0 <= i < |moves|
    requires score == Search(Play(st, moves[i]), depth - 1, 1, alpha, beta, fixed)
    ensures var o := ScanMin(st, moves[i..], depth, alpha, beta, best, choice, fixed);
            if score >= best then o == ScanMin(st, moves[i + 1..], depth, alpha, beta, best, choice, fixed)
            else if alpha >= Min(beta, score) then o == Outcome(score, Some(moves[i]))
            else o == ScanMin(st, moves[i + 1..], depth, alpha, Min(beta, score), score, Some(moves[i]), fixed)
  {
    assert moves[i..][0] == moves[i] && moves[i..][1..] == moves[i + 1..];
  }

  /** The move a saving call leaves in lastFoundMove, PRIOR if it sets none. */
  function SearchChoice(st: State, depth: nat, sense: int, alpha: int, beta: int, prior: Option<Move>, fixed: bool)
    : Option<Move>
    requires WellFormed(st)
  {
    if depth == 0 || st.winner.Some? then prior
    else if sense == 1 then ScanMax(st, Moves(st), depth, alpha, beta, -INFTY, prior, fixed).choice
    else ScanMin(st, Moves(st), depth, alpha, beta, INFTY, prior, fixed).choice
  }

  // ---------------------------------------------------------------------
  // The reference: plain minimax, no pruning

  /** The game-tree value the search estimates: static at the horizon or
   *  on a decided position, otherwise the best child for the side of
   *  SENSE; a node without moves keeps the initial -INFTY or INFTY. */
  function Minimax(st: State, depth: nat, sense: int): int
    requires WellFormed(st)
    decreases depth, 1, 0
  {
    if depth == 0 || st.winner.Some? then RedScore(st, WINNING_VALUE + depth)
    else if sense == 1 then MaxOver(st, Moves(st), depth)
    else MinOver(st, Moves(st), depth)
  }

  function MaxOver(st: State, moves: seq<Move>, depth: nat): int
    requires WellFormed(st) && depth > 0
    decreases depth, 0, |moves|
  {
    if moves == [] then -INFTY
    else Max(Minimax(Play(st, moves[0]), depth - 1, -1), MaxOver(st, moves[1..], depth))
  }

  function MinOver(st: State, moves: seq<Move>, depth: nat): int
    requires WellFormed(st) && depth > 0
    decreases depth, 0, |moves|
  {
    if moves == [] then INFTY
    else Min(Minimax(Play(st, moves[0]), depth - 1, 1), MinOver(st, moves[1..], depth))
  }

  // ---------------------------------------------------------------------
  // Bounds

  lemma {:induction false} CountAtMost(s: seq<Cell>, c: PieceColor)
    ensures Count(s, c) <= |s|
  {
    if s != [] {
      CountAtMost(s[..|s| - 1], c);
    }
  }

  /** Both leaf values stay within the winning value in magnitude. */
  lemma LeafBounds(st: State, winningValue: int)
    requires WellFormed(st) && CELLS <= winningValue
    ensures -winningValue <= StaticScore(st, winningValue) <= winningValue
    ensures -winningValue <= RedScore(st, winningValue) <= winningValue
  {
    CountAtMost(st.squares, RED);
    CountAtMost(st.squares, BLUE);
  }

  /** As written, the score of an undecided position changes sign with the
   *  side to move: with BLUE to move it is BLUE's lead, so a minimising
   *  BLUE search prefers positions where BLUE has fewer pieces. */
  lemma StaticScoreFollowsMover(st: State, winningValue: int)
    requires WellFormed(st) && st.winner.None?
    ensures StaticScore(st.(whoseMove := st.whoseMove.Opposite()), winningValue) == -StaticScore(st, winningValue)
    ensures st.whoseMove == BLUE ==> StaticScore(st, winningValue) == -RedScore(st, winningValue)
  {
  }

  /** Corrected, the score does not depend on the side to move, and it is
   *  positive exactly when RED leads, as the winning values are. */
  lemma RedScoreIgnoresMover(st: State, winningValue: int, who: PieceColor)
    requires WellFormed(st) && who.IsPiece() && 0 < winningValue
    ensures RedScore(st.(whoseMove := who), winningValue) == RedScore(st, winningValue)
    ensures RedScore(st, winningValue) > 0 <==>
              st.winner == Some(RED) || (st.winner.None? && Count(st.squares, RED) > Count(st.squares, BLUE))
  {
  }

  /** A win found with more depth left scores further from zero, so the
   *  search prefers the quickest win and the slowest loss. */
  lemma WinScoreGrowsWithDepth(st: State, d0: nat, d1: nat, sense: int, alpha: int, beta: int, fixed: bool)
    requires WellFormed(st) && st.winner.Some? && st.winner.value.IsPiece() && d0 < d1
    ensures var v0 := Search(st, d0, sense, alpha, beta, fixed);
            var v1 := Search(st, d1, sense, alpha, beta, fixed);
            if st.winner == Some(RED) then 0 < v0 < v1 else v1 < v0 < 0
  {
  }

  /** Every score lies within [-INFTY, INFTY]; as written, strictly inside,
   *  within the winning value plus the depth. */
  lemma {:induction false} SearchBounded(st: State, depth: nat, sense: int, alpha: int, beta: int, fixed: bool)
    requires WellFormed(st) && depth <= MAX_DEPTH
    ensures -INFTY <= Search(st, depth, sense, alpha, beta, fixed) <= INFTY
    ensures !fixed ==> -(WINNING_VALUE + depth) <= Search(st, depth, sense, alpha, beta, fixed) <= WINNING_VALUE + depth
    decreases depth, 1, 0
  {
    if depth == 0 || st.winner.Some? {
      LeafBounds(st, WINNING_VALUE + depth);
    } else if sense == 1 {
      ScanMaxBounded(st, Moves(st), depth, alpha, beta, -INFTY, None, fixed);
    } else {
      ScanMinBounded(st, Moves(st), depth, alpha, beta, INFTY, None, fixed);
    }
  }

  lemma {:induction false} ScanMaxBounded(st: State, moves: seq<Move>, depth: nat, alpha: int, beta: int, best: int,
                                          choice: Option<Move>, fixed: bool)
    requires WellFormed(st) && 0 < depth <= MAX_DEPTH && -INFTY <= best <= INFTY
    ensures -INFTY <= ScanMax(st, moves, depth, alpha, beta, best, choice, fixed).score <= INFTY
    ensures !fixed ==> -(WINNING_VALUE + depth) <= ScanMax(st, moves, depth, alpha, beta, best, choice, fixed).score
                       <= WINNING_VALUE + depth
    decreases depth, 0, |moves|
  {
    if moves != [] {
      var score := Search(Play(st, moves[0]), depth - 1, -1, alpha, beta, fixed);
      SearchBounded(Play(st, moves[0]), depth - 1, -1, alpha, beta, fixed);
      if score > best {
        if Max(alpha, score) < beta {
          ScanMaxBounded(st, moves[1..], depth, Max(alpha, score), beta, score, Some(moves[0]), fixed);
        }
      } else {
        ScanMaxBounded(st, moves[1..], depth, alpha, beta, best, choice, fixed);
      }
    }
  }

  lemma {:induction false} ScanMinBounded(st: State, moves: seq<Move>, depth: nat, alpha: int, beta: int, best: int,
                                          choice: Option<Move>, fixed: bool)
    requires WellFormed(st) && 0 < depth <= MAX_DEPTH && -INFTY <= best <= INFTY
    ensures -INFTY <= ScanMin(st, moves, depth, alpha, beta, best, choice, fixed).score <= INFTY
    ensures !fixed ==> -(WINNING_VALUE + depth) <= ScanMin(st, moves, depth, alpha, beta, best, choice, fixed).score
                       <= WINNING_VALUE + depth
    decreases depth, 0, |moves|
  {
    if moves != [] {
      var score := Search(Play(st, moves[0]), depth - 1, 1, alpha, beta, fixed);
      SearchBounded(Play(st, moves[0]), depth - 1, 1, alpha, beta, fixed);
      if score < best {
        if alpha < Min(beta, score) {
          ScanMinBounded(st, moves[1..], depth, alpha, Min(beta, score), score, Some(moves[0]), fixed);
        }
      } else {
        ScanMinBounded(st, moves[1..], depth, alpha, beta, best, choice, fixed);
      }
    }
  }

  /** The minimax value lies within [-INFTY, INFTY]: a leaf is within the
   *  winning value plus the depth, and each side of the window comes from
   *  the starting value of the scan over moves. */
  lemma MinimaxBounded(st: State, depth: nat, sense: int)
    requires WellFormed(st) && depth <= MAX_DEPTH
    ensures -INFTY <= Minimax(st, depth, sense) <= INFTY
  {
    if depth == 0 || st.winner.Some? {
      LeafBounds(st, WINNING_VALUE + depth);
    } else if sense == 1 {
      MaxOverAtLeast(st, Moves(st), depth);
      MaxOverAtMost(st, Moves(st), depth);
    } else {
      MinOverAtMost(st, Moves(st), depth);
      MinOverAtLeast(st, Moves(st), depth);
    }
  }

  /** A minimising node never scores above INFTY. */
  lemma MinNodeAtMost(st: State, depth: nat)
    requires WellFormed(st) && depth <= MAX_DEPTH
    ensures Minimax(st, depth, -1) <= INFTY
  {
    if depth == 0 || st.winner.Some? {
      LeafBounds(st, WINNING_VALUE + depth);
    } else {
      MinOverAtMost(st, Moves(st), depth);
    }
  }

  /** A maximising node never scores below -INFTY. */
  lemma MaxNodeAtLeast(st: State, depth: nat)
    requires WellFormed(st) && depth <= MAX_DEPTH
    ensures Minimax(st, depth, 1) >= -INFTY
  {
    if depth == 0 || st.winner.Some? {
      LeafBounds(st, WINNING_VALUE + depth);
    } else {
      MaxOverAtLeast(st, Moves(st), depth);
    }
  }

  /** The maximum over moves is at most INFTY: each move leads to a
   *  minimising node. */
  lemma {:induction false} MaxOverAtMost(st: State, moves: seq<Move>, depth: nat)
    requires WellFormed(st) && 0 < depth <= MAX_DEPTH
    ensures MaxOver(st, moves, depth) <= INFTY
    decreases |moves|
  {
    if moves != [] {
      var child := Play(st, moves[0]);
      MinNodeAtMost(child, depth - 1);
      MaxOverAtMost(st, moves[1..], depth);
      assert MaxOver(st, moves, depth) == Max(Minimax(child, depth - 1, -1), MaxOver(st, moves[1..], depth));
    }
  }

  /** The minimum over moves is at least -INFTY: each move leads to a
   *  maximising node. */
  lemma {:induction false} MinOverAtLeast(st: State, moves: seq<Move>, depth: nat)
    requires WellFormed(st) && 0 < depth <= MAX_DEPTH
    ensures MinOver(st, moves, depth) >= -INFTY
    decreases |moves|
  {
    if moves != [] {
      var child := Play(st, moves[0]);
      MaxNodeAtLeast(child, depth - 1);
      MinOverAtLeast(st, moves[1..], depth);
      assert MinOver(st, moves, depth) == Min(Minimax(child, depth - 1, 1), MinOver(st, moves[1..], depth));
    }
  }

  // ---------------------------------------------------------------------
  // Alpha-beta against minimax

  /** Fail-soft bounds of score R against value V in window (ALPHA, BETA):
   *  a score at or below ALPHA is an upper bound of V, one at or above BETA
   *  a lower bound, and one strictly inside the window is V itself. */
  predicate FailSoft(r: int, v: int, alpha: int, beta: int) {
    (r <= alpha ==> v <= r) && (beta <= r ==> r <= v) && (alpha < r < beta ==> v == r)
  }

  /** Alpha-beta is fail-soft sound against minimax. */
  lemma {:induction false} SearchSound(st: State, depth: nat, sense: int, alpha: int, beta: int)
    requires WellFormed(st) && -INFTY <= alpha < beta <= INFTY
    ensures FailSoft(Search(st, depth, sense, alpha, beta, true), Minimax(st, depth, sense), alpha, beta)
    decreases depth, 1, 0
  {
    if depth == 0 || st.winner.Some? {
    } else if sense == 1 {
      ScanMaxSound(st, Moves(st), depth, alpha, beta, -INFTY, None);
      MaxOverAtLeast(st, Moves(st), depth);
    } else {
      ScanMinSound(st, Moves(st), depth, alpha, beta, INFTY, None);
      MinOverAtMost(st, Moves(st), depth);
    }
  }

  lemma {:induction false} MaxOverAtLeast(st: State, moves: seq<Move>, depth: nat)
    requires WellFormed(st) && depth > 0
    ensures MaxOver(st, moves, depth) >= -INFTY
    decreases |moves|
  {
    if moves != [] {
      MaxOverAtLeast(st, moves[1..], depth);
    }
  }

  lemma {:induction false} MinOverAtMost(st: State, moves: seq<Move>, depth: nat)
    requires WellFormed(st) && depth > 0
    ensures MinOver(st, moves, depth) <= INFTY
    decreases |moves|
  {
    if moves != [] {
      MinOverAtMost(st, moves[1..], depth);
    }
  }

  /** The maximising loop keeps the fail-soft bounds against the best of
   *  BEST and the minimax values of the moves left. */
  lemma {:induction false} ScanMaxSound(st: State, moves: seq<Move>, depth: nat, alpha: int, beta: int, best: int,
                                        choice: Option<Move>)
    requires WellFormed(st) && depth > 0 && -INFTY <= best <= alpha < beta <= INFTY
    ensures FailSoft(ScanMax(st, moves, depth, alpha, beta, best, choice, true).score,
                     Max(best, MaxOver(st, moves, depth)), alpha, beta)
    decreases depth, 0, |moves|
  {
    if moves != [] {
      var child := Play(st, moves[0]);
      var score := Search(child, depth - 1, -1, alpha, beta, true);
      var v := Minimax(child, depth - 1, -1);
      var rest := MaxOver(st, moves[1..], depth);
      assert MaxOver(st, moves, depth) == Max(v, rest);
      SearchSound(child, depth - 1, -1, alpha, beta);
      if score <= best {
        ScanMaxSound(st, moves[1..], depth, alpha, beta, best, choice);
        MaxSkipped(alpha, beta, best, score, v, ScanMax(st, moves[1..], depth, alpha, beta, best, choice, true).score, rest);
      } else if Max(alpha, score) >= beta {
        MaxCutoff(alpha, beta, best, score, v, rest);
      } else {
        var alpha' := Max(alpha, score);
        ScanMaxSound(st, moves[1..], depth, alpha', beta, score, Some(moves[0]));
        MaxImproved(alpha, beta, best, score, v,
                    ScanMax(st, moves[1..], depth, alpha', beta, score, Some(moves[0]), true).score, rest);
      }
    }
  }

  lemma MaxSkipped(alpha: int, beta: int, best: int, score: int, v: int, r: int, rest: int)
    requires best <= alpha < beta && score <= best && FailSoft(score, v, alpha, beta)
    requires FailSoft(r, Max(best, rest), alpha, beta)
    ensures FailSoft(r, Max(best, Max(v, rest)), alpha, beta)
  {
  }

  lemma MaxCutoff(alpha: int, beta: int, best: int, score: int, v: int, rest: int)
    requires alpha < beta && score > best && Max(alpha, score) >= beta && FailSoft(score, v, alpha, beta)
    ensures FailSoft(score, Max(best, Max(v, rest)), alpha, beta)
  {
  }

  lemma MaxImproved(alpha: int, beta: int, best: int, score: int, v: int, r: int, rest: int)
    requires best <= alpha < beta && score > best && Max(alpha, score) < beta && FailSoft(score, v, alpha, beta)
    requires FailSoft(r, Max(score, rest), Max(alpha, score), beta)
    ensures FailSoft(r, Max(best, Max(v, rest)), alpha, beta)
  {
  }

  /** The minimising loop keeps the fail-soft bounds against the least of
   *  BEST and the minimax values of the moves left. */
  lemma {:induction false} ScanMinSound(st: State, moves: seq<Move>, depth: nat, alpha: int, beta: int, best: int,
                                        choice: Option<Move>)
    requires WellFormed(st) && depth > 0 && -INFTY <= alpha < beta <= best <= INFTY
    ensures FailSoft(ScanMin(st, moves, depth, alpha, beta, best, choice, true).score,
                     Min(best, MinOver(st, moves, depth)), alpha, beta)
    decreases depth, 0, |moves|
  {
    if moves != [] {
      var child := Play(st, moves[0]);
      var score := Search(child, depth - 1, 1, alpha, beta, true);
      var v := Minimax(child, depth - 1, 1);
      var rest := MinOver(st, moves[1..], depth);
      assert MinOver(st, moves, depth) == Min(v, rest);
      SearchSound(child, depth - 1, 1, alpha, beta);
      if score >= best {
        ScanMinSound(st, moves[1..], depth, alpha, beta, best, choice);
        MinSkipped(alpha, beta, best, score, v, ScanMin(st, moves[1..], depth, alpha, beta, best, choice, true).score, rest);
      } else if alpha >= Min(beta, score) {
        MinCutoff(alpha, beta, best, score, v, rest);
      } else {
        var beta' := Min(beta, score);
        ScanMinSound(st, moves[1..], depth, alpha, beta', score, Some(moves[0]));
        MinImproved(alpha, beta, best, score, v,
                    ScanMin(st, moves[1..], depth, alpha, beta', score, Some(moves[0]), true).score, rest);
      }
    }
  }

  lemma MinSkipped(alpha: int, beta: int, best: int, score: int, v: int, r: int, rest: int)
    requires alpha < beta <= best && score >= best && FailSoft(score, v, alpha, beta)
    requires FailSoft(r, Min(best, rest), alpha, beta)
    ensures FailSoft(r, Min(best, Min(v, rest)), alpha, beta)
  {
  }

  lemma MinCutoff(alpha: int, beta: int, best: int, score: int, v: int, rest: int)
    requires alpha < beta && score < best && alpha >= Min(beta, score) && FailSoft(score, v, alpha, beta)
    ensures FailSoft(score, Min(best, Min(v, rest)), alpha, beta)
  {
  }

  lemma MinImproved(alpha: int, beta: int, best: int, score: int, v: int, r: int, rest: int)
    requires alpha < beta <= best && score < best && alpha < Min(beta, score) && FailSoft(score, v, alpha, beta)
    requires FailSoft(r, Min(score, rest), alpha, Min(beta, score))
    ensures FailSoft(r, Min(best, Min(v, rest)), alpha, beta)
  {
  }

  /** Called with the full window, as findMove calls it, the search that
   *  returns its best score computes the minimax value exactly. */
  lemma AlphaBetaMatchesMinimax(st: State, depth: nat, sense: int)
    requires WellFormed(st) && depth <= MAX_DEPTH
    ensures Search(st, depth, sense, -INFTY, INFTY, true) == Minimax(st, depth, sense)
  {
    SearchSound(st, depth, sense, -INFTY, INFTY);
    SearchBounded(st, depth, sense, -INFTY, INFTY, true);
    MinimaxBounded(st, depth, sense);
  }

  // ---------------------------------------------------------------------
  // The search as written

  /** As written, a node searched with the full window that has any depth
   *  left and no winner returns 0: no score reaches INFTY, so the loop
   *  never cuts off and falls through to the final return. */
  lemma TopLevelScoreIsZero(st: State, depth: nat, sense: int)
    requires WellFormed(st) && 0 < depth <= MAX_DEPTH && st.winner.None?
    ensures Search(st, depth, sense, -INFTY, INFTY, false) == 0
  {
    if sense == 1 {
      ScanMaxFallsThrough(st, Moves(st), depth, -INFTY, -INFTY, None);
    } else {
      ScanMinFallsThrough(st, Moves(st), depth, INFTY, INFTY, None);
    }
  }

  lemma {:induction false} ScanMaxFallsThrough(st: State, moves: seq<Move>, depth: nat, alpha: int, best: int,
                                               choice: Option<Move>)
    requires WellFormed(st) && 0 < depth <= MAX_DEPTH && alpha < INFTY
    ensures ScanMax(st, moves, depth, alpha, INFTY, best, choice, false).score == 0
    decreases |moves|
  {
    if moves != [] {
      var score := Search(Play(st, moves[0]), depth - 1, -1, alpha, INFTY, false);
      SearchBounded(Play(st, moves[0]), depth - 1, -1, alpha, INFTY, false);
      if score > best {
        ScanMaxFallsThrough(st, moves[1..], depth, Max(alpha, score), score, Some(moves[0]));
      } else {
        ScanMaxFallsThrough(st, moves[1..], depth, alpha, best, choice);
      }
    }
  }

  lemma {:induction false} ScanMinFallsThrough(st: State, moves: seq<Move>, depth: nat, beta: int, best: int,
                                               choice: Option<Move>)
    requires WellFormed(st) && 0 < depth <= MAX_DEPTH && -INFTY < beta
    ensures ScanMin(st, moves, depth, -INFTY, beta, best, choice, false).score == 0
    decreases |moves|
  {
    if moves != [] {
      var score := Search(Play(st, moves[0]), depth - 1, 1, -INFTY, beta, false);
      SearchBounded(Play(st, moves[0]), depth - 1, 1, -INFTY, beta, false);
      if score < best {
        ScanMinFallsThrough(st, moves[1..], depth, Min(beta, score), score, Some(moves[0]));
      } else {
        ScanMinFallsThrough(st, moves[1..], depth, beta, best, choice);
      }
    }
  }

  // ---------------------------------------------------------------------
  // The saved move

  /** The saved move is the prior one or one of the moves scanned. */
  lemma {:induction false} ScanMaxChoice(st: State, moves: seq<Move>, depth: nat, alpha: int, beta: int, best: int,
                                         choice: Option<Move>, fixed: bool)
    requires WellFormed(st) && depth > 0
    ensures var c := ScanMax(st, moves, depth, alpha, beta, best, choice, fixed).choice;
            c == choice || (c.Some? && c.value in moves)
    decreases |moves|
  {
    if moves != [] {
      var score := Search(Play(st, moves[0]), depth - 1, -1, alpha, beta, fixed);
      if score > best {
        ScanMaxChoice(st, moves[1..], depth, Max(alpha, score), beta, score, Some(moves[0]), fixed);
      } else {
        ScanMaxChoice(st, moves[1..], depth, alpha, beta, best, choice, fixed);
      }
    }
  }

  lemma {:induction false} ScanMinChoice(st: State, moves: seq<Move>, depth: nat, alpha: int, beta: int, best: int,
                                         choice: Option<Move>, fixed: bool)
    requires WellFormed(st) && depth > 0
    ensures var c := ScanMin(st, moves, depth, alpha, beta, best, choice, fixed).choice;
            c == choice || (c.Some? && c.value in moves)
    decreases |moves|
  {
    if moves != [] {
      var score := Search(Play(st, moves[0]), depth - 1, 1, alpha, beta, fixed);
      if score < best {
        ScanMinChoice(st, moves[1..], depth, alpha, Min(beta, score), score, Some(moves[0]), fixed);
      } else {
        ScanMinChoice(st, moves[1..], depth, alpha, beta, best, choice, fixed);
      }
    }
  }

  /** A saving search leaves either the prior move or a legal step of the
   *  side to move. */
  lemma SearchChoiceIsLegal(st: State, depth: nat, sense: int, alpha: int, beta: int, prior: Option<Move>,
                            fixed: bool)
    requires WellFormed(st)
    ensures var c := SearchChoice(st, depth, sense, alpha, beta, prior, fixed);
            c == prior || (c.Some? && c.value.Step? && IsLegal(st.squares, st.whoseMove, c.value))
  {
    var c := SearchChoice(st, depth, sense, alpha, beta, prior, fixed);
    if depth > 0 && st.winner.None? {
      if sense == 1 {
        ScanMaxChoice(st, Moves(st), depth, alpha, beta, -INFTY, prior, fixed);
      } else {
        ScanMinChoice(st, Moves(st), depth, alpha, beta, INFTY, prior, fixed);
      }
      if c != prior {
        LegalMovesMembers(st.squares, st.whoseMove, st.whoseMove, c.value);
      }
    }
  }

  /** The score of a scan does not depend on the move it carries. */
  lemma {:induction false} ScanMaxScore(st: State, moves: seq<Move>, depth: nat, alpha: int, beta: int, best: int,
                                        c0: Option<Move>, c1: Option<Move>, fixed: bool)
    requires WellFormed(st) && depth > 0
    ensures ScanMax(st, moves, depth, alpha, beta, best, c0, fixed).score
         == ScanMax(st, moves, depth, alpha, beta, best, c1, fixed).score
    decreases |moves|
  {
    if moves != [] {
      ScanMaxScore(st, moves[1..], depth, alpha, beta, best, c0, c1, fixed);
    }
  }

  lemma {:induction false} ScanMinScore(st: State, moves: seq<Move>, depth: nat, alpha: int, beta: int, best: int,
                                        c0: Option<Move>, c1: Option<Move>, fixed: bool)
    requires WellFormed(st) && depth > 0
    ensures ScanMin(st, moves, depth, alpha, beta, best, c0, fixed).score
         == ScanMin(st, moves, depth, alpha, beta, best, c1, fixed).score
    decreases |moves|
  {
    if moves != [] {
      ScanMinScore(st, moves[1..], depth, alpha, beta, best, c0, c1, fixed);
    }
  }

  /** Corrected, each move the maximising loop saves over a window
   *  (BEST, INFTY) leads to a child whose minimax value is the score the
   *  loop returns, given that the move carried in has the value BEST. */
  lemma {:induction false} ScanMaxChoiceValue(st: State, moves: seq<Move>, depth: nat, best: int,
                                              choice: Option<Move>)
    requires WellFormed(st) && 0 < depth <= MAX_DEPTH && -INFTY <= best < INFTY
    requires choice.Some? ==> Minimax(Play(st, choice.value), depth - 1, -1) == best
    ensures var o := ScanMax(st, moves, depth, best, INFTY, best, choice, true);
            o.choice.Some? ==> Minimax(Play(st, o.choice.value), depth - 1, -1) == o.score
    decreases |moves|
  {
    if moves != [] {
      var child := Play(st, moves[0]);
      var score := Search(child, depth - 1, -1, best, INFTY, true);
      SearchSound(child, depth - 1, -1, best, INFTY);
      SearchBounded(child, depth - 1, -1, best, INFTY, true);
      MinimaxBounded(child, depth - 1, -1);
      if score > best && score < INFTY {
        assert Minimax(child, depth - 1, -1) == score;
        assert ScanMax(st, moves, depth, best, INFTY, best, choice, true)
            == ScanMax(st, moves[1..], depth, score, INFTY, score, Some(moves[0]), true);
        ScanMaxChoiceValue(st, moves[1..], depth, score, Some(moves[0]));
      } else if score <= best {
        assert ScanMax(st, moves, depth, best, INFTY, best, choice, true)
            == ScanMax(st, moves[1..], depth, best, INFTY, best, choice, true);
        ScanMaxChoiceValue(st, moves[1..], depth, best, choice);
      }
    }
  }

  /** The mirror image of ScanMaxChoiceValue for the minimising loop over a
   *  window (-INFTY, BEST). */
  lemma {:induction false} ScanMinChoiceValue(st: State, moves: seq<Move>, depth: nat, best: int,
                                              choice: Option<Move>)
    requires WellFormed(st) && 0 < depth <= MAX_DEPTH && -INFTY < best <= INFTY
    requires choice.Some? ==> Minimax(Play(st, choice.value), depth - 1, 1) == best
    ensures var o := ScanMin(st, moves, depth, -INFTY, best, best, choice, true);
            o.choice.Some? ==> Minimax(Play(st, o.choice.value), depth - 1, 1) == o.score
    decreases |moves|
  {
    if moves != [] {
      var child := Play(st, moves[0]);
      var score := Search(child, depth - 1, 1, -INFTY, best, true);
      SearchSound(child, depth - 1, 1, -INFTY, best);
      SearchBounded(child, depth - 1, 1, -INFTY, best, true);
      MinimaxBounded(child, depth - 1, 1);
      if score < best && score > -INFTY {
        assert Minimax(child, depth - 1, 1) == score;
        assert ScanMin(st, moves, depth, -INFTY, best, best, choice, true)
            == ScanMin(st, moves[1..], depth, -INFTY, score, score, Some(moves[0]), true);
        ScanMinChoiceValue(st, moves[1..], depth, score, Some(moves[0]));
      } else if score >= best {
        assert ScanMin(st, moves, depth, -INFTY, best, best, choice, true)
            == ScanMin(st, moves[1..], depth, -INFTY, best, best, choice, true);
        ScanMinChoiceValue(st, moves[1..], depth, best, choice);
      }
    }
  }

  /** Corrected, the move findMove saves is a best move: the position it
   *  leads to has the minimax value of the position searched. */
  lemma SearchChoiceIsBest(st: State, depth: nat, sense: int)
    requires WellFormed(st) && 0 < depth <= MAX_DEPTH && st.winner.None? && (sense == 1 || sense == -1)
    ensures var c := SearchChoice(st, depth, sense, -INFTY, INFTY, None, true);
            c.Some? ==> Minimax(Play(st, c.value), depth - 1, -sense) == Minimax(st, depth, sense)
  {
    AlphaBetaMatchesMinimax(st, depth, sense);
    if sense == 1 {
      ScanMaxChoiceValue(st, Moves(st), depth, -INFTY, None);
    } else {
      ScanMinChoiceValue(st, Moves(st), depth, INFTY, None);
    }
  }

  /** As written, a minimising loop over a window with ALPHA below BETA
   *  never returns more than the larger of ALPHA and 0: a cutoff score is
   *  at most ALPHA, and a loop that runs out of moves returns 0. */
  lemma {:induction false} MinAsWrittenAtMost(st: State, moves: seq<Move>, depth: nat, alpha: int, beta: int,
                                              best: int, choice: Option<Move>)
    requires WellFormed(st) && depth > 0 && alpha < beta
    ensures ScanMin(st, moves, depth, alpha, beta, best, choice, false).score <= Max(alpha, 0)
    decreases |moves|
  {
    if moves != [] {
      var score := Search(Play(st, moves[0]), depth - 1, 1, alpha, beta, false);
      if score >= best {
        MinAsWrittenAtMost(st, moves[1..], depth, alpha, beta, best, choice);
      } else if alpha < Min(beta, score) {
        MinAsWrittenAtMost(st, moves[1..], depth, alpha, Min(beta, score), score, Some(moves[0]));
      }
    }
  }

  /** The mirror image of MinAsWrittenAtMost: a maximising loop never
   *  returns less than the smaller of BETA and 0. */
  lemma {:induction false} MaxAsWrittenAtLeast(st: State, moves: seq<Move>, depth: nat, alpha: int, beta: int,
                                               best: int, choice: Option<Move>)
    requires WellFormed(st) && depth > 0 && alpha < beta
    ensures ScanMax(st, moves, depth, alpha, beta, best, choice, false).score >= Min(beta, 0)
    decreases |moves|
  {
    if moves != [] {
      var score := Search(Play(st, moves[0]), depth - 1, -1, alpha, beta, false);
      if score <= best {
        MaxAsWrittenAtLeast(st, moves[1..], depth, alpha, beta, best, choice);
      } else if Max(alpha, score) < beta {
        MaxAsWrittenAtLeast(st, moves[1..], depth, Max(alpha, score), beta, score, Some(moves[0]));
      }
    }
  }

  /** As written, once the maximising loop holds best score and alpha 0, no
   *  later undecided child scores above 0, so the saved move stays. */
  lemma {:induction false} MaxKeepsFirst(st: State, moves: seq<Move>, depth: nat, choice: Option<Move>)
    requires WellFormed(st) && 1 < depth
    requires forall m :: m in moves ==> Play(st, m).winner.None?
    ensures ScanMax(st, moves, depth, 0, INFTY, 0, choice, false).choice == choice
    decreases |moves|
  {
    if moves != [] {
      var child := Play(st, moves[0]);
      MinAsWrittenAtMost(child, Moves(child), depth - 1, 0, INFTY, INFTY, None);
      MaxKeepsFirst(st, moves[1..], depth, choice);
    }
  }

  /** The mirror image of MaxKeepsFirst: with best score and beta 0, no
   *  later undecided child scores below 0. */
  lemma {:induction false} MinKeepsFirst(st: State, moves: seq<Move>, depth: nat, choice: Option<Move>)
    requires WellFormed(st) && 1 < depth
    requires forall m :: m in moves ==> Play(st, m).winner.None?
    ensures ScanMin(st, moves, depth, -INFTY, 0, 0, choice, false).choice == choice
    decreases |moves|
  {
    if moves != [] {
      var child := Play(st, moves[0]);
      MaxAsWrittenAtLeast(child, Moves(child), depth - 1, -INFTY, 0, -INFTY, None);
      MinKeepsFirst(st, moves[1..], depth, choice);
    }
  }

  /** As written, the player saves the first legal move in possMoves order
   *  whenever no legal move ends the game: the first child scores 0 (see
   *  TopLevelScoreIsZero), which moves the window's bound to 0, and no
   *  later child can then beat it. */
  lemma AsWrittenPlaysFirstMove(st: State, sense: int)
    requires WellFormed(st) && st.winner.None? && Moves(st) != []
    requires forall m :: m in Moves(st) ==> Play(st, m).winner.None?
    ensures SearchChoice(st, MAX_DEPTH, sense, -INFTY, INFTY, None, false) == Some(Moves(st)[0])
  {
    var ms := Moves(st);
    assert ms[0] in ms;
    var child := Play(st, ms[0]);
    forall m | m in ms[1..] ensures Play(st, m).winner.None? {
      assert m in ms;
    }
    if sense == 1 {
      TopLevelScoreIsZero(child, MAX_DEPTH - 1, -1);
      assert ScanMax(st, ms, MAX_DEPTH, -INFTY, INFTY, -INFTY, None, false)
          == ScanMax(st, ms[1..], MAX_DEPTH, 0, INFTY, 0, Some(ms[0]), false);
      MaxKeepsFirst(st, ms[1..], MAX_DEPTH, Some(ms[0]));
    } else {
      TopLevelScoreIsZero(child, MAX_DEPTH - 1, 1);
      assert ScanMin(st, ms, MAX_DEPTH, -INFTY, INFTY, INFTY, None, false)
          == ScanMin(st, ms[1..], MAX_DEPTH, -INFTY, 0, 0, Some(ms[0]), false);
      MinKeepsFirst(st, ms[1..], MAX_DEPTH, Some(ms[0]));
    }
  }

  // ---------------------------------------------------------------------
  // The player

  /** The move scans append one piece at a time: ACC + (HEAD + REST),
   *  regrouped. */
  lemma Regroup(acc: seq<Move>, head: seq<Move>, rest: seq<Move>, total: seq<Move>)
    requires acc + (head + rest) == total
    ensures (acc + head) + rest == total
  {
    assert acc + (head + rest) == (acc + head) + rest;
  }

  /** The row offsets from J on: the step at offset J, if legal, then the
   *  rest. */
  lemma OffsetMovesNext(s: seq<Cell>, who: PieceColor, col: int, row: int, i: int, j: int)
    requires |s| == CELLS && IsReal(col, row) && -2 <= i <= 2 && -2 <= j <= 2
    ensures var m := Step(col, row, col + i, row + j);
            OffsetMoves(s, who, col, row, i, j)
              == (if LegalStep(s, who, m) then [m] else []) + OffsetMoves(s, who, col, row, i, j + 1)
  {
    var rest := OffsetMoves(s, who, col, row, i, j + 1);
    assert [] + rest == rest;
  }

  /** The column offsets from I on: those at offset I, then the rest. */
  lemma SquareMovesNext(s: seq<Cell>, who: PieceColor, col: int, row: int, i: int)
    requires |s| == CELLS && IsReal(col, row) && -2 <= i <= 2
    ensures SquareMoves(s, who, col, row, i)
              == OffsetMoves(s, who, col, row, i, -2) + SquareMoves(s, who, col, row, i + 1)
  {
  }

  /** One turn of the loop over column offsets: the steps with offset I
   *  join the steps already found. */
  lemma SquareMovesStep(acc: seq<Move>, found: seq<Move>, s: seq<Cell>, who: PieceColor, col: int, row: int, i: int)
    requires |s| == CELLS && IsReal(col, row) && -2 <= i <= 2
    requires acc + SquareMoves(s, who, col, row, i) == SquareMoves(s, who, col, row, -2)
    requires found == OffsetMoves(s, who, col, row, i, -2)
    ensures (acc + found) + SquareMoves(s, who, col, row, i + 1) == SquareMoves(s, who, col, row, -2)
  {
    SquareMovesNext(s, who, col, row, i);
    Regroup(acc, found, SquareMoves(s, who, col, row, i + 1), SquareMoves(s, who, col, row, -2));
  }

  /** The rows from ROW down: the moves from (col, row) when it holds
   *  PLAYER, then the rest. */
  lemma ColumnMovesNext(s: seq<Cell>, player: PieceColor, who: PieceColor, col: int, row: int)
    requires |s| == CELLS && 0 <= col < SIDE && 0 <= row < SIDE
    ensures ColumnMoves(s, player, who, col, row)
              == (if s[Index(col, row)] == Some(player) then SquareMoves(s, who, col, row, -2) else [])
                 + ColumnMoves(s, player, who, col, row - 1)
  {
    var rest := ColumnMoves(s, player, who, col, row - 1);
    assert [] + rest == rest;
  }

  /** The part of BOARD the search reads. */
  function StateOf(board: Board): (st: State)
    reads board, board.squares
    ensures st.squares == board.squares[..] && st.whoseMove == board.whoseMove
    ensures st.jumps == board.jumps && st.winner == board.winner
  {
    State(board.squares[..], board.whoseMove, board.jumps, board.winner)
  }

  /** An automated player of MYCOLOR. It searches copies of the board made
   *  with Board.Copy. FIXED chooses the search: false is minMax as written
   *  (mover-relative leaves, 0 when a loop runs out of moves), true the
   *  corrected search on RED's scale that returns its best score. */
  class AI {
    const myColor: PieceColor
    const fixed: bool
    var lastFoundMove: Option<Move>

    constructor (color: PieceColor, fixed: bool)
      ensures myColor == color && this.fixed == fixed && lastFoundMove == None
    {
      myColor := color;
      this.fixed := fixed;
      lastFoundMove := None;
    }

    /** The move to play on BOARD: a pass when MYCOLOR cannot move, else
     *  the move the search saves (None when it saves none). As written that
     *  is the first legal move whenever no legal move ends the game. */
    method GetMove(board: Board) returns (move: Option<Move>)
      requires board.Valid() && board.whoseMove == myColor
      modifies this
      ensures !HasLegalMove(board.squares[..], myColor) ==> move == Some(Pass)
      ensures HasLegalMove(board.squares[..], myColor) ==>
                move == SearchChoice(StateOf(board).(winner := None), MAX_DEPTH, Sense(myColor), -INFTY, INFTY, None, fixed)
      ensures move.Some? ==> IsLegal(board.squares[..], myColor, move.value)
      ensures var st := StateOf(board).(winner := None);
              !fixed && HasLegalMove(board.squares[..], myColor) && (forall m :: m in Moves(st) ==> Play(st, m).winner.None?)
              ==> move == Some(Moves(st)[0])
    {
      var can := board.CanMove(myColor);
      if !can {
        return Some(Pass);
      }
      move := FindMove(board);
    }

    /** The move the full-depth search from a copy of BOARD saves, if any;
     *  it is always a legal step for the side to move. Corrected, it leads
     *  to a position with the minimax value of BOARD; as written, it is the
     *  first legal move whenever no legal move ends the game. */
    method FindMove(board: Board) returns (move: Option<Move>)
      requires board.Valid()
      modifies this
      ensures move == lastFoundMove
      ensures move == SearchChoice(StateOf(board).(winner := None), MAX_DEPTH, Sense(myColor), -INFTY, INFTY, None, fixed)
      ensures move.Some? ==> move.value.Step? && IsLegal(board.squares[..], board.whoseMove, move.value)
      ensures var st := StateOf(board).(winner := None);
              fixed && move.Some? ==> Minimax(Play(st, move.value), MAX_DEPTH - 1, -Sense(myColor)) == Minimax(st, MAX_DEPTH, Sense(myColor))
      ensures var st := StateOf(board).(winner := None);
              !fixed && Moves(st) != [] && (forall m :: m in Moves(st) ==> Play(st, m).winner.None?)
              ==> move == Some(Moves(st)[0])
    {
      var b := new Board.Copy(board);
      lastFoundMove := None;
      var _ := MinMax(b, MAX_DEPTH, true, Sense(myColor), -INFTY, INFTY);
      move := lastFoundMove;
      ghost var st := StateOf(board).(winner := None);
      SearchChoiceIsLegal(st, MAX_DEPTH, Sense(myColor), -INFTY, INFTY, None, fixed);
      if fixed {
        SearchChoiceIsBest(st, MAX_DEPTH, Sense(myColor));
      } else if Moves(st) != [] && (forall m :: m in Moves(st) ==> Play(st, m).winner.None?) {
        AsWrittenPlaysFirstMove(st, Sense(myColor));
      }
    }

    /** The value of BOARD searched DEPTH levels deep within (ALPHA, BETA),
     *  maximising for SENSE == 1 and minimising otherwise; a saving call
     *  records the last move that improved the best score. */
    method MinMax(board: Board, depth: nat, saveMove: bool, sense: int, alpha: int, beta: int)
      returns (score: int)
      requires board.Valid()
      modifies this
      ensures score == Search(StateOf(board), depth, sense, alpha, beta, fixed)
      ensures lastFoundMove == if saveMove then SearchChoice(StateOf(board), depth, sense, alpha, beta, old(lastFoundMove), fixed)
                               else old(lastFoundMove)
      decreases depth, 2
    {
      if depth == 0 || board.winner.Some? {
        return Leaf(StateOf(board), WINNING_VALUE + depth, fixed);
      }
      var moves := PossMoves(board, board.whoseMove);
      if sense == 1 {
        score := MaxOverMoves(board, moves, depth, saveMove, alpha, beta);
        ScanMaxScore(StateOf(board), moves, depth, alpha, beta, -INFTY, old(lastFoundMove), None, fixed);
      } else {
        score := MinOverMoves(board, moves, depth, saveMove, alpha, beta);
        ScanMinScore(StateOf(board), moves, depth, alpha, beta, INFTY, old(lastFoundMove), None, fixed);
      }
    }

    /** The maximising loop of minMax over MOVES, with minMax's final return
     *  when no move cuts off: 0 as written, the best score corrected. */
    method MaxOverMoves(board: Board, moves: seq<Move>, depth: nat, saveMove: bool, alpha0: int, beta: int)
      returns (value: int)
      requires board.Valid() && depth > 0 && moves == Moves(StateOf(board))
      modifies this
      ensures var o := ScanMax(StateOf(board), moves, depth, alpha0, beta, -INFTY, old(lastFoundMove), fixed);
              value == o.score && lastFoundMove == if saveMove then o.choice else old(lastFoundMove)
      decreases depth, 1
    {
      ghost var st := StateOf(board);
      ghost var goal := ScanMax(st, moves, depth, alpha0, beta, -INFTY, old(lastFoundMove), fixed);
      ghost var choice := lastFoundMove;
      var alpha := alpha0;
      var bestScore := -INFTY;
      for i := 0 to |moves|
        invariant board.Valid() && st == StateOf(board)
        invariant ScanMax(st, moves[i..], depth, alpha, beta, bestScore, choice, fixed) == goal
        invariant lastFoundMove == if saveMove then choice else old(lastFoundMove)
      {
        var score := ScoreMove(board, st, moves[i], depth, -1, alpha, beta);
        ScanMaxStep(st, moves, i, depth, alpha, beta, bestScore, choice, score, fixed);
        if score > bestScore {
          bestScore := score;
          alpha := Max(alpha, bestScore);
          lastFoundMove := if saveMove then Some(moves[i]) else lastFoundMove;
          choice := Some(moves[i]);
          if alpha >= beta {
            return bestScore;
          }
        }
      }
      value := if fixed then bestScore else 0;
    }

    /** The minimising loop of minMax over MOVES, with minMax's final return
     *  when no move cuts off: 0 as written, the best score corrected. */
    method MinOverMoves(board: Board, moves: seq<Move>, depth: nat, saveMove: bool, alpha: int, beta0: int)
      returns (value: int)
      requires board.Valid() && depth > 0 && moves == Moves(StateOf(board))
      modifies this
      ensures var o := ScanMin(StateOf(board), moves, depth, alpha, beta0, INFTY, old(lastFoundMove), fixed);
              value == o.score && lastFoundMove == if saveMove then o.choice else old(lastFoundMove)
      decreases depth, 1
    {
      ghost var st := StateOf(board);
      ghost var goal := ScanMin(st, moves, depth, alpha, beta0, INFTY, old(lastFoundMove), fixed);
      ghost var choice := lastFoundMove;
      var beta := beta0;
      var bestScore := INFTY;
      for i := 0 to |moves|
        invariant board.Valid() && st == StateOf(board)
        invariant ScanMin(st, moves[i..], depth, alpha, beta, bestScore, choice, fixed) == goal
        invariant lastFoundMove == if saveMove then choice else old(lastFoundMove)
      {
        var score := ScoreMove(board, st, moves[i], depth, 1, alpha, beta);
        ScanMinStep(st, moves, i, depth, alpha, beta, bestScore, choice, score, fixed);
        if score < bestScore {
          bestScore := score;
          beta := Min(beta, bestScore);
          lastFoundMove := if saveMove then Some(moves[i]) else lastFoundMove;
          choice := Some(moves[i]);
          if alpha >= beta {
            return bestScore;
          }
        }
      }
      value := if fixed then bestScore else 0;
    }

    /** Plays MOVE on a fresh copy of BOARD and searches the result one
     *  level shallower, for the side of SENSE. */
    method ScoreMove(board: Board, ghost st: State, move: Move, depth: nat, sense: int, alpha: int, beta: int)
      returns (score: int)
      requires board.Valid() && st == StateOf(board) && depth > 0 && move in Moves(st)
      modifies this
      ensures score == Search(Play(st, move), depth - 1, sense, alpha, beta, fixed)
      ensures lastFoundMove == old(lastFoundMove)
      ensures board.Valid() && st == StateOf(board)
      decreases depth, 0
    {
      var copy := PlayOnCopy(board, st, move);
      ghost var next := StateOf(copy);
      score := MinMax(copy, depth - 1, false, sense, alpha, beta);
      assert StateOf(copy) == next;
    }

    /** A fresh copy of BOARD on which MOVE has been made. */
    static method PlayOnCopy(board: Board, ghost st: State, move: Move) returns (copy: Board)
      requires board.Valid() && st == StateOf(board) && move in Moves(st)
      ensures fresh(copy) && copy.Valid() && StateOf(copy) == Play(st, move)
    {
      LegalMovesMembers(st.squares, st.whoseMove, st.whoseMove, move);
      copy := new Board.Copy(board);
      var ok := copy.MakeMove(Some(move));
    }

    /** The legal steps of the side to move from squares holding PLAYER,
     *  scanning columns a to g, rows 7 to 1 and offsets -2 to 2. */
    method PossMoves(board: Board, player: PieceColor) returns (moves: seq<Move>)
      requires board.squares.Length == CELLS
      ensures moves == LegalMoves(board.squares[..], player, board.whoseMove)
    {
      ghost var s := board.squares[..];
      var who := board.whoseMove;
      moves := [];
      for col := 0 to SIDE
        invariant moves + BoardMoves(s, player, who, col) == LegalMoves(s, player, who)
      {
        var found := MovesInColumn(board, player, col);
        assert BoardMoves(s, player, who, col) == found + BoardMoves(s, player, who, col + 1);
        Regroup(moves, found, BoardMoves(s, player, who, col + 1), LegalMoves(s, player, who));
        moves := moves + found;
      }
    }

    /** The legal steps of the side to move from the squares of column COL
     *  holding PLAYER, rows 7 to 1. */
    method MovesInColumn(board: Board, player: PieceColor, col: int) returns (moves: seq<Move>)
      requires board.squares.Length == CELLS && 0 <= col < SIDE
      ensures moves == ColumnMoves(board.squares[..], player, board.whoseMove, col, SIDE - 1)
    {
      ghost var s := board.squares[..];
      var who := board.whoseMove;
      moves := [];
      var row := SIDE - 1;
      while row >= 0
        invariant -1 <= row < SIDE
        invariant moves + ColumnMoves(s, player, who, col, row) == ColumnMoves(s, player, who, col, SIDE - 1)
      {
        ColumnMovesNext(s, player, who, col, row);
        if board.squares[Index(col, row)] == Some(player) {
          var found := MovesFrom(board, col, row);
          Regroup(moves, found, ColumnMoves(s, player, who, col, row - 1), ColumnMoves(s, player, who, col, SIDE - 1));
          moves := moves + found;
        } else {
          Regroup(moves, [], ColumnMoves(s, player, who, col, row - 1), ColumnMoves(s, player, who, col, SIDE - 1));
        }
        row := row - 1;
      }
    }

    /** The legal steps of the side to move from (col, row). */
    method MovesFrom(board: Board, col: int, row: int) returns (moves: seq<Move>)
      requires board.squares.Length == CELLS && IsReal(col, row)
      ensures moves == SquareMoves(board.squares[..], board.whoseMove, col, row, -2)
    {
      ghost var s := board.squares[..];
      var who := board.whoseMove;
      moves := [];
      for i := -2 to 3
        invariant moves + SquareMoves(s, who, col, row, i) == SquareMoves(s, who, col, row, -2)
      {
        var found := MovesAlong(board, col, row, i);
        SquareMovesStep(moves, found, s, who, col, row, i);
        moves := moves + found;
      }
    }

    /** The legal steps of the side to move from (col, row) with column
     *  offset I, in increasing row offset. */
    method MovesAlong(board: Board, col: int, row: int, i: int) returns (moves: seq<Move>)
      requires board.squares.Length == CELLS && IsReal(col, row) && -2 <= i <= 2
      ensures moves == OffsetMoves(board.squares[..], board.whoseMove, col, row, i, -2)
    {
      ghost var s := board.squares[..];
      var who := board.whoseMove;
      moves := [];
      for j := -2 to 3
        invariant moves + OffsetMoves(s, who, col, row, i, j) == OffsetMoves(s, who, col, row, i, -2)
      {
        var m := Step(col, row, col + i, row + j);
        var legal := board.IsLegalStep(who, m);
        OffsetMovesNext(s, who, col, row, i, j);
        Regroup(moves, if legal then [m] else [], OffsetMoves(s, who, col, row, i, j + 1),
                OffsetMoves(s, who, col, row, i, -2));
        if legal {
          moves := moves + [m];
        }
      }
    }
  }

  /** The search sense of a player: 1 for RED, -1 otherwise. */
  function Sense(c: PieceColor): int {
    if c == RED then 1 else -1
  }
}
