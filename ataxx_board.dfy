/** The Ataxx board: a state machine over a bordered 11x11 array of cells,
 *  with legality, capture, terminal detection and a sentinel-delimited undo
 *  stack.
 *
 *  Border cells hold None (Java's null): the board array is allocated
 *  empty and only the real 7x7 squares are ever written, so a border cell
 *  is never EMPTY and never a legal destination. */
module AtaxxBoard {
  import opened Wrappers
  import opened AtaxxTypes

  type Cell = Option<PieceColor>

  /** An entry of the undo stack: the boundary that opens a move, or the
   *  prior colour of one square the move wrote. */
  datatype UndoEntry = Sentinel | Change(sq: int, prior: PieceColor)

  // ---------------------------------------------------------------------
  // Counting pieces

  /** Number of cells of S holding colour C. */
  function Count(s: seq<Cell>, c: PieceColor): nat
  {
    if s == [] then 0 else Count(s[..|s| - 1], c) + (if s[|s| - 1] == Some(c) then 1 else 0)
  }

  /** Writing one cell changes each colour's count by at most the cell it
   *  overwrote and the value it wrote. */
  lemma {:induction false} CountUpdate(s: seq<Cell>, k: int, v: Cell, c: PieceColor)
    requires 0 <= k < |s|
    ensures Count(s[k := v], c)
         == Count(s, c) - (if s[k] == Some(c) then 1 else 0) + (if v == Some(c) then 1 else 0)
  {
    var n := |s| - 1;
    if k == n {
      assert s[k := v][..n] == s[..n];
    } else {
      assert s[k := v][..n] == s[..n][k := v];
      CountUpdate(s[..n], k, v, c);
    }
  }

  /** Count is the number of indices holding C. */
  lemma {:induction false} CountIsCardinality(s: seq<Cell>, c: PieceColor)
    ensures Count(s, c) == |set k | 0 <= k < |s| && s[k] == Some(c)|
  {
    if s != [] {
      var n := |s| - 1;
      CountIsCardinality(s[..n], c);
      var before := set k | 0 <= k < n && s[..n][k] == Some(c);
      var after := set k | 0 <= k < |s| && s[k] == Some(c);
      if s[n] == Some(c) {
        assert after == before + {n};
      } else {
        assert after == before;
      }
    }
  }

  // ---------------------------------------------------------------------
  // Legality and the enumeration order of canMove / possMoves

  /** Legality of a non-pass move when WHO is to move: the source holds WHO,
   *  the destination is EMPTY, and the move is an extend or a jump. */
  predicate LegalStep(s: seq<Cell>, who: PieceColor, m: Move)
    requires |s| == CELLS && m.Step?
  {
    s[m.FromIndex()] == Some(who) && s[m.ToIndex()] == Some(EMPTY) && (m.IsExtend() || m.IsJump())
  }

  /** Legality of any move: a pass is legal exactly when no step is. */
  predicate IsLegal(s: seq<Cell>, who: PieceColor, m: Move)
    requires |s| == CELLS
  {
    if m.Pass? then !HasLegalMove(s, who) else LegalStep(s, who, m)
  }

  // The four enumeration functions below measure their termination against
  // |s| rather than a constant bound: the verifier then unfolds a call only
  // as far as a proof asks, even when the position arguments are constants.

  /** Legal steps for WHO from (col, row) with column offset I and row
   *  offsets J..2, in increasing row offset. */
  function OffsetMoves(s: seq<Cell>, who: PieceColor, col: int, row: int, i: int, j: int): seq<Move>
    requires |s| == CELLS && IsReal(col, row) && -2 <= i <= 2 && -2 <= j <= 3
    decreases |s| - j
  {
    if j == 3 then []
    else
      var m := Step(col, row, col + i, row + j);
      if LegalStep(s, who, m) then [m] + OffsetMoves(s, who, col, row, i, j + 1)
      else OffsetMoves(s, who, col, row, i, j + 1)
  }

  /** Legal steps for WHO from (col, row) with column offsets I..2. */
  function SquareMoves(s: seq<Cell>, who: PieceColor, col: int, row: int, i: int): seq<Move>
    requires |s| == CELLS && IsReal(col, row) && -2 <= i <= 3
    decreases |s| - i
  {
    if i == 3 then [] else OffsetMoves(s, who, col, row, i, -2) + SquareMoves(s, who, col, row, i + 1)
  }

  /** Legal steps for WHO from the squares of column COL holding PLAYER,
   *  rows ROW down to 0. */
  function ColumnMoves(s: seq<Cell>, player: PieceColor, who: PieceColor, col: int, row: int): seq<Move>
    requires |s| == CELLS && 0 <= col < SIDE && -1 <= row < SIDE
    decreases |s| + row
  {
    if row < 0 then []
    else if s[Index(col, row)] == Some(player) then
      SquareMoves(s, who, col, row, -2) + ColumnMoves(s, player, who, col, row - 1)
    else ColumnMoves(s, player, who, col, row - 1)
  }

  /** Legal steps for WHO from the squares holding PLAYER in columns COL..6. */
  function BoardMoves(s: seq<Cell>, player: PieceColor, who: PieceColor, col: int): seq<Move>
    requires |s| == CELLS && 0 <= col <= SIDE
    decreases |s| - col
  {
    if col == SIDE then [] else ColumnMoves(s, player, who, col, SIDE - 1) + BoardMoves(s, player, who, col + 1)
  }

  /** All legal steps for WHO from squares holding PLAYER, in the order the
   *  scans visit them: column a to g, row 7 to 1, column offset -2 to 2,
   *  row offset -2 to 2. */
  function LegalMoves(s: seq<Cell>, player: PieceColor, who: PieceColor): seq<Move>
    requires |s| == CELLS
  {
    BoardMoves(s, player, who, 0)
  }

  predicate HasLegalMove(s: seq<Cell>, who: PieceColor)
    requires |s| == CELLS
  {
    LegalMoves(s, who, who) != []
  }

  /** A step of either kind stays within two columns and two rows. */
  lemma StepBounds(m: Move)
    requires m.IsExtend() || m.IsJump()
    ensures -2 <= m.col1 - m.col0 <= 2 && -2 <= m.row1 - m.row0 <= 2
  {
  }

  /** What the enumeration is meant to produce: a step from a real square
   *  holding PLAYER that is legal when WHO is to move. */
  predicate Generated(s: seq<Cell>, player: PieceColor, who: PieceColor, m: Move)
    requires |s| == CELLS
  {
    m.Step? && IsReal(m.col0, m.row0) && s[m.FromIndex()] == Some(player) && LegalStep(s, who, m)
  }

  lemma {:induction false} OffsetMovesMembers(s: seq<Cell>, who: PieceColor, col: int, row: int, i: int, j: int, m: Move)
    requires |s| == CELLS && IsReal(col, row) && -2 <= i <= 2 && -2 <= j <= 3
    ensures m in OffsetMoves(s, who, col, row, i, j)
        <==> m.Step? && m.col0 == col && m.row0 == row && m.col1 == col + i && row + j <= m.row1
             && LegalStep(s, who, m)
    decreases 3 - j
  {
    if j == 3 {
      if m.Step? && LegalStep(s, who, m) {
        StepBounds(m);
      }
    } else {
      var x := Step(col, row, col + i, row + j);
      var rest := OffsetMoves(s, who, col, row, i, j + 1);
      OffsetMovesMembers(s, who, col, row, i, j + 1, m);
      assert m in OffsetMoves(s, who, col, row, i, j) <==> (m == x && LegalStep(s, who, x)) || m in rest;
    }
  }

  lemma {:induction false} SquareMovesMembers(s: seq<Cell>, who: PieceColor, col: int, row: int, i: int, m: Move)
    requires |s| == CELLS && IsReal(col, row) && -2 <= i <= 3
    ensures m in SquareMoves(s, who, col, row, i)
        <==> m.Step? && m.col0 == col && m.row0 == row && col + i <= m.col1 && LegalStep(s, who, m)
    decreases 3 - i
  {
    if i == 3 {
      if m.Step? && LegalStep(s, who, m) {
        StepBounds(m);
      }
    } else {
      var here := OffsetMoves(s, who, col, row, i, -2);
      var later := SquareMoves(s, who, col, row, i + 1);
      OffsetMovesMembers(s, who, col, row, i, -2, m);
      SquareMovesMembers(s, who, col, row, i + 1, m);
      assert SquareMoves(s, who, col, row, i) == here + later;
      if m.Step? && m.col0 == col && m.row0 == row && col + i <= m.col1 && LegalStep(s, who, m) {
        StepBounds(m);
        if m.col1 == col + i {
          assert m in here;
        } else {
          assert m in later;
        }
      }
    }
  }

  lemma {:induction false} ColumnMovesMembers(s: seq<Cell>, player: PieceColor, who: PieceColor, col: int, row: int, m: Move)
    requires |s| == CELLS && 0 <= col < SIDE && -1 <= row < SIDE
    ensures m in ColumnMoves(s, player, who, col, row)
        <==> m.Step? && m.col0 == col && 0 <= m.row0 <= row && s[m.FromIndex()] == Some(player)
             && LegalStep(s, who, m)
    decreases row + 1
  {
    if row >= 0 {
      SquareMovesMembers(s, who, col, row, -2, m);
      ColumnMovesMembers(s, player, who, col, row - 1, m);
      if m.Step? && LegalStep(s, who, m) {
        StepBounds(m);
      }
      if s[Index(col, row)] == Some(player) {
        assert m in ColumnMoves(s, player, who, col, row)
           <==> m in SquareMoves(s, who, col, row, -2) || m in ColumnMoves(s, player, who, col, row - 1);
      }
    }
  }

  lemma {:induction false} BoardMovesMembers(s: seq<Cell>, player: PieceColor, who: PieceColor, col: int, m: Move)
    requires |s| == CELLS && 0 <= col <= SIDE
    ensures m in BoardMoves(s, player, who, col)
        <==> m.Step? && col <= m.col0 < SIDE && 0 <= m.row0 < SIDE && s[m.FromIndex()] == Some(player)
             && LegalStep(s, who, m)
    decreases SIDE - col
  {
    if col < SIDE {
      ColumnMovesMembers(s, player, who, col, SIDE - 1, m);
      BoardMovesMembers(s, player, who, col + 1, m);
    }
  }

  /** The scan yields exactly the legal steps from squares holding PLAYER. */
  lemma LegalMovesMembers(s: seq<Cell>, player: PieceColor, who: PieceColor, m: Move)
    requires |s| == CELLS
    ensures m in LegalMoves(s, player, who) <==> Generated(s, player, who, m)
  {
    BoardMovesMembers(s, player, who, 0, m);
  }

  /** A side can move iff some step from one of its squares is legal. */
  lemma HasLegalMoveIff(s: seq<Cell>, who: PieceColor)
    requires |s| == CELLS
    ensures HasLegalMove(s, who) <==> exists m :: Generated(s, who, who, m)
  {
    if HasLegalMove(s, who) {
      var m := LegalMoves(s, who, who)[0];
      LegalMovesMembers(s, who, who, m);
    }
    if m :| Generated(s, who, who, m) {
      LegalMovesMembers(s, who, who, m);
    }
  }

  // ---------------------------------------------------------------------
  // The effect of a step

  /** Row offset of a linear offset D in [-12, 12] of the 3x3 block. */
  function DeltaRow(d: int): int {
    if d <= 1 - EXTENDED_SIDE then -1 else if d >= EXTENDED_SIDE - 1 then 1 else 0
  }

  /** Column offset of a linear offset D in [-12, 12] of the 3x3 block. */
  function DeltaCol(d: int): int {
    d - DeltaRow(d) * EXTENDED_SIDE
  }

  /** SQ is TO itself or one of its 8 neighbours. */
  predicate Around(sq: int, to: int) {
    var d := sq - to;
    -EXTENDED_SIDE - 1 <= d <= EXTENDED_SIDE + 1 && -1 <= DeltaCol(d) <= 1
  }

  /** SQ is one of the 8 neighbours of TO. */
  predicate IsAdjacent(sq: int, to: int) {
    Around(sq, to) && sq != to
  }

  /** The 8 neighbours of a square are the squares one column and/or one row away. */
  lemma AdjacentIsNeighbor(col: int, row: int, dc: int, dr: int)
    requires -1 <= dc <= 1 && -1 <= dr <= 1
    ensures IsAdjacent(Neighbor(Index(col, row), dc, dr), Index(col, row)) <==> dc != 0 || dr != 0
    ensures Around(Neighbor(Index(col, row), dc, dr), Index(col, row))
  {
  }

  /** Offset D of the 3x3 block around a square comes before the column
   *  and row offsets (i, j) in the capture scan, which runs over columns
   *  and, within a column, over rows. */
  predicate ScannedBefore(d: int, i: int, j: int) {
    DeltaCol(d) < i || (DeltaCol(d) == i && DeltaRow(d) < j)
  }

  /** S with the pieces of COLOR's opponent that stand around TO and that
   *  the capture scan reaches before (i, j) turned to COLOR. */
  function Captured(s: seq<Cell>, to: int, color: PieceColor, i: int, j: int): (t: seq<Cell>)
    ensures |t| == |s|
  {
    seq(|s|, k requires 0 <= k < |s| =>
      if Around(k, to) && ScannedBefore(k - to, i, j) && s[k] == Some(color.Opposite()) then Some(color)
      else s[k])
  }

  /** The linear offset of column offset I and row offset J decomposes back. */
  lemma OffsetDeltas(i: int, j: int)
    requires -1 <= i <= 1 && -1 <= j <= 1
    ensures DeltaRow(i + j * EXTENDED_SIDE) == j && DeltaCol(i + j * EXTENDED_SIDE) == i
  {
  }

  /** Before the scan starts nothing is captured. */
  lemma CapturedNone(s: seq<Cell>, to: int, color: PieceColor)
    ensures Captured(s, to, color, -1, -1) == s
  {
  }

  /** Visiting the neighbour at (i, j) captures it exactly when it holds the
   *  opponent, and the scan has not touched it before. */
  lemma CapturedStep(s: seq<Cell>, to: int, color: PieceColor, i: int, j: int)
    requires -1 <= i <= 1 && -1 <= j <= 1 && 0 <= Neighbor(to, i, j) < |s|
    ensures Captured(s, to, color, i, j)[Neighbor(to, i, j)] == s[Neighbor(to, i, j)]
    ensures Captured(s, to, color, i, j + 1)
         == if s[Neighbor(to, i, j)] == Some(color.Opposite())
            then Captured(s, to, color, i, j)[Neighbor(to, i, j) := Some(color)]
            else Captured(s, to, color, i, j)
  {
    OffsetDeltas(i, j);
  }

  /** Finishing a column of the scan is starting the next one. */
  lemma CapturedNextColumn(s: seq<Cell>, to: int, color: PieceColor, i: int)
    ensures Captured(s, to, color, i, 2) == Captured(s, to, color, i + 1, -1)
  {
  }

  /** The squares after WHO plays step M on S: the destination takes WHO,
   *  the source empties on a jump, every neighbour of the destination
   *  holding the opponent turns to WHO, and nothing else changes. */
  function Moved(s: seq<Cell>, who: PieceColor, m: Move): (t: seq<Cell>)
    requires |s| == CELLS && m.Step?
    ensures |t| == CELLS
  {
    seq(CELLS, k requires 0 <= k < CELLS =>
      if k == m.ToIndex() then Some(who)
      else if m.IsJump() && k == m.FromIndex() then Some(EMPTY)
      else if IsAdjacent(k, m.ToIndex()) && s[k] == Some(who.Opposite()) then Some(who)
      else s[k])
  }

  /** S with the step's own writes: WHO on the destination and, for a jump,
   *  EMPTY on the source. */
  function Placed(s: seq<Cell>, who: PieceColor, m: Move): (t: seq<Cell>)
    requires |s| == CELLS && m.Step?
    ensures |t| == CELLS
  {
    var t := s[m.ToIndex() := Some(who)];
    if m.IsJump() then t[m.FromIndex() := Some(EMPTY)] else t
  }

  /** A jump's source lies outside the 3x3 block around its destination. */
  lemma JumpNotAround(m: Move)
    requires m.IsJump()
    ensures !Around(m.FromIndex(), m.ToIndex())
  {
    var dc, dr := m.col0 - m.col1, m.row0 - m.row1;
    var d := m.FromIndex() - m.ToIndex();
    assert d == dc + 11 * dr;
    if dr == 2 || dr == -2 {
      assert d >= 20 || d <= -20;
    } else {
      assert d == 9 || d == 13 || d == 2 || d == -2 || d == -9 || d == -13;
    }
  }

  /** Placing the piece and then running the full capture scan around the
   *  destination gives the squares after the step. */
  lemma MovedIsCaptured(s: seq<Cell>, who: PieceColor, m: Move)
    requires |s| == CELLS && m.Step? && (m.IsExtend() || m.IsJump()) && who.IsPiece()
    ensures Moved(s, who, m) == Captured(Placed(s, who, m), m.ToIndex(), who, 2, -1)
  {
    var to := m.ToIndex();
    var t := Placed(s, who, m);
    StepBounds(m);
    ExtendJumpExclusive(m);
    forall k | 0 <= k < CELLS
      ensures Moved(s, who, m)[k] == Captured(t, to, who, 2, -1)[k]
    {
      if m.IsJump() && k == m.FromIndex() {
        JumpNotAround(m);
      }
    }
  }

  /** The winner after a non-pass move, tested in the source's order: jump
   *  limit or full board, then both sides stuck, then a side with no pieces. */
  function Verdict(jumps: int, red: int, blue: int, open: int, moverCanMove: bool, otherCanMove: bool)
    : Option<PieceColor>
  {
    if jumps == JUMP_LIMIT || red + blue == open then
      (if blue > red then Some(BLUE) else if red > blue then Some(RED) else Some(EMPTY))
    else if !moverCanMove && !otherCanMove then
      (if red > blue then Some(RED) else if blue > red then Some(BLUE) else Some(EMPTY))
    else if red == 0 then Some(BLUE)
    else if blue == 0 then Some(RED)
    else None
  }

  /** The winner Verdict gives for board T after MOVER's step, with JUMPS
   *  consecutive jumps. */
  function WinnerAfter(t: seq<Cell>, mover: PieceColor, jumps: int): Option<PieceColor>
    requires |t| == CELLS
  {
    Verdict(jumps, Count(t, RED), Count(t, BLUE), SIDE * SIDE - Count(t, BLOCKED),
            HasLegalMove(t, mover), HasLegalMove(t, mover.Opposite()))
  }

  /** A side left without pieces loses, whichever test fires first. */
  lemma EliminationWins(jumps: int, red: int, blue: int, open: int, a: bool, b: bool)
    requires red >= 0 && blue >= 0
    ensures red == 0 && blue > 0 ==> Verdict(jumps, red, blue, open, a, b) == Some(BLUE)
    ensures blue == 0 && red > 0 ==> Verdict(jumps, red, blue, open, a, b) == Some(RED)
  {
  }

  /** Reaching the jump limit ends the game on piece count, EMPTY on a tie. */
  lemma JumpLimitEnds(red: int, blue: int, open: int, a: bool, b: bool)
    ensures Verdict(JUMP_LIMIT, red, blue, open, a, b)
         == if red > blue then Some(RED) else if blue > red then Some(BLUE) else Some(EMPTY)
  {
  }

  // ---------------------------------------------------------------------
  // Undo frames

  /** S with the entries of FRAME restored, most recent first. */
  function Restore(s: seq<Cell>, frame: seq<UndoEntry>): (r: seq<Cell>)
    ensures |r| == |s|
    decreases |frame|
  {
    if frame == [] then s
    else
      var e := frame[|frame| - 1];
      Restore(if e.Change? && 0 <= e.sq < |s| then s[e.sq := Some(e.prior)] else s, frame[..|frame| - 1])
  }

  /** The entries pushed since the last sentinel. */
  function LastFrame(u: seq<UndoEntry>): seq<UndoEntry>
  {
    if u == [] || u[|u| - 1] == Sentinel then [] else LastFrame(u[..|u| - 1]) + [u[|u| - 1]]
  }

  /** The stack below the last sentinel. */
  function BeforeFrame(u: seq<UndoEntry>): seq<UndoEntry>
  {
    if u == [] then []
    else if u[|u| - 1] == Sentinel then u[..|u| - 1]
    else BeforeFrame(u[..|u| - 1])
  }

  function SentinelCount(u: seq<UndoEntry>): nat
  {
    if u == [] then 0 else SentinelCount(u[..|u| - 1]) + (if u[|u| - 1] == Sentinel then 1 else 0)
  }

  /** Every frame opens with a sentinel and records only real squares. */
  predicate WellFramed(u: seq<UndoEntry>)
  {
    (u == [] || u[0] == Sentinel) && forall e :: e in u && e.Change? ==> RealIndex(e.sq)
  }

  /** A stack that opens with a sentinel splits at its last sentinel. */
  lemma {:induction false} FrameSplit(u: seq<UndoEntry>)
    requires u != [] && u[0] == Sentinel
    ensures u == BeforeFrame(u) + [Sentinel] + LastFrame(u)
    ensures Sentinel !in LastFrame(u)
    ensures SentinelCount(u) == SentinelCount(BeforeFrame(u)) + 1
  {
    var n := |u| - 1;
    var p := u[..n];
    assert u == p + [u[n]];
    if u[n] != Sentinel {
      FrameSplit(p);
      assert LastFrame(u) == LastFrame(p) + [u[n]];
      assert BeforeFrame(u) == BeforeFrame(p);
    }
  }

  lemma {:induction false} SentinelSplit(a: seq<UndoEntry>, b: seq<UndoEntry>)
    ensures SentinelCount(a + b) == SentinelCount(a) + SentinelCount(b)
    decreases |b|
  {
    if b != [] {
      var n := |b| - 1;
      assert (a + b)[..|a + b| - 1] == a + b[..n];
      assert (a + b)[|a + b| - 1] == b[n];
      SentinelSplit(a, b[..n]);
    } else {
      assert a + b == a;
    }
  }

  /** Pushing a sentinel and then sentinel-free entries makes those entries
   *  the last frame, on top of the old stack. */
  lemma {:induction false} PushedFrame(u: seq<UndoEntry>, frame: seq<UndoEntry>)
    requires Sentinel !in frame
    ensures LastFrame(u + [Sentinel] + frame) == frame
    ensures BeforeFrame(u + [Sentinel] + frame) == u
    decreases |frame|
  {
    if frame != [] {
      var n := |frame| - 1;
      assert (u + [Sentinel] + frame)[..|u| + 1 + n] == u + [Sentinel] + frame[..n];
      PushedFrame(u, frame[..n]);
      assert frame == frame[..n] + [frame[n]];
    } else {
      assert (u + [Sentinel])[..|u|] == u;
    }
  }

  /** Pushing a change extends the last frame and leaves the rest alone. */
  lemma PushChange(u: seq<UndoEntry>, e: UndoEntry)
    requires e.Change?
    ensures LastFrame(u + [e]) == LastFrame(u) + [e]
    ensures BeforeFrame(u + [e]) == BeforeFrame(u)
    ensures SentinelCount(u + [e]) == SentinelCount(u)
  {
    assert (u + [e])[..|u|] == u;
  }

  /** Popping the newest change E of a well-framed stack U: what remains is
   *  well framed, with the same sentinels and the same frames below, and
   *  putting E's recorded colour back on a well-shaped S before restoring
   *  the shortened frame restores the same board. */
  lemma PoppedChange(u: seq<UndoEntry>, s: seq<Cell>)
    requires WellFramed(u) && u != [] && u[0] == Sentinel && u[|u| - 1] != Sentinel
    requires WellShaped(s)
    ensures var e, p := u[|u| - 1], u[..|u| - 1];
            RealIndex(e.sq) && 0 <= e.sq < |s| && s[e.sq].Some? &&
            WellFramed(p) && p != [] && p[0] == Sentinel && |p| < |u| &&
            SentinelCount(p) == SentinelCount(u) && BeforeFrame(p) == BeforeFrame(u) &&
            WellShaped(s[e.sq := Some(e.prior)]) &&
            Restore(s[e.sq := Some(e.prior)], LastFrame(p)) == Restore(s, LastFrame(u))
  {
    var n := |u| - 1;
    var e, p := u[n], u[..n];
    assert u == p + [e];
    assert e in u;
    PushChange(p, e);
    assert ShapedAt(s, e.sq);
    ShapedUpdate(s, e.sq, e.prior);
    var f := LastFrame(p) + [e];
    assert f[..|f| - 1] == LastFrame(p);
    forall x | x in p && x.Change? ensures RealIndex(x.sq) {
      assert x in u;
    }
  }

  /** Recording a square's prior colour and then overwriting it leaves the
   *  restored board unchanged. */
  lemma RestoreOverSet(s: seq<Cell>, frame: seq<UndoEntry>, sq: int, v: Cell)
    requires 0 <= sq < |s| && s[sq].Some?
    ensures Restore(s[sq := v], frame + [Change(sq, s[sq].value)]) == Restore(s, frame)
  {
    var f := frame + [Change(sq, s[sq].value)];
    assert f[..|f| - 1] == frame;
    assert s[sq := v][sq := Some(s[sq].value)] == s;
  }

  // ---------------------------------------------------------------------
  // Layout

  /** The cell of the initial layout: RED on a7 and g1, BLUE on a1 and g7,
   *  the other real squares EMPTY, the border null. */
  function InitialCell(k: int): Cell
  {
    if !RealIndex(k) then None
    else if k == Index(0, SIDE - 1) || k == Index(SIDE - 1, 0) then Some(RED)
    else if k == Index(0, 0) || k == Index(SIDE - 1, SIDE - 1) then Some(BLUE)
    else Some(EMPTY)
  }

  /** S is the initial layout, cell by cell. */
  predicate IsInitialLayout(s: seq<Cell>)
  {
    |s| == CELLS && forall k :: 0 <= k < CELLS ==> s[k] == InitialCell(k)
  }

  /** Emptying every real square and then placing the four corner pieces
   *  yields the initial layout. */
  lemma InitialLayout(s: seq<Cell>)
    requires |s| == CELLS
    requires forall k :: 0 <= k < CELLS && !RealIndex(k) ==> s[k] == None
    requires forall c, r :: IsReal(c, r) ==> s[Index(c, r)] == Some(EMPTY)
    ensures IsInitialLayout(s[Index(0, 0) := Some(BLUE)][Index(SIDE - 1, SIDE - 1) := Some(BLUE)]
                             [Index(0, SIDE - 1) := Some(RED)][Index(SIDE - 1, 0) := Some(RED)])
  {
    var t := s[Index(0, 0) := Some(BLUE)][Index(SIDE - 1, SIDE - 1) := Some(BLUE)]
              [Index(0, SIDE - 1) := Some(RED)][Index(SIDE - 1, 0) := Some(RED)];
    forall k | 0 <= k < CELLS
      ensures t[k] == InitialCell(k)
    {
      if RealIndex(k) {
        RealIndexIsIndex(k);
      }
    }
  }

  /** The initial layout has two pieces of each colour. */
  lemma InitialCounts(s: seq<Cell>)
    requires IsInitialLayout(s)
    ensures Count(s, RED) == 2 && Count(s, BLUE) == 2
  {
    CountIsCardinality(s, RED);
    CountIsCardinality(s, BLUE);
    assert (set k | 0 <= k < |s| && s[k] == Some(RED)) == {Index(0, SIDE - 1), Index(SIDE - 1, 0)};
    assert (set k | 0 <= k < |s| && s[k] == Some(BLUE)) == {Index(0, 0), Index(SIDE - 1, SIDE - 1)};
  }

  /** The four squares a block at (c, r) occupies: it and its mirror images
   *  across the middle row and the middle column. */
  predicate BlockSquaresEmpty(s: seq<Cell>, c: Coord, r: Coord)
    requires |s| == CELLS
  {
    var c1 := SIDE - 1 - c;
    var r1 := SIDE - 1 - r;
    s[Index(c, r)] == Some(EMPTY) && s[Index(c, r1)] == Some(EMPTY)
    && s[Index(c1, r)] == Some(EMPTY) && s[Index(c1, r1)] == Some(EMPTY)
  }

  function WithBlocks(s: seq<Cell>, c: Coord, r: Coord): (t: seq<Cell>)
    requires |s| == CELLS
    ensures |t| == CELLS
  {
    var c1 := SIDE - 1 - c;
    var r1 := SIDE - 1 - r;
    s[Index(c, r) := Some(BLOCKED)][Index(c, r1) := Some(BLOCKED)]
     [Index(c1, r) := Some(BLOCKED)][Index(c1, r1) := Some(BLOCKED)]
  }

  /** Blocks come in mirror-symmetric quadruples. */
  lemma BlocksSymmetric(s: seq<Cell>, c: Coord, r: Coord)
    requires |s| == CELLS
    ensures var t := WithBlocks(s, c, r);
            t[Index(c, r)] == t[Index(SIDE - 1 - c, r)] == t[Index(c, SIDE - 1 - r)]
            == t[Index(SIDE - 1 - c, SIDE - 1 - r)] == Some(BLOCKED)
  {
  }

  /** Cell K holds a colour exactly when it is a real square. */
  predicate ShapedAt(s: seq<Cell>, k: int)
    requires 0 <= k < |s|
  {
    s[k].Some? <==> RealIndex(k)
  }

  /** Exactly the real squares hold a colour; the border holds None. The
   *  quantifier is stated through ShapedAt so that it is only instantiated
   *  for cells a proof asks about. */
  predicate WellShaped(s: seq<Cell>)
  {
    |s| == CELLS && forall k :: 0 <= k < CELLS ==> ShapedAt(s, k)
  }

  /** Writing a colour to a real square keeps the shape. */
  lemma ShapedUpdate(s: seq<Cell>, sq: int, v: PieceColor)
    requires WellShaped(s) && RealIndex(sq)
    ensures WellShaped(s[sq := Some(v)])
  {
    var t := s[sq := Some(v)];
    forall k | 0 <= k < CELLS
      ensures ShapedAt(t, k)
    {
      assert ShapedAt(s, k);
    }
  }

  /** The initial layout is well shaped and has two pieces of each colour. */
  lemma InitialLayoutValid(s: seq<Cell>)
    requires IsInitialLayout(s)
    ensures WellShaped(s) && Count(s, RED) == 2 && Count(s, BLUE) == 2
  {
    InitialCounts(s);
  }

  // ---------------------------------------------------------------------
  // The mutable state

  /** The move list and undo stack of a board. A separate object because
   *  the copy constructor of the source shares it between boards. */
  class History {
    var moves: seq<Move>
    var undo: seq<UndoEntry>

    ghost predicate Valid()
      reads this
    {
      WellFramed(undo) && SentinelCount(undo) == |moves|
    }

    constructor ()
      ensures Valid() && moves == [] && undo == []
    {
      moves := [];
      undo := [];
    }
  }

  class Board {
    var squares: array<Cell>
    var whoseMove: PieceColor
    var redCount: int
    var blueCount: int
    var winner: Option<PieceColor>
    var jumps: int
    var numPass: int
    var numTotal: int
    var history: History

    ghost predicate Valid()
      reads this, squares, history
    {
      && squares.Length == CELLS
      && WellShaped(squares[..])
      && whoseMove.IsPiece()
      && redCount == Count(squares[..], RED)
      && blueCount == Count(squares[..], BLUE)
      && history.Valid()
    }

    /** A new board in the initial configuration. */
    constructor ()
      ensures Valid() && fresh(squares) && fresh(history)
      ensures IsInitialLayout(squares[..])
      ensures whoseMove == RED && winner == None
      ensures jumps == 0 && numPass == 0 && numTotal == 0
      ensures history.moves == [] && history.undo == []
    {
      squares := new Cell[CELLS](_ => None);
      whoseMove := RED;
      history := new History();
      new;
      Clear();
    }

    /** A board whose squares and counters are copied from BOARD0 but which
     *  shares BOARD0's move list and undo stack, as the source's copy
     *  constructor does; the winner and move total start afresh. */
    constructor CopySharingHistory(board0: Board)
      requires board0.Valid()
      ensures Valid() && fresh(squares)
      ensures squares[..] == board0.squares[..] && history == board0.history
      ensures whoseMove == board0.whoseMove && jumps == board0.jumps && numPass == board0.numPass
      ensures redCount == board0.redCount && blueCount == board0.blueCount
      ensures winner == None && numTotal == 0
    {
      ghost var s0 := board0.squares[..];
      assert board0.redCount == Count(s0, RED) && board0.blueCount == Count(s0, BLUE);
      var a := new Cell[CELLS](_ => None);
      forall k | 0 <= k < CELLS {
        a[k] := board0.squares[k];
      }
      squares := a;
      whoseMove := board0.whoseMove;
      redCount := board0.redCount;
      blueCount := board0.blueCount;
      jumps := board0.jumps;
      numPass := board0.numPass;
      history := board0.history;
      winner := None;
      numTotal := 0;
      assert a[..] == board0.squares[..] == s0;
    }

    /** A board whose squares and counters are copied from BOARD0, with a
     *  history of its own that starts empty. */
    constructor Copy(board0: Board)
      requires board0.Valid()
      ensures Valid() && fresh(squares) && fresh(history)
      ensures squares[..] == board0.squares[..]
      ensures whoseMove == board0.whoseMove && jumps == board0.jumps && numPass == board0.numPass
      ensures redCount == board0.redCount && blueCount == board0.blueCount
      ensures winner == None && numTotal == 0 && history.moves == [] && history.undo == []
    {
      ghost var s0 := board0.squares[..];
      assert board0.redCount == Count(s0, RED) && board0.blueCount == Count(s0, BLUE);
      var a := new Cell[CELLS](_ => None);
      forall k | 0 <= k < CELLS {
        a[k] := board0.squares[k];
      }
      squares := a;
      whoseMove := board0.whoseMove;
      redCount := board0.redCount;
      blueCount := board0.blueCount;
      jumps := board0.jumps;
      numPass := board0.numPass;
      history := new History();
      winner := None;
      numTotal := 0;
      assert a[..] == board0.squares[..] == s0;
    }

    /** Resets to the starting layout with RED to move and an empty history. */
    method Clear()
      requires squares.Length == CELLS
      requires forall k :: 0 <= k < CELLS && !RealIndex(k) ==> squares[k] == None
      modifies this, squares
      ensures Valid() && squares == old(squares) && fresh(history)
      ensures IsInitialLayout(squares[..])
      ensures whoseMove == RED && winner == None
      ensures jumps == 0 && numPass == 0 && numTotal == 0
      ensures history.moves == [] && history.undo == []
    {
      ResetSquares();
      whoseMove := RED;
      history := new History();
      redCount := 2;
      blueCount := 2;
      jumps := 0;
      numPass := 0;
      numTotal := 0;
      winner := None;
      InitialLayoutValid(squares[..]);
    }

    /** Puts the real squares in the starting layout: every one EMPTY, then
     *  the four corner pieces. */
    method ResetSquares()
      requires squares.Length == CELLS
      requires forall k :: 0 <= k < CELLS && !RealIndex(k) ==> squares[k] == None
      modifies squares
      ensures IsInitialLayout(squares[..])
    {
      EmptyRealSquares();
      ghost var emptied := squares[..];
      InitialLayout(emptied);
      PlaceStartingPieces();
    }

    /** Writes EMPTY to every real square, column by column. */
    method EmptyRealSquares()
      requires squares.Length == CELLS
      requires forall k :: 0 <= k < CELLS && !RealIndex(k) ==> squares[k] == None
      modifies squares
      ensures forall k :: 0 <= k < CELLS && !RealIndex(k) ==> squares[k] == None
      ensures forall c, r :: IsReal(c, r) ==> squares[Index(c, r)] == Some(EMPTY)
    {
      for col := 0 to SIDE
        invariant forall k :: 0 <= k < CELLS && !RealIndex(k) ==> squares[k] == None
        invariant forall c, r :: IsReal(c, r) && c < col ==> squares[Index(c, r)] == Some(EMPTY)
      {
        for row := 0 to SIDE
          invariant forall k :: 0 <= k < CELLS && !RealIndex(k) ==> squares[k] == None
          invariant forall c, r :: IsReal(c, r) && (c < col || (c == col && r < row))
                                   ==> squares[Index(c, r)] == Some(EMPTY)
        {
          IndexIsReal(col, row);
          squares[Index(col, row)] := Some(EMPTY);
        }
      }
    }

    /** Puts BLUE on a1 and g7 and RED on a7 and g1. */
    method PlaceStartingPieces()
      requires squares.Length == CELLS
      modifies squares
      ensures squares[..] == old(squares[..])[Index(0, 0) := Some(BLUE)][Index(SIDE - 1, SIDE - 1) := Some(BLUE)]
                                             [Index(0, SIDE - 1) := Some(RED)][Index(SIDE - 1, 0) := Some(RED)]
    {
      squares[Index(0, 0)] := Some(BLUE);
      squares[Index(SIDE - 1, SIDE - 1)] := Some(BLUE);
      squares[Index(0, SIDE - 1)] := Some(RED);
      squares[Index(SIDE - 1, 0)] := Some(RED);
    }

    /** Number of pieces of colour C, kept up to date by every write. */
    function NumPieces(c: PieceColor): (n: int)
      reads this, squares, history
      requires Valid() && c.IsPiece()
      ensures n == Count(squares[..], c)
    {
      if c == RED then redCount else blueCount
    }

    method IncrPieces(c: PieceColor, k: int)
      modifies this
      ensures redCount == old(redCount) + (if c == RED then k else 0)
      ensures blueCount == old(blueCount) + (if c == BLUE then k else 0)
      ensures squares == old(squares) && history == old(history) && whoseMove == old(whoseMove)
      ensures winner == old(winner) && jumps == old(jumps) && numPass == old(numPass)
      ensures numTotal == old(numTotal)
    {
      if c == RED {
        redCount := redCount + k;
      } else if c == BLUE {
        blueCount := blueCount + k;
      }
    }

    /** Undoable write of V to real square SQ: records the prior colour on
     *  the undo stack and adjusts the piece counts. */
    method Set(sq: int, v: PieceColor)
      requires Valid() && 0 <= sq < CELLS && squares[sq].Some? && history.undo != []
      modifies this, squares, history
      ensures Valid() && squares == old(squares) && history == old(history)
      ensures squares[..] == old(squares[..])[sq := Some(v)]
      ensures history.undo == old(history.undo) + [Change(sq, old(squares[sq]).value)]
      ensures history.moves == old(history.moves)
      ensures whoseMove == old(whoseMove) && winner == old(winner) && jumps == old(jumps)
      ensures numPass == old(numPass) && numTotal == old(numTotal)
    {
      assert ShapedAt(squares[..], sq);
      ShapedUpdate(squares[..], sq, v);
      history.undo := history.undo + [Change(sq, squares[sq].value)];
      CountUpdate(squares[..], sq, Some(v), RED);
      CountUpdate(squares[..], sq, Some(v), BLUE);
      IncrPieces(squares[sq].value, -1);
      squares[sq] := Some(v);
      IncrPieces(v, 1);
    }

    /** Whether WHO has a legal step, scanning columns a to g, rows 7 to 1
     *  and offsets in [-2, 2] x [-2, 2]. The source swaps WHO in as the side
     *  to move and restores it; here WHO is passed to the legality test. */
    method CanMove(who: PieceColor) returns (can: bool)
      requires squares.Length == CELLS
      ensures can == HasLegalMove(squares[..], who)
    {
      ghost var s := squares[..];
      ghost var all := LegalMoves(s, who, who);
      for col := 0 to SIDE
        invariant s == squares[..]
        invariant all != [] <==> BoardMoves(s, who, who, col) != []
      {
        var row := SIDE - 1;
        while row >= 0
          invariant -1 <= row < SIDE && s == squares[..]
          invariant all != [] <==> ColumnMoves(s, who, who, col, row) != [] || BoardMoves(s, who, who, col + 1) != []
        {
          if squares[Index(col, row)] == Some(who) {
            var found := CanMoveFrom(who, col, row);
            if found {
              return true;
            }
          }
          row := row - 1;
        }
      }
      return false;
    }

    /** Whether WHO has a legal step from (col, row), trying column offsets
     *  -2 to 2 and, for each, row offsets -2 to 2. */
    method CanMoveFrom(who: PieceColor, col: int, row: int) returns (can: bool)
      requires squares.Length == CELLS && IsReal(col, row)
      ensures can == (SquareMoves(squares[..], who, col, row, -2) != [])
    {
      ghost var s := squares[..];
      for i := -2 to 3
        invariant s == squares[..]
        invariant SquareMoves(s, who, col, row, -2) != [] <==> SquareMoves(s, who, col, row, i) != []
      {
        for j := -2 to 3
          invariant s == squares[..]
          invariant SquareMoves(s, who, col, row, -2) != []
                    <==> OffsetMoves(s, who, col, row, i, j) != [] || SquareMoves(s, who, col, row, i + 1) != []
        {
          var legal := IsLegalStep(who, Step(col, row, col + i, row + j));
          if legal {
            return true;
          }
        }
      }
      return false;
    }

    /** Whether step M is legal when WHO is to move. */
    method IsLegalStep(who: PieceColor, m: Move) returns (legal: bool)
      requires squares.Length == CELLS && m.Step?
      ensures legal == LegalStep(squares[..], who, m)
    {
      legal := squares[m.FromIndex()] == Some(who) && squares[m.ToIndex()] == Some(EMPTY)
               && (m.IsExtend() || m.IsJump());
    }

    /** Whether MOVE is legal; None stands for a null move. */
    method LegalMove(move: Option<Move>) returns (legal: bool)
      requires Valid()
      ensures legal == (move.Some? && IsLegal(squares[..], whoseMove, move.value))
    {
      if move.None? {
        return false;
      }
      var m := move.value;
      if m.Pass? {
        var can := CanMove(whoseMove);
        return !can;
      }
      legal := IsLegalStep(whoseMove, m);
    }

    /** Number of real squares that are not blocked. */
    method TotalOpen() returns (open: int)
      requires Valid()
      ensures open == SIDE * SIDE - Count(squares[..], BLOCKED)
    {
      forall k | 0 <= k < CELLS && squares[k] == Some(BLOCKED)
        ensures RealIndex(k)
      {
        assert ShapedAt(squares[..], k);
      }
      var numBlocks := 0;
      ghost var seen: set<int> := {};
      for col := 0 to SIDE
        invariant numBlocks == |seen|
        invariant forall k :: k in seen <==> 0 <= k < CELLS && squares[k] == Some(BLOCKED)
                                             && ColOf(k) < col
      {
        for row := 0 to SIDE
          invariant numBlocks == |seen|
          invariant forall k :: k in seen <==> 0 <= k < CELLS && squares[k] == Some(BLOCKED)
                                               && (ColOf(k) < col || (ColOf(k) == col && RowOf(k) < row))
        {
          IndexIsReal(col, row);
          if squares[Index(col, row)] == Some(BLOCKED) {
            numBlocks := numBlocks + 1;
            seen := seen + {Index(col, row)};
          }
        }
      }
      CountIsCardinality(squares[..], BLOCKED);
      assert seen == set k | 0 <= k < |squares[..]| && squares[..][k] == Some(BLOCKED);
      open := SIDE * SIDE - numBlocks;
    }

    /** Turns every neighbour of M's destination that holds the opponent of
     *  COLOR into COLOR, recording each change for undo. */
    method ReplacePieces(m: Move, color: PieceColor)
      requires Valid() && m.Step? && RealIndex(m.ToIndex()) && history.undo != []
      modifies this, squares, history
      ensures Valid() && squares == old(squares) && history == old(history)
      ensures squares[..] == Captured(old(squares[..]), m.ToIndex(), color, 2, -1)
      ensures history.moves == old(history.moves) && history.undo != []
      ensures BeforeFrame(history.undo) == BeforeFrame(old(history.undo))
      ensures Restore(squares[..], LastFrame(history.undo)) == Restore(old(squares[..]), LastFrame(old(history.undo)))
      ensures whoseMove == old(whoseMove) && winner == old(winner) && jumps == old(jumps)
      ensures numPass == old(numPass) && numTotal == old(numTotal)
    {
      var to := m.ToIndex();
      ghost var s0 := squares[..];
      ghost var u0 := history.undo;
      CapturedNone(s0, to, color);
      for i := -1 to 2
        invariant Valid() && squares == old(squares) && history == old(history)
        invariant squares[..] == Captured(s0, to, color, i, -1)
        invariant history.moves == old(history.moves) && history.undo != []
        invariant BeforeFrame(history.undo) == BeforeFrame(u0)
        invariant Restore(squares[..], LastFrame(history.undo)) == Restore(s0, LastFrame(u0))
        invariant whoseMove == old(whoseMove) && winner == old(winner) && jumps == old(jumps)
        invariant numPass == old(numPass) && numTotal == old(numTotal)
      {
        for j := -1 to 2
          invariant Valid() && squares == old(squares) && history == old(history)
          invariant squares[..] == Captured(s0, to, color, i, j)
          invariant history.moves == old(history.moves) && history.undo != []
          invariant BeforeFrame(history.undo) == BeforeFrame(u0)
          invariant Restore(squares[..], LastFrame(history.undo)) == Restore(s0, LastFrame(u0))
          invariant whoseMove == old(whoseMove) && winner == old(winner) && jumps == old(jumps)
          invariant numPass == old(numPass) && numTotal == old(numTotal)
        {
          CaptureAt(to, color, i, j, s0, u0);
        }
        CapturedNextColumn(s0, to, color, i);
      }
    }

    /** One step of the capture scan: the neighbour at column offset I and
     *  row offset J of TO turns to COLOR if it holds the opponent. */
    method CaptureAt(to: int, color: PieceColor, i: int, j: int, ghost s0: seq<Cell>, ghost u0: seq<UndoEntry>)
      requires Valid() && RealIndex(to) && -1 <= i <= 1 && -1 <= j <= 1 && history.undo != []
      requires squares[..] == Captured(s0, to, color, i, j)
      requires Restore(squares[..], LastFrame(history.undo)) == Restore(s0, LastFrame(u0))
      modifies this, squares, history
      ensures Valid() && squares == old(squares) && history == old(history)
      ensures squares[..] == Captured(s0, to, color, i, j + 1)
      ensures history.moves == old(history.moves) && history.undo != []
      ensures BeforeFrame(history.undo) == BeforeFrame(old(history.undo))
      ensures Restore(squares[..], LastFrame(history.undo)) == Restore(s0, LastFrame(u0))
      ensures whoseMove == old(whoseMove) && winner == old(winner) && jumps == old(jumps)
      ensures numPass == old(numPass) && numTotal == old(numTotal)
    {
      var nbr := Neighbor(to, i, j);
      CapturedStep(s0, to, color, i, j);
      if squares[nbr] == Some(color.Opposite()) {
        ghost var before := squares[..];
        ghost var u := history.undo;
        Set(nbr, color);
        RestoreOverSet(before, LastFrame(u), nbr, Some(color));
        PushChange(u, Change(nbr, before[nbr].value));
      }
    }

    /** Applies MOVE if it is legal and reports whether it was; an illegal
     *  or null move changes nothing. */
    method MakeMove(move: Option<Move>) returns (ok: bool)
      requires Valid()
      modifies this, squares, history
      ensures Valid() && squares == old(squares) && history == old(history)
      ensures ok == (move.Some? && IsLegal(old(squares[..]), old(whoseMove), move.value))
      ensures !ok ==> unchanged(this, squares, history)
      ensures ok ==> history.moves == old(history.moves) + [move.value]
      ensures ok ==> BeforeFrame(history.undo) == old(history.undo)
      ensures ok ==> Restore(squares[..], LastFrame(history.undo)) == old(squares[..])
      ensures ok ==> whoseMove == old(whoseMove).Opposite() && numTotal == old(numTotal) + 1
      ensures ok && move.value.Pass? ==>
                squares[..] == old(squares[..]) && jumps == 0 && numPass == old(numPass) + 1
                && winner == old(winner)
      ensures ok && move.value.Step? ==>
                && squares[..] == Moved(old(squares[..]), old(whoseMove), move.value)
                && jumps == (if move.value.IsJump() then old(jumps) + 1 else 0)
                && numPass == old(numPass)
                && winner == WinnerAfter(squares[..], old(whoseMove), jumps)
    {
      ok := LegalMove(move);
      if !ok {
        return;
      }
      var m := move.value;
      StartUndo(m);
      if m.Pass? {
        PassMove();
      } else {
        StepMove(m);
      }
    }

    /** Records M in the move list and opens a new undo frame for it. */
    method StartUndo(m: Move)
      requires Valid()
      modifies history
      ensures Valid()
      ensures history.moves == old(history.moves) + [m]
      ensures history.undo == old(history.undo) + [Sentinel]
      ensures LastFrame(history.undo) == [] && BeforeFrame(history.undo) == old(history.undo)
    {
      history.moves := history.moves + [m];
      history.undo := history.undo + [Sentinel];
      PushedFrame(old(history.undo), []);
      SentinelSplit(old(history.undo), [Sentinel]);
    }

    /** The pass branch of MakeMove, once the pass is known to be legal. */
    method PassMove()
      requires Valid() && !HasLegalMove(squares[..], whoseMove)
      modifies this
      ensures Valid() && squares == old(squares) && history == old(history)
      ensures whoseMove == old(whoseMove).Opposite() && numTotal == old(numTotal) + 1
      ensures jumps == 0 && numPass == old(numPass) + 1 && winner == old(winner)
    {
      var passed := Pass();
      jumps := 0;
      numTotal := numTotal + 1;
    }

    /** The step branch of MakeMove, once step M is known to be legal and
     *  its undo frame is open. */
    method StepMove(m: Move)
      requires Valid() && m.Step? && LegalStep(squares[..], whoseMove, m) && history.undo != []
      modifies this, squares, history
      ensures Valid() && squares == old(squares) && history == old(history)
      ensures history.moves == old(history.moves)
      ensures BeforeFrame(history.undo) == BeforeFrame(old(history.undo))
      ensures Restore(squares[..], LastFrame(history.undo)) == Restore(old(squares[..]), LastFrame(old(history.undo)))
      ensures whoseMove == old(whoseMove).Opposite() && numTotal == old(numTotal) + 1
      ensures squares[..] == Moved(old(squares[..]), old(whoseMove), m)
      ensures jumps == (if m.IsJump() then old(jumps) + 1 else 0)
      ensures numPass == old(numPass)
      ensures winner == WinnerAfter(squares[..], old(whoseMove), jumps)
    {
      // The counters and the turn take no part in applying the step or in
      // deciding the winner, so they are updated first.
      var mover := whoseMove;
      ExtendJumpExclusive(m);
      if m.IsExtend() {
        jumps := 0;
      } else {
        jumps := jumps + 1;
      }
      numTotal := numTotal + 1;
      whoseMove := mover.Opposite();
      ApplyStep(m, mover);
      DecideWinner(mover);
    }

    /** The board part of a legal step M by the side to move: the
     *  destination takes the mover's colour, a jump empties the source, and
     *  the captures follow; every write is recorded in the open undo frame. */
    method ApplyStep(m: Move, mover: PieceColor)
      requires Valid() && m.Step? && mover.IsPiece() && LegalStep(squares[..], mover, m) && history.undo != []
      modifies this, squares, history
      ensures Valid() && squares == old(squares) && history == old(history)
      ensures squares[..] == Moved(old(squares[..]), mover, m)
      ensures history.moves == old(history.moves) && history.undo != []
      ensures BeforeFrame(history.undo) == BeforeFrame(old(history.undo))
      ensures Restore(squares[..], LastFrame(history.undo)) == Restore(old(squares[..]), LastFrame(old(history.undo)))
      ensures whoseMove == old(whoseMove) && winner == old(winner) && jumps == old(jumps)
      ensures numPass == old(numPass) && numTotal == old(numTotal)
    {
      ghost var s0 := squares[..];
      ghost var u0 := history.undo;
      var to := m.ToIndex();
      var from := m.FromIndex();
      Set(to, mover);
      RestoreOverSet(s0, LastFrame(u0), to, Some(mover));
      PushChange(u0, Change(to, s0[to].value));
      if m.IsJump() {
        ghost var s1 := squares[..];
        ghost var u1 := history.undo;
        Set(from, EMPTY);
        RestoreOverSet(s1, LastFrame(u1), from, Some(EMPTY));
        PushChange(u1, Change(from, s1[from].value));
      }
      MovedIsCaptured(s0, mover, m);
      ReplacePieces(m, mover);
    }

    /** Sets the winner after MOVER's step, testing as the source does: the
     *  jump limit or a full board, then both sides stuck, then a side with
     *  no pieces left. */
    method DecideWinner(mover: PieceColor)
      requires Valid()
      modifies this
      ensures Valid() && squares == old(squares) && history == old(history)
      ensures winner == WinnerAfter(squares[..], mover, jumps)
      ensures whoseMove == old(whoseMove) && jumps == old(jumps) && numPass == old(numPass)
      ensures numTotal == old(numTotal) && redCount == old(redCount) && blueCount == old(blueCount)
    {
      var open := TotalOpen();
      if jumps == JUMP_LIMIT || redCount + blueCount == open {
        if blueCount > redCount {
          winner := Some(BLUE);
        } else if redCount > blueCount {
          winner := Some(RED);
        } else {
          winner := Some(EMPTY);
        }
      } else {
        var moverCan := CanMove(mover);
        var otherCan := CanMove(mover.Opposite());
        if !moverCan && !otherCan {
          if redCount > blueCount {
            winner := Some(RED);
          } else if blueCount > redCount {
            winner := Some(BLUE);
          } else {
            winner := Some(EMPTY);
          }
        } else if redCount == 0 {
          winner := Some(BLUE);
        } else if blueCount == 0 {
          winner := Some(RED);
        } else {
          winner := None;
        }
      }
    }

    /** The side to move passes; refused while it has a legal step. */
    method Pass() returns (ok: bool)
      requires Valid()
      modifies this
      ensures Valid()
      ensures ok == !HasLegalMove(squares[..], old(whoseMove))
      ensures !ok ==> unchanged(this)
      ensures ok ==> whoseMove == old(whoseMove).Opposite() && numPass == old(numPass) + 1
      ensures squares == old(squares) && history == old(history) && redCount == old(redCount)
      ensures blueCount == old(blueCount) && winner == old(winner) && jumps == old(jumps)
      ensures numTotal == old(numTotal)
    {
      var can := CanMove(whoseMove);
      if can {
        return false;
      }
      whoseMove := whoseMove.Opposite();
      numPass := numPass + 1;
      return true;
    }

    /** Takes back the last move: restores every square of its undo frame,
     *  flips the side to move back and clears the winner. The jump counter
     *  drops only when the undone move was a jump; numPass is kept. */
    method Undo() returns (ok: bool)
      requires Valid()
      modifies this, squares, history
      ensures Valid() && squares == old(squares) && history == old(history)
      ensures ok == (old(history.undo) != [])
      ensures !ok ==> unchanged(this, squares, history)
      ensures ok ==> |old(history.moves)| > 0
      ensures ok ==> squares[..] == Restore(old(squares[..]), LastFrame(old(history.undo)))
      ensures ok ==> history.undo == BeforeFrame(old(history.undo))
      ensures ok ==> history.moves == old(history.moves)[..|old(history.moves)| - 1]
      ensures ok ==> jumps == old(jumps) - (if old(history.moves)[|old(history.moves)| - 1].IsJump() then 1 else 0)
      ensures ok ==> whoseMove == old(whoseMove).Opposite() && numTotal == old(numTotal) - 1
      ensures ok ==> winner == None && numPass == old(numPass)
    {
      if history.undo == [] {
        return false;
      }
      FrameSplit(history.undo);
      var prev := history.moves[|history.moves| - 1];
      // The counters and the turn take no part in restoring the squares,
      // so they are reset first.
      if prev.IsJump() {
        jumps := jumps - 1;
      }
      whoseMove := whoseMove.Opposite();
      numTotal := numTotal - 1;
      winner := None;
      RestoreFrame();
      PopFrame();
      return true;
    }

    /** Pops the sentinel that closes an emptied undo frame, and the move
     *  it belonged to. */
    method PopFrame()
      requires Valid() && history.undo != [] && history.undo[|history.undo| - 1] == Sentinel
      modifies history
      ensures Valid()
      ensures history.undo == old(history.undo)[..|old(history.undo)| - 1]
      ensures |old(history.moves)| > 0 && history.moves == old(history.moves)[..|old(history.moves)| - 1]
    {
      var n := |history.undo| - 1;
      assert history.undo == history.undo[..n] + [Sentinel];
      SentinelSplit(history.undo[..n], [Sentinel]);
      history.undo := history.undo[..n];
      history.moves := history.moves[..|history.moves| - 1];
    }

    /** Pops the changes of the open undo frame, newest first, restoring
     *  each square; stops at the frame's sentinel, which stays. */
    method RestoreFrame()
      requires Valid() && history.undo != [] && history.undo[0] == Sentinel
      modifies this, squares, history
      ensures Valid() && squares == old(squares) && history == old(history)
      ensures squares[..] == Restore(old(squares[..]), LastFrame(old(history.undo)))
      ensures history.undo == BeforeFrame(old(history.undo)) + [Sentinel]
      ensures history.moves == old(history.moves)
      ensures whoseMove == old(whoseMove) && winner == old(winner) && jumps == old(jumps)
      ensures numPass == old(numPass) && numTotal == old(numTotal)
    {
      ghost var s0 := squares[..];
      ghost var u0 := history.undo;
      while history.undo[|history.undo| - 1] != Sentinel
        invariant Valid() && squares == old(squares) && history == old(history)
        invariant history.undo != [] && history.undo[0] == Sentinel
        invariant BeforeFrame(history.undo) == BeforeFrame(u0)
        invariant Restore(squares[..], LastFrame(history.undo)) == Restore(s0, LastFrame(u0))
        invariant history.moves == old(history.moves)
        invariant whoseMove == old(whoseMove) && winner == old(winner) && jumps == old(jumps)
        invariant numPass == old(numPass) && numTotal == old(numTotal)
        decreases |history.undo|
      {
        PopChange();
      }
      var n := |history.undo| - 1;
      assert history.undo == history.undo[..n] + [Sentinel];
    }

    /** Pops the newest change of the open undo frame and puts the recorded
     *  colour back on its square, adjusting the piece counts when the
     *  colour differs. */
    method PopChange()
      requires Valid() && history.undo != [] && history.undo[0] == Sentinel
      requires history.undo[|history.undo| - 1] != Sentinel
      modifies this, squares, history
      ensures Valid() && squares == old(squares) && history == old(history)
      ensures history.undo != [] && history.undo[0] == Sentinel && |history.undo| < |old(history.undo)|
      ensures BeforeFrame(history.undo) == BeforeFrame(old(history.undo))
      ensures Restore(squares[..], LastFrame(history.undo))
           == Restore(old(squares[..]), LastFrame(old(history.undo)))
      ensures history.moves == old(history.moves)
      ensures whoseMove == old(whoseMove) && winner == old(winner) && jumps == old(jumps)
      ensures numPass == old(numPass) && numTotal == old(numTotal)
    {
      ghost var s0 := squares[..];
      var n := |history.undo| - 1;
      var e := history.undo[n];
      PoppedChange(history.undo, s0);
      CountUpdate(s0, e.sq, Some(e.prior), RED);
      CountUpdate(s0, e.sq, Some(e.prior), BLUE);
      history.undo := history.undo[..n];
      if squares[e.sq] != Some(e.prior) {
        IncrPieces(e.prior, 1);
        IncrPieces(squares[e.sq].value, -1);
      }
      squares[e.sq] := Some(e.prior);
      assert squares[..] == s0[e.sq := Some(e.prior)];
    }

    /** Whether a block may go on (c, r): no move made yet, and the square
     *  and its three mirror images all EMPTY. */
    method LegalBlock(c: Coord, r: Coord) returns (legal: bool)
      requires Valid()
      ensures legal == (numTotal == 0 && BlockSquaresEmpty(squares[..], c, r))
    {
      if numTotal != 0 {
        return false;
      }
      var c1 := SIDE - 1 - c;
      var r1 := SIDE - 1 - r;
      legal := squares[Index(c, r)] == Some(EMPTY) && squares[Index(c, r1)] == Some(EMPTY)
               && squares[Index(c1, r)] == Some(EMPTY) && squares[Index(c1, r1)] == Some(EMPTY);
    }

    /** Blocks (c, r) and its mirror images if that is legal; the game is a
     *  draw at once when neither side can then move. */
    method SetBlock(c: Coord, r: Coord) returns (ok: bool)
      requires Valid()
      modifies this, squares
      ensures Valid() && squares == old(squares)
      ensures ok == (old(numTotal) == 0 && BlockSquaresEmpty(old(squares[..]), c, r))
      ensures !ok ==> unchanged(this, squares)
      ensures ok ==> squares[..] == WithBlocks(old(squares[..]), c, r)
      ensures ok ==> winner == if !HasLegalMove(squares[..], RED) && !HasLegalMove(squares[..], BLUE)
                               then Some(EMPTY) else old(winner)
      ensures history == old(history) && whoseMove == old(whoseMove) && jumps == old(jumps)
      ensures numPass == old(numPass) && numTotal == old(numTotal)
    {
      ok := LegalBlock(c, r);
      if !ok {
        return;
      }
      BlockKeepsShape(squares[..], c, r);
      BlockKeepsCount(squares[..], c, r, RED);
      BlockKeepsCount(squares[..], c, r, BLUE);
      PlaceBlocks(c, r);
      var redCan := CanMove(RED);
      var blueCan := CanMove(BLUE);
      if !redCan && !blueCan {
        winner := Some(EMPTY);
      }
    }

    /** Writes BLOCKED to (c, r) and its three mirror images. */
    method PlaceBlocks(c: Coord, r: Coord)
      requires squares.Length == CELLS
      modifies squares
      ensures squares[..] == WithBlocks(old(squares[..]), c, r)
    {
      var c1 := SIDE - 1 - c;
      var r1 := SIDE - 1 - r;
      squares[Index(c, r)] := Some(BLOCKED);
      squares[Index(c, r1)] := Some(BLOCKED);
      squares[Index(c1, r)] := Some(BLOCKED);
      squares[Index(c1, r1)] := Some(BLOCKED);
    }
  }

  /** Blocking four EMPTY squares keeps the shape. */
  lemma BlockKeepsShape(s: seq<Cell>, c: Coord, r: Coord)
    requires WellShaped(s) && BlockSquaresEmpty(s, c, r)
    ensures WellShaped(WithBlocks(s, c, r))
  {
    var c1 := SIDE - 1 - c;
    var r1 := SIDE - 1 - r;
    var s1 := s[Index(c, r) := Some(BLOCKED)];
    var s2 := s1[Index(c, r1) := Some(BLOCKED)];
    var s3 := s2[Index(c1, r) := Some(BLOCKED)];
    assert ShapedAt(s, Index(c, r)) && ShapedAt(s, Index(c, r1));
    assert ShapedAt(s, Index(c1, r)) && ShapedAt(s, Index(c1, r1));
    ShapedUpdate(s, Index(c, r), BLOCKED);
    ShapedUpdate(s1, Index(c, r1), BLOCKED);
    ShapedUpdate(s2, Index(c1, r), BLOCKED);
    ShapedUpdate(s3, Index(c1, r1), BLOCKED);
  }

  /** Blocking four EMPTY squares leaves the count of every piece colour
   *  alone. */
  lemma BlockKeepsCount(s: seq<Cell>, c: Coord, r: Coord, col: PieceColor)
    requires |s| == CELLS && BlockSquaresEmpty(s, c, r) && col.IsPiece()
    ensures Count(WithBlocks(s, c, r), col) == Count(s, col)
  {
    var c1 := SIDE - 1 - c;
    var r1 := SIDE - 1 - r;
    var s1 := s[Index(c, r) := Some(BLOCKED)];
    var s2 := s1[Index(c, r1) := Some(BLOCKED)];
    var s3 := s2[Index(c1, r) := Some(BLOCKED)];
    var s4 := s3[Index(c1, r1) := Some(BLOCKED)];
    BlockOneKeepsCount(s, Index(c, r), col);
    BlockOneKeepsCount(s1, Index(c, r1), col);
    BlockOneKeepsCount(s2, Index(c1, r), col);
    BlockOneKeepsCount(s3, Index(c1, r1), col);
    assert WithBlocks(s, c, r) == s4;
  }

  /** Blocking a square that is empty or already blocked keeps the count
   *  of every piece colour. */
  lemma BlockOneKeepsCount(s: seq<Cell>, k: int, col: PieceColor)
    requires 0 <= k < |s| && (s[k] == Some(EMPTY) || s[k] == Some(BLOCKED)) && col.IsPiece()
    ensures Count(s[k := Some(BLOCKED)], col) == Count(s, col)
  {
    CountUpdate(s, k, Some(BLOCKED), col);
  }

  /** Taking back a move just made restores the squares, the undo stack,
   *  the move list, the side to move and the move total. The jump counter
   *  comes back only for a jump: an extend or a pass leaves it at 0. */
  method MoveThenUndo(b: Board, move: Option<Move>) returns (ok: bool)
    requires b.Valid()
    modifies b, b.squares, b.history
    ensures b.Valid() && b.squares == old(b.squares) && b.history == old(b.history)
    ensures ok == (move.Some? && IsLegal(old(b.squares[..]), old(b.whoseMove), move.value))
    ensures ok ==> b.squares[..] == old(b.squares[..]) && b.history.undo == old(b.history.undo)
                   && b.history.moves == old(b.history.moves)
                   && b.whoseMove == old(b.whoseMove) && b.numTotal == old(b.numTotal)
                   && b.jumps == (if move.value.IsJump() then old(b.jumps) else 0)
  {
    ok := b.MakeMove(move);
    if ok {
      var undone := b.Undo();
    }
  }

  /** RED's extend a7-b7 is legal on the initial layout, and BLUE's extend
   *  a1-b1 is legal after it. */
  lemma OpeningMovesLegal(s: seq<Cell>)
    requires IsInitialLayout(s)
    ensures IsLegal(s, RED, Step(0, SIDE - 1, 1, SIDE - 1))
    ensures IsLegal(Moved(s, RED, Step(0, SIDE - 1, 1, SIDE - 1)), BLUE, Step(0, 0, 1, 0))
  {
    assert s[Index(0, SIDE - 1)] == InitialCell(Index(0, SIDE - 1));
    assert s[Index(1, SIDE - 1)] == InitialCell(Index(1, SIDE - 1));
    assert s[Index(0, 0)] == InitialCell(Index(0, 0));
    assert s[Index(1, 0)] == InitialCell(Index(1, 0));
  }

  /** A copy made the source's way shares its history with the original: a
   *  move made on the copy lands in the original's move list, although the
   *  original was moved only once. RED extends a7-b7 on a new board, the
   *  board is copied, and BLUE extends a1-b1 on the copy. */
  method SharedHistoryWitness() returns (originalMoves: int)
    ensures originalMoves == 2
  {
    var b := new Board();
    OpeningMovesLegal(b.squares[..]);
    var ok := b.MakeMove(Some(Step(0, SIDE - 1, 1, SIDE - 1)));
    var c := new Board.CopySharingHistory(b);
    var ok2 := c.MakeMove(Some(Step(0, 0, 1, 0)));
    originalMoves := |b.history.moves|;
  }

  /** The corrected copy keeps the histories apart: after the same play
   *  the original's move list holds its one move. */
  method SeparateHistoryWitness() returns (originalMoves: int)
    ensures originalMoves == 1
  {
    var b := new Board();
    OpeningMovesLegal(b.squares[..]);
    var ok := b.MakeMove(Some(Step(0, SIDE - 1, 1, SIDE - 1)));
    var c := new Board.Copy(b);
    var ok2 := c.MakeMove(Some(Step(0, 0, 1, 0)));
    originalMoves := |b.history.moves|;
  }
}
