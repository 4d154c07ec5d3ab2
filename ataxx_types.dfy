/** The value types of the Ataxx game: piece colours, moves and the
 *  linearised square numbering of the bordered 11x11 board.
 *
 *  Columns and rows are written as offsets from 'a' and '1', so the real
 *  7x7 board is 0 <= col, row < SIDE and the two-deep border runs from -2
 *  to SIDE + 1. */
module AtaxxTypes {

  /** Number of squares on a side of the board. */
  const SIDE := 7
  /** Side length including the two-deep border on each edge. */
  const EXTENDED_SIDE := SIDE + 4
  /** Number of cells of the bordered board. */
  const CELLS := EXTENDED_SIDE * EXTENDED_SIDE
  /** Number of consecutive jumps that ends the game. */
  const JUMP_LIMIT := 25

  datatype PieceColor = EMPTY | BLOCKED | RED | BLUE {

    /** RED and BLUE swap; EMPTY and BLOCKED are their own opposite. */
    function Opposite(): (c: PieceColor)
      ensures IsPiece() <==> c.IsPiece()
      ensures this == RED <==> c == BLUE
      ensures this == BLUE <==> c == RED
      ensures !IsPiece() ==> c == this
    {
      match this
      case RED => BLUE
      case BLUE => RED
      case _ => this
    }

    predicate IsPiece() {
      this == RED || this == BLUE
    }
  }

  /** A column or row, border included. */
  type Coord = x: int | -2 <= x <= SIDE + 1

  predicate IsReal(col: int, row: int) {
    0 <= col < SIDE && 0 <= row < SIDE
  }

  /** The linearised index of square (col, row). */
  function Index(col: int, row: int): (sq: int)
    ensures -2 <= col <= SIDE + 1 && -2 <= row <= SIDE + 1 ==> 0 <= sq < CELLS
    ensures IsReal(col, row) ==> 24 <= sq <= 96
  {
    (row + 2) * EXTENDED_SIDE + (col + 2)
  }

  /** Real coordinates index real squares, and are recovered from them. */
  lemma IndexIsReal(col: int, row: int)
    requires IsReal(col, row)
    ensures RealIndex(Index(col, row))
    ensures ColOf(Index(col, row)) == col && RowOf(Index(col, row)) == row
  {
  }

  /** The index of the square DC columns and DR rows away from SQ. */
  function Neighbor(sq: int, dc: int, dr: int): (n: int)
    ensures RealIndex(sq) && -2 <= dc <= 2 && -2 <= dr <= 2 ==> 0 <= n < CELLS
  {
    sq + dc + dr * EXTENDED_SIDE
  }

  /** The real row whose band of EXTENDED_SIDE indices (from its leftmost
   *  border cell) holds SQ; indices below the first band or above the last
   *  one are attributed to rows 0 and SIDE - 1. Written as a chain of
   *  comparisons so that it stays linear. */
  function RowOf(sq: int): (r: int)
    ensures 0 <= r < SIDE
  {
    if sq < 3 * EXTENDED_SIDE then 0
    else if sq < 4 * EXTENDED_SIDE then 1
    else if sq < 5 * EXTENDED_SIDE then 2
    else if sq < 6 * EXTENDED_SIDE then 3
    else if sq < 7 * EXTENDED_SIDE then 4
    else if sq < 8 * EXTENDED_SIDE then 5
    else 6
  }

  /** The column of SQ within the band of row RowOf(SQ). */
  function ColOf(sq: int): int {
    sq - (RowOf(sq) + 2) * EXTENDED_SIDE - 2
  }

  /** SQ is the index of a square of the real 7x7 board. */
  predicate RealIndex(sq: int) {
    0 <= sq < CELLS && IsReal(ColOf(sq), RowOf(sq))
  }

  lemma IndexInjective(c0: int, r0: int, c1: int, r1: int)
    requires -2 <= c0 <= SIDE + 1 && -2 <= r0 <= SIDE + 1
    requires -2 <= c1 <= SIDE + 1 && -2 <= r1 <= SIDE + 1
    ensures Index(c0, r0) == Index(c1, r1) <==> c0 == c1 && r0 == r1
  {
  }

  /** A real index is the index of its own column and row. */
  lemma RealIndexIsIndex(sq: int)
    requires RealIndex(sq)
    ensures sq == Index(ColOf(sq), RowOf(sq))
  {
  }

  function Abs(x: int): nat {
    if x < 0 then -x else x
  }

  /** A move: a pass, or a transition from (col0, row0) to (col1, row1). */
  datatype Move = Pass | Step(col0: Coord, row0: Coord, col1: Coord, row1: Coord) {

    /** Chebyshev distance between the two squares of a step. */
    function Distance(): nat
      requires Step?
    {
      var dc := Abs(col1 - col0);
      var dr := Abs(row1 - row0);
      if dc < dr then dr else dc
    }

    /** A step to a square at distance 1; the source piece stays. */
    predicate IsExtend() {
      Step? && Distance() == 1
    }

    /** A step to a square at distance 2; the source square empties. */
    predicate IsJump() {
      Step? && Distance() == 2
    }

    function FromIndex(): (sq: int)
      requires Step?
      ensures 0 <= sq < CELLS
    {
      Index(col0, row0)
    }

    function ToIndex(): (sq: int)
      requires Step?
      ensures 0 <= sq < CELLS
    {
      Index(col1, row1)
    }
  }

  /** Extends and jumps never coincide, and a step of either kind moves. */
  lemma ExtendJumpExclusive(m: Move)
    requires m.Step?
    ensures !(m.IsExtend() && m.IsJump())
    ensures m.IsExtend() || m.IsJump() ==> m.FromIndex() != m.ToIndex()
  {
    if m.IsExtend() || m.IsJump() {
      IndexInjective(m.col0, m.row0, m.col1, m.row1);
    }
  }
}
