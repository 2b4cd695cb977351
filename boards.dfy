/** The live board: Board.play_area, a 3x3 grid of marks written in place. */
module Boards {
  import opened Rules

  class Board {
    /** The 3×3 play area; cell (r, c) is playArea[r, c]. */
    const playArea: array2<Mark>

    predicate Valid() {
      playArea.Length0 == Side && playArea.Length1 == Side
    }

    /** Board.__init__: every cell holds the empty symbol. */
    constructor ()
      ensures Valid() && fresh(playArea)
      ensures Cells() == EmptyGrid
    {
      playArea := new Mark[Side, Side]((_, _) => Empty);
    }

    /** The row-major snapshot of play_area. */
    function Cells(): (g: Grid)
      requires Valid()
      reads playArea
      ensures forall row, col :: InBounds(row, col) ==> g[Index(row, col)] == playArea[row, col]
    {
      seq(Size, k requires 0 <= k < Size reads playArea => playArea[k / Side, k % Side])
    }

    /** Writes m into cell (row, col) of the live board. */
    method Put(row: int, col: int, m: Mark)
      requires Valid() && InBounds(row, col)
      modifies playArea
      ensures Cells() == old(Cells())[Index(row, col) := m]
    {
      playArea[row, col] := m;
    }
  }
}
