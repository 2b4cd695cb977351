/** RB_Project2_PartA.py: two humans take turns; X moves first. */
module PartA {
  import opened Rules
  import opened Boards

  class Game {
    var board: Board
    /** The mark of the player to move, "X" or "O". */
    var turn: Mark

    predicate Valid()
      reads this
    {
      board.Valid() && (turn == X || turn == O)
    }

    /** The row-major snapshot of board.play_area. */
    function Cells(): Grid
      requires Valid()
      reads this, board.playArea
    {
      board.Cells()
    }

    /** Game.__init__: a new empty board and X to move. */
    constructor ()
      ensures Valid() && fresh(board) && fresh(board.playArea)
      ensures Cells() == EmptyGrid && turn == X
    {
      board := new Board();
      turn := X;
    }

    method SwitchPlayer()
      requires Valid()
      modifies this`turn
      ensures Valid() && turn == Other(old(turn))
    {
      turn := if turn == X then O else X;
    }

    function ValidateEntry(row: int, col: int): (ok: bool)
      requires Valid()
      reads this, board.playArea
      ensures ok <==> Playable(Cells(), row, col)
    {
      if row < 0 || row >= Side then false
      else if col < 0 || col >= Side then false
      else if board.playArea[row, col] != Empty then false
      else true
    }

    function CheckFull(): (full: bool)
      requires Valid()
      reads this, board.playArea
      ensures full <==> Full(Cells())
      ensures full <==> forall row, col :: InBounds(row, col) ==> board.playArea[row, col] != Empty
    {
      assert forall k :: 0 <= k < Size ==> Cells()[k] == board.playArea[k / Side, k % Side] by {
        forall k | 0 <= k < Size
          ensures Cells()[k] == board.playArea[k / Side, k % Side]
        {
          CellOfIndex(k);
        }
      }
      Rules.CheckFull(Cells())
    }

    /** checkWin takes no mark here: it asks whether the player to move has a line. */
    function CheckWin(): (won: bool)
      requires Valid()
      reads this, board.playArea
      ensures won <==> HasLine(Cells(), turn)
    {
      Rules.CheckWin(Cells(), turn)
    }

    function CheckEnd(): (ended: bool)
      requires Valid()
      reads this, board.playArea
      ensures ended <==> HasLine(Cells(), turn) || Full(Cells())
    {
      if CheckWin() then true
      else if CheckFull() then true
      else false
    }

    /** One pass of the playGame loop for the parsed entry: a rejected entry
        is retried with nothing changed; an accepted one writes the current
        mark, then the game stops on a win or a full board, and otherwise the
        other player moves next. */
    method Step(entry: Entry) returns (status: Status)
      requires Valid()
      modifies this`turn, board.playArea
      ensures Valid()
      ensures (Cells(), turn, status) == TakeTurn(old(Cells()), old(turn), entry)
    {
      match entry
      case Unparseable =>
        status := Rejected;
      case Pair(row, col) =>
        if !ValidateEntry(row, col) {
          status := Rejected;
          return;
        }
        board.Put(row, col, turn);
        if CheckWin() {
          status := Won;
        } else if CheckFull() {
          status := Drawn;
        } else {
          SwitchPlayer();
          status := Continues;
        }
    }

    /** The "play again" branch: self.__init__() gives a new empty board and
        X to move, whatever the finished game was. */
    method Restart()
      modifies this
      ensures Valid() && fresh(board) && fresh(board.playArea)
      ensures Cells() == EmptyGrid && turn == X
    {
      board := new Board();
      turn := X;
    }
  }
}
