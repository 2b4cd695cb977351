/** RB_Project2_PartB.py: a human plays X against a rule-based computer O. */
module PartB {
  import opened Rules
  import opened Boards

  /** Cell k is empty, and a trial m there gives m a line. */
  predicate Completes(g: Grid, k: int, m: Mark) {
    0 <= k < Size && g[k] == Empty && CheckWin(g[k := m], m)
  }

  /** Some empty cell completes a line for m. */
  predicate CanComplete(g: Grid, m: Mark) {
    exists k :: 0 <= k < Size && Completes(g, k, m)
  }

  /** The row-major scan for the first empty cell whose trial m wins. */
  function FirstCompletingFrom(g: Grid, m: Mark, k: nat): (r: Option<nat>)
    requires k <= Size
    decreases Size - k
    ensures r.Some? ==> k <= r.value < Size && Completes(g, r.value, m) &&
                        forall j :: k <= j < r.value ==> !Completes(g, j, m)
    ensures r.None? <==> forall j :: k <= j < Size ==> !Completes(g, j, m)
  {
    if k == Size then None
    else if g[k] == Empty && CheckWin(g[k := m], m) then assert Completes(g, k, m); Some(k)
    else FirstCompletingFrom(g, m, k + 1)
  }

  /** The scan finds k when k completes a line and no earlier cell does. */
  lemma FirstCompletingIs(g: Grid, m: Mark, k: nat)
    requires Completes(g, k, m)
    requires forall j :: 0 <= j < k ==> !Completes(g, j, m)
    ensures FirstCompletingFrom(g, m, 0) == Some(k)
  {
    var r := FirstCompletingFrom(g, m, 0);
    assert r.Some?;
    assert !(r.value < k) && !(k < r.value);
  }

  /** A trial mark written into an empty cell and undone leaves the board as it was. */
  lemma UndoTrial(g: Grid, k: nat, m: Mark)
    requires k < Size && g[k] == Empty
    ensures g[k := m][k := Empty] == g
  {
  }

  /** The row-major position minimaxMove picks for O: win, else block X,
      else the first empty cell; None on a full board. */
  function HeuristicIndex(g: Grid): (choice: Option<nat>)
    ensures choice.Some? ==> choice.value < Size && g[choice.value] == Empty
    ensures choice.None? <==> Full(g)
    ensures CanComplete(g, O) ==>
      choice.Some? && Completes(g, choice.value, O) &&
      forall j :: 0 <= j < choice.value ==> !Completes(g, j, O)
    ensures !CanComplete(g, O) && CanComplete(g, X) ==>
      choice.Some? && Completes(g, choice.value, X) &&
      forall j :: 0 <= j < choice.value ==> !Completes(g, j, X)
    ensures !CanComplete(g, O) && !CanComplete(g, X) && choice.Some? ==>
      forall j :: 0 <= j < choice.value ==> g[j] != Empty
  {
    match FirstCompletingFrom(g, O, 0)
    case Some(k) => Some(k)
    case None =>
      match FirstCompletingFrom(g, X, 0)
      case Some(k) => Some(k)
      case None => FirstEmpty(g)
  }

  /** The pair minimaxMove returns: the chosen (row, col), or (-1, -1). */
  function HeuristicMove(g: Grid): (cell: (int, int))
    ensures cell == (-1, -1) <==> Full(g)
    ensures !Full(g) ==> Playable(g, cell.0, cell.1) &&
                         HeuristicIndex(g) == Some(Index(cell.0, cell.1))
  {
    match HeuristicIndex(g)
    case Some(k) => (k / Side, k % Side)
    case None => (-1, -1)
  }

  /** One turn of the computer: write O at the chosen cell, then conclude. */
  function ComputerTurn(g: Grid): (res: (Grid, Mark, Status))
    requires !Full(g)
    ensures var k := HeuristicIndex(g).value;
      g[k] == Empty && res.0 == g[k := O] && res.2 == Settle(res.0, O)
    ensures res.2 == Continues ==> res.1 == X
    ensures res.2 != Continues ==> res.1 == O
  {
    Conclude(g[HeuristicIndex(g).value := O], O)
  }

  /** From a board where nobody has a line, a computer turn that does not
      end in a win for O leaves X without a line as well. */
  lemma ComputerTurnNobodyElseWins(g: Grid)
    requires !Full(g)
    requires !HasLine(g, X) && !HasLine(g, O)
    ensures var res := ComputerTurn(g);
      res.2 != Won ==> !HasLine(res.0, X) && !HasLine(res.0, O)
  {
    MoveWinsOnlyForMover(g, HeuristicIndex(g).value, O, X);
  }

  class Game {
    var board: Board
    /** The mark of the player to move: "X" is the human, "O" the computer. */
    var turn: Mark

    predicate Valid()
      reads this
    {
      board.Valid() && (turn == X || turn == O)
    }

    /** The row-major snapshot of board.play_area. */
    function Cells(): Grid
      requires Valid()
      reads this, board.playArea
    {
      board.Cells()
    }

    /** Game.__init__: a new empty board and X to move. */
    constructor ()
      ensures Valid() && fresh(board) && fresh(board.playArea)
      ensures Cells() == EmptyGrid && turn == X
    {
      board := new Board();
      turn := X;
    }

    method SwitchPlayer()
      requires Valid()
      modifies this`turn
      ensures Valid() && turn == Other(old(turn))
    {
      turn := if turn == X then O else X;
    }

    function ValidateEntry(row: int, col: int): (ok: bool)
      requires Valid()
      reads this, board.playArea
      ensures ok <==> Playable(Cells(), row, col)
    {
      if row < 0 || row >= Side then false
      else if col < 0 || col >= Side then false
      else if board.playArea[row, col] != Empty then false
      else true
    }

    function CheckFull(): (full: bool)
      requires Valid()
      reads this, board.playArea
      ensures full <==> Full(Cells())
    {
      Rules.CheckFull(Cells())
    }

    function CheckWin(mark: Mark): (won: bool)
      requires Valid()
      reads this, board.playArea
      ensures won <==> HasLine(Cells(), mark)
    {
      Rules.CheckWin(Cells(), mark)
    }

    /** minimaxMove: the three row-major scans of the source, one after the
        other, each returning as soon as it finds its cell. A winning trial O
        is returned without being undone; every other trial is undone. */
    method MinimaxMove() returns (r: int, c: int)
      requires Valid()
      modifies board.playArea
      ensures Valid()
      ensures (r, c) == HeuristicMove(old(Cells()))
      ensures Cells() == if FirstCompletingFrom(old(Cells()), O, 0).Some?
                         then old(Cells())[Index(r, c) := O] else old(Cells())
    {
      var found;
      found, r, c := TryToWin();
      if found {
        return;
      }
      found, r, c := TryToBlock();
      if found {
        return;
      }
      r, c := FirstEmptyCell();
    }

    /** "Try to win": a trial O in each empty cell in row-major order; the
        first one that wins is left on the board and returned. */
    method TryToWin() returns (found: bool, r: int, c: int)
      requires Valid()
      modifies board.playArea
      ensures Valid()
      ensures found <==> FirstCompletingFrom(old(Cells()), O, 0).Some?
      ensures found ==> InBounds(r, c) &&
                        FirstCompletingFrom(old(Cells()), O, 0) == Some(Index(r, c)) &&
                        Cells() == old(Cells())[Index(r, c) := O]
      ensures !found ==> Cells() == old(Cells())
    {
      ghost var g := Cells();
      for row := 0 to Side
        invariant Valid() && Cells() == g
        invariant forall j :: 0 <= j < row * Side ==> !Completes(g, j, O)
      {
        for col := 0 to Side
          invariant Valid() && Cells() == g
          invariant forall j :: 0 <= j < row * Side + col ==> !Completes(g, j, O)
        {
          if board.playArea[row, col] == Empty {
            board.Put(row, col, O);
            UndoTrial(g, Index(row, col), O);
            if CheckWin(O) {
              FirstCompletingIs(g, O, Index(row, col));
              return true, row, col;
            }
            board.Put(row, col, Empty);
          }
        }
      }
      return false, -1, -1;
    }

    /** "Block X if about to win": a trial X in each empty cell in row-major
        order, always undone; the first one that would let X win is returned. */
    method TryToBlock() returns (found: bool, r: int, c: int)
      requires Valid()
      modifies board.playArea
      ensures Valid() && Cells() == old(Cells())
      ensures found <==> FirstCompletingFrom(old(Cells()), X, 0).Some?
      ensures found ==> InBounds(r, c) &&
                        FirstCompletingFrom(old(Cells()), X, 0) == Some(Index(r, c))
    {
      ghost var g := Cells();
      for row := 0 to Side
        invariant Valid() && Cells() == g
        invariant forall j :: 0 <= j < row * Side ==> !Completes(g, j, X)
      {
        for col := 0 to Side
          invariant Valid() && Cells() == g
          invariant forall j :: 0 <= j < row * Side + col ==> !Completes(g, j, X)
        {
          if board.playArea[row, col] == Empty {
            board.Put(row, col, X);
            UndoTrial(g, Index(row, col), X);
            if CheckWin(X) {
              FirstCompletingIs(g, X, Index(row, col));
              board.Put(row, col, Empty);
              return true, row, col;
            }
            board.Put(row, col, Empty);
          }
        }
      }
      return false, -1, -1;
    }

    /** "Otherwise, pick first empty cell", and (-1, -1) on a full board. */
    method FirstEmptyCell() returns (r: int, c: int)
      requires Valid()
      ensures FirstEmpty(Cells()).Some? ==>
        InBounds(r, c) && FirstEmpty(Cells()) == Some(Index(r, c))
      ensures FirstEmpty(Cells()).None? ==> r == -1 && c == -1
    {
      ghost var g := Cells();
      for row := 0 to Side
        invariant forall j :: 0 <= j < row * Side ==> g[j] != Empty
      {
        for col := 0 to Side
          invariant forall j :: 0 <= j < row * Side + col ==> g[j] != Empty
        {
          if board.playArea[row, col] == Empty {
            FirstEmptyIs(g, Index(row, col));
            return row, col;
          }
        }
      }
      assert Full(g);
      return -1, -1;
    }

    /** One pass of the playGame loop. On X's turn the parsed entry is
        validated and X is written; on O's turn minimaxMove decides and O is
        written. Then a win, then a full board, stops the game; otherwise the
        player switches. The loop never reaches O's turn with a full board. */
    method Step(entry: Entry) returns (status: Status)
      requires Valid()
      requires turn != X ==> !Full(Cells())
      modifies this`turn, board.playArea
      ensures Valid()
      ensures old(turn) == X ==> (Cells(), turn, status) == TakeTurn(old(Cells()), X, entry)
      ensures old(turn) != X ==> (Cells(), turn, status) == ComputerTurn(old(Cells()))
    {
      if turn == X {
        match entry
        case Unparseable =>
          return Rejected;
        case Pair(row, col) =>
          if !ValidateEntry(row, col) {
            return Rejected;
          }
          board.Put(row, col, X);
      } else {
        ghost var g := Cells();
        var r, c := MinimaxMove();
        assert Index(r, c) == HeuristicIndex(g).value;
        board.Put(r, c, O);
        assert Cells() == g[HeuristicIndex(g).value := O];
      }
      ghost var h, t := Cells(), turn;
      if CheckWin(turn) {
        status := Won;
      } else if CheckFull() {
        status := Drawn;
      } else {
        SwitchPlayer();
        status := Continues;
      }
      assert (Cells(), turn, status) == Conclude(h, t);
    }

    /** The "play again" branch: self.__init__() gives a new empty board and
        X to move. */
    method Restart()
      modifies this
      ensures Valid() && fresh(board) && fresh(board.playArea)
      ensures Cells() == EmptyGrid && turn == X
    {
      board := new Board();
      turn := X;
    }
  }
}
