/** RB_Project2_PartC.py: a human plays X against a computer O that asks a
    trained classifier for its move. The classifier is the function `model`,
    taken as given. */
module PartC {
  import opened Rules
  import opened Boards

  /** The number aiMove puts in the feature vector for a cell: 1 for "X",
      -1 for "O", 0 otherwise. */
  function Feature(m: Mark): (v: int)
    ensures -1 <= v <= 1
    ensures MarkOf(v) == Some(m)
  {
    match m
    case X => 1
    case O => -1
    case Empty => 0
  }

  /** flat_board: one feature per cell, in row-major order. */
  function Encode(g: Grid): (v: seq<int>)
    ensures |v| == Size
    ensures forall row, col :: InBounds(row, col) ==> v[Index(row, col)] == Feature(At(g, row, col))
  {
    seq(Size, k requires 0 <= k < Size => Feature(g[k]))
  }

  /** The mark a feature stands for, if any. */
  function MarkOf(x: int): Option<Mark> {
    if x == 1 then Some(X)
    else if x == -1 then Some(O)
    else if x == 0 then Some(Empty)
    else None
  }

  /** Reads a feature vector back as a board: the inverse of Encode. */
  function Decode(v: seq<int>): (g: Option<Grid>)
    ensures g.Some? <==> |v| == Size && forall k :: 0 <= k < |v| ==> MarkOf(v[k]).Some?
    ensures g.Some? ==> forall k :: 0 <= k < Size ==> Feature(g.value[k]) == v[k]
  {
    if |v| == Size && forall k :: 0 <= k < |v| ==> MarkOf(v[k]).Some? then
      Some(seq(Size, k requires 0 <= k < Size => MarkOf(v[k]).value))
    else None
  }

  /** The feature vector determines the board: decoding it gives the board back. */
  lemma DecodeEncode(g: Grid)
    ensures Decode(Encode(g)) == Some(g)
  {
    var v := Encode(g);
    forall k | 0 <= k < Size
      ensures MarkOf(v[k]) == Some(g[k])
    {
      CellOfIndex(k);
      assert v[k] == Feature(g[k]);
    }
    assert Decode(v).value == g;
  }

  /** divmod(best_move_index, 3): the cell named by a predicted index. */
  function DecodeIndex(i: int): (cell: (int, int))
    requires 0 <= i < Size
    ensures InBounds(cell.0, cell.1) && Index(cell.0, cell.1) == i
  {
    (i / Side, i % Side)
  }

  /** Decoding a cell's own row-major index gives that cell. */
  lemma DecodeIndexOfIndex(row: int, col: int)
    requires InBounds(row, col)
    ensures DecodeIndex(Index(row, col)) == (row, col)
  {
  }

  /** The position aiMove writes O into for the predicted index p: p itself
      when that cell is empty, else the first empty cell in row-major order,
      and none on a full board. */
  function AiTarget(g: Grid, p: int): (t: Option<nat>)
    requires 0 <= p < Size
    ensures g[p] == Empty ==> t == Some(p)
    ensures t.Some? ==> t.value < Size && g[t.value] == Empty
    ensures t.None? <==> Full(g)
    ensures g[p] != Empty && t.Some? ==> forall j :: 0 <= j < t.value ==> g[j] != Empty
  {
    if g[p] == Empty then Some(p) else FirstEmpty(g)
  }

  /** The board after aiMove with prediction p. */
  function AiBoard(g: Grid, p: int): (h: Grid)
    requires 0 <= p < Size
    ensures g[p] == Empty ==> h == g[p := O]
    ensures g[p] != Empty && !Full(g) ==> h == g[FirstEmpty(g).value := O]
    ensures Full(g) ==> h == g
  {
    match AiTarget(g, p)
    case Some(k) => g[k := O]
    case None => g
  }

  /** aiMove changes exactly one empty cell to O, or nothing on a full board. */
  lemma AiBoardChangesOneCell(g: Grid, p: int)
    requires 0 <= p < Size
    ensures Full(g) ==> AiBoard(g, p) == g
    ensures !Full(g) ==>
      exists k :: 0 <= k < Size && g[k] == Empty && AiBoard(g, p)[k] == O &&
                  forall j :: 0 <= j < Size && j != k ==> AiBoard(g, p)[j] == g[j]
  {
    if !Full(g) {
      var k := AiTarget(g, p).value;
      assert AiBoard(g, p)[k] == O;
    }
  }

  /** One turn of the computer with prediction p: aiMove, then conclude for O. */
  function AiTurn(g: Grid, p: int): (res: (Grid, Mark, Status))
    requires 0 <= p < Size
    ensures res.0 == AiBoard(g, p) && res.2 == Settle(res.0, O)
    ensures res.1 == if res.2 == Continues then X else O
  {
    Conclude(AiBoard(g, p), O)
  }

  /** From a board where nobody has a line, a computer turn that does not
      end in a win for O leaves X without a line as well. */
  lemma AiTurnNobodyElseWins(g: Grid, p: int)
    requires 0 <= p < Size
    requires !HasLine(g, X) && !HasLine(g, O)
    ensures var res := AiTurn(g, p);
      res.2 != Won ==> !HasLine(res.0, X) && !HasLine(res.0, O)
  {
    if !Full(g) {
      MoveWinsOnlyForMover(g, AiTarget(g, p).value, O, X);
    }
  }

  class Game {
    var board: Board
    /** The mark of the player to move: "X" is the human, "O" the computer. */
    var turn: Mark
    /** The trained predictor: a feature vector to a cell index. */
    const model: seq<int> -> int

    predicate Valid()
      reads this
    {
      board.Valid() && (turn == X || turn == O)
    }

    /** The row-major snapshot of board.play_area. */
    function Cells(): Grid
      requires Valid()
      reads this, board.playArea
    {
      board.Cells()
    }

    /** Game.__init__(model): a new empty board, X to move, and the model. */
    constructor (model: seq<int> -> int)
      ensures Valid() && fresh(board) && fresh(board.playArea)
      ensures Cells() == EmptyGrid && turn == X && this.model == model
    {
      board := new Board();
      turn := X;
      this.model := model;
    }

    method SwitchPlayer()
      requires Valid()
      modifies this`turn
      ensures Valid() && turn == Other(old(turn))
    {
      turn := if turn == X then O else X;
    }

    function ValidateEntry(row: int, col: int): (ok: bool)
      requires Valid()
      reads this, board.playArea
      ensures ok <==> Playable(Cells(), row, col)
    {
      if 0 <= row < Side && 0 <= col < Side then
        if board.playArea[row, col] == Empty then true else false
      else false
    }

    function CheckFull(): (full: bool)
      requires Valid()
      reads this, board.playArea
      ensures full <==> Full(Cells())
    {
      Rules.CheckFull(Cells())
    }

    function CheckWin(mark: Mark): (won: bool)
      requires Valid()
      reads this, board.playArea
      ensures won <==> HasLine(Cells(), mark)
    {
      Rules.CheckWin(Cells(), mark)
    }

    /** aiMove: build flat_board, ask the model, decode its index with divmod,
        and write O there, or into the first empty cell if it is occupied.
        The model is trusted to answer an index in range(9). */
    method AiMove()
      requires Valid()
      requires 0 <= model(Encode(Cells())) < Size
      modifies board.playArea
      ensures Valid()
      ensures Cells() == AiBoard(old(Cells()), model(Encode(old(Cells()))))
    {
      ghost var g := Cells();
      var flatBoard: seq<int> := [];
      for r := 0 to 3
        invariant flatBoard == Encode(g)[..r * Side]
      {
        for c := 0 to 3
          invariant flatBoard == Encode(g)[..r * Side + c]
        {
          assert Encode(g)[..Index(r, c) + 1] == Encode(g)[..Index(r, c)] + [Feature(At(g, r, c))];
          if board.playArea[r, c] == X {
            flatBoard := flatBoard + [1];
          } else if board.playArea[r, c] == O {
            flatBoard := flatBoard + [-1];
          } else {
            flatBoard := flatBoard + [0];
          }
        }
      }
      assert flatBoard == Encode(g);
      var bestMoveIndex := model(flatBoard);
      var cell := DecodeIndex(bestMoveIndex);
      var row, col := cell.0, cell.1;
      if board.playArea[row, col] == Empty {
        board.Put(row, col, O);
      } else {
        for r := 0 to 3
          invariant Cells() == g
          invariant forall j :: 0 <= j < r * Side ==> g[j] != Empty
        {
          for c := 0 to 3
            invariant Cells() == g
            invariant forall j :: 0 <= j < r * Side + c ==> g[j] != Empty
          {
            if board.playArea[r, c] == Empty {
              board.Put(r, c, O);
              return;
            }
          }
        }
      }
    }

    /** One pass of the playGame loop. On X's turn the parsed entry is
        validated and X is written; on O's turn aiMove plays. Then a win,
        then a full board, stops the game; otherwise the player switches. */
    method Step(entry: Entry) returns (status: Status)
      requires Valid()
      requires turn != X ==> 0 <= model(Encode(Cells())) < Size
      modifies this`turn, board.playArea
      ensures Valid()
      ensures old(turn) == X ==> (Cells(), turn, status) == TakeTurn(old(Cells()), X, entry)
      ensures old(turn) != X ==>
        (Cells(), turn, status) == AiTurn(old(Cells()), model(Encode(old(Cells()))))
    {
      if turn == X {
        match entry
        case Unparseable =>
          return Rejected;
        case Pair(row, col) =>
          if !ValidateEntry(row, col) {
            return Rejected;
          }
          board.Put(row, col, X);
      } else {
        AiMove();
      }
      if CheckWin(turn) {
        status := Won;
      } else if CheckFull() {
        status := Drawn;
      } else {
        SwitchPlayer();
        status := Continues;
      }
    }

    /** The "another game" branch: self.__init__(self.model) gives a new
        empty board and X to move; the model, a constant field, is kept. */
    method Restart()
      modifies this
      ensures Valid() && fresh(board) && fresh(board.playArea)
      ensures Cells() == EmptyGrid && turn == X
    {
      board := new Board();
      turn := X;
    }
  }
}
