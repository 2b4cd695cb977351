/** The value-level rules shared by the three versions of the game: the cell
    marks, a row-major snapshot of the 3x3 board, the legality test, the
    full-board scan, the win scan over rows, columns and both diagonals, and
    what one placement does to the game. */
module Rules {

  /** Board.BOARD_SIDE */
  const Side := 3
  /** The number of cells of the board. */
  const Size := Side * Side

  /** What a cell of play_area holds: the empty symbol " ", "X" or "O". */
  datatype Mark = Empty | X | O

  datatype Option<+T> = None | Some(value: T)

  /** A snapshot of play_area in row-major order: play_area[r][c] is g[Index(r, c)]. */
  type Grid = g: seq<Mark> | |g| == Size witness seq(Size, _ => Empty)

  /** The board a new Board starts with: every cell holds the empty symbol. */
  const EmptyGrid: Grid := seq(Size, _ => Empty)

  predicate InBounds(row: int, col: int) {
    0 <= row < Side && 0 <= col < Side
  }

  /** Row-major position of cell (row, col); divmod by Side takes it back. */
  function Index(row: int, col: int): (k: nat)
    requires InBounds(row, col)
    ensures k < Size
    ensures k / Side == row && k % Side == col
  {
    row * Side + col
  }

  function At(g: Grid, row: int, col: int): Mark
    requires InBounds(row, col)
  {
    g[Index(row, col)]
  }

  /** The cell named by a row-major position. */
  lemma CellOfIndex(k: int)
    requires 0 <= k < Size
    ensures InBounds(k / Side, k % Side) && Index(k / Side, k % Side) == k
  {
  }

  /** switchPlayer: "O" after "X", and "X" after anything else. */
  function Other(m: Mark): (r: Mark)
    ensures r != Empty && r != m
    ensures m == Empty ==> r == X
  {
    if m == X then O else X
  }

  /** Switching twice gives back either player's mark. */
  lemma OtherInvolution(m: Mark)
    requires m == X || m == O
    ensures Other(Other(m)) == m
  {
  }

  // ---------------------------------------------------------------------
  // Declarative meaning of the queries

  /** validateEntry's promise: both indices in range and the cell empty. */
  predicate Playable(g: Grid, row: int, col: int) {
    InBounds(row, col) && At(g, row, col) == Empty
  }

  /** No cell holds the empty symbol. */
  predicate Full(g: Grid) {
    forall k :: 0 <= k < Size ==> g[k] != Empty
  }

  predicate RowOf(g: Grid, m: Mark, r: int)
    requires 0 <= r < Side
  {
    forall c :: 0 <= c < Side ==> At(g, r, c) == m
  }

  predicate ColumnOf(g: Grid, m: Mark, c: int)
    requires 0 <= c < Side
  {
    forall r :: 0 <= r < Side ==> At(g, r, c) == m
  }

  predicate MainDiagonalOf(g: Grid, m: Mark) {
    forall i :: 0 <= i < Side ==> At(g, i, i) == m
  }

  /** The cell of the anti-diagonal in row i: column 2 - i. */
  function AntiAt(g: Grid, i: int): Mark
    requires 0 <= i < Side
  {
    At(g, i, Side - 1 - i)
  }

  predicate AntiDiagonalOf(g: Grid, m: Mark) {
    forall i :: 0 <= i < Side ==> AntiAt(g, i) == m
  }

  /** Some row, column, the main diagonal or the anti-diagonal is uniformly m. */
  predicate HasLine(g: Grid, m: Mark) {
    (exists r :: 0 <= r < Side && RowOf(g, m, r)) ||
    (exists c :: 0 <= c < Side && ColumnOf(g, m, c)) ||
    MainDiagonalOf(g, m) ||
    AntiDiagonalOf(g, m)
  }

  // ---------------------------------------------------------------------
  // checkFull: the row-major scan that stops at the first empty cell

  function FullFrom(g: Grid, k: nat): (full: bool)
    requires k <= Size
    decreases Size - k
    ensures full <==> forall j :: k <= j < Size ==> g[j] != Empty
  {
    if k == Size then true
    else if g[k] == Empty then false
    else FullFrom(g, k + 1)
  }

  function CheckFull(g: Grid): (full: bool)
    ensures full <==> Full(g)
  {
    FullFrom(g, 0)
  }

  // ---------------------------------------------------------------------
  // checkWin(mark): one all(...) per line, rows first, then columns, then
  // the main diagonal, then the anti-diagonal

  /** Whether every cell of row r from column c on holds m. */
  function RowFrom(g: Grid, m: Mark, r: int, c: nat): (all: bool)
    requires 0 <= r < Side && c <= Side
    decreases Side - c
    ensures all <==> forall c' :: c <= c' < Side ==> At(g, r, c') == m
  {
    if c == Side then true
    else if At(g, r, c) != m then false
    else RowFrom(g, m, r, c + 1)
  }

  /** Whether every cell of column c from row r on holds m. */
  function ColumnFrom(g: Grid, m: Mark, c: int, r: nat): (all: bool)
    requires 0 <= c < Side && r <= Side
    decreases Side - r
    ensures all <==> forall r' :: r <= r' < Side ==> At(g, r', c) == m
  {
    if r == Side then true
    else if At(g, r, c) != m then false
    else ColumnFrom(g, m, c, r + 1)
  }

  /** Whether every cell (i', i') of the main diagonal from i on holds m. */
  function MainDiagonalFrom(g: Grid, m: Mark, i: nat): (all: bool)
    requires i <= Side
    decreases Side - i
    ensures all <==> forall i' :: i <= i' < Side ==> At(g, i', i') == m
  {
    if i == Side then true
    else if At(g, i, i) != m then false
    else MainDiagonalFrom(g, m, i + 1)
  }

  /** Whether every cell (i', 2 - i') of the anti-diagonal from i on holds m. */
  function AntiDiagonalFrom(g: Grid, m: Mark, i: nat): (all: bool)
    requires i <= Side
    decreases Side - i
    ensures all <==> forall i' :: i <= i' < Side ==> AntiAt(g, i') == m
  {
    if i == Side then true
    else if AntiAt(g, i) != m then false
    else AntiDiagonalFrom(g, m, i + 1)
  }

  /** The row loop from row r on: true at the first row that is all m. */
  function RowsFrom(g: Grid, m: Mark, r: nat): (found: bool)
    requires r <= Side
    decreases Side - r
    ensures found <==> exists r' :: r <= r' < Side && RowOf(g, m, r')
  {
    if r == Side then false
    else if RowFrom(g, m, r, 0) then assert RowOf(g, m, r); true
    else RowsFrom(g, m, r + 1)
  }

  /** The column loop from column c on: true at the first column that is all m. */
  function ColumnsFrom(g: Grid, m: Mark, c: nat): (found: bool)
    requires c <= Side
    decreases Side - c
    ensures found <==> exists c' :: c <= c' < Side && ColumnOf(g, m, c')
  {
    if c == Side then false
    else if ColumnFrom(g, m, c, 0) then assert ColumnOf(g, m, c); true
    else ColumnsFrom(g, m, c + 1)
  }

  function CheckWin(g: Grid, m: Mark): (won: bool)
    ensures won <==> HasLine(g, m)
  {
    if RowsFrom(g, m, 0) then true
    else if ColumnsFrom(g, m, 0) then true
    else if MainDiagonalFrom(g, m, 0) then true
    else if AntiDiagonalFrom(g, m, 0) then true
    else false
  }

  /** The eight winning lines of a 3x3 board, written out as row-major positions. */
  const WinningLines: seq<seq<int>> :=
    [[0, 1, 2], [3, 4, 5], [6, 7, 8],
     [0, 3, 6], [1, 4, 7], [2, 5, 8],
     [0, 4, 8], [2, 4, 6]]

  predicate LineOf(g: Grid, m: Mark, line: seq<int>)
    requires |line| == 3 && 0 <= line[0] < Size && 0 <= line[1] < Size && 0 <= line[2] < Size
  {
    g[line[0]] == m && g[line[1]] == m && g[line[2]] == m
  }

  /** The indices below Side are 0, 1 and 2. */
  lemma RangeOfThree(i: int)
    requires 0 <= i < Side
    ensures i == 0 || i == 1 || i == 2
  {
  }

  /** Row r is uniformly m iff the r-th listed line is. */
  lemma RowMatchesLine(g: Grid, m: Mark, r: int)
    requires 0 <= r < Side
    ensures RowOf(g, m, r) <==> LineOf(g, m, WinningLines[r])
  {
    RangeOfThree(r);
    assert At(g, r, 0) == g[3 * r] && At(g, r, 1) == g[3 * r + 1] && At(g, r, 2) == g[3 * r + 2];
    if LineOf(g, m, WinningLines[r]) {
      forall c | 0 <= c < Side ensures At(g, r, c) == m { RangeOfThree(c); }
    }
  }

  /** Column c is uniformly m iff the (3 + c)-th listed line is. */
  lemma ColumnMatchesLine(g: Grid, m: Mark, c: int)
    requires 0 <= c < Side
    ensures ColumnOf(g, m, c) <==> LineOf(g, m, WinningLines[Side + c])
  {
    RangeOfThree(c);
    assert At(g, 0, c) == g[c] && At(g, 1, c) == g[3 + c] && At(g, 2, c) == g[6 + c];
    if LineOf(g, m, WinningLines[Side + c]) {
      forall r | 0 <= r < Side ensures At(g, r, c) == m { RangeOfThree(r); }
    }
  }

  /** The two diagonals are the last two listed lines. */
  lemma DiagonalsMatchLines(g: Grid, m: Mark)
    ensures MainDiagonalOf(g, m) <==> LineOf(g, m, WinningLines[6])
    ensures AntiDiagonalOf(g, m) <==> LineOf(g, m, WinningLines[7])
  {
    assert At(g, 0, 0) == g[0] && At(g, 1, 1) == g[4] && At(g, 2, 2) == g[8];
    if LineOf(g, m, WinningLines[6]) {
      forall i | 0 <= i < Side ensures At(g, i, i) == m { RangeOfThree(i); }
    }
    assert AntiAt(g, 0) == g[2] && AntiAt(g, 1) == g[4] && AntiAt(g, 2) == g[6];
    if LineOf(g, m, WinningLines[7]) {
      forall i | 0 <= i < Side ensures AntiAt(g, i) == m { RangeOfThree(i); }
    }
  }

  /** The win scan agrees with the list of the eight lines. */
  lemma CheckWinMatchesWinningLines(g: Grid, m: Mark)
    ensures CheckWin(g, m) <==>
      exists n :: 0 <= n < |WinningLines| && LineOf(g, m, WinningLines[n])
  {
    DiagonalsMatchLines(g, m);
    if exists n :: 0 <= n < |WinningLines| && LineOf(g, m, WinningLines[n]) {
      var n :| 0 <= n < |WinningLines| && LineOf(g, m, WinningLines[n]);
      if n < Side {
        RowMatchesLine(g, m, n);
      } else if n < 2 * Side {
        ColumnMatchesLine(g, m, n - Side);
      }
    }
    if exists r :: 0 <= r < Side && RowOf(g, m, r) {
      var r :| 0 <= r < Side && RowOf(g, m, r);
      RowMatchesLine(g, m, r);
    } else if exists c :: 0 <= c < Side && ColumnOf(g, m, c) {
      var c :| 0 <= c < Side && ColumnOf(g, m, c);
      ColumnMatchesLine(g, m, c);
    }
  }

  /** A fresh board has no line of any player's mark. */
  lemma EmptyGridHasNoLine(m: Mark)
    requires m != Empty
    ensures !CheckWin(EmptyGrid, m) && !CheckFull(EmptyGrid)
  {
    assert At(EmptyGrid, 0, 0) == Empty;
    assert EmptyGrid[0] == Empty;
  }

  /** Writing t into an empty cell cannot give a line to any other player. */
  lemma MoveWinsOnlyForMover(g: Grid, k: nat, t: Mark, p: Mark)
    requires k < Size && g[k] == Empty && p != t && p != Empty
    requires !CheckWin(g, p)
    ensures !CheckWin(g[k := t], p)
  {
    var h := g[k := t];
    assert forall r, c :: InBounds(r, c) && At(h, r, c) == p ==> At(g, r, c) == p;
    if exists r :: 0 <= r < Side && RowOf(h, p, r) {
      var r :| 0 <= r < Side && RowOf(h, p, r);
      assert RowOf(g, p, r);
    }
    if exists c :: 0 <= c < Side && ColumnOf(h, p, c) {
      var c :| 0 <= c < Side && ColumnOf(h, p, c);
      assert ColumnOf(g, p, c);
    }
  }

  // ---------------------------------------------------------------------
  // One turn of the game loop

  /** What the loop does after an input: retry, stop on a win, stop on a
      draw, or go on with the other player. */
  datatype Status = Rejected | Won | Drawn | Continues

  /** The text typed by a human, once parsed: a (row, col) pair or
      something that split/int could not read. */
  datatype Entry = Unparseable | Pair(row: int, col: int)

  /** The checks after a placement by t: checkWin first, then checkFull. */
  function Settle(g: Grid, t: Mark): (s: Status)
    ensures s != Rejected
    ensures s == Won <==> HasLine(g, t)
    ensures s == Drawn <==> !HasLine(g, t) && Full(g)
    ensures s == Continues <==> !HasLine(g, t) && !Full(g)
  {
    if CheckWin(g, t) then Won
    else if CheckFull(g) then Drawn
    else Continues
  }

  /** The board, turn and status after t has placed a mark and the board is g:
      the turn switches only when the game goes on. */
  function Conclude(g: Grid, t: Mark): (res: (Grid, Mark, Status))
    ensures res.0 == g && res.2 != Rejected
    ensures res.2 == Won ==> HasLine(g, t) && res.1 == t
    ensures res.2 == Drawn ==> Full(g) && !HasLine(g, t) && res.1 == t
    ensures res.2 == Continues ==> !Full(g) && !HasLine(g, t) && res.1 == Other(t)
  {
    var s := Settle(g, t);
    (g, if s == Continues then Other(t) else t, s)
  }

  /** One human turn: reject an unreadable or invalid entry without changing
      anything; otherwise write t at (row, col) and conclude. */
  function TakeTurn(g: Grid, t: Mark, e: Entry): (res: (Grid, Mark, Status))
    ensures res.2 == Rejected <==> !(e.Pair? && Playable(g, e.row, e.col))
    ensures res.2 == Rejected ==> res.0 == g && res.1 == t
    ensures res.2 != Rejected ==>
      InBounds(e.row, e.col) && g[Index(e.row, e.col)] == Empty &&
      res.0[Index(e.row, e.col)] == t &&
      (forall k :: 0 <= k < Size && k != Index(e.row, e.col) ==> res.0[k] == g[k])
    ensures res.2 == Won ==> HasLine(res.0, t) && res.1 == t
    ensures res.2 == Drawn ==> Full(res.0) && !HasLine(res.0, t) && res.1 == t
    ensures res.2 == Continues ==> !Full(res.0) && !HasLine(res.0, t) && res.1 == Other(t)
  {
    match e
    case Unparseable => (g, t, Rejected)
    case Pair(row, col) =>
      if !Playable(g, row, col) then (g, t, Rejected)
      else Conclude(g[Index(row, col) := t], t)
  }

  /** From a board where nobody has a line, a human turn that does not end in
      a win leaves nobody with a line: a draw is a draw for both players. */
  lemma TakeTurnNobodyElseWins(g: Grid, t: Mark, e: Entry)
    requires t == X || t == O
    requires !HasLine(g, X) && !HasLine(g, O)
    ensures var res := TakeTurn(g, t, e);
      res.2 != Won ==> !HasLine(res.0, X) && !HasLine(res.0, O)
  {
    if e.Pair? && Playable(g, e.row, e.col) {
      var k := Index(e.row, e.col);
      MoveWinsOnlyForMover(g, k, t, Other(t));
      assert TakeTurn(g, t, e).0 == g[k := t];
    }
  }

  /** On a full board every entry is rejected: the loop cannot go on past a draw. */
  lemma FullRejectsEveryEntry(g: Grid, t: Mark, e: Entry)
    requires Full(g)
    ensures TakeTurn(g, t, e) == (g, t, Rejected)
  {
    if e.Pair? && InBounds(e.row, e.col) {
      assert g[Index(e.row, e.col)] != Empty;
    }
  }

  // ---------------------------------------------------------------------
  // The first empty cell in row-major order

  function FirstEmptyFrom(g: Grid, k: nat): (r: Option<nat>)
    requires k <= Size
    decreases Size - k
    ensures r.Some? ==> k <= r.value < Size && g[r.value] == Empty &&
                        forall j :: k <= j < r.value ==> g[j] != Empty
    ensures r.None? <==> forall j :: k <= j < Size ==> g[j] != Empty
  {
    if k == Size then None
    else if g[k] == Empty then Some(k)
    else FirstEmptyFrom(g, k + 1)
  }

  /** The scan finds k when k is empty and no earlier cell is. */
  lemma FirstEmptyIs(g: Grid, k: nat)
    requires k < Size && g[k] == Empty
    requires forall j :: 0 <= j < k ==> g[j] != Empty
    ensures FirstEmpty(g) == Some(k)
  {
    var r := FirstEmpty(g);
    assert r.Some?;
    assert !(r.value < k) && !(k < r.value);
  }

  function FirstEmpty(g: Grid): (r: Option<nat>)
    ensures r.None? <==> Full(g)
    ensures r.Some? ==> r.value < Size && g[r.value] == Empty &&
                        forall j :: 0 <= j < r.value ==> g[j] != Empty
  {
    FirstEmptyFrom(g, 0)
  }
}
