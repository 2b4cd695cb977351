# Tic-tac-toe engine: board, win detection, turn loop and computer opponents

This project models the game logic of a 3×3 tic-tac-toe program that comes in three versions:

- `RB_Project2_PartA.py`: two humans play each other.
- `RB_Project2_PartB.py`: a human (X) plays a rule-based computer (O).
- `RB_Project2_PartC.py`: a human (X) plays a computer (O) that asks a trained classifier for its move.

Each version has a `Board` whose `play_area` is a 3×3 nested list of `" "`, `"X"` or `"O"`. Each also has a `Game` that holds the board and the mark of the player to move (`turn`).

The Dafny modules follow that structure:

- `Rules` (`rules.dfy`) holds what the three versions share, on values:
  - the marks (`Empty` stands for the empty symbol `" "`);
  - a row-major snapshot `Grid` of the board, where cell (r, c) is at position `3r + c`;
  - the `checkFull` and `checkWin(mark)` scans, written in the order the source runs them: rows, then columns, then the main diagonal, then the anti-diagonal. `all(...)` stops at the first mismatch and each loop returns at the first hit;
  - what one placement does to the game: `checkWin`, then `checkFull`, then `switchPlayer` (`Settle`, `TakeTurn`);
  - the first empty cell in row-major order.
- `Boards` (`boards.dfy`) is the live board: a class over an `array2<Mark>` written in place, with its row-major snapshot `Cells()`.
- `PartA`, `PartB` and `PartC` each hold one `Game` class with that file's own methods. The read-only queries are functions. The methods that change `turn` or the board are methods with `modifies` clauses.
  - Part B's `minimaxMove` works on the live array with trial marks and undo, as the source does. It is proved against the pure function `HeuristicIndex` (win first, then block, then the first empty cell).
  - Part C's `aiMove` builds the feature vector in a loop, calls the predictor, decodes the index with divmod, and falls back to the first empty cell. It is proved against `Encode`, `DecodeIndex` and `AiTarget`.

One pass of a `playGame` loop is the method `Step(entry)`. A human's text is taken as already parsed: `Entry` is either `Pair(row, col)` or `Unparseable`. `Step` returns `Rejected` when the loop would `continue` (re-prompt, nothing changed), `Won` or `Drawn` when it would `break`, and `Continues` when it switches the player. `Restart` is the effect of `self.__init__()` in the "play again" branch.

Some behaviour of the code worth knowing:

- The heuristic opponent writes its trial marks on the live board. After a winning trial it returns without undoing it, and the game loop then writes the same O again.
- It always plays O, and it tries O's wins before X's.
- Restart re-runs `__init__` on the same `Game` object. The object gets a fresh `Board`, and in Part C it keeps the same model.
- After each placement the loop tests only the player who just moved. The model proves this is enough: from a board where nobody has a line, a turn that does not end in a win leaves nobody with a line, so "DRAW! NOBODY WINS!" is true when it is printed.

## Model

| member | source | states |
|---|---|---|
| `Rules.Other` | RB_Project2_PartA.py:39-42 | the new turn is never the empty mark and never the old turn; after anything other than X it is X |
| `Rules.OtherInvolution` | RB_Project2_PartA.py:39-42 | switching the player twice gives back X or O |
| `Rules.FullFrom` | RB_Project2_PartB.py:50-54 | the scan from row-major position k says "full" iff no cell from k on is empty |
| `Rules.CheckFull` | RB_Project2_PartB.py:48-54 | true iff no cell of the board holds the empty symbol |
| `Rules.RowFrom` | RB_Project2_PartB.py:61 | `all(b[r][c] == mark ...)` from column c on is true iff every such cell of row r is mark |
| `Rules.ColumnFrom` | RB_Project2_PartB.py:64 | the column `all(...)` from row r on is true iff every such cell of column c is mark |
| `Rules.MainDiagonalFrom` | RB_Project2_PartB.py:66 | the main-diagonal `all(...)` from i on is true iff every cell (i', i') from i on is mark |
| `Rules.AntiDiagonalFrom` | RB_Project2_PartB.py:68 | the anti-diagonal `all(...)` from i on is true iff every cell (i', SIDE-1-i') from i on is mark |
| `Rules.RowsFrom` | RB_Project2_PartB.py:60-62 | the row loop from r on returns True iff some row from r on is uniformly mark |
| `Rules.ColumnsFrom` | RB_Project2_PartB.py:63-65 | the column loop from c on returns True iff some column from c on is uniformly mark |
| `Rules.CheckWin` | RB_Project2_PartB.py:56-70 | true iff some row, some column, the main diagonal or the anti-diagonal is uniformly mark |
| `Rules.CheckWinMatchesWinningLines` | RB_Project2_PartB.py:56-70 | the win scan agrees with the explicit list of the eight 3×3 lines (3 rows, 3 columns, 2 diagonals) |
| `Rules.EmptyGridHasNoLine` | RB_Project2_PartA.py:6-10 | a fresh board is not full, and no player's mark wins on it |
| `Rules.MoveWinsOnlyForMover` | RB_Project2_PartA.py:121-127 | writing t into an empty cell never gives another player a line they did not have before |
| `Rules.Settle` | RB_Project2_PartA.py:125-133 | after a placement by t: Won iff t has a line; Drawn iff t has no line and the board is full; Continues iff neither holds |
| `Rules.Conclude` | RB_Project2_PartA.py:125-133 | the board is kept; a win stops the game with t's line; a draw stops it on a full board with no line for t; otherwise the board is not full, t has no line and the turn passes to the other player |
| `Rules.TakeTurn` | RB_Project2_PartA.py:116-133 | rejected iff the entry is unparseable or fails the legality test, and then board and turn are unchanged; otherwise only cell (row, col) changes and it becomes t; the turn switches exactly when the game goes on |
| `Rules.TakeTurnNobodyElseWins` | RB_Project2_PartA.py:121-133 | from a board where nobody has a line, a human turn that does not end in a win leaves neither X nor O with a line |
| `Rules.FullRejectsEveryEntry` | RB_Project2_PartA.py:116-118 | on a full board every entry is rejected, with board and turn unchanged |
| `Rules.FirstEmptyFrom` | RB_Project2_PartB.py:95-98 | returns the first empty position from k on in row-major order, or none iff there is none |
| `Rules.FirstEmpty` | RB_Project2_PartB.py:95-99 | the first empty cell in row-major order, or none iff the board is full |
| `Boards.Board.constructor` | RB_Project2_PartA.py:6-10 | a new board has every cell equal to the empty symbol |
| `Boards.Board.Cells` | RB_Project2_PartA.py:9-10 | the snapshot holds play_area[r][c] at row-major position 3r+c |
| `Boards.Board.Put` | RB_Project2_PartA.py:121 | `play_area[row][col] = m` changes only that cell, to m |
| `PartA.Game.constructor` | RB_Project2_PartA.py:34-37 | a new game has a fresh empty board and X to move |
| `PartA.Game.SwitchPlayer` | RB_Project2_PartA.py:39-42 | turn becomes Other(turn), nothing else changes |
| `PartA.Game.ValidateEntry` | RB_Project2_PartA.py:44-53 | true iff 0 ≤ row < 3, 0 ≤ col < 3 and that cell is empty; it only reads the board |
| `PartA.Game.CheckFull` | RB_Project2_PartA.py:55-62 | true iff no cell of play_area holds the empty symbol |
| `PartA.Game.CheckWin` | RB_Project2_PartA.py:64-88 | true iff some row, column or diagonal is uniformly the current turn's mark |
| `PartA.Game.CheckEnd` | RB_Project2_PartA.py:90-97 | true iff the player to move has a line or the board is full |
| `PartA.Game.Step` | RB_Project2_PartA.py:116-133 | the new board, turn and status are those of TakeTurn for the old board and turn |
| `PartA.Game.Restart` | RB_Project2_PartA.py:135-137 | whatever came before, the game has a fresh empty board and X to move |
| `PartB.FirstCompletingFrom` | RB_Project2_PartB.py:76-82 | returns the first empty position from k on whose trial mark wins for that mark, or none iff there is none |
| `PartB.FirstCompletingIs` | RB_Project2_PartB.py:76-82 | if cell k completes a line and no earlier cell does, the scan returns k |
| `PartB.UndoTrial` | RB_Project2_PartB.py:82 | writing a trial mark into an empty cell and then the empty symbol gives back the board |
| `PartB.HeuristicIndex` | RB_Project2_PartB.py:73-99 | chosen cell is empty; none iff the board is full; if O can win, the first winning cell; else if X can win, the first cell that blocks X; else the first empty cell (all in row-major order) |
| `PartB.HeuristicMove` | RB_Project2_PartB.py:73-99 | (-1, -1) iff the board is full; otherwise an in-range empty cell, the one HeuristicIndex picks |
| `PartB.ComputerTurn` | RB_Project2_PartB.py:124-138 | O is written at the chosen (empty) cell, then win, then full is checked for O; the turn becomes X only when the game goes on |
| `PartB.ComputerTurnNobodyElseWins` | RB_Project2_PartB.py:124-138 | from a board where nobody has a line, a heuristic turn for O that does not end in a win leaves neither X nor O with a line |
| `PartB.Game.constructor` | RB_Project2_PartB.py:29-32 | a new game has a fresh empty board and X to move |
| `PartB.Game.SwitchPlayer` | RB_Project2_PartB.py:34-36 | turn becomes Other(turn), nothing else changes |
| `PartB.Game.ValidateEntry` | RB_Project2_PartB.py:38-46 | true iff both indices are in [0, 3) and that cell is empty; it only reads the board |
| `PartB.Game.CheckFull` | RB_Project2_PartB.py:48-54 | true iff no cell is empty |
| `PartB.Game.CheckWin` | RB_Project2_PartB.py:56-70 | true iff one of the lines is uniformly mark |
| `PartB.Game.MinimaxMove` | RB_Project2_PartB.py:73-99 | returns HeuristicMove of the board at the call; in the win case the board afterwards differs only at that cell, which holds O; in every other case the board is unchanged |
| `PartB.Game.TryToWin` | RB_Project2_PartB.py:75-82 | finds a cell iff O can win in one move; the cell found is the first such one and is left holding O; if none is found, every trial was undone |
| `PartB.Game.TryToBlock` | RB_Project2_PartB.py:84-92 | finds a cell iff X could win in one move; the cell found is the first such one; the board is unchanged on return |
| `PartB.Game.FirstEmptyCell` | RB_Project2_PartB.py:94-99 | returns the first empty cell in row-major order, or (-1, -1) iff none is empty |
| `PartB.Game.Step` | RB_Project2_PartB.py:107-138 | on X's turn, the result is TakeTurn with X; on O's turn (board not full), the result is ComputerTurn |
| `PartB.Game.Restart` | RB_Project2_PartB.py:140-142 | the game has a fresh empty board and X to move |
| `PartC.Feature` | RB_Project2_PartC.py:95-100 | each cell becomes a number in [-1, 1] that reads back as that cell's mark |
| `PartC.Encode` | RB_Project2_PartC.py:92-100 | the feature vector has 9 entries; entry 3r+c is 1 for X, -1 for O and 0 for empty |
| `PartC.Decode` | RB_Project2_PartC.py:92-100 | a vector of 9 entries from {1, -1, 0} reads back as the board whose encoding it is; nothing else reads back |
| `PartC.DecodeEncode` | RB_Project2_PartC.py:92-100 | decoding the feature vector of a board gives that board back, so the encoding loses nothing |
| `PartC.DecodeIndex` | RB_Project2_PartC.py:104 | divmod(i, 3) of an index in [0, 9) is an in-range cell whose row-major position is i |
| `PartC.DecodeIndexOfIndex` | RB_Project2_PartC.py:104 | divmod of a cell's row-major position gives that cell back |
| `PartC.AiTarget` | RB_Project2_PartC.py:106-114 | if the predicted cell is empty it is the target; otherwise the first empty cell in row-major order; no target iff the board is full |
| `PartC.AiBoardChangesOneCell` | RB_Project2_PartC.py:107-114 | on a full board aiMove changes nothing; otherwise exactly one cell, an empty one, becomes O |
| `PartC.AiBoard` | RB_Project2_PartC.py:106-114 | an empty predicted cell gets O; otherwise O goes into the first empty cell in row-major order; a full board is left unchanged |
| `PartC.AiTurn` | RB_Project2_PartC.py:142-159 | the board after aiMove, then win, then full is checked for O; the turn becomes X only when the game goes on |
| `PartC.AiTurnNobodyElseWins` | RB_Project2_PartC.py:142-159 | from a board where nobody has a line, a predictor turn for O that does not end in a win leaves neither X nor O with a line |
| `PartC.Game.constructor` | RB_Project2_PartC.py:40-44 | a new game has a fresh empty board, X to move and the given model |
| `PartC.Game.SwitchPlayer` | RB_Project2_PartC.py:46-48 | turn becomes Other(turn), nothing else changes |
| `PartC.Game.ValidateEntry` | RB_Project2_PartC.py:50-55 | true iff both indices are in [0, 3) and that cell is empty |
| `PartC.Game.CheckFull` | RB_Project2_PartC.py:57-63 | true iff no cell is empty |
| `PartC.Game.CheckWin` | RB_Project2_PartC.py:65-86 | true iff some row, column or diagonal is uniformly mark |
| `PartC.Game.AiMove` | RB_Project2_PartC.py:89-114 | the board afterwards is AiBoard of the old board, for the model's prediction on the old board's feature vector |
| `PartC.Game.Step` | RB_Project2_PartC.py:122-159 | on X's turn, the result is TakeTurn with X; on O's turn, the result is AiTurn for the model's prediction |
| `PartC.Game.Restart` | RB_Project2_PartC.py:161-163 | the game has a fresh empty board and X to move; the model is a constant field and is kept |

## Left out

- `printBoard` in all three files: it only renders the board to the console.
- The `input()` prompts and the `split(',')` / `int()` parsing of an entry. An entry is either a pair of integers or `Unparseable`, and an unparseable one is rejected like an invalid move.
- The recursive re-entry of `playGame` and the "play again" prompt. Only the reset done by `__init__` is modelled, as `Restart`.
- Loading the dataset, training the classifier and `model.predict` in Part C. The predictor is the function field `model` from feature vectors to integers. `AiMove` and `Step` require its answer to lie in [0, 9). The source does not check this, and an out-of-range answer (Python's negative indexing or an IndexError) is not modelled.
- The (-1, -1) returned by `minimaxMove` on a full board flowing into `play_area[-1][-1]`. The loop stops on a full board, so this cannot happen. `PartB.Game.Step` states it as a precondition: on O's turn the board is not full.
- The `__main__` blocks: they only create a game and start it.
- End-to-end runs of several turns on concrete boards are not stated as lemmas. The per-turn contracts (`Rules.TakeTurn`, `Rules.Settle`, `PartB.ComputerTurn`, `PartC.AiTurn`) state each transition for all boards.
