# Vanishing tic-tac-toe: game state and moves

This project models the game logic of a browser tic-tac-toe component with a
twist. Only the five most recent marks stay on the board. When a sixth mark is
played, the oldest mark in play vanishes, so the board never fills for good.

The component keeps four pieces of state:

- a move counter;
- a lock, set once somebody has won;
- the nine cells, each empty, "x" or "o";
- the history: the cells of the marks currently in play, oldest first.

A click on a cell ("toggle") is ignored in three cases: the game is locked, the
cell is taken, or the cell does not exist. Otherwise the component copies the
board and appends the cell to the history. If the history now holds more than
five cells, the oldest entry is dropped and its cell is cleared on the copy.
Then the cell gets "x" when the counter is even and "o" when it is odd. The
counter advances. The eight lines are scanned in order (rows, columns,
diagonals), and the first line filled by one mark locks the game. Reset
restores the empty board, counter 0, no lock and an empty history.

Files:

- `board.dfy` (module `Board`): the cells, the eight lines and win detection.
  - `CheckWinner` is a recursive function, characterised by lemmas.
  - `ScanWinner` is the source's early-return loop, proved equal to it.
- `game.dfy` (module `Game`): the component as a class `TicTacToe`.
  - Its fields are `count`, `lock`, `data` (an `array<Cell>` of nine cells) and `history`.
  - Its methods are `Toggle`, `Won` and `ResetGame`.
  - The pure functions `NextBoard` and `NextHistory` specify an accepted move.
  - `BoardOf` replays a history into the board it describes.
  - A ghost field `moves` logs every cell played since the last reset. It is
    not part of the component's state; it lets the model name the move that
    placed each cell in play.

The class invariant `Valid` says:

- the board is exactly `BoardOf(history, count)`;
- the history holds `min(count, 5)` distinct cells in `0..8`;
- the log has `count` entries and the history is its last five (`LastMoves`);
- the game is locked exactly when `CheckWinner` finds a winner.

The constructor establishes the invariant, and `Toggle` and `ResetGame` keep
it. `Won` requires the invariant's board and log parts and the board's winner
as its argument, and it ensures the whole invariant. `toggle` is its only
caller, and calls it exactly that way.

The code clears the evicted cell first (`src/TicTacToe/TicTacToe.jsx:41`) and
writes the new mark afterwards (`:44`). `EvictedIsNotPlayed` proves that the two
cells never coincide in a reachable state, so the other order would give the
same board.

## Model

| member | source | states |
|---|---|---|
| Board.WinnerFromSpec | src/TicTacToe/TicTacToe.jsx:23-29 | scanning from line `i` finds nothing exactly when no line from `i` on is uniformly filled; otherwise it yields the mark owning the first such line |
| Board.CheckWinnerSpec | src/TicTacToe/TicTacToe.jsx:12-30 | the winner is null exactly when no line is filled by one mark; a reported winner is never empty and owns the first won line in scan order |
| Board.ScanWinner | src/TicTacToe/TicTacToe.jsx:23-29 | the loop over the lines, which returns at the first line whose three cells hold the same non-empty mark, computes the same result as CheckWinner |
| Board.CheckWinnerOfFirstLine | src/TicTacToe/TicTacToe.jsx:23-28 | if line k is owned by mark m and no earlier line is won, the winner is m (ties between lines go to scan order) |
| Board.RelabelWinnerFrom | src/TicTacToe/TicTacToe.jsx:25-26 | swapping "x" and "o" on every cell swaps the result of the scan from any line on |
| Board.CheckWinnerRelabel | src/TicTacToe/TicTacToe.jsx:25-26 | win detection favours neither mark: the winner of the swapped board is the swapped winner |
| Game.MarkFor | src/TicTacToe/TicTacToe.jsx:44 | every move writes a mark, never an empty cell |
| Game.OccupiedUpdate | src/TicTacToe/TicTacToe.jsx:41-44 | writing one cell changes the number of occupied cells by what was removed and what was written |
| Game.OccupiedIsHistoryLength | src/TicTacToe/TicTacToe.jsx:37-44 | the board replayed from a distinct history has exactly as many occupied cells as the history has entries |
| Game.BoardOfOutside | src/TicTacToe/TicTacToe.jsx:37-44 | a cell that is not in the history is empty |
| Game.BoardOfEntry | src/TicTacToe/TicTacToe.jsx:37-44 | the k-th history entry holds the mark of move count - \|history\| + k (turn parity of the move that placed it) |
| Game.BoardOfTail | src/TicTacToe/TicTacToe.jsx:39-41 | dropping the oldest history entry clears its cell and changes no other cell |
| Game.ConsistentCells | src/TicTacToe/TicTacToe.jsx:33-44 | in a valid state a cell is occupied exactly when it is in the history, and each history entry holds the mark of its move |
| Game.NextHistoryShape | src/TicTacToe/TicTacToe.jsx:37-40 | the history after a move ends with the played cell, is the old one plus that cell below the window, loses its oldest entry at the window, and never exceeds five entries |
| Game.EvictedIsNotPlayed | src/TicTacToe/TicTacToe.jsx:33-41 | a playable (empty) cell is never in the history, so the cell evicted by a move is never the cell it plays |
| Game.NextHistoryOfLastMoves | src/TicTacToe/TicTacToe.jsx:37-40 | the history after a move is the last five entries of the move log extended by that move, so the history is always the tail of the log |
| Game.EvictsMoveCountMinusWindow | src/TicTacToe/TicTacToe.jsx:39-41 | once five marks are in play, the evicted cell is the cell played by move count - 5 (entry count - 5 of the log), whichever side played it, and it still holds that move's mark |
| Game.NextBoardCells | src/TicTacToe/TicTacToe.jsx:36-44 | an accepted move writes the mark of the side to move on the played cell, empties the evicted cell, and leaves every other cell unchanged |
| Game.NextStateConsistent | src/TicTacToe/TicTacToe.jsx:33-47 | an accepted move keeps the state consistent: the new board is the one the new history describes, and the new history is distinct, in range and of length min(count + 1, 5) |
| Game.ConsistentOccupied | src/TicTacToe/TicTacToe.jsx:36-44 | in every valid state the number of occupied cells equals the history length, which is at most five |
| Game.TicTacToe.constructor | src/TicTacToe/TicTacToe.jsx:6-9 | a new game has an empty board, counter 0, no lock, an empty history and an empty log, and is valid |
| Game.TicTacToe.Toggle | src/TicTacToe/TicTacToe.jsx:32-53 | a move refused because the game is locked, the cell is taken or does not exist changes nothing; an accepted move installs a fresh board equal to NextBoard, sets the history to NextHistory, appends the cell to the log and advances the counter by one; the game is locked exactly when the new board has a winner, and the invariant is kept |
| Game.TicTacToe.Advance | src/TicTacToe/TicTacToe.jsx:36-44 | the copy-evict-write steps of an accepted move produce a fresh array holding NextBoard and the history NextHistory |
| Game.TicTacToe.PlayKeepsValid | src/TicTacToe/TicTacToe.jsx:36-47 | fields set to NextBoard, NextHistory, the extended log and count + 1 after a legal move satisfy the board and log parts of the invariant |
| Game.TicTacToe.Won | src/TicTacToe/TicTacToe.jsx:49-56 | announcing the board's winner sets the lock, touches nothing else, and makes the whole invariant hold |
| Game.TicTacToe.ResetGame | src/TicTacToe/TicTacToe.jsx:72-78 | reset installs an empty board, counter 0, no lock, an empty history and an empty log, and the invariant holds again |

## Left out

- The rendering: JSX markup, icons, CSS classes and the title text. `won`'s
  congratulation title and `resetGame`'s title reset are presentation only.
- React's state setters. Their deferred updates are modelled as direct field
  assignments at the end of `Toggle`. `toggle` itself already works on its local
  copies `newData` and `newHistory`, so the winner check sees the new board in
  both.
- Non-integer arguments to `toggle`. JavaScript would accept any value; the
  model takes an `int`. An integer outside `0..8` reads `undefined` in the
  source, is not `""`, and is refused in the model as well. The cells are
  clicked with 0..8 only.
- The cells hold the strings `""`, `"x"` and `"o"` in the source and are the
  datatype `Cell` here. `checkWinner`'s truthiness test on a cell is the test
  `!= Empty`.
- The component has no automated opponent, minimax search or draw test; none
  is modelled.
- Game.TicTacToe.Won: does not model the `winner` argument's effect on the
  title, because that is presentation only.
